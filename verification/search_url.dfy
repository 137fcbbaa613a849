/** The query and link built for each ranked sender: `generate_filter_query`
    (tidy_inbox.py:241-243) and the assembly of the filter string and search
    URL (tidy_inbox.py:279-282), with `urllib.parse.quote_plus` written out
    over the UTF-8 bytes of its argument and `unquote_plus` as its partner. */
module SearchUrl {
  import opened Wrappers
  import opened Text
  import Utf8

  const FromOpen: string := "from:("
  const FromClose: string := ")"

  /** `generate_filter_query(sender_email)`. */
  function FilterQuery(senderEmail: string): string {
    FromOpen + senderEmail + FromClose
  }

  /** Reads the sender back out of a filter query, if it has that shape. */
  function SenderOfQuery(q: string): Option<string> {
    if |q| >= |FromOpen| + |FromClose| && q[..|FromOpen|] == FromOpen && q[|q| - 1..] == FromClose
    then Some(q[|FromOpen|..|q| - 1])
    else None
  }

  /** The filter query names its sender: reading it back gives the sender. */
  lemma FilterQueryNamesSender(senderEmail: string)
    ensures SenderOfQuery(FilterQuery(senderEmail)) == Some(senderEmail)
  {
    var q := FilterQuery(senderEmail);
    assert q[..|FromOpen|] == FromOpen;
    assert q[|q| - 1..] == FromClose;
    assert q[|FromOpen|..|q| - 1] == senderEmail;
  }

  /** Two senders share a filter query only if they are the same sender. */
  lemma FilterQueryInjective(a: string, b: string)
    ensures FilterQuery(a) == FilterQuery(b) <==> a == b
  {
    if FilterQuery(a) == FilterQuery(b) {
      FilterQueryNamesSender(a);
      FilterQueryNamesSender(b);
    }
  }

  /** `f"{args.query} {filter_query}"`. */
  function FullFilter(query: string, senderEmail: string): string {
    query + " " + FilterQuery(senderEmail)
  }

  // ----- quote_plus ----------------------------------------------------------------

  /** The bytes `quote` never escapes: ASCII letters, digits and `_.-~`.
      `quote_plus` passes `safe=''`, so nothing else is kept. */
  predicate Unreserved(b: byte) {
    ('A' as int <= b <= 'Z' as int) || ('a' as int <= b <= 'z' as int) ||
    ('0' as int <= b <= '9' as int) ||
    b == '_' as int || b == '.' as int || b == '-' as int || b == '~' as int
  }

  const HexDigits: string := "0123456789ABCDEF"

  /** The upper-case hex digit of d, as `%{:02X}` writes it. */
  function HexDigit(d: int): char
    requires 0 <= d < 16
  {
    HexDigits[d]
  }

  /** How `quote_plus` writes one byte of the encoded text. */
  function QuoteByte(b: byte): string {
    if Unreserved(b) then [b as char]
    else if b == 0x20 then "+"
    else ['%', HexDigit(b / 16), HexDigit(b % 16)]
  }

  /** `quote_plus` on bytes: each byte written in turn. */
  function QuoteBytes(bs: seq<byte>): string
    decreases |bs|
  {
    if |bs| == 0 then "" else QuoteByte(bs[0]) + QuoteBytes(bs[1..])
  }

  /** `urllib.parse.quote_plus(s)` with the default UTF-8 encoding. */
  function QuotePlus(s: string): string {
    QuoteBytes(Utf8.Encode(s))
  }

  /** The characters a `quote_plus` result is made of. */
  predicate UrlSafe(ch: char) {
    ('A' <= ch <= 'Z') || ('a' <= ch <= 'z') || ('0' <= ch <= '9') ||
    ch == '_' || ch == '.' || ch == '-' || ch == '~' || ch == '+' || ch == '%'
  }

  lemma {:induction false} QuoteBytesSafe(bs: seq<byte>)
    ensures forall i :: 0 <= i < |QuoteBytes(bs)| ==> UrlSafe(QuoteBytes(bs)[i])
    decreases |bs|
  {
    if |bs| > 0 {
      QuoteBytesSafe(bs[1..]);
      var head := QuoteByte(bs[0]);
      assert forall i :: 0 <= i < |head| ==> UrlSafe(head[i]);
      forall i | 0 <= i < |QuoteBytes(bs)|
        ensures UrlSafe(QuoteBytes(bs)[i])
      {
        if i >= |head| {
          assert QuoteBytes(bs)[i] == QuoteBytes(bs[1..])[i - |head|];
        }
      }
    }
  }

  /** The encoded text needs no further escaping in a URL fragment: no space,
      no `#`, `&`, `/`, `:` or `(`, and nothing outside ASCII. */
  lemma QuotePlusSafe(s: string)
    ensures forall i :: 0 <= i < |QuotePlus(s)| ==> UrlSafe(QuotePlus(s)[i])
  {
    QuoteBytesSafe(Utf8.Encode(s));
  }

  /** The shape of a `quote_plus` result: a run of unreserved characters,
      `+` signs and `%XX` escapes written with upper-case hex digits. */
  predicate WellEncoded(s: string)
    decreases |s|
  {
    if |s| == 0 then true
    else if s[0] == '%' then
      |s| >= 3 && s[1] in HexDigits && s[2] in HexDigits && WellEncoded(s[3..])
    else
      (s[0] == '+' || (s[0] as int < 256 && Unreserved(s[0] as int))) && WellEncoded(s[1..])
  }

  lemma WellEncodedQuoteByte(b: byte, rest: string)
    requires WellEncoded(rest)
    ensures WellEncoded(QuoteByte(b) + rest)
  {
    var s := QuoteByte(b) + rest;
    if Unreserved(b) {
      assert s[0] == b as char && s[1..] == rest;
    } else if b == 0x20 {
      assert s[0] == '+' && s[1..] == rest;
    } else {
      assert s[0] == '%' && s[1] == HexDigit(b / 16) && s[2] == HexDigit(b % 16);
      assert s[3..] == rest;
    }
  }

  lemma {:induction false} QuoteBytesWellEncoded(bs: seq<byte>)
    ensures WellEncoded(QuoteBytes(bs))
    decreases |bs|
  {
    if |bs| > 0 {
      QuoteBytesWellEncoded(bs[1..]);
      WellEncodedQuoteByte(bs[0], QuoteBytes(bs[1..]));
    }
  }

  /** Every `%` of a `quote_plus` result starts a `%XX` escape with two
      upper-case hex digits; every other character is unreserved or `+`. */
  lemma QuotePlusWellEncoded(s: string)
    ensures WellEncoded(QuotePlus(s))
  {
    QuoteBytesWellEncoded(Utf8.Encode(s));
  }

  // ----- unquote_plus ----------------------------------------------------------------

  predicate IsHex(ch: char) {
    ('0' <= ch <= '9') || ('a' <= ch <= 'f') || ('A' <= ch <= 'F')
  }

  function HexValue(ch: char): (r: int)
    requires IsHex(ch)
    ensures 0 <= r < 16
  {
    if '0' <= ch <= '9' then ch as int - '0' as int
    else if 'a' <= ch <= 'f' then ch as int - 'a' as int + 10
    else ch as int - 'A' as int + 10
  }

  /** `unquote_to_bytes` after `+` has become a space: `%` and two hex
      digits of either case are one byte, a `%` without them stands for
      itself, and every other character stands for its UTF-8 bytes. */
  function PercentDecode(s: string): seq<byte>
    decreases |s|
  {
    if |s| == 0 then []
    else if s[0] == '+' then [0x20] + PercentDecode(s[1..])
    else if s[0] == '%' && |s| >= 3 && IsHex(s[1]) && IsHex(s[2]) then
      [HexValue(s[1]) * 16 + HexValue(s[2])] + PercentDecode(s[3..])
    else Utf8.EncodeChar(s[0]) + PercentDecode(s[1..])
  }

  /** `urllib.parse.unquote_plus(s)`, strict: None where the bytes are not UTF-8. */
  function UnquotePlus(s: string): Option<string> {
    Utf8.Decode(PercentDecode(s))
  }

  lemma HexDigitValue(d: int)
    requires 0 <= d < 16
    ensures IsHex(HexDigit(d)) && HexValue(HexDigit(d)) == d
  {
  }

  /** Decoding the text of one byte followed by more gives that byte first. */
  lemma PercentDecodeQuoteByte(b: byte, rest: string)
    ensures PercentDecode(QuoteByte(b) + rest) == [b] + PercentDecode(rest)
  {
    var s := QuoteByte(b) + rest;
    if Unreserved(b) {
      assert s[0] == b as char && s[1..] == rest;
    } else if b == 0x20 {
      assert s[0] == '+' && s[1..] == rest;
    } else {
      HexDigitValue(b / 16);
      HexDigitValue(b % 16);
      assert s[0] == '%' && s[1] == HexDigit(b / 16) && s[2] == HexDigit(b % 16);
      assert s[3..] == rest;
    }
  }

  /** Percent-decoding undoes the byte escaping exactly. */
  lemma {:induction false} PercentDecodeQuoteBytes(bs: seq<byte>)
    ensures PercentDecode(QuoteBytes(bs)) == bs
    decreases |bs|
  {
    if |bs| > 0 {
      PercentDecodeQuoteByte(bs[0], QuoteBytes(bs[1..]));
      PercentDecodeQuoteBytes(bs[1..]);
      assert [bs[0]] + bs[1..] == bs;
    }
  }

  /** `unquote_plus(quote_plus(s)) == s` for every string. */
  lemma UnquoteQuotePlus(s: string)
    ensures UnquotePlus(QuotePlus(s)) == Some(s)
  {
    PercentDecodeQuoteBytes(Utf8.Encode(s));
    Utf8.DecodeEncode(s);
  }

  /** Distinct strings never share an encoding. */
  lemma QuotePlusInjective(s: string, t: string)
    ensures QuotePlus(s) == QuotePlus(t) <==> s == t
  {
    if QuotePlus(s) == QuotePlus(t) {
      UnquoteQuotePlus(s);
      UnquoteQuotePlus(t);
    }
  }

  // ----- The search link -----------------------------------------------------------

  const SearchPrefix: string := "https://mail.google.com/mail/u/0/#search/"

  /** The search URL of tidy_inbox.py:282. */
  function SearchLink(query: string, senderEmail: string): string {
    SearchPrefix + QuotePlus(FullFilter(query, senderEmail))
  }

  /** The link is the fixed prefix followed by a fragment that decodes to
      the full filter string, whose tail names the sender. */
  lemma SearchLinkDecodes(query: string, senderEmail: string)
    ensures var url := SearchLink(query, senderEmail);
            |url| >= |SearchPrefix| && url[..|SearchPrefix|] == SearchPrefix &&
            UnquotePlus(url[|SearchPrefix|..]) == Some(FullFilter(query, senderEmail))
    ensures var full := FullFilter(query, senderEmail);
            full[..|query| + 1] == query + " " &&
            SenderOfQuery(full[|query| + 1..]) == Some(senderEmail)
  {
    var url := SearchLink(query, senderEmail);
    assert url[|SearchPrefix|..] == QuotePlus(FullFilter(query, senderEmail));
    UnquoteQuotePlus(FullFilter(query, senderEmail));
    var full := FullFilter(query, senderEmail);
    assert full[|query| + 1..] == FilterQuery(senderEmail);
    FilterQueryNamesSender(senderEmail);
  }

  /** Under one query, different senders get different links. */
  lemma SearchLinkInjective(query: string, a: string, b: string)
    ensures SearchLink(query, a) == SearchLink(query, b) <==> a == b
  {
    if SearchLink(query, a) == SearchLink(query, b) {
      SearchLinkDecodes(query, a);
      SearchLinkDecodes(query, b);
    }
  }
}
