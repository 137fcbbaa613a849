/** Choice of the grouping key from a decoded From text
    (tidy_inbox.py:159 and 178-183).

    `email.utils.parseaddr` is kept abstract (a function handed in that
    returns a possibly empty address). The fallback, a search with the
    regular expression `<(.*?)>`, is modelled exactly: `.` matches anything
    but a newline and `*?` is lazy, so a match at position i captures the
    text up to the nearest `>` after i, provided no newline comes first, and
    the search reports the leftmost position that matches. */
module SenderAddress {
  import opened Wrappers

  /** `<(.*?)>` matches at position i of s with group 1 equal to c. */
  ghost predicate AngleMatch(s: string, i: int, c: string) {
    && 0 <= i
    && i + |c| + 1 < |s|
    && s[i] == '<'
    && s[i + 1..i + 1 + |c|] == c
    && s[i + 1 + |c|] == '>'
    && '>' !in c
    && '\n' !in c
  }

  /** The first position at or after j holding `>` or a newline, or |s|. */
  function StopAt(s: string, j: nat): (r: nat)
    requires j <= |s|
    ensures j <= r <= |s|
    ensures forall m :: j <= m < r ==> s[m] != '>' && s[m] != '\n'
    ensures r < |s| ==> s[r] == '>' || s[r] == '\n'
    decreases |s| - j
  {
    if j == |s| || s[j] == '>' || s[j] == '\n' then j else StopAt(s, j + 1)
  }

  /** A match at i ends at the first `>`-or-newline after i, which must be a `>`. */
  lemma MatchAtIff(s: string, i: nat, c: string)
    requires i < |s|
    ensures AngleMatch(s, i, c) <==>
              s[i] == '<' && StopAt(s, i + 1) < |s| && s[StopAt(s, i + 1)] == '>' &&
              c == s[i + 1..StopAt(s, i + 1)]
  {
    var j := StopAt(s, i + 1);
    if AngleMatch(s, i, c) {
      var e := i + 1 + |c|;
      forall m | i + 1 <= m < e
        ensures s[m] != '>' && s[m] != '\n'
      {
        assert s[m] == c[m - i - 1];
      }
      assert j >= e;
    }
  }

  /** The regex search started at position `from`: the leftmost match and its group. */
  function SearchAngle(s: string, from: nat): (r: Option<string>)
    requires from <= |s|
    ensures r.Some? ==>
              exists i :: from <= i && AngleMatch(s, i, r.value) &&
                forall k, c :: from <= k < i ==> !AngleMatch(s, k, c)
    ensures r.None? ==> forall k, c :: from <= k ==> !AngleMatch(s, k, c)
    decreases |s| - from
  {
    if from == |s| then None
    else
      var j := StopAt(s, from + 1);
      if s[from] == '<' && j < |s| && s[j] == '>' then
        MatchAtIff(s, from, s[from + 1..j]);
        Some(s[from + 1..j])
      else
        assert forall c :: !AngleMatch(s, from, c) by {
          forall c ensures !AngleMatch(s, from, c) {
            MatchAtIff(s, from, c);
          }
        }
        SearchAngle(s, from + 1)
  }

  /** `sender_email_pattern.search(sender)`: group 1 of the leftmost match. */
  function FirstAngle(s: string): Option<string> {
    SearchAngle(s, 0)
  }

  /** The grouping key of tidy_inbox.py:178-183: the parsed address if it is
      non-empty, else the first `<...>` capture, else the whole text. */
  function SenderKey(parseAddr: string -> string, sender: string): string {
    var addr := parseAddr(sender);
    if addr != "" then addr
    else
      match FirstAngle(sender)
      case Some(c) => c
      case None => sender
  }

  /** The key is the parsed address when there is one; otherwise the group
      of the leftmost `<...>` match; otherwise, when nothing matches, the
      whole text. */
  lemma SenderKeySpec(parseAddr: string -> string, sender: string)
    ensures parseAddr(sender) != "" ==> SenderKey(parseAddr, sender) == parseAddr(sender)
    ensures parseAddr(sender) == "" ==>
              (exists i :: AngleMatch(sender, i, SenderKey(parseAddr, sender)) &&
                 forall k, c :: 0 <= k < i ==> !AngleMatch(sender, k, c)) ||
              (SenderKey(parseAddr, sender) == sender && forall k, c :: !AngleMatch(sender, k, c))
  {
    var r := FirstAngle(sender);
    if parseAddr(sender) == "" && r.Some? {
      var i :| 0 <= i && AngleMatch(sender, i, r.value) && forall k, c :: 0 <= k < i ==> !AngleMatch(sender, k, c);
    }
  }

  /** The key is empty, and the message is skipped, exactly when parseaddr
      finds no address and either the first `<...>` encloses nothing or the
      text has no `<...>` at all and is itself empty. */
  lemma SenderKeyEmptyIff(parseAddr: string -> string, sender: string)
    ensures SenderKey(parseAddr, sender) == "" <==>
              parseAddr(sender) == "" &&
              ((exists i :: AngleMatch(sender, i, "") && forall k, c :: 0 <= k < i ==> !AngleMatch(sender, k, c)) ||
               (sender == "" && forall k, c :: !AngleMatch(sender, k, c)))
  {
    if parseAddr(sender) == "" {
      var r := FirstAngle(sender);
      if r.Some? {
        var i :| 0 <= i && AngleMatch(sender, i, r.value) &&
          forall k, c :: 0 <= k < i ==> !AngleMatch(sender, k, c);
        if exists i' :: AngleMatch(sender, i', "") && forall k, c :: 0 <= k < i' ==> !AngleMatch(sender, k, c) {
          var i' :| AngleMatch(sender, i', "") && forall k, c :: 0 <= k < i' ==> !AngleMatch(sender, k, c);
          assert i == i';
          MatchAtIff(sender, i, r.value);
          MatchAtIff(sender, i, "");
        }
      }
    }
  }

  /** The worked case of an address list: `parseaddr` rejects a From text
      holding two addresses and returns an empty address, and the first
      `<...>` capture then gives the first address. */
  lemma AddressListFallback(parseAddr: string -> string)
    requires parseAddr("<a@b>, <c@d>") == ""
    ensures SenderKey(parseAddr, "<a@b>, <c@d>") == "a@b"
  {
    var s := "<a@b>, <c@d>";
    assert StopAt(s, 1) == 4 by {
      assert StopAt(s, 4) == 4;
    }
    assert s[1..4] == "a@b";
    assert FirstAngle(s) == Some("a@b");
  }
}
