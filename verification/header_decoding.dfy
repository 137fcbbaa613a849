/** `decode_email_header` (tidy_inbox.py:28-37).

    The library call `email.header.decode_header` is kept abstract: its
    output is handed in as a sequence of parts, each a payload (a Python
    `str` or `bytes` object) with an optional charset. `bytes.decode(charset)`
    is the abstract `decodeBytes`, which answers `None` for an unknown
    charset or malformed bytes. Only the loop and the space join are
    modelled.

    Two versions are given. `DecodeEmailHeaderAsWritten` follows the code
    exactly, including its failure when `decode_header` hands back a
    charset-less part as `bytes` (which it does for every unencoded stretch
    of a header that also holds an encoded word): the `' '.join` then raises
    `TypeError`. `DecodeEmailHeader` is the corrected decoder; it decodes such
    a part as US-ASCII text. The pipeline takes either one as a parameter
    (`Extraction.ProgramCodecs`, `Extraction.CorrectedCodecs`). */
module HeaderDecoding {
  import opened Wrappers
  import opened Text

  datatype Payload = Str(text: string) | Bytes(bytes: seq<byte>)

  /** One `(payload, charset)` pair of `decode_header`'s output. */
  datatype Part = Part(payload: Payload, charset: Option<string>)

  /** The exceptions decoding can raise; none is caught by the caller. */
  datatype DecodeError =
    | CharsetError(charset: string)  // LookupError / UnicodeDecodeError from bytes.decode
    | NoDecodeOnStr                  // AttributeError: a str payload paired with a charset
    | JoinTypeError                  // TypeError: ' '.join met a bytes object

  /** The charset the corrected decoder uses for a charset-less bytes part. */
  const DefaultCharset: string := "us-ascii"

  // ----- As written -------------------------------------------------------

  /** The object one loop iteration appends to `decoded_parts`. */
  function AppendedObject(p: Part, decodeBytes: (seq<byte>, string) -> Option<string>): Result<Payload, DecodeError> {
    match p.charset
    case None => Success(p.payload)
    case Some(cs) =>
      match p.payload
      case Str(_) => Failure(NoDecodeOnStr)
      case Bytes(b) =>
        match decodeBytes(b, cs)
        case None => Failure(CharsetError(cs))
        case Some(t) => Success(Str(t))
  }

  /** The loop at tidy_inbox.py:32-36; the first failing part aborts it. */
  function CollectAsWritten(parts: seq<Part>, decodeBytes: (seq<byte>, string) -> Option<string>): Result<seq<Payload>, DecodeError>
    decreases |parts|
  {
    if |parts| == 0 then Success([])
    else
      var init :- CollectAsWritten(parts[..|parts| - 1], decodeBytes);
      var last :- AppendedObject(parts[|parts| - 1], decodeBytes);
      Success(init + [last])
  }

  predicate AllStr(objs: seq<Payload>) {
    forall i :: 0 <= i < |objs| ==> objs[i].Str?
  }

  function Texts(objs: seq<Payload>): seq<string>
    requires AllStr(objs)
  {
    seq(|objs|, i requires 0 <= i < |objs| => objs[i].text)
  }

  function DecodeEmailHeaderAsWritten(parts: seq<Part>, decodeBytes: (seq<byte>, string) -> Option<string>): Result<string, DecodeError> {
    var objs :- CollectAsWritten(parts, decodeBytes);
    if AllStr(objs) then Success(JoinSpaced(Texts(objs))) else Failure(JoinTypeError)
  }

  // ----- Corrected ----------------------------------------------------------

  /** The text one part contributes; a charset-less bytes part is read as
      US-ASCII instead of being passed on as bytes. */
  function PartText(p: Part, decodeBytes: (seq<byte>, string) -> Option<string>): Result<string, DecodeError> {
    match p.payload
    case Str(t) => if p.charset.None? then Success(t) else Failure(NoDecodeOnStr)
    case Bytes(b) =>
      var cs := if p.charset.Some? then p.charset.value else DefaultCharset;
      match decodeBytes(b, cs)
      case None => Failure(CharsetError(cs))
      case Some(t) => Success(t)
  }

  function PartTexts(parts: seq<Part>, decodeBytes: (seq<byte>, string) -> Option<string>): Result<seq<string>, DecodeError>
    decreases |parts|
  {
    if |parts| == 0 then Success([])
    else
      var init :- PartTexts(parts[..|parts| - 1], decodeBytes);
      var last :- PartText(parts[|parts| - 1], decodeBytes);
      Success(init + [last])
  }

  function DecodeEmailHeader(parts: seq<Part>, decodeBytes: (seq<byte>, string) -> Option<string>): Result<string, DecodeError> {
    var texts :- PartTexts(parts, decodeBytes);
    Success(JoinSpaced(texts))
  }

  // ----- Properties -----------------------------------------------------------

  /** Every part is decoded in order: the texts are the parts' own texts,
      and the collection fails exactly when some part fails, with the error
      of the first failing part. */
  lemma {:induction false} PartTextsSpec(parts: seq<Part>, decodeBytes: (seq<byte>, string) -> Option<string>)
    ensures PartTexts(parts, decodeBytes).Success? <==>
              forall i :: 0 <= i < |parts| ==> PartText(parts[i], decodeBytes).Success?
    ensures PartTexts(parts, decodeBytes).Success? ==>
              |PartTexts(parts, decodeBytes).value| == |parts| &&
              forall i :: 0 <= i < |parts| ==>
                PartTexts(parts, decodeBytes).value[i] == PartText(parts[i], decodeBytes).value
    ensures PartTexts(parts, decodeBytes).Failure? ==>
              exists i :: 0 <= i < |parts| &&
                PartText(parts[i], decodeBytes) == Failure(PartTexts(parts, decodeBytes).error) &&
                forall j :: 0 <= j < i ==> PartText(parts[j], decodeBytes).Success?
    decreases |parts|
  {
    if |parts| > 0 {
      var init := parts[..|parts| - 1];
      PartTextsSpec(init, decodeBytes);
      assert forall i :: 0 <= i < |init| ==> init[i] == parts[i];
      if PartTexts(init, decodeBytes).Failure? {
        var i :| 0 <= i < |init| &&
          PartText(init[i], decodeBytes) == Failure(PartTexts(init, decodeBytes).error) &&
          forall j :: 0 <= j < i ==> PartText(init[j], decodeBytes).Success?;
        assert PartText(parts[i], decodeBytes).Failure?;
      }
    }
  }

  /** The corrected decoder fails exactly when some part cannot be decoded,
      never because of the join; on success it is the space join of the
      parts' texts, each part contributing its own text. */
  lemma DecodeEmailHeaderSpec(parts: seq<Part>, decodeBytes: (seq<byte>, string) -> Option<string>)
    ensures DecodeEmailHeader(parts, decodeBytes).Failure? <==>
              exists i :: 0 <= i < |parts| && PartText(parts[i], decodeBytes).Failure?
    ensures DecodeEmailHeader(parts, decodeBytes).Failure? ==>
              DecodeEmailHeader(parts, decodeBytes).error != JoinTypeError
    ensures DecodeEmailHeader(parts, decodeBytes).Success? ==>
              exists texts: seq<string> ::
                |texts| == |parts| &&
                (forall i :: 0 <= i < |parts| ==> Success(texts[i]) == PartText(parts[i], decodeBytes)) &&
                DecodeEmailHeader(parts, decodeBytes).value == JoinSpaced(texts)
  {
    PartTextsSpec(parts, decodeBytes);
    if PartTexts(parts, decodeBytes).Failure? {
      var i :| 0 <= i < |parts| &&
        PartText(parts[i], decodeBytes) == Failure(PartTexts(parts, decodeBytes).error) &&
        forall j :: 0 <= j < i ==> PartText(parts[j], decodeBytes).Success?;
    } else {
      var texts := PartTexts(parts, decodeBytes).value;
      assert forall i :: 0 <= i < |parts| ==> Success(texts[i]) == PartText(parts[i], decodeBytes);
    }
  }

  /** A header with no encoded word comes back from `decode_header` as one
      `str` part without a charset, and is returned unchanged. */
  lemma PlainHeaderPassesThrough(s: string, decodeBytes: (seq<byte>, string) -> Option<string>)
    ensures DecodeEmailHeaderAsWritten([Part(Str(s), None)], decodeBytes) == Success(s)
    ensures DecodeEmailHeader([Part(Str(s), None)], decodeBytes) == Success(s)
  {
    var parts := [Part(Str(s), None)];
    assert parts[..0] == [];
    assert CollectAsWritten(parts[..0], decodeBytes) == Success([]);
    assert PartTexts(parts[..0], decodeBytes) == Success([]);
    var c := CollectAsWritten(parts, decodeBytes);
    assert c.Success? && c.value == [Str(s)];
    assert Texts([Str(s)]) == [s];
    var t := PartTexts(parts, decodeBytes);
    assert t.Success? && t.value == [s];
  }

  /** The as-written loop succeeds exactly when every charset-bearing part
      is a bytes payload its charset decodes; the objects it collects are
      the decoded texts and the untouched charset-less payloads. */
  lemma {:induction false} CollectAsWrittenSpec(parts: seq<Part>, decodeBytes: (seq<byte>, string) -> Option<string>)
    ensures CollectAsWritten(parts, decodeBytes).Success? <==>
              forall i :: 0 <= i < |parts| ==> AppendedObject(parts[i], decodeBytes).Success?
    ensures CollectAsWritten(parts, decodeBytes).Success? ==>
              |CollectAsWritten(parts, decodeBytes).value| == |parts| &&
              forall i :: 0 <= i < |parts| ==>
                CollectAsWritten(parts, decodeBytes).value[i] == AppendedObject(parts[i], decodeBytes).value
    decreases |parts|
  {
    if |parts| > 0 {
      var init := parts[..|parts| - 1];
      CollectAsWrittenSpec(init, decodeBytes);
      assert forall i :: 0 <= i < |init| ==> init[i] == parts[i];
    }
  }

  /** The as-written decoder raises `TypeError` exactly when every charset
      decodes but some charset-less part is a bytes object, which
      `decode_header` produces for the plain stretches of any header that
      also holds an encoded word. */
  lemma AsWrittenJoinTypeErrorIff(parts: seq<Part>, decodeBytes: (seq<byte>, string) -> Option<string>)
    ensures DecodeEmailHeaderAsWritten(parts, decodeBytes) == Failure(JoinTypeError) <==>
              (forall i :: 0 <= i < |parts| ==> AppendedObject(parts[i], decodeBytes).Success?) &&
              (exists i :: 0 <= i < |parts| && parts[i].charset.None? && parts[i].payload.Bytes?)
  {
    CollectAsWrittenSpec(parts, decodeBytes);
    var c := CollectAsWritten(parts, decodeBytes);
    if c.Success? {
      if exists i :: 0 <= i < |parts| && parts[i].charset.None? && parts[i].payload.Bytes? {
        var i :| 0 <= i < |parts| && parts[i].charset.None? && parts[i].payload.Bytes?;
        assert !c.value[i].Str?;
      } else {
        forall i | 0 <= i < |parts|
          ensures c.value[i].Str?
        {
          assert c.value[i] == AppendedObject(parts[i], decodeBytes).value;
        }
      }
    } else {
      var k :| 0 <= k < |parts| && AppendedObject(parts[k], decodeBytes).Failure?;
      match AppendedObject(parts[k], decodeBytes).error {
        case CharsetError(_) =>
        case NoDecodeOnStr =>
        case JoinTypeError =>
      }
      assert c.error != JoinTypeError by {
        AppendedNeverJoinError(parts, decodeBytes);
      }
    }
  }

  /** The as-written decoder returns a text exactly when every loop step
      succeeds and no charset-less part is a bytes payload; the text is then
      the space join of the parts' texts. */
  lemma AsWrittenSucceedsIff(parts: seq<Part>, decodeBytes: (seq<byte>, string) -> Option<string>)
    ensures DecodeEmailHeaderAsWritten(parts, decodeBytes).Success? <==>
              (forall i :: 0 <= i < |parts| ==> AppendedObject(parts[i], decodeBytes).Success?) &&
              !(exists i :: 0 <= i < |parts| && parts[i].charset.None? && parts[i].payload.Bytes?)
    ensures DecodeEmailHeaderAsWritten(parts, decodeBytes).Success? ==>
              exists texts: seq<string> ::
                |texts| == |parts| &&
                (forall i :: 0 <= i < |parts| ==> AppendedObject(parts[i], decodeBytes) == Success(Str(texts[i]))) &&
                DecodeEmailHeaderAsWritten(parts, decodeBytes).value == JoinSpaced(texts)
  {
    CollectAsWrittenSpec(parts, decodeBytes);
    var c := CollectAsWritten(parts, decodeBytes);
    if c.Success? {
      if exists i :: 0 <= i < |parts| && parts[i].charset.None? && parts[i].payload.Bytes? {
        var i :| 0 <= i < |parts| && parts[i].charset.None? && parts[i].payload.Bytes?;
        assert !c.value[i].Str?;
      } else {
        forall i | 0 <= i < |parts|
          ensures c.value[i].Str?
        {
          assert c.value[i] == AppendedObject(parts[i], decodeBytes).value;
        }
        var texts := Texts(c.value);
        assert forall i :: 0 <= i < |parts| ==> AppendedObject(parts[i], decodeBytes) == Success(Str(texts[i]));
      }
    } else {
      var k :| 0 <= k < |parts| && AppendedObject(parts[k], decodeBytes).Failure?;
    }
  }

  /** A single loop iteration never raises the join's `TypeError`. */
  lemma {:induction false} AppendedNeverJoinError(parts: seq<Part>, decodeBytes: (seq<byte>, string) -> Option<string>)
    ensures CollectAsWritten(parts, decodeBytes).Failure? ==>
              CollectAsWritten(parts, decodeBytes).error != JoinTypeError
    decreases |parts|
  {
    if |parts| > 0 {
      AppendedNeverJoinError(parts[..|parts| - 1], decodeBytes);
    }
  }

  /** Whenever the as-written decoder returns a text, the corrected one
      returns the same text: the correction only changes the crashing case. */
  lemma AsWrittenAgreesWhenItSucceeds(parts: seq<Part>, decodeBytes: (seq<byte>, string) -> Option<string>)
    requires DecodeEmailHeaderAsWritten(parts, decodeBytes).Success?
    ensures DecodeEmailHeader(parts, decodeBytes) == DecodeEmailHeaderAsWritten(parts, decodeBytes)
  {
    CollectAsWrittenSpec(parts, decodeBytes);
    PartTextsSpec(parts, decodeBytes);
    var objs := CollectAsWritten(parts, decodeBytes).value;
    assert AllStr(objs);
    forall i | 0 <= i < |parts|
      ensures PartText(parts[i], decodeBytes) == Success(objs[i].text)
    {
      assert objs[i] == AppendedObject(parts[i], decodeBytes).value;
    }
    assert PartTexts(parts, decodeBytes).value == Texts(objs);
  }

  /** The discrepancy on the shape of a header such as
      `=?utf-8?q?Caf=C3=A9?= <news@shop.example>`: `decode_header` yields the
      encoded word as bytes with charset "utf-8" and the plain tail
      (" <news@shop.example>") as bytes without a charset. As written, the
      join raises `TypeError`; corrected, the header decodes to the two
      texts joined by a space. */
  lemma EncodedWordWithPlainTail(word: seq<byte>, tail: seq<byte>, wordText: string, tailText: string,
                                 decodeBytes: (seq<byte>, string) -> Option<string>)
    requires decodeBytes(word, "utf-8") == Some(wordText)
    requires decodeBytes(tail, DefaultCharset) == Some(tailText)
    ensures DecodeEmailHeaderAsWritten([Part(Bytes(word), Some("utf-8")), Part(Bytes(tail), None)], decodeBytes)
              == Failure(JoinTypeError)
    ensures DecodeEmailHeader([Part(Bytes(word), Some("utf-8")), Part(Bytes(tail), None)], decodeBytes)
              == Success(wordText + " " + tailText)
  {
    var p0 := Part(Bytes(word), Some("utf-8"));
    var p1 := Part(Bytes(tail), None);
    var parts := [p0, p1];
    assert parts[..1] == [p0];
    assert [p0][..0] == [];
    assert CollectAsWritten([p0][..0], decodeBytes) == Success([]);
    assert PartTexts([p0][..0], decodeBytes) == Success([]);
    var c0 := CollectAsWritten([p0], decodeBytes);
    assert c0.Success? && c0.value == [Str(wordText)];
    var c := CollectAsWritten(parts, decodeBytes);
    assert c.Success? && c.value == [Str(wordText), p1.payload];
    assert !c.value[1].Str?;
    var t0 := PartTexts([p0], decodeBytes);
    assert t0.Success? && t0.value == [wordText];
    var t := PartTexts(parts, decodeBytes);
    var texts := [wordText, tailText];
    assert t.Success? && t.value == texts;
    assert texts[..1] == [wordText];
    assert JoinSpaced(texts[..1]) == wordText;
  }
}
