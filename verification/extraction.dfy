/** Per-message header extraction (tidy_inbox.py:165-189).

    The functions the loop calls are handed in as a `Codecs` value: the
    whole `decode_email_header`, `parseaddr`, and `dateutil`'s parse
    followed by conversion to UTC. `ProgramCodecs` builds the first from
    the decoder as written, `CorrectedCodecs` from the corrected one, both
    over an abstract `decode_header` and `bytes.decode`. */
module Extraction {
  import opened Wrappers
  import opened Text
  import opened HeaderDecoding
  import opened SenderAddress

  /** `datetime.min` in UTC, 0001-01-01T00:00:00, as microseconds since the
      Unix epoch. No aware datetime lies below it. */
  const MinTimestamp: int := -62135596800000000

  /** A UTC instant in microseconds since the Unix epoch. */
  type Timestamp = t: int | MinTimestamp <= t witness MinTimestamp

  datatype Codecs = Codecs(
    decode: string -> Result<string, DecodeError>,  // decode_email_header
    parseAddr: string -> string,                    // parseaddr(...)[1]
    parseDate: string -> Option<Timestamp>)         // date_parser.parse(...).astimezone(utc); None when it raises

  /** The codecs the program runs with (tidy_inbox.py:177, 185 call
      `decode_email_header` as written) over the library's `decode_header`
      and `bytes.decode`, with the library's address and date parsers. A
      header value decodes exactly when every charset decodes and no
      charset-less part comes back as bytes; it fails with the join's
      `TypeError` exactly when every charset decodes but some charset-less
      part is bytes. Whenever it decodes, the corrected decoder agrees. */
  function ProgramCodecs(decodeHeader: string -> seq<Part>,
                         decodeBytes: (seq<byte>, string) -> Option<string>,
                         parseAddr: string -> string,
                         parseDate: string -> Option<Timestamp>): (c: Codecs)
    ensures forall v :: c.decode(v) == Failure(JoinTypeError) <==>
              (forall i :: 0 <= i < |decodeHeader(v)| ==> AppendedObject(decodeHeader(v)[i], decodeBytes).Success?) &&
              (exists i :: 0 <= i < |decodeHeader(v)| && decodeHeader(v)[i].charset.None? && decodeHeader(v)[i].payload.Bytes?)
    ensures forall v :: c.decode(v).Success? <==>
              (forall i :: 0 <= i < |decodeHeader(v)| ==> AppendedObject(decodeHeader(v)[i], decodeBytes).Success?) &&
              !(exists i :: 0 <= i < |decodeHeader(v)| && decodeHeader(v)[i].charset.None? && decodeHeader(v)[i].payload.Bytes?)
    ensures forall v :: c.decode(v).Success? ==> c.decode(v) == DecodeEmailHeader(decodeHeader(v), decodeBytes)
    ensures c.parseAddr == parseAddr && c.parseDate == parseDate
  {
    assert forall v :: DecodeEmailHeaderAsWritten(decodeHeader(v), decodeBytes).Success? <==>
              (forall i :: 0 <= i < |decodeHeader(v)| ==> AppendedObject(decodeHeader(v)[i], decodeBytes).Success?) &&
              !(exists i :: 0 <= i < |decodeHeader(v)| && decodeHeader(v)[i].charset.None? && decodeHeader(v)[i].payload.Bytes?)
    by {
      forall v
        ensures DecodeEmailHeaderAsWritten(decodeHeader(v), decodeBytes).Success? <==>
                  (forall i :: 0 <= i < |decodeHeader(v)| ==> AppendedObject(decodeHeader(v)[i], decodeBytes).Success?) &&
                  !(exists i :: 0 <= i < |decodeHeader(v)| && decodeHeader(v)[i].charset.None? && decodeHeader(v)[i].payload.Bytes?)
      {
        AsWrittenSucceedsIff(decodeHeader(v), decodeBytes);
      }
    }
    assert forall v :: DecodeEmailHeaderAsWritten(decodeHeader(v), decodeBytes) == Failure(JoinTypeError) <==>
              (forall i :: 0 <= i < |decodeHeader(v)| ==> AppendedObject(decodeHeader(v)[i], decodeBytes).Success?) &&
              (exists i :: 0 <= i < |decodeHeader(v)| && decodeHeader(v)[i].charset.None? && decodeHeader(v)[i].payload.Bytes?)
    by {
      forall v
        ensures DecodeEmailHeaderAsWritten(decodeHeader(v), decodeBytes) == Failure(JoinTypeError) <==>
                  (forall i :: 0 <= i < |decodeHeader(v)| ==> AppendedObject(decodeHeader(v)[i], decodeBytes).Success?) &&
                  (exists i :: 0 <= i < |decodeHeader(v)| && decodeHeader(v)[i].charset.None? && decodeHeader(v)[i].payload.Bytes?)
      {
        AsWrittenJoinTypeErrorIff(decodeHeader(v), decodeBytes);
      }
    }
    assert forall v :: DecodeEmailHeaderAsWritten(decodeHeader(v), decodeBytes).Success? ==>
              DecodeEmailHeaderAsWritten(decodeHeader(v), decodeBytes) == DecodeEmailHeader(decodeHeader(v), decodeBytes)
    by {
      forall v | DecodeEmailHeaderAsWritten(decodeHeader(v), decodeBytes).Success?
        ensures DecodeEmailHeaderAsWritten(decodeHeader(v), decodeBytes) == DecodeEmailHeader(decodeHeader(v), decodeBytes)
      {
        AsWrittenAgreesWhenItSucceeds(decodeHeader(v), decodeBytes);
      }
    }
    Codecs(v => DecodeEmailHeaderAsWritten(decodeHeader(v), decodeBytes), parseAddr, parseDate)
  }

  /** The same codecs with the corrected header decoder: a header value
      fails to decode exactly when one of its parts cannot be decoded, and
      never because of the join; otherwise it decodes to the space join of
      its parts' texts. */
  function CorrectedCodecs(decodeHeader: string -> seq<Part>,
                           decodeBytes: (seq<byte>, string) -> Option<string>,
                           parseAddr: string -> string,
                           parseDate: string -> Option<Timestamp>): (c: Codecs)
    ensures forall v :: c.decode(v).Failure? <==>
              exists i :: 0 <= i < |decodeHeader(v)| && PartText(decodeHeader(v)[i], decodeBytes).Failure?
    ensures forall v :: c.decode(v) != Failure(JoinTypeError)
    ensures forall v :: c.decode(v).Success? ==>
              exists texts: seq<string> ::
                |texts| == |decodeHeader(v)| &&
                (forall i :: 0 <= i < |texts| ==> Success(texts[i]) == PartText(decodeHeader(v)[i], decodeBytes)) &&
                c.decode(v).value == JoinSpaced(texts)
    ensures c.parseAddr == parseAddr && c.parseDate == parseDate
  {
    assert forall v :: (DecodeEmailHeader(decodeHeader(v), decodeBytes).Failure? <==>
              exists i :: 0 <= i < |decodeHeader(v)| && PartText(decodeHeader(v)[i], decodeBytes).Failure?) &&
              DecodeEmailHeader(decodeHeader(v), decodeBytes) != Failure(JoinTypeError) &&
              (DecodeEmailHeader(decodeHeader(v), decodeBytes).Success? ==>
                exists texts: seq<string> ::
                  |texts| == |decodeHeader(v)| &&
                  (forall i :: 0 <= i < |texts| ==> Success(texts[i]) == PartText(decodeHeader(v)[i], decodeBytes)) &&
                  DecodeEmailHeader(decodeHeader(v), decodeBytes).value == JoinSpaced(texts))
    by {
      forall v
        ensures (DecodeEmailHeader(decodeHeader(v), decodeBytes).Failure? <==>
                  exists i :: 0 <= i < |decodeHeader(v)| && PartText(decodeHeader(v)[i], decodeBytes).Failure?) &&
                  DecodeEmailHeader(decodeHeader(v), decodeBytes) != Failure(JoinTypeError) &&
                  (DecodeEmailHeader(decodeHeader(v), decodeBytes).Success? ==>
                    exists texts: seq<string> ::
                      |texts| == |decodeHeader(v)| &&
                      (forall i :: 0 <= i < |texts| ==> Success(texts[i]) == PartText(decodeHeader(v)[i], decodeBytes)) &&
                      DecodeEmailHeader(decodeHeader(v), decodeBytes).value == JoinSpaced(texts))
      {
        DecodeEmailHeaderSpec(decodeHeader(v), decodeBytes);
      }
    }
    Codecs(v => DecodeEmailHeader(decodeHeader(v), decodeBytes), parseAddr, parseDate)
  }

  /** Wherever the program's codecs decode a header value, the corrected
      codecs decode it to the same text. */
  lemma CodecsAgree(decodeHeader: string -> seq<Part>,
                    decodeBytes: (seq<byte>, string) -> Option<string>,
                    parseAddr: string -> string,
                    parseDate: string -> Option<Timestamp>, v: string)
    ensures var prog := ProgramCodecs(decodeHeader, decodeBytes, parseAddr, parseDate);
            var fixed := CorrectedCodecs(decodeHeader, decodeBytes, parseAddr, parseDate);
            prog.decode(v).Success? ==> fixed.decode(v) == prog.decode(v)
  {
    if ProgramCodecs(decodeHeader, decodeBytes, parseAddr, parseDate).decode(v).Success? {
      AsWrittenAgreesWhenItSucceeds(decodeHeader(v), decodeBytes);
    }
  }

  datatype Header = Header(name: string, value: string)

  /** A fetched message: its id and its payload headers (a message without
      a payload has no headers). */
  datatype Message = Message(id: string, headers: seq<Header>)

  /** The loop variables of tidy_inbox.py:167-171 after the header scan;
      `senderEmail` is `None` while no From header has been seen. */
  datatype Fields = Fields(
    sender: string,
    senderEmail: Option<string>,
    subject: string,
    dateStr: Option<string>,
    hasListUnsubscribe: bool)

  /** A message after extraction, ready to be grouped. */
  datatype Record = Record(id: string, fields: Fields)

  const UnknownSender: string := "Unknown Sender"
  const NoSubject: string := "No Subject"
  const Initial: Fields := Fields(UnknownSender, None, NoSubject, None, false)

  /** `decode_email_header(value)`. */
  function DecodeValue(c: Codecs, value: string): Result<string, DecodeError> {
    c.decode(value)
  }

  /** The header names the loop distinguishes. */
  datatype Kind = From | Subject | Date | ListUnsubscribe | Other

  /** `header.get('name').lower()` compared with the four names. */
  function KindOf(h: Header): Kind {
    var name := Lower(h.name);
    if name == "from" then From
    else if name == "subject" then Subject
    else if name == "date" then Date
    else if name == "list-unsubscribe" then ListUnsubscribe
    else Other
  }

  /** A header whose value the loop decodes (and whose decoding may raise). */
  predicate IsDecoded(h: Header) {
    KindOf(h) == From || KindOf(h) == Subject
  }

  /** Header i is the last one in hs of kind k. */
  ghost predicate LastNamed(hs: seq<Header>, i: int, k: Kind) {
    && 0 <= i < |hs|
    && KindOf(hs[i]) == k
    && forall j :: i < j < |hs| ==> KindOf(hs[j]) != k
  }

  /** The index of the last header of kind k, found by scanning backwards. */
  function LastOf(hs: seq<Header>, k: Kind): (r: Option<nat>)
    ensures r.Some? ==> r.value < |hs|
    decreases |hs|
  {
    if |hs| == 0 then None
    else if KindOf(hs[|hs| - 1]) == k then Some(|hs| - 1)
    else LastOf(hs[..|hs| - 1], k)
  }

  /** One iteration of the header loop (tidy_inbox.py:174-189). */
  function ReadHeader(c: Codecs, f: Fields, h: Header): Result<Fields, DecodeError> {
    match KindOf(h)
    case From =>
      var sender :- DecodeValue(c, h.value);
      Success(f.(sender := sender, senderEmail := Some(SenderKey(c.parseAddr, sender))))
    case Subject =>
      var subject :- DecodeValue(c, h.value);
      Success(f.(subject := subject))
    case Date =>
      Success(f.(dateStr := Some(h.value)))
    case ListUnsubscribe =>
      Success(f.(hasListUnsubscribe := true))
    case Other =>
      Success(f)
  }

  /** The whole header loop of one message; a decode failure propagates. */
  function Extract(c: Codecs, hs: seq<Header>): Result<Fields, DecodeError>
    decreases |hs|
  {
    if |hs| == 0 then Success(Initial)
    else
      var f :- Extract(c, hs[..|hs| - 1]);
      ReadHeader(c, f, hs[|hs| - 1])
  }

  /** `if not sender_email` (tidy_inbox.py:191): the message is grouped
      only when some From header left a non-empty key. */
  predicate Keyed(f: Fields) {
    f.senderEmail.Some? && f.senderEmail.value != ""
  }

  /** Extraction of every message in order; the first failure aborts the
      whole run, as the exception is not caught. Because the fold that
      follows cannot fail, extracting all messages first and grouping
      afterwards gives the same outcome as the interleaved loop. */
  function ExtractAll(c: Codecs, msgs: seq<Message>): Result<seq<Record>, DecodeError>
    decreases |msgs|
  {
    if |msgs| == 0 then Success([])
    else
      var init :- ExtractAll(c, msgs[..|msgs| - 1]);
      var f :- Extract(c, msgs[|msgs| - 1].headers);
      Success(init + [Record(msgs[|msgs| - 1].id, f)])
  }

  // ----- Properties -------------------------------------------------------------

  /** The backward scan finds the last header of kind k, and finds nothing
      exactly when no header has kind k. */
  lemma {:induction false} LastOfSpec(hs: seq<Header>, k: Kind)
    ensures LastOf(hs, k).None? <==> forall i :: 0 <= i < |hs| ==> KindOf(hs[i]) != k
    ensures LastOf(hs, k).Some? ==> LastNamed(hs, LastOf(hs, k).value, k)
    ensures forall i :: LastNamed(hs, i, k) ==> LastOf(hs, k) == Some(i)
    decreases |hs|
  {
    if |hs| > 0 && KindOf(hs[|hs| - 1]) != k {
      var init := hs[..|hs| - 1];
      LastOfSpec(init, k);
      assert forall i :: 0 <= i < |init| ==> init[i] == hs[i];
    }
  }

  /** One unfolding of `Extract`: a successful scan is a successful scan of
      all but the last header followed by reading the last one. */
  lemma ExtractStep(c: Codecs, hs: seq<Header>)
    requires |hs| > 0 && Extract(c, hs).Success?
    ensures Extract(c, hs[..|hs| - 1]).Success?
    ensures ReadHeader(c, Extract(c, hs[..|hs| - 1]).value, hs[|hs| - 1]) == Extract(c, hs)
  {
  }

  /** Extraction fails exactly when the value of some From or Subject header
      cannot be decoded; decode failures are not caught. */
  lemma {:induction false} ExtractFailsIff(c: Codecs, hs: seq<Header>)
    ensures Extract(c, hs).Failure? <==>
              exists i :: 0 <= i < |hs| && IsDecoded(hs[i]) && DecodeValue(c, hs[i].value).Failure?
    decreases |hs|
  {
    if |hs| > 0 {
      var init := hs[..|hs| - 1];
      ExtractFailsIff(c, init);
      assert forall i :: 0 <= i < |init| ==> init[i] == hs[i];
      if Extract(c, init).Failure? {
        var i :| 0 <= i < |init| && IsDecoded(init[i]) && DecodeValue(c, init[i].value).Failure?;
        assert IsDecoded(hs[i]) && DecodeValue(c, hs[i].value).Failure?;
      }
    }
  }

  /** The sender and the key come from the last From header, the key being
      chosen from its decoded text; without a From header there is no key
      and the sender stays "Unknown Sender". */
  lemma {:induction false} ExtractSender(c: Codecs, hs: seq<Header>)
    requires Extract(c, hs).Success?
    ensures LastOf(hs, From).None? ==>
              Extract(c, hs).value.senderEmail.None? && Extract(c, hs).value.sender == UnknownSender
    ensures LastOf(hs, From).Some? ==>
              var v := hs[LastOf(hs, From).value].value;
              DecodeValue(c, v).Success? &&
              Extract(c, hs).value.sender == DecodeValue(c, v).value &&
              Extract(c, hs).value.senderEmail == Some(SenderKey(c.parseAddr, DecodeValue(c, v).value))
    decreases |hs|
  {
    if |hs| > 0 {
      var init := hs[..|hs| - 1];
      ExtractStep(c, hs);
      ExtractSender(c, init);
      if KindOf(hs[|hs| - 1]) != From && LastOf(init, From).Some? {
        assert hs[LastOf(init, From).value] == init[LastOf(init, From).value];
      }
    }
  }

  /** The subject is the decoded value of the last Subject header, or
      "No Subject" when there is none. */
  lemma {:induction false} ExtractSubject(c: Codecs, hs: seq<Header>)
    requires Extract(c, hs).Success?
    ensures LastOf(hs, Subject).None? ==> Extract(c, hs).value.subject == NoSubject
    ensures LastOf(hs, Subject).Some? ==>
              var v := hs[LastOf(hs, Subject).value].value;
              DecodeValue(c, v).Success? && Extract(c, hs).value.subject == DecodeValue(c, v).value
    decreases |hs|
  {
    if |hs| > 0 {
      var init := hs[..|hs| - 1];
      ExtractStep(c, hs);
      ExtractSubject(c, init);
      if KindOf(hs[|hs| - 1]) != Subject && LastOf(init, Subject).Some? {
        assert hs[LastOf(init, Subject).value] == init[LastOf(init, Subject).value];
      }
    }
  }

  /** The date text is the raw value of the last Date header, undecoded,
      or absent when there is none. */
  lemma {:induction false} ExtractDate(c: Codecs, hs: seq<Header>)
    requires Extract(c, hs).Success?
    ensures LastOf(hs, Date).None? ==> Extract(c, hs).value.dateStr.None?
    ensures LastOf(hs, Date).Some? ==>
              Extract(c, hs).value.dateStr == Some(hs[LastOf(hs, Date).value].value)
    decreases |hs|
  {
    if |hs| > 0 {
      var init := hs[..|hs| - 1];
      ExtractStep(c, hs);
      ExtractDate(c, init);
      if KindOf(hs[|hs| - 1]) != Date && LastOf(init, Date).Some? {
        assert hs[LastOf(init, Date).value] == init[LastOf(init, Date).value];
      }
    }
  }

  /** The message carries List-Unsubscribe exactly when one of its header
      names is "list-unsubscribe" in any letter case. */
  lemma {:induction false} ExtractListUnsubscribe(c: Codecs, hs: seq<Header>)
    requires Extract(c, hs).Success?
    ensures Extract(c, hs).value.hasListUnsubscribe <==>
              exists i :: 0 <= i < |hs| && KindOf(hs[i]) == ListUnsubscribe
    decreases |hs|
  {
    if |hs| > 0 {
      var init := hs[..|hs| - 1];
      ExtractStep(c, hs);
      ExtractListUnsubscribe(c, init);
      assert forall i :: 0 <= i < |init| ==> init[i] == hs[i];
      if Extract(c, init).value.hasListUnsubscribe {
        var i :| 0 <= i < |init| && KindOf(init[i]) == ListUnsubscribe;
        assert KindOf(hs[i]) == ListUnsubscribe;
      }
    }
  }

  /** A message is skipped exactly when it has no From header, or when the
      key chosen from its last From header is empty. */
  lemma SkippedIff(c: Codecs, hs: seq<Header>)
    requires Extract(c, hs).Success?
    ensures !Keyed(Extract(c, hs).value) <==>
              (forall i :: 0 <= i < |hs| ==> KindOf(hs[i]) != From) ||
              (exists i :: LastNamed(hs, i, From) && DecodeValue(c, hs[i].value).Success? &&
                 SenderKey(c.parseAddr, DecodeValue(c, hs[i].value).value) == "")
  {
    ExtractSender(c, hs);
    LastOfSpec(hs, From);
    if LastOf(hs, From).Some? {
      assert LastNamed(hs, LastOf(hs, From).value, From);
    }
  }

  /** All messages are extracted, each into the record of its own id and
      headers, or the run fails exactly when some message's extraction does. */
  lemma {:induction false} ExtractAllSpec(c: Codecs, msgs: seq<Message>)
    ensures ExtractAll(c, msgs).Success? <==>
              forall i :: 0 <= i < |msgs| ==> Extract(c, msgs[i].headers).Success?
    ensures ExtractAll(c, msgs).Success? ==>
              |ExtractAll(c, msgs).value| == |msgs| &&
              forall i :: 0 <= i < |msgs| ==>
                ExtractAll(c, msgs).value[i] == Record(msgs[i].id, Extract(c, msgs[i].headers).value)
    decreases |msgs|
  {
    if |msgs| > 0 {
      var init := msgs[..|msgs| - 1];
      ExtractAllSpec(c, init);
      assert forall i :: 0 <= i < |init| ==> init[i] == msgs[i];
    }
  }
}
