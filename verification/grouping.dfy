/** The fold of extracted messages into per-sender aggregates and the
    newsletter filter (tidy_inbox.py:157-158 and 191-223).

    The `defaultdict` of the source becomes an association list of entries
    in first-insertion order, which is the iteration order of a Python dict
    and so the order the ranking stage sees. */
module Grouping {
  import opened Wrappers
  import opened Extraction
  import opened HeaderDecoding

  /** The aggregate of one sender (the dict built by the `defaultdict`
      factory at tidy_inbox.py:158). */
  datatype Group = Group(
    count: nat,
    ids: seq<string>,
    latestDate: Option<Timestamp>,
    subject: Option<string>,
    senderDisplay: Option<string>,
    hasListUnsubscribe: bool)

  /** One `(sender_email, data)` item of the grouping dict. */
  datatype Entry = Entry(sender: string, group: Group)

  const NewGroup: Group := Group(0, [], None, None, None, false)

  function KeyOf(f: Fields): string
    requires Keyed(f)
  {
    f.senderEmail.value
  }

  /** The parsed date of a message: only a present, non-empty date text is
      parsed (`if date_str:`), and a parse failure yields nothing. */
  function DateOf(parseDate: string -> Option<Timestamp>, r: Record): Option<Timestamp> {
    match r.fields.dateStr
    case None => None
    case Some(d) => if d != "" then parseDate(d) else None
  }

  /** The update of one group by one message (tidy_inbox.py:197-209): count
      and ids always, the unsubscribe flag by disjunction, and the three
      latest fields together only for a strictly later parsed date. */
  function Absorb(g: Group, r: Record, parseDate: string -> Option<Timestamp>): Group {
    var g1 := g.(count := g.count + 1,
                 ids := g.ids + [r.id],
                 hasListUnsubscribe := g.hasListUnsubscribe || r.fields.hasListUnsubscribe);
    match DateOf(parseDate, r)
    case None => g1
    case Some(t) =>
      if g1.latestDate.None? || t > g1.latestDate.value then
        g1.(latestDate := Some(t), subject := Some(r.fields.subject), senderDisplay := Some(r.fields.sender))
      else g1
  }

  /** The group built from a sequence of messages, in order, starting from
      the factory default. */
  function Summarize(rs: seq<Record>, parseDate: string -> Option<Timestamp>): Group
    decreases |rs|
  {
    if |rs| == 0 then NewGroup
    else Absorb(Summarize(rs[..|rs| - 1], parseDate), rs[|rs| - 1], parseDate)
  }

  function Senders(gs: seq<Entry>): seq<string> {
    seq(|gs|, i requires 0 <= i < |gs| => gs[i].sender)
  }

  /** The position of the entry for `key`, if there is one. */
  function IndexOf(gs: seq<Entry>, key: string): (r: Option<nat>)
    ensures r.Some? ==> r.value < |gs| && gs[r.value].sender == key
    ensures r.None? ==> forall i :: 0 <= i < |gs| ==> gs[i].sender != key
    decreases |gs|
  {
    if |gs| == 0 then None
    else if gs[|gs| - 1].sender == key then Some(|gs| - 1)
    else IndexOf(gs[..|gs| - 1], key)
  }

  /** One pass of the message loop after extraction (tidy_inbox.py:191-211):
      a message without a key is skipped; otherwise `groups[sender_email]`
      is looked up, created at the end when absent, and updated. */
  function Step(gs: seq<Entry>, r: Record, parseDate: string -> Option<Timestamp>): seq<Entry> {
    if !Keyed(r.fields) then gs
    else
      var key := KeyOf(r.fields);
      match IndexOf(gs, key)
      case Some(i) => gs[i := Entry(key, Absorb(gs[i].group, r, parseDate))]
      case None => gs + [Entry(key, Absorb(NewGroup, r, parseDate))]
  }

  /** The whole message loop: a left fold of `Step` from the empty dict. */
  function Accumulate(rs: seq<Record>, parseDate: string -> Option<Timestamp>): seq<Entry>
    decreases |rs|
  {
    if |rs| == 0 then []
    else Step(Accumulate(rs[..|rs| - 1], parseDate), rs[|rs| - 1], parseDate)
  }

  /** The candidate-newsletter test of tidy_inbox.py:220. */
  predicate Keep(g: Group) {
    g.hasListUnsubscribe || g.count > 1
  }

  /** The dict comprehension of tidy_inbox.py:218-221, order-preserving. */
  function Retain(gs: seq<Entry>): seq<Entry>
    decreases |gs|
  {
    if |gs| == 0 then []
    else Retain(gs[..|gs| - 1]) + (if Keep(gs[|gs| - 1].group) then [gs[|gs| - 1]] else [])
  }

  /** `group_emails`: extraction of every message, the fold, the filter. */
  function GroupEmails(c: Codecs, msgs: seq<Message>): Result<seq<Entry>, DecodeError> {
    var rs :- ExtractAll(c, msgs);
    Success(Retain(Accumulate(rs, c.parseDate)))
  }

  // ----- Reference definitions ------------------------------------------------

  /** The messages of `rs` grouped under `key`, in processing order. */
  function Members(rs: seq<Record>, key: string): seq<Record>
    decreases |rs|
  {
    if |rs| == 0 then []
    else
      var r := rs[|rs| - 1];
      Members(rs[..|rs| - 1], key) + (if Keyed(r.fields) && KeyOf(r.fields) == key then [r] else [])
  }

  /** The keys of the messages that are not skipped, in processing order. */
  function KeySequence(rs: seq<Record>): seq<string>
    decreases |rs|
  {
    if |rs| == 0 then []
    else
      var r := rs[|rs| - 1];
      KeySequence(rs[..|rs| - 1]) + (if Keyed(r.fields) then [KeyOf(r.fields)] else [])
  }

  /** The distinct elements of xs in order of first occurrence. */
  function Dedup(xs: seq<string>): seq<string>
    decreases |xs|
  {
    if |xs| == 0 then []
    else
      var init := Dedup(xs[..|xs| - 1]);
      if xs[|xs| - 1] in init then init else init + [xs[|xs| - 1]]
  }

  ghost predicate Distinct(xs: seq<string>) {
    forall i, j :: 0 <= i < j < |xs| ==> xs[i] != xs[j]
  }

  function TotalCount(gs: seq<Entry>): nat
    decreases |gs|
  {
    if |gs| == 0 then 0 else TotalCount(gs[..|gs| - 1]) + gs[|gs| - 1].group.count
  }

  /** Message i carries the latest parsed date of rs, and no earlier
      message carries that date. */
  ghost predicate FirstLatest(parseDate: string -> Option<Timestamp>, rs: seq<Record>, i: int) {
    && 0 <= i < |rs|
    && DateOf(parseDate, rs[i]).Some?
    && (forall j :: 0 <= j < |rs| && DateOf(parseDate, rs[j]).Some? ==>
          DateOf(parseDate, rs[j]).value <= DateOf(parseDate, rs[i]).value)
    && (forall j :: 0 <= j < i && DateOf(parseDate, rs[j]).Some? ==>
          DateOf(parseDate, rs[j]).value < DateOf(parseDate, rs[i]).value)
  }

  /** The latest fields are all set or all unset. */
  predicate InSync(g: Group) {
    g.latestDate.Some? == g.subject.Some? && g.subject.Some? == g.senderDisplay.Some?
  }

  // ----- Properties of one group ---------------------------------------------

  /** A group built from n messages has count n and their ids in order, so
      count equals the number of ids, and it has the unsubscribe flag
      exactly when one of its messages had a List-Unsubscribe header. */
  lemma {:induction false} SummarizeCounts(rs: seq<Record>, parseDate: string -> Option<Timestamp>)
    ensures Summarize(rs, parseDate).count == |rs| == |Summarize(rs, parseDate).ids|
    ensures forall i :: 0 <= i < |rs| ==> Summarize(rs, parseDate).ids[i] == rs[i].id
    ensures Summarize(rs, parseDate).hasListUnsubscribe <==>
              exists i :: 0 <= i < |rs| && rs[i].fields.hasListUnsubscribe
    decreases |rs|
  {
    if |rs| > 0 {
      var init := rs[..|rs| - 1];
      SummarizeCounts(init, parseDate);
      assert forall i :: 0 <= i < |init| ==> init[i] == rs[i];
      if Summarize(init, parseDate).hasListUnsubscribe {
        var i :| 0 <= i < |init| && init[i].fields.hasListUnsubscribe;
        assert rs[i].fields.hasListUnsubscribe;
      }
    }
  }

  /** The latest fields of a group: unset exactly when no member's date
      parsed; otherwise the maximum parsed date, with the subject and
      display sender of the first member that carries it (a later equal
      date does not replace it). */
  lemma {:induction false} SummarizeLatest(rs: seq<Record>, parseDate: string -> Option<Timestamp>)
    ensures InSync(Summarize(rs, parseDate))
    ensures Summarize(rs, parseDate).latestDate.None? <==>
              forall i :: 0 <= i < |rs| ==> DateOf(parseDate, rs[i]).None?
    ensures Summarize(rs, parseDate).latestDate.Some? ==>
              exists i :: LatestFrom(parseDate, rs, i, Summarize(rs, parseDate))
    decreases |rs|
  {
    if |rs| > 0 {
      var init, r := rs[..|rs| - 1], rs[|rs| - 1];
      SummarizeLatest(init, parseDate);
      var g0 := Summarize(init, parseDate);
      var g := Summarize(rs, parseDate);
      assert g == Absorb(g0, r, parseDate);
      match DateOf(parseDate, r)
      case None =>
        assert g.latestDate == g0.latestDate && g.subject == g0.subject && g.senderDisplay == g0.senderDisplay;
        UndatedAllUndated(rs, init, parseDate);
        if g0.latestDate.Some? {
          var i :| LatestFrom(parseDate, init, i, g0);
          LatestSurvivesUndated(rs, i, parseDate);
          assert LatestFrom(parseDate, rs, i, g);
        }
      case Some(t) =>
        if g0.latestDate.None? || t > g0.latestDate.value {
          var i: int := -1;
          if g0.latestDate.Some? {
            i :| LatestFrom(parseDate, init, i, g0);
          }
          NewLatest(rs, init, i, parseDate);
          assert LatestFrom(parseDate, rs, |rs| - 1, g);
        } else {
          var i :| LatestFrom(parseDate, init, i, g0);
          LatestSurvivesNotLater(rs, i, parseDate);
          assert LatestFrom(parseDate, rs, i, g);
        }
    }
  }

  /** The group's latest fields come from message i, the first latest one. */
  ghost predicate LatestFrom(parseDate: string -> Option<Timestamp>, rs: seq<Record>, i: int, g: Group) {
    && FirstLatest(parseDate, rs, i)
    && g.latestDate == DateOf(parseDate, rs[i])
    && g.subject == Some(rs[i].fields.subject)
    && g.senderDisplay == Some(rs[i].fields.sender)
  }

  lemma UndatedAllUndated(rs: seq<Record>, init: seq<Record>, parseDate: string -> Option<Timestamp>)
    requires |rs| > 0 && init == rs[..|rs| - 1] && DateOf(parseDate, rs[|rs| - 1]).None?
    ensures (forall i :: 0 <= i < |rs| ==> DateOf(parseDate, rs[i]).None?) <==>
              (forall i :: 0 <= i < |init| ==> DateOf(parseDate, init[i]).None?)
  {
    assert forall i :: 0 <= i < |init| ==> init[i] == rs[i];
  }

  lemma LatestSurvivesUndated(rs: seq<Record>, i: int, parseDate: string -> Option<Timestamp>)
    requires |rs| > 0 && DateOf(parseDate, rs[|rs| - 1]).None?
    requires FirstLatest(parseDate, rs[..|rs| - 1], i)
    ensures FirstLatest(parseDate, rs, i)
  {
    assert forall j :: 0 <= j < |rs| - 1 ==> rs[..|rs| - 1][j] == rs[j];
  }

  lemma LatestSurvivesNotLater(rs: seq<Record>, i: int, parseDate: string -> Option<Timestamp>)
    requires |rs| > 0 && FirstLatest(parseDate, rs[..|rs| - 1], i)
    requires DateOf(parseDate, rs[|rs| - 1]).Some?
    requires DateOf(parseDate, rs[|rs| - 1]).value <= DateOf(parseDate, rs[..|rs| - 1][i]).value
    ensures FirstLatest(parseDate, rs, i)
  {
    assert forall j :: 0 <= j < |rs| - 1 ==> rs[..|rs| - 1][j] == rs[j];
  }

  /** A strictly later date, or a first date, makes the last message the
      first latest one. */
  lemma NewLatest(rs: seq<Record>, init: seq<Record>, i: int, parseDate: string -> Option<Timestamp>)
    requires |rs| > 0 && init == rs[..|rs| - 1] && DateOf(parseDate, rs[|rs| - 1]).Some?
    requires i == -1 ==> forall j :: 0 <= j < |init| ==> DateOf(parseDate, init[j]).None?
    requires i != -1 ==>
               FirstLatest(parseDate, init, i) &&
               DateOf(parseDate, rs[|rs| - 1]).value > DateOf(parseDate, init[i]).value
    ensures FirstLatest(parseDate, rs, |rs| - 1)
  {
    assert forall j :: 0 <= j < |init| ==> init[j] == rs[j];
  }

  /** A message with no parsable date counts but leaves the latest fields
      as they were. */
  lemma UndatedMessageKeepsLatest(rs: seq<Record>, r: Record, parseDate: string -> Option<Timestamp>)
    requires DateOf(parseDate, r).None?
    ensures Summarize(rs + [r], parseDate).count == Summarize(rs, parseDate).count + 1
    ensures Summarize(rs + [r], parseDate).latestDate == Summarize(rs, parseDate).latestDate
    ensures Summarize(rs + [r], parseDate).subject == Summarize(rs, parseDate).subject
    ensures Summarize(rs + [r], parseDate).senderDisplay == Summarize(rs, parseDate).senderDisplay
  {
    assert (rs + [r])[..|rs|] == rs;
  }

  // ----- Properties of the fold -------------------------------------------------

  lemma {:induction false} DedupSpec(xs: seq<string>)
    ensures Distinct(Dedup(xs))
    ensures forall x :: x in Dedup(xs) <==> x in xs
    decreases |xs|
  {
    if |xs| > 0 {
      var init := xs[..|xs| - 1];
      DedupSpec(init);
      assert xs == init + [xs[|xs| - 1]];
    }
  }

  /** A key has members exactly when it is the key of some kept message. */
  lemma {:induction false} MembersEmptyIff(rs: seq<Record>, key: string)
    ensures Members(rs, key) == [] <==> key !in KeySequence(rs)
    decreases |rs|
  {
    if |rs| > 0 {
      MembersEmptyIff(rs[..|rs| - 1], key);
    }
  }

  lemma SendersUpdate(gs: seq<Entry>, i: nat, e: Entry)
    requires i < |gs| && e.sender == gs[i].sender
    ensures Senders(gs[i := e]) == Senders(gs)
  {
  }

  lemma SendersAppend(gs: seq<Entry>, e: Entry)
    ensures Senders(gs + [e]) == Senders(gs) + [e.sender]
  {
  }

  lemma SummarizeAppend(ms: seq<Record>, r: Record, parseDate: string -> Option<Timestamp>)
    ensures Summarize(ms + [r], parseDate) == Absorb(Summarize(ms, parseDate), r, parseDate)
  {
    assert (ms + [r])[..|ms|] == ms;
  }

  /** The fold produces one entry per distinct key, in order of first
      occurrence. */
  lemma {:induction false} AccumulateSenders(rs: seq<Record>, parseDate: string -> Option<Timestamp>)
    ensures Senders(Accumulate(rs, parseDate)) == Dedup(KeySequence(rs))
    decreases |rs|
  {
    if |rs| > 0 {
      var init, r := rs[..|rs| - 1], rs[|rs| - 1];
      AccumulateSenders(init, parseDate);
      var a0 := Accumulate(init, parseDate);
      if Keyed(r.fields) {
        var key := KeyOf(r.fields);
        assert KeySequence(rs) == KeySequence(init) + [key];
        assert (KeySequence(init) + [key])[..|KeySequence(init)|] == KeySequence(init);
        match IndexOf(a0, key)
        case Some(i) =>
          assert Senders(a0)[i] == key;
          SendersUpdate(a0, i, Entry(key, Absorb(a0[i].group, r, parseDate)));
        case None =>
          assert key !in Senders(a0);
          SendersAppend(a0, Entry(key, Absorb(NewGroup, r, parseDate)));
      } else {
        assert KeySequence(rs) == KeySequence(init);
      }
    }
  }

  /** Every entry's group summarizes the messages of rs under its key. */
  ghost predicate Summarizes(a: seq<Entry>, rs: seq<Record>, parseDate: string -> Option<Timestamp>) {
    forall i :: 0 <= i < |a| ==> a[i].group == Summarize(Members(rs, a[i].sender), parseDate)
  }

  lemma MembersOtherKey(rs: seq<Record>, key: string)
    requires |rs| > 0
    requires !Keyed(rs[|rs| - 1].fields) || KeyOf(rs[|rs| - 1].fields) != key
    ensures Members(rs, key) == Members(rs[..|rs| - 1], key)
  {
  }

  lemma StepExisting(rs: seq<Record>, a0: seq<Entry>, i: nat, parseDate: string -> Option<Timestamp>)
    requires |rs| > 0 && Keyed(rs[|rs| - 1].fields)
    requires Summarizes(a0, rs[..|rs| - 1], parseDate) && Distinct(Senders(a0))
    requires i < |a0| && a0[i].sender == KeyOf(rs[|rs| - 1].fields)
    ensures Summarizes(a0[i := Entry(a0[i].sender, Absorb(a0[i].group, rs[|rs| - 1], parseDate))], rs, parseDate)
  {
    var init, r := rs[..|rs| - 1], rs[|rs| - 1];
    var a := a0[i := Entry(a0[i].sender, Absorb(a0[i].group, r, parseDate))];
    forall j | 0 <= j < |a|
      ensures a[j].group == Summarize(Members(rs, a[j].sender), parseDate)
    {
      if j == i {
        SummarizeAppend(Members(init, a0[i].sender), r, parseDate);
      } else {
        assert Senders(a0)[j] != Senders(a0)[i];
        MembersOtherKey(rs, a[j].sender);
      }
    }
  }

  lemma StepNew(rs: seq<Record>, a0: seq<Entry>, parseDate: string -> Option<Timestamp>)
    requires |rs| > 0 && Keyed(rs[|rs| - 1].fields)
    requires Summarizes(a0, rs[..|rs| - 1], parseDate)
    requires forall j :: 0 <= j < |a0| ==> a0[j].sender != KeyOf(rs[|rs| - 1].fields)
    requires KeyOf(rs[|rs| - 1].fields) !in KeySequence(rs[..|rs| - 1])
    ensures Summarizes(a0 + [Entry(KeyOf(rs[|rs| - 1].fields), Absorb(NewGroup, rs[|rs| - 1], parseDate))], rs, parseDate)
  {
    var init, r := rs[..|rs| - 1], rs[|rs| - 1];
    var key := KeyOf(r.fields);
    var a := a0 + [Entry(key, Absorb(NewGroup, r, parseDate))];
    MembersEmptyIff(init, key);
    SummarizeAppend([], r, parseDate);
    assert Members(rs, key) == [] + [r];
    forall j | 0 <= j < |a|
      ensures a[j].group == Summarize(Members(rs, a[j].sender), parseDate)
    {
      if j < |a0| {
        assert a[j] == a0[j];
        MembersOtherKey(rs, a[j].sender);
      }
    }
  }

  /** Each entry's group is the summary of exactly the messages that carry
      its key. */
  lemma {:induction false} AccumulateGroups(rs: seq<Record>, parseDate: string -> Option<Timestamp>)
    ensures Summarizes(Accumulate(rs, parseDate), rs, parseDate)
    decreases |rs|
  {
    if |rs| > 0 {
      var init, r := rs[..|rs| - 1], rs[|rs| - 1];
      AccumulateGroups(init, parseDate);
      var a0 := Accumulate(init, parseDate);
      if Keyed(r.fields) {
        var key := KeyOf(r.fields);
        AccumulateSenders(init, parseDate);
        DedupSpec(KeySequence(init));
        assert forall j :: 0 <= j < |a0| ==> Senders(a0)[j] == a0[j].sender;
        match IndexOf(a0, key)
        case Some(i) =>
          StepExisting(rs, a0, i, parseDate);
        case None =>
          assert key !in Senders(a0);
          StepNew(rs, a0, parseDate);
      } else {
        forall j | 0 <= j < |a0|
          ensures a0[j].group == Summarize(Members(rs, a0[j].sender), parseDate)
        {
          MembersOtherKey(rs, a0[j].sender);
        }
      }
    }
  }

  lemma TotalCountUpdate(gs: seq<Entry>, i: nat, e: Entry)
    requires i < |gs|
    ensures TotalCount(gs[i := e]) + gs[i].group.count == TotalCount(gs) + e.group.count
    decreases |gs|
  {
    if i < |gs| - 1 {
      TotalCountUpdate(gs[..|gs| - 1], i, e);
      assert gs[i := e][..|gs| - 1] == gs[..|gs| - 1][i := e];
    } else {
      assert gs[i := e][..|gs| - 1] == gs[..|gs| - 1];
    }
  }

  /** Each message that is not skipped adds exactly one to exactly one
      group, so the counts add up to the number of such messages. */
  lemma {:induction false} AccumulateTotal(rs: seq<Record>, parseDate: string -> Option<Timestamp>)
    ensures TotalCount(Accumulate(rs, parseDate)) == |KeySequence(rs)|
    decreases |rs|
  {
    if |rs| > 0 {
      var init, r := rs[..|rs| - 1], rs[|rs| - 1];
      AccumulateTotal(init, parseDate);
      var a0 := Accumulate(init, parseDate);
      if Keyed(r.fields) {
        var key := KeyOf(r.fields);
        match IndexOf(a0, key)
        case Some(i) =>
          TotalCountUpdate(a0, i, Entry(key, Absorb(a0[i].group, r, parseDate)));
        case None =>
          var a := a0 + [Entry(key, Absorb(NewGroup, r, parseDate))];
          assert a[..|a| - 1] == a0;
      }
    }
  }

  // ----- Properties of the filter ---------------------------------------------

  /** The filter keeps exactly the entries whose group has the unsubscribe
      flag or more than one message, unchanged. */
  lemma {:induction false} RetainMembership(gs: seq<Entry>)
    ensures forall e :: e in Retain(gs) <==> e in gs && Keep(e.group)
    decreases |gs|
  {
    if |gs| > 0 {
      RetainMembership(gs[..|gs| - 1]);
      assert gs == gs[..|gs| - 1] + [gs[|gs| - 1]];
    }
  }

  /** The filter keeps relative order: filtering a concatenation filters
      each part. */
  lemma {:induction false} RetainAppend(a: seq<Entry>, b: seq<Entry>)
    ensures Retain(a + b) == Retain(a) + Retain(b)
    decreases |b|
  {
    if |b| > 0 {
      var b0 := b[..|b| - 1];
      RetainAppend(a, b0);
      assert (a + b)[..|a + b| - 1] == a + b0;
    } else {
      assert a + b == a;
    }
  }

  lemma {:induction false} RetainSenders(gs: seq<Entry>)
    requires Distinct(Senders(gs))
    ensures Distinct(Senders(Retain(gs)))
    decreases |gs|
  {
    if |gs| > 0 {
      var init := gs[..|gs| - 1];
      assert Senders(init) == Senders(gs)[..|gs| - 1];
      RetainSenders(init);
      RetainMembership(init);
      var r := Retain(gs);
      var r0 := Retain(init);
      forall i, j | 0 <= i < j < |r|
        ensures Senders(r)[i] != Senders(r)[j]
      {
        if j >= |r0| {
          assert r[j] == gs[|gs| - 1];
          assert r[i] == r0[i];
          assert r0[i] in init;
          var k :| 0 <= k < |init| && init[k] == r0[i];
          assert Senders(gs)[k] != Senders(gs)[|gs| - 1];
        } else {
          assert Senders(r)[i] == Senders(r0)[i] && Senders(r)[j] == Senders(r0)[j];
        }
      }
    }
  }

  // ----- group_emails ------------------------------------------------------

  /** The result of `group_emails`: one entry per distinct kept key, each
      holding the summary of exactly that key's messages, and among those
      exactly the groups that pass the filter. */
  lemma GroupEmailsSpec(c: Codecs, msgs: seq<Message>)
    requires GroupEmails(c, msgs).Success?
    ensures ExtractAll(c, msgs).Success?
    ensures var rs := ExtractAll(c, msgs).value;
            var gs := GroupEmails(c, msgs).value;
            && Distinct(Senders(gs))
            && (forall e :: e in gs ==>
                  e.sender in KeySequence(rs) &&
                  e.group == Summarize(Members(rs, e.sender), c.parseDate) &&
                  Keep(e.group))
            && (forall key :: key in KeySequence(rs) && Keep(Summarize(Members(rs, key), c.parseDate)) ==>
                  Entry(key, Summarize(Members(rs, key), c.parseDate)) in gs)
  {
    var rs := ExtractAll(c, msgs).value;
    var a := Accumulate(rs, c.parseDate);
    AccumulateSenders(rs, c.parseDate);
    AccumulateGroups(rs, c.parseDate);
    DedupSpec(KeySequence(rs));
    RetainSenders(a);
    RetainMembership(a);
    forall key | key in KeySequence(rs) && Keep(Summarize(Members(rs, key), c.parseDate))
      ensures Entry(key, Summarize(Members(rs, key), c.parseDate)) in Retain(a)
    {
      assert key in Senders(a);
      var i :| 0 <= i < |a| && Senders(a)[i] == key;
      assert a[i] == Entry(key, Summarize(Members(rs, key), c.parseDate));
    }
    forall e | e in Retain(a)
      ensures e.sender in KeySequence(rs)
    {
      var i :| 0 <= i < |a| && a[i] == e;
      assert Senders(a)[i] == e.sender;
    }
  }

  /** Every group `group_emails` returns has count equal to its number of
      ids, at least one message, and its latest fields in sync; none is a
      one-message group without the unsubscribe flag. */
  lemma GroupEmailsGroups(c: Codecs, msgs: seq<Message>)
    requires GroupEmails(c, msgs).Success?
    ensures forall e :: e in GroupEmails(c, msgs).value ==>
              && e.group.count == |e.group.ids| >= 1
              && InSync(e.group)
              && !(e.group.count == 1 && !e.group.hasListUnsubscribe)
  {
    GroupEmailsSpec(c, msgs);
    var rs := ExtractAll(c, msgs).value;
    forall e | e in GroupEmails(c, msgs).value
      ensures e.group.count == |e.group.ids| >= 1 && InSync(e.group)
    {
      var ms := Members(rs, e.sender);
      SummarizeCounts(ms, c.parseDate);
      SummarizeLatest(ms, c.parseDate);
      MembersEmptyIff(rs, e.sender);
    }
  }

  /** No messages, no groups. */
  lemma EmptyInputNoGroups(c: Codecs)
    ensures GroupEmails(c, []) == Success([])
  {
    assert ExtractAll(c, []) == Success([]);
  }
}
