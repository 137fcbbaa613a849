/** `sort_groups` (tidy_inbox.py:226-238).

    Python's `sorted(items, key=k, reverse=True)` is stable: the result is
    in descending key order and items with equal keys keep their input
    order. The model is an insertion sort over the entries in dict order,
    proved to return a permutation that is descending and keeps the input
    order within every class of equal keys. */
module Ranking {
  import opened Wrappers
  import opened Extraction
  import opened Grouping

  datatype Criteria = ByCount | ByDate

  /** The branch `sort_groups` takes: "date" sorts by date; "count" and,
      after a warning, every other value sort by count. */
  function CriteriaOf(criteria: string): Criteria {
    if criteria == "date" then ByDate else ByCount
  }

  /** The criteria values that print the invalid-criteria warning. */
  predicate WarnsInvalid(criteria: string) {
    criteria != "count" && criteria != "date"
  }

  /** `latest_date or datetime.min.replace(tzinfo=timezone.utc)`. */
  function DateKey(d: Option<Timestamp>): int {
    match d
    case Some(t) => t
    case None => MinTimestamp
  }

  /** A two-element sort tuple. */
  datatype SortKey = SortKey(major: int, minor: int)

  /** Python's `<` on two-element tuples of comparable values. */
  predicate Less(a: SortKey, b: SortKey) {
    a.major < b.major || (a.major == b.major && a.minor < b.minor)
  }

  /** The key lambdas of tidy_inbox.py:230, 233 and 236. */
  function KeyFor(c: Criteria, e: Entry): SortKey {
    match c
    case ByCount => SortKey(e.group.count, DateKey(e.group.latestDate))
    case ByDate => SortKey(DateKey(e.group.latestDate), e.group.count)
  }

  /** No entry is followed by one with a greater key. */
  ghost predicate Descending(c: Criteria, s: seq<Entry>) {
    forall i, j :: 0 <= i < j < |s| ==> !Less(KeyFor(c, s[i]), KeyFor(c, s[j]))
  }

  /** Inserts x after every entry whose key is not below its own, that is,
      before the first entry with a strictly smaller key. */
  function Insert(c: Criteria, x: Entry, s: seq<Entry>): seq<Entry>
    decreases |s|
  {
    if |s| == 0 then [x]
    else if Less(KeyFor(c, s[0]), KeyFor(c, x)) then [x] + s
    else [s[0]] + Insert(c, x, s[1..])
  }

  /** Inserting into a descending sequence adds exactly x and keeps it descending. */
  lemma {:induction false} InsertSorted(c: Criteria, x: Entry, s: seq<Entry>)
    requires Descending(c, s)
    ensures multiset(Insert(c, x, s)) == multiset(s) + multiset{x}
    ensures Descending(c, Insert(c, x, s))
    decreases |s|
  {
    if |s| == 0 {
    } else if Less(KeyFor(c, s[0]), KeyFor(c, x)) {
      DescendingCons(c, x, s);
    } else {
      var rest := Insert(c, x, s[1..]);
      InsertSorted(c, x, s[1..]);
      InsertBound(c, x, s, rest);
      DescendingCons(c, s[0], rest);
      assert s == [s[0]] + s[1..];
    }
  }

  /** A head no smaller than every later key keeps a descending tail descending. */
  lemma DescendingCons(c: Criteria, h: Entry, t: seq<Entry>)
    requires Descending(c, t)
    requires (|t| > 0 && Less(KeyFor(c, t[0]), KeyFor(c, h))) ||
             (forall j :: 0 <= j < |t| ==> !Less(KeyFor(c, h), KeyFor(c, t[j])))
    ensures Descending(c, [h] + t)
  {
    forall j | 0 <= j < |t|
      ensures !Less(KeyFor(c, h), KeyFor(c, t[j]))
    {
      if |t| > 0 && Less(KeyFor(c, t[0]), KeyFor(c, h)) && j > 0 {
        assert !Less(KeyFor(c, t[0]), KeyFor(c, t[j]));
      }
    }
    var r := [h] + t;
    forall i, j | 0 <= i < j < |r|
      ensures !Less(KeyFor(c, r[i]), KeyFor(c, r[j]))
    {
      if i > 0 {
        assert r[i] == t[i - 1] && r[j] == t[j - 1];
      } else {
        assert r[j] == t[j - 1];
      }
    }
  }

  /** The head of a descending s is no smaller than anything inserted after it. */
  lemma InsertBound(c: Criteria, x: Entry, s: seq<Entry>, rest: seq<Entry>)
    requires |s| > 0 && Descending(c, s) && !Less(KeyFor(c, s[0]), KeyFor(c, x))
    requires multiset(rest) == multiset(s[1..]) + multiset{x}
    ensures forall j :: 0 <= j < |rest| ==> !Less(KeyFor(c, s[0]), KeyFor(c, rest[j]))
  {
    forall j | 0 <= j < |rest|
      ensures !Less(KeyFor(c, s[0]), KeyFor(c, rest[j]))
    {
      assert rest[j] in multiset(rest);
      if rest[j] != x {
        assert rest[j] in multiset(s[1..]);
        var k :| 0 <= k < |s[1..]| && s[1..][k] == rest[j];
        assert s[k + 1] == rest[j];
      }
    }
  }

  /** The stable descending sort: the entries in input order, each inserted
      after the earlier ones with a key not below its own. */
  function SortBy(c: Criteria, s: seq<Entry>): seq<Entry>
    decreases |s|
  {
    if |s| == 0 then []
    else Insert(c, s[|s| - 1], SortBy(c, s[..|s| - 1]))
  }

  /** The sort returns a descending permutation of its input. */
  lemma {:induction false} SortBySorted(c: Criteria, s: seq<Entry>)
    ensures multiset(SortBy(c, s)) == multiset(s)
    ensures Descending(c, SortBy(c, s))
    decreases |s|
  {
    if |s| > 0 {
      SortBySorted(c, s[..|s| - 1]);
      InsertSorted(c, s[|s| - 1], SortBy(c, s[..|s| - 1]));
      assert s == s[..|s| - 1] + [s[|s| - 1]];
    }
  }

  /** `sort_groups(groups, criteria)`. */
  function SortGroups(gs: seq<Entry>, criteria: string): seq<Entry> {
    SortBy(CriteriaOf(criteria), gs)
  }

  // ----- Stability ---------------------------------------------------------------

  /** The entries of s whose key is k, in their order in s. */
  function WithKey(c: Criteria, s: seq<Entry>, k: SortKey): seq<Entry>
    decreases |s|
  {
    if |s| == 0 then []
    else WithKey(c, s[..|s| - 1], k) + (if KeyFor(c, s[|s| - 1]) == k then [s[|s| - 1]] else [])
  }

  lemma {:induction false} WithKeyAppend(c: Criteria, a: seq<Entry>, b: seq<Entry>, k: SortKey)
    ensures WithKey(c, a + b, k) == WithKey(c, a, k) + WithKey(c, b, k)
    decreases |b|
  {
    if |b| == 0 {
      assert a + b == a;
    } else {
      WithKeyAppend(c, a, b[..|b| - 1], k);
      assert (a + b)[..|a + b| - 1] == a + b[..|b| - 1];
    }
  }

  lemma {:induction false} WithKeyNone(c: Criteria, s: seq<Entry>, k: SortKey)
    requires forall i :: 0 <= i < |s| ==> KeyFor(c, s[i]) != k
    ensures WithKey(c, s, k) == []
    decreases |s|
  {
    if |s| > 0 {
      WithKeyNone(c, s[..|s| - 1], k);
    }
  }

  lemma WithKeySingle(c: Criteria, e: Entry, k: SortKey)
    ensures WithKey(c, [e], k) == (if KeyFor(c, e) == k then [e] else [])
  {
    assert [e][..0] == [];
  }

  /** Inserting x appends it to its own key class and leaves the others. */
  lemma {:induction false} InsertWithKey(c: Criteria, x: Entry, s: seq<Entry>, k: SortKey)
    requires Descending(c, s)
    ensures WithKey(c, Insert(c, x, s), k) ==
              WithKey(c, s, k) + (if KeyFor(c, x) == k then [x] else [])
    decreases |s|
  {
    if |s| == 0 {
      WithKeySingle(c, x, k);
    } else if Less(KeyFor(c, s[0]), KeyFor(c, x)) {
      InsertInFront(c, x, s, k);
    } else {
      InsertWithKey(c, x, s[1..], k);
      InsertBehindHead(c, x, s, k);
    }
  }

  /** x placed before a descending s whose head is smaller: no entry of s
      shares x's key. */
  lemma InsertInFront(c: Criteria, x: Entry, s: seq<Entry>, k: SortKey)
    requires Descending(c, s) && |s| > 0 && Less(KeyFor(c, s[0]), KeyFor(c, x))
    ensures WithKey(c, [x] + s, k) ==
              WithKey(c, s, k) + (if KeyFor(c, x) == k then [x] else [])
  {
    WithKeyAppend(c, [x], s, k);
    WithKeySingle(c, x, k);
    if KeyFor(c, x) == k {
      forall i | 0 <= i < |s|
        ensures KeyFor(c, s[i]) != k
      {
        if i > 0 {
          assert !Less(KeyFor(c, s[0]), KeyFor(c, s[i]));
        }
      }
      WithKeyNone(c, s, k);
    }
  }

  /** Regrouping a concatenation, stated apart so that the proof below does
      not search for it among the unfoldings of WithKey. */
  lemma ConcatAssociative(a: seq<Entry>, b: seq<Entry>, d: seq<Entry>)
    ensures a + (b + d) == (a + b) + d
  {
  }

  /** The recursive case: s's head stays in front of the insertion into the tail. */
  lemma InsertBehindHead(c: Criteria, x: Entry, s: seq<Entry>, k: SortKey)
    requires Descending(c, s) && |s| > 0 && !Less(KeyFor(c, s[0]), KeyFor(c, x))
    requires WithKey(c, Insert(c, x, s[1..]), k) ==
               WithKey(c, s[1..], k) + (if KeyFor(c, x) == k then [x] else [])
    ensures WithKey(c, Insert(c, x, s), k) ==
              WithKey(c, s, k) + (if KeyFor(c, x) == k then [x] else [])
  {
    var rest := Insert(c, x, s[1..]);
    var tail := if KeyFor(c, x) == k then [x] else [];
    assert Insert(c, x, s) == [s[0]] + rest;
    WithKeyAppend(c, [s[0]], rest, k);
    WithKeyAppend(c, [s[0]], s[1..], k);
    assert [s[0]] + s[1..] == s;
    ConcatAssociative(WithKey(c, [s[0]], k), WithKey(c, s[1..], k), tail);
  }

  /** `sorted` is stable: within each class of equal keys the sorted
      entries appear in their input order. */
  lemma {:induction false} SortByStable(c: Criteria, s: seq<Entry>, k: SortKey)
    ensures WithKey(c, SortBy(c, s), k) == WithKey(c, s, k)
    decreases |s|
  {
    if |s| > 0 {
      SortByStable(c, s[..|s| - 1], k);
      SortBySorted(c, s[..|s| - 1]);
      InsertWithKey(c, s[|s| - 1], SortBy(c, s[..|s| - 1]), k);
    }
  }

  /** Reordering entries keeps their senders distinct. */
  lemma {:induction false} PermutationKeepsSendersDistinct(a: seq<Entry>, b: seq<Entry>)
    requires multiset(a) == multiset(b) && Distinct(Senders(b))
    ensures Distinct(Senders(a))
    decreases |a|
  {
    if |a| > 0 {
      var b' := RemoveAt(b, Position(b, a[0]));
      assert a == [a[0]] + a[1..];
      assert multiset(a[1..]) == multiset(a) - multiset{a[0]} == multiset(b');
      PermutationKeepsSendersDistinct(a[1..], b');
      DistinctCons(a[0], a[1..]);
    }
  }

  /** Where an entry of b sits in b. */
  function Position(b: seq<Entry>, x: Entry): (k: nat)
    requires x in multiset(b)
    ensures k < |b| && b[k] == x
  {
    if b[0] == x then 0
    else
      assert b == [b[0]] + b[1..];
      1 + Position(b[1..], x)
  }

  /** A head whose sender is not among a tail's distinct senders. */
  lemma DistinctCons(h: Entry, t: seq<Entry>)
    requires Distinct(Senders(t))
    requires forall e :: e in multiset(t) ==> e.sender != h.sender
    ensures Distinct(Senders([h] + t))
  {
    var a := [h] + t;
    forall i, j | 0 <= i < j < |a|
      ensures Senders(a)[i] != Senders(a)[j]
    {
      assert a[j] == t[j - 1];
      if i > 0 {
        assert a[i] == t[i - 1];
        assert Senders(t)[i - 1] != Senders(t)[j - 1];
      } else {
        assert t[j - 1] in multiset(t);
      }
    }
  }

  /** b without its k-th entry: the rest keeps distinct senders, none of
      them the removed entry's. */
  function RemoveAt(b: seq<Entry>, k: nat): (r: seq<Entry>)
    requires k < |b| && Distinct(Senders(b))
    ensures multiset(b) == multiset(r) + multiset{b[k]}
    ensures Distinct(Senders(r))
    ensures forall e :: e in multiset(r) ==> e.sender != b[k].sender
  {
    var r := b[..k] + b[k + 1..];
    assert b == b[..k] + [b[k]] + b[k + 1..];
    forall i | 0 <= i < |r|
      ensures r[i] == b[if i < k then i else i + 1]
    {
    }
    forall i, j | 0 <= i < j < |r|
      ensures Senders(r)[i] != Senders(r)[j]
    {
      assert Senders(b)[if i < k then i else i + 1] != Senders(b)[if j < k then j else j + 1];
    }
    forall e | e in multiset(r)
      ensures e.sender != b[k].sender
    {
      var n :| 0 <= n < |r| && r[n] == e;
      assert Senders(b)[if n < k then n else n + 1] != Senders(b)[k];
    }
    r
  }

  /** An unrecognised criteria sorts exactly as "count". */
  lemma InvalidCriteriaSortsByCount(gs: seq<Entry>, criteria: string)
    requires WarnsInvalid(criteria)
    ensures SortGroups(gs, criteria) == SortGroups(gs, "count")
  {
  }

  /** A group without a date ranks as if dated at `datetime.min`, so it
      never ranks above a dated group that agrees with it on the other
      component of the key. */
  lemma UndatedRanksLowest(c: Criteria, e: Entry, f: Entry)
    requires e.group.latestDate.None? && e.group.count == f.group.count
    ensures !Less(KeyFor(c, f), KeyFor(c, e))
  {
  }
  /** Three senders: A with 5 messages, latest 2024-01-01; B with 5, latest
      2024-02-01; C with 3, latest 2024-03-01 (times in microseconds since
      the Unix epoch). By count the tie between A and B is broken by date. */
  lemma WorkedExampleByCount(a: Entry, b: Entry, cc: Entry)
    requires a.group.count == 5 && a.group.latestDate == Some(1704067200000000)
    requires b.group.count == 5 && b.group.latestDate == Some(1706745600000000)
    requires cc.group.count == 3 && cc.group.latestDate == Some(1709251200000000)
    ensures SortGroups([a, b, cc], "count") == [b, a, cc]
  {
    var s := [a, b, cc];
    assert s[..2] == [a, b] && [a, b][..1] == [a] && [a][..0] == [];
    assert Less(KeyFor(ByCount, a), KeyFor(ByCount, b));
    assert SortBy(ByCount, [a]) == [a];
    assert SortBy(ByCount, [a, b]) == [b, a];
    InsertBelowBoth(ByCount, cc, b, a);
  }

  /** An entry with a key below both entries of a descending pair goes last. */
  lemma InsertBelowBoth(c: Criteria, x: Entry, p: Entry, q: Entry)
    requires Descending(c, [p, q])
    requires !Less(KeyFor(c, p), KeyFor(c, x)) && !Less(KeyFor(c, q), KeyFor(c, x))
    ensures Insert(c, x, [p, q]) == [p, q, x]
  {
    assert [q][1..] == [] && [p, q][1..] == [q];
    assert Insert(c, x, [q]) == [q, x];
  }

  /** The same senders by date: newest first. */
  lemma WorkedExampleByDate(a: Entry, b: Entry, cc: Entry)
    requires a.group.count == 5 && a.group.latestDate == Some(1704067200000000)
    requires b.group.count == 5 && b.group.latestDate == Some(1706745600000000)
    requires cc.group.count == 3 && cc.group.latestDate == Some(1709251200000000)
    ensures SortGroups([a, b, cc], "date") == [cc, b, a]
  {
    var s := [a, b, cc];
    assert s[..2] == [a, b] && [a, b][..1] == [a] && [a][..0] == [];
    assert Less(KeyFor(ByDate, a), KeyFor(ByDate, b));
    assert SortBy(ByDate, [a]) == [a];
    assert SortBy(ByDate, [a, b]) == [b, a];
    assert Less(KeyFor(ByDate, b), KeyFor(ByDate, cc));
    assert Insert(ByDate, cc, [b, a]) == [cc, b, a];
  }
}
