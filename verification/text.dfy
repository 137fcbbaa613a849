/** Small text utilities shared by the header decoder and the grouper:
    bytes, ASCII lower-casing of header names, and `' '.join`. */
module Text {

  type byte = b: int | 0 <= b < 256

  /** Lower-cases an ASCII capital; every other character is left alone.
      Python's `str.lower` also folds non-ASCII letters, but the only
      non-ASCII character it maps onto a lone ASCII letter is the Kelvin
      sign (onto 'k'), and no header name the grouper compares against
      contains a 'k', so the comparisons come out the same. */
  function LowerChar(ch: char): char {
    if 'A' <= ch <= 'Z' then (ch as int - 'A' as int + 'a' as int) as char else ch
  }

  function Lower(s: string): string {
    seq(|s|, i requires 0 <= i < |s| => LowerChar(s[i]))
  }

  /** Comparing `Lower(s)` with a name written without capitals is a
      case-insensitive comparison: each character of `s` is the name's
      character or, for a letter, its capital. */
  lemma LowerMatchesIgnoringCase(s: string, t: string)
    requires forall i :: 0 <= i < |t| ==> !('A' <= t[i] <= 'Z')
    ensures Lower(s) == t <==>
              |s| == |t| &&
              forall i :: 0 <= i < |s| ==>
                s[i] == t[i] || ('a' <= t[i] <= 'z' && s[i] as int == t[i] as int - 32)
  {
    if |s| == |t| && forall i :: 0 <= i < |s| ==>
                       s[i] == t[i] || ('a' <= t[i] <= 'z' && s[i] as int == t[i] as int - 32) {
      forall i | 0 <= i < |s|
        ensures Lower(s)[i] == t[i]
      {
      }
    }
    if Lower(s) == t {
      forall i | 0 <= i < |s|
        ensures s[i] == t[i] || ('a' <= t[i] <= 'z' && s[i] as int == t[i] as int - 32)
      {
        assert LowerChar(s[i]) == t[i];
      }
    }
  }

  /** Python's `' '.join(parts)`: the parts separated by single spaces. */
  function JoinSpaced(parts: seq<string>): string
    decreases |parts|
  {
    if |parts| == 0 then ""
    else if |parts| == 1 then parts[0]
    else JoinSpaced(parts[..|parts| - 1]) + " " + parts[|parts| - 1]
  }

  function TotalLength(parts: seq<string>): nat
    decreases |parts|
  {
    if |parts| == 0 then 0 else TotalLength(parts[..|parts| - 1]) + |parts[|parts| - 1]|
  }

  /** The joined text holds every character of the parts plus exactly one
      separator between neighbours. */
  lemma {:induction false} JoinSpacedShape(parts: seq<string>)
    requires |parts| > 0
    ensures |JoinSpaced(parts)| == TotalLength(parts) + |parts| - 1
    decreases |parts|
  {
    if |parts| > 1 {
      var init := parts[..|parts| - 1];
      JoinSpacedShape(init);
      assert JoinSpaced(parts) == JoinSpaced(init) + " " + parts[|parts| - 1];
    }
  }

  /** Joining two non-empty runs of parts is joining each run and putting
      one space between them: the parts appear in order, each neighbour
      pair separated by a single space. */
  lemma {:induction false} JoinSpacedAppend(a: seq<string>, b: seq<string>)
    requires |a| > 0 && |b| > 0
    ensures JoinSpaced(a + b) == JoinSpaced(a) + " " + JoinSpaced(b)
    decreases |b|
  {
    var ab := a + b;
    assert ab[..|ab| - 1] == a + b[..|b| - 1];
    if |b| > 1 {
      JoinSpacedAppend(a, b[..|b| - 1]);
    } else {
      assert a + b[..|b| - 1] == a;
    }
  }
}
