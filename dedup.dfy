/** `DataFrame.drop_duplicates()` with its default `keep='first'`: of every
    group of equal rows only the earliest stays, and the survivors keep their
    relative order. */
module Dedup {
  import opened Wrappers
  import opened Frames

  /** The rows of `s` that are not equal to an earlier row, in order. */
  function DropDuplicates<T(==)>(s: seq<T>): (r: seq<T>)
    ensures |r| <= |s|
    ensures Distinct(r)
    ensures forall i | 0 <= i < |s| :: s[i] in r
    ensures forall k | 0 <= k < |r| :: r[k] in s
  {
    if |s| == 0 then []
    else
      var p := s[..|s| - 1];
      var d := DropDuplicates(p);
      assert s == p + [s[|s| - 1]];
      if s[|s| - 1] in p then d else d + [s[|s| - 1]]
  }

  /** A sequence without repeats is left as it is. */
  lemma {:induction false} DropDuplicatesOfDistinct<T>(s: seq<T>)
    requires Distinct(s)
    ensures DropDuplicates(s) == s
  {
    if |s| > 0 {
      var p := s[..|s| - 1];
      DropDuplicatesOfDistinct(p);
      assert s == p + [s[|s| - 1]];
    }
  }

  /** Dropping duplicates a second time changes nothing. */
  lemma DropDuplicatesIdempotent<T>(s: seq<T>)
    ensures DropDuplicates(DropDuplicates(s)) == DropDuplicates(s)
  {
    DropDuplicatesOfDistinct(DropDuplicates(s));
  }

  /** The position where `x` first occurs in `s`. */
  function FirstIndex<T(==)>(s: seq<T>, x: T): nat
    requires x in s
  {
    IndexOf(s, x).value
  }

  /** Appending an element does not move the first occurrence of anything already present. */
  lemma FirstIndexAppend<T>(p: seq<T>, x: T, y: T)
    requires y in p
    ensures FirstIndex(p + [x], y) == FirstIndex(p, y)
  {
    var i := FirstIndex(p, y);
    assert (p + [x])[..i] == p[..i];
    IndexOfFirst(p + [x], y, i);
  }

  /** Every element of `r` occurs in `s`, and earlier elements of `r` occur first earlier in `s`. */
  ghost predicate InFirstOccurrenceOrder<T>(s: seq<T>, r: seq<T>) {
    && (forall k | 0 <= k < |r| :: r[k] in s)
    && (forall k, l | 0 <= k < l < |r| :: FirstIndex(s, r[k]) < FirstIndex(s, r[l]))
  }

  /** One step of DropDuplicates keeps the order of first occurrences. */
  lemma OrderStep<T>(p: seq<T>, x: T, d: seq<T>)
    requires InFirstOccurrenceOrder(p, d)
    ensures InFirstOccurrenceOrder(p + [x], d)
    ensures x !in p ==> InFirstOccurrenceOrder(p + [x], d + [x])
  {
    var s := p + [x];
    forall k | 0 <= k < |d| ensures FirstIndex(s, d[k]) == FirstIndex(p, d[k]) {
      FirstIndexAppend(p, x, d[k]);
    }
    if x !in p {
      assert s[..|p|] == p;
      IndexOfFirst(s, x, |p|);
      var r := d + [x];
      forall k, l | 0 <= k < l < |r| ensures FirstIndex(s, r[k]) < FirstIndex(s, r[l]) {
        assert r[k] == d[k];
        if l < |d| {
          assert r[l] == d[l];
        }
      }
    }
  }

  /** The survivors appear in the order of their first occurrences in the input. */
  lemma {:induction false} DropDuplicatesKeepsFirstOccurrenceOrder<T>(s: seq<T>)
    ensures InFirstOccurrenceOrder(s, DropDuplicates(s))
  {
    if |s| > 0 {
      var p := s[..|s| - 1];
      var x := s[|s| - 1];
      DropDuplicatesKeepsFirstOccurrenceOrder(p);
      assert s == p + [x];
      OrderStep(p, x, DropDuplicates(p));
    }
  }
}
