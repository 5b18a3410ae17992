/** load_data: `messages.merge(categories, on='id', how='left').drop('id', axis=1)`
    over the two already-parsed CSV files. */
module Loading {
  import opened Wrappers
  import opened Frames

  const Id := "id"
  const LeftSuffix := "_x"
  const RightSuffix := "_y"

  /** `merge` or `drop` raised KeyError: one of the files has no `id` column. */
  datatype LoadError = MissingKey

  /** The label a messages column gets in the merge: pandas appends "_x" to a
      non-key label that the categories file also has. */
  function LeftLabel(c: string, right: seq<string>): (r: string)
  {
    if c != Id && c in right then c + LeftSuffix else c
  }

  /** The label a non-key categories column gets: "_y" when the messages file also has it. */
  function RightLabel(c: string, left: seq<string>): (r: string)
  {
    if c in left then c + RightSuffix else c
  }

  /** The suffixes keep a label both files have apart: it becomes two
      different labels, neither equal to the original; a label only one file
      has is left alone. */
  lemma SuffixesDisambiguate(c: string, left: seq<string>, right: seq<string>)
    requires c != Id
    ensures c in left && c in right ==>
      && LeftLabel(c, right) != RightLabel(c, left)
      && LeftLabel(c, right) != c && RightLabel(c, left) != c
    ensures c !in right ==> LeftLabel(c, right) == c
    ensures c !in left ==> RightLabel(c, left) == c
  {
    if c in left && c in right {
      assert (c + LeftSuffix)[|c| + 1] != (c + RightSuffix)[|c| + 1];
    }
  }

  /** A run of missing values, for a message without categories. */
  function Nulls(w: nat): (r: seq<Cell>)
    ensures |r| == w && forall k | 0 <= k < w :: r[k] == NaN
  {
    seq(w, _ => NaN)
  }

  /** The rows of `rows` whose key cell equals `key`, in their order. */
  function Matching(rows: seq<Row>, ri: nat, key: Cell): (r: seq<Row>)
    requires forall k | 0 <= k < |rows| :: ri < |rows[k]|
    ensures |r| <= |rows|
    ensures forall k | 0 <= k < |r| :: r[k] in rows && ri < |r[k]| && r[k][ri] == key
    ensures forall k | 0 <= k < |rows| :: rows[k][ri] == key ==> rows[k] in r
  {
    if |rows| == 0 then []
    else
      var rest := Matching(rows[1..], ri, key);
      assert forall k | 0 <= k < |rows| - 1 :: rows[1..][k] == rows[k + 1];
      if rows[0][ri] == key then [rows[0]] + rest else rest
  }

  /** The merged rows for one message row `l`: one per matching categories
      row (the categories row without its key appended), or, when nothing
      matches, `l` followed by missing values. */
  function Block(l: Row, li: nat, right: Table, ri: nat): (b: seq<Row>)
    requires li < |l| && Rectangular(right) && ri < |right.columns|
    ensures |b| >= 1
  {
    var ms := Matching(right.rows, ri, l[li]);
    if |ms| == 0 then [l + Nulls(|right.columns| - 1)]
    else seq(|ms|, k requires 0 <= k < |ms| => l + RemoveAt(ms[k], ri))
  }

  /** Every row of a message's block starts with the message's cells and is
      as wide as both files together minus the categories key. */
  lemma BlockRows(l: Row, li: nat, right: Table, ri: nat)
    requires li < |l| && Rectangular(right) && ri < |right.columns|
    ensures forall k | 0 <= k < |Block(l, li, right, ri)| ::
      |Block(l, li, right, ri)[k]| == |l| + |right.columns| - 1 && Block(l, li, right, ri)[k][..|l|] == l
  {
    var ms := Matching(right.rows, ri, l[li]);
    var b := Block(l, li, right, ri);
    forall k | 0 <= k < |b| ensures |b[k]| == |l| + |right.columns| - 1 && b[k][..|l|] == l {
      var y := if |ms| == 0 then Nulls(|right.columns| - 1) else RemoveAt(ms[k], ri);
      assert b[k] == l + y;
    }
  }

  /** The left merge row by row: the blocks of the message rows, in message order. */
  function JoinRows(ls: seq<Row>, li: nat, right: Table, ri: nat): (r: seq<Row>)
    requires forall i | 0 <= i < |ls| :: li < |ls[i]|
    requires Rectangular(right) && ri < |right.columns|
    ensures |r| >= |ls|
  {
    if |ls| == 0 then []
    else Block(ls[0], li, right, ri) + JoinRows(ls[1..], li, right, ri)
  }

  lemma {:induction false} JoinRowsWidth(ls: seq<Row>, li: nat, right: Table, ri: nat, w: nat)
    requires forall i | 0 <= i < |ls| :: |ls[i]| == w && li < w
    requires Rectangular(right) && ri < |right.columns|
    ensures forall k | 0 <= k < |JoinRows(ls, li, right, ri)| :: |JoinRows(ls, li, right, ri)[k]| == w + |right.columns| - 1
  {
    if |ls| > 0 {
      var rest := ls[1..];
      forall i | 0 <= i < |rest| ensures |rest[i]| == w && li < w {
        assert rest[i] == ls[i + 1];
      }
      JoinRowsWidth(rest, li, right, ri, w);
      var b, r := Block(ls[0], li, right, ri), JoinRows(rest, li, right, ri);
      assert JoinRows(ls, li, right, ri) == b + r;
      forall k | 0 <= k < |b + r| ensures |(b + r)[k]| == w + |right.columns| - 1 {
        if k >= |b| {
          assert (b + r)[k] == r[k - |b|];
        }
      }
    }
  }

  /** The labels of the merge: every messages label, then every categories
      label but the key at `ri`, each with its suffix. */
  function MergedLabels(left: seq<string>, right: seq<string>, ri: nat): (r: seq<string>)
    requires ri < |right|
    ensures |r| == |left| + |right| - 1
  {
    var others := RemoveAt(right, ri);
    seq(|left|, k requires 0 <= k < |left| => LeftLabel(left[k], right))
      + seq(|others|, k requires 0 <= k < |others| => RightLabel(others[k], left))
  }

  /** Where each label sits in the merge. */
  lemma MergedLabelAt(left: seq<string>, right: seq<string>, ri: nat, q: nat)
    requires ri < |right| && q < |left| + |right| - 1
    ensures q < |left| ==> MergedLabels(left, right, ri)[q] == LeftLabel(left[q], right)
    ensures q >= |left| ==> MergedLabels(left, right, ri)[q] == RightLabel(RemoveAt(right, ri)[q - |left|], left)
  {
  }

  /** Position `p` of the merged labels once the messages key at `li` is
      dropped: a messages label before `|left| - 1`, a categories label after. */
  lemma DroppedLabelAt(left: seq<string>, li: nat, right: seq<string>, ri: nat, p: nat)
    requires li < |left| && ri < |right| && p < |left| + |right| - 2
    ensures var out, n := RemoveAt(MergedLabels(left, right, ri), li), |left| - 1;
      if p < n then out[p] == LeftLabel(RemoveAt(left, li)[p], right)
      else out[p] == RightLabel(RemoveAt(right, ri)[p - n], left)
  {
    var ml := MergedLabels(left, right, ri);
    if p < |left| - 1 {
      var q := if p < li then p else p + 1;
      MergedLabelAt(left, right, ri, q);
      assert RemoveAt(ml, li)[p] == ml[q];
      assert RemoveAt(left, li)[p] == left[q];
    } else {
      MergedLabelAt(left, right, ri, p + 1);
      assert RemoveAt(ml, li)[p] == ml[p + 1];
    }
  }

  /** Once the messages key at `li` is dropped, the labels are the other
      messages labels, in order and suffixed, then the categories labels. */
  lemma DroppedLabels(left: seq<string>, li: nat, right: seq<string>, ri: nat)
    requires li < |left| && ri < |right|
    ensures var out, n := RemoveAt(MergedLabels(left, right, ri), li), |left| - 1;
      && |out| == n + |right| - 1
      && (forall k | 0 <= k < n :: out[k] == LeftLabel(RemoveAt(left, li)[k], right))
      && (forall k | 0 <= k < |right| - 1 :: out[n + k] == RightLabel(RemoveAt(right, ri)[k], left))
  {
    var n := |left| - 1;
    forall k | 0 <= k < n
      ensures RemoveAt(MergedLabels(left, right, ri), li)[k] == LeftLabel(RemoveAt(left, li)[k], right)
    {
      DroppedLabelAt(left, li, right, ri, k);
    }
    forall k | 0 <= k < |right| - 1
      ensures RemoveAt(MergedLabels(left, right, ri), li)[n + k] == RightLabel(RemoveAt(right, ri)[k], left)
    {
      DroppedLabelAt(left, li, right, ri, n + k);
    }
  }

  /** `messages.merge(categories, on='id', how='left')`: the messages columns
      (key included), then the categories columns other than the key. */
  function Merge(messages: Table, li: nat, categories: Table, ri: nat): (r: Table)
    requires Rectangular(messages) && Rectangular(categories)
    requires li < |messages.columns| && ri < |categories.columns|
    ensures Rectangular(r) && |r.columns| == |messages.columns| + |categories.columns| - 1
  {
    JoinRowsWidth(messages.rows, li, categories, ri, |messages.columns|);
    Table(MergedLabels(messages.columns, categories.columns, ri), JoinRows(messages.rows, li, categories, ri))
  }

  /** The merge's labels: the messages labels in order, `_x` on those the
      categories file shares, then the categories labels other than the key
      in order, `_y` on those the messages file has. */
  lemma MergeColumns(messages: Table, li: nat, categories: Table, ri: nat)
    requires Rectangular(messages) && Rectangular(categories)
    requires li < |messages.columns| && ri < |categories.columns|
    ensures var cols := Merge(messages, li, categories, ri).columns;
      && (forall k | 0 <= k < |messages.columns| :: cols[k] == LeftLabel(messages.columns[k], categories.columns))
      && (forall k | 0 <= k < |categories.columns| - 1 ::
            cols[|messages.columns| + k] == RightLabel(RemoveAt(categories.columns, ri)[k], messages.columns))
  {
    var n, ml := |messages.columns|, MergedLabels(messages.columns, categories.columns, ri);
    assert Merge(messages, li, categories, ri).columns == ml;
    forall k | 0 <= k < n ensures ml[k] == LeftLabel(messages.columns[k], categories.columns) {
      MergedLabelAt(messages.columns, categories.columns, ri, k);
    }
    forall k | 0 <= k < |categories.columns| - 1
      ensures ml[n + k] == RightLabel(RemoveAt(categories.columns, ri)[k], messages.columns)
    {
      MergedLabelAt(messages.columns, categories.columns, ri, n + k);
    }
  }

  /** Appending a suffix never yields the key label. */
  lemma SuffixedIsNotKey(c: string, suffix: string)
    requires suffix == LeftSuffix || suffix == RightSuffix
    ensures c + suffix != Id
  {
    if |c + suffix| == |Id| {
      assert (c + suffix)[1] == suffix[1];
    }
  }

  /** No label other than the dropped messages key is `id`. */
  lemma DroppedLabelNotKey(left: seq<string>, li: nat, right: seq<string>, ri: nat, p: nat)
    requires Distinct(left) && Distinct(right)
    requires li < |left| && left[li] == Id && ri < |right| && right[ri] == Id
    requires p < |left| + |right| - 2
    ensures RemoveAt(MergedLabels(left, right, ri), li)[p] != Id
  {
    DroppedLabelAt(left, li, right, ri, p);
    var n := |left| - 1;
    if p < n {
      var q := if p < li then p else p + 1;
      assert RemoveAt(left, li)[p] == left[q] && q != li;
      SuffixedIsNotKey(RemoveAt(left, li)[p], LeftSuffix);
    } else {
      var k := p - n;
      var q := if k < ri then k else k + 1;
      assert RemoveAt(right, ri)[k] == right[q] && q != ri;
      SuffixedIsNotKey(RemoveAt(right, ri)[k], RightSuffix);
    }
  }

  /** The key column is the only column labelled `id` in the merge. */
  lemma MergeDropsKey(messages: Table, li: nat, categories: Table, ri: nat)
    requires Rectangular(messages) && Rectangular(categories)
    requires Distinct(messages.columns) && Distinct(categories.columns)
    requires li < |messages.columns| && messages.columns[li] == Id
    requires ri < |categories.columns| && categories.columns[ri] == Id
    ensures Id !in DropColumnAt(Merge(messages, li, categories, ri), li).columns
  {
    var out := RemoveAt(MergedLabels(messages.columns, categories.columns, ri), li);
    assert DropColumnAt(Merge(messages, li, categories, ri), li).columns == out;
    forall p | 0 <= p < |out| ensures out[p] != Id {
      DroppedLabelNotKey(messages.columns, li, categories.columns, ri, p);
    }
  }

  /** load_data: the left merge on `id`, then `id` dropped. Fails exactly when
      a file has no `id` column; on success `id` is gone and every row has one
      cell per column. */
  function LoadData(messages: Table, categories: Table): (r: Result<Table, LoadError>)
    requires Rectangular(messages) && Rectangular(categories)
    requires Distinct(messages.columns) && Distinct(categories.columns)
    ensures r.Failure? <==> Id !in messages.columns || Id !in categories.columns
    ensures r.Success? ==> Rectangular(r.value) && Id !in r.value.columns
    ensures r.Success? ==> |r.value.columns| == |messages.columns| + |categories.columns| - 2
  {
    match IndexOf(messages.columns, Id)
    case None => Failure(MissingKey)
    case Some(li) =>
      match IndexOf(categories.columns, Id)
      case None => Failure(MissingKey)
      case Some(ri) =>
        var merged := Merge(messages, li, categories, ri);
        var out := DropColumnAt(merged, li);
        MergeDropsKey(messages, li, categories, ri);
        Success(out)
  }

  /** Whether some categories row carries the key `key`. */
  predicate HasCategories(categories: Table, ri: nat, key: Cell)
    requires Rectangular(categories) && ri < |categories.columns|
  {
    exists r | r in categories.rows :: r[ri] == key
  }

  lemma RemoveAtAppend<T>(l: seq<T>, y: seq<T>, li: nat)
    requires li < |l|
    ensures RemoveAt(l + y, li) == RemoveAt(l, li) + y
  {
    assert (l + y)[..li] == l[..li];
    assert (l + y)[li + 1..] == l[li + 1..] + y;
  }

  /** The merge of `a + b` is the merge of `a` followed by the merge of `b`. */
  lemma {:induction false} JoinRowsAppend(a: seq<Row>, b: seq<Row>, li: nat, right: Table, ri: nat)
    requires forall i | 0 <= i < |a| :: li < |a[i]|
    requires forall i | 0 <= i < |b| :: li < |b[i]|
    requires Rectangular(right) && ri < |right.columns|
    ensures JoinRows(a + b, li, right, ri) == JoinRows(a, li, right, ri) + JoinRows(b, li, right, ri)
  {
    forall i | 0 <= i < |a + b| ensures li < |(a + b)[i]| {
      if i >= |a| {
        assert (a + b)[i] == b[i - |a|];
      }
    }
    if |a| > 0 {
      assert (a + b)[0] == a[0] && (a + b)[1..] == a[1..] + b;
      JoinRowsAppend(a[1..], b, li, right, ri);
      var x, y, z := Block(a[0], li, right, ri), JoinRows(a[1..], li, right, ri), JoinRows(b, li, right, ri);
      assert JoinRows(a + b, li, right, ri) == x + (y + z);
      assert x + (y + z) == (x + y) + z;
    } else {
      assert a + b == b;
    }
  }

  /** Every row of a message's block is a row of the merge. */
  lemma {:induction false} JoinRowsHasBlock(ls: seq<Row>, li: nat, right: Table, ri: nat, i: nat, x: Row)
    requires forall j | 0 <= j < |ls| :: li < |ls[j]|
    requires Rectangular(right) && ri < |right.columns|
    requires i < |ls| && x in Block(ls[i], li, right, ri)
    ensures x in JoinRows(ls, li, right, ri)
  {
    if i > 0 {
      assert ls[1..][i - 1] == ls[i];
      JoinRowsHasBlock(ls[1..], li, right, ri, i - 1, x);
    }
  }

  /** Every row of the merge comes from the block of some message row. */
  lemma {:induction false} JoinRowsOrigin(ls: seq<Row>, li: nat, right: Table, ri: nat, k: nat)
    requires forall j | 0 <= j < |ls| :: li < |ls[j]|
    requires Rectangular(right) && ri < |right.columns|
    requires k < |JoinRows(ls, li, right, ri)|
    ensures exists i | 0 <= i < |ls| :: JoinRows(ls, li, right, ri)[k] in Block(ls[i], li, right, ri)
  {
    var b := Block(ls[0], li, right, ri);
    if k < |b| {
      assert JoinRows(ls, li, right, ri)[k] == b[k];
    } else {
      JoinRowsOrigin(ls[1..], li, right, ri, k - |b|);
      var i :| 0 <= i < |ls| - 1 && JoinRows(ls[1..], li, right, ri)[k - |b|] in Block(ls[1..][i], li, right, ri);
      assert ls[1..][i] == ls[i + 1];
    }
  }

  /** With at most one categories row per key, every message row yields exactly one row. */
  lemma {:induction false} JoinRowsOnePerMessage(ls: seq<Row>, li: nat, right: Table, ri: nat)
    requires forall j | 0 <= j < |ls| :: li < |ls[j]|
    requires Rectangular(right) && ri < |right.columns|
    requires forall p, q | 0 <= p < q < |right.rows| :: right.rows[p][ri] != right.rows[q][ri]
    ensures |JoinRows(ls, li, right, ri)| == |ls|
  {
    if |ls| > 0 {
      JoinRowsOnePerMessage(ls[1..], li, right, ri);
      MatchingAtMostOne(right.rows, ri, ls[0][li]);
    }
  }

  lemma {:induction false} MatchingNone(rows: seq<Row>, ri: nat, key: Cell)
    requires forall k | 0 <= k < |rows| :: ri < |rows[k]| && rows[k][ri] != key
    ensures Matching(rows, ri, key) == []
  {
    if |rows| > 0 {
      assert forall k | 0 <= k < |rows| - 1 :: rows[1..][k] == rows[k + 1];
      MatchingNone(rows[1..], ri, key);
    }
  }

  lemma {:induction false} MatchingAtMostOne(rows: seq<Row>, ri: nat, key: Cell)
    requires forall k | 0 <= k < |rows| :: ri < |rows[k]|
    requires forall p, q | 0 <= p < q < |rows| :: rows[p][ri] != rows[q][ri]
    ensures |Matching(rows, ri, key)| <= 1
  {
    if |rows| > 0 {
      assert forall k | 0 <= k < |rows| - 1 :: rows[1..][k] == rows[k + 1];
      MatchingAtMostOne(rows[1..], ri, key);
      if rows[0][ri] == key {
        MatchingNone(rows[1..], ri, key);
      }
    }
  }

  lemma MultisetConsAt<T>(a: T, s: seq<T>, x: T)
    ensures multiset([a] + s)[x] == (if a == x then 1 else 0) + multiset(s)[x]
  {
    assert multiset([a] + s) == multiset{a} + multiset(s);
  }

  lemma MultisetHeadAt<T>(s: seq<T>, x: T)
    requires |s| > 0
    ensures multiset(s)[x] == (if s[0] == x then 1 else 0) + multiset(s[1..])[x]
  {
    assert s == [s[0]] + s[1..];
    MultisetConsAt(s[0], s[1..], x);
  }

  /** How often row `x` is matched: as often as it occurs, if it has the
      key, and never otherwise. */
  lemma {:induction false} MatchingCountsAt(rows: seq<Row>, ri: nat, key: Cell, x: Row)
    requires forall k | 0 <= k < |rows| :: ri < |rows[k]|
    ensures multiset(Matching(rows, ri, key))[x] == if ri < |x| && x[ri] == key then multiset(rows)[x] else 0
  {
    if |rows| > 0 {
      var tail := rows[1..];
      assert forall k | 0 <= k < |tail| :: tail[k] == rows[k + 1];
      MatchingCountsAt(tail, ri, key, x);
      var rest := Matching(tail, ri, key);
      MultisetHeadAt(rows, x);
      var own := if rows[0] == x then 1 else 0;
      assert multiset(rows)[x] == own + multiset(tail)[x];
      if rows[0][ri] == key {
        assert Matching(rows, ri, key) == [rows[0]] + rest;
        MultisetConsAt(rows[0], rest, x);
        assert multiset(Matching(rows, ri, key))[x] == own + multiset(rest)[x];
      } else {
        assert Matching(rows, ri, key) == rest;
        assert own == 0 || !(ri < |x| && x[ri] == key);
      }
    }
  }

  /** Matching keeps each matching row as often as it occurs and drops every
      other row. */
  lemma MatchingCounts(rows: seq<Row>, ri: nat, key: Cell)
    requires forall k | 0 <= k < |rows| :: ri < |rows[k]|
    ensures forall x :: multiset(Matching(rows, ri, key))[x] == if ri < |x| && x[ri] == key then multiset(rows)[x] else 0
  {
    forall x ensures multiset(Matching(rows, ri, key))[x] == if ri < |x| && x[ri] == key then multiset(rows)[x] else 0 {
      MatchingCountsAt(rows, ri, key, x);
    }
  }

  /** Matching keeps file order: it filters `a + b` as `a`, then `b`. */
  lemma {:induction false} MatchingAppend(a: seq<Row>, b: seq<Row>, ri: nat, key: Cell)
    requires forall k | 0 <= k < |a| :: ri < |a[k]|
    requires forall k | 0 <= k < |b| :: ri < |b[k]|
    ensures Matching(a + b, ri, key) == Matching(a, ri, key) + Matching(b, ri, key)
  {
    if |a| > 0 {
      assert (a + b)[1..] == a[1..] + b;
      assert forall k | 0 <= k < |a| - 1 :: a[1..][k] == a[k + 1];
      MatchingAppend(a[1..], b, ri, key);
    } else {
      assert a + b == b;
    }
  }

  /** A row of a message's block is the message row followed by the non-key
      cells of a matching categories row, or by missing values when none matches. */
  lemma BlockShape(l: Row, li: nat, right: Table, ri: nat, x: Row)
    requires li < |l| && Rectangular(right) && ri < |right.columns|
    requires x in Block(l, li, right, ri)
    ensures |x| >= |l| && x == l + x[|l|..]
    ensures || (!HasCategories(right, ri, l[li]) && x[|l|..] == Nulls(|right.columns| - 1))
            || (exists r | r in right.rows :: r[ri] == l[li] && x[|l|..] == RemoveAt(r, ri))
  {
    var ms := Matching(right.rows, ri, l[li]);
    if |ms| == 0 {
      assert x == l + Nulls(|right.columns| - 1);
    } else {
      var m :| 0 <= m < |ms| && x == l + RemoveAt(ms[m], ri);
      assert x[|l|..] == RemoveAt(ms[m], ri);
    }
  }

  /** The position of the `id` column. */
  function KeyIndex(t: Table): (k: nat)
    requires Id in t.columns
    ensures k < |t.columns| && t.columns[k] == Id
  {
    IndexOf(t.columns, Id).value
  }

  /** `x` is message row `i` without its `id`, followed either by the
      non-key cells of a categories row with the same `id`, or, when no
      categories row has that `id`, by missing values. */
  ghost predicate ComesFromMessage(messages: Table, li: nat, categories: Table, ri: nat, x: Row, i: nat)
    requires Rectangular(messages) && Rectangular(categories)
    requires li < |messages.columns| && ri < |categories.columns| && i < |messages.rows|
  {
    var l, n := messages.rows[i], |messages.columns| - 1;
    && |x| >= n
    && x[..n] == RemoveAt(l, li)
    && ((!HasCategories(categories, ri, l[li]) && x[n..] == Nulls(|categories.columns| - 1))
        || (exists r | r in categories.rows :: r[ri] == l[li] && x[n..] == RemoveAt(r, ri)))
  }

  /** A merged row of message `i`, with its key cell dropped, comes from that message. */
  lemma BlockRowOrigin(messages: Table, li: nat, categories: Table, ri: nat, i: nat, z: Row)
    requires Rectangular(messages) && Rectangular(categories)
    requires li < |messages.columns| && ri < |categories.columns| && i < |messages.rows|
    requires z in Block(messages.rows[i], li, categories, ri)
    ensures li < |z| && ComesFromMessage(messages, li, categories, ri, RemoveAt(z, li), i)
  {
    var l, n := messages.rows[i], |messages.columns| - 1;
    BlockShape(l, li, categories, ri, z);
    RemoveAtAppend(l, z[|l|..], li);
    var x := RemoveAt(z, li);
    assert x[..n] == RemoveAt(l, li) && x[n..] == z[|l|..];
  }

  /** Every output row of load_data comes from a message row. */
  lemma LoadDataRowOrigin(messages: Table, categories: Table, k: nat)
    requires Rectangular(messages) && Rectangular(categories)
    requires Distinct(messages.columns) && Distinct(categories.columns)
    requires LoadData(messages, categories).Success?
    requires k < |LoadData(messages, categories).value.rows|
    ensures exists i | 0 <= i < |messages.rows| ::
      ComesFromMessage(messages, KeyIndex(messages), categories, KeyIndex(categories), LoadData(messages, categories).value.rows[k], i)
  {
    var li, ri := IndexOf(messages.columns, Id).value, IndexOf(categories.columns, Id).value;
    var js := JoinRows(messages.rows, li, categories, ri);
    assert LoadData(messages, categories).value.rows[k] == RemoveAt(js[k], li);
    JoinRowsOrigin(messages.rows, li, categories, ri, k);
    var i :| 0 <= i < |messages.rows| && js[k] in Block(messages.rows[i], li, categories, ri);
    BlockRowOrigin(messages, li, categories, ri, i, js[k]);
    assert KeyIndex(messages) == li && KeyIndex(categories) == ri;
  }

  /** Every merged row of message `i` reaches the output without its key. */
  lemma LoadDataKeepsBlock(messages: Table, categories: Table, i: nat, y: Row)
    requires Rectangular(messages) && Rectangular(categories)
    requires Distinct(messages.columns) && Distinct(categories.columns)
    requires LoadData(messages, categories).Success?
    requires i < |messages.rows|
    requires messages.rows[i] + y in Block(messages.rows[i], KeyIndex(messages), categories, KeyIndex(categories))
    ensures RemoveAt(messages.rows[i], KeyIndex(messages)) + y in LoadData(messages, categories).value.rows
  {
    var li, ri := IndexOf(messages.columns, Id).value, IndexOf(categories.columns, Id).value;
    var js := JoinRows(messages.rows, li, categories, ri);
    var l := messages.rows[i];
    JoinRowsHasBlock(messages.rows, li, categories, ri, i, l + y);
    var k :| 0 <= k < |js| && js[k] == l + y;
    RemoveAtAppend(l, y, li);
    assert LoadData(messages, categories).value.rows[k] == RemoveAt(js[k], li);
  }

  /** The block of `l` holds `l` padded with missing values when nothing
      matches, and `l` with each matching categories row otherwise. */
  lemma BlockHolds(l: Row, li: nat, right: Table, ri: nat)
    requires li < |l| && Rectangular(right) && ri < |right.columns|
    ensures !HasCategories(right, ri, l[li]) ==> l + Nulls(|right.columns| - 1) in Block(l, li, right, ri)
    ensures forall r | r in right.rows && r[ri] == l[li] :: l + RemoveAt(r, ri) in Block(l, li, right, ri)
  {
    var ms := Matching(right.rows, ri, l[li]);
    var b := Block(l, li, right, ri);
    if !HasCategories(right, ri, l[li]) {
      assert b[0] == l + Nulls(|right.columns| - 1);
    }
    forall r | r in right.rows && r[ri] == l[li] ensures l + RemoveAt(r, ri) in b {
      var m :| 0 <= m < |ms| && ms[m] == r;
      assert b[m] == l + RemoveAt(r, ri);
    }
  }

  /** load_data keeps every message: a message without categories appears
      once, padded with missing values; a message appears once with each
      categories row that has its `id`. */
  lemma LoadDataKeepsEveryMessage(messages: Table, categories: Table, i: nat)
    requires Rectangular(messages) && Rectangular(categories)
    requires Distinct(messages.columns) && Distinct(categories.columns)
    requires LoadData(messages, categories).Success?
    requires i < |messages.rows|
    ensures var li, ri := KeyIndex(messages), KeyIndex(categories);
      var out, l := LoadData(messages, categories).value.rows, messages.rows[i];
      && (!HasCategories(categories, ri, l[li]) ==> RemoveAt(l, li) + Nulls(|categories.columns| - 1) in out)
      && (forall r | r in categories.rows && r[ri] == l[li] :: RemoveAt(l, li) + RemoveAt(r, ri) in out)
  {
    var li, ri := KeyIndex(messages), KeyIndex(categories);
    var l := messages.rows[i];
    BlockHolds(l, li, categories, ri);
    if !HasCategories(categories, ri, l[li]) {
      LoadDataKeepsBlock(messages, categories, i, Nulls(|categories.columns| - 1));
    }
    forall r | r in categories.rows && r[ri] == l[li]
      ensures RemoveAt(l, li) + RemoveAt(r, ri) in LoadData(messages, categories).value.rows
    {
      LoadDataKeepsBlock(messages, categories, i, RemoveAt(r, ri));
    }
  }

  /** The rows load_data returns are the merged rows without their key cell. */
  lemma LoadDataRows(messages: Table, categories: Table)
    requires Rectangular(messages) && Rectangular(categories)
    requires Distinct(messages.columns) && Distinct(categories.columns)
    requires Id in messages.columns && Id in categories.columns
    ensures var li := KeyIndex(messages);
      var j := JoinRows(messages.rows, li, categories, KeyIndex(categories));
      && (forall k | 0 <= k < |j| :: li < |j[k]|)
      && LoadData(messages, categories).Success?
      && LoadData(messages, categories).value.rows == seq(|j|, k requires 0 <= k < |j| => RemoveAt(j[k], li))
  {
    var li, ri := KeyIndex(messages), KeyIndex(categories);
    JoinRowsWidth(messages.rows, li, categories, ri, |messages.columns|);
  }

  /** load_data returns one row per merged row. */
  lemma LoadDataRowsLength(messages: Table, categories: Table)
    requires Rectangular(messages) && Rectangular(categories)
    requires Distinct(messages.columns) && Distinct(categories.columns)
    requires Id in messages.columns && Id in categories.columns
    ensures LoadData(messages, categories).Success?
    ensures |LoadData(messages, categories).value.rows| == |JoinRows(messages.rows, KeyIndex(messages), categories, KeyIndex(categories))|
  {
    LoadDataRows(messages, categories);
  }

  /** Message rows are processed in order and independently: loading
      `a + b` gives the rows of loading `a`, then those of loading `b`. */
  lemma LoadDataKeepsMessageOrder(columns: seq<string>, a: seq<Row>, b: seq<Row>, categories: Table)
    requires Rectangular(Table(columns, a)) && Rectangular(Table(columns, b)) && Rectangular(categories)
    requires Distinct(columns) && Distinct(categories.columns)
    requires Id in columns && Id in categories.columns
    ensures LoadData(Table(columns, a + b), categories).Success?
    ensures LoadData(Table(columns, a), categories).Success? && LoadData(Table(columns, b), categories).Success?
    ensures LoadData(Table(columns, a + b), categories).value.rows
         == LoadData(Table(columns, a), categories).value.rows + LoadData(Table(columns, b), categories).value.rows
  {
    var li, ri := KeyIndex(Table(columns, a)), KeyIndex(categories);
    assert Rectangular(Table(columns, a + b));
    LoadDataRows(Table(columns, a + b), categories);
    LoadDataRows(Table(columns, a), categories);
    LoadDataRows(Table(columns, b), categories);
    JoinRowsAppend(a, b, li, categories, ri);
    var ja, jb := JoinRows(a, li, categories, ri), JoinRows(b, li, categories, ri);
    var rab := LoadData(Table(columns, a + b), categories).value.rows;
    var ra := LoadData(Table(columns, a), categories).value.rows;
    var rb := LoadData(Table(columns, b), categories).value.rows;
    assert |rab| == |ra| + |rb|;
    forall k | 0 <= k < |rab| ensures rab[k] == (ra + rb)[k] {
      if k < |ra| {
        assert (ja + jb)[k] == ja[k];
      } else {
        assert (ja + jb)[k] == jb[k - |ja|];
      }
    }
  }

  /** load_data has at least one row per message, and exactly one when no
      two categories rows share an `id`. */
  lemma LoadDataRowCount(messages: Table, categories: Table)
    requires Rectangular(messages) && Rectangular(categories)
    requires Distinct(messages.columns) && Distinct(categories.columns)
    requires LoadData(messages, categories).Success?
    ensures |LoadData(messages, categories).value.rows| >= |messages.rows|
    ensures var ri := KeyIndex(categories);
      (forall p, q | 0 <= p < q < |categories.rows| :: categories.rows[p][ri] != categories.rows[q][ri])
      ==> |LoadData(messages, categories).value.rows| == |messages.rows|
  {
    var li, ri := IndexOf(messages.columns, Id).value, IndexOf(categories.columns, Id).value;
    if forall p, q | 0 <= p < q < |categories.rows| :: categories.rows[p][ri] != categories.rows[q][ri] {
      JoinRowsOnePerMessage(messages.rows, li, categories, ri);
    }
  }

  /** The labels load_data returns: the messages labels without `id`, then
      the categories labels without `id`, each with the merge's suffix. */
  lemma LoadDataColumns(messages: Table, categories: Table)
    requires Rectangular(messages) && Rectangular(categories)
    requires Distinct(messages.columns) && Distinct(categories.columns)
    requires LoadData(messages, categories).Success?
    ensures var li, ri := KeyIndex(messages), KeyIndex(categories);
      var out, n := LoadData(messages, categories).value.columns, |messages.columns| - 1;
      && |out| == n + |categories.columns| - 1
      && (forall k | 0 <= k < n :: out[k] == LeftLabel(RemoveAt(messages.columns, li)[k], categories.columns))
      && (forall k | 0 <= k < |categories.columns| - 1 ::
            out[n + k] == RightLabel(RemoveAt(categories.columns, ri)[k], messages.columns))
  {
    var li, ri := KeyIndex(messages), KeyIndex(categories);
    assert IndexOf(messages.columns, Id) == Some(li) && IndexOf(categories.columns, Id) == Some(ri);
    assert LoadData(messages, categories).value.columns == RemoveAt(MergedLabels(messages.columns, categories.columns, ri), li);
    DroppedLabels(messages.columns, li, categories.columns, ri);
  }

  /** A non-key messages label reaches the output, suffixed as the merge does. */
  lemma LoadDataLeftLabel(messages: Table, categories: Table, c: string)
    requires Rectangular(messages) && Rectangular(categories)
    requires Distinct(messages.columns) && Distinct(categories.columns)
    requires LoadData(messages, categories).Success? && c != Id && c in messages.columns
    ensures LeftLabel(c, categories.columns) in LoadData(messages, categories).value.columns
  {
    var li := KeyIndex(messages);
    LoadDataColumns(messages, categories);
    var k := RemoveAtKeeps(messages.columns, li, c);
    assert LoadData(messages, categories).value.columns[k] == LeftLabel(c, categories.columns);
  }

  /** A non-key categories label reaches the output, suffixed as the merge does. */
  lemma LoadDataRightLabel(messages: Table, categories: Table, c: string)
    requires Rectangular(messages) && Rectangular(categories)
    requires Distinct(messages.columns) && Distinct(categories.columns)
    requires LoadData(messages, categories).Success? && c != Id && c in categories.columns
    ensures RightLabel(c, messages.columns) in LoadData(messages, categories).value.columns
  {
    var ri, n := KeyIndex(categories), |messages.columns| - 1;
    LoadDataColumns(messages, categories);
    var k := RemoveAtKeeps(categories.columns, ri, c);
    assert LoadData(messages, categories).value.columns[n + k] == RightLabel(c, messages.columns);
  }

  /** A label only one file has comes through load_data unchanged; a label
      both files have comes through twice, as `_x` and as `_y`. */
  lemma LoadDataLabels(messages: Table, categories: Table, c: string)
    requires Rectangular(messages) && Rectangular(categories)
    requires Distinct(messages.columns) && Distinct(categories.columns)
    requires LoadData(messages, categories).Success? && c != Id
    ensures var out := LoadData(messages, categories).value.columns;
      && (c in messages.columns && c !in categories.columns ==> c in out)
      && (c in categories.columns && c !in messages.columns ==> c in out)
      && (c in messages.columns && c in categories.columns ==> c + LeftSuffix in out && c + RightSuffix in out)
  {
    if c in messages.columns {
      LoadDataLeftLabel(messages, categories, c);
    }
    if c in categories.columns {
      LoadDataRightLabel(messages, categories, c);
    }
  }

  /** The rows load_data makes of a single message: one per matching
      categories row, in file order, or one padded with missing values when
      none matches. Together with LoadDataKeepsMessageOrder this gives every
      row of the output. */
  lemma LoadDataOneMessage(columns: seq<string>, l: Row, categories: Table)
    requires |l| == |columns| && Rectangular(categories)
    requires Distinct(columns) && Distinct(categories.columns)
    requires Id in columns && Id in categories.columns
    ensures var li, ri := KeyIndex(Table(columns, [l])), KeyIndex(categories);
      var ms := Matching(categories.rows, ri, l[li]);
      var out := LoadData(Table(columns, [l]), categories);
      && out.Success?
      && |out.value.rows| == (if |ms| == 0 then 1 else |ms|)
      && (|ms| == 0 ==> out.value.rows == [RemoveAt(l, li) + Nulls(|categories.columns| - 1)])
      && (forall k | 0 <= k < |ms| :: out.value.rows[k] == RemoveAt(l, li) + RemoveAt(ms[k], ri))
  {
    var messages := Table(columns, [l]);
    assert messages.rows[0] == l;
    var li, ri := KeyIndex(messages), KeyIndex(categories);
    LoadDataRows(messages, categories);
    var b := Block(l, li, categories, ri);
    assert messages.rows[1..] == [];
    assert JoinRows(messages.rows, li, categories, ri) == b + [];
    assert b + [] == b;
    var ms := Matching(categories.rows, ri, l[li]);
    var rows := LoadData(messages, categories).value.rows;
    assert |rows| == |b|;
    if |ms| == 0 {
      RemoveAtAppend(l, Nulls(|categories.columns| - 1), li);
      assert rows[0] == RemoveAt(b[0], li);
      assert rows == [rows[0]];
    } else {
      forall k | 0 <= k < |ms| ensures rows[k] == RemoveAt(l, li) + RemoveAt(ms[k], ri) {
        RemoveAtAppend(l, RemoveAt(ms[k], ri), li);
        assert rows[k] == RemoveAt(b[k], li);
      }
    }
  }
}
