/** The ETL step of the pipeline: load_data, then clean_data, over the two
    parsed CSV files; writing the result to SQLite is not modelled. */
module ProcessData {
  import opened Wrappers
  import opened Frames
  import opened CategoryString
  import opened Loading
  import opened Cleaning
  import opened CleaningProperties
  import opened Dedup

  datatype ProcessError = LoadFailed(load: LoadError) | CleanFailed(clean: CleanError)

  lemma NotInRemoveAt<T>(s: seq<T>, k: nat, x: T)
    requires k < |s| && x !in s
    ensures x !in RemoveAt(s, k)
  {
    forall p | 0 <= p < |s| - 1 ensures RemoveAt(s, k)[p] != x {
      assert RemoveAt(s, k)[p] == s[if p < k then p else p + 1];
    }
  }

  /** `clean_data(load_data(messages, categories))`. */
  function Process(messages: Table, categories: Table): (r: Result<Table, ProcessError>)
    requires Rectangular(messages) && Rectangular(categories)
    requires Distinct(messages.columns) && Distinct(categories.columns)
    ensures r.Success? <==> LoadData(messages, categories).Success? && Clean(LoadData(messages, categories).value).Success?
    ensures r.Success? ==> var n := |messages.columns| + |categories.columns| - 3;
      n <= |r.value.columns| && Id !in r.value.columns[..n] && Categories !in r.value.columns[..n]
  {
    match LoadData(messages, categories)
    case Failure(e) => Failure(LoadFailed(e))
    case Success(df) =>
      match Clean(df)
      case Failure(e) => Failure(CleanFailed(e))
      case Success(out) =>
        CleanKeepsOtherColumns(df);
        NotInRemoveAt(df.columns, CategoriesIndex(df), Id);
        Success(out)
  }

  // ---------------------------------------------------------------------
  // Worked cases

  /** The category string of one token per name, split back. */
  lemma SplitTwoTokens(a: string, b: string)
    requires Separator !in a && Separator !in b
    ensures Split(a + [Separator] + b) == [a, b]
  {
    SplitJoin([a, b]);
    assert Join([a, b]) == a + [Separator] + Join([b]);
  }

  /** The table load_data gives when one message meets one categories row
      holding `cats`. */
  function OneLoaded(cats: string): Table {
    Table(["message", "categories"], [[Str("help"), Str(cats)]])
  }

  /** load_data on one message with one matching categories row. */
  lemma LoadOneMessage(cats: string)
    ensures var messages := Table(["id", "message"], [[Int(1), Str("help")]]);
      var categories := Table(["id", "categories"], [[Int(1), Str(cats)]]);
      LoadData(messages, categories) == Success(OneLoaded(cats))
  {
    var messages := Table(["id", "message"], [[Int(1), Str("help")]]);
    var categories := Table(["id", "categories"], [[Int(1), Str(cats)]]);
    var loaded := OneLoaded(cats);
    assert IndexOf(messages.columns, Id) == Some(0) && IndexOf(categories.columns, Id) == Some(0);
    assert Matching(categories.rows, 0, Int(1)) == categories.rows;
    assert RemoveAt(categories.rows[0], 0) == [Str(cats)];
    var joined := [Int(1), Str("help"), Str(cats)];
    assert messages.rows[0] + RemoveAt(categories.rows[0], 0) == joined;
    var b := Block(messages.rows[0], 0, categories, 0);
    assert |b| == 1 && b[0] == joined;
    assert b == [joined];
    assert messages.rows[1..] == [];
    assert JoinRows(messages.rows, 0, categories, 0) == [joined];
    assert RemoveAt(joined, 0) == loaded.rows[0];
    assert "message" !in categories.columns && "categories" !in messages.columns;
    MergedLabelAt(messages.columns, categories.columns, 0, 0);
    MergedLabelAt(messages.columns, categories.columns, 0, 1);
    MergedLabelAt(messages.columns, categories.columns, 0, 2);
    var merged := Merge(messages, 0, categories, 0);
    assert merged.columns == ["id", "message", "categories"];
    assert merged == Table(["id", "message", "categories"], [joined]);
    assert RemoveAt(merged.columns, 0) == loaded.columns;
    var dropped := DropColumnAt(merged, 0);
    assert |dropped.rows| == 1 && dropped.rows[0] == loaded.rows[0];
    assert dropped == loaded;
  }

  /** Line 33 on it: the two tokens side by side. */
  lemma OneMessageSplit(cats: string)
    requires Split(cats) == ["related-2", "offer-2"]
    ensures Rectangular(OneLoaded(cats)) && IndexOf(OneLoaded(cats).columns, Categories) == Some(1)
    ensures SplitExpand(OneLoaded(cats), 1) == [[Str("related-2"), Str("offer-2")]]
  {
    var t := OneLoaded(cats);
    assert IndexOf(t.columns, Categories) == Some(1);
    assert Width(t.rows, 1) == 2;
    var m := SplitExpand(t, 1);
    assert |m| == 1 && |m[0]| == 2;
    assert m[0][0] == Str("related-2") && m[0][1] == Str("offer-2");
    assert m[0] == [Str("related-2"), Str("offer-2")];
    assert m == [m[0]];
  }

  /** Lines 40-50 on the split tokens: names `related` and `offer`, values 1 and 2. */
  lemma OneMessageDecode()
    ensures var m := [[Str("related-2"), Str("offer-2")]];
      && ColumnNames(m[0]) == ["related", "offer"]
      && FirstBadColumn(m, ["related", "offer"], 0) == None
      && IndexOf(["related", "offer"], Related) == Some(0)
      && CoercedAt(DecodedBelow(m, 2), 0) == [[Int(1), Int(2)]]
  {
    var m := [[Str("related-2"), Str("offer-2")]];
    assert TrimSuffix("related-2") == "related" && TrimSuffix("offer-2") == "offer";
    var names := ColumnNames(m[0]);
    assert names == ["related", "offer"];
    assert LastChars("related-2") == "2" && LastChars("offer-2") == "2";
    assert Decoded(Str("related-2")) == Int(2) && Decoded(Str("offer-2")) == Int(2);
    assert FirstBadColumn(m, names, 2) == None;
    assert !Duplicated(names, 1) && ColumnConverts(m, 1);
    assert FirstBadColumn(m, names, 1) == None;
    assert !Duplicated(names, 0) && ColumnConverts(m, 0);
    assert IndexOf(names, Related) == Some(0);
    var d := DecodedBelow(m, 2);
    assert |d| == 1 && |d[0]| == 2 && d[0][0] == Int(2) && d[0][1] == Int(2);
    assert d[0] == [Int(2), Int(2)];
    var c := CoercedAt(d, 0);
    assert |c| == 1 && c[0] == [Int(1), Int(2)];
  }

  /** clean_data on that row: `related-2` becomes 1, `offer-2` stays 2. */
  lemma CleanOneMessage(cats: string)
    requires Split(cats) == ["related-2", "offer-2"]
    ensures Rectangular(OneLoaded(cats))
    ensures Clean(OneLoaded(cats)) == Success(Table(["message", "related", "offer"], [[Str("help"), Int(1), Int(2)]]))
  {
    OneMessageSplit(cats);
    OneMessageDecode();
    var t := OneLoaded(cats);
    assert !Duplicated(t.columns, 1);
    var rest := DropColumnAt(t, 1);
    assert RemoveAt(t.columns, 1) == ["message"] && RemoveAt(t.rows[0], 1) == [Str("help")];
    assert |rest.rows| == 1 && rest.rows[0] == [Str("help")];
    var x := Concat(rest, Table(["related", "offer"], [[Int(1), Int(2)]]));
    assert |x.rows| == 1 && x.rows[0] == [Str("help"), Int(1), Int(2)];
    assert x == Table(["message", "related", "offer"], [[Str("help"), Int(1), Int(2)]]);
    assert Expand(t) == Success(x);
    DropDuplicatesOfDistinct(x.rows);
  }

  /** One message with `related-2;offer-2`: `related` becomes 1 while
      `offer` keeps its 2, after the `id` column is dropped. */
  lemma ProcessOneMessage(cats: string)
    requires cats == "related-2;offer-2"
    ensures var messages := Table(["id", "message"], [[Int(1), Str("help")]]);
      var categories := Table(["id", "categories"], [[Int(1), Str(cats)]]);
      Process(messages, categories) == Success(Table(["message", "related", "offer"], [[Str("help"), Int(1), Int(2)]]))
  {
    SplitTwoTokens("related-2", "offer-2");
    assert cats == "related-2" + [Separator] + "offer-2";
    LoadOneMessage(cats);
    CleanOneMessage(cats);
  }

  /** Three categories rows with the same key all match it. */
  lemma MatchingAllThree(x: Row, y: Row, z: Row, key: Cell)
    requires |x| > 0 && |y| > 0 && |z| > 0 && x[0] == key && y[0] == key && z[0] == key
    ensures Matching([x, y, z], 0, key) == [x, y, z]
  {
    var rows := [x, y, z];
    assert rows[1..] == [y, z] && rows[1..][1..] == [z] && rows[1..][1..][1..] == [];
    assert Matching([z], 0, key) == [z];
    assert Matching([y, z], 0, key) == [y, z];
  }

  /** A message with `id` 1 against three categories rows with `id` 1 gives three rows. */
  lemma BlockOfThree(l: Row, x: Cell, y: Cell, z: Cell)
    requires |l| > 0 && l[0] == Int(1)
    ensures var categories := Table(["id", "categories"], [[Int(1), x], [Int(1), y], [Int(1), z]]);
      |Block(l, 0, categories, 0)| == 3
  {
    MatchingAllThree([Int(1), x], [Int(1), y], [Int(1), z], Int(1));
  }

  /** The merged rows of two messages against three categories rows, all with `id` 1. */
  lemma JoinManyToMany(a: Cell, b: Cell, x: Cell, y: Cell, z: Cell)
    ensures var categories := Table(["id", "categories"], [[Int(1), x], [Int(1), y], [Int(1), z]]);
      |JoinRows([[Int(1), a], [Int(1), b]], 0, categories, 0)| == 6
  {
    var categories := Table(["id", "categories"], [[Int(1), x], [Int(1), y], [Int(1), z]]);
    var ls := [[Int(1), a], [Int(1), b]];
    var rest := ls[1..];
    assert rest == [[Int(1), b]] && rest[1..] == [];
    BlockOfThree(ls[0], x, y, z);
    BlockOfThree(rest[0], x, y, z);
    assert |JoinRows(rest, 0, categories, 0)| == 3;
  }

  /** Duplicate ids multiply: two messages with `id` 1 and three categories
      rows with `id` 1 give six merged rows, more than the five input rows. */
  lemma LoadManyToMany(a: Cell, b: Cell, x: Cell, y: Cell, z: Cell)
    ensures var messages := Table(["id", "message"], [[Int(1), a], [Int(1), b]]);
      var categories := Table(["id", "categories"], [[Int(1), x], [Int(1), y], [Int(1), z]]);
      && LoadData(messages, categories).Success?
      && |LoadData(messages, categories).value.rows| == 6 > |messages.rows| + |categories.rows|
  {
    var messages := Table(["id", "message"], [[Int(1), a], [Int(1), b]]);
    var categories := Table(["id", "categories"], [[Int(1), x], [Int(1), y], [Int(1), z]]);
    assert IndexOf(messages.columns, Id) == Some(0) && IndexOf(categories.columns, Id) == Some(0);
    assert Rectangular(messages) && Rectangular(categories);
    assert Distinct(messages.columns) && Distinct(categories.columns);
    JoinManyToMany(a, b, x, y, z);
    LoadDataRowsLength(messages, categories);
  }

  /** The merged rows when the second message has no categories row. */
  lemma JoinUnmatched(cats: string)
    ensures var categories := Table(["id", "categories"], [[Int(1), Str(cats)]]);
      JoinRows([[Int(1), Str("a")], [Int(2), Str("b")]], 0, categories, 0)
        == [[Int(1), Str("a"), Str(cats)], [Int(2), Str("b"), NaN]]
  {
    var categories := Table(["id", "categories"], [[Int(1), Str(cats)]]);
    var ls := [[Int(1), Str("a")], [Int(2), Str("b")]];
    assert categories.rows[1..] == [];
    assert Matching(categories.rows, 0, Int(1)) == categories.rows;
    assert Matching(categories.rows, 0, Int(2)) == [];
    var r0, r1 := [Int(1), Str("a"), Str(cats)], [Int(2), Str("b"), NaN];
    assert ls[0] + RemoveAt(categories.rows[0], 0) == r0;
    var b0 := Block(ls[0], 0, categories, 0);
    assert |b0| == 1 && b0[0] == r0;
    assert ls[1] + Nulls(1) == r1;
    var b1 := Block(ls[1], 0, categories, 0);
    assert b1 == [r1];
    assert b0 == [r0];
    var rest := ls[1..];
    assert rest == [ls[1]] && rest[1..] == [];
    assert JoinRows(rest, 0, categories, 0) == b1;
  }

  /** load_data with an unmatched second message: its category cell is missing. */
  lemma LoadUnmatchedMessage(cats: string)
    ensures var messages := Table(["id", "message"], [[Int(1), Str("a")], [Int(2), Str("b")]]);
      var categories := Table(["id", "categories"], [[Int(1), Str(cats)]]);
      LoadData(messages, categories) == Success(UnmatchedLoaded(cats))
  {
    var messages := Table(["id", "message"], [[Int(1), Str("a")], [Int(2), Str("b")]]);
    var categories := Table(["id", "categories"], [[Int(1), Str(cats)]]);
    assert IndexOf(messages.columns, Id) == Some(0) && IndexOf(categories.columns, Id) == Some(0);
    JoinUnmatched(cats);
    var r0, r1 := [Int(1), Str("a"), Str(cats)], [Int(2), Str("b"), NaN];
    var loaded := UnmatchedLoaded(cats);
    var merged := Merge(messages, 0, categories, 0);
    assert merged == Table(["id", "message", "categories"], [r0, r1]);
    assert RemoveAt(merged.columns, 0) == loaded.columns;
    var dropped := DropColumnAt(merged, 0);
    assert RemoveAt(r0, 0) == loaded.rows[0] && RemoveAt(r1, 0) == loaded.rows[1];
    assert |dropped.rows| == 2 && dropped.rows[0] == loaded.rows[0] && dropped.rows[1] == loaded.rows[1];
    assert dropped == loaded;
  }

  /** The table load_data gives for the unmatched case. */
  function UnmatchedLoaded(cats: string): Table {
    Table(["message", "categories"], [[Str("a"), Str(cats)], [Str("b"), NaN]])
  }

  /** Line 33 on it: one token column, missing in the second row. */
  lemma UnmatchedSplit(cats: string)
    requires Split(cats) == ["related-1"]
    ensures Rectangular(UnmatchedLoaded(cats)) && IndexOf(UnmatchedLoaded(cats).columns, Categories) == Some(1)
    ensures SplitExpand(UnmatchedLoaded(cats), 1) == [[Str("related-1")], [NaN]]
  {
    var t := UnmatchedLoaded(cats);
    assert IndexOf(t.columns, Categories) == Some(1);
    assert t.rows[1..] == [[Str("b"), NaN]] && t.rows[1..][1..] == [];
    assert Width(t.rows[1..], 1) == 0;
    assert Width(t.rows, 1) == 1;
    var m := SplitExpand(t, 1);
    assert |m| == 2 && |m[0]| == 1 && |m[1]| == 1;
    assert m[0][0] == Str("related-1") && m[1][0] == NaN;
    assert m[0] == [Str("related-1")] && m[1] == [NaN];
    assert m == [m[0], m[1]];
  }

  /** clean_data on that table: the second row's missing category string
      cannot be converted to an integer. */
  lemma CleanUnmatchedMessage(cats: string)
    requires Split(cats) == ["related-1"]
    ensures Rectangular(UnmatchedLoaded(cats)) && Clean(UnmatchedLoaded(cats)) == Failure(NotAnInteger(Related))
  {
    UnmatchedSplit(cats);
    var t := UnmatchedLoaded(cats);
    assert !Duplicated(t.columns, 1);
    var m := [[Str("related-1")], [NaN]];
    assert TrimSuffix("related-1") == Related;
    var names := ColumnNames(m[0]);
    assert names == [Related];
    assert !Duplicated(names, 0);
    assert AsInt(LastChar(m[1][0])).None?;
    assert !ColumnConverts(m, 0);
    assert FirstBadColumn(m, names, 0) == Some(NotAnInteger(Related));
  }

  /** A message without a categories row reaches clean_data with a missing
      category string, which line 48 cannot convert: the whole run fails. */
  lemma ProcessUnmatchedMessage(cats: string)
    requires Split(cats) == ["related-1"]
    ensures var messages := Table(["id", "message"], [[Int(1), Str("a")], [Int(2), Str("b")]]);
      var categories := Table(["id", "categories"], [[Int(1), Str(cats)]]);
      Process(messages, categories) == Failure(CleanFailed(NotAnInteger(Related)))
  {
    LoadUnmatchedMessage(cats);
    CleanUnmatchedMessage(cats);
  }

  /** No messages label turns into `categories` through the `_x` suffix. */
  lemma SuffixedIsNotCategories(c: string)
    ensures c + LeftSuffix != Categories
  {
    if |c + LeftSuffix| == |Categories| {
      assert (c + LeftSuffix)[9] == 'x' != Categories[9];
    }
  }

  /** When the messages file has no `categories` label, that label can only
      come from the categories file: no message-side column of load_data's
      output carries it. */
  lemma CategoriesOnRightSide(messages: Table, categories: Table)
    requires Rectangular(messages) && Rectangular(categories)
    requires Distinct(messages.columns) && Distinct(categories.columns)
    requires LoadData(messages, categories).Success? && Categories !in messages.columns
    ensures var out := LoadData(messages, categories).value.columns;
      forall k | 0 <= k < |messages.columns| - 1 :: out[k] != Categories
  {
    LoadDataColumns(messages, categories);
    var lefts := RemoveAt(messages.columns, KeyIndex(messages));
    forall k | 0 <= k < |messages.columns| - 1 ensures LeftLabel(lefts[k], categories.columns) != Categories {
      assert lefts[k] in messages.columns;
      SuffixedIsNotCategories(lefts[k]);
    }
  }

  /** Any message without a categories row makes the whole run fail, as long
      as the messages file has no `categories` column of its own: the
      message's category cell is missing after the merge, and clean_data
      accepts only string category cells. */
  lemma ProcessFailsOnUnmatchedMessage(messages: Table, categories: Table, i: nat)
    requires Rectangular(messages) && Rectangular(categories)
    requires Distinct(messages.columns) && Distinct(categories.columns)
    requires Id in messages.columns && Id in categories.columns && Categories !in messages.columns
    requires i < |messages.rows|
    requires !HasCategories(categories, KeyIndex(categories), messages.rows[i][KeyIndex(messages)])
    ensures LoadData(messages, categories).Success?
    ensures Process(messages, categories).Failure?
  {
    var t := LoadData(messages, categories).value;
    var n := |messages.columns| - 1;
    if Categories in t.columns {
      var ci := CategoriesIndex(t);
      CategoriesOnRightSide(messages, categories);
      assert n <= ci;
      LoadDataKeepsEveryMessage(messages, categories, i);
      var l := messages.rows[i];
      var x := RemoveAt(l, KeyIndex(messages)) + Nulls(|categories.columns| - 1);
      assert x in t.rows;
      var k :| 0 <= k < |t.rows| && t.rows[k] == x;
      assert t.rows[k][ci] == x[ci] == NaN;
      assert !Decodable(t);
    }
    assert !Cleanable(t);
    CleanSucceedsIff(t);
  }
}
