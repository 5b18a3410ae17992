/** What clean_data (data/process_data.py, lines 23-59) promises, stated without its pandas steps: when it
    succeeds, which columns come out and what every cell holds. */
module CleaningProperties {
  import opened Wrappers
  import opened Frames
  import opened CategoryString
  import opened Dedup
  import opened Cleaning

  /** The position of the `categories` column. */
  function CategoriesIndex(t: Table): (ci: nat)
    requires Categories in t.columns
    ensures ci < |t.columns| && t.columns[ci] == Categories
  {
    IndexOf(t.columns, Categories).value
  }

  /** The category string of row `i`, split at the semicolons. */
  function RowTokens(t: Table, i: nat): seq<string>
    requires Rectangular(t) && Categories in t.columns && i < |t.rows|
    requires t.rows[i][CategoriesIndex(t)].Str?
  {
    Split(t.rows[i][CategoriesIndex(t)].s)
  }

  predicate EndsInDigit(token: string) {
    |token| > 0 && IsDigit(token[|token| - 1])
  }

  /** The value a token stands for: its last character read as a digit. */
  function TokenValue(token: string): (v: nat)
    requires EndsInDigit(token)
    ensures v < 10
  {
    DigitValue(token[|token| - 1]).value
  }

  /** Everything clean_data needs of its input except the `related` column:
      exactly one `categories` column, at least one row, every category cell
      a string with as many tokens as the first row's, no two first-row
      tokens naming the same column, and every token ending in a digit. */
  ghost predicate Decodable(t: Table)
    requires Rectangular(t)
  {
    && Categories in t.columns
    && !Duplicated(t.columns, CategoriesIndex(t))
    && |t.rows| > 0
    && (forall i | 0 <= i < |t.rows| :: t.rows[i][CategoriesIndex(t)].Str?)
    && (forall i | 0 <= i < |t.rows| :: |RowTokens(t, i)| == |RowTokens(t, 0)|)
    && (forall j, k | 0 <= j < k < |RowTokens(t, 0)| :: TrimSuffix(RowTokens(t, 0)[j]) != TrimSuffix(RowTokens(t, 0)[k]))
    && (forall i, j | 0 <= i < |t.rows| && 0 <= j < |RowTokens(t, i)| :: EndsInDigit(RowTokens(t, i)[j]))
  }

  /** The category column names: the first row's tokens, each without its
      last two characters, in split order. */
  function CategoryNames(t: Table): (names: seq<string>)
    requires Rectangular(t) && Categories in t.columns && |t.rows| > 0
    requires t.rows[0][CategoriesIndex(t)].Str?
  {
    var first := RowTokens(t, 0);
    seq(|first|, j requires 0 <= j < |first| => TrimSuffix(first[j]))
  }

  /** The inputs clean_data accepts. */
  ghost predicate Cleanable(t: Table)
    requires Rectangular(t)
  {
    Decodable(t) && Related in CategoryNames(t)
  }

  /** The `related` rule: 0 and 1 stay, anything else becomes 1. */
  function RelatedValue(d: int): int {
    if d == 0 || d == 1 then d else 1
  }

  /** `astype(int)` converts a string of one character exactly when it is a
      decimal digit, and leaves an integer as it is. */
  lemma AsIntConverts(c: Cell)
    requires c.Str? ==> |c.s| <= 1
    ensures c.Str? ==> (AsInt(c).Some? <==> |c.s| == 1 && IsDigit(c.s[0]))
    ensures c.Int? ==> AsInt(c) == Some(c.n)
  {
  }

  /** When the loop stops, it stops at the first bad column from `j` on:
      every column before it has a unique name and converts, and the error
      names that column, ambiguous names checked before conversion. */
  lemma {:induction false} FirstBadColumnSome(m: seq<Row>, names: seq<string>, j: nat)
    requires forall i | 0 <= i < |m| :: |m[i]| == |names|
    requires FirstBadColumn(m, names, j).Some?
    ensures exists k | j <= k < |names| ::
      && (forall p | j <= p < k :: !Duplicated(names, p) && ColumnConverts(m, p))
      && (|| (Duplicated(names, k) && FirstBadColumn(m, names, j) == Some(AmbiguousColumn(names[k])))
          || (!Duplicated(names, k) && !ColumnConverts(m, k) && FirstBadColumn(m, names, j) == Some(NotAnInteger(names[k]))))
    decreases |names| - j
  {
    if !Duplicated(names, j) && ColumnConverts(m, j) {
      FirstBadColumnSome(m, names, j + 1);
      var k :| j + 1 <= k < |names|
        && (forall p | j + 1 <= p < k :: !Duplicated(names, p) && ColumnConverts(m, p))
        && (|| (Duplicated(names, k) && FirstBadColumn(m, names, j + 1) == Some(AmbiguousColumn(names[k])))
            || (!Duplicated(names, k) && !ColumnConverts(m, k) && FirstBadColumn(m, names, j + 1) == Some(NotAnInteger(names[k]))));
      assert forall p | j <= p < k :: !Duplicated(names, p) && ColumnConverts(m, p);
    }
  }

  /** The row clean_data makes of input row `i`: its cells without the
      category string, then for each category column the value of the token
      in that position, with `related` brought into {0,1}. */
  function ExpectedRow(t: Table, i: nat): Row
    requires Rectangular(t) && Decodable(t) && i < |t.rows|
  {
    var tokens, names := RowTokens(t, i), CategoryNames(t);
    RemoveAt(t.rows[i], CategoriesIndex(t))
      + seq(|tokens|, j requires 0 <= j < |tokens| =>
          var d := TokenValue(tokens[j]);
          Int(if names[j] == Related then RelatedValue(d) else d))
  }

  function ExpectedColumns(t: Table): seq<string>
    requires Rectangular(t) && Decodable(t)
  {
    RemoveAt(t.columns, CategoriesIndex(t)) + CategoryNames(t)
  }

  function ExpectedRows(t: Table): (rows: seq<Row>)
    requires Rectangular(t) && Decodable(t)
    ensures |rows| == |t.rows|
  {
    seq(|t.rows|, i requires 0 <= i < |t.rows| => ExpectedRow(t, i))
  }

  // ---------------------------------------------------------------------
  // The scan over the category columns

  lemma {:induction false} FirstBadColumnNone(m: seq<Row>, names: seq<string>, j: nat)
    requires forall i | 0 <= i < |m| :: |m[i]| == |names|
    ensures FirstBadColumn(m, names, j).None?
        <==> forall k | j <= k < |names| :: !Duplicated(names, k) && ColumnConverts(m, k)
    decreases |names| - j
  {
    if j < |names| {
      FirstBadColumnNone(m, names, j + 1);
    }
  }

  // ---------------------------------------------------------------------
  // Facts about the split matrix

  /** Line 33 on a Decodable input: every row becomes exactly its tokens. */
  lemma SplitExpandDecodable(t: Table)
    requires Rectangular(t) && Decodable(t)
    ensures var m := SplitExpand(t, CategoriesIndex(t));
      && Width(t.rows, CategoriesIndex(t)) == |RowTokens(t, 0)|
      && forall i, j | 0 <= i < |m| && 0 <= j < |m[i]| :: m[i][j] == Str(RowTokens(t, i)[j])
  {
    var ci := CategoriesIndex(t);
    var w := Width(t.rows, ci);
    var i :| 0 <= i < |t.rows| && w == |Tokens(t.rows[i][ci])|;
    assert Tokens(t.rows[i][ci]) == RowTokens(t, i);
  }

  /** A split cell that lines 47-48 can convert is a token of its row ending in a digit. */
  lemma ConvertibleCell(t: Table, i: nat, j: nat)
    requires Rectangular(t) && Categories in t.columns
    requires i < |t.rows| && j < Width(t.rows, CategoriesIndex(t))
    requires AsInt(LastChar(SplitExpand(t, CategoriesIndex(t))[i][j])).Some?
    ensures t.rows[i][CategoriesIndex(t)].Str?
    ensures j < |RowTokens(t, i)| && EndsInDigit(RowTokens(t, i)[j])
  {
    var ci := CategoriesIndex(t);
    var tokens := Tokens(t.rows[i][ci]);
    var c := SplitExpand(t, ci)[i][j];
    assert c == if j < |tokens| then Str(tokens[j]) else NaN;
  }

  /** No two category columns share a name. */
  lemma CategoryNamesDistinct(t: Table)
    requires Rectangular(t) && Decodable(t)
    ensures forall k | 0 <= k < |CategoryNames(t)| :: !Duplicated(CategoryNames(t), k)
  {
    var names, first := CategoryNames(t), RowTokens(t, 0);
    forall j, k | 0 <= j < |names| && 0 <= k < |names| && j != k ensures names[j] != names[k] {
      if j < k {
        assert TrimSuffix(first[j]) != TrimSuffix(first[k]);
      } else {
        assert TrimSuffix(first[k]) != TrimSuffix(first[j]);
      }
    }
  }

  /** On a Decodable input, lines 33-48 get through: the first row names
      the category columns and every column converts. */
  lemma DecodableScan(t: Table)
    requires Rectangular(t) && Decodable(t)
    ensures var m := SplitExpand(t, CategoriesIndex(t));
      && |m| > 0 && |m[0]| > 0 && AllStrings(m[0])
      && ColumnNames(m[0]) == CategoryNames(t)
      && FirstBadColumn(m, CategoryNames(t), 0) == None
  {
    var ci := CategoriesIndex(t);
    var m := SplitExpand(t, ci);
    SplitExpandDecodable(t);
    var names := CategoryNames(t);
    assert ColumnNames(m[0]) == names;
    CategoryNamesDistinct(t);
    forall k | 0 <= k < |names| ensures ColumnConverts(m, k) {
      forall i | 0 <= i < |m| ensures AsInt(LastChar(m[i][k])).Some? {
        assert m[i][k] == Str(RowTokens(t, i)[k]);
      }
    }
    FirstBadColumnNone(m, names, 0);
  }

  /** A token cell after lines 47-48 and line 50: its digit, brought into
      {0,1} in the `related` column. */
  lemma DecodedCell(m: seq<Row>, n: nat, rel: nat, i: nat, j: nat, token: string)
    requires forall r | 0 <= r < |m| :: |m[r]| == n
    requires i < |m| && j < n && rel < n
    requires m[i][j] == Str(token) && EndsInDigit(token)
    ensures var d := TokenValue(token);
      CoercedAt(DecodedBelow(m, n), rel)[i][j] == Int(if j == rel then RelatedValue(d) else d)
  {
    assert LastChar(m[i][j]) == Str([token[|token| - 1]]);
    assert DecodedBelow(m, n)[i][j] == Int(TokenValue(token));
  }

  /** Only one category column is named `related`: the one line 50 finds. */
  lemma RelatedOnlyAt(t: Table)
    requires Rectangular(t) && Cleanable(t)
    ensures var names := CategoryNames(t);
      forall j | 0 <= j < |names| :: names[j] == Related <==> j == IndexOf(names, Related).value
  {
    CategoryNamesDistinct(t);
  }

  /** The category cells of row `i` after lines 46-50 on a Cleanable input. */
  lemma BuiltTail(t: Table, i: nat)
    requires Rectangular(t) && Cleanable(t) && i < |t.rows|
    ensures var m := SplitExpand(t, CategoriesIndex(t));
      var names, tokens := CategoryNames(t), RowTokens(t, i);
      var body := CoercedAt(DecodedBelow(m, |names|), IndexOf(names, Related).value);
      && |body[i]| == |names| == |tokens|
      && forall j | 0 <= j < |names| ::
           body[i][j] == Int(if names[j] == Related then RelatedValue(TokenValue(tokens[j])) else TokenValue(tokens[j]))
  {
    var m := SplitExpand(t, CategoriesIndex(t));
    SplitExpandDecodable(t);
    RelatedOnlyAt(t);
    var names := CategoryNames(t);
    var rel := IndexOf(names, Related).value;
    var tokens := RowTokens(t, i);
    forall j | 0 <= j < |names| {
      DecodedCell(m, |names|, rel, i, j, tokens[j]);
    }
  }

  /** Row `i` after lines 42-54 on a Cleanable input is the expected row. */
  lemma BuiltRow(t: Table, i: nat)
    requires Rectangular(t) && Cleanable(t) && i < |t.rows|
    ensures var ci := CategoriesIndex(t);
      var m := SplitExpand(t, ci);
      var names := CategoryNames(t);
      var body := CoercedAt(DecodedBelow(m, |names|), IndexOf(names, Related).value);
      |body[i]| == |names| && RemoveAt(t.rows[i], ci) + body[i] == ExpectedRow(t, i)
  {
    var m := SplitExpand(t, CategoriesIndex(t));
    var names, tokens := CategoryNames(t), RowTokens(t, i);
    var body := CoercedAt(DecodedBelow(m, |names|), IndexOf(names, Related).value);
    var tail := seq(|tokens|, j requires 0 <= j < |tokens| =>
        var d := TokenValue(tokens[j]);
        Int(if names[j] == Related then RelatedValue(d) else d));
    BuiltTail(t, i);
    assert body[i] == tail;
  }

  // ---------------------------------------------------------------------
  // When clean_data succeeds

  /** Up to line 54, clean_data on an input it accepts yields exactly the
      expected columns and, row for row, the expected rows. */
  lemma ExpandMeaning(t: Table)
    requires Rectangular(t) && Cleanable(t)
    ensures Expand(t) == Success(Table(ExpectedColumns(t), ExpectedRows(t)))
  {
    var ci := CategoriesIndex(t);
    var m := SplitExpand(t, ci);
    DecodableScan(t);
    var names := CategoryNames(t);
    var body := CoercedAt(DecodedBelow(m, |names|), IndexOf(names, Related).value);
    var result := Concat(DropColumnAt(t, ci), Table(names, body));
    forall i | 0 <= i < |t.rows| ensures result.rows[i] == ExpectedRow(t, i) {
      BuiltRow(t, i);
    }
    assert result.rows == ExpectedRows(t);
  }

  /** clean_data on an input it accepts: the expected columns, and the
      expected rows with later duplicates dropped. */
  lemma CleanMeaning(t: Table)
    requires Rectangular(t) && Cleanable(t)
    ensures Clean(t) == Success(Table(ExpectedColumns(t), DropDuplicates(ExpectedRows(t))))
  {
    ExpandMeaning(t);
  }

  // ---------------------------------------------------------------------
  // When clean_data fails

  /** When every split column converts, row `i`'s category cell is a
      string with exactly `w` tokens, each ending in a digit. */
  lemma ConvertedRow(t: Table, i: nat)
    requires Rectangular(t) && Categories in t.columns && i < |t.rows|
    requires var w := Width(t.rows, CategoriesIndex(t));
      w > 0 && forall j | 0 <= j < w :: ColumnConverts(SplitExpand(t, CategoriesIndex(t)), j)
    ensures var ci, w := CategoriesIndex(t), Width(t.rows, CategoriesIndex(t));
      && t.rows[i][ci].Str?
      && |RowTokens(t, i)| == w
      && forall j | 0 <= j < w :: EndsInDigit(RowTokens(t, i)[j])
  {
    var ci := CategoriesIndex(t);
    var w := Width(t.rows, ci);
    var m := SplitExpand(t, ci);
    assert ColumnConverts(m, w - 1);
    ConvertibleCell(t, i, w - 1);
    forall j | 0 <= j < w ensures EndsInDigit(RowTokens(t, i)[j]) {
      assert ColumnConverts(m, j);
      ConvertibleCell(t, i, j);
    }
  }

  /** When every split column converts, every row's category cell is a
      string with exactly `w` tokens, each ending in a digit. */
  lemma ConvertedRows(t: Table)
    requires Rectangular(t) && Categories in t.columns
    requires var w := Width(t.rows, CategoriesIndex(t));
      w > 0 && forall j | 0 <= j < w :: ColumnConverts(SplitExpand(t, CategoriesIndex(t)), j)
    ensures var ci, w := CategoriesIndex(t), Width(t.rows, CategoriesIndex(t));
      forall i | 0 <= i < |t.rows| ::
        && t.rows[i][ci].Str?
        && |RowTokens(t, i)| == w
        && forall j | 0 <= j < w :: EndsInDigit(RowTokens(t, i)[j])
  {
    forall i | 0 <= i < |t.rows| {
      ConvertedRow(t, i);
    }
  }

  /** The outcomes of clean_data before line 57: a KeyError without a
      `categories` column, a failure on a repeated `categories` label and on
      a frame without rows; on success, one output row per input row. */
  lemma ExpandOutcomes(t: Table)
    requires Rectangular(t)
    ensures Categories !in t.columns ==> Expand(t) == Failure(MissingColumn(Categories))
    ensures Categories in t.columns && Duplicated(t.columns, CategoriesIndex(t))
      ==> Expand(t) == Failure(AmbiguousColumn(Categories))
    ensures Categories in t.columns && !Duplicated(t.columns, CategoriesIndex(t)) && |t.rows| == 0
      ==> Expand(t) == Failure(EmptyFrame)
    ensures Expand(t).Success? ==> Categories in t.columns && |Expand(t).value.rows| == |t.rows|
  {
    if Categories in t.columns && !Duplicated(t.columns, CategoriesIndex(t)) && |t.rows| > 0 {
      var ci := CategoriesIndex(t);
      var m := SplitExpand(t, ci);
      if |m[0]| > 0 && AllStrings(m[0]) {
        var names := ColumnNames(m[0]);
        if FirstBadColumn(m, names, 0).None? && Related in names {
          var k := IndexOf(names, Related).value;
          assert |CoercedAt(DecodedBelow(m, |names|), k)| == |t.rows|;
        }
      }
    }
  }

  /** What a successful run of lines 20-54 has checked on the split matrix. */
  lemma ExpandSuccessChecks(t: Table)
    requires Rectangular(t) && Expand(t).Success?
    ensures Categories in t.columns && !Duplicated(t.columns, CategoriesIndex(t)) && |t.rows| > 0
    ensures var m := SplitExpand(t, CategoriesIndex(t));
      && |m[0]| > 0 && AllStrings(m[0])
      && forall j | 0 <= j < |m[0]| :: !Duplicated(ColumnNames(m[0]), j) && ColumnConverts(m, j)
    ensures var m := SplitExpand(t, CategoriesIndex(t));
      Related in ColumnNames(m[0])
  {
    var ci := CategoriesIndex(t);
    assert !Duplicated(t.columns, ci);
    var m := SplitExpand(t, ci);
    assert |m| > 0 && |m[0]| > 0 && AllStrings(m[0]);
    var names := ColumnNames(m[0]);
    assert FirstBadColumn(m, names, 0).None?;
    FirstBadColumnNone(m, names, 0);
    assert IndexOf(names, Related).Some?;
  }

  /** When the first split row is all strings and not empty, the first
      category cell is a string whose tokens are exactly that row. */
  lemma FirstRowTokens(t: Table)
    requires Rectangular(t) && Categories in t.columns && |t.rows| > 0
    requires var m := SplitExpand(t, CategoriesIndex(t)); |m[0]| > 0 && AllStrings(m[0])
    ensures t.rows[0][CategoriesIndex(t)].Str?
    ensures var m := SplitExpand(t, CategoriesIndex(t)); ColumnNames(m[0]) == CategoryNames(t)
  {
    var ci := CategoriesIndex(t);
    var m: seq<Row> := SplitExpand(t, ci);
    var w := Width(t.rows, ci);
    var tokens := Tokens(t.rows[0][ci]);
    assert m[0][w - 1] == if w - 1 < |tokens| then Str(tokens[w - 1]) else NaN;
    assert |tokens| == w;
    forall j | 0 <= j < w ensures m[0][j] == Str(tokens[j]) {
      assert m[0][j] == if j < |tokens| then Str(tokens[j]) else NaN;
    }
  }

  /** On a successful run the column names of line 42 are the category names. */
  lemma SuccessNames(t: Table)
    requires Rectangular(t) && Expand(t).Success?
    ensures Categories in t.columns && |t.rows| > 0 && t.rows[0][CategoriesIndex(t)].Str?
    ensures var m := SplitExpand(t, CategoriesIndex(t));
      |m[0]| > 0 && AllStrings(m[0]) && ColumnNames(m[0]) == CategoryNames(t)
  {
    ExpandSuccessChecks(t);
    FirstRowTokens(t);
  }

  /** An input clean_data does not fail on is one it accepts. */
  lemma ExpandSuccessIsCleanable(t: Table)
    requires Rectangular(t) && Expand(t).Success?
    ensures Cleanable(t)
  {
    ExpandSuccessChecks(t);
    SuccessNames(t);
    ConvertedRows(t);
    var ci := CategoriesIndex(t);
    var m := SplitExpand(t, ci);
    var names := ColumnNames(m[0]);
    var first := RowTokens(t, 0);
    forall j, k | 0 <= j < k < |first| ensures TrimSuffix(first[j]) != TrimSuffix(first[k]) {
      assert !Duplicated(names, j);
      assert names[j] == TrimSuffix(first[j]) && names[k] == TrimSuffix(first[k]);
    }
    assert Decodable(t);
  }

  /** clean_data succeeds exactly on the inputs it accepts. */
  lemma CleanSucceedsIff(t: Table)
    requires Rectangular(t)
    ensures Clean(t).Success? <==> Cleanable(t)
  {
    if Clean(t).Success? {
      ExpandSuccessIsCleanable(t);
    }
    if Cleanable(t) {
      ExpandMeaning(t);
    }
  }

  /** When no category column is named `related`, clean_data stops with a
      KeyError for `related` even though every category decoded. */
  lemma CleanWithoutRelatedFails(t: Table)
    requires Rectangular(t) && Decodable(t) && Related !in CategoryNames(t)
    ensures Clean(t) == Failure(MissingColumn(Related))
  {
    DecodableScan(t);
  }

  // ---------------------------------------------------------------------
  // The output of clean_data

  /** Every cell of an expected row: the input row without its category
      string, then per category column the token's digit, where `related`
      holds only 0 or 1 and every other category keeps its digit. */
  lemma ExpectedRowCells(t: Table, i: nat)
    requires Rectangular(t) && Decodable(t) && i < |t.rows|
    ensures var row, names, n := ExpectedRow(t, i), CategoryNames(t), |t.columns| - 1;
      && |row| == |ExpectedColumns(t)| == n + |names|
      && row[..n] == RemoveAt(t.rows[i], CategoriesIndex(t))
      && forall j | 0 <= j < |names| ::
           && (names[j] == Related ==> row[n + j] == Int(0) || row[n + j] == Int(1))
           && (names[j] == Related && TokenValue(RowTokens(t, i)[j]) <= 1 ==> row[n + j] == Int(TokenValue(RowTokens(t, i)[j])))
           && (names[j] == Related && TokenValue(RowTokens(t, i)[j]) > 1 ==> row[n + j] == Int(1))
           && (names[j] != Related ==> row[n + j] == Int(TokenValue(RowTokens(t, i)[j])))
  {
    var row, n := ExpectedRow(t, i), |t.columns| - 1;
    assert row[..n] == RemoveAt(t.rows[i], CategoriesIndex(t));
  }

  /** The rows clean_data returns on an input it accepts: no two equal, one
      for every expanded input row, each an expanded input row, in the order
      of first occurrence, and no more of them than input rows. */
  lemma CleanRows(t: Table)
    requires Rectangular(t) && Cleanable(t)
    ensures Clean(t).Success?
    ensures var out := Clean(t).value;
      && out.columns == ExpectedColumns(t)
      && Distinct(out.rows)
      && |out.rows| <= |t.rows|
      && (forall i | 0 <= i < |t.rows| :: ExpectedRow(t, i) in out.rows)
      && (forall k | 0 <= k < |out.rows| :: out.rows[k] in ExpectedRows(t))
      && InFirstOccurrenceOrder(ExpectedRows(t), out.rows)
  {
    CleanMeaning(t);
    var e := ExpectedRows(t);
    forall i | 0 <= i < |t.rows| ensures ExpectedRow(t, i) in DropDuplicates(e) {
      assert e[i] == ExpectedRow(t, i);
    }
    DropDuplicatesKeepsFirstOccurrenceOrder(e);
  }

  /** Every row clean_data returns is the expected row of some input row. */
  lemma CleanRowOrigin(t: Table, k: nat)
    requires Rectangular(t) && Cleanable(t)
    requires k < |DropDuplicates(ExpectedRows(t))|
    ensures exists i | 0 <= i < |t.rows| :: DropDuplicates(ExpectedRows(t))[k] == ExpectedRow(t, i)
  {
    var e := ExpectedRows(t);
    assert DropDuplicates(e)[k] in e;
    var i :| 0 <= i < |e| && e[i] == DropDuplicates(e)[k];
    assert e[i] == ExpectedRow(t, i);
  }

  /** Every kept row has one cell per expected column and holds 0 or 1 in
      the `related` column. */
  lemma KeptRowShape(t: Table, k: nat)
    requires Rectangular(t) && Cleanable(t)
    requires k < |DropDuplicates(ExpectedRows(t))|
    ensures var x, c := DropDuplicates(ExpectedRows(t))[k], |t.columns| - 1 + IndexOf(CategoryNames(t), Related).value;
      |x| == |ExpectedColumns(t)| && c < |x| && (x[c] == Int(0) || x[c] == Int(1))
  {
    CleanRowOrigin(t, k);
    var i :| 0 <= i < |t.rows| && DropDuplicates(ExpectedRows(t))[k] == ExpectedRow(t, i);
    ExpectedRowCells(t, i);
    ExpectedRelatedCell(t, i);
  }

  /** The table clean_data returns has one cell per column in every row. */
  lemma CleanRectangular(t: Table)
    requires Rectangular(t) && Clean(t).Success?
    ensures Rectangular(Clean(t).value)
  {
    CleanSucceedsIff(t);
    CleanMeaning(t);
    forall k | 0 <= k < |DropDuplicates(ExpectedRows(t))| ensures |DropDuplicates(ExpectedRows(t))[k]| == |ExpectedColumns(t)| {
      KeptRowShape(t, k);
    }
  }

  /** Position `c` of an expected row holds 0 or 1 when `c` is the `related` column. */
  lemma ExpectedRelatedCell(t: Table, i: nat)
    requires Rectangular(t) && Cleanable(t) && i < |t.rows|
    ensures var c := |t.columns| - 1 + IndexOf(CategoryNames(t), Related).value;
      c < |ExpectedRow(t, i)| && (ExpectedRow(t, i)[c] == Int(0) || ExpectedRow(t, i)[c] == Int(1))
  {
    ExpectedRowCells(t, i);
  }

  /** Where `related` sits among the expected columns. */
  lemma RelatedColumnPosition(t: Table)
    requires Rectangular(t) && Cleanable(t)
    ensures var c := |t.columns| - 1 + IndexOf(CategoryNames(t), Related).value;
      c < |ExpectedColumns(t)| && ExpectedColumns(t)[c] == Related
  {
  }

  /** Every kept row holds 0 or 1 in the `related` column. */
  lemma ExpectedRelatedBinary(t: Table)
    requires Rectangular(t) && Cleanable(t)
    ensures var kept := DropDuplicates(ExpectedRows(t));
      var c := |t.columns| - 1 + IndexOf(CategoryNames(t), Related).value;
      forall k | 0 <= k < |kept| :: c < |kept[k]| && (kept[k][c] == Int(0) || kept[k][c] == Int(1))
  {
    var kept := DropDuplicates(ExpectedRows(t));
    forall k | 0 <= k < |kept| {
      KeptRowShape(t, k);
    }
  }

  /** After line 50 the `related` column holds only 0 and 1, in every row
      clean_data returns. */
  lemma CleanRelatedBinary(t: Table)
    requires Rectangular(t) && Clean(t).Success?
    ensures var out := Clean(t).value;
      exists c | 0 <= c < |out.columns| :: out.columns[c] == Related
        && forall k | 0 <= k < |out.rows| :: c < |out.rows[k]| && (out.rows[k][c] == Int(0) || out.rows[k][c] == Int(1))
  {
    CleanSucceedsIff(t);
    CleanMeaning(t);
    ExpectedRelatedBinary(t);
    RelatedColumnPosition(t);
    var c := |t.columns| - 1 + IndexOf(CategoryNames(t), Related).value;
    assert Clean(t).value.columns[c] == Related;
  }

  /** The input labels other than `categories`, in order: all of them, and
      no `categories` among them. */
  lemma OtherColumns(t: Table)
    requires Categories in t.columns && !Duplicated(t.columns, CategoriesIndex(t))
    ensures var rest := RemoveAt(t.columns, CategoriesIndex(t));
      && Categories !in rest
      && forall c | c in t.columns && c != Categories :: c in rest
  {
    var ci := CategoriesIndex(t);
    var rest := RemoveAt(t.columns, ci);
    forall p | 0 <= p < |rest| ensures rest[p] != Categories {
      var q := if p < ci then p else p + 1;
      assert rest[p] == t.columns[q] && q != ci;
    }
    forall c | c in t.columns && c != Categories ensures c in rest {
      var q :| 0 <= q < |t.columns| && t.columns[q] == c;
      assert q != ci;
      assert rest[if q < ci then q else q - 1] == c;
    }
  }

  /** Lines 53-54: the output starts with the input columns other than
      `categories`, in their order; every input column except `categories`
      is among them. */
  lemma CleanKeepsOtherColumns(t: Table)
    requires Rectangular(t) && Clean(t).Success?
    ensures var out, n := Clean(t).value, |t.columns| - 1;
      && Categories in t.columns
      && n <= |out.columns|
      && out.columns[..n] == RemoveAt(t.columns, CategoriesIndex(t))
      && Categories !in out.columns[..n]
      && forall c | c in t.columns && c != Categories :: c in out.columns[..n]
  {
    CleanSucceedsIff(t);
    CleanMeaning(t);
    OtherColumns(t);
    var rest := RemoveAt(t.columns, CategoriesIndex(t));
    assert ExpectedColumns(t)[..|rest|] == rest;
  }

  /** Cleaning does not apply to its own output: the `categories` column is
      gone, so a second run stops at line 33 unless one of the category
      columns is itself called `categories`. */
  lemma CleanNotReapplicable(t: Table)
    requires Rectangular(t) && Cleanable(t) && Categories !in CategoryNames(t)
    ensures Clean(t).Success? && Rectangular(Clean(t).value)
    ensures Clean(Clean(t).value) == Failure(MissingColumn(Categories))
  {
    CleanMeaning(t);
    CleanRectangular(t);
    OtherColumns(t);
    assert Categories !in ExpectedColumns(t);
  }
}
