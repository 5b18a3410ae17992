/** clean_data (data/process_data.py, lines 23-59): expand the semicolon-joined category string into one integer
    column per category, force `related` into {0,1}, replace the `categories`
    column with the expanded columns, and drop duplicate rows. */
module Cleaning {
  import opened Wrappers
  import opened Frames
  import opened CategoryString
  import opened Dedup

  const Categories := "categories"
  const Related := "related"

  /** Where pandas would raise instead of returning a frame. */
  datatype CleanError =
    | MissingColumn(name: string)    // KeyError on `df['categories']` or `categories['related']`
    | AmbiguousColumn(name: string)  // the label names several columns, so `.str` meets a DataFrame
    | EmptyFrame                     // `iloc[0]` on a frame without rows
    | UnusableFirstRow               // `x[:-2]` on a missing value in the first row
    | NotAnInteger(column: string)   // `astype(int)` on a cell that is not one decimal digit

  /** The tokens of one category cell; a cell that is not a string has none. */
  function Tokens(c: Cell): seq<string> {
    if c.Str? then Split(c.s) else []
  }

  /** How many columns `.str.split(";", expand=True)` produces: the most tokens in any row. */
  function Width(rows: seq<Row>, ci: nat): (w: nat)
    requires forall i | 0 <= i < |rows| :: ci < |rows[i]|
    ensures forall i | 0 <= i < |rows| :: |Tokens(rows[i][ci])| <= w
    ensures |rows| > 0 ==> exists i | 0 <= i < |rows| :: w == |Tokens(rows[i][ci])|
  {
    if |rows| == 0 then 0
    else
      var rest := Width(rows[1..], ci);
      assert forall i | 0 <= i < |rows| - 1 :: rows[1..][i] == rows[i + 1];
      var n := |Tokens(rows[0][ci])|;
      if n >= rest then n else rest
  }

  /** `df['categories'].str.split(";", expand=True)`: row `i` holds the tokens
      of its category cell, padded with missing values to the common width. */
  function SplitExpand(t: Table, ci: nat): (m: seq<Row>)
    requires Rectangular(t) && ci < |t.columns|
    ensures |m| == |t.rows|
    ensures forall i | 0 <= i < |m| :: |m[i]| == Width(t.rows, ci)
  {
    var w := Width(t.rows, ci);
    seq(|t.rows|, i requires 0 <= i < |t.rows| =>
      var tokens := Tokens(t.rows[i][ci]);
      seq(w, j requires 0 <= j < w => if j < |tokens| then Str(tokens[j]) else NaN))
  }

  predicate AllStrings(r: Row) {
    forall j | 0 <= j < |r| :: r[j].Str?
  }

  /** `row.apply(lambda x: x[:-2])` on the first split row: the column names. */
  function ColumnNames(first: Row): (names: seq<string>)
    requires AllStrings(first)
    ensures |names| == |first|
  {
    seq(|first|, j requires 0 <= j < |first| => TrimSuffix(first[j].s))
  }

  /** `.str[-1:]`: a string keeps its last character; anything else becomes missing. */
  function LastChar(c: Cell): (r: Cell)
    ensures r.Str? ==> |r.s| <= 1
  {
    if c.Str? then Str(LastChars(c.s)) else NaN
  }

  /** `.astype(int)` on a cell that `.str[-1:]` produced: a decimal digit
      gives its value; an empty string or a missing value cannot be converted. */
  function AsInt(c: Cell): (r: Option<int>)
    requires c.Str? ==> |c.s| <= 1
    ensures c.Str? && r.Some? ==> 0 <= r.value < 10 && c.s == [DigitChar(r.value)]
    ensures c.NaN? ==> r.None?
  {
    match c
    case Int(n) => Some(n)
    case Str(s) => if |s| == 1 && IsDigit(s[0]) then Some(DigitValue(s[0]).value) else None
    case NaN => None
  }

  /** A split cell after lines 47-48 (left as it is when it cannot be converted). */
  function Decoded(c: Cell): Cell {
    match AsInt(LastChar(c))
    case Some(v) => Int(v)
    case None => c
  }

  /** The split matrix with the columns before `j` converted by lines 47-48. */
  function DecodedBelow(m: seq<Row>, j: nat): (d: seq<Row>)
    ensures |d| == |m| && forall i | 0 <= i < |m| :: |d[i]| == |m[i]|
  {
    seq(|m|, i requires 0 <= i < |m| =>
      seq(|m[i]|, k requires 0 <= k < |m[i]| => if k < j then Decoded(m[i][k]) else m[i][k]))
  }

  /** Converting column `j` of the partly converted matrix gives the matrix
      converted up to `j + 1`. */
  lemma DecodedBelowStep(m: seq<Row>, j: nat, i: nat)
    requires i < |m| && j < |m[i]|
    ensures DecodedBelow(m, j + 1)[i] == DecodedBelow(m, j)[i][j := Decoded(m[i][j])]
  {
  }

  /** Every cell of split column `j` survives `.str[-1:]` and `.astype(int)`. */
  predicate ColumnConverts(m: seq<Row>, j: nat)
    requires forall i | 0 <= i < |m| :: j < |m[i]|
  {
    forall i | 0 <= i < |m| :: AsInt(LastChar(m[i][j])).Some?
  }

  /** The error the loop over the category columns stops at, scanning from column `j`. */
  function FirstBadColumn(m: seq<Row>, names: seq<string>, j: nat): (r: Option<CleanError>)
    requires forall i | 0 <= i < |m| :: |m[i]| == |names|
    ensures r.Some? ==> r.value.AmbiguousColumn? || r.value.NotAnInteger?
    decreases |names| - j
  {
    if j >= |names| then None
    else if Duplicated(names, j) then Some(AmbiguousColumn(names[j]))
    else if !ColumnConverts(m, j) then Some(NotAnInteger(names[j]))
    else FirstBadColumn(m, names, j + 1)
  }

  /** `lambda x: x if x in [0,1] else 1`. */
  function ZeroOrOne(c: Cell): (r: Cell)
    ensures r == Int(0) || r == Int(1)
    ensures c == Int(0) || c == Int(1) ==> r == c
    ensures c != Int(0) && c != Int(1) ==> r == Int(1)
  {
    if c == Int(0) || c == Int(1) then c else Int(1)
  }

  /** Column `k` of `rows` passed through ZeroOrOne. */
  function CoercedAt(rows: seq<Row>, k: nat): (r: seq<Row>)
    requires forall i | 0 <= i < |rows| :: k < |rows[i]|
    ensures |r| == |rows|
    ensures forall i | 0 <= i < |rows| :: |r[i]| == |rows[i]| && r[i][k] == ZeroOrOne(rows[i][k])
    ensures forall i, j | 0 <= i < |rows| && 0 <= j < |rows[i]| && j != k :: r[i][j] == rows[i][j]
  {
    seq(|rows|, i requires 0 <= i < |rows| => rows[i][k := ZeroOrOne(rows[i][k])])
  }

  /** clean_data up to line 54: the input columns without `categories`,
      followed by the category columns. */
  function Expand(t: Table): (r: Result<Table, CleanError>)
    requires Rectangular(t)
  {
    match IndexOf(t.columns, Categories)
    case None => Failure(MissingColumn(Categories))
    case Some(ci) =>
      if Duplicated(t.columns, ci) then Failure(AmbiguousColumn(Categories))
      else
        var m := SplitExpand(t, ci);
        if |m| == 0 then Failure(EmptyFrame)
        else if |m[0]| == 0 || !AllStrings(m[0]) then Failure(UnusableFirstRow)
        else
          var names := ColumnNames(m[0]);
          match FirstBadColumn(m, names, 0)
          case Some(e) => Failure(e)
          case None =>
            match IndexOf(names, Related)
            case None => Failure(MissingColumn(Related))
            case Some(k) =>
              Success(Concat(DropColumnAt(t, ci), Table(names, CoercedAt(DecodedBelow(m, |names|), k))))
  }

  /** clean_data: Expand, then `drop_duplicates()` (line 57). */
  function Clean(t: Table): (r: Result<Table, CleanError>)
    requires Rectangular(t)
    ensures r.Success? <==> Expand(t).Success?
    ensures r.Failure? ==> r.error == Expand(t).error
    ensures r.Success? ==> var x := Expand(t).value;
      && r.value.columns == x.columns
      && Distinct(r.value.rows) && |r.value.rows| <= |x.rows|
      && (forall i | 0 <= i < |x.rows| :: x.rows[i] in r.value.rows)
      && (forall k | 0 <= k < |r.value.rows| :: r.value.rows[k] in x.rows)
  {
    match Expand(t)
    case Failure(e) => Failure(e)
    case Success(x) => Success(Table(x.columns, DropDuplicates(x.rows)))
  }

  /** A DataFrame that clean_data updates in place. */
  class Frame {
    var columns: seq<string>
    var rows: seq<Row>

    ghost predicate Valid()
      reads this
    {
      Rectangular(Table(columns, rows))
    }

    function Value(): Table
      reads this
    {
      Table(columns, rows)
    }

    constructor (t: Table)
      requires Rectangular(t)
      ensures Valid() && Value() == t
    {
      columns := t.columns;
      rows := t.rows;
    }

    /** `categories[column] = categories[column].str[-1:]`. */
    method KeepLastChar(j: nat)
      requires Valid() && j < |columns|
      modifies this
      ensures Valid() && columns == old(columns) && |rows| == |old(rows)|
      ensures forall i | 0 <= i < |rows| :: rows[i] == old(rows)[i][j := LastChar(old(rows)[i][j])]
    {
      var before := rows;
      rows := seq(|before|, i requires 0 <= i < |before| => before[i][j := LastChar(before[i][j])]);
    }

    /** `categories[column] = categories[column].astype(int)`: either every
        cell of column `j` is converted, or the conversion fails and nothing changes. */
    method ColumnAsInt(j: nat) returns (ok: bool)
      requires Valid() && j < |columns|
      requires forall i | 0 <= i < |rows| :: rows[i][j].Str? ==> |rows[i][j].s| <= 1
      modifies this
      ensures Valid() && columns == old(columns) && |rows| == |old(rows)|
      ensures ok <==> forall i | 0 <= i < |rows| :: AsInt(old(rows)[i][j]).Some?
      ensures ok ==> forall i | 0 <= i < |rows| :: rows[i] == old(rows)[i][j := Int(AsInt(old(rows)[i][j]).value)]
      ensures !ok ==> rows == old(rows)
    {
      var before := rows;
      ok := forall i | 0 <= i < |before| :: AsInt(before[i][j]).Some?;
      if ok {
        rows := seq(|before|, i requires 0 <= i < |before| => before[i][j := Int(AsInt(before[i][j]).value)]);
      }
    }

    /** `categories['related'] = categories['related'].apply(lambda x: x if x in [0,1] else 1)`. */
    method CoerceColumn(k: nat)
      requires Valid() && k < |columns|
      modifies this
      ensures Valid() && columns == old(columns) && rows == CoercedAt(old(rows), k)
    {
      rows := CoercedAt(rows, k);
    }

    /** `df.drop(label, axis=1, inplace=True)` for the column at position `k`. */
    method DropColumn(k: nat)
      requires Valid() && k < |columns|
      modifies this
      ensures Valid() && Value() == DropColumnAt(old(Value()), k)
    {
      var after := DropColumnAt(Value(), k);
      columns, rows := after.columns, after.rows;
    }
  }

  /** One iteration of the loop (lines 47-48): column `j` keeps its last
      characters and is converted to integers, which succeeds exactly when
      every cell of it converts. */
  method ConvertColumn(categories: Frame, m: seq<Row>, names: seq<string>, j: nat) returns (ok: bool)
    requires j < |names| && forall i | 0 <= i < |m| :: |m[i]| == |names|
    requires categories.Valid() && categories.columns == names && categories.rows == DecodedBelow(m, j)
    modifies categories
    ensures categories.Valid() && categories.columns == names
    ensures ok <==> ColumnConverts(m, j)
    ensures ok ==> categories.rows == DecodedBelow(m, j + 1)
  {
    ghost var before := categories.rows;
    categories.KeepLastChar(j);
    ghost var mid := categories.rows;
    assert forall i | 0 <= i < |m| :: mid[i][j] == LastChar(m[i][j]) by {
      forall i | 0 <= i < |m| ensures mid[i][j] == LastChar(m[i][j]) {
        assert before[i][j] == m[i][j];
      }
    }
    ok := categories.ColumnAsInt(j);
    if ok {
      forall i | 0 <= i < |m| ensures categories.rows[i] == DecodedBelow(m, j + 1)[i] {
        DecodedBelowStep(m, j, i);
        assert categories.rows[i] == mid[i][j := Decoded(m[i][j])];
        assert mid[i][j := Decoded(m[i][j])] == before[i][j := Decoded(m[i][j])];
      }
    }
  }

  /** The loop over the category columns (lines 46-48): each column in turn
      loses all but its last character and is converted to integers. It
      stops at the first column that is ambiguous or cannot be converted. */
  method ConvertColumns(categories: Frame, m: seq<Row>, names: seq<string>) returns (err: Option<CleanError>)
    requires categories.Valid() && categories.Value() == Table(names, m)
    modifies categories
    ensures categories.Valid() && categories.columns == names
    ensures err == FirstBadColumn(m, names, 0)
    ensures err.None? ==> categories.rows == DecodedBelow(m, |names|)
  {
    var j := 0;
    forall i | 0 <= i < |m| ensures DecodedBelow(m, 0)[i] == m[i] {
      assert forall k | 0 <= k < |m[i]| :: DecodedBelow(m, 0)[i][k] == m[i][k];
    }
    while j < |names|
      invariant 0 <= j <= |names|
      invariant categories.Valid()
      invariant categories.columns == names && categories.rows == DecodedBelow(m, j)
      invariant FirstBadColumn(m, names, 0) == FirstBadColumn(m, names, j)
    {
      if Duplicated(names, j) {
        return Some(AmbiguousColumn(names[j]));
      }
      var ok := ConvertColumn(categories, m, names, j);
      if !ok {
        return Some(NotAnInteger(names[j]));
      }
      j := j + 1;
    }
    err := None;
  }

  /** clean_data itself. The result is the specification Clean of the frame
      it was given; on success the caller's frame has lost its `categories`
      column (the in-place drop of line 53), on failure it is untouched. */
  method CleanData(df: Frame) returns (r: Result<Table, CleanError>)
    requires df.Valid()
    modifies df
    ensures r == Clean(old(df.Value()))
    ensures r.Success? ==> (Categories in old(df.columns)
      && df.Value() == DropColumnAt(old(df.Value()), IndexOf(old(df.columns), Categories).value))
    ensures r.Failure? ==> df.Value() == old(df.Value())
  {
    var t := df.Value();
    var found := IndexOf(df.columns, Categories);
    if found.None? {
      return Failure(MissingColumn(Categories));
    }
    var ci := found.value;
    if Duplicated(df.columns, ci) {
      return Failure(AmbiguousColumn(Categories));
    }
    var m := SplitExpand(t, ci);
    if |m| == 0 {
      return Failure(EmptyFrame);
    }
    var first := m[0];
    if |first| == 0 || !AllStrings(first) {
      return Failure(UnusableFirstRow);
    }
    var names := ColumnNames(first);
    var categories := new Frame(Table(names, m));
    var err := ConvertColumns(categories, m, names);
    if err.Some? {
      return Failure(err.value);
    }
    var related := IndexOf(names, Related);
    if related.None? {
      return Failure(MissingColumn(Related));
    }
    categories.CoerceColumn(related.value);
    df.DropColumn(ci);
    var joined := Concat(df.Value(), categories.Value());
    r := Success(Table(joined.columns, DropDuplicates(joined.rows)));
  }
}
