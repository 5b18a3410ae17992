/** The semicolon-joined category string ("related-1;request-0;...") and the
    string operations clean_data applies to it. */
module CategoryString {
  import opened Wrappers

  const Separator: char := ';'

  /** Python's `s.split(";")`: the pieces between separators, in order, empty
      pieces included, so an empty string gives one empty piece. */
  function Split(s: string): (r: seq<string>)
    ensures |r| >= 1
    ensures forall k | 0 <= k < |r| :: Separator !in r[k]
  {
    if |s| == 0 then [""]
    else
      var rest := Split(s[1..]);
      if s[0] == Separator then [""] + rest
      else [[s[0]] + rest[0]] + rest[1..]
  }

  /** `";".join(ts)`, the inverse of Split. */
  function Join(ts: seq<string>): string
    requires |ts| >= 1
  {
    if |ts| == 1 then ts[0] else ts[0] + [Separator] + Join(ts[1..])
  }

  /** Joining the pieces gives back the string that was split. */
  lemma {:induction false} JoinSplit(s: string)
    ensures Join(Split(s)) == s
  {
    if |s| > 0 {
      var rest := Split(s[1..]);
      JoinSplit(s[1..]);
      if s[0] != Separator && |rest| > 1 {
        assert rest == [rest[0]] + rest[1..];
      }
    }
  }

  /** Splitting a string that starts with a separator-free piece `a`. */
  lemma {:induction false} SplitAfterPiece(a: string, b: string)
    requires Separator !in a
    ensures Split(a + b) == [a + Split(b)[0]] + Split(b)[1..]
  {
    if |a| == 0 {
      assert a + b == b && a + Split(b)[0] == Split(b)[0];
      assert Split(b) == [Split(b)[0]] + Split(b)[1..];
    } else {
      SplitAfterPiece(a[1..], b);
      assert a[0] != Separator && (a + b)[0] == a[0];
      assert (a + b)[1..] == a[1..] + b;
      var rest := Split(a[1..] + b);
      assert rest[0] == a[1..] + Split(b)[0] && rest[1..] == Split(b)[1..];
      assert [a[0]] + (a[1..] + Split(b)[0]) == a + Split(b)[0];
    }
  }

  /** Splitting the join of separator-free pieces gives back the pieces. */
  lemma {:induction false} SplitJoin(ts: seq<string>)
    requires |ts| >= 1
    requires forall k | 0 <= k < |ts| :: Separator !in ts[k]
    ensures Split(Join(ts)) == ts
  {
    if |ts| == 1 {
      SplitAfterPiece(ts[0], "");
      assert ts[0] + "" == ts[0];
    } else {
      SplitJoin(ts[1..]);
      var b := [Separator] + Join(ts[1..]);
      assert ts[0] + [Separator] + Join(ts[1..]) == ts[0] + b;
      SplitAfterPiece(ts[0], b);
      assert b[0] == Separator && b[1..] == Join(ts[1..]);
      assert Split(b) == [""] + ts[1..];
      assert ts[0] + "" == ts[0];
      assert ts == [ts[0]] + ts[1..];
    }
  }

  /** Python's `x[:-2]`: the token without its last two characters (empty
      when the token is shorter than two). */
  function TrimSuffix(t: string): (r: string)
    ensures |r| == if |t| >= 2 then |t| - 2 else 0
    ensures r <= t
  {
    if |t| >= 2 then t[..|t| - 2] else ""
  }

  /** Python's `x[-1:]`: the last character as a string (empty for an empty token). */
  function LastChars(t: string): (r: string)
    ensures |r| <= 1
    ensures |t| > 0 ==> r == [t[|t| - 1]]
    ensures |t| == 0 ==> r == ""
  {
    if |t| == 0 then "" else t[|t| - 1..]
  }

  predicate IsDigit(c: char) {
    '0' <= c <= '9'
  }

  /** The value of a one-character string under Python's `int()`, for the ASCII digits. */
  function DigitValue(c: char): (r: Option<nat>)
    ensures r.Some? <==> IsDigit(c)
    ensures r.Some? ==> r.value < 10 && c == ('0' as int + r.value) as char
  {
    if IsDigit(c) then Some(c as int - '0' as int) else None
  }

  /** The digit character for a value below ten. */
  function DigitChar(v: nat): (c: char)
    requires v < 10
    ensures DigitValue(c) == Some(v)
  {
    ('0' as int + v) as char
  }

  /** One `name-value` token of the category string. */
  function EncodeToken(name: string, v: nat): string
    requires v < 10
  {
    name + ['-', DigitChar(v)]
  }

  /** The category string for a list of (name, value) pairs, as the source data writes it. */
  function EncodeCategories(names: seq<string>, values: seq<nat>): string
    requires |names| == |values| >= 1
    requires forall k | 0 <= k < |values| :: values[k] < 10
  {
    Join(seq(|names|, k requires 0 <= k < |names| => EncodeToken(names[k], values[k])))
  }

  /** Reading an encoded category string back the way clean_data does (split,
      drop the last two characters for the name, keep the last character for
      the value) recovers every name and value, in order. */
  lemma CategoriesRoundTrip(names: seq<string>, values: seq<nat>)
    requires |names| == |values| >= 1
    requires forall k | 0 <= k < |values| :: values[k] < 10
    requires forall k | 0 <= k < |names| :: Separator !in names[k]
    ensures var tokens := Split(EncodeCategories(names, values));
      && |tokens| == |names|
      && forall k | 0 <= k < |tokens| ::
           && TrimSuffix(tokens[k]) == names[k]
           && |LastChars(tokens[k])| == 1
           && DigitValue(LastChars(tokens[k])[0]) == Some(values[k])
  {
    var ts := seq(|names|, k requires 0 <= k < |names| => EncodeToken(names[k], values[k]));
    forall k | 0 <= k < |ts| ensures Separator !in ts[k] {
      assert ts[k] == names[k] + ['-', DigitChar(values[k])];
    }
    SplitJoin(ts);
    forall k | 0 <= k < |ts|
      ensures TrimSuffix(ts[k]) == names[k]
      ensures LastChars(ts[k]) == [DigitChar(values[k])]
    {
      assert ts[k] == names[k] + ['-', DigitChar(values[k])];
      assert ts[k][..|ts[k]| - 2] == names[k];
    }
  }
}
