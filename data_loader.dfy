/** The cleaning step applied to a freshly read ratings table: the three source column labels are
    renamed, the rating column is coerced to numbers (unparsable text becomes a missing value),
    rows whose rating is missing are dropped, and only strictly positive ratings are kept. */
module DataLoader {
  import opened Wrappers

  /** One cell of the table as read from the file: a number, a piece of text, or a missing value. */
  datatype Cell = Num(x: real) | Text(s: string) | Null

  /** A table: its column labels and its rows, one cell per column. */
  datatype Table = Table(columns: seq<string>, rows: seq<seq<Cell>>)

  /** What makes the cleaning step fail before any row is looked at. */
  datatype CleanError =
    | MissingColumn(name: string)    // no column is called `rating` after renaming
    | DuplicateColumn(name: string)  // several are, so `df['rating']` is a table, not a column

  /** Every row has exactly one cell per column, as in any data frame. */
  predicate Rectangular(t: Table)
  {
    forall i :: 0 <= i < |t.rows| ==> |t.rows[i]| == |t.columns|
  }

  // ---------------------------------------------------------------------------------------------
  // Column renaming

  /** The label a column gets after `rename`: three source labels change, every other stays. */
  function RenameLabel(c: string): string
  {
    if c == "User-ID" then "user_id"
    else if c == "ISBN" then "book_id"
    else if c == "Rating" then "rating"
    else c
  }

  /** `df.rename(columns=...)` on the list of labels, position by position. */
  function Rename(columns: seq<string>): (r: seq<string>)
    ensures |r| == |columns|
  {
    seq(|columns|, i requires 0 <= i < |columns| => RenameLabel(columns[i]))
  }

  /** Exactly the three source labels are renamed, to `user_id`, `book_id` and `rating`; every
      other label is kept as it is, and renaming twice is the same as renaming once. */
  lemma RenameSpec(columns: seq<string>)
    ensures forall i :: 0 <= i < |columns| ==>
      && (columns[i] == "User-ID" ==> Rename(columns)[i] == "user_id")
      && (columns[i] == "ISBN" ==> Rename(columns)[i] == "book_id")
      && (columns[i] == "Rating" ==> Rename(columns)[i] == "rating")
      && (columns[i] != "User-ID" && columns[i] != "ISBN" && columns[i] != "Rating" ==>
            Rename(columns)[i] == columns[i])
    ensures Rename(Rename(columns)) == Rename(columns)
  {
    var r := Rename(columns);
    forall i | 0 <= i < |columns|
      ensures Rename(r)[i] == r[i]
    {
      assert r[i] == RenameLabel(columns[i]);
    }
  }

  /** The first position of `x` in `s`. */
  function IndexOf<T(==)>(s: seq<T>, x: T): (i: nat)
    requires x in s
    ensures i < |s| && s[i] == x && x !in s[..i]
  {
    if s[0] == x then 0
    else
      var j := IndexOf(s[1..], x);
      assert s[..j + 1] == [s[0]] + s[1..][..j];
      j + 1
  }

  /** The position of the single column called `rating` after renaming, or why there is none. */
  function RatingColumn(columns: seq<string>): (r: Result<nat, CleanError>)
    ensures r.Ok? ==> r.value < |columns| && Rename(columns)[r.value] == "rating"
    ensures r.Ok? ==> forall i :: 0 <= i < |columns| && Rename(columns)[i] == "rating" ==> i == r.value
    ensures r == Err(MissingColumn("rating")) <==>
      forall i :: 0 <= i < |columns| ==> Rename(columns)[i] != "rating"
    ensures r == Err(DuplicateColumn("rating")) <==>
      exists i, j :: 0 <= i < j < |columns| && Rename(columns)[i] == "rating" && Rename(columns)[j] == "rating"
    ensures r.Ok? || r == Err(MissingColumn("rating")) || r == Err(DuplicateColumn("rating"))
  {
    var cols := Rename(columns);
    if "rating" !in cols then Err(MissingColumn("rating"))
    else
      var p := IndexOf(cols, "rating");
      if "rating" in cols[p + 1..] then
        assert exists i, j :: 0 <= i < j < |columns| && cols[i] == "rating" && cols[j] == "rating" by {
          var q :| 0 <= q < |cols[p + 1..]| && cols[p + 1..][q] == "rating";
          assert cols[p + 1 + q] == "rating";
        }
        Err(DuplicateColumn("rating"))
      else
        assert forall i :: 0 <= i < |columns| && i != p ==> cols[i] != "rating" by {
          forall i | 0 <= i < |columns| && i != p
            ensures cols[i] != "rating"
          {
            if i < p {
              assert cols[i] == cols[..p][i];
            } else {
              assert cols[i] == cols[p + 1..][i - p - 1];
            }
          }
        }
        Ok(p)
  }

  // ---------------------------------------------------------------------------------------------
  // Numeric coercion of text

  predicate IsDigit(ch: char)
  {
    '0' <= ch <= '9'
  }

  predicate AllDigits(s: string)
  {
    forall i :: 0 <= i < |s| ==> IsDigit(s[i])
  }

  /** The number a string of decimal digits spells; the empty string spells 0. */
  function DigitsValue(s: string): nat
    requires AllDigits(s)
  {
    if s == [] then 0 else DigitsValue(s[..|s| - 1]) * 10 + (s[|s| - 1] as int - '0' as int)
  }

  function Pow10(n: nat): (r: nat)
    ensures r >= 1
  {
    if n == 0 then 1 else 10 * Pow10(n - 1)
  }

  /** An unsigned decimal: digits, optionally one point and more digits, at least one digit. */
  function ParseUnsigned(s: string): Option<real>
  {
    if '.' in s then
      var p := IndexOf(s, '.');
      var whole := s[..p];
      var frac := s[p + 1..];
      if AllDigits(whole) && AllDigits(frac) && |whole| + |frac| > 0 then
        Some(DigitsValue(whole) as real + DigitsValue(frac) as real / Pow10(|frac|) as real)
      else None
    else if s != [] && AllDigits(s) then Some(DigitsValue(s) as real)
    else None
  }

  /** What `pd.to_numeric` makes of a text cell, for plain decimal text: an optional sign before an
      unsigned decimal; anything else is not a number. */
  function ParseDecimal(s: string): Option<real>
  {
    if |s| > 0 && s[0] == '-' then
      match ParseUnsigned(s[1..])
      case Some(v) => Some(-v)
      case None => None
    else if |s| > 0 && s[0] == '+' then ParseUnsigned(s[1..])
    else ParseUnsigned(s)
  }

  /** `pd.to_numeric(..., errors='coerce')` on one cell: numbers stay, text is parsed, and what
      does not parse becomes missing. */
  function Coerce(c: Cell): Option<real>
  {
    match c
    case Num(x) => Some(x)
    case Text(s) => ParseDecimal(s)
    case Null => None
  }

  /** The decimal digits of `n`, most significant first, as `str(n)` writes them. */
  function NatDigits(n: nat): (s: string)
    ensures s != [] && AllDigits(s)
  {
    if n < 10 then [('0' as int + n) as char]
    else NatDigits(n / 10) + [('0' as int + n % 10) as char]
  }

  /** The digits of `n` spell `n` back. */
  lemma {:induction false} NatDigitsValue(n: nat)
    ensures DigitsValue(NatDigits(n)) == n
  {
    var s := NatDigits(n);
    if n >= 10 {
      NatDigitsValue(n / 10);
      assert s[..|s| - 1] == NatDigits(n / 10);
    }
  }

  /** Text that writes an integer, with or without a minus sign, is coerced to that integer. */
  lemma IntegerTextRoundTrip(n: nat)
    ensures Coerce(Text(NatDigits(n))) == Some(n as real)
    ensures Coerce(Text("-" + NatDigits(n))) == Some(-(n as real))
  {
    var s := NatDigits(n);
    NatDigitsValue(n);
    assert '.' !in s by {
      assert forall i :: 0 <= i < |s| ==> IsDigit(s[i]);
    }
    assert ("-" + s)[1..] == s;
  }

  /** Text with no digit at all, such as an empty field or a word, is never a number. */
  lemma NoDigitNoNumber(s: string)
    requires forall i :: 0 <= i < |s| ==> !IsDigit(s[i])
    ensures Coerce(Text(s)) == None
  {
    if |s| > 0 && (s[0] == '-' || s[0] == '+') {
      UnsignedNeedsDigit(s[1..]);
    } else {
      UnsignedNeedsDigit(s);
    }
  }

  lemma UnsignedNeedsDigit(s: string)
    requires forall i :: 0 <= i < |s| ==> !IsDigit(s[i])
    ensures ParseUnsigned(s) == None
  {
    if '.' in s {
      var p := IndexOf(s, '.');
      var whole := s[..p];
      var frac := s[p + 1..];
      if |whole| > 0 {
        assert !IsDigit(whole[0]);
      } else if |frac| > 0 {
        assert !IsDigit(frac[0]);
      }
    } else if s != [] {
      assert !IsDigit(s[0]);
    }
  }

  // ---------------------------------------------------------------------------------------------
  // The three row steps

  /** The rating cell after coercion: the number, or a missing value. */
  function AsCell(v: Option<real>): Cell
  {
    match v
    case Some(x) => Num(x)
    case None => Null
  }

  /** `df['rating'] = pd.to_numeric(df['rating'], errors='coerce')` on the rows. */
  function CoerceRatings(rows: seq<seq<Cell>>, k: nat): (r: seq<seq<Cell>>)
    requires forall i :: 0 <= i < |rows| ==> k < |rows[i]|
    ensures |r| == |rows|
    ensures forall i :: 0 <= i < |rows| ==> |r[i]| == |rows[i]|
  {
    seq(|rows|, i requires 0 <= i < |rows| => rows[i][k := AsCell(Coerce(rows[i][k]))])
  }

  /** `df[mask]` where the mask tests column `k`: the rows whose cell `k` passes, in their order. */
  function Where(rows: seq<seq<Cell>>, k: nat, test: Cell -> bool): (r: seq<seq<Cell>>)
    requires forall i :: 0 <= i < |rows| ==> k < |rows[i]|
    ensures |r| <= |rows|
    ensures forall i :: 0 <= i < |r| ==> k < |r[i]| && test(r[i][k])
  {
    if rows == [] then []
    else
      var last := rows[|rows| - 1];
      Where(rows[..|rows| - 1], k, test) + (if test(last[k]) then [last] else [])
  }

  /** The `dropna(subset=['rating'])` test. */
  predicate Present(c: Cell)
  {
    c != Null
  }

  /** The `df['rating'] > 0` test. */
  predicate Positive(c: Cell)
  {
    c.Num? && c.x > 0.0
  }

  /** Coercion, then dropping missing ratings, then keeping positive ones. */
  function CleanRows(rows: seq<seq<Cell>>, k: nat): (r: seq<seq<Cell>>)
    requires forall i :: 0 <= i < |rows| ==> k < |rows[i]|
    ensures |r| <= |rows|
    ensures forall i :: 0 <= i < |r| ==> k < |r[i]| && Positive(r[i][k])
  {
    var coerced := CoerceRatings(rows, k);
    Where(Where(coerced, k, Present), k, Positive)
  }

  /** `DataLoader.clean_data`. */
  function CleanData(t: Table): (r: Result<Table, CleanError>)
    requires Rectangular(t)
    ensures r.Err? <==> RatingColumn(t.columns).Err?
    ensures r.Ok? ==> |r.value.columns| == |t.columns| && |r.value.rows| <= |t.rows|
  {
    match RatingColumn(t.columns)
    case Err(e) => Err(e)
    case Ok(k) => Ok(Table(Rename(t.columns), CleanRows(t.rows, k)))
  }

  // ---------------------------------------------------------------------------------------------
  // What cleaning keeps

  /** A row survives cleaning when its rating coerces to a number above 0. */
  predicate Survives(row: seq<Cell>, k: nat)
    requires k < |row|
  {
    Coerce(row[k]).Some? && Coerce(row[k]).value > 0.0
  }

  /** A surviving row as it comes out: its rating cell holds the coerced number, nothing else changes. */
  function Cleaned(row: seq<Cell>, k: nat): (r: seq<Cell>)
    requires k < |row| && Survives(row, k)
    ensures |r| == |row| && r[k] == Num(Coerce(row[k]).value)
    ensures forall c :: 0 <= c < |row| && c != k ==> r[c] == row[c]
  {
    row[k := Num(Coerce(row[k]).value)]
  }

  /** The positions of the rows that survive, in increasing order. */
  function SurvivorIndices(rows: seq<seq<Cell>>, k: nat): seq<nat>
    requires forall i :: 0 <= i < |rows| ==> k < |rows[i]|
  {
    if rows == [] then []
    else
      var n := |rows| - 1;
      SurvivorIndices(rows[..n], k) + (if Survives(rows[n], k) then [n] else [])
  }

  /** The survivor positions are strictly increasing and are exactly the rows that survive. */
  lemma {:induction false} SurvivorIndicesSpec(rows: seq<seq<Cell>>, k: nat)
    requires forall i :: 0 <= i < |rows| ==> k < |rows[i]|
    ensures var s := SurvivorIndices(rows, k);
      && (forall j :: 0 <= j < |s| ==> s[j] < |rows|)
      && (forall j, l :: 0 <= j < l < |s| ==> s[j] < s[l])
      && (forall i :: 0 <= i < |rows| ==> (i in s <==> Survives(rows[i], k)))
  {
    if rows != [] {
      var n := |rows| - 1;
      SurvivorIndicesSpec(rows[..n], k);
      var prev := SurvivorIndices(rows[..n], k);
      var s := SurvivorIndices(rows, k);
      assert forall j :: 0 <= j < |prev| ==> s[j] == prev[j];
      forall i | 0 <= i < |rows|
        ensures i in s <==> Survives(rows[i], k)
      {
        if i < n {
          assert rows[..n][i] == rows[i];
          if i in s {
            var j :| 0 <= j < |s| && s[j] == i;
            assert j < |prev|;
          }
        }
      }
    }
  }

  /** The cleaned rows are the survivors, in their original order, each cleaned. */
  lemma {:induction false} CleanRowsSpec(rows: seq<seq<Cell>>, k: nat)
    requires forall i :: 0 <= i < |rows| ==> k < |rows[i]|
    ensures var out := CleanRows(rows, k);
      var s := SurvivorIndices(rows, k);
      && |out| == |s|
      && forall j :: 0 <= j < |s| ==>
           s[j] < |rows| && Survives(rows[s[j]], k) && out[j] == Cleaned(rows[s[j]], k)
  {
    if rows != [] {
      var n := |rows| - 1;
      var init := rows[..n];
      CleanRowsSpec(init, k);
      CleanRowsStep(rows, k);
      var s := SurvivorIndices(rows, k);
      var prev := SurvivorIndices(init, k);
      var out := CleanRows(rows, k);
      var outInit := CleanRows(init, k);
      forall j | 0 <= j < |s|
        ensures s[j] < |rows| && Survives(rows[s[j]], k) && out[j] == Cleaned(rows[s[j]], k)
      {
        if j < |prev| {
          assert s[j] == prev[j] && out[j] == outInit[j];
          assert rows[prev[j]] == init[prev[j]];
        } else {
          assert s[j] == n && out[j] == Cleaned(rows[n], k);
        }
      }
    }
  }

  /** Cleaning a table one row longer adds that row, cleaned, exactly when it survives. */
  lemma CleanRowsStep(rows: seq<seq<Cell>>, k: nat)
    requires rows != [] && forall i :: 0 <= i < |rows| ==> k < |rows[i]|
    ensures var n := |rows| - 1;
      CleanRows(rows, k) == CleanRows(rows[..n], k) +
        (if Survives(rows[n], k) then [Cleaned(rows[n], k)] else [])
  {
    var n := |rows| - 1;
    var coerced := CoerceRatings(rows, k);
    assert coerced[..n] == CoerceRatings(rows[..n], k);
    var present := Where(coerced, k, Present);
    var presentInit := Where(coerced[..n], k, Present);
    if Present(coerced[n][k]) {
      assert present[..|present| - 1] == presentInit;
    } else {
      assert present == presentInit;
    }
  }

  /** `clean_data` on a table with one `rating` column (after renaming): the labels are renamed,
      and the rows are the survivors, in their original order, with the rating coerced and every
      other cell unchanged. A row survives exactly when its rating coerces to a number above 0. */
  lemma CleanDataSpec(t: Table)
    requires Rectangular(t) && RatingColumn(t.columns).Ok?
    ensures CleanData(t).Ok?
    ensures var k := RatingColumn(t.columns).value;
      var out := CleanData(t).value;
      var s := SurvivorIndices(t.rows, k);
      && out.columns == Rename(t.columns)
      && Rectangular(out)
      && |out.rows| == |s|
      && (forall j, l :: 0 <= j < l < |s| ==> s[j] < s[l])
      && (forall i :: 0 <= i < |t.rows| ==> (i in s <==> Survives(t.rows[i], k)))
      && (forall j :: 0 <= j < |s| ==> s[j] < |t.rows| && out.rows[j] == Cleaned(t.rows[s[j]], k))
      && (forall j :: 0 <= j < |out.rows| ==> Positive(out.rows[j][k]))
  {
    var k := RatingColumn(t.columns).value;
    SurvivorIndicesSpec(t.rows, k);
    CleanRowsSpec(t.rows, k);
  }

  /** Cleaning fails exactly when no column, or more than one, is called `rating` after renaming. */
  lemma CleanDataErrors(t: Table)
    requires Rectangular(t)
    ensures var cols := Rename(t.columns);
      && (CleanData(t) == Err(MissingColumn("rating")) <==> "rating" !in cols)
      && (CleanData(t) == Err(DuplicateColumn("rating")) <==>
            exists i, j :: 0 <= i < j < |cols| && cols[i] == "rating" && cols[j] == "rating")
      && (CleanData(t).Err? ==> CleanData(t) == Err(MissingColumn("rating")) || CleanData(t) == Err(DuplicateColumn("rating")))
  {
    var cols := Rename(t.columns);
    if "rating" in cols {
      var i :| 0 <= i < |cols| && cols[i] == "rating";
    }
  }

  /** Rows that already hold a positive number in column `k` all come through unchanged. */
  lemma {:induction false} CleanRowsKeepsClean(rows: seq<seq<Cell>>, k: nat)
    requires forall i :: 0 <= i < |rows| ==> k < |rows[i]| && Positive(rows[i][k])
    ensures CleanRows(rows, k) == rows
  {
    if rows != [] {
      var n := |rows| - 1;
      CleanRowsKeepsClean(rows[..n], k);
      CleanRowsStep(rows, k);
      assert Cleaned(rows[n], k) == rows[n];
      assert rows[..n] + [rows[n]] == rows;
    }
  }

  /** Cleaning a cleaned table changes nothing. */
  lemma CleanDataIdempotent(t: Table)
    requires Rectangular(t) && CleanData(t).Ok?
    ensures Rectangular(CleanData(t).value)
    ensures CleanData(CleanData(t).value) == CleanData(t)
  {
    var k := RatingColumn(t.columns).value;
    CleanDataSpec(t);
    var out := CleanData(t).value;
    RenameSpec(t.columns);
    assert RatingColumn(out.columns) == Ok(k);
    CleanRowsKeepsClean(out.rows, k);
  }
}
