/** A sparse matrix given as coordinate (COO) entries and its dense view once converted to
    compressed rows, where entries that share a coordinate are added together. */
module Interaction {

  /** One coordinate entry: the value placed at (row, col). */
  datatype Entry = Entry(row: nat, col: nat, value: real)

  /** Every entry lies inside a `rows` x `cols` matrix. */
  predicate InShape(es: seq<Entry>, rows: nat, cols: nat)
  {
    forall k :: 0 <= k < |es| ==> es[k].row < rows && es[k].col < cols
  }

  /** `m` has `rows` rows of `cols` columns each. */
  predicate IsShape(m: seq<seq<real>>, rows: nat, cols: nat)
  {
    |m| == rows && forall r :: 0 <= r < |m| ==> |m[r]| == cols
  }

  /** The all-zero matrix: no interaction recorded anywhere. */
  function Zeros(rows: nat, cols: nat): (m: seq<seq<real>>)
    ensures IsShape(m, rows, cols)
    ensures forall r, c :: 0 <= r < rows && 0 <= c < cols ==> m[r][c] == 0.0
  {
    seq(rows, _ => seq(cols, _ => 0.0))
  }

  /** Folds one entry into the matrix: its value is added to what is already at its coordinate. */
  function Add(m: seq<seq<real>>, e: Entry): (m': seq<seq<real>>)
    requires |m| > e.row && |m[e.row]| > e.col
    ensures |m'| == |m|
    ensures forall r :: 0 <= r < |m| ==> |m'[r]| == |m[r]|
  {
    m[e.row := m[e.row][e.col := m[e.row][e.col] + e.value]]
  }

  /** `coo_matrix((data, (rows, cols)), shape).tocsr()` seen densely: all entries folded into zeros. */
  function ToDense(es: seq<Entry>, rows: nat, cols: nat): (m: seq<seq<real>>)
    requires InShape(es, rows, cols)
    ensures IsShape(m, rows, cols)
  {
    if es == [] then Zeros(rows, cols)
    else Add(ToDense(es[..|es| - 1], rows, cols), es[|es| - 1])
  }

  /** The sum of the values of the entries placed at (r, c); 0 when there are none. */
  function EntrySum(es: seq<Entry>, r: nat, c: nat): real
  {
    if es == [] then 0.0
    else
      var e := es[|es| - 1];
      EntrySum(es[..|es| - 1], r, c) + (if e.row == r && e.col == c then e.value else 0.0)
  }

  /** Duplicates add up: the dense cell (r, c) holds the sum of all entries at (r, c). */
  lemma {:induction false} ToDenseEntry(es: seq<Entry>, rows: nat, cols: nat, r: nat, c: nat)
    requires InShape(es, rows, cols) && r < rows && c < cols
    ensures ToDense(es, rows, cols)[r][c] == EntrySum(es, r, c)
  {
    if es != [] {
      ToDenseEntry(es[..|es| - 1], rows, cols, r, c);
    }
  }

  /** A coordinate no entry names stays 0. */
  lemma {:induction false} EntrySumAbsent(es: seq<Entry>, r: nat, c: nat)
    requires forall k :: 0 <= k < |es| ==> es[k].row != r || es[k].col != c
    ensures EntrySum(es, r, c) == 0.0
  {
    if es != [] {
      EntrySumAbsent(es[..|es| - 1], r, c);
    }
  }

  /** The sum of a row of reals. */
  function Sum(s: seq<real>): real
  {
    if s == [] then 0.0 else Sum(s[..|s| - 1]) + s[|s| - 1]
  }

  /** The sum of every cell of a matrix. */
  function Total(m: seq<seq<real>>): real
  {
    Sum(seq(|m|, r requires 0 <= r < |m| => Sum(m[r])))
  }

  /** The sum of the values of all entries. */
  function ValueSum(es: seq<Entry>): real
  {
    if es == [] then 0.0 else ValueSum(es[..|es| - 1]) + es[|es| - 1].value
  }

  /** Changing one element changes the sum by the difference. */
  lemma {:induction false} SumUpdate(s: seq<real>, i: nat, x: real)
    requires i < |s|
    ensures Sum(s[i := x]) == Sum(s) - s[i] + x
  {
    var t := s[i := x];
    if i == |s| - 1 {
      assert t[..|t| - 1] == s[..|s| - 1];
    } else {
      SumUpdate(s[..|s| - 1], i, x);
      assert t[..|t| - 1] == s[..|s| - 1][i := x];
    }
  }

  /** A sequence of zeros sums to zero. */
  lemma {:induction false} SumZeros(s: seq<real>)
    requires forall k :: 0 <= k < |s| ==> s[k] == 0.0
    ensures Sum(s) == 0.0
  {
    if s != [] {
      SumZeros(s[..|s| - 1]);
    }
  }

  /** Folding one entry in raises the total by exactly that entry's value. */
  lemma AddTotal(m: seq<seq<real>>, e: Entry)
    requires |m| > e.row && |m[e.row]| > e.col
    ensures Total(Add(m, e)) == Total(m) + e.value
  {
    var row := m[e.row];
    var row' := row[e.col := row[e.col] + e.value];
    SumUpdate(row, e.col, row[e.col] + e.value);
    var sums := seq(|m|, r requires 0 <= r < |m| => Sum(m[r]));
    var m' := Add(m, e);
    assert seq(|m'|, r requires 0 <= r < |m'| => Sum(m'[r])) == sums[e.row := Sum(row')];
    SumUpdate(sums, e.row, Sum(row'));
  }

  /** Nothing is lost or invented: the matrix total is the sum of all entry values. */
  lemma {:induction false} ToDenseTotal(es: seq<Entry>, rows: nat, cols: nat)
    requires InShape(es, rows, cols)
    ensures Total(ToDense(es, rows, cols)) == ValueSum(es)
  {
    if es == [] {
      var z := Zeros(rows, cols);
      var sums := seq(|z|, r requires 0 <= r < |z| => Sum(z[r]));
      forall r | 0 <= r < rows
        ensures sums[r] == 0.0
      {
        SumZeros(z[r]);
      }
      SumZeros(sums);
    } else {
      ToDenseTotal(es[..|es| - 1], rows, cols);
      AddTotal(ToDense(es[..|es| - 1], rows, cols), es[|es| - 1]);
    }
  }
}
