/** The longest common subsequence of two line lists, by a flat table. */
module Lcs {

  newtype int32 = x: int | -0x8000_0000 <= x < 0x8000_0000

  const MAX_CELLS := 0x10_0000

  datatype Pair = Pair(a: nat, b: nat)

  /** Strictly increasing index pairs from `(i, j)` on whose lines are equal: a
      common subsequence. */
  ghost predicate Matching(a: seq<string>, b: seq<string>, ps: seq<Pair>, i: nat, j: nat) {
    && (forall k :: 0 <= k < |ps| ==> i <= ps[k].a < |a| && j <= ps[k].b < |b| && a[ps[k].a] == b[ps[k].b])
    && (forall k, l :: 0 <= k < l < |ps| ==> ps[k].a < ps[l].a && ps[k].b < ps[l].b)
  }

  function Max(x: nat, y: nat): nat {
    if x >= y then x else y
  }

  /** Length of the longest common subsequence of `a[i..]` and `b[j..]`. */
  function Length(a: seq<string>, b: seq<string>, i: nat, j: nat): nat
    decreases |a| - i, |b| - j
  {
    if i >= |a| || j >= |b| then 0
    else if a[i] == b[j] then 1 + Length(a, b, i + 1, j + 1)
    else Max(Length(a, b, i + 1, j), Length(a, b, i, j + 1))
  }

  /** No common subsequence is longer. */
  lemma {:induction false} LengthIsMaximal(a: seq<string>, b: seq<string>, ps: seq<Pair>, i: nat, j: nat)
    requires Matching(a, b, ps, i, j)
    ensures |ps| <= Length(a, b, i, j)
    decreases |a| - i, |b| - j
  {
    if ps == [] {
    } else {
      assert i <= ps[0].a < |a| && j <= ps[0].b < |b|;
      if a[i] == b[j] {
        LengthIsMaximal(a, b, ps[1..], i + 1, j + 1);
      } else if ps[0].a > i {
        LengthIsMaximal(a, b, ps, i + 1, j);
      } else {
        LengthIsMaximal(a, b, ps, i, j + 1);
      }
    }
  }

  lemma {:induction false} LengthBound(a: seq<string>, b: seq<string>, i: nat, j: nat)
    requires i <= |a| && j <= |b|
    ensures Length(a, b, i, j) <= |a| - i && Length(a, b, i, j) <= |b| - j
    decreases |a| - i, |b| - j
  {
    if i == |a| || j == |b| {
    } else {
      LengthBound(a, b, i + 1, j + 1);
      LengthBound(a, b, i + 1, j);
      LengthBound(a, b, i, j + 1);
    }
  }

  lemma SquareGrows(k: nat)
    requires k > 1024
    ensures k * k > MAX_CELLS
  {
    assert k * k >= 1025 * k;
  }

  lemma SmallerSideBound(n: nat, m: nat, k: nat)
    requires n * m <= MAX_CELLS && k <= n && k <= m
    ensures k <= 1024
  {
    assert k * k <= n * k <= n * m;
    if k > 1024 {
      SquareGrows(k);
    }
  }

  /** Under the cell bound every table cell is at most 1024. */
  lemma CellBound(a: seq<string>, b: seq<string>, i: nat, j: nat)
    requires |a| * |b| <= MAX_CELLS && i <= |a| && j <= |b|
    ensures Length(a, b, i, j) <= 1024
  {
    LengthBound(a, b, i, j);
    SmallerSideBound(|a|, |b|, Length(a, b, i, j));
  }

  // -- the flat table -------------------------------------------------------

  /** Where cell `(i, j)` is, in rows of `m + 1`. */
  function Cell(m: nat, i: nat, j: nat): nat {
    i * (m + 1) + j
  }

  lemma CellInBounds(n: nat, m: nat, i: nat, j: nat)
    requires i <= n && j <= m
    ensures Cell(m, i, j) < (n + 1) * (m + 1)
  {
    assert i * (m + 1) <= n * (m + 1);
  }

  lemma RowsApart(m: nat, i: nat, j: nat, x: nat, y: nat)
    requires i < x && j <= m
    ensures Cell(m, i, j) < Cell(m, x, y)
  {
    assert (i + 1) * (m + 1) <= x * (m + 1);
    assert (i + 1) * (m + 1) == i * (m + 1) + (m + 1);
  }

  lemma CellInjective(m: nat, i: nat, j: nat, x: nat, y: nat)
    requires j <= m && y <= m && Cell(m, i, j) == Cell(m, x, y)
    ensures i == x && j == y
  {
    if i < x {
      RowsApart(m, i, j, x, y);
    } else if x < i {
      RowsApart(m, x, y, i, j);
    }
  }

  /** The cells from `(i, j)` on, in the order they are filled in, hold lengths;
      so do the zero row and column past the ends. */
  ghost predicate Filled(a: seq<string>, b: seq<string>, cells: seq<int32>, i: int, j: int) {
    && |cells| == (|a| + 1) * (|b| + 1)
    && forall x, y {:trigger HoldsLength(a, b, cells, x, y)} :: 0 <= x <= |a| && 0 <= y <= |b| && (x > i || (x == i && y > j) || y == |b|) ==>
         HoldsLength(a, b, cells, x, y)
  }

  ghost predicate HoldsLength(a: seq<string>, b: seq<string>, cells: seq<int32>, x: nat, y: nat)
    requires x <= |a| && y <= |b| && |cells| == (|a| + 1) * (|b| + 1)
  {
    CellInBounds(|a|, |b|, x, y);
    cells[Cell(|b|, x, y)] as int == Length(a, b, x, y)
  }

  /** Writing one cell with its length fills it and disturbs no other. */
  lemma FillOne(a: seq<string>, b: seq<string>, cells: seq<int32>, i: nat, j: nat, v: int32)
    requires i < |a| && j < |b| && Filled(a, b, cells, i, j) && v as int == Length(a, b, i, j)
    requires Cell(|b|, i, j) < |cells|
    ensures Filled(a, b, cells[Cell(|b|, i, j) := v], i, j - 1)
  {
    var cells' := cells[Cell(|b|, i, j) := v];
    forall x, y | 0 <= x <= |a| && 0 <= y <= |b| && (x > i || (x == i && y > j - 1) || y == |b|)
      ensures HoldsLength(a, b, cells', x, y)
    {
      CellInBounds(|a|, |b|, x, y);
      if x != i || y != j {
        if Cell(|b|, x, y) == Cell(|b|, i, j) {
          CellInjective(|b|, x, y, i, j);
        }
        assert HoldsLength(a, b, cells, x, y);
      }
    }
  }

  /** Fills the table backwards, a cell from its three neighbours. */
  method FillTable(a: seq<string>, b: seq<string>) returns (table: array<int32>)
    requires |a| * |b| <= MAX_CELLS
    ensures fresh(table) && Filled(a, b, table[..], -1, |b|)
  {
    var n, m := |a|, |b|;
    table := new int32[(n + 1) * (m + 1)](_ => 0);
    forall x, y | 0 <= x <= n && 0 <= y <= m && (x > n - 1 || y == m) ensures HoldsLength(a, b, table[..], x, y) {
      CellInBounds(n, m, x, y);
    }
    var i := n - 1;
    while i >= 0
      invariant -1 <= i < n
      invariant Filled(a, b, table[..], i, m)
    {
      var j := m - 1;
      while j >= 0
        invariant -1 <= j < m
        invariant Filled(a, b, table[..], i, j)
      {
        CellInBounds(n, m, i, j);
        var v := NextCell(a, b, table, i, j);
        FillOne(a, b, table[..], i, j, v);
        assert table[..][Cell(m, i, j) := v] == table[..Cell(m, i, j)] + [v] + table[Cell(m, i, j) + 1..];
        table[Cell(m, i, j)] := v;
        j := j - 1;
      }
      FilledRow(a, b, table[..], i);
      i := i - 1;
    }
  }

  lemma FilledRow(a: seq<string>, b: seq<string>, cells: seq<int32>, i: nat)
    requires i < |a| && Filled(a, b, cells, i, -1)
    ensures Filled(a, b, cells, i - 1, |b|)
  {
  }

  /** What a cell gets: its diagonal plus one on a match, else the larger of the
      cell below and the cell to the right. It always fits an int32. */
  method NextCell(a: seq<string>, b: seq<string>, table: array<int32>, i: nat, j: nat) returns (v: int32)
    requires i < |a| && j < |b| && |a| * |b| <= MAX_CELLS && Filled(a, b, table[..], i, j)
    ensures v as int == Length(a, b, i, j)
  {
    var m := |b|;
    CellInBounds(|a|, m, i + 1, j + 1);
    CellInBounds(|a|, m, i + 1, j);
    CellInBounds(|a|, m, i, j + 1);
    CellBound(a, b, i, j);
    assert HoldsLength(a, b, table[..], i + 1, j + 1);
    assert HoldsLength(a, b, table[..], i + 1, j);
    assert HoldsLength(a, b, table[..], i, j + 1);
    if a[i] == b[j] {
      v := table[Cell(m, i + 1, j + 1)] + 1;
    } else if table[Cell(m, i + 1, j)] >= table[Cell(m, i, j + 1)] {
      v := table[Cell(m, i + 1, j)];
    } else {
      v := table[Cell(m, i, j + 1)];
    }
  }

  /** `lcs`: matched pairs in order, as many as any common subsequence has. */
  method LongestCommon(a: seq<string>, b: seq<string>) returns (out: seq<Pair>)
    requires |a| * |b| <= MAX_CELLS
    ensures Matching(a, b, out, 0, 0)
    ensures |out| == Length(a, b, 0, 0)
    ensures forall ps :: Matching(a, b, ps, 0, 0) ==> |ps| <= |out|
  {
    out := [];
    forall ps | Matching(a, b, ps, 0, 0) ensures |ps| <= Length(a, b, 0, 0) {
      LengthIsMaximal(a, b, ps, 0, 0);
    }
    var n, m := |a|, |b|;
    if n == 0 || m == 0 {
      return;
    }
    var table := FillTable(a, b);
    out := Walk(a, b, table);
  }

  /** Follows the table from the top left corner, taking every match it meets. */
  method Walk(a: seq<string>, b: seq<string>, table: array<int32>) returns (out: seq<Pair>)
    requires Filled(a, b, table[..], -1, |b|)
    ensures Matching(a, b, out, 0, 0)
    ensures |out| == Length(a, b, 0, 0)
  {
    var n, m := |a|, |b|;
    out := [];
    var i, j := 0, 0;
    while i < n && j < m
      invariant i <= n && j <= m
      invariant Matching(a, b, out, 0, 0)
      invariant forall k :: 0 <= k < |out| ==> out[k].a < i && out[k].b < j
      invariant |out| + Length(a, b, i, j) == Length(a, b, 0, 0)
      decreases n - i + m - j
    {
      if a[i] == b[j] {
        out := out + [Pair(i, j)];
        i := i + 1;
        j := j + 1;
      } else {
        CellInBounds(n, m, i + 1, j);
        CellInBounds(n, m, i, j + 1);
        assert HoldsLength(a, b, table[..], i + 1, j);
        assert HoldsLength(a, b, table[..], i, j + 1);
        if table[Cell(m, i + 1, j)] >= table[Cell(m, i, j + 1)] {
          i := i + 1;
        } else {
          j := j + 1;
        }
      }
    }
  }
}
