/**
 * Cell addresses and rectangular ranges, as produced by the spreadsheet
 * library's `decode_cell` / `decode_range` (0-based row and column), and the
 * row-major enumeration of a rectangle that every range loop follows.
 */
module Ranges {

  /** A decoded cell address `{r, c}`. */
  datatype Addr = Addr(r: nat, c: nat)

  /** A decoded range `{s, e}`: start and end corners, both inclusive. */
  datatype Range = Range(s: Addr, e: Addr)

  /** `a` lies in the rectangle `rg`; all four bounds are inclusive. */
  predicate InRange(a: Addr, rg: Range) {
    rg.s.r <= a.r <= rg.e.r && rg.s.c <= a.c <= rg.e.c
  }

  /** Strict row-major order: rows first, then columns. */
  predicate Before(a: Addr, b: Addr) {
    a.r < b.r || (a.r == b.r && a.c < b.c)
  }

  /** Number of integers in the half-open interval [lo, hi). */
  function Span(lo: nat, hi: nat): nat {
    if lo <= hi then hi - lo else 0
  }

  /** Number of rows a `for(row=s.r; row<=e.r; row++)` loop visits. */
  function Height(rg: Range): nat {
    Span(rg.s.r, rg.e.r + 1)
  }

  /** Number of columns a `for(col=s.c; col<=e.c; col++)` loop visits. */
  function Width(rg: Range): nat {
    Span(rg.s.c, rg.e.c + 1)
  }

  /** The addresses (r, c0), ..., (r, c1 - 1), left to right. */
  function RowCells(r: nat, c0: nat, c1: nat): seq<Addr>
    decreases c1
  {
    if c1 <= c0 then [] else RowCells(r, c0, c1 - 1) + [Addr(r, c1 - 1)]
  }

  /** Rows r0 .. r1 - 1 of columns c0 .. c1 - 1, rows outer and columns inner. */
  function Block(r0: nat, r1: nat, c0: nat, c1: nat): seq<Addr>
    decreases r1
  {
    if r1 <= r0 then [] else Block(r0, r1 - 1, c0, c1) + RowCells(r1 - 1, c0, c1)
  }

  /** Every address of `rg` in the order of the nested row/column loops. */
  function RowMajor(rg: Range): seq<Addr> {
    Block(rg.s.r, rg.e.r + 1, rg.s.c, rg.e.c + 1)
  }

  /** Each element of `xs` comes strictly before every later one. */
  ghost predicate Ordered(xs: seq<Addr>) {
    forall i, j :: 0 <= i < j < |xs| ==> Before(xs[i], xs[j])
  }

  lemma {:induction false} RowCellsMember(r: nat, c0: nat, c1: nat, a: Addr)
    ensures a in RowCells(r, c0, c1) <==> a.r == r && c0 <= a.c < c1
    decreases c1
  {
    if c0 < c1 {
      RowCellsMember(r, c0, c1 - 1, a);
      assert a in RowCells(r, c0, c1) <==> a in RowCells(r, c0, c1 - 1) || a == Addr(r, c1 - 1);
    }
  }

  lemma {:induction false} BlockMember(r0: nat, r1: nat, c0: nat, c1: nat, a: Addr)
    ensures a in Block(r0, r1, c0, c1) <==> r0 <= a.r < r1 && c0 <= a.c < c1
    decreases r1
  {
    if r0 < r1 {
      var before, last := Block(r0, r1 - 1, c0, c1), RowCells(r1 - 1, c0, c1);
      assert Block(r0, r1, c0, c1) == before + last;
      assert a in before + last <==> a in before || a in last;
      BlockMember(r0, r1 - 1, c0, c1, a);
      RowCellsMember(r1 - 1, c0, c1, a);
    }
  }

  lemma {:induction false} RowCellsLength(r: nat, c0: nat, c1: nat)
    ensures |RowCells(r, c0, c1)| == Span(c0, c1)
    decreases c1
  {
    if c0 < c1 {
      RowCellsLength(r, c0, c1 - 1);
    }
  }

  lemma RowCellsMembers(r: nat, c0: nat, c1: nat)
    ensures forall a :: a in RowCells(r, c0, c1) <==> a.r == r && c0 <= a.c < c1
    ensures |RowCells(r, c0, c1)| == Span(c0, c1)
  {
    forall a: Addr
      ensures a in RowCells(r, c0, c1) <==> a.r == r && c0 <= a.c < c1
    {
      RowCellsMember(r, c0, c1, a);
    }
    RowCellsLength(r, c0, c1);
  }

  lemma BlockMembers(r0: nat, r1: nat, c0: nat, c1: nat)
    ensures forall a :: a in Block(r0, r1, c0, c1) <==> r0 <= a.r < r1 && c0 <= a.c < c1
  {
    forall a: Addr
      ensures a in Block(r0, r1, c0, c1) <==> r0 <= a.r < r1 && c0 <= a.c < c1
    {
      BlockMember(r0, r1, c0, c1, a);
    }
  }

  lemma MulSucc(n: nat, w: nat)
    ensures (n + 1) * w == n * w + w
  {
  }

  lemma {:induction false} BlockLength(r0: nat, r1: nat, c0: nat, c1: nat)
    ensures |Block(r0, r1, c0, c1)| == Span(r0, r1) * Span(c0, c1)
    decreases r1
  {
    if r0 < r1 {
      BlockLength(r0, r1 - 1, c0, c1);
      RowCellsLength(r1 - 1, c0, c1);
      MulSucc(Span(r0, r1 - 1), Span(c0, c1));
    }
  }

  /** One more column of the current row extends the visited positions by that address. */
  lemma VisitedStep(done: seq<Addr>, row: nat, c0: nat, col: nat)
    requires c0 <= col
    ensures done + RowCells(row, c0, col + 1) == (done + RowCells(row, c0, col)) + [Addr(row, col)]
  {
    assert RowCells(row, c0, col + 1) == RowCells(row, c0, col) + [Addr(row, col)];
  }

  /** Two ordered runs, every element of the first before every element of the second, concatenate to an ordered run. */
  lemma OrderedConcat(xs: seq<Addr>, ys: seq<Addr>)
    requires Ordered(xs) && Ordered(ys)
    requires forall x, y :: x in xs && y in ys ==> Before(x, y)
    ensures Ordered(xs + ys)
  {
    forall i, j | 0 <= i < j < |xs + ys|
      ensures Before((xs + ys)[i], (xs + ys)[j])
    {
      if j < |xs| {
        assert Before(xs[i], xs[j]);
      } else if i >= |xs| {
        assert Before(ys[i - |xs|], ys[j - |xs|]);
      } else {
        assert xs[i] in xs && ys[j - |xs|] in ys;
      }
    }
  }

  lemma {:induction false} RowCellsOrdered(r: nat, c0: nat, c1: nat)
    ensures Ordered(RowCells(r, c0, c1))
    decreases c1
  {
    if c0 < c1 {
      RowCellsOrdered(r, c0, c1 - 1);
      RowCellsMembers(r, c0, c1 - 1);
      OrderedConcat(RowCells(r, c0, c1 - 1), [Addr(r, c1 - 1)]);
    }
  }

  lemma {:induction false} BlockOrdered(r0: nat, r1: nat, c0: nat, c1: nat)
    ensures Ordered(Block(r0, r1, c0, c1))
    decreases r1
  {
    if r0 < r1 {
      var before, last := Block(r0, r1 - 1, c0, c1), RowCells(r1 - 1, c0, c1);
      assert Block(r0, r1, c0, c1) == before + last;
      BlockOrdered(r0, r1 - 1, c0, c1);
      RowCellsOrdered(r1 - 1, c0, c1);
      BlockMembers(r0, r1 - 1, c0, c1);
      RowCellsMembers(r1 - 1, c0, c1);
      OrderedConcat(before, last);
    }
  }

  /**
   * The row-major enumeration of a range lists exactly the addresses of the
   * rectangle, each once, in strictly increasing row-major order, and so has
   * Height * Width elements.
   */
  lemma RowMajorSpec(rg: Range)
    ensures forall a :: a in RowMajor(rg) <==> InRange(a, rg)
    ensures Ordered(RowMajor(rg))
    ensures |RowMajor(rg)| == Height(rg) * Width(rg)
  {
    BlockMembers(rg.s.r, rg.e.r + 1, rg.s.c, rg.e.c + 1);
    BlockOrdered(rg.s.r, rg.e.r + 1, rg.s.c, rg.e.c + 1);
    BlockLength(rg.s.r, rg.e.r + 1, rg.s.c, rg.e.c + 1);
  }

  /** An ordered sequence has no repeated address. */
  lemma OrderedDistinct(xs: seq<Addr>, i: nat, j: nat)
    requires Ordered(xs) && i < |xs| && j < |xs| && i != j
    ensures xs[i] != xs[j]
  {
    if i < j { assert Before(xs[i], xs[j]); } else { assert Before(xs[j], xs[i]); }
  }
}
