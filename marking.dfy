/**
 * Marking the neighbourhood of cells. MissAround and BlockNeighbors overwrite
 * the neighbours of one cell; MissAroundKilledShip and BlockShipNeighbors do
 * that for every cell holding a given code, scanning the board row by row.
 * ScanTo is that scan, step by step as the original performs it; Spread is
 * its order-independent result, and ScanComplete proves the two equal.
 */
module Marking {
  import opened Board

  /** Neighbour (a, b) of (x, y) that a marking touches: any neighbour, or only the diagonal ones. */
  predicate Touches(x: int, y: int, a: int, b: int, orth: bool) {
    Adjacent(x, y, a, b) && (orth || (a != x && b != y))
  }

  /** Every touched neighbour of (x, y) holding a code >= lo is set to `to`.
      MissAround is lo = 254, to = 253; the blocking of BlockNeighbors is
      lo = 255, to = 254 (on byte codes, >= 255 means == 255). */
  function Surround(g: Grid, x: int, y: int, lo: int, to: int, orth: bool): (r: Grid)
    requires IsGrid(g) && IsByte(to)
    ensures IsGrid(r)
    ensures forall a, b :: InBounds(a, b) ==>
              r[a][b] == if Touches(x, y, a, b, orth) && g[a][b] >= lo then to else g[a][b]
  {
    seq(10, a requires 0 <= a < 10 =>
      seq(10, b requires 0 <= b < 10 =>
        if Touches(x, y, a, b, orth) && g[a][b] >= lo then to else g[a][b]))
  }

  /** Marking the diagonal neighbours first and then all of them is marking all
      of them, when a marked cell is no longer eligible. */
  lemma SurroundTwice(g: Grid, x: int, y: int, lo: int, to: int)
    requires IsGrid(g) && IsByte(to) && to < lo
    ensures Surround(Surround(g, x, y, lo, to, false), x, y, lo, to, true) == Surround(g, x, y, lo, to, true)
  {
    GridExt(Surround(Surround(g, x, y, lo, to, false), x, y, lo, to, true), Surround(g, x, y, lo, to, true));
  }

  /** (a, b) comes before (x, y) in a row-major scan (y outer, x inner). */
  predicate Before(a: int, b: int, y: int, x: int) {
    b < y || (b == y && a < x)
  }

  /** Some neighbour of (a, b) that the scan has already visited holds h. */
  ghost predicate SeenNear(g: Grid, h: int, y: int, x: int, a: int, b: int)
    requires IsGrid(g)
  {
    exists c, d :: Adjacent(a, b, c, d) && Before(c, d, y, x) && g[c][d] == h
  }

  /** The board after a row-major scan has visited every cell before (x, y),
      surrounding each visited cell that holds h at the time of the visit. */
  function ScanTo(g: Grid, h: int, lo: int, to: int, y: int, x: int): (r: Grid)
    requires IsGrid(g) && IsByte(to)
    requires 0 <= y <= 10 && 0 <= x <= 10 && (y == 10 ==> x == 0)
    ensures IsGrid(r)
    decreases y, x
  {
    if x == 0 then
      if y == 0 then g else ScanTo(g, h, lo, to, y - 1, 10)
    else
      var p := ScanTo(g, h, lo, to, y, x - 1);
      if p[x - 1][y] == h then Surround(p, x - 1, y, lo, to, true) else p
  }

  /** The result of a full scan, independent of the visiting order: every cell
      >= lo next to a cell holding h becomes `to`. */
  ghost function Spread(g: Grid, h: int, lo: int, to: int): (r: Grid)
    requires IsGrid(g) && IsByte(to)
    ensures IsGrid(r)
  {
    seq(10, a requires 0 <= a < 10 =>
      seq(10, b requires 0 <= b < 10 =>
        if g[a][b] >= lo && Near(g, a, b, h) then to else g[a][b]))
  }

  lemma SeenNearNone(g: Grid, h: int, a: int, b: int)
    requires IsGrid(g)
    ensures !SeenNear(g, h, 0, 0, a, b)
  {
  }

  lemma SeenNearRowEnd(g: Grid, h: int, y: int, a: int, b: int)
    requires IsGrid(g) && 0 < y <= 10
    ensures SeenNear(g, h, y, 0, a, b) <==> SeenNear(g, h, y - 1, 10, a, b)
  {
    if SeenNear(g, h, y, 0, a, b) {
      var c, d :| Adjacent(a, b, c, d) && Before(c, d, y, 0) && g[c][d] == h;
      assert Before(c, d, y - 1, 10);
    }
    if SeenNear(g, h, y - 1, 10, a, b) {
      var c, d :| Adjacent(a, b, c, d) && Before(c, d, y - 1, 10) && g[c][d] == h;
      assert Before(c, d, y, 0);
    }
  }

  lemma SeenNearStep(g: Grid, h: int, y: int, x: int, a: int, b: int)
    requires IsGrid(g) && 0 <= y < 10 && 0 < x <= 10
    ensures SeenNear(g, h, y, x, a, b)
        <==> SeenNear(g, h, y, x - 1, a, b) || (Adjacent(a, b, x - 1, y) && g[x - 1][y] == h)
  {
    if SeenNear(g, h, y, x, a, b) {
      var c, d :| Adjacent(a, b, c, d) && Before(c, d, y, x) && g[c][d] == h;
      if c != x - 1 || d != y {
        assert Before(c, d, y, x - 1);
      }
    }
    if SeenNear(g, h, y, x - 1, a, b) {
      var c, d :| Adjacent(a, b, c, d) && Before(c, d, y, x - 1) && g[c][d] == h;
      assert Before(c, d, y, x);
    }
    if Adjacent(a, b, x - 1, y) && g[x - 1][y] == h {
      assert Before(x - 1, y, y, x);
    }
  }

  /** Each step of the scan keeps the board equal to the closed form restricted
      to the cells visited so far; in particular cells holding h never change. */
  lemma {:induction false} ScanClosedForm(g: Grid, h: int, lo: int, to: int, y: int, x: int)
    requires IsGrid(g) && IsByte(to) && to < lo && h < lo && h != to
    requires 0 <= y <= 10 && 0 <= x <= 10 && (y == 10 ==> x == 0)
    ensures forall a, b :: InBounds(a, b) ==>
              ScanTo(g, h, lo, to, y, x)[a][b] == if g[a][b] >= lo && SeenNear(g, h, y, x, a, b) then to else g[a][b]
    decreases y, x
  {
    var r := ScanTo(g, h, lo, to, y, x);
    if x == 0 {
      if y == 0 {
        forall a, b | InBounds(a, b)
          ensures r[a][b] == if g[a][b] >= lo && SeenNear(g, h, y, x, a, b) then to else g[a][b]
        {
          SeenNearNone(g, h, a, b);
        }
      } else {
        ScanClosedForm(g, h, lo, to, y - 1, 10);
        forall a, b | InBounds(a, b)
          ensures r[a][b] == if g[a][b] >= lo && SeenNear(g, h, y, x, a, b) then to else g[a][b]
        {
          SeenNearRowEnd(g, h, y, a, b);
        }
      }
    } else {
      ScanClosedForm(g, h, lo, to, y, x - 1);
      var p := ScanTo(g, h, lo, to, y, x - 1);
      assert p[x - 1][y] == h <==> g[x - 1][y] == h;
      forall a, b | InBounds(a, b)
        ensures r[a][b] == if g[a][b] >= lo && SeenNear(g, h, y, x, a, b) then to else g[a][b]
      {
        SeenNearStep(g, h, y, x, a, b);
        assert Adjacent(a, b, x - 1, y) <==> Adjacent(x - 1, y, a, b);
      }
    }
  }

  /** The full row-major scan equals the order-independent Spread. (The scan
      bound is written |g|, which is 10, so that the scan is not unrolled
      wherever it is mentioned.) */
  lemma ScanComplete(g: Grid, h: int, lo: int, to: int)
    requires IsGrid(g) && IsByte(to) && to < lo && h < lo && h != to
    ensures ScanTo(g, h, lo, to, |g|, 0) == Spread(g, h, lo, to)
  {
    ScanClosedForm(g, h, lo, to, |g|, 0);
    var r, s := ScanTo(g, h, lo, to, |g|, 0), Spread(g, h, lo, to);
    forall a, b | InBounds(a, b)
      ensures r[a][b] == s[a][b]
    {
      if SeenNear(g, h, 10, 0, a, b) {
        var c, d :| Adjacent(a, b, c, d) && Before(c, d, 10, 0) && g[c][d] == h;
        assert Near(g, a, b, h);
      }
      if Near(g, a, b, h) {
        var c, d :| Adjacent(a, b, c, d) && g[c][d] == h;
        assert Before(c, d, 10, 0);
      }
    }
    GridExt(r, s);
  }
}
