/**
 * The 10x10 board of the game as a value: the cell encoding, the fleet table,
 * the per-ship segment count, adjacency and the placement queries
 * (the neighbour test of IsNear, HasPlaceForShip, IsShipSetted) of class Map.
 *
 * A board is indexed g[x][y], x the column and y the row, as the original's
 * byte[x, y] array is.
 */
module Board {

  /** Cell codes: 0-9 live segment of ship id, 10-19 hit segment, and these three. */
  const EmptyField: int := 255
  const BlockedField: int := 254
  const MissField: int := 253

  type Grid = seq<seq<int>>

  predicate InBounds(x: int, y: int) {
    0 <= x < 10 && 0 <= y < 10
  }

  predicate IsByte(v: int) {
    0 <= v <= 255
  }

  /** A well-formed board: 10 columns of 10 byte-valued cells. */
  predicate IsGrid(g: Grid) {
    |g| == 10 && forall x :: 0 <= x < 10 ==> |g[x]| == 10 && forall y :: 0 <= y < 10 ==> IsByte(g[x][y])
  }

  /** Two boards are equal when they agree on every cell. */
  lemma GridExt(g: Grid, h: Grid)
    requires IsGrid(g) && IsGrid(h)
    requires forall x, y :: InBounds(x, y) ==> g[x][y] == h[x][y]
    ensures g == h
  {
    forall x | 0 <= x < 10
      ensures g[x] == h[x]
    {
      assert forall y :: 0 <= y < 10 ==> g[x][y] == h[x][y];
    }
  }

  /** The board every game starts from: all 100 cells empty. */
  function EmptyGrid(): (g: Grid)
    ensures IsGrid(g)
    ensures forall x, y :: InBounds(x, y) ==> g[x][y] == EmptyField
  {
    seq(10, x => seq(10, y => EmptyField))
  }

  function SetCell(g: Grid, x: int, y: int, v: int): (r: Grid)
    requires IsGrid(g) && InBounds(x, y) && IsByte(v)
    ensures IsGrid(r)
    ensures r[x][y] == v
    ensures forall a, b :: InBounds(a, b) && (a != x || b != y) ==> r[a][b] == g[a][b]
  {
    g[x := g[x][y := v]]
  }

  // ---------------------------------------------------------------- cell codes

  /** Map.IsShipIndex: the code of a live segment, one per ship of the fleet. */
  predicate IsShipIndex(v: int): (r: bool)
    ensures r ==> IsByte(v) && v != EmptyField && v != BlockedField && v != MissField
  {
    0 <= v <= 9
  }

  /** Map.IsKilledShipIndex: the code of a hit segment, its ship's live code plus 10. */
  predicate IsKilledShipIndex(v: int): (r: bool)
    ensures r <==> IsShipIndex(v - 10)
    ensures r ==> IsByte(v) && !IsShipIndex(v)
  {
    10 <= v <= 19
  }

  /** Shots are legal at live segments, blocked and empty cells (and any other code),
      but not at hit segments or recorded misses. */
  predicate CanBeShotValue(v: int) {
    !IsKilledShipIndex(v) && v != MissField
  }

  predicate CanBeShoted(g: Grid, x: int, y: int)
    requires IsGrid(g) && InBounds(x, y)
  {
    CanBeShotValue(g[x][y])
  }

  /** Required length of each of the ten ships: one 4, two 3s, three 2s, four 1s. */
  function ShipLength(id: int): (n: int)
    requires IsShipIndex(id)
    ensures 1 <= n <= 4
  {
    [4, 3, 3, 2, 2, 2, 1, 1, 1, 1][id]
  }

  /** The live ship id a live or hit code refers to. */
  function LiveId(index: int): int {
    if IsKilledShipIndex(index) then index - 10 else index
  }

  /** Length of the ship a cell code belongs to; 0 for codes that are no ship. */
  function MaxShipSizeByIndex(index: int): (n: int)
    ensures IsShipIndex(index) ==> n == ShipLength(index)
    ensures IsKilledShipIndex(index) ==> n == ShipLength(index - 10)
    ensures !IsShipIndex(index) && !IsKilledShipIndex(index) ==> n == 0
    ensures 0 <= n <= 4
  {
    var i := if index > 9 then index - 10 else index;
    if IsShipIndex(i) then ShipLength(i) else 0
  }

  // ---------------------------------------------------------------- counting

  /** Occurrences of v in s. */
  function CountIn(s: seq<int>, v: int): (n: nat)
    ensures n <= |s|
  {
    if s == [] then 0 else CountIn(s[..|s| - 1], v) + (if s[|s| - 1] == v then 1 else 0)
  }

  /** Occurrences of v in the first `cols` columns, in the order GetShipPartsCount scans them. */
  function CountColumns(g: Grid, v: int, cols: int): nat
    requires IsGrid(g) && 0 <= cols <= 10
  {
    if cols == 0 then 0 else CountColumns(g, v, cols - 1) + CountIn(g[cols - 1], v)
  }

  /** Number of cells holding v: for a ship id, its placed (live) length. */
  function PartsCount(g: Grid, v: int): nat
    requires IsGrid(g)
  {
    CountColumns(g, v, |g|)
  }

  lemma {:induction false} CountInZero(s: seq<int>, v: int)
    ensures CountIn(s, v) == 0 <==> forall i :: 0 <= i < |s| ==> s[i] != v
  {
    if s != [] {
      CountInZero(s[..|s| - 1], v);
    }
  }

  lemma {:induction false} CountColumnsZero(g: Grid, v: int, cols: int)
    requires IsGrid(g) && 0 <= cols <= 10
    ensures CountColumns(g, v, cols) == 0 <==> forall x, y :: 0 <= x < cols && 0 <= y < 10 ==> g[x][y] != v
  {
    if cols > 0 {
      CountColumnsZero(g, v, cols - 1);
      CountInZero(g[cols - 1], v);
    }
  }

  /** No segment of v is left exactly when no cell holds v. */
  lemma PartsCountZero(g: Grid, v: int)
    requires IsGrid(g)
    ensures PartsCount(g, v) == 0 <==> forall x, y :: InBounds(x, y) ==> g[x][y] != v
  {
    CountColumnsZero(g, v, 10);
  }

  lemma {:induction false} CountInSame(s: seq<int>, t: seq<int>, v: int)
    requires |s| == |t|
    requires forall i :: 0 <= i < |s| ==> (s[i] == v <==> t[i] == v)
    ensures CountIn(s, v) == CountIn(t, v)
  {
    if s != [] {
      CountInSame(s[..|s| - 1], t[..|t| - 1], v);
    }
  }

  lemma {:induction false} CountColumnsSame(g: Grid, h: Grid, v: int, cols: int)
    requires IsGrid(g) && IsGrid(h) && 0 <= cols <= 10
    requires forall x, y :: InBounds(x, y) ==> (g[x][y] == v <==> h[x][y] == v)
    ensures CountColumns(g, v, cols) == CountColumns(h, v, cols)
  {
    if cols > 0 {
      CountColumnsSame(g, h, v, cols - 1);
      CountInSame(g[cols - 1], h[cols - 1], v);
    }
  }

  /** The count of v depends only on which cells hold v. */
  lemma PartsCountSame(g: Grid, h: Grid, v: int)
    requires IsGrid(g) && IsGrid(h)
    requires forall x, y :: InBounds(x, y) ==> (g[x][y] == v <==> h[x][y] == v)
    ensures PartsCount(g, v) == PartsCount(h, v)
  {
    CountColumnsSame(g, h, v, 10);
  }

  function Indicator(b: bool): int {
    if b then 1 else 0
  }

  lemma {:induction false} CountInUpdate(s: seq<int>, j: int, w: int, v: int)
    requires 0 <= j < |s|
    ensures CountIn(s[j := w], v) == CountIn(s, v) - Indicator(s[j] == v) + Indicator(w == v)
  {
    var n := |s| - 1;
    if j == n {
      assert s[j := w][..n] == s[..n];
    } else {
      assert s[j := w][..n] == s[..n][j := w];
      CountInUpdate(s[..n], j, w, v);
    }
  }

  lemma {:induction false} CountColumnsUpdate(g: Grid, x: int, y: int, w: int, v: int, cols: int)
    requires IsGrid(g) && InBounds(x, y) && IsByte(w) && 0 <= cols <= 10
    ensures CountColumns(SetCell(g, x, y, w), v, cols)
         == CountColumns(g, v, cols) + (if x < cols then Indicator(w == v) - Indicator(g[x][y] == v) else 0)
  {
    if cols > 0 {
      CountColumnsUpdate(g, x, y, w, v, cols - 1);
      if x == cols - 1 {
        CountInUpdate(g[x], y, w, v);
      }
    }
  }

  /** Writing one cell moves the count of v by at most that cell. */
  lemma PartsCountUpdate(g: Grid, x: int, y: int, w: int, v: int)
    requires IsGrid(g) && InBounds(x, y) && IsByte(w)
    ensures PartsCount(SetCell(g, x, y, w), v) == PartsCount(g, v) + Indicator(w == v) - Indicator(g[x][y] == v)
  {
    CountColumnsUpdate(g, x, y, w, v, 10);
  }

  // ---------------------------------------------------------------- ships

  /** IsShipSetted: the id is a ship and exactly its required length is placed. */
  predicate ShipComplete(g: Grid, id: int)
    requires IsGrid(g)
  {
    IsShipIndex(id) && PartsCount(g, id) == ShipLength(id)
  }

  /** IsShipKilled: no live segment of the ship (given by live or hit code) is left. */
  predicate ShipSunk(g: Grid, index: int)
    requires IsGrid(g)
  {
    PartsCount(g, LiveId(index)) == 0
  }

  /** Reference definition behind HasAnyShip: some cell still holds a live segment. */
  ghost predicate AnyShip(g: Grid)
    requires IsGrid(g)
  {
    exists x, y :: InBounds(x, y) && IsShipIndex(g[x][y])
  }

  /** HasAnyShip's own test, ship by ship, agrees with the cell-level definition. */
  lemma AnyShipByIds(g: Grid)
    requires IsGrid(g)
    ensures AnyShip(g) <==> exists id :: IsShipIndex(id) && !ShipSunk(g, id)
  {
    if AnyShip(g) {
      var x, y :| InBounds(x, y) && IsShipIndex(g[x][y]);
      PartsCountZero(g, g[x][y]);
      assert !ShipSunk(g, g[x][y]);
    }
    if exists id :: IsShipIndex(id) && !ShipSunk(g, id) {
      var id :| IsShipIndex(id) && !ShipSunk(g, id);
      PartsCountZero(g, id);
    }
  }

  // ---------------------------------------------------------------- adjacency

  /** (a, b) is one of the up to eight in-bounds neighbours of (x, y). */
  predicate Adjacent(x: int, y: int, a: int, b: int) {
    InBounds(a, b) && x - 1 <= a <= x + 1 && y - 1 <= b <= y + 1 && (a != x || b != y)
  }

  /** What IsNear answers: some neighbour holds t. */
  ghost predicate Near(g: Grid, x: int, y: int, t: int)
    requires IsGrid(g)
  {
    exists a, b :: Adjacent(x, y, a, b) && g[a][b] == t
  }

  // ---------------------------------------------------------------- room for a ship

  /** A cell a segment of ship id may extend over: empty or already that ship. */
  predicate Fits(v: int, id: int) {
    v == EmptyField || v == id
  }

  function Row(g: Grid, y: int): (s: seq<int>)
    requires IsGrid(g) && 0 <= y < 10
    ensures |s| == 10 && forall x :: 0 <= x < 10 ==> s[x] == g[x][y]
  {
    seq(10, x requires 0 <= x < 10 => g[x][y])
  }

  /** Length of the run of fitting cells starting at i and going up. */
  function RunFrom(s: seq<int>, i: int, id: int): (n: nat)
    requires 0 <= i <= |s|
    ensures i + n <= |s|
    ensures forall j :: i <= j < i + n ==> Fits(s[j], id)
    ensures i + n < |s| ==> !Fits(s[i + n], id)
    decreases |s| - i
  {
    if i < |s| && Fits(s[i], id) then 1 + RunFrom(s, i + 1, id) else 0
  }

  /** Length of the run of fitting cells ending just below i and going down. */
  function RunBefore(s: seq<int>, i: int, id: int): (n: nat)
    requires 0 <= i <= |s|
    ensures n <= i
    ensures forall j :: i - n <= j < i ==> Fits(s[j], id)
    ensures n < i ==> !Fits(s[i - n - 1], id)
    decreases i
  {
    if i > 0 && Fits(s[i - 1], id) then 1 + RunBefore(s, i - 1, id) else 0
  }

  /** HasPlaceForShip: the row run or the column run through (x, y) is as long as the ship. */
  predicate HasPlace(g: Grid, x: int, y: int, id: int)
    requires IsGrid(g) && InBounds(x, y)
  {
    var need := MaxShipSizeByIndex(id);
    RunFrom(Row(g, y), x, id) + RunBefore(Row(g, y), x, id) >= need
    || RunFrom(g[x], y, id) + RunBefore(g[x], y, id) >= need
  }

  /** A window of n consecutive fitting cells of s that covers position i. */
  ghost predicate WindowAt(s: seq<int>, i: int, id: int, n: int) {
    exists start :: 0 <= start <= i < start + n <= |s| && AllFit(s, start, n, id)
  }

  /** The n cells of s from start on all fit. */
  predicate AllFit(s: seq<int>, start: int, n: int, id: int)
    requires 0 <= start && 0 <= n && start + n <= |s|
  {
    forall j :: start <= j < start + n ==> Fits(s[j], id)
  }

  lemma RunsCoverWindow(s: seq<int>, i: int, id: int, n: int)
    requires 0 <= i < |s| && Fits(s[i], id) && n >= 1
    ensures RunFrom(s, i, id) + RunBefore(s, i, id) >= n <==> WindowAt(s, i, id, n)
  {
    var rf, rb := RunFrom(s, i, id), RunBefore(s, i, id);
    if rf + rb >= n {
      var start := if i - rb > i + 1 - n then i - rb else i + 1 - n;
      assert 0 <= start <= i < start + n <= |s|;
      assert AllFit(s, start, n, id) by {
        forall j | start <= j < start + n
          ensures Fits(s[j], id)
        {
          if j < i {
            assert i - rb <= j;
          } else {
            assert j < i + rf;
          }
        }
      }
    }
    if WindowAt(s, i, id, n) {
      var start :| 0 <= start <= i < start + n <= |s| && AllFit(s, start, n, id);
      RunFromCovers(s, i, start + n, id);
      RunBeforeCovers(s, start, i, id);
    }
  }

  /** A stretch of fitting cells from i up to k is part of the run from i. */
  lemma {:induction false} RunFromCovers(s: seq<int>, i: int, k: int, id: int)
    requires 0 <= i <= k <= |s| && forall j :: i <= j < k ==> Fits(s[j], id)
    ensures RunFrom(s, i, id) >= k - i
    decreases k - i
  {
    if i < k {
      RunFromCovers(s, i + 1, k, id);
    }
  }

  /** A stretch of fitting cells from k up to just below i is part of the run before i. */
  lemma {:induction false} RunBeforeCovers(s: seq<int>, k: int, i: int, id: int)
    requires 0 <= k <= i <= |s| && forall j :: k <= j < i ==> Fits(s[j], id)
    ensures RunBefore(s, i, id) >= i - k
    decreases i - k
  {
    if k < i {
      RunBeforeCovers(s, k, i - 1, id);
    }
  }

  /** HasPlaceForShip at an empty cell means exactly: some horizontal or vertical
      window of the ship's length through (x, y) is free or this ship's own. */
  lemma HasPlaceMeaning(g: Grid, x: int, y: int, id: int)
    requires IsGrid(g) && InBounds(x, y) && IsShipIndex(id) && Fits(g[x][y], id)
    ensures HasPlace(g, x, y, id) <==> WindowAt(Row(g, y), x, id, ShipLength(id)) || WindowAt(g[x], y, id, ShipLength(id))
  {
    RunsCoverWindow(Row(g, y), x, id, ShipLength(id));
    RunsCoverWindow(g[x], y, id, ShipLength(id));
  }
}
