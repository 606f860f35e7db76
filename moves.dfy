/**
 * What the board operations of class Map do, as functions on board values:
 * shot resolution with the sink sweep (Shot, MissAroundKilledShip), blocking
 * around placed segments (BlockNeighbors, BlockShipNeighbors), and the
 * placement step of the setup phase, with the properties each one keeps.
 */
module Moves {
  import opened Board
  import opened Marking

  /** The only ways a cell code ever changes: an empty cell receives a segment or
      is blocked, a live segment is hit, a shootable non-ship cell becomes a miss.
      In particular nothing ever becomes empty or blocked again, and hit segments
      and misses are final. */
  predicate Step(a: int, b: int) {
    || a == b
    || (a == EmptyField && (IsShipIndex(b) || b == BlockedField))
    || (IsShipIndex(a) && b == a + 10)
    || (CanBeShotValue(a) && !IsShipIndex(a) && b == MissField)
  }

  // ---------------------------------------------------------------- shots

  /** MissAroundKilledShip(h) for a hit code h: once no live segment of that ship
      is left, the blank neighbours of its hit cells are revealed as misses. (The
      original reaches this by a row-by-row scan; ScanComplete shows that the scan
      ends here.) */
  ghost function SinkSweep(g: Grid, h: int): (r: Grid)
    requires IsGrid(g) && IsKilledShipIndex(h)
    ensures IsGrid(r)
  {
    if ShipSunk(g, h) then Spread(g, h, BlockedField, MissField) else g
  }

  /** The sweep changes nothing while the ship still floats; otherwise exactly
      the blocked or empty cells next to a hit cell of the ship become misses. */
  lemma SinkSweepEffect(g: Grid, h: int)
    requires IsGrid(g) && IsKilledShipIndex(h)
    ensures !ShipSunk(g, h) ==> SinkSweep(g, h) == g
    ensures ShipSunk(g, h) ==> forall a, b :: InBounds(a, b) ==>
              SinkSweep(g, h)[a][b] == if g[a][b] >= BlockedField && Near(g, a, b, h) then MissField else g[a][b]
  {
  }

  /** Whatever the sweep does, it only turns blocked or empty cells into misses. */
  lemma SinkSweepOnlyBlanks(g: Grid, h: int)
    requires IsGrid(g) && IsKilledShipIndex(h)
    ensures forall a, b :: InBounds(a, b) ==>
              SinkSweep(g, h)[a][b] == g[a][b] || (g[a][b] >= BlockedField && SinkSweep(g, h)[a][b] == MissField)
  {
    SinkSweepEffect(g, h);
  }

  datatype ShotResult = ShotResult(grid: Grid, hit: bool)

  /** Map.Shot(x, y): the board afterwards and whether the shot hit. */
  ghost function Fire(g: Grid, x: int, y: int): (r: ShotResult)
    requires IsGrid(g) && InBounds(x, y)
    ensures IsGrid(r.grid)
    ensures !CanBeShoted(g, x, y) ==> r == ShotResult(g, false)
    ensures r.hit <==> IsShipIndex(g[x][y])
    ensures CanBeShoted(g, x, y) && !r.hit ==> r.grid == SetCell(g, x, y, MissField)
  {
    if !CanBeShoted(g, x, y) then
      ShotResult(g, false)
    else if g[x][y] < 10 then
      var marked := SetCell(g, x, y, g[x][y] + 10);
      ShotResult(SinkSweep(marked, g[x][y] + 10), true)
    else
      ShotResult(SetCell(g, x, y, MissField), false)
  }

  /** A hit adds 10 to the shot cell; apart from the shot cell a shot only ever
      turns blocked or empty cells into misses; every cell changes by a Step; and
      no cell becomes blocked or empty. */
  lemma FireMonotone(g: Grid, x: int, y: int)
    requires IsGrid(g) && InBounds(x, y)
    ensures var r := Fire(g, x, y);
            && (r.hit ==> r.grid[x][y] == g[x][y] + 10)
            && (forall a, b :: InBounds(a, b) && (a != x || b != y) && r.grid[a][b] != g[a][b] ==>
                  g[a][b] >= BlockedField && r.grid[a][b] == MissField)
            && (forall a, b :: InBounds(a, b) ==> Step(g[a][b], r.grid[a][b]))
            && (forall a, b :: InBounds(a, b) && r.grid[a][b] >= BlockedField ==> r.grid[a][b] == g[a][b])
  {
    if CanBeShoted(g, x, y) && g[x][y] < 10 {
      var marked := SetCell(g, x, y, g[x][y] + 10);
      SinkSweepOnlyBlanks(marked, g[x][y] + 10);
      assert Fire(g, x, y).grid == SinkSweep(marked, g[x][y] + 10);
    }
  }

  /** After writing h at (x, y), a cell is next to h when it was before or when it touches (x, y). */
  lemma NearAfterWrite(g: Grid, x: int, y: int, h: int, a: int, b: int)
    requires IsGrid(g) && InBounds(x, y) && IsByte(h) && InBounds(a, b) && (a != x || b != y)
    ensures Near(SetCell(g, x, y, h), a, b, h) <==> Near(g, a, b, h) || Adjacent(x, y, a, b)
  {
    var m := SetCell(g, x, y, h);
    if Near(m, a, b, h) {
      var c, d :| Adjacent(a, b, c, d) && m[c][d] == h;
      if c != x || d != y {
        assert g[c][d] == h;
      }
    }
    if Near(g, a, b, h) {
      var c, d :| Adjacent(a, b, c, d) && g[c][d] == h;
      if c != x || d != y {
        assert m[c][d] == h;
      }
    }
    if Adjacent(x, y, a, b) {
      assert Adjacent(a, b, x, y) && m[x][y] == h;
    }
  }

  /** A hit that leaves other segments of the ship afloat changes only the shot cell. */
  lemma FireAfloat(g: Grid, x: int, y: int, a: int, b: int)
    requires IsGrid(g) && InBounds(x, y) && IsShipIndex(g[x][y])
    requires InBounds(a, b) && (a != x || b != y) && g[a][b] == g[x][y]
    ensures Fire(g, x, y).grid == SetCell(g, x, y, g[x][y] + 10)
  {
    var v := g[x][y];
    var marked := SetCell(g, x, y, v + 10);
    assert marked[a][b] == v;
    PartsCountZero(marked, v);
    SinkSweepEffect(marked, v + 10);
  }

  /** A hit on the ship's last live segment also turns every blocked or empty
      neighbour of the ship's hit cells, the shot cell included, into a miss, and
      touches nothing else. */
  lemma FireSinks(g: Grid, x: int, y: int)
    requires IsGrid(g) && InBounds(x, y) && IsShipIndex(g[x][y])
    requires forall a, b :: InBounds(a, b) && (a != x || b != y) ==> g[a][b] != g[x][y]
    ensures var r := Fire(g, x, y).grid;
            && r[x][y] == g[x][y] + 10
            && forall a, b :: InBounds(a, b) && (a != x || b != y) ==>
                 r[a][b] == if g[a][b] >= BlockedField && (Near(g, a, b, g[x][y] + 10) || Adjacent(x, y, a, b))
                            then MissField else g[a][b]
  {
    var v := g[x][y];
    var marked := SetCell(g, x, y, v + 10);
    var r := Fire(g, x, y).grid;
    assert r == SinkSweep(marked, v + 10);
    PartsCountZero(marked, v);
    assert ShipSunk(marked, v + 10);
    SinkSweepEffect(marked, v + 10);
    forall a, b | InBounds(a, b) && (a != x || b != y)
      ensures r[a][b] == if g[a][b] >= BlockedField && (Near(g, a, b, v + 10) || Adjacent(x, y, a, b))
                         then MissField else g[a][b]
    {
      NearAfterWrite(g, x, y, v + 10, a, b);
    }
  }

  /** HasAnyShip turns false exactly when the last live segment on the board is hit. */
  lemma FireEndsFleet(g: Grid, x: int, y: int)
    requires IsGrid(g) && InBounds(x, y)
    ensures var r := Fire(g, x, y);
            AnyShip(g) && !AnyShip(r.grid)
            <==> r.hit && forall a, b :: InBounds(a, b) && (a != x || b != y) ==> !IsShipIndex(g[a][b])
    ensures !AnyShip(g) ==> !AnyShip(Fire(g, x, y).grid)
  {
    var r := Fire(g, x, y);
    FireMonotone(g, x, y);
    if AnyShip(r.grid) {
      var a, b :| InBounds(a, b) && IsShipIndex(r.grid[a][b]);
      assert IsShipIndex(g[a][b]) && (a != x || b != y);
    }
    if r.hit {
      assert IsShipIndex(g[x][y]);
    }
  }

  // ---------------------------------------------------------------- blocking

  /** BlockNeighbors(x, y): empty diagonal neighbours of (x, y) become blocked, and
      the empty orthogonal ones too once the ship whose code (x, y) holds is complete.
      (The original tests completeness after blocking the diagonals; blocking only
      turns empty cells into blocked ones, so that count is the same.) */
  function BlockNeighbors(g: Grid, x: int, y: int): (r: Grid)
    requires IsGrid(g) && InBounds(x, y)
    ensures IsGrid(r)
    ensures forall a, b :: InBounds(a, b) ==>
              r[a][b] == g[a][b] || (g[a][b] == EmptyField && r[a][b] == BlockedField)
    ensures forall a, b :: InBounds(a, b) && !Adjacent(x, y, a, b) ==> r[a][b] == g[a][b]
    ensures forall a, b :: Adjacent(x, y, a, b) && a != x && b != y && g[a][b] == EmptyField ==>
              r[a][b] == BlockedField
    ensures forall a, b :: Adjacent(x, y, a, b) && (a == x || b == y) && g[a][b] == EmptyField ==>
              (r[a][b] == BlockedField <==> ShipComplete(g, g[x][y]))
  {
    Surround(g, x, y, EmptyField, BlockedField, ShipComplete(g, g[x][y]))
  }

  /** BlockShipNeighbors(id): for a complete ship, BlockNeighbors at each of its
      cells in a row-major scan; nothing for an incomplete one. */
  ghost function BlockShip(g: Grid, id: int): (r: Grid)
    requires IsGrid(g)
    ensures IsGrid(r)
  {
    if ShipComplete(g, id) then Spread(g, id, EmptyField, BlockedField) else g
  }

  /** BlockShipNeighbors blocks exactly the empty neighbours of a complete ship. */
  lemma BlockShipEffect(g: Grid, id: int)
    requires IsGrid(g)
    ensures !ShipComplete(g, id) ==> BlockShip(g, id) == g
    ensures ShipComplete(g, id) ==> forall a, b :: InBounds(a, b) ==>
              BlockShip(g, id)[a][b] == if g[a][b] == EmptyField && Near(g, a, b, id) then BlockedField else g[a][b]
  {
  }

  /** Part of the blocking scan leaves a complete ship complete: it only turns
      empty cells into blocked ones. */
  lemma ScanKeepsComplete(g: Grid, id: int, y: int, x: int)
    requires IsGrid(g) && ShipComplete(g, id)
    requires 0 <= y <= 10 && 0 <= x <= 10 && (y == 10 ==> x == 0)
    ensures ShipComplete(ScanTo(g, id, EmptyField, BlockedField, y, x), id)
  {
    ScanClosedForm(g, id, EmptyField, BlockedField, y, x);
    PartsCountSame(g, ScanTo(g, id, EmptyField, BlockedField, y, x), id);
  }

  /** Blocking around a ship neither completes nor breaks it. */
  lemma BlockShipKeepsComplete(g: Grid, id: int)
    requires IsGrid(g)
    ensures ShipComplete(BlockShip(g, id), id) <==> ShipComplete(g, id)
  {
    if ShipComplete(g, id) {
      PartsCountSame(g, BlockShip(g, id), id);
    }
  }

  // ---------------------------------------------------------------- placement

  /** The checks SeveralPanel_Click makes before writing ship id at (x, y). */
  ghost predicate CanPlace(g: Grid, x: int, y: int, id: int)
    requires IsGrid(g) && InBounds(x, y)
  {
    g[x][y] == EmptyField && HasPlace(g, x, y, id) && (PartsCount(g, id) > 0 ==> Near(g, x, y, id))
  }

  /** An accepted placement click: write the segment, block around it, and block
      around the whole ship if it is now complete (BlockShip does nothing otherwise). */
  ghost function PlaceSegment(g: Grid, x: int, y: int, id: int): (r: Grid)
    requires IsGrid(g) && InBounds(x, y) && IsShipIndex(id)
    ensures IsGrid(r)
  {
    BlockShip(BlockNeighbors(SetCell(g, x, y, id), x, y), id)
  }

  /** Placing a segment on an empty cell writes the ship there and otherwise only
      blocks empty cells, so the ship grows by one and no other code's count moves. */
  lemma PlaceSegmentEffect(g: Grid, x: int, y: int, id: int)
    requires IsGrid(g) && InBounds(x, y) && IsShipIndex(id) && g[x][y] == EmptyField
    ensures var r := PlaceSegment(g, x, y, id);
            && r[x][y] == id
            && (forall a, b :: InBounds(a, b) && (a != x || b != y) ==>
                  r[a][b] == g[a][b] || (g[a][b] == EmptyField && r[a][b] == BlockedField))
            && PartsCount(r, id) == PartsCount(g, id) + 1
            && (forall v :: v != id && v != EmptyField && v != BlockedField ==> PartsCount(r, v) == PartsCount(g, v))
            && (ShipComplete(r, id) <==> ShipComplete(BlockNeighbors(SetCell(g, x, y, id), x, y), id))
            && (forall a, b :: Adjacent(x, y, a, b) && a != x && b != y ==> r[a][b] != EmptyField)
  {
    var g0 := SetCell(g, x, y, id);
    var g1 := BlockNeighbors(g0, x, y);
    var r := BlockShip(g1, id);
    BlockShipEffect(g1, id);
    PartsCountUpdate(g, x, y, id, id);
    PartsCountSame(g0, g1, id);
    PartsCountSame(g1, r, id);
    forall v | v != id && v != EmptyField && v != BlockedField
      ensures PartsCount(r, v) == PartsCount(g, v)
    {
      PartsCountSame(g, r, v);
    }
  }

  /** No two cells of different ships touch, not even diagonally. */
  ghost predicate NoTouch(g: Grid)
    requires IsGrid(g)
  {
    forall a, b, c, d :: InBounds(a, b) && Adjacent(a, b, c, d) && IsShipIndex(g[a][b]) && IsShipIndex(g[c][d]) ==> g[a][b] == g[c][d]
  }

  /** Only empty, blocked and ship codes up to k are on the board. */
  ghost predicate CodesUpTo(g: Grid, k: int)
    requires IsGrid(g)
  {
    forall a, b :: InBounds(a, b) ==>
      g[a][b] == EmptyField || g[a][b] == BlockedField || (IsShipIndex(g[a][b]) && g[a][b] <= k)
  }

  /** No empty cell touches a cell of ships 0..k-1. */
  ghost predicate EmptyClear(g: Grid, k: int)
    requires IsGrid(g)
  {
    forall a, b, c, d :: InBounds(a, b) && Adjacent(a, b, c, d) && g[a][b] == EmptyField ==> !(0 <= g[c][d] < k)
  }

  /** (a, b) and (c, d) lie in one column or in one row, and every cell from the
      one to the other holds id. */
  ghost predicate Between(g: Grid, a: int, b: int, c: int, d: int, id: int)
    requires IsGrid(g) && InBounds(a, b) && InBounds(c, d)
  {
    || (a == c && forall t :: (b <= t <= d || d <= t <= b) ==> g[a][t] == id)
    || (b == d && forall t :: (a <= t <= c || c <= t <= a) ==> g[t][b] == id)
  }

  /** Ship id is straight: all its cells lie in one row or one column, without gaps. */
  ghost predicate Straight(g: Grid, id: int)
    requires IsGrid(g)
  {
    forall a, b, c, d :: InBounds(a, b) && InBounds(c, d) && g[a][b] == id && g[c][d] == id ==>
      Between(g, a, b, c, d, id)
  }

  /** No empty cell is a diagonal neighbour of a cell of ship k. */
  ghost predicate DiagonalsClear(g: Grid, k: int)
    requires IsGrid(g)
  {
    forall a, b, c, d :: InBounds(a, b) && Adjacent(a, b, c, d) && a != c && b != d && g[a][b] == k ==>
      g[c][d] != EmptyField
  }

  /** The own board while ship k is being placed: only empty, blocked and ship
      codes up to k; ships 0..k-1 complete and ship k not yet; every ship
      straight; no two ships touch; no empty cell touches a complete ship, nor
      lies diagonally next to the ship being placed. */
  ghost predicate SetupBoard(g: Grid, k: int)
    requires IsGrid(g)
  {
    && 0 <= k <= 10
    && CodesUpTo(g, k)
    && (forall i :: 0 <= i < k ==> ShipComplete(g, i))
    && (k < 10 ==> PartsCount(g, k) < ShipLength(k))
    && (forall i :: IsShipIndex(i) ==> Straight(g, i))
    && NoTouch(g)
    && EmptyClear(g, k)
    && DiagonalsClear(g, k)
  }

  /** The empty board is where the setup starts. */
  lemma SetupStart(g: Grid)
    requires g == EmptyGrid()
    ensures IsGrid(g) && SetupBoard(g, 0)
  {
    PartsCountZero(g, 0);
  }

  /** r is g with ship k written at the empty cell (x, y) and some empty cells blocked. */
  ghost predicate Grown(g: Grid, r: Grid, x: int, y: int, k: int)
    requires IsGrid(g) && IsGrid(r) && InBounds(x, y)
  {
    && g[x][y] == EmptyField && r[x][y] == k
    && forall a, b :: InBounds(a, b) && (a != x || b != y) ==>
         r[a][b] == g[a][b] || (g[a][b] == EmptyField && r[a][b] == BlockedField)
  }

  lemma GrownNoTouch(g: Grid, r: Grid, x: int, y: int, k: int)
    requires IsGrid(g) && IsGrid(r) && InBounds(x, y) && IsShipIndex(k)
    requires Grown(g, r, x, y, k) && CodesUpTo(g, k) && NoTouch(g) && EmptyClear(g, k)
    ensures NoTouch(r)
  {
    forall a, b, c, d | InBounds(a, b) && Adjacent(a, b, c, d) && IsShipIndex(r[a][b]) && IsShipIndex(r[c][d])
      ensures r[a][b] == r[c][d]
    {
      if a == x && b == y {
        assert g[c][d] == r[c][d];
      } else if c == x && d == y {
        assert g[a][b] == r[a][b];
        assert Adjacent(c, d, a, b);
      } else {
        assert g[a][b] == r[a][b] && g[c][d] == r[c][d];
      }
    }
  }

  lemma GrownCodes(g: Grid, r: Grid, x: int, y: int, k: int)
    requires IsGrid(g) && IsGrid(r) && InBounds(x, y) && IsShipIndex(k)
    requires Grown(g, r, x, y, k) && CodesUpTo(g, k)
    ensures CodesUpTo(r, k)
    ensures EmptyClear(g, k) ==> EmptyClear(r, k)
    ensures forall i :: 0 <= i < k ==> PartsCount(r, i) == PartsCount(g, i)
  {
    forall i | 0 <= i < k
      ensures PartsCount(r, i) == PartsCount(g, i)
    {
      PartsCountSame(g, r, i);
    }
  }

  /** A grown board keeps every ship other than k as it was, so it stays straight. */
  lemma StraightSame(g: Grid, r: Grid, id: int)
    requires IsGrid(g) && IsGrid(r) && Straight(g, id)
    requires forall a, b :: InBounds(a, b) ==> (r[a][b] == id <==> g[a][b] == id)
    ensures Straight(r, id)
  {
    forall a, b, c, d | InBounds(a, b) && InBounds(c, d) && r[a][b] == id && r[c][d] == id
      ensures Between(r, a, b, c, d, id)
    {
      assert Between(g, a, b, c, d, id);
    }
  }

  /** A segment written at the empty (x, y) just beside the ship's cell (x, q)
      lines up with every other cell (c, d) of the ship: the empty diagonals of
      the ship rule out (c, d) lying in row q, so the ship runs along column x
      and (x, y) extends it at one end. */
  lemma ExtendColumn(g: Grid, r: Grid, x: int, y: int, q: int, c: int, d: int, k: int)
    requires IsGrid(g) && IsGrid(r) && InBounds(x, y) && InBounds(x, q) && InBounds(c, d) && IsShipIndex(k)
    requires Grown(g, r, x, y, k) && DiagonalsClear(g, k)
    requires (q == y + 1 || q == y - 1) && g[x][q] == k && g[c][d] == k && Between(g, x, q, c, d, k)
    ensures Between(r, x, y, c, d, k)
  {
    if x + 1 < 10 {
      assert Adjacent(x + 1, q, x, y);
      assert g[x + 1][q] != k;
    }
    if x - 1 >= 0 {
      assert Adjacent(x - 1, q, x, y);
      assert g[x - 1][q] != k;
    }
    assert c == x;
    assert !(q <= y <= d || d <= y <= q);
    forall t | y <= t <= d || d <= t <= y
      ensures r[x][t] == k
    {
      if t != y {
        assert g[x][t] == k;
      }
    }
  }

  /** The same along a row: (x, y) just beside the ship's cell (p, y). */
  lemma ExtendRow(g: Grid, r: Grid, x: int, y: int, p: int, c: int, d: int, k: int)
    requires IsGrid(g) && IsGrid(r) && InBounds(x, y) && InBounds(p, y) && InBounds(c, d) && IsShipIndex(k)
    requires Grown(g, r, x, y, k) && DiagonalsClear(g, k)
    requires (p == x + 1 || p == x - 1) && g[p][y] == k && g[c][d] == k && Between(g, p, y, c, d, k)
    ensures Between(r, x, y, c, d, k)
  {
    if y + 1 < 10 {
      assert Adjacent(p, y + 1, x, y);
      assert g[p][y + 1] != k;
    }
    if y - 1 >= 0 {
      assert Adjacent(p, y - 1, x, y);
      assert g[p][y - 1] != k;
    }
    assert d == y;
    assert !(p <= x <= c || c <= x <= p);
    forall t | x <= t <= c || c <= t <= x
      ensures r[t][y] == k
    {
      if t != x {
        assert g[t][y] == k;
      }
    }
  }

  /** The new segment lines up with every old cell (c, d) of its ship. */
  lemma GrownBetween(g: Grid, r: Grid, x: int, y: int, c: int, d: int, k: int)
    requires IsGrid(g) && IsGrid(r) && InBounds(x, y) && InBounds(c, d) && IsShipIndex(k)
    requires Grown(g, r, x, y, k) && Straight(g, k) && DiagonalsClear(g, k)
    requires Near(g, x, y, k) && g[c][d] == k
    ensures Between(r, x, y, c, d, k)
  {
    var p, q :| Adjacent(x, y, p, q) && g[p][q] == k;
    assert Adjacent(p, q, x, y);
    assert p == x || q == y;
    assert Between(g, p, q, c, d, k);
    if p == x {
      ExtendColumn(g, r, x, y, q, c, d, k);
    } else {
      ExtendRow(g, r, x, y, p, c, d, k);
    }
  }

  /** Writing ship k next to its own cells, with the ship's diagonals not
      empty, keeps ship k straight. */
  lemma GrownStraight(g: Grid, r: Grid, x: int, y: int, k: int)
    requires IsGrid(g) && IsGrid(r) && InBounds(x, y) && IsShipIndex(k)
    requires Grown(g, r, x, y, k) && Straight(g, k) && DiagonalsClear(g, k)
    requires PartsCount(g, k) > 0 ==> Near(g, x, y, k)
    ensures Straight(r, k)
  {
    PartsCountZero(g, k);
    forall a, b, c, d | InBounds(a, b) && InBounds(c, d) && r[a][b] == k && r[c][d] == k
      ensures Between(r, a, b, c, d, k)
    {
      if a == x && b == y {
        if c != x || d != y {
          GrownBetween(g, r, x, y, c, d, k);
        }
      } else if c == x && d == y {
        GrownBetween(g, r, x, y, a, b, k);
      } else {
        assert Between(g, a, b, c, d, k);
      }
    }
  }

  /** After blocking around a complete ship k, no empty cell touches ships 0..k. */
  lemma BlockedClear(g1: Grid, r: Grid, k: int)
    requires IsGrid(g1) && IsGrid(r) && IsShipIndex(k) && ShipComplete(g1, k)
    requires r == BlockShip(g1, k) && EmptyClear(r, k)
    ensures EmptyClear(r, k + 1)
  {
    BlockShipEffect(g1, k);
    forall a, b, c, d | InBounds(a, b) && Adjacent(a, b, c, d) && r[a][b] == EmptyField
      ensures r[c][d] != k
    {
      if g1[c][d] == k {
        assert Near(g1, a, b, k);
      }
    }
  }

  /** A grown board whose new segment has no empty diagonal neighbour keeps
      the diagonals of ship k clear. */
  lemma GrownDiagonals(g: Grid, r: Grid, x: int, y: int, k: int)
    requires IsGrid(g) && IsGrid(r) && InBounds(x, y) && IsShipIndex(k)
    requires Grown(g, r, x, y, k) && DiagonalsClear(g, k)
    requires forall a, b :: Adjacent(x, y, a, b) && a != x && b != y ==> r[a][b] != EmptyField
    ensures DiagonalsClear(r, k)
  {
    forall a, b, c, d | InBounds(a, b) && Adjacent(a, b, c, d) && a != c && b != d && r[a][b] == k
      ensures r[c][d] != EmptyField
    {
      if a != x || b != y {
        assert g[a][b] == k;
      }
    }
  }

  /** A grown board keeps everything of the invariant that does not depend on
      whether ship k has just become complete. */
  lemma SetupGrown(g: Grid, r: Grid, x: int, y: int, k: int)
    requires IsGrid(g) && IsGrid(r) && InBounds(x, y) && 0 <= k < 10
    requires SetupBoard(g, k) && Grown(g, r, x, y, k)
    requires PartsCount(g, k) > 0 ==> Near(g, x, y, k)
    ensures CodesUpTo(r, k) && NoTouch(r) && EmptyClear(r, k)
    ensures forall i :: 0 <= i < k ==> ShipComplete(r, i)
    ensures forall i :: IsShipIndex(i) ==> Straight(r, i)
    ensures k + 1 < 10 ==> PartsCount(r, k + 1) == 0
  {
    GrownCodes(g, r, x, y, k);
    GrownNoTouch(g, r, x, y, k);
    forall i | IsShipIndex(i)
      ensures Straight(r, i)
    {
      if i == k {
        GrownStraight(g, r, x, y, k);
      } else {
        assert Straight(g, i);
        StraightSame(g, r, i);
      }
    }
    forall i | 0 <= i < k
      ensures ShipComplete(r, i)
    {
      assert ShipComplete(g, i);
    }
    if k + 1 < 10 {
      PartsCountZero(r, k + 1);
    }
  }

  /** Every accepted placement click keeps the setup invariant, moving on to the
      next ship exactly when the current one becomes complete. */
  lemma SetupStep(g: Grid, x: int, y: int, k: int)
    requires IsGrid(g) && InBounds(x, y) && SetupBoard(g, k) && k < 10 && CanPlace(g, x, y, k)
    ensures var r := PlaceSegment(g, x, y, k);
            SetupBoard(r, if ShipComplete(r, k) then k + 1 else k)
  {
    var g1 := BlockNeighbors(SetCell(g, x, y, k), x, y);
    var r := PlaceSegment(g, x, y, k);
    PlaceSegmentEffect(g, x, y, k);
    SetupGrown(g, r, x, y, k);
    if ShipComplete(r, k) {
      BlockedClear(g1, r, k);
    } else {
      GrownDiagonals(g, r, x, y, k);
    }
  }

  /** When the last ship is complete the whole fleet is on the board. */
  lemma SetupDone(g: Grid)
    requires IsGrid(g) && SetupBoard(g, 10)
    ensures forall i :: IsShipIndex(i) ==> ShipComplete(g, i) && Straight(g, i)
    ensures AnyShip(g)
  {
    assert ShipComplete(g, 0);
    PartsCountZero(g, 0);
  }
}
