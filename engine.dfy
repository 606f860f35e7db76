/**
 * Class Map: a 10 x 10 array of byte cell codes, updated in place. Every
 * method is proved against the board-value function that specifies it
 * (module Board, Marking, Moves and Codec), so the properties proved there
 * carry over to the object.
 */
module Engine {
  import opened Wrappers
  import opened Board
  import opened Marking
  import opened Moves
  import opened Text
  import opened Codec

  /** The cells of a before (x, y) in row-major order hold the byte values of the
      matching fields of fs (field j * 10 + i for cell (i, j)). */
  ghost predicate ReadUpTo(a: array2<int>, fs: seq<string>, y: int, x: int)
    reads a
    requires a.Length0 == 10 && a.Length1 == 10
  {
    forall i, j :: InBounds(i, j) && Before(i, j, y, x) ==>
      j * 10 + i < |fs| && ParseByte(fs[j * 10 + i]) == Some(a[i, j])
  }

  class Map {
    /** The cells, indexed [x, y] like the original's byte[,]. */
    const cells: array2<int>
    /** The board value the array holds. */
    ghost var Contents: Grid

    ghost predicate Valid()
      reads this, cells
    {
      && cells.Length0 == 10 && cells.Length1 == 10 && IsGrid(Contents)
      && forall x, y :: 0 <= x < 10 && 0 <= y < 10 ==> cells[x, y] == Contents[x][y]
    }

    /** Map(): every cell empty. */
    constructor ()
      ensures Valid() && fresh(cells)
      ensures Contents == EmptyGrid()
    {
      var a := new int[10, 10];
      var y := 0;
      while y < 10
        invariant 0 <= y <= 10
        invariant forall i, j :: 0 <= i < 10 && 0 <= j < y ==> a[i, j] == EmptyField
      {
        var x := 0;
        while x < 10
          invariant 0 <= x <= 10
          invariant forall i, j :: 0 <= i < 10 && 0 <= j < y ==> a[i, j] == EmptyField
          invariant forall i :: 0 <= i < x ==> a[i, y] == EmptyField
        {
          a[x, y] := EmptyField;
          x := x + 1;
        }
        y := y + 1;
      }
      cells := a;
      Contents := EmptyGrid();
    }

    /** Map(string): fills the board from the '|'-separated fields row by row.
        None stands for the exception the original throws when a field is
        missing or is not a byte. */
    static method FromText(mapInfo: string) returns (m: Option<Map>)
      ensures m.None? <==> Decode(mapInfo).None?
      ensures m.Some? ==> fresh(m.value) && fresh(m.value.cells) && m.value.Valid() && m.value.Contents == Decode(mapInfo).value
    {
      var temp := Split(mapInfo, Sep);
      var board := new Map();
      var y := 0;
      while y < 10
        invariant 0 <= y <= 10 && board.Valid() && fresh(board) && fresh(board.cells)
        invariant ReadUpTo(board.cells, temp, y, 0)
      {
        var x := 0;
        while x < 10
          invariant 0 <= x <= 10 && board.Valid() && fresh(board) && fresh(board.cells)
          invariant ReadUpTo(board.cells, temp, y, x)
        {
          if y * 10 + x >= |temp| {
            return None;
          }
          var b := ParseByte(temp[y * 10 + x]);
          if b.None? {
            return None;
          }
          board.Set(x, y, b.value);
          x := x + 1;
        }
        y := y + 1;
      }
      forall i, j | InBounds(i, j)
        ensures j * 10 + i < |temp| && ParseByte(temp[j * 10 + i]) == Some(board.Contents[i][j])
      {
        assert Before(i, j, 10, 0);
      }
      DecodeFieldsOf(temp, board.Contents);
      return Some(board);
    }

    /** The indexer's getter. */
    function Get(x: int, y: int): (v: int)
      reads this, cells
      requires Valid() && InBounds(x, y)
      ensures v == Contents[x][y] && IsByte(v)
    {
      cells[x, y]
    }

    /** The indexer's setter. */
    method Set(x: int, y: int, v: int)
      requires Valid() && InBounds(x, y) && IsByte(v)
      modifies this, cells
      ensures Valid() && Contents == SetCell(old(Contents), x, y, v)
    {
      cells[x, y] := v;
      Contents := SetCell(Contents, x, y, v);
    }

    /** CanBeShoted: every code but a hit segment or a miss may be shot at. */
    function CanBeShoted(x: int, y: int): (r: bool)
      reads this, cells
      requires Valid() && InBounds(x, y)
      ensures r <==> Board.CanBeShoted(Contents, x, y)
    {
      !IsKilledShipIndex(cells[x, y]) && cells[x, y] != MissField
    }

    /** IsNear: some in-bounds neighbour of (x, y) holds the code; the left
        column first, then the right one, then above and below. */
    method IsNear(x: int, y: int, code: int) returns (r: bool)
      requires Valid() && InBounds(x, y)
      ensures r <==> Near(Contents, x, y, code)
    {
      var hasLeft := x - 1 >= 0;
      var hasRight := x + 1 < 10;
      var hasTop := y + 1 < 10;
      var hasBottom := y - 1 >= 0;
      if hasLeft && ((hasTop && cells[x - 1, y + 1] == code) || (hasBottom && cells[x - 1, y - 1] == code) || cells[x - 1, y] == code) {
        assert Adjacent(x, y, x - 1, y + 1) || Adjacent(x, y, x - 1, y - 1) || Adjacent(x, y, x - 1, y);
        return true;
      }
      if hasRight && ((hasTop && cells[x + 1, y + 1] == code) || (hasBottom && cells[x + 1, y - 1] == code) || cells[x + 1, y] == code) {
        assert Adjacent(x, y, x + 1, y + 1) || Adjacent(x, y, x + 1, y - 1) || Adjacent(x, y, x + 1, y);
        return true;
      }
      if hasTop && cells[x, y + 1] == code {
        assert Adjacent(x, y, x, y + 1);
        return true;
      }
      if hasBottom && cells[x, y - 1] == code {
        assert Adjacent(x, y, x, y - 1);
        return true;
      }
      return false;
    }

    /** GetShipPartsCount: the number of cells holding the code, counted column by column. */
    method GetShipPartsCount(shipIndex: int) returns (num: int)
      requires Valid()
      ensures num == PartsCount(Contents, shipIndex)
    {
      ghost var g := Contents;
      num := 0;
      var i := 0;
      while i < 10
        invariant 0 <= i <= 10
        invariant num == CountColumns(g, shipIndex, i)
      {
        var j := 0;
        while j < 10
          invariant 0 <= j <= 10
          invariant num == CountColumns(g, shipIndex, i) + CountIn(g[i][..j], shipIndex)
        {
          assert g[i][..j + 1][..j] == g[i][..j];
          if cells[i, j] == shipIndex {
            num := num + 1;
          }
          j := j + 1;
        }
        assert g[i][..10] == g[i];
        i := i + 1;
      }
    }

    /** IsShipKilled: no live segment of the ship (named by its live or its hit code) is left. */
    method IsShipKilled(shipIndex: int) returns (r: bool)
      requires Valid()
      ensures r <==> ShipSunk(Contents, shipIndex)
      ensures r <==> forall x, y :: InBounds(x, y) ==> Contents[x][y] != LiveId(shipIndex)
    {
      var index := shipIndex;
      if IsKilledShipIndex(index) {
        index := index - 10;
      }
      var count := GetShipPartsCount(index);
      r := count == 0;
      PartsCountZero(Contents, index);
    }

    /** HasAnyShip: asks ship by ship; true exactly when a live segment is on the board. */
    method HasAnyShip() returns (r: bool)
      requires Valid()
      ensures r <==> AnyShip(Contents)
    {
      AnyShipByIds(Contents);
      var index := 0;
      while index < 10
        invariant 0 <= index <= 10
        invariant forall i :: 0 <= i < index ==> ShipSunk(Contents, i)
      {
        var killed := IsShipKilled(index);
        if !killed {
          return true;
        }
        index := index + 1;
      }
      return false;
    }

    /** IsShipSetted: the code is a ship and exactly its required length is on the board. */
    method IsShipSetted(shipIndex: int) returns (r: bool)
      requires Valid()
      ensures r <==> ShipComplete(Contents, shipIndex)
    {
      if !IsShipIndex(shipIndex) {
        return false;
      }
      var count := GetShipPartsCount(shipIndex);
      r := count == ShipLength(shipIndex);
    }

    /** The first two loops of HasPlaceForShip: fitting cells from (x, y) rightwards,
        then from (x - 1, y) leftwards. */
    method RowRoom(x: int, y: int, typeIndex: int) returns (w: int)
      requires Valid() && InBounds(x, y)
      ensures w == RunFrom(Row(Contents, y), x, typeIndex) + RunBefore(Row(Contents, y), x, typeIndex)
    {
      ghost var row := Row(Contents, y);
      w := 0;
      var i := x;
      while i < 10 && Fits(cells[i, y], typeIndex)
        invariant x <= i <= 10 && w == i - x
        invariant RunFrom(row, x, typeIndex) == w + RunFrom(row, i, typeIndex)
      {
        w := w + 1;
        i := i + 1;
      }
      ghost var w1 := w;
      i := x - 1;
      while i >= 0 && Fits(cells[i, y], typeIndex)
        invariant -1 <= i <= x - 1 && w == w1 + (x - 1 - i)
        invariant RunBefore(row, x, typeIndex) == (x - 1 - i) + RunBefore(row, i + 1, typeIndex)
      {
        w := w + 1;
        i := i - 1;
      }
    }

    /** The last two loops of HasPlaceForShip: fitting cells from (x, y) upwards in
        y, then from (x, y - 1) downwards. */
    method ColumnRoom(x: int, y: int, typeIndex: int) returns (h: int)
      requires Valid() && InBounds(x, y)
      ensures h == RunFrom(Contents[x], y, typeIndex) + RunBefore(Contents[x], y, typeIndex)
    {
      ghost var col := Contents[x];
      h := 0;
      var i := y;
      while i < 10 && Fits(cells[x, i], typeIndex)
        invariant y <= i <= 10 && h == i - y
        invariant RunFrom(col, y, typeIndex) == h + RunFrom(col, i, typeIndex)
      {
        h := h + 1;
        i := i + 1;
      }
      ghost var h1 := h;
      i := y - 1;
      while i >= 0 && Fits(cells[x, i], typeIndex)
        invariant -1 <= i <= y - 1 && h == h1 + (y - 1 - i)
        invariant RunBefore(col, y, typeIndex) == (y - 1 - i) + RunBefore(col, i + 1, typeIndex)
      {
        h := h + 1;
        i := i - 1;
      }
    }

    /** HasPlaceForShip: the row through (x, y) has room for the ship, or else the column has. */
    method HasPlaceForShip(x: int, y: int, typeIndex: int) returns (r: bool)
      requires Valid() && InBounds(x, y)
      ensures r <==> HasPlace(Contents, x, y, typeIndex)
    {
      var neededSite := MaxShipSizeByIndex(typeIndex);
      var w := RowRoom(x, y, typeIndex);
      if w >= neededSite {
        return true;
      }
      var h := ColumnRoom(x, y, typeIndex);
      return h >= neededSite;
    }

    /** Shot: a shot at a cell that may be shot at hits a live segment (adding 10
        to its code, then revealing the surroundings if the ship is sunk) or
        misses; a cell that may not be shot at is left alone and counts as no hit. */
    method Shot(x: int, y: int) returns (hit: bool)
      requires Valid() && InBounds(x, y)
      modifies this, cells
      ensures Valid() && Fire(old(Contents), x, y) == ShotResult(Contents, hit)
    {
      if !CanBeShoted(x, y) {
        return false;
      }
      if cells[x, y] < 10 {
        Set(x, y, cells[x, y] + 10);
        MissAroundKilledShip(cells[x, y]);
        return true;
      } else {
        Set(x, y, MissField);
        return false;
      }
    }

    /** MissAroundKilledShip: once the ship with this hit code has no live segment
        left, MissAround at each of its cells, scanning row by row. */
    method MissAroundKilledShip(index: int)
      requires Valid() && IsKilledShipIndex(index)
      modifies this, cells
      ensures Valid() && Contents == SinkSweep(old(Contents), index)
    {
      var killed := IsShipKilled(index);
      if !killed {
        return;
      }
      ghost var g0 := Contents;
      var y := 0;
      while y < 10
        invariant 0 <= y <= 10 && Valid()
        invariant Contents == ScanTo(g0, index, BlockedField, MissField, y, 0)
      {
        var x := 0;
        while x < 10
          invariant 0 <= x <= 10 && Valid()
          invariant Contents == ScanTo(g0, index, BlockedField, MissField, y, x)
        {
          if cells[x, y] == index {
            MissAround(x, y);
          }
          x := x + 1;
        }
        y := y + 1;
      }
      ScanComplete(g0, index, BlockedField, MissField);
    }

    /** The guarded writes MissAround and BlockNeighbors make in column a next to
        row y: (a, y + 1), then (a, y - 1), then (a, y) when `centre` holds, each
        set to `to` if in bounds and holding at least lo. (BlockNeighbors tests
        for the empty code 255 with lo = 255, the largest byte.) */
    method MarkColumn(a: int, y: int, centre: bool, lo: int, to: int)
      requires Valid() && 0 <= a < 10 && 0 <= y < 10 && IsByte(to)
      modifies this, cells
      ensures Valid()
      ensures forall i, j :: InBounds(i, j) ==>
                Contents[i][j] == if i == a && (j == y + 1 || j == y - 1 || (centre && j == y)) && old(Contents)[i][j] >= lo
                                  then to else old(Contents)[i][j]
    {
      if y + 1 < 10 {
        MarkCell(a, y + 1, lo, to);
      }
      if y - 1 >= 0 {
        MarkCell(a, y - 1, lo, to);
      }
      if centre {
        MarkCell(a, y, lo, to);
      }
    }

    /** One guarded write: (a, b) is set to `to` if it holds at least lo. */
    method MarkCell(a: int, b: int, lo: int, to: int)
      requires Valid() && InBounds(a, b) && IsByte(to)
      modifies this, cells
      ensures Valid()
      ensures Contents == if old(Contents)[a][b] >= lo then SetCell(old(Contents), a, b, to) else old(Contents)
    {
      if cells[a, b] >= lo {
        Set(a, b, to);
      }
    }

    /** MissAround: every in-bounds neighbour of (x, y) that is blocked or empty becomes a miss. */
    method MissAround(x: int, y: int)
      requires Valid() && InBounds(x, y)
      modifies this, cells
      ensures Valid() && Contents == Surround(old(Contents), x, y, BlockedField, MissField, true)
    {
      ghost var g0 := Contents;
      var hasLeft := x - 1 >= 0;
      var hasRight := x + 1 < 10;
      if hasLeft {
        MarkColumn(x - 1, y, true, BlockedField, MissField);
      }
      if hasRight {
        MarkColumn(x + 1, y, true, BlockedField, MissField);
      }
      MarkColumn(x, y, false, BlockedField, MissField);
      GridExt(Contents, Surround(g0, x, y, BlockedField, MissField, true));
    }

    /** BlockNeighbors: the empty diagonal neighbours of (x, y) become blocked; then,
        if the ship whose code (x, y) holds is complete, the empty orthogonal ones too. */
    method BlockNeighbors(x: int, y: int)
      requires Valid() && InBounds(x, y)
      modifies this, cells
      ensures Valid() && Contents == Moves.BlockNeighbors(old(Contents), x, y)
    {
      ghost var g0 := Contents;
      var index := cells[x, y];
      BlockDiagonals(x, y);
      ghost var g1 := Contents;
      if IsShipIndex(index) {
        PartsCountSame(g0, g1, index);
      }
      var setted := IsShipSetted(index);
      if setted {
        BlockOrthogonals(x, y);
        SurroundTwice(g0, x, y, EmptyField, BlockedField);
      }
    }

    /** The first half of BlockNeighbors: the empty diagonal neighbours become blocked. */
    method BlockDiagonals(x: int, y: int)
      requires Valid() && InBounds(x, y)
      modifies this, cells
      ensures Valid() && Contents == Surround(old(Contents), x, y, EmptyField, BlockedField, false)
    {
      ghost var g0 := Contents;
      if x - 1 >= 0 {
        MarkColumn(x - 1, y, false, EmptyField, BlockedField);
      }
      if x + 1 < 10 {
        MarkColumn(x + 1, y, false, EmptyField, BlockedField);
      }
      GridExt(Contents, Surround(g0, x, y, EmptyField, BlockedField, false));
    }

    /** The second half, once no diagonal neighbour is empty: the empty orthogonal
        neighbours become blocked, left, then below and above, then right. */
    method BlockOrthogonals(x: int, y: int)
      requires Valid() && InBounds(x, y)
      requires forall a, b :: Touches(x, y, a, b, false) ==> Contents[a][b] != EmptyField
      modifies this, cells
      ensures Valid() && Contents == Surround(old(Contents), x, y, EmptyField, BlockedField, true)
    {
      ghost var g0 := Contents;
      if x - 1 >= 0 {
        MarkCell(x - 1, y, EmptyField, BlockedField);
      }
      MarkColumn(x, y, false, EmptyField, BlockedField);
      if x + 1 < 10 {
        MarkCell(x + 1, y, EmptyField, BlockedField);
      }
      GridExt(Contents, Surround(g0, x, y, EmptyField, BlockedField, true));
    }

    /** BlockShipNeighbors: for a complete ship, BlockNeighbors at each of its
        cells, scanning row by row; nothing for an incomplete one. */
    method BlockShipNeighbors(index: int)
      requires Valid()
      modifies this, cells
      ensures Valid() && Contents == BlockShip(old(Contents), index)
    {
      var setted := IsShipSetted(index);
      if !setted {
        return;
      }
      ghost var g0 := Contents;
      var y := 0;
      while y < 10
        invariant 0 <= y <= 10 && Valid()
        invariant Contents == ScanTo(g0, index, EmptyField, BlockedField, y, 0)
      {
        var x := 0;
        while x < 10
          invariant 0 <= x <= 10 && Valid()
          invariant Contents == ScanTo(g0, index, EmptyField, BlockedField, y, x)
        {
          if cells[x, y] == index {
            ScanKeepsComplete(g0, index, y, x);
            BlockNeighbors(x, y);
          }
          x := x + 1;
        }
        y := y + 1;
      }
      ScanComplete(g0, index, EmptyField, BlockedField);
    }

    /** ToString: each cell's decimal code followed by '|', row by row, with the
        trailing '|' trimmed. */
    method ToString() returns (s: string)
      requires Valid()
      ensures s == Serialize(Contents)
    {
      ghost var fs := Fields(Contents);
      var data := "";
      var y := 0;
      while y < 10
        invariant 0 <= y <= 10
        invariant data == Terminated(fs[..y * 10], Sep)
      {
        var x := 0;
        while x < 10
          invariant 0 <= x <= 10
          invariant data == Terminated(fs[..y * 10 + x], Sep)
        {
          TerminatedSnoc(fs, y * 10 + x, Sep);
          FieldAt(Contents, x, y);
          data := data + NatToText(cells[x, y]) + [Sep];
          x := x + 1;
        }
        assert y * 10 + 10 == (y + 1) * 10;
        y := y + 1;
      }
      assert fs[..100] == fs;
      FieldsHaveNoSep(Contents);
      TrimTerminated(fs, Sep);
      s := Trim(data, Sep);
    }
  }
}
