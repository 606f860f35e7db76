/**
 * The game state of one player's window (class MainForm): the own board
 * being set up and later shot at, the opponent's board as far as it is
 * known, the ship being placed, and the flags that decide whose turn it is.
 * Only the state logic of the three handlers is modelled, each proved to
 * follow its function in module Game; the text written to the pipe is
 * collected in `sent`.
 */
module Coordinator {
  import opened Wrappers
  import opened Board
  import opened Moves
  import opened Text
  import opened Codec
  import opened Protocol
  import opened Engine
  import opened Game

  class MainForm {
    var playerMap: Map
    var enemyMap: Map
    /** The ship being placed; 10 once all are placed. */
    var shipIndex: int
    var isEnemyReady: bool
    var isReady: bool
    var gameEnded: bool
    var looser: bool
    var isPlayerTurn: bool
    /** Every text written to the pipe so far, oldest first. */
    var sent: seq<string>

    /** The window's state as a value. */
    ghost function Snapshot(): View
      reads this, playerMap, enemyMap
    {
      View(playerMap.Contents, enemyMap.Contents, shipIndex, isEnemyReady, isReady,
           gameEnded, looser, isPlayerTurn, sent)
    }

    ghost predicate Valid()
      reads this, playerMap, enemyMap, playerMap.cells, enemyMap.cells
    {
      && playerMap.Valid() && enemyMap.Valid()
      && playerMap != enemyMap && playerMap.cells != enemyMap.cells
      && Consistent(Snapshot())
    }

    /** The window's initial state; the first of the two instances moves first. */
    constructor (firstMover: bool)
      ensures Valid() && fresh(playerMap) && fresh(enemyMap) && fresh(playerMap.cells) && fresh(enemyMap.cells)
      ensures Snapshot() == Start(firstMover)
    {
      playerMap := new Map();
      enemyMap := new Map();
      shipIndex := 0;
      isEnemyReady, isReady, gameEnded, looser := false, false, false, false;
      isPlayerTurn := firstMover;
      sent := [];
    }

    /** SeveralPanel_Click on own cell (x, y). */
    method SeveralPanelClick(x: int, y: int)
      requires Valid() && InBounds(x, y)
      modifies this, playerMap, playerMap.cells
      ensures Valid() && playerMap == old(playerMap) && enemyMap == old(enemyMap)
      ensures Snapshot() == PlaceClick(old(Snapshot()), x, y)
    {
      if isReady || !isPlayerTurn {
        return;
      }
      var accepted := PlacementAllowed(x, y);
      if accepted {
        ghost var g, k := playerMap.Contents, shipIndex;
        WriteSegment(x, y);
        ghost var g1 := playerMap.Contents;
        BlockShipKeepsComplete(g1, k);
        FinishSegment();
        assert playerMap.Contents == PlaceSegment(g, x, y, k);
      }
    }

    /** The checks SeveralPanel_Click makes before placing: the cell is empty,
        the ship fits through it, and a ship already begun is extended next to
        one of its segments. */
    method PlacementAllowed(x: int, y: int) returns (accepted: bool)
      requires Valid() && InBounds(x, y) && !isReady
      ensures accepted <==> CanPlace(playerMap.Contents, x, y, shipIndex)
    {
      var parts := playerMap.GetShipPartsCount(shipIndex);
      var setStarted := parts > 0;
      var place := false;
      if playerMap.Get(x, y) == EmptyField {
        place := playerMap.HasPlaceForShip(x, y, shipIndex);
      }
      accepted := place;
      if place && setStarted {
        accepted := playerMap.IsNear(x, y, shipIndex);
      }
    }

    /** The first half of an accepted placement: the segment is written and the
        cells around it blocked. */
    method WriteSegment(x: int, y: int)
      requires Valid() && InBounds(x, y) && !isReady
      modifies playerMap, playerMap.cells
      ensures Valid()
      ensures playerMap.Contents == Moves.BlockNeighbors(SetCell(old(playerMap.Contents), x, y, shipIndex), x, y)
    {
      playerMap.Set(x, y, shipIndex);
      playerMap.BlockNeighbors(x, y);
    }

    /** The second half: a ship that is now complete gets its surroundings blocked
        and the setup moves on to the next ship; after the tenth the player is
        ready, hands the turn over and sends the board. */
    method FinishSegment()
      requires Valid() && !isReady && isPlayerTurn
      modifies this, playerMap, playerMap.cells
      ensures Valid()
      ensures playerMap == old(playerMap) && enemyMap == old(enemyMap)
      ensures isEnemyReady == old(isEnemyReady) && gameEnded == old(gameEnded) && looser == old(looser)
      ensures var g1, k := old(playerMap.Contents), old(shipIndex);
              var r := BlockShip(g1, k);
              && playerMap.Contents == r
              && shipIndex == (if ShipComplete(g1, k) then k + 1 else k)
              && isReady == (shipIndex == 10)
              && isPlayerTurn == !isReady
              && sent == old(sent) + (if isReady then [Encode(Ready(r))] else [])
    {
      var setted := playerMap.IsShipSetted(shipIndex);
      if setted {
        playerMap.BlockShipNeighbors(shipIndex);
        shipIndex := shipIndex + 1;
        if !IsShipIndex(shipIndex) {
          isReady := true;
          isPlayerTurn := false;
          SendReady();
        }
      }
    }

    /** EnemyPanel_Click on the opponent's cell (x, y). */
    method EnemyPanelClick(x: int, y: int)
      requires Valid() && InBounds(x, y)
      modifies this, enemyMap, enemyMap.cells
      ensures Valid() && playerMap == old(playerMap) && enemyMap == old(enemyMap)
      ensures Snapshot() == ShootClick(old(Snapshot()), x, y)
    {
      if !isReady || !isEnemyReady || !isPlayerTurn {
        return;
      }
      if !enemyMap.CanBeShoted(x, y) {
        return;
      }
      sent := sent + ["shot|" + NatToText(x) + "|" + NatToText(y)];
      var hit := enemyMap.Shot(x, y);
      isPlayerTurn := hit;
      var any := enemyMap.HasAnyShip();
      gameEnded := !any;
      if gameEnded {
        isPlayerTurn := false;
        looser := false;
      }
    }

    /** OnRecieve(message); `completed` is false where the original throws,
        which ends the thread reading the pipe. */
    method OnRecieve(message: string) returns (completed: bool)
      requires Valid()
      modifies this, playerMap, playerMap.cells
      ensures Valid() && playerMap == old(playerMap)
      ensures enemyMap == old(enemyMap) || (fresh(enemyMap) && fresh(enemyMap.cells))
      ensures Receive(old(Snapshot()), Classify(message)) == Reception(Snapshot(), completed)
    {
      match Classify(message)
      case Blank =>
        completed := true;
      case Unrecognised =>
        completed := true;
      case ReadyWith(payload) =>
        completed := ReceiveReady(payload);
      case ShotAt(coords) =>
        completed := ReceiveShot(coords);
    }

    /** A ready message carrying the opponent's board text. */
    method ReceiveReady(payload: string) returns (completed: bool)
      requires Valid()
      modifies this
      ensures Valid() && playerMap == old(playerMap)
      ensures enemyMap == old(enemyMap) || (fresh(enemyMap) && fresh(enemyMap.cells))
      ensures Receive(old(Snapshot()), ReadyWith(payload)) == Reception(Snapshot(), completed)
    {
      if isEnemyReady {
        return true;
      }
      isEnemyReady := true;
      isPlayerTurn := true;
      var m := Map.FromText(payload);
      if m.None? {
        return false;
      }
      enemyMap := m.value;
      completed := true;
    }

    /** A shot message with its parsed coordinates, None where parsing throws. */
    method ReceiveShot(coords: Option<(nat, nat)>) returns (completed: bool)
      requires Valid()
      modifies this, playerMap, playerMap.cells
      ensures Valid() && playerMap == old(playerMap) && enemyMap == old(enemyMap)
      ensures Receive(old(Snapshot()), ShotAt(coords)) == Reception(Snapshot(), completed)
    {
      if isPlayerTurn {
        return true;
      }
      if coords.None? || !InBounds(coords.value.0, coords.value.1) {
        return false;
      }
      var (x, y) := coords.value;
      if !playerMap.CanBeShoted(x, y) {
        return true;
      }
      var hit := playerMap.Shot(x, y);
      isPlayerTurn := !hit;
      var any := playerMap.HasAnyShip();
      gameEnded := !any;
      if gameEnded {
        looser := true;
        isPlayerTurn := false;
      }
      completed := true;
    }

    /** Send("ready|" + playerMap.ToString()). */
    method SendReady()
      requires playerMap.Valid()
      modifies this
      ensures playerMap == old(playerMap) && enemyMap == old(enemyMap) && shipIndex == old(shipIndex)
      ensures isEnemyReady == old(isEnemyReady) && isReady == old(isReady) && gameEnded == old(gameEnded)
      ensures looser == old(looser) && isPlayerTurn == old(isPlayerTurn)
      ensures sent == old(sent) + [Encode(Ready(playerMap.Contents))]
    {
      var text := playerMap.ToString();
      sent := sent + ["ready|" + text];
    }
  }
}
