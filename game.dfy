/**
 * The game as one player's window sees it: the own board, what is known of the
 * opponent's board, the ship being placed, the turn and readiness flags, and
 * the texts written to the pipe. Each handler of the window is a function from
 * one view to the next; class MainForm (module Coordinator) is proved to
 * follow them, and the lemmas here state what two windows exchanging messages
 * keep in common.
 */
module Game {
  import opened Wrappers
  import opened Board
  import opened Moves
  import opened Codec
  import opened Protocol

  datatype View = View(
    own: Grid,            // playerMap
    enemy: Grid,          // enemyMap
    shipIndex: int,       // the ship being placed; 10 once all are placed
    enemyReady: bool,     // IsEnemyReady
    ready: bool,          // IsReady
    ended: bool,          // GameEnded
    looser: bool,         // Looser
    turn: bool,           // IsPlayerTurn
    sent: seq<string>)    // every text sent so far, oldest first

  /** What holds of every view a window can be in: the player is ready exactly
      when all ten ships are placed, sends nothing before, and knows nothing of
      the opponent's board before the opponent's ready message. */
  ghost predicate Consistent(v: View) {
    && IsGrid(v.own) && IsGrid(v.enemy)
    && 0 <= v.shipIndex <= 10
    && (v.ready <==> v.shipIndex == 10)
    && (!v.ready ==> v.sent == [])
    && (!v.enemyReady ==> v.enemy == EmptyGrid())
  }

  /** A new window: empty boards, the first ship to place, nothing sent. */
  ghost function Start(firstMover: bool): (v: View)
    ensures Consistent(v) && SetupBoard(v.own, v.shipIndex)
  {
    SetupStart(EmptyGrid());
    View(EmptyGrid(), EmptyGrid(), 0, false, false, false, false, firstMover, [])
  }

  /** SeveralPanel_Click(x, y): during setup and on the player's turn, a cell
      that passes the placement checks receives a segment of the current ship.
      A completed ship moves the setup on to the next one; after the tenth the
      player is ready, hands the turn over and sends the board. */
  ghost function PlaceClick(v: View, x: int, y: int): (w: View)
    requires Consistent(v) && InBounds(x, y)
    ensures Consistent(w)
    ensures w.enemy == v.enemy && w.enemyReady == v.enemyReady && w.ended == v.ended && w.looser == v.looser
    ensures w.shipIndex == v.shipIndex || (w.shipIndex == v.shipIndex + 1 && ShipComplete(w.own, v.shipIndex))
    ensures w.sent == if w.ready && !v.ready then v.sent + [Encode(Ready(w.own))] else v.sent
    ensures w.ready && !v.ready ==> !w.turn
    ensures v.ready || !v.turn || !CanPlace(v.own, x, y, v.shipIndex) ==> w == v
    ensures !v.ready && v.turn && CanPlace(v.own, x, y, v.shipIndex) ==> w.own == PlaceSegment(v.own, x, y, v.shipIndex)
    ensures !v.ready && v.turn && CanPlace(v.own, x, y, v.shipIndex) && !w.ready ==> w.turn
  {
    if v.ready || !v.turn || !CanPlace(v.own, x, y, v.shipIndex) then v
    else
      var k := v.shipIndex;
      var r := PlaceSegment(v.own, x, y, k);
      var next := if ShipComplete(r, k) then k + 1 else k;
      var done := next == 10;
      v.(own := r, shipIndex := next, ready := done, turn := !done,
         sent := v.sent + if done then [Encode(Ready(r))] else [])
  }

  /** EnemyPanel_Click(x, y): once both players are ready and it is the
      player's turn, a shot at a cell that may be shot at is sent and applied to
      the picture of the opponent's board; the player keeps the turn after a
      hit, and the game ends, won, when no live segment is left. */
  ghost function ShootClick(v: View, x: int, y: int): (w: View)
    requires Consistent(v) && InBounds(x, y)
    ensures Consistent(w)
    ensures w.own == v.own && w.shipIndex == v.shipIndex && w.ready == v.ready && w.enemyReady == v.enemyReady
    ensures !(v.ready && v.enemyReady && v.turn && CanBeShoted(v.enemy, x, y)) ==> w == v
    ensures v.ready && v.enemyReady && v.turn && CanBeShoted(v.enemy, x, y) ==>
              w.sent == v.sent + [Encode(Shot(x, y))] && w.enemy == Fire(v.enemy, x, y).grid
  {
    if !v.ready || !v.enemyReady || !v.turn || !CanBeShoted(v.enemy, x, y) then v
    else
      var f := Fire(v.enemy, x, y);
      var ended := !AnyShip(f.grid);
      v.(enemy := f.grid, sent := v.sent + [Encode(Shot(x, y))],
         turn := f.hit && !ended, ended := ended, looser := if ended then false else v.looser)
  }

  /** The view after a received text, and whether OnRecieve returns normally
      (false where the original throws, which ends the reading thread). */
  datatype Reception = Reception(view: View, completed: bool)

  /** OnRecieve(message), given what Classify makes of the message: blank and
      unknown texts, a repeated ready and a shot on the player's turn are
      ignored. The first ready message makes the opponent ready, gives the
      player the turn and reads the opponent's board from it; a board that does
      not decode throws after the flags are set. A shot, when it is not the
      player's turn, throws if its coordinates do not parse, is ignored at a
      cell that may not be shot at, and is otherwise applied to the own board;
      the opponent keeps the turn after a hit, and the game ends, lost, when no
      live segment is left. */
  ghost function Receive(v: View, m: Incoming): (r: Reception)
    requires Consistent(v)
    ensures Consistent(r.view)
    ensures r.view.shipIndex == v.shipIndex && r.view.ready == v.ready && r.view.sent == v.sent
    ensures m.Blank? || m.Unrecognised? || (m.ReadyWith? && v.enemyReady) || (m.ShotAt? && v.turn) ==>
              r == Reception(v, true)
    ensures m.ReadyWith? && !v.enemyReady ==>
              && r.view == v.(enemy := r.view.enemy, enemyReady := true, turn := true)
              && r.completed == Decode(m.payload).Some?
              && r.view.enemy == if r.completed then Decode(m.payload).value else v.enemy
    ensures m.ShotAt? && !v.turn && (m.coords.None? || !InBounds(m.coords.value.0, m.coords.value.1)) ==>
              r == Reception(v, false)
    ensures m.ShotAt? && !v.turn && m.coords.Some? && InBounds(m.coords.value.0, m.coords.value.1) ==>
              var (x, y) := m.coords.value;
              var f := Fire(v.own, x, y);
              if !CanBeShoted(v.own, x, y) then r == Reception(v, true)
              else
                && r.completed
                && r.view == v.(own := f.grid, turn := r.view.turn, ended := r.view.ended, looser := r.view.looser)
                && (r.view.ended <==> !AnyShip(f.grid))
                && (r.view.turn <==> !f.hit && !r.view.ended)
                && r.view.looser == (r.view.ended || v.looser)
  {
    match m
    case Blank => Reception(v, true)
    case Unrecognised => Reception(v, true)
    case ReadyWith(payload) =>
      if v.enemyReady then Reception(v, true)
      else
        var w := v.(enemyReady := true, turn := true);
        (match Decode(payload)
         case Some(g) => Reception(w.(enemy := g), true)
         case None => Reception(w, false))
    case ShotAt(coords) =>
      if v.turn then Reception(v, true)
      else if coords.None? || !InBounds(coords.value.0, coords.value.1) then Reception(v, false)
      else
        var (x, y) := coords.value;
        if !CanBeShoted(v.own, x, y) then Reception(v, true)
        else
          var f := Fire(v.own, x, y);
          var ended := !AnyShip(f.grid);
          Reception(v.(own := f.grid, turn := !f.hit && !ended, ended := ended,
                       looser := if ended then true else v.looser), true)
  }

  // ---------------------------------------------------------------- invariants

  /** Placement keeps the own board a valid setup: ships before the current one
      complete, the current one partial, no two ships touching, every empty cell
      clear of the placed ships. When the tenth ship is placed the whole fleet
      is on the board. */
  lemma PlaceKeepsSetup(v: View, x: int, y: int)
    requires Consistent(v) && InBounds(x, y) && (!v.ready ==> SetupBoard(v.own, v.shipIndex))
    ensures var w := PlaceClick(v, x, y);
            && (!w.ready ==> SetupBoard(w.own, w.shipIndex))
            && (w.ready && !v.ready ==>
                  AnyShip(w.own) && forall i :: IsShipIndex(i) ==> ShipComplete(w.own, i) && Straight(w.own, i))
  {
    var w := PlaceClick(v, x, y);
    if !v.ready && v.turn && CanPlace(v.own, x, y, v.shipIndex) {
      var k := v.shipIndex;
      var r := PlaceSegment(v.own, x, y, k);
      var next := if ShipComplete(r, k) then k + 1 else k;
      assert w.own == r && w.shipIndex == next && (w.ready <==> next == 10);
      SetupStep(v.own, x, y, k);
      if next == 10 {
        SetupDone(r);
      }
    }
  }

  /** A shot that is fired ends the game exactly when it hits the last live
      segment of the opponent's fleet, and at once, even on a miss, when the
      picture of that board holds no live segment; the player keeps the turn
      exactly when it hits a live segment and the game goes on; a finished game
      is nobody's turn. */
  lemma ShotOutcome(v: View, x: int, y: int)
    requires Consistent(v) && InBounds(x, y)
    requires v.ready && v.enemyReady && v.turn && CanBeShoted(v.enemy, x, y)
    ensures var w := ShootClick(v, x, y);
            && (AnyShip(v.enemy) ==> (w.ended <==>
                  IsShipIndex(v.enemy[x][y]) &&
                  forall a, b :: InBounds(a, b) && (a != x || b != y) ==> !IsShipIndex(v.enemy[a][b])))
            && (!AnyShip(v.enemy) ==> w.ended)
            && (w.turn <==> IsShipIndex(v.enemy[x][y]) && !w.ended)
            && (w.ended ==> !w.turn && !w.looser)
  {
    FireEndsFleet(v.enemy, x, y);
  }

  // ---------------------------------------------------------------- two windows

  /** The ready message a player sends when the tenth ship is placed reaches
      an opponent who is not yet aware of it as that player's own board, and
      gives the opponent the turn. */
  lemma ReadyDelivered(a: View, b: View, x: int, y: int)
    requires Consistent(a) && Consistent(b) && InBounds(x, y)
    requires !b.enemyReady
    requires var a1 := PlaceClick(a, x, y); a1.ready && !a.ready
    ensures var a1 := PlaceClick(a, x, y);
            var r := Receive(b, Classify(a1.sent[|a1.sent| - 1]));
            && r.completed
            && r.view == b.(enemy := a1.own, enemyReady := true, turn := true)
  {
    var a1 := PlaceClick(a, x, y);
    assert a1.sent[|a1.sent| - 1] == Encode(Ready(a1.own));
    ReadyCarriesBoard(a1.own);
  }

  /** A shot exchange keeps the two windows in step: if the shooter's picture
      of the opponent's board is the opponent's own board, it still is after the
      shot text is received; both agree on whether the game ended, the winner is
      not the loser, and while the game goes on exactly one of them has the turn. */
  lemma ShotKeepsStep(a: View, b: View, x: int, y: int)
    requires Consistent(a) && Consistent(b) && InBounds(x, y)
    requires a.enemy == b.own && !b.turn
    requires a.ready && a.enemyReady && a.turn && CanBeShoted(a.enemy, x, y)
    ensures var a1 := ShootClick(a, x, y);
            var r := Receive(b, Classify(a1.sent[|a1.sent| - 1]));
            && r.completed
            && r.view.own == a1.enemy
            && r.view.ended == a1.ended
            && (a1.ended ==> !a1.turn && !r.view.turn && !a1.looser && r.view.looser)
            && (!a1.ended ==> (a1.turn <==> !r.view.turn))
  {
    var a1 := ShootClick(a, x, y);
    assert a1.sent[|a1.sent| - 1] == Encode(Shot(x, y));
    ClassifyEncode(Shot(x, y));
  }

  // ---------------------------------------------------------------- the whole game

  /** What one window knows of the other: the opponent is ready exactly when
      the other window is, and from then on the picture of the opponent's board
      is that board; a player who is ready before the opponent does not have
      the turn; nobody has lost while the game goes on. */
  ghost predicate Knows(a: View, b: View) {
    && (a.enemyReady <==> b.ready)
    && (a.enemyReady ==> a.enemy == b.own)
    && (a.ready && !a.enemyReady ==> !a.turn)
    && (!a.ended ==> !a.looser)
  }

  /** Two windows playing one game, with every text sent so far received:
      each knows the other, they agree on whether the game has ended, exactly
      one of them has the turn while it goes on, and afterwards neither has it
      and exactly one of them has lost. */
  ghost predicate Paired(a: View, b: View) {
    && Consistent(a) && Consistent(b)
    && Knows(a, b) && Knows(b, a)
    && a.ended == b.ended
    && (!a.ended ==> a.turn != b.turn)
    && (a.ended ==> !a.turn && !b.turn && a.looser != b.looser)
  }

  /** The other window's reception of what a window sent during one action
      (a0 before, a1 after), if it sent anything. */
  ghost function Deliver(a0: View, a1: View, b: View): Reception
    requires Consistent(b)
  {
    if |a1.sent| <= |a0.sent| then Reception(b, true)
    else Receive(b, Classify(a1.sent[|a1.sent| - 1]))
  }

  /** Two new windows, one of them the first mover, are paired. */
  lemma PairedStart()
    ensures Paired(Start(true), Start(false))
  {
  }

  /** A placement click in either window, followed by the delivery of the ready
      text it may send, keeps the two windows paired. */
  lemma PairedPlace(a: View, b: View, x: int, y: int)
    requires Paired(a, b) && InBounds(x, y)
    ensures var a1 := PlaceClick(a, x, y);
            var r := Deliver(a, a1, b);
            r.completed && Paired(a1, r.view)
  {
    var a1 := PlaceClick(a, x, y);
    if a1.ready && !a.ready {
      ReadyDelivered(a, b, x, y);
    }
  }

  /** A shot click in either window, followed by the delivery of the shot text,
      keeps the two windows paired. */
  lemma PairedShoot(a: View, b: View, x: int, y: int)
    requires Paired(a, b) && InBounds(x, y)
    ensures var a1 := ShootClick(a, x, y);
            var r := Deliver(a, a1, b);
            r.completed && Paired(a1, r.view)
  {
    if a.ready && a.enemyReady && a.turn && CanBeShoted(a.enemy, x, y) {
      ShotKeepsStep(a, b, x, y);
    }
  }
}
