# SeaBattle board engine and turn coordinator in Dafny

A model of the core of SeaBattleNextGen, a two-player sea battle game in which
two copies of the program exchange short text messages over a pair of named
pipes. Each copy owns its board (class `Map`, a 10 x 10 array of byte cell
codes) and a picture of the opponent's board, and runs a small state machine
(the flags of `MainForm`) that decides who may place or fire next.

Cell codes: 0–9 is a live segment of ship 0–9, 10–19 a hit segment of that ship,
253 a recorded miss, 254 a cell blocked during placement, 255 an empty cell.
The fleet is one ship of length 4, two of 3, three of 2 and four of 1, placed in
that order.

Modules, leaves first:

- `Board`: the board as a value (`seq<seq<int>>`, indexed `g[x][y]` like the
  original's `byte[x, y]`), the cell codes, the fleet table, segment counting
  in the column-major order `GetShipPartsCount` uses, adjacency (`Near`, what
  `IsNear` answers) and the free runs behind `HasPlaceForShip`.
- `Marking`: writing over the neighbours of one cell (`Surround`), the row-major
  scan over every cell of a ship (`ScanTo`), its order-independent result
  (`Spread`), and the proof that the two agree.
- `Moves`: shot resolution (`Fire`) with the sweep that reveals the misses around
  a sunk ship, blocking around placed segments and complete ships, the
  placement step, and the setup invariant that placement keeps, including
  that every ship lies straight in one row or column.
- `Text` and `Codec`: decimal text, `Split`/`Join`/`Trim`, and the board's text
  form (row by row, fields separated by `|`) with its decoder.
- `Engine`: class `Map` itself, with the array updated in place and every
  method proved against the board function that specifies it.
- `Protocol`: the messages `ready|<board>` and `shot|x|y`, and how a received
  text is classified.
- `Game`: one window's state as a value, each handler as a function on it, and
  the two-window invariant that every exchange keeps.
- `Coordinator`: class `MainForm`, whose handlers are proved to follow the
  `Game` functions.

The window's first-mover flag, which the original derives from the number of
running processes, is a constructor parameter. The texts passed to `Send` are
collected in the field `sent`. `OnRecieve` returns `completed`, which is false
where the original throws an exception; that exception ends the reader thread.

The intended protocol lets only the peer chosen to move first take the turn
when the opponent's `ready` arrives. The code (`MainForm.cs:342-350`) gives the
turn to whichever peer receives the first `ready`, and the model follows the
code. Because a player may place ships only on their own turn, that peer is
always the one still placing. `Game.Paired` and the lemmas beside it show that
exactly one window holds the turn in spite of this difference.

## Model

| member | source | states |
|---|---|---|
| Board.IsShipIndex | SeaBattleNextGen/Map.cs:106-109 | a code is a live segment exactly when it is 0–9; such a code is a byte distinct from the miss, blocked and empty codes |
| Board.IsKilledShipIndex | SeaBattleNextGen/Map.cs:114-117 | a code is a hit segment exactly when it is 10–19, that is, a live code plus 10; such a code is a byte and never a live code |
| Board.MaxShipSizeByIndex | SeaBattleNextGen/Map.cs:245-253 | a live or hit code maps to its ship's length from the fleet table; any other code to 0 |
| Board.AnyShipByIds | SeaBattleNextGen/Map.cs:169-175 | asking ship by ship whether a live segment is left agrees with "some cell holds a live segment" |
| Board.PartsCountZero | SeaBattleNextGen/Map.cs:232-240 | the segment count of a code is 0 exactly when no cell holds it |
| Board.PartsCountSame | SeaBattleNextGen/Map.cs:232-240 | two boards with the code in the same cells have the same count |
| Board.PartsCountUpdate | SeaBattleNextGen/Map.cs:232-240 | writing one cell moves a count by exactly what was removed and what was written there |
| Board.RunFrom | SeaBattleNextGen/Map.cs:305-306 | the run counted upwards from a cell is maximal: all its cells fit, and the cell after it does not |
| Board.RunBefore | SeaBattleNextGen/Map.cs:307-308 | the run counted downwards below a cell is maximal in the same sense |
| Board.HasPlaceMeaning | SeaBattleNextGen/Map.cs:300-319 | at a cell that fits, HasPlaceForShip holds exactly when a row or column window of the ship's length through the cell is free or already that ship's |
| Marking.ScanComplete | SeaBattleNextGen/Map.cs:180-189 | the row-major scan that surrounds every cell holding a code ends on the order-independent result: each eligible cell next to the code is overwritten |
| Marking.ScanClosedForm | SeaBattleNextGen/Map.cs:323-332 | after each step of the scan, exactly the eligible cells next to an already visited cell of the code have been overwritten |
| Marking.SurroundTwice | SeaBattleNextGen/Map.cs:339-385 | blocking the diagonal neighbours and then all neighbours is the same as blocking all neighbours |
| Moves.Fire | SeaBattleNextGen/Map.cs:133-153 | a shot the board forbids changes nothing and misses; a shot hits exactly when the cell holds a live segment; a legal shot that does not hit records a miss at that cell and changes nothing else |
| Moves.FireMonotone | SeaBattleNextGen/Map.cs:133-153 | a hit adds 10 to the shot cell; apart from that cell a shot only turns blocked or empty cells into misses; every cell changes by a legal step; no cell becomes blocked or empty |
| Moves.FireAfloat | SeaBattleNextGen/Map.cs:133-153 | a hit that leaves another segment of the ship afloat changes only the shot cell |
| Moves.FireSinks | SeaBattleNextGen/Map.cs:133-153 | a hit on a ship's last live segment also turns every blocked or empty neighbour of the ship's hit cells into a miss, and nothing else |
| Moves.FireEndsFleet | SeaBattleNextGen/Map.cs:169-175 | the fleet goes from afloat to gone exactly when the shot hits the last live segment on the board; a gone fleet stays gone |
| Moves.SinkSweepEffect | SeaBattleNextGen/Map.cs:180-189 | the sweep changes nothing while the ship floats; once it is sunk, the blocked or empty cells next to its hit cells become misses |
| Moves.SinkSweepOnlyBlanks | SeaBattleNextGen/Map.cs:180-227 | the sweep only ever turns blocked or empty cells into misses |
| Moves.BlockNeighbors | SeaBattleNextGen/Map.cs:339-385 | only empty neighbours become blocked; every empty diagonal neighbour does; every empty orthogonal one does exactly when the cell's ship is complete |
| Moves.BlockShipEffect | SeaBattleNextGen/Map.cs:323-332 | for a complete ship exactly the empty cells next to it become blocked; an incomplete ship changes nothing |
| Moves.BlockShipKeepsComplete | SeaBattleNextGen/Map.cs:323-332 | blocking around a ship neither completes nor breaks it |
| Moves.ScanKeepsComplete | SeaBattleNextGen/Map.cs:323-332 | every intermediate board of the blocking scan still has the ship complete |
| Moves.PlaceSegmentEffect | SeaBattleNextGen/MainForm.cs:163-182 | an accepted placement writes the ship at the cell and otherwise only blocks empty cells, so the ship grows by one and no other ship's count moves; no diagonal neighbour of the new segment is left empty |
| Moves.SetupStart | SeaBattleNextGen/Map.cs:75-85 | the empty board satisfies the setup invariant for the first ship |
| Moves.SetupStep | SeaBattleNextGen/MainForm.cs:161-182 | every accepted placement keeps the setup invariant: earlier ships complete, the current one not yet complete, every ship straight (one row or one column, no gaps), no two ships touching, no empty cell touching a complete ship or diagonally next to the current one. The setup moves to the next ship exactly when the current one completes |
| Moves.SetupDone | SeaBattleNextGen/MainForm.cs:176-188 | when the setup invariant holds with all ten ships placed, each ship is complete and straight, and live segments are on the board |
| Moves.GrownStraight | SeaBattleNextGen/MainForm.cs:163-170 | a segment written next to its begun ship, whose diagonal neighbours are not empty, keeps the ship in one row or column without gaps |
| Moves.GrownDiagonals | SeaBattleNextGen/Map.cs:339-385 | blocking the diagonals of each new segment keeps every diagonal neighbour of the ship being placed non-empty |
| Moves.GrownNoTouch | SeaBattleNextGen/MainForm.cs:163-170 | writing ship k at an empty cell that touches no complete ship, with only ships up to k on the board, keeps different ships from touching |
| Moves.BlockedClear | SeaBattleNextGen/MainForm.cs:174-176 | after blocking around a complete ship no empty cell touches it |
| Text.ParseNatOfText | SeaBattleNextGen/MainForm.cs:357-359 | a number's decimal text parses back to the number |
| Text.TextOfParseNat | SeaBattleNextGen/MainForm.cs:357-359 | a digit text without a leading zero is the decimal text of the number it parses to |
| Text.ParseByteOfText | SeaBattleNextGen/Map.cs:90-101 | a byte's decimal text converts back to the byte |
| Text.SplitJoin | SeaBattleNextGen/Map.cs:93 | splitting fields joined by a separator they do not contain gives the fields back |
| Text.TrimTerminated | SeaBattleNextGen/Map.cs:390-399 | trimming the separator from fields each followed by it gives the fields joined by it |
| Codec.DecodeFields | SeaBattleNextGen/Map.cs:90-101 | the board reads successfully exactly when there are at least 100 fields and the first 100 are bytes; cell (x, y) is field y * 10 + x |
| Codec.DecodeFieldsOf | SeaBattleNextGen/Map.cs:90-101 | fields in which each cell's field parses to that cell of a board read back as exactly that board |
| Codec.DecodeSerialize | SeaBattleNextGen/Map.cs:90-101 | reading the text ToString writes gives the same board back |
| Codec.DecodeIgnoresTail | SeaBattleNextGen/Map.cs:93-100 | fields after the first hundred are ignored |
| Engine.Map.constructor | SeaBattleNextGen/Map.cs:75-85 | a fresh array with every cell empty |
| Engine.Map.FromText | SeaBattleNextGen/Map.cs:90-101 | fails exactly when the text does not decode; otherwise a fresh map holding the decoded board |
| Engine.Map.Get | SeaBattleNextGen/Map.cs:60-70 | the indexer reads the board's cell, a byte |
| Engine.Map.Set | SeaBattleNextGen/Map.cs:60-70 | the indexer writes one cell and nothing else |
| Engine.Map.CanBeShoted | SeaBattleNextGen/Map.cs:122-128 | true exactly when the cell is neither a hit segment nor a recorded miss |
| Engine.Map.Shot | SeaBattleNextGen/Map.cs:133-153 | the board afterwards and the hit flag are those of Fire on the board before |
| Engine.Map.IsShipKilled | SeaBattleNextGen/Map.cs:158-164 | true exactly when no cell holds the ship's live code, for a live or a hit code |
| Engine.Map.HasAnyShip | SeaBattleNextGen/Map.cs:169-175 | true exactly when some cell holds a live segment |
| Engine.Map.MissAroundKilledShip | SeaBattleNextGen/Map.cs:180-189 | the board afterwards is the sink sweep of the board before |
| Engine.Map.MissAround | SeaBattleNextGen/Map.cs:194-227 | every blocked or empty neighbour of the cell becomes a miss; nothing else changes |
| Engine.Map.GetShipPartsCount | SeaBattleNextGen/Map.cs:232-240 | the number of cells holding the code |
| Engine.Map.IsShipSetted | SeaBattleNextGen/Map.cs:258-263 | true exactly when the code is a ship and its full length is placed |
| Engine.Map.IsNear | SeaBattleNextGen/Map.cs:268-295 | the neighbour-by-neighbour test is true exactly when one of the up to eight in-bounds neighbours holds the code (`Near`) |
| Engine.Map.RowRoom | SeaBattleNextGen/Map.cs:305-308 | the horizontal count is the maximal fitting run through the cell |
| Engine.Map.ColumnRoom | SeaBattleNextGen/Map.cs:313-316 | the vertical count is the maximal fitting run through the cell |
| Engine.Map.HasPlaceForShip | SeaBattleNextGen/Map.cs:300-319 | true exactly when the row run or the column run through the cell is at least the ship's length |
| Engine.Map.BlockNeighbors | SeaBattleNextGen/Map.cs:339-385 | the board afterwards is Moves.BlockNeighbors of the board before |
| Engine.Map.BlockShipNeighbors | SeaBattleNextGen/Map.cs:323-332 | the board afterwards is BlockShip of the board before: for a complete ship exactly the empty cells next to it are blocked, otherwise nothing changes |
| Engine.Map.ToString | SeaBattleNextGen/Map.cs:390-399 | the text is the board's text form (Serialize), which DecodeSerialize reads back to the same board |
| Protocol.ClassifyEncode | SeaBattleNextGen/MainForm.cs:336-360 | every text a player sends is classified by the receiver as the message it encodes |
| Protocol.ReadyCarriesBoard | SeaBattleNextGen/MainForm.cs:342-350 | the board in a ready message reads back unchanged on the other side |
| Protocol.ShotCoordsOfShot | SeaBattleNextGen/MainForm.cs:357-359 | the coordinates in a shot message parse back unchanged |
| Protocol.ReadyFitsBuffer | SeaBattleNextGen/MainForm.cs:439-444 | a ready message has at most 405 ASCII characters, so one read of the 2048-byte buffer holds it |
| Protocol.IndexOf | SeaBattleNextGen/MainForm.cs:349 | the position of the first separator, or -1 exactly when there is none |
| Game.Start | SeaBattleNextGen/MainForm.cs:32-55 | a new window is consistent and its empty board satisfies the setup invariant |
| Game.PlaceClick | SeaBattleNextGen/MainForm.cs:150-195 | a click when ready, off turn or at a cell failing the placement checks changes nothing; an accepted one leaves the own board as PlaceSegment makes it. Placement keeps the window consistent and never touches the opponent's board or the game's outcome; the ship index grows by one only when the current ship is complete; the ready text of the own board is sent exactly when the player becomes ready, who then gives up the turn, and nothing is sent otherwise; an accepted placement that does not complete the fleet keeps the turn |
| Game.ShootClick | SeaBattleNextGen/MainForm.cs:114-145 | a click before both players are ready, off turn or at a cell that may not be shot at changes nothing and sends nothing; an accepted one sends exactly `shot|x|y` and leaves the picture of the opponent's board as Fire makes it. A shot keeps the window consistent and never touches the own board or the setup |
| Game.Receive | SeaBattleNextGen/MainForm.cs:336-393 | a received text keeps the window consistent and never touches the setup or the sent texts. Blank and unknown texts, a repeated ready and a shot on the player's turn change nothing. The first ready makes the opponent ready and gives the turn; it completes exactly when its board decodes, and then installs that board, else the picture stays. A shot off turn fails on bad coordinates, is ignored at a cell that may not be shot at, and otherwise leaves the own board as Fire makes it, ends the game, lost, exactly when no live segment is left, and leaves the turn to the player exactly after a miss that does not end it |
| Game.PlaceKeepsSetup | SeaBattleNextGen/MainForm.cs:150-195 | the own board stays a valid setup while placing, and the whole fleet, every ship complete and straight, is on it once the player is ready |
| Game.ShotOutcome | SeaBattleNextGen/MainForm.cs:129-143 | the game ends exactly when the shot hits the last live segment, and at once, even on a miss, when the picture of the opponent's board holds none; the player keeps the turn exactly after a hit that does not end it; the winner is not the loser |
| Game.ReadyDelivered | SeaBattleNextGen/MainForm.cs:187 | the ready text sent after the tenth ship gives the receiver that board as its picture of the opponent's board, and the turn |
| Game.ShotKeepsStep | SeaBattleNextGen/MainForm.cs:129-131 | a shot exchange keeps the shooter's picture equal to the receiver's board; both agree on the end; the turns stay complementary, or both end with exactly one loser |
| Game.PairedStart | SeaBattleNextGen/MainForm.cs:47 | two new windows, one of them the first mover, are paired |
| Game.PairedPlace | SeaBattleNextGen/MainForm.cs:150-195 | a placement click followed by delivery of what it sends keeps two windows paired: exactly one has the turn, each knows the other's readiness and board |
| Game.PairedShoot | SeaBattleNextGen/MainForm.cs:114-145 | a shot click followed by delivery of the shot keeps two windows paired |
| Coordinator.MainForm.constructor | SeaBattleNextGen/MainForm.cs:32-55 | the new window is Game.Start of the first-mover flag, with two fresh maps |
| Coordinator.MainForm.SeveralPanelClick | SeaBattleNextGen/MainForm.cs:150-195 | the window afterwards is Game.PlaceClick of the window before |
| Coordinator.MainForm.PlacementAllowed | SeaBattleNextGen/MainForm.cs:161-168 | the checks accept exactly when the cell is empty, the ship fits through it, and a begun ship is extended next to itself |
| Coordinator.MainForm.EnemyPanelClick | SeaBattleNextGen/MainForm.cs:114-145 | the window afterwards is Game.ShootClick of the window before |
| Coordinator.MainForm.OnRecieve | SeaBattleNextGen/MainForm.cs:336-393 | the window afterwards and the completed flag are Game.Receive of the window before and the classified text |
| Coordinator.MainForm.ReceiveReady | SeaBattleNextGen/MainForm.cs:342-350 | the ready branch, as Game.Receive states it |
| Coordinator.MainForm.ReceiveShot | SeaBattleNextGen/MainForm.cs:352-388 | the shot branch, as Game.Receive states it |
| Coordinator.MainForm.SendReady | SeaBattleNextGen/MainForm.cs:187 | appends the ready text of the own board to what was sent |

## Left out

- Window rendering, panels, images, message boxes and status labels are not modelled: they only display the state.
- The named pipes, the send threads and the reader thread are not modelled. Texts that are sent are collected in `sent`, and `OnRecieve` is called with one text at a time. The model therefore assumes that a read returns exactly one sent message: messages are neither split nor merged, and arrive in order.
- Game.PairedPlace and Game.PairedShoot: `Game.Deliver` hands the other window the text an action sent before the next action happens, so delivery is immediate. The pairing lemmas hold only when no text is in flight. Schedules with a text still queued are not covered, such as a player who hits and clicks again before the opponent has read the first shot.
- The process counting that chooses the first mover is not modelled; the flag is a constructor parameter.
- Locking between the UI thread and the reader thread is not modelled: each handler runs to completion on its own.
- Parsing the panel name into (x, y) is not modelled; the handlers take in-bounds coordinates.
- Text.ParseNat: accepts decimal digits only. `int.Parse` also accepts surrounding white space and a sign, and throws above 2^31 - 1. Texts the model rejects but the original accepts do not occur in messages the program itself sends.
- Text.ParseByte: accepts decimal digits only, for the same reason. `Convert.ToByte` also accepts surrounding white space and a sign.
- Protocol.StartsWith: an ordinal prefix test; the original's culture-sensitive comparison is not modelled.
- Protocol.IsBlank: a null message does not occur, because the reader always passes a decoded string.
- The UTF-8 decoding of the bytes read is not modelled: every text a program sends is ASCII (`Protocol.ReadyFitsBuffer`).
- `shipIndex` is a `byte` in the original and an `int` here. It never exceeds 10, so the two agree.
- Coordinator.MainForm.OnRecieve: the exception an ill-formed message raises is modelled as `completed == false`. The state reached up to the throw is kept, as in the original: a ready message whose board does not decode leaves the opponent marked ready with an empty board. From such a window, or after a ready whose board holds no live segment, the next accepted shot, even a miss, ends the game as won (`Game.ShotOutcome`).
