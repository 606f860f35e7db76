/**
 * The two messages the players exchange over the pipe, "ready|<board text>"
 * and "shot|<x>|<y>", and how a received message is told apart: blank
 * messages are dropped, then the prefixes "ready" and "shot" are checked in
 * that order.
 */
module Protocol {
  import opened Wrappers
  import opened Board
  import opened Text
  import opened Codec

  /** A message a player sends: its own board once all ships are placed, or a
      shot at a cell of the opponent's board. */
  datatype Message = Ready(board: Grid) | Shot(x: nat, y: nat)

  predicate Sendable(m: Message) {
    m.Ready? ==> IsGrid(m.board)
  }

  /** The text Send writes for a message: "ready|" and the board's text, or
      "shot|x|y". */
  function Encode(m: Message): string
    requires Sendable(m)
  {
    match m
    case Ready(board) => "ready|" + Serialize(board)
    case Shot(x, y) => "shot|" + NatToText(x) + "|" + NatToText(y)
  }

  /** What OnRecieve makes of a received text. */
  datatype Incoming =
    | Blank
    | ReadyWith(payload: string)
    | ShotAt(coords: Option<(nat, nat)>)
    | Unrecognised

  /** Char.IsWhiteSpace. */
  predicate IsWhiteSpace(c: char) {
    var n := c as int;
    n == 0x20 || 0x09 <= n <= 0x0D || n == 0x85 || n == 0xA0 || n == 0x1680
    || 0x2000 <= n <= 0x200A || n == 0x2028 || n == 0x2029 || n == 0x202F || n == 0x205F || n == 0x3000
  }

  /** String.IsNullOrWhiteSpace. */
  predicate IsBlank(s: string) {
    forall i :: 0 <= i < |s| ==> IsWhiteSpace(s[i])
  }

  predicate StartsWith(s: string, prefix: string) {
    |prefix| <= |s| && s[..|prefix|] == prefix
  }

  /** String.IndexOf(c): the first position holding c, or -1. */
  function IndexOf(s: string, c: char): (i: int)
    ensures -1 <= i < |s|
    ensures i == -1 <==> c !in s
    ensures i >= 0 ==> s[i] == c && c !in s[..i]
  {
    if |s| == 0 then -1
    else if s[0] == c then 0
    else
      var j := IndexOf(s[1..], c);
      assert s[1..][..j + 1] == s[1..j + 2];
      if j == -1 then -1 else j + 1
  }

  /** message.Substring(message.IndexOf("|") + 1): what follows the first '|',
      or the whole message when there is none. */
  function Payload(message: string): string
  {
    message[IndexOf(message, Sep) + 1..]
  }

  /** int.Parse(parts[1]) and int.Parse(parts[2]) of the '|'-split message;
      None where the original throws. */
  function ShotCoords(message: string): Option<(nat, nat)>
  {
    var parts := Split(message, Sep);
    if |parts| < 3 then None
    else match (ParseNat(parts[1]), ParseNat(parts[2]))
      case (Some(x), Some(y)) => Some((x, y))
      case _ => None
  }

  function Classify(message: string): Incoming
  {
    if IsBlank(message) then Blank
    else if StartsWith(message, "ready") then ReadyWith(Payload(message))
    else if StartsWith(message, "shot") then ShotAt(ShotCoords(message))
    else Unrecognised
  }

  /** Every message a player sends is understood by the other as that message:
      a ready message as its board's text, a shot as its coordinates. */
  lemma ClassifyEncode(m: Message)
    requires Sendable(m)
    ensures Classify(Encode(m)) == match m
              case Ready(board) => ReadyWith(Serialize(board))
              case Shot(x, y) => ShotAt(Some((x, y)))
  {
    match m
    case Ready(board) => ClassifyReady(board);
    case Shot(x, y) => ClassifyShot(x, y);
  }

  lemma ClassifyReady(g: Grid)
    requires IsGrid(g)
    ensures Classify(Encode(Ready(g))) == ReadyWith(Serialize(g))
  {
    var s := Encode(Ready(g));
    assert !IsWhiteSpace(s[0]);
    assert s[..5] == "ready";
    assert IndexOf(s, Sep) == 5 by {
      assert s[5] == Sep && Sep !in s[..5];
    }
    assert s[6..] == Serialize(g);
  }

  lemma ClassifyShot(x: nat, y: nat)
    ensures Classify(Encode(Shot(x, y))) == ShotAt(Some((x, y)))
  {
    var s := Encode(Shot(x, y));
    assert !IsWhiteSpace(s[0]);
    assert !StartsWith(s, "ready") by { assert s[0] != 'r'; }
    assert s[..4] == "shot";
    ShotCoordsOfShot(x, y);
  }

  /** The coordinates of a shot message read back as sent. */
  lemma ShotCoordsOfShot(x: nat, y: nat)
    ensures ShotCoords(Encode(Shot(x, y))) == Some((x, y))
  {
    var tx, ty := NatToText(x), NatToText(y);
    TextHasNoSep(x);
    TextHasNoSep(y);
    assert Encode(Shot(x, y)) == "shot" + [Sep] + (tx + [Sep] + ty);
    SplitThree("shot", tx, ty);
    ParseNatOfText(x);
    ParseNatOfText(y);
  }

  lemma TextHasNoSep(n: nat)
    ensures Sep !in NatToText(n)
  {
    var t := NatToText(n);
    assert forall i :: 0 <= i < |t| ==> IsDigit(t[i]);
  }

  /** Three separator-free pieces joined by separators split back into them. */
  lemma SplitThree(a: string, b: string, c: string)
    requires Sep !in a && Sep !in b && Sep !in c
    ensures Split(a + [Sep] + (b + [Sep] + c), Sep) == [a, b, c]
  {
    SplitAt(a, b + [Sep] + c, Sep);
    SplitAt(b, c, Sep);
    SplitPlain(a, Sep);
    SplitPlain(b, Sep);
    SplitPlain(c, Sep);
  }

  /** A ready message carries a board the receiver reads back unchanged. */
  lemma ReadyCarriesBoard(g: Grid)
    requires IsGrid(g)
    ensures Classify(Encode(Ready(g))).ReadyWith?
    ensures Decode(Classify(Encode(Ready(g))).payload) == Some(g)
  {
    ClassifyEncode(Ready(g));
    DecodeSerialize(g);
  }

  lemma {:induction false} JoinLength(fs: seq<string>, sep: char, k: nat)
    requires |fs| >= 1 && forall i :: 0 <= i < |fs| ==> |fs[i]| <= k
    ensures |Join(fs, sep)| <= |fs| * (k + 1) - 1
    decreases |fs|
  {
    if |fs| > 1 {
      JoinLength(fs[..|fs| - 1], sep, k);
    }
  }

  lemma {:induction false} TextLength(n: nat)
    ensures n < 1000 ==> |NatToText(n)| <= 3
    decreases n
  {
    if n >= 10 {
      TextLength(n / 10);
    }
  }

  /** The ready message is at most 405 characters, all ASCII, so it fits in
      the reader's 2048-byte buffer and arrives in one read. */
  lemma ReadyFitsBuffer(g: Grid)
    requires IsGrid(g)
    ensures |Encode(Ready(g))| <= 405
    ensures forall i :: 0 <= i < |Encode(Ready(g))| ==> Encode(Ready(g))[i] as int < 128
  {
    var t := Serialize(g);
    var e := Encode(Ready(g));
    SerializeAscii(g);
    assert e == "ready|" + t;
    forall i | 0 <= i < |e|
      ensures e[i] as int < 128
    {
      if i >= 6 {
        assert e[i] == t[i - 6];
      }
    }
  }

  /** A board's text has at most 399 characters, all ASCII: a hundred fields
      of at most three digits and 99 separators. */
  lemma SerializeAscii(g: Grid)
    requires IsGrid(g)
    ensures |Serialize(g)| <= 399
    ensures forall i :: 0 <= i < |Serialize(g)| ==> Serialize(g)[i] as int < 128
  {
    var fs := Fields(g);
    var cs := Cells(g);
    forall i | 0 <= i < 100
      ensures |fs[i]| <= 3
    {
      TextLength(cs[i]);
    }
    JoinLength(fs, Sep, 3);
    JoinAscii(fs, Sep);
  }

  lemma {:induction false} JoinAscii(fs: seq<string>, sep: char)
    requires sep as int < 128
    requires forall i :: 0 <= i < |fs| ==> AllDigits(fs[i])
    ensures forall i :: 0 <= i < |Join(fs, sep)| ==> Join(fs, sep)[i] as int < 128
    decreases |fs|
  {
    if |fs| > 1 {
      JoinAscii(fs[..|fs| - 1], sep);
    }
  }
}
