/**
 * The text form of a board: the hundred cell codes in decimal, row by row
 * (field y * 10 + x holds cell (x, y)), separated by '|'. Map.ToString
 * writes it and the Map(string) constructor reads it back.
 */
module Codec {
  import opened Wrappers
  import opened Board
  import opened Text

  const Sep: char := '|'

  /** The cells in the order the text lists them: y outer, x inner. */
  function Cells(g: Grid): (s: seq<int>)
    requires IsGrid(g)
    ensures |s| == 100
    ensures forall i :: 0 <= i < 100 ==> IsByte(s[i])
  {
    seq(100, i requires 0 <= i < 100 => g[i % 10][i / 10])
  }

  /** Field y * 10 + x of the text holds cell (x, y). (Kept out of Cells' own
      contract: together with its body it would let every cell term spawn new ones.) */
  lemma CellsAt(g: Grid, x: int, y: int)
    requires IsGrid(g) && InBounds(x, y)
    ensures Cells(g)[y * 10 + x] == g[x][y]
  {
    var k := y * 10 + x;
    assert k % 10 == x && k / 10 == y;
  }

  /** The decimal field of every cell, in text order. */
  function Fields(g: Grid): (fs: seq<string>)
    requires IsGrid(g)
    ensures |fs| == 100
    ensures forall i :: 0 <= i < 100 ==> |fs[i]| >= 1 && AllDigits(fs[i])
  {
    var cs := Cells(g);
    seq(100, i requires 0 <= i < 100 => NatToText(cs[i]))
  }

  /** Field y * 10 + x of the text is the decimal code of cell (x, y). */
  lemma FieldAt(g: Grid, x: int, y: int)
    requires IsGrid(g) && InBounds(x, y)
    ensures Fields(g)[y * 10 + x] == NatToText(g[x][y])
  {
    CellsAt(g, x, y);
  }

  /** Map.ToString of a board. */
  function Serialize(g: Grid): string
    requires IsGrid(g)
  {
    Join(Fields(g), Sep)
  }

  /** Reading a board from its split fields: the first hundred must all be
      byte values; anything after them is ignored. */
  function DecodeFields(fs: seq<string>): (r: Option<Grid>)
    ensures r.Some? <==> |fs| >= 100 && forall i :: 0 <= i < 100 ==> ParseByte(fs[i]).Some?
    ensures r.Some? ==> IsGrid(r.value)
    ensures r.Some? ==> forall x, y :: InBounds(x, y) ==> ParseByte(fs[y * 10 + x]) == Some(r.value[x][y])
  {
    if |fs| >= 100 && forall i :: 0 <= i < 100 ==> ParseByte(fs[i]).Some? then
      Some(seq(10, x requires 0 <= x < 10 =>
        seq(10, y requires 0 <= y < 10 => ParseByte(fs[y * 10 + x]).value)))
    else
      None
  }

  /** Fields in which the field of every cell parses to that cell of g read
      back as g. */
  lemma DecodeFieldsOf(fs: seq<string>, g: Grid)
    requires IsGrid(g)
    requires forall x, y :: InBounds(x, y) ==> y * 10 + x < |fs| && ParseByte(fs[y * 10 + x]) == Some(g[x][y])
    ensures DecodeFields(fs) == Some(g)
  {
    forall k | 0 <= k < 100
      ensures k < |fs| && ParseByte(fs[k]).Some?
    {
      assert InBounds(k % 10, k / 10) && (k / 10) * 10 + k % 10 == k;
    }
    assert InBounds(9, 9);
    var d := DecodeFields(fs);
    GridExt(d.value, g);
  }

  /** The Map(string) constructor: None where the original throws
      (too few fields, or a field that is not a byte). */
  function Decode(text: string): Option<Grid>
  {
    DecodeFields(Split(text, Sep))
  }

  lemma FieldsHaveNoSep(g: Grid)
    requires IsGrid(g)
    ensures forall i :: 0 <= i < 100 ==> Sep !in Fields(g)[i]
  {
    var fs := Fields(g);
    forall i | 0 <= i < 100
      ensures Sep !in fs[i]
    {
      assert forall j :: 0 <= j < |fs[i]| ==> IsDigit(fs[i][j]);
    }
  }

  /** Reading back the text of a board gives the same board. */
  lemma DecodeSerialize(g: Grid)
    requires IsGrid(g)
    ensures Decode(Serialize(g)) == Some(g)
  {
    var fs := Fields(g);
    var cs := Cells(g);
    FieldsHaveNoSep(g);
    SplitJoin(fs, Sep);
    forall i | 0 <= i < 100
      ensures ParseByte(fs[i]) == Some(cs[i])
    {
      ParseByteOfText(cs[i]);
    }
    var d := DecodeFields(fs);
    assert d.Some?;
    forall x, y | InBounds(x, y)
      ensures d.value[x][y] == g[x][y]
    {
      CellsAt(g, x, y);
      assert ParseByte(fs[y * 10 + x]) == Some(cs[y * 10 + x]);
    }
    GridExt(d.value, g);
  }

  /** Anything appended after a complete board text is ignored. */
  lemma DecodeIgnoresTail(text: string, rest: string)
    requires |Split(text, Sep)| >= 100
    ensures Decode(text + [Sep] + rest) == Decode(text)
  {
    SplitAt(text, rest, Sep);
    var fs, ts := Split(text, Sep), Split(text + [Sep] + rest, Sep);
    assert forall i :: 0 <= i < 100 ==> ts[i] == fs[i];
    var a, b := DecodeFields(ts), DecodeFields(fs);
    if a.Some? {
      forall x, y | InBounds(x, y)
        ensures a.value[x][y] == b.value[x][y]
      {
        assert ts[y * 10 + x] == fs[y * 10 + x];
      }
      GridExt(a.value, b.value);
    }
  }
}
