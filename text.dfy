/**
 * The string operations the board text and the messages rely on: decimal
 * rendering of a number, digit parsing (Convert.ToByte / int.Parse on plain
 * digit strings), String.Split on one separator character, joining fields,
 * and String.Trim of one character.
 */
module Text {
  import opened Wrappers

  predicate IsDigit(c: char) {
    '0' <= c <= '9'
  }

  predicate AllDigits(s: string) {
    forall i :: 0 <= i < |s| ==> IsDigit(s[i])
  }

  function DigitChar(d: int): (c: char)
    requires 0 <= d < 10
    ensures IsDigit(c) && c as int - '0' as int == d
  {
    ('0' as int + d) as char
  }

  /** Decimal text of n, without leading zeros, as `n.ToString()` renders it. */
  function NatToText(n: nat): (s: string)
    ensures |s| >= 1 && AllDigits(s)
    ensures s[0] == '0' <==> n == 0
    decreases n
  {
    if n < 10 then [DigitChar(n)] else NatToText(n / 10) + [DigitChar(n % 10)]
  }

  /** The number a digit string denotes. */
  function Value(s: string): nat
    requires AllDigits(s)
  {
    if |s| == 0 then 0 else Value(s[..|s| - 1]) * 10 + (s[|s| - 1] as int - '0' as int)
  }

  /** A non-empty digit string parses; anything else does not. */
  function ParseNat(s: string): (r: Option<nat>)
    ensures r.Some? <==> |s| >= 1 && AllDigits(s)
  {
    if |s| >= 1 && AllDigits(s) then Some(Value(s)) else None
  }

  /** Convert.ToByte: a digit string whose value fits in a byte. */
  function ParseByte(s: string): (r: Option<int>)
    ensures r.Some? <==> |s| >= 1 && AllDigits(s) && Value(s) < 256
    ensures r.Some? ==> 0 <= r.value < 256
  {
    match ParseNat(s)
    case Some(n) => if n < 256 then Some(n) else None
    case None => None
  }

  lemma ValueAppend(s: string, c: char)
    requires AllDigits(s) && IsDigit(c)
    ensures AllDigits(s + [c]) && Value(s + [c]) == Value(s) * 10 + (c as int - '0' as int)
  {
    assert (s + [c])[..|s|] == s;
  }

  /** Reading back the decimal text of n gives n. */
  lemma {:induction false} ValueOfText(n: nat)
    ensures Value(NatToText(n)) == n
    decreases n
  {
    if n >= 10 {
      ValueOfText(n / 10);
      ValueAppend(NatToText(n / 10), DigitChar(n % 10));
    }
  }

  lemma ParseNatOfText(n: nat)
    ensures ParseNat(NatToText(n)) == Some(n)
  {
    ValueOfText(n);
  }

  lemma ParseByteOfText(v: int)
    requires 0 <= v < 256
    ensures ParseByte(NatToText(v)) == Some(v)
  {
    ValueOfText(v);
  }

  /** A digit string without a leading zero is the decimal text of its value:
      the two directions of the round trip. */
  lemma {:induction false} TextOfValue(s: string)
    requires |s| >= 1 && AllDigits(s) && (s[0] != '0' || |s| == 1)
    ensures NatToText(Value(s)) == s
    decreases |s|
  {
    var n := Value(s);
    var p := s[..|s| - 1];
    var d := s[|s| - 1] as int - '0' as int;
    if |s| == 1 {
      assert s[..0] == [];
    } else {
      assert p[0] == s[0];
      TextOfValue(p);
      assert n == Value(p) * 10 + d;
      assert n / 10 == Value(p) && n % 10 == d;
      assert s == p + [s[|s| - 1]];
    }
  }

  /** The other direction of the number round trip: a parsed text without a
      leading zero is the decimal text of the parsed number. */
  lemma TextOfParseNat(s: string)
    requires ParseNat(s).Some? && (s[0] != '0' || |s| == 1)
    ensures NatToText(ParseNat(s).value) == s
  {
    TextOfValue(s);
  }

  /** String.Split(sep): the pieces between separators, in order; there is one
      piece more than there are separators. */
  function Split(s: string, sep: char): (r: seq<string>)
    ensures |r| >= 1
    ensures forall i :: 0 <= i < |r| ==> sep !in r[i]
    decreases |s|
  {
    if |s| == 0 then [""]
    else if s[0] == sep then [""] + Split(s[1..], sep)
    else
      var rest := Split(s[1..], sep);
      [[s[0]] + rest[0]] + rest[1..]
  }

  /** String.Join(sep, fields). */
  function Join(fs: seq<string>, sep: char): string
  {
    if |fs| == 0 then ""
    else if |fs| == 1 then fs[0]
    else Join(fs[..|fs| - 1], sep) + [sep] + fs[|fs| - 1]
  }

  /** Every field followed by the separator, as a loop appending `field + sep` builds it. */
  function Terminated(fs: seq<string>, sep: char): string
  {
    if |fs| == 0 then "" else Terminated(fs[..|fs| - 1], sep) + fs[|fs| - 1] + [sep]
  }

  lemma {:induction false} SplitPlain(s: string, sep: char)
    requires sep !in s
    ensures Split(s, sep) == [s]
    decreases |s|
  {
    if |s| > 0 {
      assert sep !in s[1..] by {
        forall i | 0 <= i < |s| - 1 ensures s[1..][i] != sep { assert s[1..][i] == s[i + 1]; }
      }
      SplitPlain(s[1..], sep);
      assert s == [s[0]] + s[1..];
    }
  }

  /** Splitting at a separator splits the two sides independently. */
  lemma {:induction false} SplitAt(a: string, b: string, sep: char)
    ensures Split(a + [sep] + b, sep) == Split(a, sep) + Split(b, sep)
    decreases |a|
  {
    var s := a + [sep] + b;
    if |a| == 0 {
      assert s[1..] == b;
    } else {
      assert s[1..] == a[1..] + [sep] + b;
      SplitAt(a[1..], b, sep);
    }
  }

  /** Splitting a joined list of separator-free fields gives the fields back. */
  lemma {:induction false} SplitJoin(fs: seq<string>, sep: char)
    requires |fs| >= 1 && forall i :: 0 <= i < |fs| ==> sep !in fs[i]
    ensures Split(Join(fs, sep), sep) == fs
    decreases |fs|
  {
    var n := |fs|;
    SplitPlain(fs[n - 1], sep);
    if n > 1 {
      var p := fs[..n - 1];
      SplitJoin(p, sep);
      SplitAt(Join(p, sep), fs[n - 1], sep);
      assert p + [fs[n - 1]] == fs;
    }
  }

  /** Terminating one more field appends it and a separator. */
  lemma TerminatedSnoc(fs: seq<string>, k: int, sep: char)
    requires 0 <= k < |fs|
    ensures Terminated(fs[..k + 1], sep) == Terminated(fs[..k], sep) + fs[k] + [sep]
  {
    assert fs[..k + 1][..k] == fs[..k];
  }

  lemma {:induction false} TerminatedJoin(fs: seq<string>, sep: char)
    requires |fs| >= 1
    ensures Terminated(fs, sep) == Join(fs, sep) + [sep]
    decreases |fs|
  {
    if |fs| > 1 {
      TerminatedJoin(fs[..|fs| - 1], sep);
      assert fs[..|fs| - 1][..|fs| - 2] == fs[..|fs| - 2];
    } else {
      assert fs[..0] == [];
    }
  }

  /** String.TrimStart(c): drops every leading c, and only those. */
  function TrimStart(s: string, c: char): (r: string)
    ensures |r| <= |s| && r == s[|s| - |r|..]
    ensures forall i :: 0 <= i < |s| - |r| ==> s[i] == c
    ensures |r| > 0 ==> r[0] != c
    decreases |s|
  {
    if |s| > 0 && s[0] == c then TrimStart(s[1..], c) else s
  }

  /** String.TrimEnd(c): drops every trailing c, and only those. */
  function TrimEnd(s: string, c: char): (r: string)
    ensures |r| <= |s| && r == s[..|r|]
    ensures forall i :: |r| <= i < |s| ==> s[i] == c
    ensures |r| > 0 ==> r[|r| - 1] != c
    decreases |s|
  {
    if |s| > 0 && s[|s| - 1] == c then TrimEnd(s[..|s| - 1], c) else s
  }

  /** String.Trim(c). */
  function Trim(s: string, c: char): string
  {
    TrimEnd(TrimStart(s, c), c)
  }

  lemma JoinEnds(fs: seq<string>, sep: char)
    requires |fs| >= 1 && forall i :: 0 <= i < |fs| ==> |fs[i]| >= 1
    ensures var j := Join(fs, sep);
            |j| >= 1 && j[0] == fs[0][0] && j[|j| - 1] == fs[|fs| - 1][|fs[|fs| - 1]| - 1]
    decreases |fs|
  {
    if |fs| > 2 {
      JoinEnds(fs[..|fs| - 1], sep);
    }
  }

  /** Trimming the separator from separator-terminated non-empty fields yields
      exactly the joined fields. */
  lemma TrimTerminated(fs: seq<string>, sep: char)
    requires |fs| >= 1 && forall i :: 0 <= i < |fs| ==> |fs[i]| >= 1 && sep !in fs[i]
    ensures Trim(Terminated(fs, sep), sep) == Join(fs, sep)
  {
    TerminatedJoin(fs, sep);
    var j := Join(fs, sep);
    JoinEnds(fs, sep);
    assert fs[0][0] in fs[0];
    var last := fs[|fs| - 1];
    assert last[|last| - 1] in last;
    assert TrimStart(j + [sep], sep) == j + [sep];
    assert (j + [sep])[..|j|] == j;
  }
}
