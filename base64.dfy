/** The standard padded base 64 encoding of section 4 of RFC 4648, as Go's
    `base64.StdEncoding` writes and reads it: the decoder skips line breaks, requires
    whole four-symbol groups, accepts padding only at the end, and does not check the
    unused low bits of a final partial group. */
module Base64 {
  import opened Base
  import opened Text

  const Pad: Byte := 61  // '='

  /** The symbol for a six-bit value: `A`-`Z`, `a`-`z`, `0`-`9`, `+`, `/`. */
  function Symbol(v: nat): (b: Byte)
    requires v < 64
  {
    if v < 26 then 65 + v
    else if v < 52 then 97 + (v - 26)
    else if v < 62 then 48 + (v - 52)
    else if v == 62 then 43
    else 47
  }

  /** The six-bit value of a symbol, or nothing for any other byte. */
  function SymbolValue(b: Byte): (r: Option<nat>)
    ensures r.Some? ==> r.value < 64 && Symbol(r.value) == b
  {
    if 65 <= b <= 90 then Some(b - 65)
    else if 97 <= b <= 122 then Some(b - 97 + 26)
    else if 48 <= b <= 57 then Some(b - 48 + 52)
    else if b == 43 then Some(62)
    else if b == 47 then Some(63)
    else None
  }

  lemma SymbolRoundTrip(v: nat)
    requires v < 64
    ensures SymbolValue(Symbol(v)) == Some(v)
  {
  }

  predicate IsSymbol(b: Byte) { SymbolValue(b).Some? }

  /** `EncodeToString`: each group of three bytes becomes four symbols; a final group of
      one or two bytes is padded with `=` to four. */
  function Encode(x: seq<Byte>): (r: seq<Byte>)
    ensures |r| == 4 * ((|x| + 2) / 3)
  {
    if |x| == 0 then []
    else
      var x0 := x[0] as int;
      if |x| == 1 then [Symbol(x0 / 4), Symbol((x0 % 4) * 16), Pad, Pad]
      else
        var x1 := x[1] as int;
        if |x| == 2 then [Symbol(x0 / 4), Symbol((x0 % 4) * 16 + x1 / 16), Symbol((x1 % 16) * 4), Pad]
        else
          var x2 := x[2] as int;
          [Symbol(x0 / 4), Symbol((x0 % 4) * 16 + x1 / 16), Symbol((x1 % 16) * 4 + x2 / 64), Symbol(x2 % 64)]
            + Encode(x[3..])
  }

  /** Every byte of an encoding is a symbol or padding, and padding only ends it. */
  lemma {:induction false} EncodeAlphabet(x: seq<Byte>)
    ensures forall i :: 0 <= i < |Encode(x)| ==> IsSymbol(Encode(x)[i]) || Encode(x)[i] == Pad
    ensures forall i :: 0 <= i < |Encode(x)| && Encode(x)[i] == Pad ==> i >= |Encode(x)| - 2
  {
    if |x| >= 3 {
      EncodeAlphabet(x[3..]);
      var x0, x1, x2 := x[0] as int, x[1] as int, x[2] as int;
      SymbolRoundTrip(x0 / 4);
      SymbolRoundTrip((x0 % 4) * 16 + x1 / 16);
      SymbolRoundTrip((x1 % 16) * 4 + x2 / 64);
      SymbolRoundTrip(x2 % 64);
    } else if |x| == 2 {
      var x0, x1 := x[0] as int, x[1] as int;
      SymbolRoundTrip(x0 / 4);
      SymbolRoundTrip((x0 % 4) * 16 + x1 / 16);
      SymbolRoundTrip((x1 % 16) * 4);
    } else if |x| == 1 {
      var x0 := x[0] as int;
      SymbolRoundTrip(x0 / 4);
      SymbolRoundTrip((x0 % 4) * 16);
    }
  }

  /** The input with its line breaks (`\r`, `\n`) removed. */
  function StripNewlines(s: seq<Byte>): (r: seq<Byte>)
    ensures |r| <= |s|
  {
    if s == [] then []
    else if s[0] == 10 || s[0] == 13 then StripNewlines(s[1..])
    else [s[0]] + StripNewlines(s[1..])
  }

  /** One four-symbol group; `last` says whether padding may appear in it. */
  function DecodeGroup(g: seq<Byte>, last: bool): (r: Option<seq<Byte>>)
    requires |g| == 4
  {
    var a, b := SymbolValue(g[0]), SymbolValue(g[1]);
    if a.None? || b.None? then None
    else
      var y0 := a.value * 4 + b.value / 16;
      if g[2] == Pad then
        (if last && g[3] == Pad then Some([y0]) else None)
      else
        var c := SymbolValue(g[2]);
        if c.None? then None
        else
          var y1 := (b.value % 16) * 16 + c.value / 4;
          if g[3] == Pad then (if last then Some([y0, y1]) else None)
          else
            var d := SymbolValue(g[3]);
            if d.None? then None
            else Some([y0, y1, (c.value % 4) * 64 + d.value])
  }

  function DecodeGroups(t: seq<Byte>): (r: Option<seq<Byte>>)
    requires |t| % 4 == 0
    decreases |t|
  {
    if t == [] then Some([])
    else
      match DecodeGroup(t[..4], |t| == 4)
      case None => None
      case Some(head) =>
        match DecodeGroups(t[4..])
        case None => None
        case Some(tail) => Some(head + tail)
  }

  /** `DecodeString`: nothing when the input is not a well-formed encoding. */
  function Decode(s: seq<Byte>): (r: Option<seq<Byte>>)
  {
    var t := StripNewlines(s);
    if |t| % 4 != 0 then None else DecodeGroups(t)
  }

  lemma {:induction false} StripWithoutNewlines(s: seq<Byte>)
    requires forall i :: 0 <= i < |s| ==> s[i] != 10 && s[i] != 13
    ensures StripNewlines(s) == s
  {
    if s != [] {
      StripWithoutNewlines(s[1..]);
    }
  }

  lemma DecodeFullGroup(x0: int, x1: int, x2: int, last: bool)
    requires 0 <= x0 < 256 && 0 <= x1 < 256 && 0 <= x2 < 256
    ensures DecodeGroup([Symbol(x0 / 4), Symbol((x0 % 4) * 16 + x1 / 16), Symbol((x1 % 16) * 4 + x2 / 64), Symbol(x2 % 64)], last)
         == Some([x0, x1, x2])
  {
    SymbolRoundTrip(x0 / 4);
    SymbolRoundTrip((x0 % 4) * 16 + x1 / 16);
    SymbolRoundTrip((x1 % 16) * 4 + x2 / 64);
    SymbolRoundTrip(x2 % 64);
    var b, c := (x0 % 4) * 16 + x1 / 16, (x1 % 16) * 4 + x2 / 64;
    assert b / 16 == x0 % 4 && b % 16 == x1 / 16;
    assert c / 4 == x1 % 16 && c % 4 == x2 / 64;
  }

  lemma DecodeTwoGroup(x0: int, x1: int)
    requires 0 <= x0 < 256 && 0 <= x1 < 256
    ensures DecodeGroup([Symbol(x0 / 4), Symbol((x0 % 4) * 16 + x1 / 16), Symbol((x1 % 16) * 4), Pad], true)
         == Some([x0, x1])
  {
    SymbolRoundTrip(x0 / 4);
    SymbolRoundTrip((x0 % 4) * 16 + x1 / 16);
    SymbolRoundTrip((x1 % 16) * 4);
  }

  lemma DecodeOneGroup(x0: int)
    requires 0 <= x0 < 256
    ensures DecodeGroup([Symbol(x0 / 4), Symbol((x0 % 4) * 16), Pad, Pad], true) == Some([x0])
  {
    SymbolRoundTrip(x0 / 4);
    SymbolRoundTrip((x0 % 4) * 16);
  }

  /** The first group of an encoding of three or more bytes decodes to those three
      bytes, and the rest is the encoding of the remaining bytes. */
  lemma EncodeFirstGroup(x: seq<Byte>)
    requires |x| >= 3
    ensures DecodeGroup(Encode(x)[..4], |Encode(x)| == 4) == Some(x[..3])
    ensures Encode(x)[4..] == Encode(x[3..])
  {
    var e := Encode(x);
    var x0, x1, x2 := x[0] as int, x[1] as int, x[2] as int;
    assert e[..4] == [Symbol(x0 / 4), Symbol((x0 % 4) * 16 + x1 / 16), Symbol((x1 % 16) * 4 + x2 / 64), Symbol(x2 % 64)];
    DecodeFullGroup(x0, x1, x2, |e| == 4);
    assert x[..3] == [x[0], x[1], x[2]];
  }

  lemma {:induction false} DecodeGroupsEncode(x: seq<Byte>)
    ensures DecodeGroups(Encode(x)) == Some(x)
  {
    var e := Encode(x);
    if |x| >= 3 {
      DecodeGroupsEncode(x[3..]);
      EncodeFirstGroup(x);
      assert x == x[..3] + x[3..];
    } else if |x| == 2 {
      DecodeTwoGroup(x[0] as int, x[1] as int);
      assert e[..4] == e && e[4..] == [];
      assert x == [x[0], x[1]] + [];
    } else if |x| == 1 {
      DecodeOneGroup(x[0] as int);
      assert e[..4] == e && e[4..] == [];
      assert x == [x[0]] + [];
    }
  }

  lemma SymbolNotNewline(b: Byte)
    requires IsSymbol(b) || b == Pad
    ensures b != 10 && b != 13
  {
  }

  /** Decoding an encoding gives the bytes back. */
  lemma DecodeEncode(x: seq<Byte>)
    ensures Decode(Encode(x)) == Some(x)
  {
    var e := Encode(x);
    EncodeAlphabet(x);
    forall i | 0 <= i < |e| ensures e[i] != 10 && e[i] != 13 {
      SymbolNotNewline(e[i]);
    }
    StripWithoutNewlines(e);
    var k := (|x| + 2) / 3;
    assert |e| == 4 * k;
    assert |e| % 4 == 0;
    DecodeGroupsEncode(x);
  }

  /** Input that is neither symbols, padding nor line breaks is rejected. */
  lemma {:induction false} DecodeGroupsRejects(t: seq<Byte>, i: nat)
    requires |t| % 4 == 0 && i < |t| && !IsSymbol(t[i]) && t[i] != Pad
    ensures DecodeGroups(t) == None
    decreases |t|
  {
    if i >= 4 {
      DecodeGroupsRejects(t[4..], i - 4);
    } else {
      assert t[..4][i] == t[i];
    }
  }

  lemma {:induction false} StripKeeps(s: seq<Byte>, i: nat)
    requires i < |s| && s[i] != 10 && s[i] != 13
    ensures exists j :: 0 <= j < |StripNewlines(s)| && StripNewlines(s)[j] == s[i]
  {
    if i > 0 {
      StripKeeps(s[1..], i - 1);
      var j :| 0 <= j < |StripNewlines(s[1..])| && StripNewlines(s[1..])[j] == s[i];
      assert s[1..][i - 1] == s[i];
      if s[0] != 10 && s[0] != 13 {
        assert StripNewlines(s)[j + 1] == s[i];
      } else {
        assert StripNewlines(s)[j] == s[i];
      }
    } else {
      assert StripNewlines(s)[0] == s[0];
    }
  }

  /** Invalid input: a byte that is not a symbol, `=` or a line break, or a symbol count
      that is not a multiple of four, yields an error. */
  lemma DecodeRejects(s: seq<Byte>)
    ensures |StripNewlines(s)| % 4 != 0 ==> Decode(s).None?
    ensures (exists i :: 0 <= i < |s| && !IsSymbol(s[i]) && s[i] != Pad && s[i] != 10 && s[i] != 13) ==> Decode(s).None?
  {
    var t := StripNewlines(s);
    if exists i :: 0 <= i < |s| && !IsSymbol(s[i]) && s[i] != Pad && s[i] != 10 && s[i] != 13 {
      var i :| 0 <= i < |s| && !IsSymbol(s[i]) && s[i] != Pad && s[i] != 10 && s[i] != 13;
      StripKeeps(s, i);
      var j :| 0 <= j < |t| && t[j] == s[i];
      if |t| % 4 == 0 {
        DecodeGroupsRejects(t, j);
      }
    }
  }
}
