/** UTF-8 as the Go runtime converts between strings and rune slices and as Rust lays
    out a `str` in bytes: well-formed sequences of one to four bytes, and the
    replacement character U+FFFD for each byte that does not start one. */
module Utf8 {
  import opened Text

  const RuneError: char := '\U{FFFD}'

  predicate IsCont(b: Byte) { 0x80 <= b < 0xC0 }

  /** The bytes of one character. */
  function EncodeRune(c: char): (r: seq<Byte>)
    ensures 1 <= |r| <= 4
  {
    var n := c as int;
    if n < 0x80 then [n]
    else if n < 0x800 then [0xC0 + n / 64, 0x80 + n % 64]
    else if n < 0x10000 then [0xE0 + n / 4096, 0x80 + (n / 64) % 64, 0x80 + n % 64]
    else [0xF0 + n / 262144, 0x80 + (n / 4096) % 64, 0x80 + (n / 64) % 64, 0x80 + n % 64]
  }

  /** Go `string(runes)`, Rust `str::as_bytes`. */
  function Encode(s: string): (r: seq<Byte>)
    ensures |s| <= |r| <= 4 * |s|
  {
    if s == [] then [] else EncodeRune(s[0]) + Encode(s[1..])
  }

  /** The length of the well-formed sequence at the start of `b`, or 0 when there is none
      (the accepted second bytes exclude overlong forms, surrogates and values past
      U+10FFFF). */
  function SeqLength(b: seq<Byte>): (n: nat)
    ensures n <= 4 && n <= |b|
  {
    if b == [] then 0
    else if b[0] < 0x80 then 1
    else if b[0] < 0xC2 then 0
    else if b[0] < 0xE0 then (if |b| >= 2 && IsCont(b[1]) then 2 else 0)
    else if b[0] < 0xF0 then
      var lo := if b[0] == 0xE0 then 0xA0 else 0x80;
      var hi := if b[0] == 0xED then 0xA0 else 0xC0;
      if |b| >= 3 && lo <= b[1] < hi && IsCont(b[2]) then 3 else 0
    else if b[0] < 0xF5 then
      var lo := if b[0] == 0xF0 then 0x90 else 0x80;
      var hi := if b[0] == 0xF4 then 0x90 else 0xC0;
      if |b| >= 4 && lo <= b[1] < hi && IsCont(b[2]) && IsCont(b[3]) then 4 else 0
    else 0
  }

  /** The character a well-formed sequence stands for. */
  function SeqValue(b: seq<Byte>): (c: char)
    requires SeqLength(b) > 0
  {
    var n := SeqLength(b);
    var b0 := b[0] as int;
    if n == 1 then b0 as char
    else if n == 2 then ((b0 - 0xC0) * 64 + (b[1] as int - 0x80)) as char
    else if n == 3 then
      var v := (b0 - 0xE0) * 4096 + (b[1] as int - 0x80) * 64 + (b[2] as int - 0x80);
      assert v < 0xD800 || 0xE000 <= v < 0x10000;
      v as char
    else
      var v := (b0 - 0xF0) * 262144 + (b[1] as int - 0x80) * 4096 + (b[2] as int - 0x80) * 64 + (b[3] as int - 0x80);
      assert 0x10000 <= v <= 0x10FFFF;
      v as char
  }

  /** Go `[]rune(s)`: each maximal well-formed sequence is one character and every other
      byte is one replacement character. */
  function Decode(b: seq<Byte>): (r: string)
    ensures |r| <= |b|
    decreases |b|
  {
    if b == [] then []
    else if SeqLength(b) == 0 then [RuneError] + Decode(b[1..])
    else [SeqValue(b)] + Decode(b[SeqLength(b)..])
  }

  lemma DecodeRune2(n: int, b: seq<Byte>)
    requires 0x80 <= n < 0x800 && |b| >= 2 && b[0] == 0xC0 + n / 64 && b[1] == 0x80 + n % 64
    ensures SeqLength(b) == 2 && SeqValue(b) as int == n
  {
  }

  lemma DecodeRune3(n: int, b: seq<Byte>)
    requires 0x800 <= n < 0x10000 && (n < 0xD800 || 0xE000 <= n) && |b| >= 3
    requires b[0] == 0xE0 + n / 4096 && b[1] == 0x80 + (n / 64) % 64 && b[2] == 0x80 + n % 64
    ensures SeqLength(b) == 3 && SeqValue(b) as int == n
  {
    var q := n / 4096;
    var m := (n / 64) % 64;
    assert n == q * 4096 + m * 64 + n % 64;
    assert q == 0 ==> m >= 32;
    assert q == 13 ==> m < 32;
  }

  lemma DecodeRune4(n: int, b: seq<Byte>)
    requires 0x10000 <= n <= 0x10FFFF && |b| >= 4
    requires b[0] == 0xF0 + n / 262144 && b[1] == 0x80 + (n / 4096) % 64
    requires b[2] == 0x80 + (n / 64) % 64 && b[3] == 0x80 + n % 64
    ensures SeqLength(b) == 4 && SeqValue(b) as int == n
  {
    var q := n / 262144;
    var m := (n / 4096) % 64;
    assert n == q * 262144 + m * 4096 + ((n / 64) % 64) * 64 + n % 64;
    assert q == 0 ==> m >= 16;
    assert q == 4 ==> m < 16;
  }

  /** The bytes of one character are a well-formed sequence that stands for it. */
  lemma DecodeRune(c: char, rest: seq<Byte>)
    ensures SeqLength(EncodeRune(c) + rest) == |EncodeRune(c)|
    ensures SeqValue(EncodeRune(c) + rest) == c
  {
    var n := c as int;
    var b := EncodeRune(c) + rest;
    if n < 0x80 {
    } else if n < 0x800 {
      DecodeRune2(n, b);
    } else if n < 0x10000 {
      DecodeRune3(n, b);
    } else {
      DecodeRune4(n, b);
    }
  }

  /** Decoding the bytes of a text gives the text back. */
  lemma {:induction false} DecodeEncode(s: string)
    ensures Decode(Encode(s)) == s
  {
    if s != [] {
      var head := EncodeRune(s[0]);
      var b := Encode(s);
      assert b == head + Encode(s[1..]);
      DecodeRune(s[0], Encode(s[1..]));
      assert b[|head|..] == Encode(s[1..]);
      DecodeEncode(s[1..]);
    }
  }

  lemma {:induction false} EncodeConcat(s: string, t: string)
    ensures Encode(s + t) == Encode(s) + Encode(t)
  {
    if s != [] {
      assert (s + t)[1..] == s[1..] + t;
      EncodeConcat(s[1..], t);
    } else {
      assert s + t == t;
    }
  }

  /** Text of ASCII characters encodes as one byte per character. */
  lemma {:induction false} EncodeAscii(s: string)
    requires forall i :: 0 <= i < |s| ==> s[i] as int < 0x80
    ensures |Encode(s)| == |s|
    ensures forall i :: 0 <= i < |s| ==> Encode(s)[i] == s[i] as int
  {
    if s != [] {
      EncodeAscii(s[1..]);
    }
  }
}
