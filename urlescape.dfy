/** Query-component escaping as Go's `url.QueryEscape` and `url.QueryUnescape` do it:
    the unreserved bytes of section 2.3 of RFC 3986 stay, space becomes `+`, and every
    other byte becomes `%` and two upper-case hex digits (section 2.1 of RFC 3986). */
module UrlEscape {
  import opened Base
  import opened Text

  const Percent: Byte := 37  // '%'
  const Plus: Byte := 43     // '+'
  const Space: Byte := 32

  /** `A`-`Z`, `a`-`z`, `0`-`9`, `-`, `_`, `.`, `~`. */
  predicate Unreserved(b: Byte) {
    || 65 <= b <= 90 || 97 <= b <= 122 || 48 <= b <= 57
    || b == 45 || b == 95 || b == 46 || b == 126
  }

  /** The upper-case hex digit of a four-bit value. */
  function HexDigit(v: nat): (b: Byte)
    requires v < 16
  {
    if v < 10 then 48 + v else 65 + (v - 10)
  }

  /** The value of a hex digit of either case. */
  function HexValue(b: Byte): (r: Option<nat>)
    ensures r.Some? ==> r.value < 16
  {
    if 48 <= b <= 57 then Some(b - 48)
    else if 65 <= b <= 70 then Some(b - 65 + 10)
    else if 97 <= b <= 102 then Some(b - 97 + 10)
    else None
  }

  predicate IsHex(b: Byte) { HexValue(b).Some? }

  function EscapeByte(b: Byte): (r: seq<Byte>)
    ensures |r| == 1 || |r| == 3
  {
    if Unreserved(b) then [b]
    else if b == Space then [Plus]
    else [Percent, HexDigit(b / 16), HexDigit(b % 16)]
  }

  /** `url.QueryEscape`. */
  function QueryEscape(x: seq<Byte>): (r: seq<Byte>)
    ensures |x| <= |r| <= 3 * |x|
  {
    if x == [] then [] else EscapeByte(x[0]) + QueryEscape(x[1..])
  }

  /** `url.QueryUnescape`: `+` stands for a space and `%hh` for the byte `hh`; the first
      `%` not followed by two hex digits fails with the (at most three byte) text from
      that `%` on, which Go reports as an `EscapeError`. */
  function QueryUnescape(s: seq<Byte>): (r: Result<seq<Byte>, seq<Byte>>)
    ensures r.Ok? ==> |r.value| <= |s|
  {
    if s == [] then Ok([])
    else if s[0] == Percent then
      if |s| < 3 || !IsHex(s[1]) || !IsHex(s[2]) then Err(if |s| < 3 then s else s[..3])
      else
        match QueryUnescape(s[3..])
        case Err(e) => Err(e)
        case Ok(rest) => Ok([HexValue(s[1]).value * 16 + HexValue(s[2]).value] + rest)
    else
      match QueryUnescape(s[1..])
      case Err(e) => Err(e)
      case Ok(rest) => Ok([if s[0] == Plus then Space else s[0]] + rest)
  }

  lemma HexRoundTrip(v: nat)
    requires v < 16
    ensures HexValue(HexDigit(v)) == Some(v)
  {
  }

  /** Escaping maps unreserved bytes to themselves, space to `+` and every other byte
      to a percent escape that reads back as that byte. */
  lemma EscapeByteShape(b: Byte)
    ensures Unreserved(b) ==> EscapeByte(b) == [b]
    ensures b == Space ==> EscapeByte(b) == [Plus]
    ensures !Unreserved(b) && b != Space ==>
      && |EscapeByte(b)| == 3 && EscapeByte(b)[0] == Percent
      && HexValue(EscapeByte(b)[1]).Some? && HexValue(EscapeByte(b)[2]).Some?
      && HexValue(EscapeByte(b)[1]).value * 16 + HexValue(EscapeByte(b)[2]).value == b
  {
    if !Unreserved(b) && b != Space {
      HexRoundTrip(b / 16);
      HexRoundTrip(b % 16);
    }
  }

  /** Every byte of an escaped text is unreserved, `+`, `%` or an upper-case hex digit. */
  lemma {:induction false} EscapeAlphabet(x: seq<Byte>)
    ensures forall i :: 0 <= i < |QueryEscape(x)| ==>
      QueryEscape(x)[i] != Space && (Unreserved(QueryEscape(x)[i]) || QueryEscape(x)[i] == Plus || QueryEscape(x)[i] == Percent)
  {
    if x != [] {
      EscapeAlphabet(x[1..]);
    }
  }

  /** Text made only of unreserved bytes escapes to itself. */
  lemma {:induction false} EscapeUnreserved(x: seq<Byte>)
    requires forall i :: 0 <= i < |x| ==> Unreserved(x[i])
    ensures QueryEscape(x) == x
  {
    if x != [] {
      EscapeUnreserved(x[1..]);
      assert x == [x[0]] + x[1..];
    }
  }

  /** Unescaping an escaped text gives it back. */
  lemma {:induction false} UnescapeEscape(x: seq<Byte>)
    ensures QueryUnescape(QueryEscape(x)) == Ok(x)
  {
    if x != [] {
      var e := QueryEscape(x);
      var head := EscapeByte(x[0]);
      assert e == head + QueryEscape(x[1..]);
      UnescapeEscape(x[1..]);
      EscapeByteShape(x[0]);
      assert e[|head|..] == QueryEscape(x[1..]);
      assert x == [x[0]] + x[1..];
      if |head| == 3 {
        assert e[0] == Percent && e[1] == head[1] && e[2] == head[2];
        assert e[3..] == QueryEscape(x[1..]);
      } else {
        assert e[1..] == QueryEscape(x[1..]);
      }
    }
  }

  /** A `%` that is not followed by two hex digits makes unescaping fail with the text
      from that `%` on, cut to three bytes. */
  lemma {:induction false} MalformedEscapeFails(s: seq<Byte>)
    requires |s| > 0 && s[0] == Percent && (|s| < 3 || !IsHex(s[1]) || !IsHex(s[2]))
    ensures QueryUnescape(s).Err?
    ensures QueryUnescape(s).error == s[..if |s| < 3 then |s| else 3]
  {
  }

  /** Any failure is reported for a fragment of the input that starts with `%` and is at
      most three bytes long; `i` is where it starts. */
  lemma {:induction false} UnescapeErrorShape(s: seq<Byte>) returns (i: nat)
    requires QueryUnescape(s).Err?
    ensures var e := QueryUnescape(s).error;
      && 1 <= |e| <= 3 && e[0] == Percent
      && i + |e| <= |s| && s[i..i + |e|] == e
  {
    var e := QueryUnescape(s).error;
    if s[0] == Percent && (|s| < 3 || !IsHex(s[1]) || !IsHex(s[2])) {
      i := 0;
    } else if s[0] == Percent {
      var k := UnescapeErrorShape(s[3..]);
      assert e == QueryUnescape(s[3..]).error;
      SliceOfSuffix(s, 3, k, |e|);
      i := k + 3;
    } else {
      var k := UnescapeErrorShape(s[1..]);
      assert e == QueryUnescape(s[1..]).error;
      SliceOfSuffix(s, 1, k, |e|);
      i := k + 1;
    }
  }

  lemma SliceOfSuffix(s: seq<Byte>, d: nat, k: nat, n: nat)
    requires d + k + n <= |s|
    ensures s[d..][k..k + n] == s[d + k..d + k + n]
  {
  }

  /** Text without `%` never fails, and without `%` or `+` it comes back unchanged. */
  lemma {:induction false} UnescapePlain(s: seq<Byte>)
    requires forall i :: 0 <= i < |s| ==> s[i] != Percent
    ensures QueryUnescape(s).Ok?
    ensures (forall i :: 0 <= i < |s| ==> s[i] != Plus) ==> QueryUnescape(s) == Ok(s)
  {
    if s != [] {
      UnescapePlain(s[1..]);
      assert s == [s[0]] + s[1..];
    }
  }
}
