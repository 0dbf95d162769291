/** The custom CEL overloads of the Go engine (library/decode/function.go): each checks
    the dynamic types of its operands, then computes on Go strings and byte slices.
    Go strings are byte sequences here, so UTF-8 and the standard encodings act on bytes. */
module GoFunctions {
  import opened Base
  import opened Text
  import opened PocModel
  import Utf8
  import Base64
  import UrlEscape
  import GoUtils

  type Int64 = x: int | I64Min <= x <= I64Max

  /** A CEL value as the overloads see it (`ref.Val`). */
  datatype CelVal =
    | GString(str: seq<Byte>)
    | GBytes(data: seq<Byte>)
    | GInt(i: Int64)
    | GBool(b: bool)
    | GErr(message: string)
    | GUnknown
    | GOther(typeName: string)

  /** What a call of an overload does: return a value, or make the Go runtime panic. */
  datatype Call = Returned(v: CelVal) | Panicked(reason: string)

  /** The Go regular-expression engine: `regexp.Match(pattern, subject)`. */
  type GoRegex = (seq<Byte>, seq<Byte>) -> Result<bool, string>

  /** The name `Type()` prints for a value. */
  function TypeName(v: CelVal): string {
    match v
    case GString(_) => "string"
    case GBytes(_) => "bytes"
    case GInt(_) => "int"
    case GBool(_) => "bool"
    case GErr(_) => "error"
    case GUnknown => "unknown"
    case GOther(t) => t
  }

  /** `types.ValOrErr(v, "unexpected type '%v' passed to <name>", v.Type())`: an operand that
      is already an error or unknown is handed on, any other gives a new error. */
  function Unexpected(v: CelVal, name: string): (r: CelVal)
    ensures r.GErr? || r.GUnknown?
  {
    if v.GErr? || v.GUnknown? then v
    else GErr("unexpected type '" + TypeName(v) + "' passed to " + name)
  }

  /** Go text to CEL text, one character per byte (only the messages use it). */
  function BytesText(b: seq<Byte>): (r: string)
    ensures |r| == |b|
  {
    if b == [] then [] else [b[0] as char] + BytesText(b[1..])
  }

  // ------------------------------------------------------------------ containment

  /** `contains_string`. */
  function Contains(lhs: CelVal, rhs: CelVal): CelVal {
    if !lhs.GString? then Unexpected(lhs, "contains")
    else if !rhs.GString? then Unexpected(rhs, "contains")
    else GBool(Occurs(rhs.str, lhs.str))
  }

  /** ASCII lower-casing of one byte. */
  function LowerByte(b: Byte): Byte {
    if 65 <= b <= 90 then b + 32 else b
  }

  /** `strings.ToLower` on ASCII text. */
  function LowerBytes(s: seq<Byte>): (r: seq<Byte>)
    ensures |r| == |s|
  {
    seq(|s|, i requires 0 <= i < |s| => LowerByte(s[i]))
  }

  /** `string_icontains_string`. */
  function IContains(lhs: CelVal, rhs: CelVal): CelVal {
    if !lhs.GString? then Unexpected(lhs, "icontains")
    else if !rhs.GString? then Unexpected(rhs, "icontains")
    else GBool(Occurs(LowerBytes(rhs.str), LowerBytes(lhs.str)))
  }

  /** `bytes_bcontains_bytes`. */
  function BContains(lhs: CelVal, rhs: CelVal): CelVal {
    if !lhs.GBytes? then Unexpected(lhs, "bcontains")
    else if !rhs.GBytes? then Unexpected(rhs, "bcontains")
    else GBool(Occurs(rhs.data, lhs.data))
  }

  /** `contains` holds exactly when both are strings and the right one is part of the left
      one; a non-string operand gives an error, the left one checked first. */
  lemma ContainsSpec(lhs: CelVal, rhs: CelVal)
    ensures Contains(lhs, rhs) == GBool(true) <==>
      lhs.GString? && rhs.GString? && exists i :: OccursAt(rhs.str, lhs.str, i)
    ensures Contains(lhs, rhs).GBool? <==> lhs.GString? && rhs.GString?
    ensures !lhs.GString? ==> Contains(lhs, rhs) == Unexpected(lhs, "contains")
    ensures lhs.GString? && !rhs.GString? ==> Contains(lhs, rhs) == Unexpected(rhs, "contains")
  {
    if lhs.GString? && rhs.GString? && exists i :: OccursAt(rhs.str, lhs.str, i) {
      var i :| OccursAt(rhs.str, lhs.str, i);
      assert 0 <= i <= |lhs.str| - |rhs.str|;
    }
  }

  /** `contains` finds a string between any two others. */
  lemma ContainsInMiddle(a: seq<Byte>, b: seq<Byte>, c: seq<Byte>)
    ensures Contains(GString(a + b + c), GString(b)) == GBool(true)
  {
    OccursInConcat(a, b, c);
  }

  lemma LowerBytesSlice(s: seq<Byte>, i: int, j: int)
    requires 0 <= i <= j <= |s|
    ensures LowerBytes(s)[i..j] == LowerBytes(s[i..j])
  {
  }

  /** Case does not matter to `icontains`, and whatever `contains` finds, `icontains` finds. */
  lemma IContainsSpec(a: seq<Byte>, b: seq<Byte>)
    ensures IContains(GString(a), GString(b)) == IContains(GString(LowerBytes(a)), GString(LowerBytes(b)))
    ensures Contains(GString(a), GString(b)) == GBool(true) ==> IContains(GString(a), GString(b)) == GBool(true)
  {
    assert LowerBytes(LowerBytes(a)) == LowerBytes(a);
    assert LowerBytes(LowerBytes(b)) == LowerBytes(b);
    if Occurs(b, a) {
      var i :| 0 <= i <= |a| - |b| && OccursAt(b, a, i);
      LowerBytesSlice(a, i, i + |b|);
      assert OccursAt(LowerBytes(b), LowerBytes(a), i);
    }
  }

  /** `bcontains` takes two byte slices and holds exactly when the right one occurs in the
      left one; anything else is an error. */
  lemma BContainsSpec(lhs: CelVal, rhs: CelVal)
    ensures BContains(lhs, rhs) == GBool(true) <==>
      lhs.GBytes? && rhs.GBytes? && exists i :: OccursAt(rhs.data, lhs.data, i)
    ensures BContains(lhs, rhs).GBool? <==> lhs.GBytes? && rhs.GBytes?
    ensures !(lhs.GBytes? && rhs.GBytes?) ==> BContains(lhs, rhs).GErr? || BContains(lhs, rhs).GUnknown?
  {
    if lhs.GBytes? && rhs.GBytes? && exists i :: OccursAt(rhs.data, lhs.data, i) {
      var i :| OccursAt(rhs.data, lhs.data, i);
      assert 0 <= i <= |lhs.data| - |rhs.data|;
    }
  }

  // ------------------------------------------------------------------ matching

  /** `matches_string`: the receiver is the pattern, the argument the subject. */
  function Matches(lhs: CelVal, rhs: CelVal, re: GoRegex): CelVal {
    if !lhs.GString? then Unexpected(lhs, "match")
    else if !rhs.GString? then Unexpected(rhs, "match")
    else
      match re(lhs.str, rhs.str)
      case Ok(b) => GBool(b)
      case Err(m) => GErr(m)
  }

  /** `string_bmatch_bytes`: a string pattern against a byte slice. */
  function BMatch(lhs: CelVal, rhs: CelVal, re: GoRegex): CelVal {
    if !lhs.GString? then Unexpected(lhs, "bmatch")
    else if !rhs.GBytes? then Unexpected(rhs, "bmatch")
    else
      match re(lhs.str, rhs.data)
      case Ok(b) => GBool(b)
      case Err(m) => GErr(m)
  }

  /** The left operand of `matches` is the pattern: the engine sees it first. A pattern the
      engine refuses comes back as an error value with the engine's message. */
  lemma MatchesSpec(p: seq<Byte>, s: seq<Byte>, re: GoRegex)
    ensures re(p, s).Ok? ==> Matches(GString(p), GString(s), re) == GBool(re(p, s).value)
    ensures re(p, s).Err? ==> Matches(GString(p), GString(s), re) == GErr(re(p, s).error)
    ensures re(p, s).Ok? ==> BMatch(GString(p), GBytes(s), re) == GBool(re(p, s).value)
    ensures re(p, s).Err? ==> BMatch(GString(p), GBytes(s), re) == GErr(re(p, s).error)
    ensures Matches(GString(p), GBytes(s), re).GErr? && BMatch(GString(p), GString(s), re).GErr?
  {
  }

  // ------------------------------------------------------------------ base64

  /** The text of a base64 decoding failure, without the offset of the bad byte that
      Go appends. */
  const Base64Failure: string := "illegal base64 data at input byte"

  /** `base64_string` */
  function Base64String(v: CelVal): CelVal {
    if !v.GString? then Unexpected(v, "base64_string") else GString(Base64.Encode(v.str))
  }

  /** `base64_bytes` */
  function Base64Bytes(v: CelVal): CelVal {
    if !v.GBytes? then Unexpected(v, "base64_bytes") else GString(Base64.Encode(v.data))
  }

  function Base64DecodeText(s: seq<Byte>): CelVal {
    match Base64.Decode(s)
    case None => GErr(Base64Failure)
    case Some(d) => GString(d)
  }

  /** `base64Decode_string` */
  function Base64DecodeString(v: CelVal): CelVal {
    if !v.GString? then Unexpected(v, "base64Decode_string") else Base64DecodeText(v.str)
  }

  /** `base64Decode_bytes`: yields a string, like the string overload. */
  function Base64DecodeBytes(v: CelVal): CelVal {
    if !v.GBytes? then Unexpected(v, "base64Decode_bytes") else Base64DecodeText(v.data)
  }

  /** Encoding gives four symbols per started group of three bytes, and both decoders
      undo both encoders. */
  lemma Base64RoundTrip(x: seq<Byte>)
    ensures Base64String(GString(x)).GString? && |Base64String(GString(x)).str| == 4 * ((|x| + 2) / 3)
    ensures Base64Bytes(GBytes(x)) == Base64String(GString(x))
    ensures Base64DecodeString(Base64String(GString(x))) == GString(x)
    ensures Base64DecodeBytes(GBytes(Base64Bytes(GBytes(x)).str)) == GString(x)
  {
    Base64.DecodeEncode(x);
  }

  /** Text with a byte outside the alphabet, `=` and line breaks, or whose symbol count is
      not a multiple of four, decodes to an error. */
  lemma Base64DecodeRejects(s: seq<Byte>, i: nat)
    requires i < |s| && !Base64.IsSymbol(s[i]) && s[i] != Base64.Pad && s[i] != 10 && s[i] != 13
    ensures Base64DecodeString(GString(s)) == GErr(Base64Failure)
    ensures Base64DecodeBytes(GBytes(s)) == GErr(Base64Failure)
  {
    Base64.DecodeRejects(s);
  }

  // ------------------------------------------------------------------ URL escaping

  /** The text of `url.EscapeError`, the fragment in double quotes (`strconv.Quote`
      agrees for printable ASCII other than `"` and `\`). */
  function EscapeErrorText(fragment: seq<Byte>): string {
    "invalid URL escape \"" + BytesText(fragment) + "\""
  }

  function UrlDecodeText(s: seq<Byte>): CelVal {
    match UrlEscape.QueryUnescape(s)
    case Err(fragment) => GErr(EscapeErrorText(fragment))
    case Ok(d) => GString(d)
  }

  /** `urlencode_string` */
  function UrlencodeString(v: CelVal): CelVal {
    if !v.GString? then Unexpected(v, "urlencode_string") else GString(UrlEscape.QueryEscape(v.str))
  }

  /** `urlencode_bytes` */
  function UrlencodeBytes(v: CelVal): CelVal {
    if !v.GBytes? then Unexpected(v, "urlencode_bytes") else GString(UrlEscape.QueryEscape(v.data))
  }

  /** `urldecode_string` */
  function UrldecodeString(v: CelVal): CelVal {
    if !v.GString? then Unexpected(v, "urldecode_string") else UrlDecodeText(v.str)
  }

  /** `urldecode_bytes` */
  function UrldecodeBytes(v: CelVal): CelVal {
    if !v.GBytes? then Unexpected(v, "urldecode_bytes") else UrlDecodeText(v.data)
  }

  /** Decoding undoes encoding for both overloads, and encoding leaves no space behind. */
  lemma UrlRoundTrip(x: seq<Byte>)
    ensures UrldecodeString(UrlencodeString(GString(x))) == GString(x)
    ensures UrldecodeBytes(GBytes(UrlencodeBytes(GBytes(x)).str)) == GString(x)
    ensures forall i :: 0 <= i < |UrlencodeString(GString(x)).str| ==> UrlencodeString(GString(x)).str[i] != UrlEscape.Space
  {
    UrlEscape.UnescapeEscape(x);
    UrlEscape.EscapeAlphabet(x);
  }

  /** A `%` without two hex digits after it is an error naming the fragment. */
  lemma UrlDecodeMalformed(s: seq<Byte>)
    requires |s| > 0 && s[0] == UrlEscape.Percent && (|s| < 3 || !UrlEscape.IsHex(s[1]) || !UrlEscape.IsHex(s[2]))
    ensures UrldecodeString(GString(s)) == GErr(EscapeErrorText(if |s| < 3 then s else s[..3]))
  {
    UrlEscape.MalformedEscapeFails(s);
  }

  // ------------------------------------------------------------------ randomInt

  /** Go's 64-bit `int` arithmetic. */
  function Wrap64(x: int): (r: Int64)
    ensures I64Min <= x <= I64Max ==> r == x
  {
    (x - I64Min) % 0x1_0000_0000_0000_0000 + I64Min
  }

  /** `randomInt_int_int` as written: `rand.Intn(max-min) + min` in 64-bit arithmetic.
      `roll` stands for the generator: `rand.Intn(n)` returns `roll % n`, so every value it
      can return is covered; it panics when `n` is not positive. */
  function RandomIntAsWritten(lhs: CelVal, rhs: CelVal, roll: nat): Call {
    if !lhs.GInt? then Returned(Unexpected(lhs, "randomInt"))
    else if !rhs.GInt? then Returned(Unexpected(rhs, "randomInt"))
    else
      var n := Wrap64(rhs.i - lhs.i);
      if n <= 0 then Panicked("invalid argument to Intn")
      else Returned(GInt(Wrap64(roll % n + lhs.i)))
  }

  /** The bounds `[-1, 2^63-1)` are a non-empty range, but the width wraps to a negative
      number and the call panics. */
  lemma RandomIntOverflowPanics(roll: nat)
    ensures RandomIntAsWritten(GInt(-1), GInt(I64Max), roll).Panicked?
  {
    assert Wrap64(I64Max - -1) == I64Min;
  }

  /** `randomInt` with the width computed without wrap-around: a value in `[from, to)`,
      and a panic exactly when that range is empty. */
  function RandomInt(lhs: CelVal, rhs: CelVal, roll: nat): (r: Call)
    ensures lhs.GInt? && rhs.GInt? ==>
      (r.Panicked? <==> rhs.i <= lhs.i)
    ensures lhs.GInt? && rhs.GInt? && lhs.i < rhs.i ==>
      r.Returned? && r.v.GInt? && lhs.i <= r.v.i < rhs.i
  {
    if !lhs.GInt? then Returned(Unexpected(lhs, "randomInt"))
    else if !rhs.GInt? then Returned(Unexpected(rhs, "randomInt"))
    else
      var n := rhs.i - lhs.i;
      if n <= 0 then Panicked("invalid argument to Intn")
      else Returned(GInt(roll % n + lhs.i))
  }

  /** Where the width fits in 64 bits, the corrected overload is the one written. */
  lemma RandomIntAgrees(from: Int64, to: Int64, roll: nat)
    requires I64Min <= to - from <= I64Max
    ensures RandomIntAsWritten(GInt(from), GInt(to), roll) == RandomInt(GInt(from), GInt(to), roll)
  {
  }

  // ------------------------------------------------------------------ randomLowercase

  /** The bytes of a text whose characters all fit in a byte. */
  function TextBytes(s: string): (r: seq<Byte>)
    requires forall k :: 0 <= k < |s| ==> s[k] as int < 256
    ensures |r| == |s| && forall k :: 0 <= k < |s| ==> r[k] == s[k] as int
  {
    if s == [] then [] else [s[0] as int] + TextBytes(s[1..])
  }

  /** `randomLowercase_int`: `words` are the values `rand.Int63` yields, and `None` means
      they ran out before `n` letters were drawn. A negative length makes `make` panic. */
  method RandomLowercase(value: CelVal, words: seq<GoUtils.Int63>) returns (r: Option<Call>)
    ensures !value.GInt? ==> r == Some(Returned(Unexpected(value, "randomLowercase")))
    ensures value.GInt? && value.i < 0 ==> r == Some(Panicked("makeslice: len out of range"))
    ensures value.GInt? && value.i >= 0 && r.Some? ==>
      && r.value.Returned? && r.value.v.GString? && |r.value.v.str| == value.i
      && forall k :: 0 <= k < value.i ==> 'a' as int <= r.value.v.str[k] <= 'z' as int
    ensures value.GInt? && r.None? ==>
      value.i >= 0 && (words == [] || |GoUtils.Accepted(GoUtils.Stream(words), |GoUtils.Lowercase|)| < value.i)
  {
    if !value.GInt? {
      return Some(Returned(Unexpected(value, "randomLowercase")));
    }
    var d := GoUtils.RandLowwerCase(value.i, words);
    match d
    case NegativeLength => r := Some(Panicked("makeslice: len out of range"));
    case Exhausted => r := None;
    case Drawn(text, _) => r := Some(Returned(GString(TextBytes(text))));
  }

  // ------------------------------------------------------------------ substr

  const SubstrRange: string := "invalid start or length to 'substr'"

  /** `substr_string_int_int` as written: `start+length` is added in 64 bits before the
      bounds check, and a wrapped sum makes the slice expression panic. */
  function SubstrAsWritten(values: seq<CelVal>): Call {
    if |values| != 3 then Returned(GErr("too many arguments to 'substr'"))
    else if !values[0].GString? then Returned(GErr("invalid string to 'substr'"))
    else if !values[1].GInt? then Returned(GErr("invalid start to 'substr'"))
    else if !values[2].GInt? then Returned(GErr("invalid length to 'substr'"))
    else
      var runes := Utf8.Decode(values[0].str);
      var start, length := values[1].i, values[2].i;
      var hi := Wrap64(start + length);
      if start < 0 || length < 0 || hi > |runes| then Returned(GErr(SubstrRange))
      else if hi < start then Panicked("slice bounds out of range")
      else Returned(GString(Utf8.Encode(runes[start..hi])))
  }

  /** Start 1 and length 2^63-1 pass the check, because the sum wraps to a negative
      number, and the slice then panics instead of the range error being returned. */
  lemma SubstrOverflowPanics(s: seq<Byte>)
    ensures SubstrAsWritten([GString(s), GInt(1), GInt(I64Max)]).Panicked?
  {
    assert Wrap64(1 + I64Max) == I64Min;
  }

  /** `substr` with the bounds checked without wrap-around. */
  function Substr(values: seq<CelVal>): (r: CelVal)
    ensures r.GString? <==>
      && |values| == 3 && values[0].GString? && values[1].GInt? && values[2].GInt?
      && 0 <= values[1].i && 0 <= values[2].i
      && values[1].i + values[2].i <= |Utf8.Decode(values[0].str)|
  {
    if |values| != 3 then GErr("too many arguments to 'substr'")
    else if !values[0].GString? then GErr("invalid string to 'substr'")
    else if !values[1].GInt? then GErr("invalid start to 'substr'")
    else if !values[2].GInt? then GErr("invalid length to 'substr'")
    else
      var runes := Utf8.Decode(values[0].str);
      var start, length := values[1].i, values[2].i;
      if start < 0 || length < 0 || start + length > |runes| then GErr(SubstrRange)
      else GString(Utf8.Encode(runes[start..start + length]))
  }

  /** A successful `substr` yields exactly `length` characters, those from `start` on. */
  lemma SubstrCharacters(s: seq<Byte>, start: Int64, length: Int64)
    requires 0 <= start && 0 <= length && start + length <= |Utf8.Decode(s)|
    ensures Substr([GString(s), GInt(start), GInt(length)]).GString?
    ensures var t := Utf8.Decode(Substr([GString(s), GInt(start), GInt(length)]).str);
      |t| == length && forall k :: 0 <= k < length ==> t[k] == Utf8.Decode(s)[start + k]
  {
    Utf8.DecodeEncode(Utf8.Decode(s)[start..start + length]);
  }

  /** Out-of-range bounds and wrong arity are errors with their own messages. */
  lemma SubstrErrors(s: seq<Byte>, start: Int64, length: Int64)
    ensures start < 0 || length < 0 || start + length > |Utf8.Decode(s)| ==>
      Substr([GString(s), GInt(start), GInt(length)]) == GErr(SubstrRange)
    ensures Substr([GString(s), GInt(start)]) == GErr("too many arguments to 'substr'")
    ensures Substr([GBytes(s), GInt(start), GInt(length)]) == GErr("invalid string to 'substr'")
  {
  }

  /** Where the sum of the bounds fits in 64 bits, the corrected overload is the one written. */
  lemma SubstrAgrees(values: seq<CelVal>)
    requires |values| == 3 && values[1].GInt? && values[2].GInt?
    requires values[1].i + values[2].i <= I64Max
    ensures SubstrAsWritten(values) == Returned(Substr(values))
  {
  }
}
