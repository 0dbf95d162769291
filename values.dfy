/** The dynamic values of the Rust engine's expression language (the `Value` type
    of the CEL interpreter it links against), as far as the engine inspects them. */
module Values {
  import opened Text

  datatype Value =
    | VInt(i: int)
    | VUInt(u: nat)
    | VFloat
    | VStr(s: string)
    | VBytes(bytes: seq<Byte>)
    | VBool(b: bool)
    | VNull
    | VOther          // lists, maps, functions, timestamps, durations

  /** The only kinds of value the engine ever stores among its variables. */
  type Scalar = v: Value | v.VStr? || v.VInt? || v.VBool? witness VBool(false)

  /** `to_string` of a string, integer or boolean value. */
  function Display(v: Scalar): (r: string)
    ensures v.VStr? ==> r == v.s
  {
    match v
    case VStr(s) => s
    case VInt(i) => IntToString(i)
    case VBool(b) => if b then "true" else "false"
  }

  /** Integers print as their decimal text and back. */
  lemma DisplayNat(n: nat)
    ensures Display(VInt(n)) == NatToString(n)
    ensures ParseDigits(Display(VInt(n))) == n
  {
    ParseNatToString(n);
  }
}
