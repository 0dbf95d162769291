/** Strings and sequences: substring search, ASCII case, Unicode white space,
    decimal text and splitting, as the Rust and Go standard libraries provide them. */
module Text {

  /** One byte of a Go string or byte slice. */
  type Byte = x: int | 0 <= x < 256

  // ---------------------------------------------------------------- occurrence

  /** `p` occurs in `s` at index `i`. */
  predicate OccursAt<T(==)>(p: seq<T>, s: seq<T>, i: int) {
    0 <= i && i + |p| <= |s| && s[i..i + |p|] == p
  }

  /** `p` is a contiguous part of `s` (Rust `str::contains`, Go `strings.Contains`, `bytes.Contains`). */
  predicate Occurs<T(==)>(p: seq<T>, s: seq<T>) {
    exists i | 0 <= i <= |s| - |p| :: OccursAt(p, s, i)
  }

  predicate IsPrefix<T(==)>(p: seq<T>, s: seq<T>) {
    |p| <= |s| && s[..|p|] == p
  }

  predicate IsSuffix<T(==)>(p: seq<T>, s: seq<T>) {
    |p| <= |s| && s[|s| - |p|..] == p
  }

  /** Occurrence in the sense of concatenation: `s` is `a + p + b`. */
  lemma OccursInConcat<T>(a: seq<T>, p: seq<T>, b: seq<T>)
    ensures Occurs(p, a + p + b)
  {
    assert (a + p + b)[|a|..|a| + |p|] == p;
    assert OccursAt(p, a + p + b, |a|);
  }

  lemma OccursSplits<T>(p: seq<T>, s: seq<T>, i: int)
    requires OccursAt(p, s, i)
    ensures s == s[..i] + p + s[i + |p|..]
  {
    assert s == s[..i] + s[i..i + |p|] + s[i + |p|..];
  }

  /** A pattern holding a character that `s` lacks does not occur in `s`. */
  lemma AbsentCharBlocks<T>(p: seq<T>, s: seq<T>, k: nat)
    requires k < |p| && p[k] !in s
    ensures !Occurs(p, s)
  {
    forall i | 0 <= i <= |s| - |p| ensures !OccursAt(p, s, i) {
      assert i + k < |s| ==> s[i + k] in s;
    }
  }

  /** The least index at or after `from` where `p` occurs, or -1. */
  function IndexOf<T(==)>(p: seq<T>, s: seq<T>, from: nat): (r: int)
    ensures r == -1 || (from <= r && OccursAt(p, s, r))
    ensures forall i :: from <= i && (r == -1 || i < r) ==> !OccursAt(p, s, i)
    decreases |s| - from
  {
    if from + |p| > |s| then -1
    else if s[from..from + |p|] == p then from
    else IndexOf(p, s, from + 1)
  }

  /** The least index at or after `from` holding `c`, or -1. */
  function FindChar(c: char, s: string, from: nat): (r: int)
    ensures r == -1 || (from <= r < |s| && s[r] == c)
    ensures forall i :: from <= i < |s| && (r == -1 || i < r) ==> s[i] != c
    decreases |s| - from
  {
    if from >= |s| then -1
    else if s[from] == c then from
    else FindChar(c, s, from + 1)
  }

  // ---------------------------------------------------------------- ASCII case

  predicate IsUpperAscii(c: char) { 'A' <= c <= 'Z' }

  function LowerChar(c: char): (r: char)
    ensures !IsUpperAscii(r)
  {
    if IsUpperAscii(c) then (c as int + 32) as char else c
  }

  /** Lower-casing restricted to ASCII: `A`-`Z` become `a`-`z`, every other character is kept. */
  function ToLower(s: string): (r: string)
    ensures |r| == |s|
    ensures forall i :: 0 <= i < |s| ==> r[i] == LowerChar(s[i])
  {
    if s == [] then [] else [LowerChar(s[0])] + ToLower(s[1..])
  }

  predicate IsLower(s: string) {
    forall i :: 0 <= i < |s| ==> !IsUpperAscii(s[i])
  }

  // ---------------------------------------------------------------- white space

  /** Unicode White_Space: Rust's `char::is_whitespace` and Go's `unicode.IsSpace` accept the same set. */
  predicate IsSpace(c: char) {
    || c == '\t' || c == '\n' || c == '\U{000B}' || c == '\U{000C}' || c == '\r' || c == ' '
    || c == '\U{0085}' || c == '\U{00A0}' || c == '\U{1680}'
    || ('\U{2000}' <= c <= '\U{200A}')
    || c == '\U{2028}' || c == '\U{2029}' || c == '\U{202F}' || c == '\U{205F}' || c == '\U{3000}'
  }

  function TrimStart(s: string): (r: string)
    ensures IsSuffix(r, s)
    ensures r == [] || !IsSpace(r[0])
    ensures forall i :: 0 <= i < |s| - |r| ==> IsSpace(s[i])
  {
    if s != [] && IsSpace(s[0]) then TrimStart(s[1..]) else s
  }

  function TrimEnd(s: string): (r: string)
    ensures IsPrefix(r, s)
    ensures r == [] || !IsSpace(r[|r| - 1])
    ensures forall i :: |r| <= i < |s| ==> IsSpace(s[i])
  {
    if s != [] && IsSpace(s[|s| - 1]) then TrimEnd(s[..|s| - 1]) else s
  }

  /** Rust `str::trim`, Go `strings.TrimSpace`. */
  function Trim(s: string): (r: string)
    ensures r == [] || (!IsSpace(r[0]) && !IsSpace(r[|r| - 1]))
  {
    TrimEnd(TrimStart(s))
  }

  /** Trimming keeps only characters of the text. */
  lemma TrimWithin(s: string)
    ensures forall c :: c in Trim(s) ==> c in s
  {
    var t := TrimStart(s);
    var r := TrimEnd(t);
    forall c | c in r ensures c in s {
      var i :| 0 <= i < |r| && r[i] == c;
      assert t[i] == c;
      assert s[|s| - |t| + i] == c;
    }
  }

  /** Text that neither starts nor ends with white space is its own trim. */
  lemma TrimUntrimmed(s: string)
    requires s == [] || (!IsSpace(s[0]) && !IsSpace(s[|s| - 1]))
    ensures Trim(s) == s
  {
  }

  // ---------------------------------------------------------------- decimal text

  function DigitChar(d: nat): (c: char)
    requires d < 10
    ensures '0' <= c <= '9'
  {
    ('0' as int + d) as char
  }

  predicate IsDigit(c: char) { '0' <= c <= '9' }

  /** The decimal text of `n`, without leading zeros. */
  function NatToString(n: nat): (r: string)
    ensures r != [] && forall i :: 0 <= i < |r| ==> IsDigit(r[i])
    decreases n
  {
    if n < 10 then [DigitChar(n)] else NatToString(n / 10) + [DigitChar(n % 10)]
  }

  /** Rust `i64::to_string`, Go `%v`/`%d` of an integer. */
  function IntToString(i: int): string {
    if i < 0 then "-" + NatToString(-i) else NatToString(i)
  }

  /** The value of a string of decimal digits. */
  function ParseDigits(s: string): nat
    requires forall i :: 0 <= i < |s| ==> IsDigit(s[i])
  {
    if s == [] then 0
    else
      assert IsDigit(s[|s| - 1]);
      ParseDigits(s[..|s| - 1]) * 10 + (s[|s| - 1] as int - '0' as int)
  }

  lemma {:induction false} ParseNatToString(n: nat)
    ensures ParseDigits(NatToString(n)) == n
    decreases n
  {
    if n >= 10 {
      var s := NatToString(n);
      assert s[..|s| - 1] == NatToString(n / 10);
      ParseNatToString(n / 10);
    }
  }

  /** Distinct numbers have distinct decimal texts. */
  lemma NatToStringInjective(m: nat, n: nat)
    requires NatToString(m) == NatToString(n)
    ensures m == n
  {
    ParseNatToString(m);
    ParseNatToString(n);
  }

  // ---------------------------------------------------------------- splitting

  /** Rust `str::split(sep)` and Go `strings.Split(s, sep)` for a non-empty separator. */
  function Split<T(==)>(s: seq<T>, sep: seq<T>): (r: seq<seq<T>>)
    requires sep != []
    ensures |r| >= 1
    decreases |s|
  {
    var i := IndexOf(sep, s, 0);
    if i < 0 then [s] else [s[..i]] + Split(s[i + |sep|..], sep)
  }

  function Join<T>(pieces: seq<seq<T>>, sep: seq<T>): seq<T> {
    if |pieces| == 0 then []
    else if |pieces| == 1 then pieces[0]
    else pieces[0] + sep + Join(pieces[1..], sep)
  }

  lemma {:induction false} JoinSplit<T>(s: seq<T>, sep: seq<T>)
    requires sep != []
    ensures Join(Split(s, sep), sep) == s
    decreases |s|
  {
    var i := IndexOf(sep, s, 0);
    if i >= 0 {
      var rest := s[i + |sep|..];
      JoinSplit(rest, sep);
      OccursSplits(sep, s, i);
      var r := Split(rest, sep);
      assert Split(s, sep) == [s[..i]] + r;
      assert Join([s[..i]] + r, sep) == s[..i] + sep + Join(r, sep);
    }
  }

  lemma {:induction false} SplitPiecesLackSeparator<T>(s: seq<T>, sep: seq<T>)
    requires sep != []
    ensures forall k :: 0 <= k < |Split(s, sep)| ==> !Occurs(sep, Split(s, sep)[k])
    decreases |s|
  {
    var i := IndexOf(sep, s, 0);
    if i < 0 {
      assert Split(s, sep) == [s];
      forall j | 0 <= j <= |s| - |sep| ensures !OccursAt(sep, s, j) {}
    } else {
      var head := s[..i];
      SplitPiecesLackSeparator(s[i + |sep|..], sep);
      forall j | 0 <= j <= |head| - |sep| ensures !OccursAt(sep, head, j) {
        assert head[j..j + |sep|] == s[j..j + |sep|];
        assert !OccursAt(sep, s, j);
      }
    }
  }

  /** Splitting at a character the first piece lacks peels that piece off. */
  lemma SplitAtChar(a: string, c: char, b: string)
    requires c !in a
    ensures Split(a + [c] + b, [c]) == [a] + Split(b, [c])
  {
    var s := a + [c] + b;
    forall i | 0 <= i < |a| ensures !OccursAt([c], s, i) {
      assert s[i] == a[i];
      assert s[i..i + 1] == [s[i]];
    }
    assert s[|a|..|a| + 1] == [c];
    assert OccursAt([c], s, |a|);
    var j := IndexOf([c], s, 0);
    assert j != -1;
    assert j == |a|;
    assert s[..|a|] == a;
    assert s[|a| + 1..] == b;
  }

  /** Text without the separator character splits into itself alone. */
  lemma SplitWithoutChar(s: string, c: char)
    requires c !in s
    ensures Split(s, [c]) == [s]
  {
    AbsentCharBlocks([c], s, 0);
    assert IndexOf([c], s, 0) == -1;
  }

  /** Rust `str::split(&[chars])`: the pieces between single delimiter characters. */
  function SplitAny(s: string, delims: set<char>): (r: seq<string>)
    ensures |r| >= 1
    ensures forall k, i :: 0 <= k < |r| && 0 <= i < |r[k]| ==> r[k][i] !in delims
  {
    if s == [] then [""]
    else
      var rest := SplitAny(s[1..], delims);
      if s[0] in delims then [""] + rest
      else [[s[0]] + rest[0]] + rest[1..]
  }

  /** Splitting at a delimiter splits the two sides independently. */
  lemma {:induction false} SplitAnyConcat(a: string, d: char, b: string, delims: set<char>)
    requires d in delims
    ensures SplitAny(a + [d] + b, delims) == SplitAny(a, delims) + SplitAny(b, delims)
  {
    if a == [] {
      assert a + [d] + b == [d] + b;
      assert ([d] + b)[1..] == b;
    } else {
      assert (a + [d] + b)[0] == a[0];
      assert (a + [d] + b)[1..] == a[1..] + [d] + b;
      SplitAnyConcat(a[1..], d, b, delims);
    }
  }

  /** Text without delimiters is a single piece. */
  lemma {:induction false} SplitAnyNone(s: string, delims: set<char>)
    requires forall i :: 0 <= i < |s| ==> s[i] !in delims
    ensures SplitAny(s, delims) == [s]
  {
    if s != [] {
      SplitAnyNone(s[1..], delims);
      assert s == [s[0]] + s[1..];
    }
  }
}
