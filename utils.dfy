/** The Go engine's utilities (library/utils): random strings drawn six bits at a time
    from 63-bit random words, and the sorted key list of a map. */
module GoUtils {
  import opened Base

  // ------------------------------------------------------------------ random strings

  const IndexBits: nat := 6
  const IndexMask: nat := 63   // 1 << IndexBits - 1
  const IndexMax: nat := 10    // 63 / IndexBits: the indices one word supplies
  const Lowercase: string := "abcdefghijklmnopqrstuvwxyz"
  const Digits: string := "0123456789"
  const Uppercase: string := "ABCDEFGHIJKLMNOPQRSTUVWXYZ"
  const LetterNum: string := Digits + Lowercase + Uppercase

  /** A value of `rand.Int63()`. */
  type Int63 = x: int | 0 <= x < 0x8000_0000_0000_0000

  /** The outcome of `RandomStr`: the text and how many words it drew; a supply of words
      that runs out before the text is full; or the panic of `make` on a negative length. */
  datatype Draw = Drawn(text: string, draws: nat) | Exhausted | NegativeLength

  /** The six-bit indices a word yields, lowest bits first, `k` of them. */
  function Chunks(w: nat, k: nat): (r: seq<nat>)
    ensures |r| == k
    ensures forall i :: 0 <= i < |r| ==> r[i] <= IndexMask
  {
    if k == 0 then [] else [w % 64] + Chunks(w / 64, k - 1)
  }

  /** The index stream of a sequence of words: `IndexMax` indices per word. */
  function Stream(words: seq<Int63>): (r: seq<nat>)
    ensures |r| == 10 * |words|
  {
    if words == [] then [] else Stream(words[..|words| - 1]) + Chunks(words[|words| - 1], IndexMax)
  }

  /** The indices of a stream that pick a choice: those below `m`. */
  function Accepted(xs: seq<nat>, m: nat): (r: seq<nat>)
    ensures |r| <= |xs|
    ensures forall i :: 0 <= i < |r| ==> r[i] < m
  {
    if xs == [] then [] else Accepted(xs[..|xs| - 1], m) + (if xs[|xs| - 1] < m then [xs[|xs| - 1]] else [])
  }

  lemma {:induction false} AcceptedConcat(xs: seq<nat>, ys: seq<nat>, m: nat)
    ensures Accepted(xs + ys, m) == Accepted(xs, m) + Accepted(ys, m)
    decreases |ys|
  {
    if ys == [] {
      assert xs + ys == xs;
    } else {
      var zs := ys[..|ys| - 1];
      assert (xs + ys)[..|xs + ys| - 1] == xs + zs;
      AcceptedConcat(xs, zs, m);
    }
  }

  lemma AcceptedStep(xs: seq<nat>, x: nat, m: nat)
    ensures Accepted(xs + [x], m) == Accepted(xs, m) + (if x < m then [x] else [])
  {
    assert (xs + [x])[..|xs + [x]| - 1] == xs;
  }

  /** Taking the next chunk of the current word keeps the stream position. */
  lemma ChunkStep(consumed: seq<nat>, cache: nat, remain: nat, target: seq<nat>)
    requires remain > 0 && consumed + Chunks(cache, remain) == target
    ensures (consumed + [cache % 64]) + Chunks(cache / 64, remain - 1) == target
  {
    assert Chunks(cache, remain) == [cache % 64] + Chunks(cache / 64, remain - 1);
  }

  /** With the current word used up, the chunks consumed are the whole stream so far,
      and the next word's chunks follow. */
  lemma Refill(consumed: seq<nat>, cache: nat, words: seq<Int63>, d: nat)
    requires d <= |words| && consumed + Chunks(cache, 0) == Stream(words[..d])
    ensures consumed == Stream(words[..d])
    ensures d < |words| ==> consumed + Chunks(words[d], IndexMax) == Stream(words[..d + 1])
  {
    assert consumed + Chunks(cache, 0) == consumed;
    if d < |words| {
      StreamAppend(words, d);
    }
  }

  lemma StreamAppend(words: seq<Int63>, d: nat)
    requires 0 <= d < |words|
    ensures Stream(words[..d + 1]) == Stream(words[..d]) + Chunks(words[d], IndexMax)
  {
    assert words[..d + 1][..d] == words[..d];
  }

  /** `RandomStr(n, choices)`: draws a word, then takes its six-bit chunks lowest first,
      at most `IndexMax` per word; each chunk below `|choices|` picks the next character,
      filling the buffer from its last position down to 0. The words `rand.Int63` would
      return are `words`, in order. */
  method RandomStr(n: int, choices: string, words: seq<Int63>) returns (r: Draw)
    ensures n < 0 <==> r == NegativeLength
    ensures r.Drawn? ==> |r.text| == n && 1 <= r.draws <= |words|
    ensures r.Drawn? && r.draws <= |words| ==>
      var picked := Accepted(Stream(words[..r.draws]), |choices|);
      && |picked| >= n
      && (forall j :: 0 <= j < n ==> r.text[n - 1 - j] == choices[picked[j]])
      && (r.draws > 1 ==> |Accepted(Stream(words[..r.draws - 1]), |choices|)| < n)
    ensures r.Exhausted? ==> n >= 0 && (words == [] || |Accepted(Stream(words), |choices|)| < n)
    ensures n >= 0 && |Accepted(Stream(words), |choices|)| >= n && words != [] ==> r.Drawn?
  {
    if n < 0 {
      return NegativeLength;
    }
    var b := new char[n];
    if |words| == 0 {
      return Exhausted;
    }
    var full, d := Fill(b, choices, words);
    if full {
      r := Drawn(b[..], d);
    } else {
      r := Exhausted;
    }
  }

  /** The loop of `RandomStr` over the buffer `b`: whether the words sufficed to fill it,
      and how many it drew. */
  method Fill(b: array<char>, choices: string, words: seq<Int63>) returns (full: bool, d: nat)
    requires |words| >= 1
    modifies b
    ensures 1 <= d <= |words|
    ensures full ==>
      var picked := Accepted(Stream(words[..d]), |choices|);
      && |picked| >= b.Length
      && (forall j :: 0 <= j < b.Length ==> b[b.Length - 1 - j] == choices[picked[j]])
      && (d > 1 ==> |Accepted(Stream(words[..d - 1]), |choices|)| < b.Length)
    ensures !full ==> |Accepted(Stream(words), |choices|)| < b.Length
  {
    var n := b.Length;
    var i: int := n - 1;
    var cache: nat := words[0];
    var remain: nat := IndexMax;
    d := 1;
    ghost var consumed: seq<nat> := [];
    ghost var picked: seq<nat> := [];
    assert words[..1] == [words[0]];
    assert Stream(words[..1]) == Stream([]) + Chunks(words[0], IndexMax);
    while i >= 0
      invariant -1 <= i < n
      invariant 1 <= d <= |words|
      invariant remain <= IndexMax
      invariant consumed + Chunks(cache, remain) == Stream(words[..d])
      invariant picked == Accepted(consumed, |choices|)
      invariant |picked| == n - 1 - i
      invariant forall j :: i < j < n ==> b[j] == choices[picked[n - 1 - j]]
      invariant d > 1 ==> |Accepted(Stream(words[..d - 1]), |choices|)| < n
      decreases (|words| - d) * 11 + remain
    {
      var more, idx, cache', remain', d' := NextChunk(words, cache, remain, d, consumed);
      if !more {
        return false, d;
      }
      AcceptedStep(consumed, idx, |choices|);
      consumed := consumed + [idx];
      if idx < |choices| {
        b[i] := choices[idx];
        picked := picked + [idx];
        i := i - 1;
      }
      cache, remain, d := cache', remain', d';
    }
    PickedPrefix(consumed, Chunks(cache, remain), |choices|);
    full := true;
  }

  /** The next index of the stream, drawing a new word once the current one is used up
      (`cache & IndexMask`, `cache >>= IndexBits`, `remain--`); `more` is false when no
      word is left to draw. */
  method NextChunk(words: seq<Int63>, cache: nat, remain: nat, d: nat, ghost consumed: seq<nat>)
    returns (more: bool, idx: nat, cache': nat, remain': nat, d': nat)
    requires 1 <= d <= |words| && remain <= IndexMax
    requires consumed + Chunks(cache, remain) == Stream(words[..d])
    ensures !more ==> remain == 0 && d == |words| && consumed == Stream(words)
    ensures more ==>
      && idx <= IndexMask && d <= d' <= |words| && remain' < IndexMax
      && (consumed + [idx]) + Chunks(cache', remain') == Stream(words[..d'])
      && ((d' == d && remain' == remain - 1) || (d' == d + 1 && remain == 0 && remain' == IndexMax - 1))
      && (d' > d ==> consumed == Stream(words[..d]))
  {
    var c, k := cache, remain;
    d' := d;
    if k == 0 {
      Refill(consumed, c, words, d);
      if d == |words| {
        assert words[..d] == words;
        return false, 0, 0, 0, d;
      }
      c, k := words[d], IndexMax;
      d' := d + 1;
    }
    ChunkStep(consumed, c, k, Stream(words[..d']));
    more, idx, cache', remain' := true, c % 64, c / 64, k - 1;
  }

  /** Indices past the last one used do not change which indices were picked first. */
  lemma PickedPrefix(xs: seq<nat>, ys: seq<nat>, m: nat)
    ensures |Accepted(xs + ys, m)| >= |Accepted(xs, m)|
    ensures forall j :: 0 <= j < |Accepted(xs, m)| ==> Accepted(xs + ys, m)[j] == Accepted(xs, m)[j]
  {
    AcceptedConcat(xs, ys, m);
  }

  /** Every character of a drawn text is one of the first 64 choices. */
  lemma DrawnFromChoices(n: int, choices: string, words: seq<Int63>, text: string, draws: nat)
    requires 0 <= draws <= |words|
    requires var picked := Accepted(Stream(words[..draws]), |choices|);
      && |text| == n && |picked| >= n
      && (forall j :: 0 <= j < n ==> text[n - 1 - j] == choices[picked[j]])
    ensures forall k :: 0 <= k < |text| ==> text[k] in choices[..if |choices| < 64 then |choices| else 64]
  {
    StreamChunks(words[..draws]);
    var picked := Accepted(Stream(words[..draws]), |choices|);
    forall k | 0 <= k < |text|
      ensures text[k] in choices[..if |choices| < 64 then |choices| else 64]
    {
      var j := n - 1 - k;
      AcceptedWithin(Stream(words[..draws]), |choices|, j);
      assert j < n && text[n - 1 - j] == choices[picked[j]];
      var idx := picked[j];
      assert 0 <= idx < |choices| && idx <= IndexMask && text[k] == choices[idx];
      assert choices[..if |choices| < 64 then |choices| else 64][idx] == choices[idx];
    }
  }

  /** An accepted index is one of the stream's, so it fits in six bits. */
  lemma {:induction false} AcceptedWithin(xs: seq<nat>, m: nat, j: nat)
    requires (forall i :: 0 <= i < |xs| ==> xs[i] <= IndexMask)
    requires j < |Accepted(xs, m)|
    ensures Accepted(xs, m)[j] <= IndexMask
    decreases |xs|
  {
    var init := xs[..|xs| - 1];
    if j < |Accepted(init, m)| {
      AcceptedWithin(init, m, j);
    }
  }

  lemma {:induction false} StreamChunks(words: seq<Int63>)
    ensures forall i :: 0 <= i < |Stream(words)| ==> Stream(words)[i] <= IndexMask
  {
    if words != [] {
      StreamChunks(words[..|words| - 1]);
    }
  }

  lemma LowercaseRange()
    ensures forall i :: 0 <= i < |Lowercase| ==> 'a' <= Lowercase[i] <= 'z'
  {
  }

  lemma LetterNumRange()
    ensures forall i :: 0 <= i < |LetterNum| ==>
      ('0' <= LetterNum[i] <= '9' || 'a' <= LetterNum[i] <= 'z' || 'A' <= LetterNum[i] <= 'Z')
  {
    assert forall i :: 0 <= i < |Digits| ==> '0' <= Digits[i] <= '9';
    assert forall i :: 0 <= i < |Uppercase| ==> 'A' <= Uppercase[i] <= 'Z';
    LowercaseRange();
  }

  /** `RandLowwerCase(n)`: only `a`-`z`. */
  method RandLowwerCase(n: int, words: seq<Int63>) returns (r: Draw)
    ensures n < 0 <==> r == NegativeLength
    ensures r.Drawn? ==> |r.text| == n && forall k :: 0 <= k < |r.text| ==> 'a' <= r.text[k] <= 'z'
    ensures r.Exhausted? ==> n >= 0 && (words == [] || |Accepted(Stream(words), |Lowercase|)| < n)
  {
    r := RandomStr(n, Lowercase, words);
    if r.Drawn? {
      DrawnFromChoices(n, Lowercase, words, r.text, r.draws);
      LowercaseRange();
    }
  }

  /** `RandLetterNumbers(n)`: only `0`-`9`, `a`-`z` and `A`-`Z`. */
  method RandLetterNumbers(n: int, words: seq<Int63>) returns (r: Draw)
    ensures n < 0 <==> r == NegativeLength
    ensures r.Drawn? ==> |r.text| == n && forall k :: 0 <= k < |r.text| ==>
      ('0' <= r.text[k] <= '9' || 'a' <= r.text[k] <= 'z' || 'A' <= r.text[k] <= 'Z')
  {
    r := RandomStr(n, LetterNum, words);
    if r.Drawn? {
      DrawnFromChoices(n, LetterNum, words, r.text, r.draws);
      LetterNumRange();
    }
  }

  // ------------------------------------------------------------------ sorted keys

  /** Go's `<` on strings: byte-wise lexicographic order (for the characters of a Go
      string's UTF-8 text it agrees with code-point order). */
  predicate Less(a: string, b: string)
    decreases |a|
  {
    |b| > 0 && (|a| == 0 || a[0] < b[0] || (a[0] == b[0] && Less(a[1..], b[1..])))
  }

  lemma {:induction false} LessIrreflexive(a: string)
    ensures !Less(a, a)
    decreases |a|
  {
    if |a| > 0 {
      LessIrreflexive(a[1..]);
    }
  }

  lemma {:induction false} LessTransitive(a: string, b: string, c: string)
    requires Less(a, b) && Less(b, c)
    ensures Less(a, c)
    decreases |a|
  {
    if |a| > 0 && a[0] == b[0] && b[0] == c[0] {
      LessTransitive(a[1..], b[1..], c[1..]);
    }
  }

  lemma {:induction false} LessTotal(a: string, b: string)
    ensures a == b || Less(a, b) || Less(b, a)
    decreases |a|
  {
    if |a| > 0 && |b| > 0 && a[0] == b[0] {
      LessTotal(a[1..], b[1..]);
      if a[1..] == b[1..] {
        assert a == [a[0]] + a[1..] && b == [b[0]] + b[1..];
      }
    }
  }

  lemma LessAsymmetric(a: string, b: string)
    requires Less(a, b)
    ensures !Less(b, a)
  {
    if Less(b, a) {
      LessTransitive(a, b, a);
      LessIrreflexive(a);
    }
  }

  /** `a` is at most `b`. */
  predicate AtMost(a: string, b: string) { !Less(b, a) }

  lemma AtMostTransitive(a: string, b: string, c: string)
    requires AtMost(a, b) && AtMost(b, c)
    ensures AtMost(a, c)
  {
    LessTotal(a, b);
    LessTotal(b, c);
    if Less(c, a) {
      if Less(a, b) {
        LessTransitive(c, a, b);
      } else if Less(b, c) {
        LessTransitive(b, c, a);
      }
    }
  }

  predicate Sorted(s: seq<string>) {
    forall i, j :: 0 <= i < j < |s| ==> AtMost(s[i], s[j])
  }

  /** `s` with `x` placed before the first element that is not less than it. */
  function Insert(x: string, s: seq<string>): (r: seq<string>)
    ensures |r| == |s| + 1
  {
    if s == [] then [x]
    else if Less(s[0], x) then [s[0]] + Insert(x, s[1..])
    else [x] + s
  }

  /** `sort.Strings`. */
  function Sort(s: seq<string>): (r: seq<string>)
    ensures |r| == |s|
  {
    if s == [] then [] else Insert(s[0], Sort(s[1..]))
  }

  lemma {:induction false} InsertSorted(x: string, s: seq<string>)
    requires Sorted(s)
    ensures Sorted(Insert(x, s))
    ensures multiset(Insert(x, s)) == multiset(s) + multiset{x}
  {
    if s != [] {
      var r := Insert(x, s);
      if Less(s[0], x) {
        var rest := Insert(x, s[1..]);
        InsertSorted(x, s[1..]);
        assert s == [s[0]] + s[1..];
        forall j | 0 < j < |r| ensures AtMost(r[0], r[j]) {
          assert r[j] == rest[j - 1];
          assert rest[j - 1] in multiset(rest);
          if rest[j - 1] != x {
            assert rest[j - 1] in multiset(s[1..]);
            var k :| 0 <= k < |s[1..]| && s[1..][k] == rest[j - 1];
            assert s[k + 1] == rest[j - 1];
          } else {
            LessAsymmetric(s[0], x);
          }
        }
      } else {
        forall i, j | 0 <= i < j < |r| ensures AtMost(r[i], r[j]) {
          if i == 0 {
            if j > 1 {
              AtMostTransitive(x, s[0], s[j - 1]);
            }
          }
        }
      }
    }
  }

  lemma {:induction false} SortSpec(s: seq<string>)
    ensures Sorted(Sort(s))
    ensures multiset(Sort(s)) == multiset(s)
  {
    if s != [] {
      SortSpec(s[1..]);
      InsertSorted(s[0], Sort(s[1..]));
      assert s == [s[0]] + s[1..];
    }
  }

  /** Sorted without repeats. */
  predicate StrictlySorted(s: seq<string>) {
    forall i, j :: 0 <= i < j < |s| ==> Less(s[i], s[j])
  }

  lemma SortedDistinct(s: seq<string>)
    requires Sorted(s)
    requires forall i, j :: 0 <= i < j < |s| ==> s[i] != s[j]
    ensures StrictlySorted(s)
  {
    forall i, j | 0 <= i < j < |s| ensures Less(s[i], s[j]) {
      LessTotal(s[i], s[j]);
    }
  }

  lemma DistinctMultiset(s: seq<string>, t: seq<string>)
    requires multiset(s) == multiset(t)
    requires forall i, j :: 0 <= i < j < |t| ==> t[i] != t[j]
    ensures forall i, j :: 0 <= i < j < |s| ==> s[i] != s[j]
  {
    forall i, j | 0 <= i < j < |s| ensures s[i] != s[j] {
      if s[i] == s[j] {
        assert multiset(s)[s[i]] >= 2 by {
          var rest := s[..i] + s[i + 1..];
          assert s == s[..i] + [s[i]] + s[i + 1..];
          assert s[j] in rest by {
            assert rest[j - 1] == s[j];
          }
          assert multiset(s) == multiset(rest) + multiset{s[i]};
        }
        DistinctCount(t, s[i]);
      }
    }
  }

  lemma {:induction false} DistinctCount(t: seq<string>, x: string)
    requires forall i, j :: 0 <= i < j < |t| ==> t[i] != t[j]
    ensures multiset(t)[x] <= 1
  {
    if t != [] {
      var rest := t[1..];
      DistinctCount(rest, x);
      assert t == [t[0]] + rest;
      if t[0] == x {
        forall k | 0 <= k < |rest| ensures rest[k] != x {
          assert rest[k] == t[k + 1];
        }
        assert multiset(rest)[x] == 0;
      }
    }
  }

  /** `SortMapKeys`: the keys of `m` appended in the map's iteration order `iteration`,
      then sorted. */
  method SortMapKeys(m: map<string, string>, iteration: seq<string>) returns (keys: seq<string>)
    requires Enumerates(iteration, m.Keys)
    ensures keys == Sort(iteration)
    ensures StrictlySorted(keys)
    ensures forall k :: k in keys <==> k in m
    ensures |keys| == |m|
  {
    keys := [];
    for i := 0 to |iteration|
      invariant keys == iteration[..i]
    {
      keys := keys + [iteration[i]];
    }
    assert keys == iteration;
    var unsorted := keys;
    keys := Sort(keys);  // sort.Strings(keys)
    SortSpec(unsorted);
    DistinctMultiset(keys, unsorted);
    SortedDistinct(keys);
    forall k ensures k in keys <==> k in m {
      assert k in keys <==> k in multiset(keys);
      assert k in unsorted <==> k in multiset(unsorted);
    }
    EnumerationLength(iteration, m.Keys);
  }

  lemma StrictlySortedDistinct(s: seq<string>)
    requires StrictlySorted(s)
    ensures forall i, j :: 0 <= i < j < |s| ==> s[i] != s[j]
  {
    forall i, j | 0 <= i < j < |s| ensures s[i] != s[j] {
      LessIrreflexive(s[i]);
    }
  }

  /** The first of a strictly sorted list is at most any of its elements. */
  lemma FirstAtMost(b: seq<string>, x: string)
    requires StrictlySorted(b) && x in b
    ensures AtMost(b[0], x)
  {
    var k :| 0 <= k < |b| && b[k] == x;
    if k == 0 {
      LessIrreflexive(x);
    } else {
      LessAsymmetric(b[0], x);
    }
  }

  /** Two strictly sorted lists of the same keys are the same list, so the result of
      `SortMapKeys` depends only on the key set, neither on the values nor on the map's
      iteration order. */
  lemma {:induction false} SortedKeysUnique(a: seq<string>, b: seq<string>)
    requires StrictlySorted(a) && StrictlySorted(b)
    requires forall k :: k in a <==> k in b
    ensures a == b
    decreases |a|
  {
    var ks := set k | k in a;
    StrictlySortedDistinct(a);
    StrictlySortedDistinct(b);
    EnumerationLength(a, ks);
    EnumerationLength(b, ks);
    if a != [] {
      FirstAtMost(b, a[0]);
      FirstAtMost(a, b[0]);
      LessTotal(a[0], b[0]);
      assert a[0] == b[0];
      forall k ensures k in a[1..] <==> k in b[1..] {
        if k in a[1..] {
          var i :| 0 <= i < |a[1..]| && a[1..][i] == k;
          assert a[i + 1] == k && a[0] != k;
          assert k in a;
          var j :| 0 <= j < |b| && b[j] == k;
          assert b[1..][j - 1] == k;
        }
        if k in b[1..] {
          var i :| 0 <= i < |b[1..]| && b[1..][i] == k;
          assert b[i + 1] == k && b[0] != k;
          assert k in b;
          var j :| 0 <= j < |a| && a[j] == k;
          assert a[1..][j - 1] == k;
        }
      }
      SortedKeysUnique(a[1..], b[1..]);
      assert a == [a[0]] + a[1..] && b == [b[0]] + b[1..];
    }
  }
}
