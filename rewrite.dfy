/** The fixed regular expressions and literal replacements of the Rust engine's
    expression preprocessor and template renderers (src/cel.rs, src/template.rs).
    Each pattern's leftmost-first match at the start of a string is written out;
    `ReplaceAllWith` then scans left to right exactly as `Regex::replace_all` and
    `str::replace` do: at each position either a match is replaced and scanning
    resumes after it, or one character is copied. */
module Rewrite {
  import opened Base
  import opened Text

  datatype Pattern =
    | Literal(text: string)       // str::replace(text, _)
    | MethodCall(name: string)    // ([^\.]+)\.NAME\((.+?)\)
    | BytesCall                   // ([^\.]+)\.bcontains\(b"([^"]*)"\)
    | QuotedMatches               // "([^"]*)"\.matches\((.+?)\)
    | HeaderIndex                 // response\.headers\["([^"]*)"\]
    | HeaderMembership            // "([^"]*)" in response\.headers
    | Placeholder                 // \{\{([^}]+)\}\}

  /** A match at the start of the text: its length and its capture groups 1.. */
  datatype Match = Match(length: nat, groups: seq<string>)

  const HeadersPrefix := "response.headers[\""
  const MembershipSuffix := " in response.headers"

  /** The end of a lazy `(.+?)\)` group that starts at `start`: the first `)` after
      the group's first character, provided no newline comes before it. */
  function LazyCloseParen(s: string, start: nat, k: nat): (r: int)
    requires start < k
    requires forall i :: start <= i < k && i < |s| ==> s[i] != '\n'
    ensures r == -1 || (k <= r < |s| && s[r] == ')')
    ensures r != -1 ==> forall i :: start <= i < r ==> s[i] != '\n'
    ensures r != -1 ==> forall i :: k <= i < r ==> s[i] != ')'
    decreases |s| - k
  {
    if k >= |s| || s[k] == '\n' then -1
    else if s[k] == ')' then k
    else LazyCloseParen(s, start, k + 1)
  }

  /** `([^\.]+)\.NAME\((.+?)\)` at index 0: group 1 is everything up to the first `.`. */
  function MatchMethodCall(name: string, s: string): (m: Option<Match>)
    ensures m.Some? ==> 0 < m.value.length <= |s| && |m.value.groups| == 2
  {
    var j := FindChar('.', s, 0);
    var head := "." + name + "(";
    if j <= 0 || !IsPrefix(head, s[j..]) then None
    else
      var start := j + |head|;
      if start >= |s| || s[start] == '\n' then None
      else
        var k := LazyCloseParen(s, start, start + 1);
        if k < 0 then None else Some(Match(k + 1, [s[..j], s[start..k]]))
  }

  /** `([^\.]+)\.bcontains\(b"([^"]*)"\)` at index 0. */
  function MatchBytesCall(s: string): (m: Option<Match>)
    ensures m.Some? ==> 0 < m.value.length <= |s| && |m.value.groups| == 2
  {
    var j := FindChar('.', s, 0);
    var head := ".bcontains(b\"";
    if j <= 0 || !IsPrefix(head, s[j..]) then None
    else
      var start := j + |head|;
      var q := FindChar('"', s, start);
      if q < 0 || q + 1 >= |s| || s[q + 1] != ')' then None
      else Some(Match(q + 2, [s[..j], s[start..q]]))
  }

  /** `"([^"]*)"\.matches\((.+?)\)` at index 0. */
  function MatchQuotedMatches(s: string): (m: Option<Match>)
    ensures m.Some? ==> 0 < m.value.length <= |s| && |m.value.groups| == 2
  {
    if s == [] || s[0] != '"' then None
    else
      var q := FindChar('"', s, 1);
      if q < 0 || !IsPrefix(".matches(", s[q + 1..]) then None
      else
        var start := q + 10;
        if start >= |s| || s[start] == '\n' then None
        else
          var k := LazyCloseParen(s, start, start + 1);
          if k < 0 then None else Some(Match(k + 1, [s[1..q], s[start..k]]))
  }

  /** `response\.headers\["([^"]*)"\]` at index 0. */
  function MatchHeaderIndex(s: string): (m: Option<Match>)
    ensures m.Some? ==> 0 < m.value.length <= |s| && |m.value.groups| == 1
  {
    if !IsPrefix(HeadersPrefix, s) then None
    else
      var q := FindChar('"', s, |HeadersPrefix|);
      if q < 0 || q + 1 >= |s| || s[q + 1] != ']' then None
      else Some(Match(q + 2, [s[|HeadersPrefix|..q]]))
  }

  /** `"([^"]*)" in response\.headers` at index 0. */
  function MatchHeaderMembership(s: string): (m: Option<Match>)
    ensures m.Some? ==> 0 < m.value.length <= |s| && |m.value.groups| == 1
  {
    if s == [] || s[0] != '"' then None
    else
      var q := FindChar('"', s, 1);
      if q < 0 || !IsPrefix(MembershipSuffix, s[q + 1..]) then None
      else Some(Match(q + 1 + |MembershipSuffix|, [s[1..q]]))
  }

  /** `\{\{([^}]+)\}\}` at index 0: group 1 runs to the first `}`, which must be doubled. */
  function MatchPlaceholder(s: string): (m: Option<Match>)
    ensures m.Some? ==> 0 < m.value.length <= |s| && |m.value.groups| == 1
  {
    if !IsPrefix("{{", s) then None
    else
      var q := FindChar('}', s, 2);
      if q <= 2 || q + 1 >= |s| || s[q + 1] != '}' then None
      else Some(Match(q + 2, [s[2..q]]))
  }

  function MatchAt(p: Pattern, s: string): (m: Option<Match>)
    ensures m.Some? ==> 0 < m.value.length <= |s|
  {
    match p
    case Literal(t) => if t != [] && IsPrefix(t, s) then Some(Match(|t|, [])) else None
    case MethodCall(name) => MatchMethodCall(name, s)
    case BytesCall => MatchBytesCall(s)
    case QuotedMatches => MatchQuotedMatches(s)
    case HeaderIndex => MatchHeaderIndex(s)
    case HeaderMembership => MatchHeaderMembership(s)
    case Placeholder => MatchPlaceholder(s)
  }

  /** What a pattern matches at the start of a text. */
  type Matcher = string -> Option<Match>

  /** Every match is non-empty and lies within the text. */
  ghost predicate Advances(m: Matcher) {
    forall s {:trigger m(s)} :: m(s).Some? ==> 0 < m(s).value.length <= |s|
  }

  function MatcherOf(p: Pattern): (m: Matcher)
    ensures Advances(m)
  {
    s => MatchAt(p, s)
  }

  /** The left-to-right scan of `replace_all` for any matcher: at each position either
      a match is replaced and scanning resumes after it, or one character is copied. */
  function Scan(m: Matcher, s: string, f: seq<string> -> string): string
    requires Advances(m)
    decreases |s|
  {
    if s == [] then []
    else
      match m(s)
      case Some(x) => f(x.groups) + Scan(m, s[x.length..], f)
      case None => [s[0]] + Scan(m, s[1..], f)
  }

  /** `Regex::replace_all(s, f)`: every leftmost, non-overlapping match is replaced by
      `f` of its groups; the replacement text is never scanned again. */
  function ReplaceAllWith(p: Pattern, s: string, f: seq<string> -> string): string
    decreases |s|
  {
    if s == [] then []
    else
      match MatchAt(p, s)
      case Some(m) => f(m.groups) + ReplaceAllWith(p, s[m.length..], f)
      case None => [s[0]] + ReplaceAllWith(p, s[1..], f)
  }

  /** `ReplaceAllWith` is the scan with the pattern's matcher. */
  lemma {:induction false} ReplaceAllIsScan(p: Pattern, s: string, f: seq<string> -> string)
    ensures ReplaceAllWith(p, s, f) == Scan(MatcherOf(p), s, f)
    decreases |s|
  {
    if s != [] {
      assert MatcherOf(p)(s) == MatchAt(p, s);
      match MatchAt(p, s)
      case Some(m) => ReplaceAllIsScan(p, s[m.length..], f);
      case None => ReplaceAllIsScan(p, s[1..], f);
    }
  }

  /** `str::replace(s, from, to)` for a non-empty `from`. Every literal the engines
      replace is non-empty (a constant, a name followed by `()`, or a `{{key}}`
      placeholder), so the replacement of the empty text (`to` at every character
      boundary) is not modelled: an empty `Literal` matches nowhere. */
  function ReplaceAll(s: string, from: string, to: string): string {
    ReplaceAllWith(Literal(from), s, Always(to))
  }

  /** The replacer that ignores the groups. */
  function Always(to: string): seq<string> -> string {
    _ => to
  }

  predicate NoMatchIn(p: Pattern, s: string) {
    forall i :: 0 <= i < |s| ==> MatchAt(p, s[i..]).None?
  }

  /** Text in which the pattern matches nowhere comes out unchanged. */
  lemma NoMatchUnchanged(p: Pattern, s: string, f: seq<string> -> string)
    requires NoMatchIn(p, s)
    ensures ReplaceAllWith(p, s, f) == s
  {
    UnmatchedPrefix(p, s, |s|, f);
    assert s[..|s|] == s;
    assert s[|s|..] == [];
  }

  /** A match at the start is replaced and scanning goes on after it. */
  lemma MatchReplaced(p: Pattern, s: string, f: seq<string> -> string, m: Match)
    requires MatchAt(p, s) == Some(m)
    ensures ReplaceAllWith(p, s, f) == f(m.groups) + ReplaceAllWith(p, s[m.length..], f)
  {
  }

  lemma CopyFirst(p: Pattern, s: string, f: seq<string> -> string)
    requires s != [] && MatchAt(p, s).None?
    ensures ReplaceAllWith(p, s, f) == [s[0]] + ReplaceAllWith(p, s[1..], f)
  {
  }

  /** A prefix of length `k` at none of whose positions the pattern matches is copied. */
  lemma UnmatchedPrefix(p: Pattern, s: string, k: nat, f: seq<string> -> string)
    requires k <= |s|
    requires forall i :: 0 <= i < k ==> MatchAt(p, s[i..]).None?
    ensures ReplaceAllWith(p, s, f) == s[..k] + ReplaceAllWith(p, s[k..], f)
  {
    var m := MatcherOf(p);
    forall i | 0 <= i < k ensures m(s[i..]).None? {
      assert MatchAt(p, s[i..]).None?;
    }
    ScanUnmatchedPrefix(m, s, k, f);
    ReplaceAllIsScan(p, s, f);
    ReplaceAllIsScan(p, s[k..], f);
  }

  /** The same over any matcher. */
  lemma {:induction false} ScanUnmatchedPrefix(m: Matcher, s: string, k: nat, f: seq<string> -> string)
    requires Advances(m) && k <= |s|
    requires forall i :: 0 <= i < k ==> m(s[i..]).None?
    ensures Scan(m, s, f) == s[..k] + Scan(m, s[k..], f)
    decreases k
  {
    if k == 0 {
      assert s[0..] == s;
    } else {
      ScanUnmatchedPrefix(m, s, k - 1, f);
      var u := s[k - 1..];
      ScanCopy(m, u, f);
      assert u[1..] == s[k..];
      PrefixSnoc(s, k, Scan(m, s[k..], f));
    }
  }

  lemma PrefixSnoc(s: string, k: nat, x: string)
    requires 0 < k <= |s|
    ensures s[..k - 1] + ([s[k - 1]] + x) == s[..k] + x
  {
    assert s[..k] == s[..k - 1] + [s[k - 1]];
  }

  lemma ScanCopy(m: Matcher, u: string, f: seq<string> -> string)
    requires Advances(m) && u != [] && m(u).None?
    ensures Scan(m, u, f) == [u[0]] + Scan(m, u[1..], f)
  {
  }

  /** `str::replace` is split-and-join: the text between leftmost non-overlapping
      occurrences is kept and each occurrence becomes the replacement. */
  lemma ReplaceAllIsSplitJoin(s: string, from: string, to: string)
    requires from != []
    ensures ReplaceAll(s, from, to) == Join(Split(s, from), to)
  {
    LiteralMatcher(from);
    ScanSplitJoin(MatcherOf(Literal(from)), s, from, to);
    ReplaceAllIsScan(Literal(from), s, Always(to));
  }

  /** The text before the first occurrence is copied and the occurrence replaced. */
  lemma ReplaceFirst(s: string, from: string, to: string, i: nat)
    requires from != [] && i == IndexOf(from, s, 0)
    ensures ReplaceAll(s, from, to) == s[..i] + to + ReplaceAll(s[i + |from|..], from, to)
  {
    LiteralMatcher(from);
    ScanLiteralFirst(MatcherOf(Literal(from)), s, from, to, i);
    ReplaceAllIsScan(Literal(from), s, Always(to));
    ReplaceAllIsScan(Literal(from), s[i + |from|..], Always(to));
  }

  /** `m` matches the literal text `t` and nothing else. */
  ghost predicate FindsLiteral(m: Matcher, t: string) {
    forall u {:trigger m(u)} :: m(u) == if t != [] && IsPrefix(t, u) then Some(Match(|t|, [])) else None
  }

  lemma LiteralMatcher(t: string)
    ensures FindsLiteral(MatcherOf(Literal(t)), t)
  {
  }

  /** Split-and-join for any literal matcher. */
  lemma {:induction false} ScanSplitJoin(m: Matcher, s: string, from: string, to: string)
    requires Advances(m) && FindsLiteral(m, from) && from != []
    ensures Scan(m, s, Always(to)) == Join(Split(s, from), to)
    decreases |s|
  {
    var i := IndexOf(from, s, 0);
    if i < 0 {
      LiteralUnmatched(m, s, from, |s|);
      ScanUnmatchedPrefix(m, s, |s|, Always(to));
      assert s[..|s|] == s;
      assert s[|s|..] == [];
    } else {
      var rest := s[i + |from|..];
      ScanLiteralFirst(m, s, from, to, i);
      ScanSplitJoin(m, rest, from, to);
      var r := Split(rest, from);
      assert Split(s, from) == [s[..i]] + r;
      JoinCons(s[..i], r, to);
    }
  }

  lemma JoinCons(x: string, r: seq<string>, sep: string)
    requires |r| >= 1
    ensures Join([x] + r, sep) == x + sep + Join(r, sep)
  {
    assert ([x] + r)[1..] == r;
  }

  /** A literal matcher finds nothing before the first occurrence. */
  lemma LiteralUnmatched(m: Matcher, s: string, from: string, i: int)
    requires FindsLiteral(m, from) && from != [] && i <= |s|
    requires forall j :: 0 <= j < i ==> !OccursAt(from, s, j)
    ensures forall j :: 0 <= j < i ==> m(s[j..]).None?
  {
    forall j | 0 <= j < i ensures m(s[j..]).None? {
      if IsPrefix(from, s[j..]) {
        assert s[j..][..|from|] == s[j..j + |from|];
        assert OccursAt(from, s, j);
      }
    }
  }

  /** The text before the first match is copied and the match replaced. */
  lemma ScanFirst(m: Matcher, s: string, f: seq<string> -> string, i: nat, x: Match)
    requires Advances(m) && i < |s|
    requires forall j :: 0 <= j < i ==> m(s[j..]).None?
    requires m(s[i..]) == Some(x)
    ensures i + x.length <= |s|
    ensures Scan(m, s, f) == s[..i] + f(x.groups) + Scan(m, s[i + x.length..], f)
  {
    ScanUnmatchedPrefix(m, s, i, f);
    var rest := s[i..];
    assert rest[x.length..] == s[i + x.length..];
  }

  /** The first-occurrence step for any literal matcher. */
  lemma ScanLiteralFirst(m: Matcher, s: string, from: string, to: string, i: nat)
    requires Advances(m) && FindsLiteral(m, from) && from != [] && i == IndexOf(from, s, 0)
    ensures Scan(m, s, Always(to)) == s[..i] + to + Scan(m, s[i + |from|..], Always(to))
  {
    LiteralUnmatched(m, s, from, i);
    assert s[i..][..|from|] == s[i..i + |from|];
    var x := Match(|from|, []);
    assert m(s[i..]) == Some(x);
    ScanFirst(m, s, Always(to), i, x);
    assert Always(to)(x.groups) == to;
    assert s[i + x.length..] == s[i + |from|..];
  }

  /** Literal replacement leaves text without an occurrence of the pattern untouched. */
  lemma ReplaceAbsent(s: string, from: string, to: string)
    requires !Occurs(from, s)
    ensures ReplaceAll(s, from, to) == s
  {
    forall i | 0 <= i < |s| ensures MatchAt(Literal(from), s[i..]).None? {
      if from != [] && IsPrefix(from, s[i..]) {
        assert s[i..][..|from|] == s[i..i + |from|];
        assert OccursAt(from, s, i);
      }
    }
    NoMatchUnchanged(Literal(from), s, Always(to));
  }

  /** Replacing a pattern by itself changes nothing. */
  lemma {:induction false} ReplaceBySelf(s: string, t: string)
    ensures ReplaceAll(s, t, t) == s
    decreases |s|
  {
    if s != [] {
      match MatchAt(Literal(t), s)
      case Some(m) =>
        ReplaceBySelf(s[m.length..], t);
        assert s == t + s[|t|..];
      case None =>
        ReplaceBySelf(s[1..], t);
        assert s == [s[0]] + s[1..];
    }
  }

  /** Replacing every occurrence of one character leaves only the text's other
      characters and those of the replacement. */
  lemma {:induction false} ReplaceCharacter(s: string, c: char, to: string)
    ensures forall x :: x in ReplaceAll(s, [c], to) ==> (x in s && x != c) || x in to
    decreases |s|
  {
    if s != [] {
      ReplaceCharacter(s[1..], c, to);
      if s[0] == c {
        assert MatchAt(Literal([c]), s) == Some(Match(1, []));
        assert ReplaceAll(s, [c], to) == to + ReplaceAll(s[1..], [c], to);
      } else {
        assert ReplaceAll(s, [c], to) == [s[0]] + ReplaceAll(s[1..], [c], to);
      }
    }
  }

  /** Text without `{{` holds no placeholder. */
  lemma NoPlaceholderWithoutBraces(t: string)
    requires !Occurs("{{", t)
    ensures NoMatchIn(Placeholder, t)
  {
    forall i | 0 <= i < |t| ensures MatchAt(Placeholder, t[i..]).None? {
      if IsPrefix("{{", t[i..]) {
        assert t[i..][..2] == t[i..i + 2];
        assert OccursAt("{{", t, i);
      }
    }
  }

  /** A placeholder is matched up to its first `}`, which must be doubled. */
  lemma PlaceholderMatch(name: string, rest: string)
    requires name != [] && '}' !in name
    ensures MatchAt(Placeholder, "{{" + name + "}}" + rest) == Some(Match(|name| + 4, [name]))
  {
    var s := "{{" + name + "}}" + rest;
    assert s[..2] == "{{";
    forall i | 2 <= i < |name| + 2 ensures s[i] != '}' {
      assert s[i] == name[i - 2];
    }
    assert s[|name| + 2] == '}' && s[|name| + 3] == '}';
    assert FindChar('}', s, 2) == |name| + 2;
    assert s[2..|name| + 2] == name;
  }
}
