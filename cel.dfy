/** The expression environment of the Rust engine (src/cel.rs): variables, the
    current response and the cache of rule verdicts; the textual preprocessor that
    turns probe-rule syntax into plain CEL; rule execution and output extraction.
    Compiling and running CEL and matching regular expressions are oracles. */
module Cel {
  import opened Base
  import opened Text
  import opened Rewrite
  import opened Values
  import opened PocModel
  import Utf8

  // ---------------------------------------------------------------- response

  datatype UrlValue = UrlValue(
    full: string, scheme: string, domain: string, host: string,
    port: string, path: string, query: string, fragment: string)

  datatype ResponseValue = ResponseValue(
    status: int,
    headers: map<string, string>,
    body: seq<Byte>,
    bodyString: string,
    contentType: string,
    url: UrlValue,
    redirect: bool,
    latency: int,
    raw: seq<Byte>,
    rawString: string)

  function DefaultResponse(): ResponseValue {
    ResponseValue(0, map[], [], "", "", UrlValue("", "", "", "", "", "", "", ""), false, 0, [], "")
  }

  // ---------------------------------------------------------------- oracles

  /** Compiling and executing a CEL text against a context. */
  datatype CelOutcome = CompileFailed(compileError: string) | ExecFailed(execError: string) | Evaluated(value: Value)
  type CelEngine = (string, map<string, Value>) -> CelOutcome

  /** Compiling a pattern and taking the captures of its leftmost match in a text:
      `names[i]` is the name of group `i` (group 0, the whole match, has none) and
      `groups[i]` its text when it took part in the match. */
  datatype RegexOutcome =
    | InvalidPattern(patternError: string)
    | NoMatch
    | Matched(names: seq<Option<string>>, groups: seq<Option<string>>)
  type RegexEngine = (string, string) -> RegexOutcome

  // ---------------------------------------------------------------- header names

  /** `replace("-", "_")` on single characters. */
  function DashToUnderscore(s: string): (r: string)
    ensures |r| == |s| && '-' !in r
    ensures forall i :: 0 <= i < |s| ==> r[i] == (if s[i] == '-' then '_' else s[i])
  {
    if s == [] then [] else [if s[0] == '-' then '_' else s[0]] + DashToUnderscore(s[1..])
  }

  lemma {:induction false} ReplaceDash(s: string)
    ensures ReplaceAll(s, "-", "_") == DashToUnderscore(s)
    decreases |s|
  {
    if s != [] {
      ReplaceDash(s[1..]);
      if s[0] == '-' {
        assert s[..1] == "-";
        MatchReplaced(Literal("-"), s, Always("_"), Match(1, []));
      } else {
        assert s[..1] != "-";
        CopyFirst(Literal("-"), s, Always("_"));
      }
    }
  }

  /** The identifier a response header is known by: `response_headers_` followed by
      the name lower-cased with `-` turned into `_`. */
  function FlatHeader(name: string): string {
    "response_headers_" + ReplaceAll(ToLower(name), "-", "_")
  }

  /** Flattened names are lower case and dash-free, and do not depend on case. */
  lemma FlatHeaderShape(name: string, other: string)
    ensures FlatHeader(name) == "response_headers_" + DashToUnderscore(ToLower(name))
    ensures '-' !in FlatHeader(name) && IsLower(FlatHeader(name))
    ensures ToLower(name) == ToLower(other) ==> FlatHeader(name) == FlatHeader(other)
  {
    ReplaceDash(ToLower(name));
    var d := DashToUnderscore(ToLower(name));
    var f := FlatHeader(name);
    forall i | 0 <= i < |f| ensures !IsUpperAscii(f[i]) {
      if i >= 17 {
        assert f[i] == d[i - 17];
      }
    }
  }

  // ---------------------------------------------------------------- context

  /** The fixed flattened response fields bound in every context. */
  function ResponseFields(r: ResponseValue): map<string, Value> {
    map[
      "response_status" := VInt(r.status),
      "response_body_string" := VStr(r.bodyString),
      "response_content_type" := VStr(r.contentType),
      "response_redirect" := VBool(r.redirect),
      "response_latency" := VInt(r.latency),
      "response_body" := VBytes(r.body),
      "response_url_full" := VStr(r.url.full),
      "response_url_scheme" := VStr(r.url.scheme),
      "response_url_domain" := VStr(r.url.domain),
      "response_url_host" := VStr(r.url.host),
      "response_url_port" := VStr(r.url.port),
      "response_url_path" := VStr(r.url.path),
      "response_url_query" := VStr(r.url.query),
      "response_url_fragment" := VStr(r.url.fragment)]
  }

  /** The header bindings added one by one in `keys` order; a later header whose name
      flattens the same way replaces an earlier one. */
  function HeaderBindings(keys: seq<string>, headers: map<string, string>): map<string, Value>
    requires forall i :: 0 <= i < |keys| ==> keys[i] in headers
    decreases |keys|
  {
    if keys == [] then map[]
    else
      var last := keys[|keys| - 1];
      HeaderBindings(keys[..|keys| - 1], headers)[FlatHeader(last) := VStr(headers[last])]
  }

  /** `create_context`: the variables, then the response fields, then the headers in
      iteration order, each binding replacing an earlier one of the same name. */
  function ContextOf(vars: map<string, Scalar>, r: ResponseValue, order: KeyOrder): map<string, Value>
    requires ValidOrder(order)
  {
    assert Enumerates(order(r.headers.Keys), r.headers.Keys);
    var base: map<string, Value> := vars;
    base + ResponseFields(r) + HeaderBindings(order(r.headers.Keys), r.headers)
  }

  /** Every bound header name is the flattening of some header of the response, and the
      value under a header's flattened name is that of the last header so flattened. */
  lemma {:induction false} HeaderBindingsLastWins(keys: seq<string>, headers: map<string, string>, j: nat)
    requires forall i :: 0 <= i < |keys| ==> keys[i] in headers
    requires j < |keys|
    requires forall i :: j < i < |keys| ==> FlatHeader(keys[i]) != FlatHeader(keys[j])
    ensures FlatHeader(keys[j]) in HeaderBindings(keys, headers)
    ensures HeaderBindings(keys, headers)[FlatHeader(keys[j])] == VStr(headers[keys[j]])
    decreases |keys|
  {
    if j < |keys| - 1 {
      var init := keys[..|keys| - 1];
      assert init[j] == keys[j];
      forall i | j < i < |init| ensures FlatHeader(init[i]) != FlatHeader(init[j]) {
        assert init[i] == keys[i];
      }
      HeaderBindingsLastWins(init, headers, j);
    }
  }

  lemma {:induction false} HeaderBindingsKeys(keys: seq<string>, headers: map<string, string>)
    requires forall i :: 0 <= i < |keys| ==> keys[i] in headers
    ensures forall n :: n in HeaderBindings(keys, headers) ==> exists i :: 0 <= i < |keys| && FlatHeader(keys[i]) == n
    decreases |keys|
  {
    if keys != [] {
      var init := keys[..|keys| - 1];
      HeaderBindingsKeys(init, headers);
      forall n | n in HeaderBindings(keys, headers) ensures exists i :: 0 <= i < |keys| && FlatHeader(keys[i]) == n {
        if n in HeaderBindings(init, headers) {
          var i :| 0 <= i < |init| && FlatHeader(init[i]) == n;
          assert keys[i] == init[i];
        } else {
          assert FlatHeader(keys[|keys| - 1]) == n;
        }
      }
    }
  }

  /** A header whose flattened name no other header shares is visible in the context
      under that name, whatever the variables and the visiting order. */
  lemma ContextHeader(vars: map<string, Scalar>, r: ResponseValue, order: KeyOrder, h: string)
    requires ValidOrder(order) && h in r.headers
    requires forall h' :: h' in r.headers && h' != h ==> FlatHeader(h') != FlatHeader(h)
    ensures FlatHeader(h) in ContextOf(vars, r, order)
    ensures ContextOf(vars, r, order)[FlatHeader(h)] == VStr(r.headers[h])
  {
    var keys := order(r.headers.Keys);
    assert Enumerates(keys, r.headers.Keys);
    var j :| 0 <= j < |keys| && keys[j] == h;
    forall i | j < i < |keys| ensures FlatHeader(keys[i]) != FlatHeader(keys[j]) {
      assert keys[i] != keys[j];
    }
    HeaderBindingsLastWins(keys, r.headers, j);
  }

  // ---------------------------------------------------------------- rule calls

  function Verdict(b: bool): string {
    if b then "true" else "false"
  }

  /** Each cached rule's call token `name()`, in `names` order, replaced everywhere by
      the literal of its verdict. */
  function SubstituteRuleCalls(e: string, names: seq<string>, results: map<string, bool>): string
    requires forall i :: 0 <= i < |names| ==> names[i] in results
    decreases |names|
  {
    if names == [] then e
    else SubstituteRuleCalls(ReplaceAll(e, names[0] + "()", Verdict(results[names[0]])), names[1..], results)
  }

  /** One step of the substitution is split-and-join: every leftmost occurrence of the
      call token becomes the verdict and the text between occurrences is kept. */
  lemma SubstituteStep(e: string, names: seq<string>, results: map<string, bool>)
    requires names != [] && forall i :: 0 <= i < |names| ==> names[i] in results
    ensures SubstituteRuleCalls(e, names, results)
         == SubstituteRuleCalls(Join(Split(e, names[0] + "()"), Verdict(results[names[0]])), names[1..], results)
    ensures forall k :: 0 <= k < |Split(e, names[0] + "()")| ==> !Occurs(names[0] + "()", Split(e, names[0] + "()")[k])
  {
    ReplaceAllIsSplitJoin(e, names[0] + "()", Verdict(results[names[0]]));
    SplitPiecesLackSeparator(e, names[0] + "()");
  }

  /** Call tokens of rules without a cached verdict are left alone: text in which no
      cached rule's token occurs comes through unchanged. */
  lemma {:induction false} UncachedCallsUntouched(e: string, names: seq<string>, results: map<string, bool>)
    requires forall i :: 0 <= i < |names| ==> names[i] in results
    requires forall i :: 0 <= i < |names| ==> !Occurs(names[i] + "()", e)
    ensures SubstituteRuleCalls(e, names, results) == e
    decreases |names|
  {
    if names != [] {
      ReplaceAbsent(e, names[0] + "()", Verdict(results[names[0]]));
      UncachedCallsUntouched(e, names[1..], results);
    }
  }

  /** A cached name that ends another rule's name rewrites inside that rule's call:
      with `b` cached as true, `ab()` becomes `atrue`. */
  lemma SuffixNameInterferes()
    ensures SubstituteRuleCalls("ab()", ["b"], map["b" := true]) == "atrue"
  {
    var s := "ab()";
    assert MatchAt(Literal("b()"), s).None? by {
      assert s[..3] != "b()" by { assert s[0] == 'a'; }
    }
    CopyFirst(Literal("b()"), s, Always("true"));
    assert s[1..] == "b()" + "";
    assert s[1..][..3] == "b()";
    MatchReplaced(Literal("b()"), s[1..], Always("true"), Match(3, []));
    assert s[1..][3..] == "";
    assert ["b"][1..] == [];
  }

  // ---------------------------------------------------------------- accessors

  /** The dotted response accessors and their flattened names, in rewriting order. */
  const Accessors: seq<(string, string)> := [
    ("response.status", "response_status"),
    ("response.body_string", "response_body_string"),
    ("response.content_type", "response_content_type"),
    ("response.redirect", "response_redirect"),
    ("response.latency", "response_latency"),
    ("response.body", "response_body"),
    ("response.url.full", "response_url_full"),
    ("response.url.scheme", "response_url_scheme"),
    ("response.url.domain", "response_url_domain"),
    ("response.url.host", "response_url_host"),
    ("response.url.port", "response_url_port"),
    ("response.url.path", "response_url_path"),
    ("response.url.query", "response_url_query"),
    ("response.url.fragment", "response_url_fragment")]

  function ReplaceEach(e: string, pairs: seq<(string, string)>): string
    decreases |pairs|
  {
    if pairs == [] then e else ReplaceEach(ReplaceAll(e, pairs[0].0, pairs[0].1), pairs[1..])
  }

  function RewriteAccessors(e: string): string {
    ReplaceEach(e, Accessors)
  }

  /** Text free of every pattern passes a chain of replacements unchanged. */
  lemma {:induction false} ReplaceEachAbsent(e: string, pairs: seq<(string, string)>)
    requires forall i :: 0 <= i < |pairs| ==> !Occurs(pairs[i].0, e)
    ensures ReplaceEach(e, pairs) == e
    decreases |pairs|
  {
    if pairs != [] {
      ReplaceAbsent(e, pairs[0].0, pairs[0].1);
      ReplaceEachAbsent(e, pairs[1..]);
    }
  }

  /** Text without `.` is left alone by the accessor rewrites. */
  lemma AccessorsNeedDot(e: string)
    requires '.' !in e
    ensures RewriteAccessors(e) == e
  {
    forall i | 0 <= i < |Accessors| ensures !Occurs(Accessors[i].0, e) {
      assert Accessors[i].0[8] == '.';
      AbsentCharBlocks(Accessors[i].0, e, 8);
    }
    ReplaceEachAbsent(e, Accessors);
  }

  /** A pattern that occurs at the very start of a text it spans replaces it whole. */
  lemma ReplaceWhole(s: string, to: string)
    requires s != []
    ensures ReplaceAll(s, s, to) == to
  {
    assert s[..|s|] == s;
    MatchReplaced(Literal(s), s, Always(to), Match(|s|, []));
    assert s[|s|..] == [];
  }

  /** A chain whose first pattern is absent, whose second pattern is the whole text and
      whose later patterns all need a character the second replacement lacks, turns the
      text into the second replacement. */
  lemma {:induction false} SecondRewriteWins(e: string, pairs: seq<(string, string)>, c: char, k: nat)
    requires |pairs| >= 2 && e != []
    requires !Occurs(pairs[0].0, e) && pairs[1].0 == e && c !in pairs[1].1
    requires forall i :: 2 <= i < |pairs| ==> k < |pairs[i].0| && pairs[i].0[k] == c
    ensures ReplaceEach(e, pairs) == pairs[1].1
  {
    ReplaceAbsent(e, pairs[0].0, pairs[0].1);
    ReplaceWhole(e, pairs[1].1);
    var rest := pairs[2..];
    forall i | 0 <= i < |rest| ensures !Occurs(rest[i].0, pairs[1].1) {
      assert rest[i] == pairs[i + 2];
      AbsentCharBlocks(rest[i].0, pairs[1].1, k);
    }
    ReplaceEachAbsent(pairs[1].1, rest);
    assert pairs[1..][1..] == rest;
  }

  /** `response.body_string` is flattened whole: its own rewrite runs before the one for
      its prefix `response.body`, and leaves no `.` for the later ones. */
  lemma BodyStringAccessor()
    ensures RewriteAccessors("response.body_string") == "response_body_string"
  {
    assert !Occurs("response.status", "response.body_string") by {
      assert "response.status"[13] == 'u';
      assert 'u' !in "response.body_string";
      AbsentCharBlocks("response.status", "response.body_string", 13);
    }
    forall i | 2 <= i < |Accessors| ensures 8 < |Accessors[i].0| && Accessors[i].0[8] == '.' {
    }
    SecondRewriteWins("response.body_string", Accessors, '.', 8);
  }

  // ---------------------------------------------------------------- method calls

  /** Rebuilds a prefix call `fname(group1, group2)`. */
  function PrefixCall(fname: string): seq<string> -> string {
    g => if |g| == 2 then fname + "(" + g[0] + ", " + g[1] + ")" else ""
  }

  /** `contains(group1, "group2")` for the byte-string form. */
  function BytesToContains(): seq<string> -> string {
    g => if |g| == 2 then "contains(" + g[0] + ", \"" + g[1] + "\")" else ""
  }

  /** `contains(group2, "group1")`: the pattern moves to the second argument. */
  function MatchesToContains(): seq<string> -> string {
    g => if |g| == 2 then "contains(" + g[1] + ", \"" + g[0] + "\")" else ""
  }

  function HeaderIdentifier(): seq<string> -> string {
    g => if |g| == 1 then FlatHeader(g[0]) else ""
  }

  function HeaderPresent(): seq<string> -> string {
    g => if |g| == 1 then FlatHeader(g[0]) + " != \"\"" else ""
  }

  /** The pattern rewrites after the accessors, in order: the three method calls, byte
      containment, swapped `matches`, header indexing and header membership. */
  const CallRewrites: seq<(Pattern, seq<string> -> string)> := [
    (MethodCall("contains"), PrefixCall("contains")),
    (MethodCall("startsWith"), PrefixCall("starts_with")),
    (MethodCall("endsWith"), PrefixCall("ends_with")),
    (BytesCall, BytesToContains()),
    (QuotedMatches, MatchesToContains()),
    (HeaderIndex, HeaderIdentifier()),
    (HeaderMembership, HeaderPresent())]

  /** Each rewrite of `steps` applied in turn to the whole text. */
  function RewriteEach(e: string, steps: seq<(Pattern, seq<string> -> string)>): string
    decreases |steps|
  {
    if steps == [] then e else RewriteEach(ReplaceAllWith(steps[0].0, e, steps[0].1), steps[1..])
  }

  /** The rewrites after rule-call substitution: response accessors, then the pattern
      rewrites. */
  function RewriteSyntax(calls: string): string {
    RewriteEach(RewriteAccessors(calls), CallRewrites)
  }

  /** `preprocess_expression`: rule verdicts, in the cache's iteration order, then the
      syntax rewrites. */
  function Preprocess(e: string, results: map<string, bool>, order: KeyOrder): string
    requires ValidOrder(order)
  {
    assert Enumerates(order(results.Keys), results.Keys);
    RewriteSyntax(SubstituteRuleCalls(e, order(results.Keys), results))
  }

  /** `X.name(Y)` with a `.`-free `X` and a one-line `Y` free of `)`: the whole of `X`
      becomes the first argument (the group takes everything before the first `.`). */
  lemma MethodCallMatch(x: string, name: string, y: string, rest: string)
    requires x != [] && '.' !in x
    requires y != [] && ')' !in y && '\n' !in y
    ensures MatchAt(MethodCall(name), x + "." + name + "(" + y + ")" + rest)
         == Some(Match(|x| + |name| + |y| + 3, [x, y]))
  {
    var s := x + "." + name + "(" + y + ")" + rest;
    MethodCallText(x, name, y, rest);
    MethodCallAt(s, name, |x|, |x| + |name| + 2 + |y|);
  }

  /** Where the parts of `X.name(Y)` lie. */
  lemma MethodCallText(x: string, name: string, y: string, rest: string)
    requires x != [] && '.' !in x
    requires y != [] && ')' !in y && '\n' !in y
    ensures var s := x + "." + name + "(" + y + ")" + rest;
      var start := |x| + |name| + 2;
      var close := start + |y|;
      && close < |s|
      && (forall i :: 0 <= i < |x| ==> s[i] != '.')
      && IsPrefix("." + name + "(", s[|x|..])
      && s[close] == ')'
      && (forall i :: start <= i < close ==> s[i] != '\n' && s[i] != ')')
      && s[..|x|] == x && s[start..close] == y && s[close + 1..] == rest
  {
    var s := x + "." + name + "(" + y + ")" + rest;
    var j := |x|;
    forall i | 0 <= i < j ensures s[i] != '.' {
      assert s[i] == x[i];
    }
    var head := "." + name + "(";
    assert s[j..][..|head|] == head;
    var start := j + |head|;
    var close := start + |y|;
    forall i | start <= i < close ensures s[i] != '\n' && s[i] != ')' {
      assert s[i] == y[i - start];
    }
    assert s[close] == ')';
    assert s[..j] == x;
    assert s[start..close] == y;
    assert s[close + 1..] == rest;
  }

  /** `([^\.]+)\.NAME\((.+?)\)` at index 0 of a text described by where its parts lie. */
  lemma MethodCallAt(s: string, name: string, j: nat, close: nat)
    requires 0 < j < |s| && forall i :: 0 <= i < j ==> s[i] != '.'
    requires IsPrefix("." + name + "(", s[j..])
    requires j + |name| + 2 < close < |s| && s[close] == ')'
    requires forall i :: j + |name| + 2 <= i < close ==> s[i] != '\n' && s[i] != ')'
    ensures MatchAt(MethodCall(name), s) == Some(Match(close + 1, [s[..j], s[j + |name| + 2..close]]))
  {
    assert s[j] == s[j..][0];
    assert FindChar('.', s, 0) == j;
    var start := j + |name| + 2;
    LazyCloseAt(s, start, start + 1, close);
  }

  lemma {:induction false} LazyCloseAt(s: string, start: nat, k: nat, close: nat)
    requires start < k <= close < |s| && s[close] == ')'
    requires forall i :: start <= i < close ==> s[i] != '\n' && s[i] != ')'
    ensures LazyCloseParen(s, start, k) == close
    decreases close - k
  {
    if k < close {
      LazyCloseAt(s, start, k + 1, close);
    }
  }

  /** The method-call rewrite turns `X.name(Y)` into `fname(X, Y)`. */
  lemma RewriteMethodCall(x: string, name: string, fname: string, y: string, rest: string)
    requires x != [] && '.' !in x
    requires y != [] && ')' !in y && '\n' !in y
    ensures ReplaceAllWith(MethodCall(name), x + "." + name + "(" + y + ")" + rest, PrefixCall(fname))
         == fname + "(" + x + ", " + y + ")" + ReplaceAllWith(MethodCall(name), rest, PrefixCall(fname))
  {
    var s := x + "." + name + "(" + y + ")" + rest;
    MethodCallMatch(x, name, y, rest);
    var m := Match(|x| + |name| + |y| + 3, [x, y]);
    MatchReplaced(MethodCall(name), s, PrefixCall(fname), m);
    assert s[m.length..] == rest;
  }

  /** The first group is greedy up to the first `.`: `a && b.contains(c)` becomes
      `contains(a && b, c)`, taking the conjunction inside the call. */
  lemma ContainsTakesLeftOperand(a: string, b: string, c: string)
    requires a != [] && '.' !in a && '.' !in b
    requires c != [] && ')' !in c && '\n' !in c
    ensures ReplaceAllWith(MethodCall("contains"), a + " && " + b + "." + "contains" + "(" + c + ")", PrefixCall("contains"))
         == "contains" + "(" + (a + " && " + b) + ", " + c + ")"
  {
    var x := a + " && " + b;
    assert '.' !in " && ";
    assert '.' !in x;
    var s := x + "." + "contains" + "(" + c + ")";
    assert s + "" == s;
    RewriteMethodCall(x, "contains", "contains", c, "");
    var r := "contains" + "(" + x + ", " + c + ")";
    assert r + "" == r;
  }

  /** `X.bcontains(b"S")` becomes `contains(X, "S")`. */
  lemma RewriteBytesCall(x: string, y: string, rest: string)
    requires x != [] && '.' !in x && '"' !in y
    ensures ReplaceAllWith(BytesCall, x + ".bcontains(b\"" + y + "\")" + rest, BytesToContains())
         == "contains(" + x + ", \"" + y + "\")" + ReplaceAllWith(BytesCall, rest, BytesToContains())
  {
    var s := x + ".bcontains(b\"" + y + "\")" + rest;
    var q := |x| + 13 + |y|;
    BytesCallText(x, y, rest);
    BytesCallAt(s, |x|, q);
    var m := Match(q + 2, [x, y]);
    MatchReplaced(BytesCall, s, BytesToContains(), m);
  }

  /** Where the parts of `X.bcontains(b"S")` lie. */
  lemma BytesCallText(x: string, y: string, rest: string)
    requires x != [] && '.' !in x && '"' !in y
    ensures var s := x + ".bcontains(b\"" + y + "\")" + rest;
      var q := |x| + 13 + |y|;
      && q + 1 < |s|
      && (forall i :: 0 <= i < |x| ==> s[i] != '.')
      && IsPrefix(".bcontains(b\"", s[|x|..])
      && s[q] == '"' && s[q + 1] == ')'
      && (forall i :: |x| + 13 <= i < q ==> s[i] != '"')
      && s[..|x|] == x && s[|x| + 13..q] == y && s[q + 2..] == rest
  {
    var s := x + ".bcontains(b\"" + y + "\")" + rest;
    var j := |x|;
    forall i | 0 <= i < j ensures s[i] != '.' {
      assert s[i] == x[i];
    }
    var head := ".bcontains(b\"";
    assert s[j..][..|head|] == head;
    var start := j + |head|;
    var q := start + |y|;
    forall i | start <= i < q ensures s[i] != '"' {
      assert s[i] == y[i - start];
    }
    assert s[q] == '"' && s[q + 1] == ')';
    assert s[..j] == x && s[start..q] == y;
    assert s[q + 2..] == rest;
  }

  /** `([^\.]+)\.bcontains\(b"([^"]*)"\)` at index 0 of a text described by where its
      parts lie. */
  lemma BytesCallAt(s: string, j: nat, q: nat)
    requires 0 < j < |s| && forall i :: 0 <= i < j ==> s[i] != '.'
    requires IsPrefix(".bcontains(b\"", s[j..])
    requires j + 13 <= q && q + 1 < |s| && s[q] == '"' && s[q + 1] == ')'
    requires forall i :: j + 13 <= i < q ==> s[i] != '"'
    ensures MatchAt(BytesCall, s) == Some(Match(q + 2, [s[..j], s[j + 13..q]]))
  {
    assert s[j] == s[j..][0];
    assert FindChar('.', s, 0) == j;
    assert FindChar('"', s, j + 13) == q;
  }

  /** `"P".matches(Y)` becomes `contains(Y, "P")`: the arguments change places. */
  lemma RewriteQuotedMatches(p: string, y: string, rest: string)
    requires '"' !in p
    requires y != [] && ')' !in y && '\n' !in y
    ensures ReplaceAllWith(QuotedMatches, "\"" + p + "\".matches(" + y + ")" + rest, MatchesToContains())
         == "contains(" + y + ", \"" + p + "\")" + ReplaceAllWith(QuotedMatches, rest, MatchesToContains())
  {
    var s := "\"" + p + "\".matches(" + y + ")" + rest;
    var close := |p| + 11 + |y|;
    QuotedMatchesText(p, y, rest);
    QuotedMatchesAt(s, 1 + |p|, close);
    var m := Match(close + 1, [p, y]);
    MatchReplaced(QuotedMatches, s, MatchesToContains(), m);
  }

  /** Where the parts of `"P".matches(Y)` lie. */
  lemma QuotedMatchesText(p: string, y: string, rest: string)
    requires '"' !in p
    requires y != [] && ')' !in y && '\n' !in y
    ensures var s := "\"" + p + "\".matches(" + y + ")" + rest;
      var q := 1 + |p|;
      var close := q + 10 + |y|;
      && close < |s| && s[0] == '"' && s[q] == '"'
      && (forall i :: 1 <= i < q ==> s[i] != '"')
      && IsPrefix(".matches(", s[q + 1..])
      && s[close] == ')'
      && (forall i :: q + 10 <= i < close ==> s[i] != '\n' && s[i] != ')')
      && s[1..q] == p && s[q + 10..close] == y && s[close + 1..] == rest
  {
    var s := "\"" + p + "\".matches(" + y + ")" + rest;
    forall i | 1 <= i < 1 + |p| ensures s[i] != '"' {
      assert s[i] == p[i - 1];
    }
    var q := 1 + |p|;
    assert s[0] == '"' && s[q] == '"';
    assert s[q + 1..][..9] == ".matches(";
    var start := q + 10;
    var close := start + |y|;
    forall i | start <= i < close ensures s[i] != '\n' && s[i] != ')' {
      assert s[i] == y[i - start];
    }
    assert s[close] == ')';
    assert s[1..q] == p && s[start..close] == y;
    assert s[close + 1..] == rest;
  }

  /** `"([^"]*)"\.matches\((.+?)\)` at index 0 of a text described by where its parts
      lie. */
  lemma QuotedMatchesAt(s: string, q: nat, close: nat)
    requires 0 < q < |s| && s[0] == '"' && s[q] == '"'
    requires forall i :: 1 <= i < q ==> s[i] != '"'
    requires IsPrefix(".matches(", s[q + 1..])
    requires q + 10 < close < |s| && s[close] == ')'
    requires forall i :: q + 10 <= i < close ==> s[i] != '\n' && s[i] != ')'
    ensures MatchAt(QuotedMatches, s) == Some(Match(close + 1, [s[1..q], s[q + 10..close]]))
  {
    assert FindChar('"', s, 1) == q;
    LazyCloseAt(s, q + 10, q + 11, close);
  }

  /** `response.headers["H"]` becomes the flattened header identifier. */
  lemma RewriteHeaderIndex(h: string, rest: string)
    requires '"' !in h
    ensures ReplaceAllWith(HeaderIndex, HeadersPrefix + h + "\"]" + rest, HeaderIdentifier())
         == FlatHeader(h) + ReplaceAllWith(HeaderIndex, rest, HeaderIdentifier())
  {
    var s := HeadersPrefix + h + "\"]" + rest;
    var n := |HeadersPrefix|;
    assert s[..n] == HeadersPrefix;
    forall i | n <= i < n + |h| ensures s[i] != '"' {
      assert s[i] == h[i - n];
    }
    assert s[n + |h|] == '"' && s[n + |h| + 1] == ']';
    assert FindChar('"', s, n) == n + |h|;
    assert s[n..n + |h|] == h;
    var m := Match(n + |h| + 2, [h]);
    assert MatchAt(HeaderIndex, s) == Some(m);
    MatchReplaced(HeaderIndex, s, HeaderIdentifier(), m);
    assert s[m.length..] == rest;
  }

  /** `"H" in response.headers` becomes a test that the flattened header is non-empty. */
  lemma RewriteHeaderMembership(h: string, rest: string)
    requires '"' !in h
    ensures ReplaceAllWith(HeaderMembership, "\"" + h + "\"" + MembershipSuffix + rest, HeaderPresent())
         == FlatHeader(h) + " != \"\"" + ReplaceAllWith(HeaderMembership, rest, HeaderPresent())
  {
    var s := "\"" + h + "\"" + MembershipSuffix + rest;
    forall i | 1 <= i < 1 + |h| ensures s[i] != '"' {
      assert s[i] == h[i - 1];
    }
    var q := 1 + |h|;
    assert s[q] == '"';
    assert FindChar('"', s, 1) == q;
    assert s[q + 1..][..|MembershipSuffix|] == MembershipSuffix;
    assert s[1..q] == h;
    var m := Match(q + 1 + |MembershipSuffix|, [h]);
    assert MatchAt(HeaderMembership, s) == Some(m);
    MatchReplaced(HeaderMembership, s, HeaderPresent(), m);
    assert s[m.length..] == rest;
  }

  // ---------------------------------------------------------------- custom functions

  const ArgumentTypeError: string := "参数类型错误"

  /** `call_custom_function`: the string helpers the engine implements itself. Each takes
      exactly two arguments; `matches` takes the pattern first; `bcontains` compares two
      byte strings or the UTF-8 bytes of two strings. */
  function CallCustomFunction(name: string, args: seq<Value>, regex: RegexEngine): Result<Value, string> {
    if name == "contains" || name == "starts_with" || name == "ends_with" || name == "matches" then
      if |args| != 2 then Err(name + " 函数需要两个参数")
      else if !args[0].VStr? || !args[1].VStr? then Err(ArgumentTypeError)
      else
        var h, n := args[0].s, args[1].s;
        if name == "contains" then Ok(VBool(Occurs(n, h)))
        else if name == "starts_with" then Ok(VBool(IsPrefix(n, h)))
        else if name == "ends_with" then Ok(VBool(IsSuffix(n, h)))
        else
          match regex(h, n)
          case InvalidPattern(e) => Err("正则表达式错误: " + e)
          case NoMatch => Ok(VBool(false))
          case Matched(_, _) => Ok(VBool(true))
    else if name == "bcontains" then
      if |args| != 2 then Err("bcontains 函数需要两个参数")
      else if args[0].VBytes? && args[1].VBytes? then Ok(VBool(Occurs(args[1].bytes, args[0].bytes)))
      else if args[0].VStr? && args[1].VStr? then Ok(VBool(Occurs(Utf8.Encode(args[1].s), Utf8.Encode(args[0].s))))
      else Err(ArgumentTypeError)
    else Err("不支持的函数: " + name)
  }

  /** `contains` answers whether the second string occurs in the first. */
  lemma CustomContains(h: string, n: string, regex: RegexEngine)
    ensures CallCustomFunction("contains", [VStr(h), VStr(n)], regex) == Ok(VBool(true))
      <==> exists i :: OccursAt(n, h, i)
    ensures CallCustomFunction("contains", [VStr(h), VStr(n)], regex).Ok?
  {
    assert CallCustomFunction("contains", [VStr(h), VStr(n)], regex) == Ok(VBool(Occurs(n, h)));
    if exists i :: OccursAt(n, h, i) {
      var i :| OccursAt(n, h, i);
      assert 0 <= i <= |h| - |n|;
    }
  }

  /** `starts_with` answers whether the first string is the second followed by more text. */
  lemma CustomStartsWith(h: string, n: string, regex: RegexEngine)
    ensures CallCustomFunction("starts_with", [VStr(h), VStr(n)], regex) == Ok(VBool(true))
      <==> exists t :: h == n + t
  {
    assert CallCustomFunction("starts_with", [VStr(h), VStr(n)], regex) == Ok(VBool(IsPrefix(n, h)));
    if IsPrefix(n, h) {
      assert h == n + h[|n|..];
    }
    if exists t :: h == n + t {
      var t :| h == n + t;
      assert h[..|n|] == n;
    }
  }

  /** `ends_with` answers whether the first string is more text followed by the second. */
  lemma CustomEndsWith(h: string, n: string, regex: RegexEngine)
    ensures CallCustomFunction("ends_with", [VStr(h), VStr(n)], regex) == Ok(VBool(true))
      <==> exists t :: h == t + n
  {
    assert CallCustomFunction("ends_with", [VStr(h), VStr(n)], regex) == Ok(VBool(IsSuffix(n, h)));
    if IsSuffix(n, h) {
      assert h == h[..|h| - |n|] + n;
    }
    if exists t :: h == t + n {
      var t :| h == t + n;
      assert h[|h| - |n|..] == n;
    }
  }

  /** `matches` takes the pattern as its first argument; a pattern that does not compile
      is an error carrying the engine's message. */
  lemma CustomMatches(p: string, t: string, regex: RegexEngine)
    ensures regex(p, t).InvalidPattern? ==>
      CallCustomFunction("matches", [VStr(p), VStr(t)], regex) == Err("正则表达式错误: " + regex(p, t).patternError)
    ensures !regex(p, t).InvalidPattern? ==>
      CallCustomFunction("matches", [VStr(p), VStr(t)], regex) == Ok(VBool(regex(p, t).Matched?))
  {
  }

  /** Wrong arity, non-string arguments and unknown names are errors, never a value. */
  lemma CustomFunctionErrors(name: string, args: seq<Value>, regex: RegexEngine)
    ensures |args| != 2 ==> CallCustomFunction(name, args, regex).Err?
    ensures (name in {"contains", "starts_with", "ends_with", "matches"} && |args| == 2 && !(args[0].VStr? && args[1].VStr?)) ==>
      CallCustomFunction(name, args, regex) == Err(ArgumentTypeError)
    ensures name !in {"contains", "starts_with", "ends_with", "matches", "bcontains"} ==>
      CallCustomFunction(name, args, regex) == Err("不支持的函数: " + name)
    ensures CallCustomFunction(name, args, regex).Ok? ==> CallCustomFunction(name, args, regex).value.VBool?
  {
  }

  /** `bcontains` answers whether the needle's bytes occur in the haystack's bytes: byte
      strings as they are, strings by their UTF-8 encoding. On strings it agrees with
      `contains` wherever the needle occurs. */
  lemma CustomBContains(h: string, n: string, hb: seq<Byte>, nb: seq<Byte>, regex: RegexEngine)
    ensures CallCustomFunction("bcontains", [VBytes(hb), VBytes(nb)], regex) == Ok(VBool(Occurs(nb, hb)))
    ensures CallCustomFunction("bcontains", [VStr(h), VStr(n)], regex) == Ok(VBool(Occurs(Utf8.Encode(n), Utf8.Encode(h))))
    ensures Occurs(n, h) ==> CallCustomFunction("bcontains", [VStr(h), VStr(n)], regex) == Ok(VBool(true))
    ensures CallCustomFunction("bcontains", [VStr(h), VBytes(nb)], regex) == Err(ArgumentTypeError)
  {
    EncodedOccurs(h, n);
  }

  /** A string that occurs in another occurs in it byte for byte once both are encoded. */
  lemma EncodedOccurs(h: string, n: string)
    ensures Occurs(n, h) ==> Occurs(Utf8.Encode(n), Utf8.Encode(h))
  {
    if Occurs(n, h) {
      var i :| 0 <= i <= |h| - |n| && OccursAt(n, h, i);
      OccursSplits(n, h, i);
      var a, c := h[..i], h[i + |n|..];
      Utf8.EncodeConcat(a + n, c);
      Utf8.EncodeConcat(a, n);
      OccursInConcat(Utf8.Encode(a), Utf8.Encode(n), Utf8.Encode(c));
    }
  }
}
