/** The mutable side of the Rust engine's expression environment (src/cel.rs):
    variable bindings from the document and the payloads, the rule step with its
    verdict cache, output extraction and the final verdict. */
module CelRuntime {
  import opened Base
  import opened Text
  import opened Rewrite
  import opened Values
  import opened PocModel
  import opened Cel
  import Utf8

  // ---------------------------------------------------------------- bindings

  /** The `set` values `init_from_poc` keeps: strings, booleans and integers that fit
      in a signed 64-bit word. */
  predicate Bindable(y: Yaml) {
    y.YString? || y.YBool? || AsI64(y).Some?
  }

  function ToScalar(y: Yaml): (v: Scalar)
    requires Bindable(y)
  {
    if y.YString? then VStr(y.s) else if y.YBool? then VBool(y.b) else VInt(y.i)
  }

  /** The bindings `init_from_poc` adds. */
  function SetBindings(setVars: map<string, Yaml>): (r: map<string, Scalar>)
    ensures r.Keys <= setVars.Keys
  {
    map k | k in setVars && Bindable(setVars[k]) :: ToScalar(setVars[k])
  }

  /** After `init_from_poc`, a string, boolean or 64-bit integer entry is bound to the
      value of the same kind; any other entry (float, wider integer, null, list, map,
      tagged) adds nothing and leaves an earlier binding of its name as it was. */
  lemma InitBindsScalars(vars: map<string, Scalar>, setVars: map<string, Yaml>, k: string)
    requires k in setVars
    ensures setVars[k].YString? ==> (vars + SetBindings(setVars))[k] == VStr(setVars[k].s)
    ensures setVars[k].YBool? ==> (vars + SetBindings(setVars))[k] == VBool(setVars[k].b)
    ensures setVars[k].YInt? && I64Min <= setVars[k].i <= I64Max ==> (vars + SetBindings(setVars))[k] == VInt(setVars[k].i)
    ensures (setVars[k].YInt? && !(I64Min <= setVars[k].i <= I64Max)) || setVars[k].YFloat? || setVars[k].YNull?
            || setVars[k].YSequence? || setVars[k].YMapping? || setVars[k].YTagged?
        ==> (k in vars + SetBindings(setVars) <==> k in vars)
            && (k in vars ==> (vars + SetBindings(setVars))[k] == vars[k])
  {
  }

  /** The bindings `update_from_payload` adds: every payload value as a string. */
  function PayloadBindings(payload: map<string, string>): (r: map<string, Scalar>)
    ensures r.Keys == payload.Keys
    ensures forall k :: k in payload ==> r[k] == VStr(payload[k])
  {
    map k | k in payload :: VStr(payload[k])
  }

  // ---------------------------------------------------------------- output text

  /** What `render_output_value` puts in place of the trimmed name `n`. */
  function OutputLookup(n: string, vars: map<string, Scalar>, r: ResponseValue): string {
    if n in vars then Display(vars[n])
    else if IsPrefix("response.", n) then
      var parts := Split(n, ".");
      if |parts| == 2 && parts[1] == "status" then IntToString(r.status)
      else if |parts| == 2 && parts[1] == "body_string" then r.bodyString
      else if |parts| == 3 && parts[1] == "headers" then
        (if parts[2] in r.headers then r.headers[parts[2]] else "")
      else if |parts| == 3 && parts[1] == "url" && parts[2] == "path" then r.url.path
      else "{{" + n + "}}"
    else "{{" + n + "}}"
  }

  function OutputSubstitute(vars: map<string, Scalar>, r: ResponseValue): seq<string> -> string {
    g => if |g| == 1 then OutputLookup(Trim(g[0]), vars, r) else ""
  }

  /** `render_output_value` (it never fails). */
  function RenderOutput(t: string, vars: map<string, Scalar>, r: ResponseValue): string {
    ReplaceAllWith(Placeholder, t, OutputSubstitute(vars, r))
  }

  /** A value without `{{` is stored as written. */
  lemma OutputWithoutPlaceholder(t: string, vars: map<string, Scalar>, r: ResponseValue)
    requires !Occurs("{{", t)
    ensures RenderOutput(t, vars, r) == t
  {
    NoPlaceholderWithoutBraces(t);
    NoMatchUnchanged(Placeholder, t, OutputSubstitute(vars, r));
  }

  /** One placeholder is replaced by the lookup of its trimmed name; the text after it
      is rendered on its own. */
  lemma OutputPlaceholder(name: string, rest: string, vars: map<string, Scalar>, r: ResponseValue)
    requires name != [] && '}' !in name
    ensures RenderOutput("{{" + name + "}}" + rest, vars, r)
         == OutputLookup(Trim(name), vars, r) + RenderOutput(rest, vars, r)
  {
    var s := "{{" + name + "}}" + rest;
    PlaceholderMatch(name, rest);
    MatchReplaced(Placeholder, s, OutputSubstitute(vars, r), Match(|name| + 4, [name]));
    assert s[|name| + 4..] == rest;
  }

  /** `response.F` for a `.`-free field name splits into `response` and `F`. */
  lemma SplitAccessor(f: string)
    requires '.' !in f
    ensures Split("response." + f, ".") == ["response", f]
  {
    assert '.' !in "response";
    assert "response." + f == "response" + ['.'] + f;
    SplitAtChar("response", '.', f);
    SplitWithoutChar(f, '.');
  }

  lemma SplitAccessor2(f: string, g: string)
    requires '.' !in f && '.' !in g
    ensures Split("response." + f + "." + g, ".") == ["response", f, g]
  {
    assert '.' !in "response";
    assert "response." + f + "." + g == "response" + ['.'] + (f + ['.'] + g);
    SplitAtChar("response", '.', f + ['.'] + g);
    SplitAtChar(f, '.', g);
    SplitWithoutChar(g, '.');
  }

  /** Of the unbound two-part accessors `response.F`, only `status` (the status in
      decimal) and `body_string` (the body text) are resolved; any other field, such as
      `content_type`, comes back as a placeholder. */
  lemma OutputResponseField(f: string, vars: map<string, Scalar>, r: ResponseValue)
    requires '.' !in f && "response." + f !in vars
    ensures f == "status" ==> OutputLookup("response." + f, vars, r) == IntToString(r.status)
    ensures f == "body_string" ==> OutputLookup("response." + f, vars, r) == r.bodyString
    ensures f != "status" && f != "body_string" ==> OutputLookup("response." + f, vars, r) == "{{" + "response." + f + "}}"
  {
    SplitAccessor(f);
    assert IsPrefix("response.", "response." + f);
  }

  /** Unbound `response.headers.H` gives the header's value, or the empty text when the
      response has no header of exactly that name; `response.url.path` gives the path. */
  lemma OutputResponseHeader(h: string, vars: map<string, Scalar>, r: ResponseValue)
    requires '.' !in h
    ensures var n := "response." + "headers" + "." + h;
      n !in vars ==> OutputLookup(n, vars, r) == (if h in r.headers then r.headers[h] else "")
    ensures var n := "response." + "url" + "." + "path";
      n !in vars ==> OutputLookup(n, vars, r) == r.url.path
  {
    SplitAccessor2("headers", h);
    SplitAccessor2("url", "path");
    assert IsPrefix("response.", "response." + "headers" + "." + h);
    assert IsPrefix("response.", "response." + "url" + "." + "path");
  }

  /** An unbound name outside `response.` comes back as a placeholder of the trimmed name. */
  lemma OutputUnknown(n: string, vars: map<string, Scalar>, r: ResponseValue)
    requires n !in vars && !IsPrefix("response.", n)
    ensures OutputLookup(n, vars, r) == "{{" + n + "}}"
  {
  }

  // ---------------------------------------------------------------- captures

  /** `caps.name(n)`: the text of the first group named `n`, if it took part. */
  function GroupByName(names: seq<Option<string>>, groups: seq<Option<string>>, n: string, from: nat): (r: Option<string>)
    decreases |names| - from
  {
    if from >= |names| then None
    else if names[from] == Some(n) then (if from < |groups| then groups[from] else None)
    else GroupByName(names, groups, n, from + 1)
  }

  lemma {:induction false} GroupByNameUnique(names: seq<Option<string>>, groups: seq<Option<string>>, n: string, from: nat, i: nat)
    requires from <= i < |names| && i < |groups| && names[i] == Some(n)
    requires forall j :: from <= j < |names| && j != i ==> names[j] != Some(n)
    ensures GroupByName(names, groups, n, from) == groups[i]
    decreases i - from
  {
    if from < i {
      GroupByNameUnique(names, groups, n, from + 1, i);
    }
  }

  /** The named bindings after visiting the first `k` group names in order. */
  function BindNamed(vars: map<string, Scalar>, names: seq<Option<string>>, groups: seq<Option<string>>, k: nat): map<string, Scalar>
    requires k <= |names|
  {
    if k == 0 then vars
    else
      var before := BindNamed(vars, names, groups, k - 1);
      match names[k - 1]
      case None => before
      case Some(n) =>
        match GroupByName(names, groups, n, 0)
        case Some(text) => before[n := VStr(text)]
        case None => before
  }

  /** The numbered bindings `"1"` .. after visiting groups `1 .. k-1`. */
  function BindNumbered(vars: map<string, Scalar>, groups: seq<Option<string>>, k: nat): map<string, Scalar>
    requires 1 <= k <= |groups| || (k == 1 && groups == [])
    decreases k
  {
    if k <= 1 then vars
    else
      var before := BindNumbered(vars, groups, k - 1);
      match groups[k - 1]
      case Some(text) => before[IntToString(k - 1) := VStr(text)]
      case None => before
  }

  /** The bindings a successful `search` makes: named groups first, then numbered ones. */
  function BindCaptures(vars: map<string, Scalar>, names: seq<Option<string>>, groups: seq<Option<string>>): map<string, Scalar> {
    var named := BindNamed(vars, names, groups, |names|);
    if groups == [] then named else BindNumbered(named, groups, |groups|)
  }

  lemma {:induction false} NumberedBinds(vars: map<string, Scalar>, groups: seq<Option<string>>, k: nat, i: nat)
    requires 1 <= i < k <= |groups| && groups[i].Some?
    ensures IntToString(i) in BindNumbered(vars, groups, k)
    ensures BindNumbered(vars, groups, k)[IntToString(i)] == VStr(groups[i].value)
    decreases k
  {
    if i < k - 1 {
      NumberedBinds(vars, groups, k - 1, i);
      if groups[k - 1].Some? {
        NatToStringDistinct(i, k - 1);
      }
    }
  }

  lemma NatToStringDistinct(m: nat, n: nat)
    requires m != n
    ensures IntToString(m) != IntToString(n)
  {
    if IntToString(m) == IntToString(n) {
      NatToStringInjective(m, n);
    }
  }

  lemma {:induction false} NumberedKeeps(vars: map<string, Scalar>, groups: seq<Option<string>>, k: nat, x: string)
    requires 1 <= k <= |groups| || (k == 1 && groups == [])
    requires forall j :: 1 <= j < k ==> x != IntToString(j)
    ensures x in BindNumbered(vars, groups, k) <==> x in vars
    ensures x in vars ==> BindNumbered(vars, groups, k)[x] == vars[x]
    decreases k
  {
    if k > 1 {
      NumberedKeeps(vars, groups, k - 1, x);
    }
  }

  lemma {:induction false} NamedBinds(vars: map<string, Scalar>, names: seq<Option<string>>, groups: seq<Option<string>>, k: nat, i: nat)
    requires i < k <= |names| && i < |groups| && names[i].Some? && groups[i].Some?
    requires forall j :: 0 <= j < |names| && j != i ==> names[j] != names[i]
    ensures names[i].value in BindNamed(vars, names, groups, k)
    ensures BindNamed(vars, names, groups, k)[names[i].value] == VStr(groups[i].value)
    decreases k
  {
    GroupByNameUnique(names, groups, names[i].value, 0, i);
    if i < k - 1 {
      NamedBinds(vars, names, groups, k - 1, i);
    }
  }

  lemma {:induction false} NamedKeeps(vars: map<string, Scalar>, names: seq<Option<string>>, groups: seq<Option<string>>, k: nat, x: string)
    requires k <= |names|
    requires forall j :: 0 <= j < k ==> names[j] != Some(x)
    ensures x in BindNamed(vars, names, groups, k) <==> x in vars
    ensures x in vars ==> BindNamed(vars, names, groups, k)[x] == vars[x]
    decreases k
  {
    if k > 0 {
      NamedKeeps(vars, names, groups, k - 1, x);
    }
  }

  /** A successful `search` binds every participating numbered group under its decimal
      index and every participating named group (names are unique in a pattern) under
      its name unless a numbered group's index reads the same; every other variable
      is left as it was. */
  lemma CapturesBind(vars: map<string, Scalar>, names: seq<Option<string>>, groups: seq<Option<string>>)
    requires |names| == |groups|
    requires forall i, j :: 0 <= i < j < |names| && names[i].Some? ==> names[i] != names[j]
    ensures forall i :: 1 <= i < |groups| && groups[i].Some? ==>
      IntToString(i) in BindCaptures(vars, names, groups) && BindCaptures(vars, names, groups)[IntToString(i)] == VStr(groups[i].value)
    ensures forall i :: (0 <= i < |names| && names[i].Some? && groups[i].Some?
                         && forall j :: 1 <= j < |groups| ==> names[i].value != IntToString(j)) ==>
      names[i].value in BindCaptures(vars, names, groups) && BindCaptures(vars, names, groups)[names[i].value] == VStr(groups[i].value)
    ensures forall x :: (forall j :: 1 <= j < |groups| ==> x != IntToString(j)) && (forall j :: 0 <= j < |names| ==> names[j] != Some(x)) ==>
      (x in BindCaptures(vars, names, groups) <==> x in vars) && (x in vars ==> BindCaptures(vars, names, groups)[x] == vars[x])
  {
    var named := BindNamed(vars, names, groups, |names|);
    forall i | 1 <= i < |groups| && groups[i].Some?
      ensures IntToString(i) in BindCaptures(vars, names, groups) && BindCaptures(vars, names, groups)[IntToString(i)] == VStr(groups[i].value)
    {
      NumberedBinds(named, groups, |groups|, i);
    }
    forall i | 0 <= i < |names| && names[i].Some? && groups[i].Some?
             && (forall j :: 1 <= j < |groups| ==> names[i].value != IntToString(j))
      ensures names[i].value in BindCaptures(vars, names, groups) && BindCaptures(vars, names, groups)[names[i].value] == VStr(groups[i].value)
    {
      forall j | 0 <= j < |names| && j != i ensures names[j] != names[i] {
        if j < i && names[j].Some? {
          assert names[j] != names[i];
        }
      }
      NamedBinds(vars, names, groups, |names|, i);
      if groups != [] {
        NumberedKeeps(named, groups, |groups|, names[i].value);
      }
    }
    forall x | (forall j :: 1 <= j < |groups| ==> x != IntToString(j)) && (forall j :: 0 <= j < |names| ==> names[j] != Some(x))
      ensures (x in BindCaptures(vars, names, groups) <==> x in vars) && (x in vars ==> BindCaptures(vars, names, groups)[x] == vars[x])
    {
      NamedKeeps(vars, names, groups, |names|, x);
      if groups != [] {
        NumberedKeeps(named, groups, |groups|, x);
      }
    }
  }

  /** The loops of a successful `search`: named groups, then numbered ones. */
  method BindCaptureGroups(vars: map<string, Scalar>, names: seq<Option<string>>, groups: seq<Option<string>>)
    returns (r: map<string, Scalar>)
    ensures r == BindCaptures(vars, names, groups)
  {
    r := vars;
    for i := 0 to |names|
      invariant r == BindNamed(vars, names, groups, i)
    {
      match names[i]
      case None =>
      case Some(n) =>
        match GroupByName(names, groups, n, 0)
        case Some(text) => r := r[n := VStr(text)];
        case None =>
    }
    if groups != [] {
      var named := r;
      for i := 1 to |groups|
        invariant r == BindNumbered(named, groups, i)
      {
        match groups[i]
        case Some(text) => r := r[IntToString(i) := VStr(text)];
        case None =>
      }
    }
  }

  // ---------------------------------------------------------------- outputs

  /** One output entry: `search` matches its pattern against the body text and binds the
      captures; any other key is bound to its rendered value. */
  function OutputStep(vars: map<string, Scalar>, r: ResponseValue, key: string, value: string, regex: RegexEngine)
    : Result<map<string, Scalar>, string>
  {
    if key == "search" then
      match regex(value, r.bodyString)
      case InvalidPattern(m) => Err("正则表达式编译错误: " + m)
      case NoMatch => Ok(vars)
      case Matched(names, groups) => Ok(BindCaptures(vars, names, groups))
    else Ok(vars[key := VStr(RenderOutput(value, vars, r))])
  }

  /** The variables after the output entries in `keys` order, and the error that stopped
      the loop, if any; bindings made before the error stay. */
  datatype OutputRun = OutputRun(vars: map<string, Scalar>, error: Option<string>)

  function ApplyOutputs(vars: map<string, Scalar>, r: ResponseValue, keys: seq<string>, output: map<string, string>, regex: RegexEngine)
    : OutputRun
    requires forall i :: 0 <= i < |keys| ==> keys[i] in output
    decreases |keys|
  {
    if keys == [] then OutputRun(vars, None)
    else
      match OutputStep(vars, r, keys[0], output[keys[0]], regex)
      case Err(e) => OutputRun(vars, Some(e))
      case Ok(next) => ApplyOutputs(next, r, keys[1..], output, regex)
  }

  /** The only way output extraction fails is a `search` pattern that does not compile,
      and the error names the compiler's message. */
  lemma {:induction false} OutputsFailOnlyOnPattern(vars: map<string, Scalar>, r: ResponseValue, keys: seq<string>,
                                                    output: map<string, string>, regex: RegexEngine)
    requires forall i :: 0 <= i < |keys| ==> keys[i] in output
    ensures var run := ApplyOutputs(vars, r, keys, output, regex);
      run.error.Some? ==>
        && "search" in keys
        && regex(output["search"], r.bodyString).InvalidPattern?
        && run.error.value == "正则表达式编译错误: " + regex(output["search"], r.bodyString).patternError
    decreases |keys|
  {
    if keys != [] {
      match OutputStep(vars, r, keys[0], output[keys[0]], regex)
      case Err(e) =>
      case Ok(next) =>
        OutputsFailOnlyOnPattern(next, r, keys[1..], output, regex);
        var run := ApplyOutputs(vars, r, keys, output, regex);
        if run.error.Some? {
          assert "search" in keys[1..];
          var j :| 0 <= j < |keys[1..]| && keys[1..][j] == "search";
          assert keys[j + 1] == "search";
        }
    }
  }

  /** Without a `search` key extraction cannot fail, leaves variables outside the keys
      alone and stores a value free of `{{` as written. */
  lemma {:induction false} OutputsWithoutSearch(vars: map<string, Scalar>, r: ResponseValue, keys: seq<string>,
                                               output: map<string, string>, regex: RegexEngine)
    requires forall i :: 0 <= i < |keys| ==> keys[i] in output && keys[i] != "search"
    requires forall i, j :: 0 <= i < j < |keys| ==> keys[i] != keys[j]
    ensures ApplyOutputs(vars, r, keys, output, regex).error.None?
    ensures forall x :: x !in keys ==>
      (x in ApplyOutputs(vars, r, keys, output, regex).vars <==> x in vars)
      && (x in vars ==> ApplyOutputs(vars, r, keys, output, regex).vars[x] == vars[x])
    ensures forall i :: 0 <= i < |keys| && !Occurs("{{", output[keys[i]]) ==>
      keys[i] in ApplyOutputs(vars, r, keys, output, regex).vars
      && ApplyOutputs(vars, r, keys, output, regex).vars[keys[i]] == VStr(output[keys[i]])
    decreases |keys|
  {
    if keys != [] {
      var k := keys[0];
      var next := vars[k := VStr(RenderOutput(output[k], vars, r))];
      var rest := keys[1..];
      OutputsWithoutSearch(next, r, rest, output, regex);
      var run := ApplyOutputs(vars, r, keys, output, regex);
      assert run == ApplyOutputs(next, r, rest, output, regex);
      forall x | x !in keys
        ensures (x in run.vars <==> x in vars) && (x in vars ==> run.vars[x] == vars[x])
      {
        assert x != k && x !in rest;
      }
      forall i | 0 <= i < |keys| && !Occurs("{{", output[keys[i]])
        ensures keys[i] in run.vars && run.vars[keys[i]] == VStr(output[keys[i]])
      {
        if i == 0 {
          OutputWithoutPlaceholder(output[k], vars, r);
          assert k !in rest by {
            forall j | 0 <= j < |rest| ensures rest[j] != k {
              assert rest[j] == keys[j + 1];
            }
          }
        } else {
          assert keys[i] == rest[i - 1];
        }
      }
    }
  }

  // ---------------------------------------------------------------- rule step

  /** The three fields of the environment. */
  datatype EnvState = EnvState(variables: map<string, Scalar>, response: ResponseValue, ruleResults: map<string, bool>)

  /** `evaluate`: the expression is preprocessed against the cached verdicts, compiled and
      run against the context; either failure is reported with its stage. */
  function EvaluateSpec(st: EnvState, e: string, cel: CelEngine, order: KeyOrder): Result<Value, string>
    requires ValidOrder(order)
  {
    Reported(cel(Preprocess(e, st.ruleResults, order), ContextOf(st.variables, st.response, order)))
  }

  /** A CEL outcome as `evaluate` reports it, each failure prefixed with its stage. */
  function Reported(o: CelOutcome): (r: Result<Value, string>)
    ensures r.Ok? <==> o.Evaluated?
    ensures o.Evaluated? ==> r.value == o.value
  {
    match o
    case CompileFailed(m) => Err("编译表达式错误: " + m)
    case ExecFailed(m) => Err("执行表达式错误: " + m)
    case Evaluated(v) => Ok(v)
  }

  datatype RuleStep = RuleStep(state: EnvState, result: Result<bool, string>)

  /** What `execute_rule` does with the evaluation's outcome `v`, the response `st`
      already holding the new one. */
  function RuleOutcome(st: EnvState, name: string, rule: Rule, v: Result<Value, string>,
                       regex: RegexEngine, order: KeyOrder): RuleStep
    requires ValidOrder(order)
  {
    match v
    case Err(m) => RuleStep(st, Err(m))
    case Ok(value) =>
      if !value.VBool? then RuleStep(st, Err("规则 " + name + " 的表达式结果不是布尔值"))
      else
        var cached := st.(ruleResults := st.ruleResults[name := value.b]);
        if value.b && |rule.output| > 0 then
          assert Enumerates(order(rule.output.Keys), rule.output.Keys);
          var run := ApplyOutputs(cached.variables, st.response, order(rule.output.Keys), rule.output, regex);
          RuleStep(cached.(variables := run.vars), if run.error.Some? then Err(run.error.value) else Ok(true))
        else RuleStep(cached, Ok(value.b))
  }

  /** `execute_rule`: the response is replaced, the expression is preprocessed and then
      evaluated (which preprocesses it again), a boolean verdict is cached under the rule's
      name and, when it is true and the rule has outputs, the outputs are extracted. */
  function ExecuteRuleSpec(st: EnvState, name: string, rule: Rule, resp: ResponseValue,
                           cel: CelEngine, regex: RegexEngine, order: KeyOrder): RuleStep
    requires ValidOrder(order)
  {
    var st1 := st.(response := resp);
    var simplified := Preprocess(rule.expression, st1.ruleResults, order);
    RuleOutcome(st1, name, rule, EvaluateSpec(st1, simplified, cel, order), regex, order)
  }

  /** Whether the debug preview `&body_string[..50.min(len)]` of `execute_rule` panics:
      Rust slices a string by bytes, and a slice that ends inside a character panics.
      `ExecuteRuleSpec` does not model that abort. */
  predicate PreviewPanics(body: string) {
    var b := Utf8.Encode(body);
    |b| > 50 && Utf8.IsCont(b[50])
  }

  /** An ASCII body, such as every body `mock_http_request` returns, never reaches the
      panic. */
  lemma AsciiPreviewSafe(body: string)
    requires forall i :: 0 <= i < |body| ==> body[i] as int < 0x80
    ensures !PreviewPanics(body)
  {
    Utf8.EncodeAscii(body);
  }

  lemma {:induction false} RepeatedWideLength(n: nat)
    ensures |Utf8.Encode(seq(n, _ => '中'))| == 3 * n
  {
    if n > 0 {
      var s := seq(n, _ => '中');
      assert s[1..] == seq(n - 1, _ => '中');
      RepeatedWideLength(n - 1);
    }
  }

  /** `"a"` followed by seventeen `中` is 52 bytes, and byte 50 is the middle byte of the
      last `中`, so the preview panics. */
  lemma PreviewPanicExample()
    ensures PreviewPanics("a" + seq(17, _ => '中'))
  {
    var w := seq(16, _ => '中');
    assert "a" + seq(17, _ => '中') == ("a" + w) + ['中'];
    Utf8.EncodeConcat("a" + w, ['中']);
    Utf8.EncodeConcat("a", w);
    RepeatedWideLength(16);
    assert Utf8.Encode(['中']) == [0xE4, 0xB8, 0xAD];
  }

  /** The effects of a rule step, whatever the evaluation gives: the response is the new
      one; a verdict is cached exactly when the evaluation gives a boolean, whatever
      output extraction does; a failed or non-boolean evaluation leaves the cache and the
      variables as they were; and variables change only when the verdict is true and the
      rule has outputs. */
  lemma RuleOutcomeEffects(st: EnvState, name: string, rule: Rule, v: Result<Value, string>,
                           regex: RegexEngine, order: KeyOrder)
    requires ValidOrder(order)
    ensures RuleOutcome(st, name, rule, v, regex, order).state.response == st.response
    ensures v.Ok? && v.value.VBool? ==>
      RuleOutcome(st, name, rule, v, regex, order).state.ruleResults == st.ruleResults[name := v.value.b]
    ensures !(v.Ok? && v.value.VBool?) ==>
      RuleOutcome(st, name, rule, v, regex, order).state == st
    ensures v.Err? ==> RuleOutcome(st, name, rule, v, regex, order).result == Err(v.error)
    ensures v.Ok? && !v.value.VBool? ==>
      RuleOutcome(st, name, rule, v, regex, order).result == Err("规则 " + name + " 的表达式结果不是布尔值")
    ensures v == Ok(VBool(false)) ==>
      RuleOutcome(st, name, rule, v, regex, order) == RuleStep(st.(ruleResults := st.ruleResults[name := false]), Ok(false))
    ensures |rule.output| == 0 && v.Ok? && v.value.VBool? ==>
      RuleOutcome(st, name, rule, v, regex, order).result == Ok(v.value.b)
      && RuleOutcome(st, name, rule, v, regex, order).state.variables == st.variables
    ensures RuleOutcome(st, name, rule, v, regex, order).result.Ok? ==>
      v == Ok(VBool(RuleOutcome(st, name, rule, v, regex, order).result.value))
  {
  }

  /** An output rule whose verdict is true keeps its verdict cached even when extraction
      stops with an error; the error is that of a `search` pattern. */
  lemma RuleOutcomeOutputError(st: EnvState, name: string, rule: Rule, regex: RegexEngine, order: KeyOrder)
    requires ValidOrder(order) && |rule.output| > 0
    ensures var step := RuleOutcome(st, name, rule, Ok(VBool(true)), regex, order);
      && step.state.ruleResults == st.ruleResults[name := true]
      && (step.result.Err? ==> "search" in rule.output && regex(rule.output["search"], st.response.bodyString).InvalidPattern?)
  {
    var keys := order(rule.output.Keys);
    assert Enumerates(keys, rule.output.Keys);
    OutputsFailOnlyOnPattern(st.variables, st.response, keys, rule.output, regex);
  }

  /** `evaluate_poc_expression`: the verdicts are substituted into the top-level expression,
      which is then evaluated (preprocessed once more) and must give a boolean. */
  function PocVerdictSpec(st: EnvState, poc: Poc, cel: CelEngine, order: KeyOrder): Result<bool, string>
    requires ValidOrder(order)
  {
    assert Enumerates(order(st.ruleResults.Keys), st.ruleResults.Keys);
    var e := SubstituteRuleCalls(poc.expression, order(st.ruleResults.Keys), st.ruleResults);
    match EvaluateSpec(st, e, cel, order)
    case Err(m) => Err(m)
    case Ok(v) => if v.VBool? then Ok(v.b) else Err("POC 表达式结果不是布尔值")
  }

  // ---------------------------------------------------------------- the environment

  /** The loop of `init_from_poc`, over the entries of `set` in any order. */
  method BindSet(vars: map<string, Scalar>, setVars: map<string, Yaml>) returns (r: map<string, Scalar>)
    ensures r == vars + SetBindings(setVars)
  {
    r := vars;
    var remaining := setVars.Keys;
    while remaining != {}
      invariant remaining <= setVars.Keys
      invariant forall k :: k in r <==> k in vars || (k in setVars && k !in remaining && Bindable(setVars[k]))
      invariant forall k :: k in r ==>
        r[k] == if k in setVars && k !in remaining && Bindable(setVars[k]) then ToScalar(setVars[k]) else vars[k]
      decreases remaining
    {
      var k :| k in remaining;
      match setVars[k] {
        case YString(s) => r := r[k := VStr(s)];
        case YInt(i) => if I64Min <= i <= I64Max { r := r[k := VInt(i)]; }
        case YBool(b) => r := r[k := VBool(b)];
        case _ =>
      }
      remaining := remaining - {k};
    }
    assert r == vars + SetBindings(setVars);
  }

  /** The loop of `update_from_payload`, over the payload in any order. */
  method BindPayload(vars: map<string, Scalar>, payload: map<string, string>) returns (r: map<string, Scalar>)
    ensures r == vars + PayloadBindings(payload)
  {
    r := vars;
    var remaining := payload.Keys;
    while remaining != {}
      invariant remaining <= payload.Keys
      invariant forall k :: k in r <==> k in vars || (k in payload && k !in remaining)
      invariant forall k :: k in r ==> r[k] == if k in payload && k !in remaining then VStr(payload[k]) else vars[k]
      decreases remaining
    {
      var k :| k in remaining;
      r := r[k := VStr(payload[k])];
      remaining := remaining - {k};
    }
    assert r == vars + PayloadBindings(payload);
  }

  /** The first loop of `create_context`: every variable copied into the context. */
  method CopyVariables(vars: map<string, Scalar>) returns (ctx: map<string, Value>)
    ensures ctx.Keys == vars.Keys && forall k :: k in vars ==> ctx[k] == vars[k]
  {
    ctx := map[];
    var remaining := vars.Keys;
    while remaining != {}
      invariant remaining <= vars.Keys
      invariant ctx.Keys == vars.Keys - remaining
      invariant forall k :: k in ctx ==> ctx[k] == vars[k]
      decreases remaining
    {
      var k :| k in remaining;
      ctx := ctx[k := vars[k]];
      remaining := remaining - {k};
    }
  }

  /** The header loop of `create_context`, in iteration order `keys`. */
  method AddHeaders(ctx: map<string, Value>, keys: seq<string>, headers: map<string, string>) returns (r: map<string, Value>)
    requires forall i :: 0 <= i < |keys| ==> keys[i] in headers
    ensures r == ctx + HeaderBindings(keys, headers)
  {
    r := ctx;
    for i := 0 to |keys|
      invariant r == ctx + HeaderBindings(keys[..i], headers)
    {
      var key := keys[i];
      r := r[FlatHeader(key) := VStr(headers[key])];
      assert keys[..i + 1][..i] == keys[..i];
    }
    assert keys[..|keys|] == keys;
  }

  class CelEnv {
    var variables: map<string, Scalar>
    var response: ResponseValue
    var ruleResults: map<string, bool>

    function State(): EnvState
      reads this
    {
      EnvState(variables, response, ruleResults)
    }

    /** `CelEnv::new`: no variables, the default response, no verdicts. */
    constructor ()
      ensures State() == EnvState(map[], DefaultResponse(), map[])
    {
      variables := map[];
      response := DefaultResponse();
      ruleResults := map[];
    }

    /** `init_from_poc`: binds the string, boolean and 64-bit integer entries of `set`. */
    method InitFromPoc(poc: Poc)
      modifies this
      ensures variables == old(variables) + SetBindings(poc.setVars)
      ensures response == old(response) && ruleResults == old(ruleResults)
    {
      variables := BindSet(variables, poc.setVars);
    }

    /** `update_from_payload`: binds every payload value as a string. */
    method UpdateFromPayload(payload: map<string, string>)
      modifies this
      ensures variables == old(variables) + PayloadBindings(payload)
      ensures response == old(response) && ruleResults == old(ruleResults)
    {
      variables := BindPayload(variables, payload);
    }

    method UpdateResponse(r: ResponseValue)
      modifies this
      ensures State() == old(State()).(response := r)
    {
      response := r;
    }

    /** `create_context`: the variables, the flattened response fields, then the headers. */
    method CreateContext(order: KeyOrder) returns (ctx: map<string, Value>)
      requires ValidOrder(order)
      ensures ctx == ContextOf(variables, response, order)
    {
      ctx := CopyVariables(variables);
      ctx := ctx + ResponseFields(response);
      var keys := order(response.headers.Keys);
      assert Enumerates(keys, response.headers.Keys);
      ctx := AddHeaders(ctx, keys, response.headers);
      var base: map<string, Value> := variables;
      assert ctx == base + ResponseFields(response) + HeaderBindings(keys, response.headers);
    }

    /** `preprocess_expression`. */
    method PreprocessExpression(e: string, order: KeyOrder) returns (r: string)
      requires ValidOrder(order)
      ensures r == Preprocess(e, ruleResults, order)
    {
      var names := order(ruleResults.Keys);
      assert Enumerates(names, ruleResults.Keys);
      r := e;
      for i := 0 to |names|
        invariant SubstituteRuleCalls(r, names[i..], ruleResults) == SubstituteRuleCalls(e, names, ruleResults)
      {
        assert names[i..][1..] == names[i + 1..];
        r := ReplaceAll(r, names[i] + "()", Verdict(ruleResults[names[i]]));
      }
      r := RewriteSyntax(r);
    }

    /** `evaluate`. */
    method Evaluate(e: string, cel: CelEngine, order: KeyOrder) returns (r: Result<Value, string>)
      requires ValidOrder(order)
      ensures r == EvaluateSpec(State(), e, cel, order)
    {
      var ctx := CreateContext(order);
      var text := PreprocessExpression(e, order);
      r := Reported(cel(text, ctx));
    }

    /** `process_rule_output`: the entries in iteration order; the first error stops it. */
    method ProcessRuleOutput(rule: Rule, regex: RegexEngine, order: KeyOrder) returns (err: Option<string>)
      requires ValidOrder(order)
      modifies this
      ensures OutputRun(variables, err) == ApplyOutputs(old(variables), response, order(rule.output.Keys), rule.output, regex)
      ensures response == old(response) && ruleResults == old(ruleResults)
    {
      var keys := order(rule.output.Keys);
      assert Enumerates(keys, rule.output.Keys);
      var i := 0;
      while i < |keys|
        invariant 0 <= i <= |keys|
        invariant response == old(response) && ruleResults == old(ruleResults)
        invariant ApplyOutputs(variables, response, keys[i..], rule.output, regex)
               == ApplyOutputs(old(variables), response, keys, rule.output, regex)
      {
        var key := keys[i];
        var value := rule.output[key];
        assert keys[i..][0] == key && keys[i..][1..] == keys[i + 1..];
        if key == "search" {
          match regex(value, response.bodyString)
          case InvalidPattern(m) =>
            err := Some("正则表达式编译错误: " + m);
            return;
          case NoMatch =>
          case Matched(names, groups) =>
            variables := BindCaptureGroups(variables, names, groups);
        } else {
          var rendered := RenderOutput(value, variables, response);
          variables := variables[key := VStr(rendered)];
        }
        i := i + 1;
      }
      err := None;
    }

    /** `execute_rule`. */
    method ExecuteRule(name: string, rule: Rule, resp: ResponseValue, cel: CelEngine, regex: RegexEngine, order: KeyOrder)
      returns (r: Result<bool, string>)
      requires ValidOrder(order)
      modifies this
      ensures RuleStep(State(), r) == ExecuteRuleSpec(old(State()), name, rule, resp, cel, regex, order)
    {
      UpdateResponse(resp);
      var simplified := PreprocessExpression(rule.expression, order);
      var v := Evaluate(simplified, cel, order);
      r := ConcludeRule(name, rule, v, regex, order);
    }

    /** The part of `execute_rule` after the evaluation has given `v`. */
    method ConcludeRule(name: string, rule: Rule, v: Result<Value, string>, regex: RegexEngine, order: KeyOrder)
      returns (r: Result<bool, string>)
      requires ValidOrder(order)
      modifies this
      ensures RuleStep(State(), r) == RuleOutcome(old(State()), name, rule, v, regex, order)
    {
      if v.Err? {
        return Err(v.error);
      }
      if !v.value.VBool? {
        return Err("规则 " + name + " 的表达式结果不是布尔值");
      }
      var b := v.value.b;
      ruleResults := ruleResults[name := b];
      if b && |rule.output| > 0 {
        var err := ProcessRuleOutput(rule, regex, order);
        if err.Some? {
          return Err(err.value);
        }
      }
      return Ok(b);
    }

    /** `evaluate_poc_expression`. */
    method EvaluatePocExpression(poc: Poc, cel: CelEngine, order: KeyOrder) returns (r: Result<bool, string>)
      requires ValidOrder(order)
      ensures r == PocVerdictSpec(State(), poc, cel, order)
    {
      var names := order(ruleResults.Keys);
      assert Enumerates(names, ruleResults.Keys);
      var e := poc.expression;
      for i := 0 to |names|
        invariant SubstituteRuleCalls(e, names[i..], ruleResults) == SubstituteRuleCalls(poc.expression, names, ruleResults)
      {
        assert names[i..][1..] == names[i + 1..];
        e := ReplaceAll(e, names[i] + "()", Verdict(ruleResults[names[i]]));
      }
      var v := Evaluate(e, cel, order);
      match v
      case Err(m) => r := Err(m);
      case Ok(value) => r := if value.VBool? then Ok(value.b) else Err("POC 表达式结果不是布尔值");
    }
  }
}
