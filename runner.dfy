/** The Rust engine's driver (src/runner.rs): the rule names a top-level expression
    calls, the rules run in that order with the `&&` short cut, the final verdict with its
    output, and the payload loop that restores the variables after every payload. */
module Runner {
  import opened Base
  import opened Text
  import opened Values
  import opened PocModel
  import opened Cel
  import opened CelRuntime
  import opened Template

  /** What a run reports. */
  datatype RunResult = RunResult(success: bool, output: map<string, string>, message: string)

  /** Sending a rule's request and receiving the response; a stand-in for the network. */
  type Dispatch = Rule -> Result<ResponseValue, string>

  // ---------------------------------------------------------------- rule calls

  /** The characters the expression is cut at. */
  const RuleDelims: set<char> := {'(', ')', '&', '|', '!', ' '}

  /** A piece containing one of these is taken for arithmetic or a field access. */
  const Operators: set<char> := {'+', '-', '*', '/', '.'}

  /** Whether a trimmed piece is a rule name. */
  predicate KeepToken(part: string) {
    && part != []
    && (forall i :: 0 <= i < |part| ==> part[i] !in Operators)
    && part[0] != '"' && part[0] != '\''
    && part != "true" && part != "false"
    && part != "&&" && part != "||" && part != "!"
  }

  /** The rule name a piece contributes, if any. */
  function Token(piece: string): seq<string> {
    var part := Trim(piece);
    if KeepToken(part) then [part] else []
  }

  /** The rule names among the pieces, in order. */
  function TokensOf(pieces: seq<string>): seq<string> {
    if pieces == [] then [] else TokensOf(pieces[..|pieces| - 1]) + Token(pieces[|pieces| - 1])
  }

  /** The rule names `extract_rule_calls` finds in an expression. */
  function ExtractedCalls(expression: string): seq<string> {
    TokensOf(SplitAny(expression, RuleDelims))
  }

  /** `extract_rule_calls`. */
  method ExtractRuleCalls(expression: string) returns (calls: seq<string>)
    ensures calls == ExtractedCalls(expression)
  {
    var parts := SplitAny(expression, RuleDelims);
    calls := [];
    for i := 0 to |parts|
      invariant calls == TokensOf(parts[..i])
    {
      var part := Trim(parts[i]);
      TokensStep(parts, i);
      if KeepToken(part) {
        calls := calls + [part];
      }
    }
    assert parts[..|parts|] == parts;
  }

  lemma TokensStep(pieces: seq<string>, i: nat)
    requires i < |pieces|
    ensures TokensOf(pieces[..i + 1]) == TokensOf(pieces[..i]) + Token(pieces[i])
  {
    assert pieces[..i + 1][..i] == pieces[..i];
  }

  lemma {:induction false} TokensAppend(a: seq<string>, b: seq<string>)
    ensures TokensOf(a + b) == TokensOf(a) + TokensOf(b)
    decreases |b|
  {
    if b != [] {
      var init := b[..|b| - 1];
      assert (a + b)[..|a + b| - 1] == a + init;
      assert (a + b)[|a + b| - 1] == b[|b| - 1];
      TokensAppend(a, init);
    } else {
      assert a + b == a;
    }
  }

  /** The names of the text before a delimiter come before those after it: the names are
      in textual order, and a name called twice is listed twice. */
  lemma ExtractedConcat(x: string, d: char, y: string)
    requires d in RuleDelims
    ensures ExtractedCalls(x + [d] + y) == ExtractedCalls(x) + ExtractedCalls(y)
  {
    SplitAnyConcat(x, d, y, RuleDelims);
    TokensAppend(SplitAny(x, RuleDelims), SplitAny(y, RuleDelims));
  }

  /** A name in the sense of the tokenizer: no delimiter, operator or white space at its
      ends, no quote in front, and not a boolean literal. */
  predicate RuleName(n: string) {
    && n != [] && !IsSpace(n[0]) && !IsSpace(n[|n| - 1])
    && (forall i :: 0 <= i < |n| ==> n[i] !in RuleDelims && n[i] !in Operators)
    && n[0] != '"' && n[0] != '\''
    && n != "true" && n != "false"
  }

  /** A name on its own is found as itself. */
  lemma ExtractedName(n: string)
    requires RuleName(n)
    ensures ExtractedCalls(n) == [n]
  {
    SplitAnyNone(n, RuleDelims);
    TrimUntrimmed(n);
    assert n[0] != '&' && n[0] != '|' && n[0] != '!';
    assert KeepToken(n);
    assert [n][..0] == [];
    assert TokensOf([n]) == TokensOf([]) + Token(n);
  }

  lemma ExtractedEmpty()
    ensures ExtractedCalls("") == []
  {
    assert SplitAny("", RuleDelims) == [""];
    assert [""][..0] == [];
  }

  lemma ExtractedDelim(d: char, y: string)
    requires d in RuleDelims
    ensures ExtractedCalls([d] + y) == ExtractedCalls(y)
  {
    ExtractedConcat("", d, y);
    ExtractedEmpty();
    assert "" + [d] + y == [d] + y;
  }

  /** A call `n()` contributes `n`, then whatever follows it. */
  lemma ExtractedCall(n: string, rest: string)
    requires RuleName(n)
    ensures ExtractedCalls(n + "()" + rest) == [n] + ExtractedCalls(rest)
  {
    assert n + "()" + rest == n + ['('] + ([')'] + rest);
    ExtractedConcat(n, '(', [')'] + rest);
    ExtractedName(n);
    ExtractedDelim(')', rest);
  }

  /** The conjunction operator contributes nothing. */
  lemma ExtractedAnd(rest: string)
    ensures ExtractedCalls(" && " + rest) == ExtractedCalls(rest)
  {
    assert " && " + rest == [' '] + (['&'] + (['&'] + ([' '] + rest)));
    ExtractedDelim(' ', ['&'] + (['&'] + ([' '] + rest)));
    ExtractedDelim('&', ['&'] + ([' '] + rest));
    ExtractedDelim('&', [' '] + rest);
    ExtractedDelim(' ', rest);
  }

  /** `a() && b()` calls `a`, then `b`. */
  lemma ExtractedConjunction(a: string, b: string)
    requires RuleName(a) && RuleName(b)
    ensures ExtractedCalls(a + "() && " + b + "()") == [a, b]
  {
    assert a + "() && " + b + "()" == a + "()" + (" && " + (b + "()" + ""));
    ExtractedCall(a, " && " + (b + "()" + ""));
    ExtractedAnd(b + "()" + "");
    ExtractedCall(b, "");
    ExtractedEmpty();
  }

  lemma {:induction false} TokensOfShape(pieces: seq<string>)
    requires forall k, i :: 0 <= k < |pieces| && 0 <= i < |pieces[k]| ==> pieces[k][i] !in RuleDelims
    ensures forall k :: 0 <= k < |TokensOf(pieces)| ==>
      KeepToken(TokensOf(pieces)[k]) && forall c :: c in TokensOf(pieces)[k] ==> c !in RuleDelims
    decreases |pieces|
  {
    if pieces != [] {
      var init := pieces[..|pieces| - 1];
      var last := pieces[|pieces| - 1];
      TokensOfShape(init);
      TrimWithin(last);
    }
  }

  /** Every name found is non-empty, holds no delimiter, operator or quote in front, and
      is not a boolean literal. */
  lemma ExtractedShape(expression: string)
    ensures forall k :: 0 <= k < |ExtractedCalls(expression)| ==>
      var t := ExtractedCalls(expression)[k];
      && t != [] && t[0] != '"' && t[0] != '\'' && t != "true" && t != "false"
      && forall c :: c in t ==> c !in RuleDelims && c !in Operators
  {
    TokensOfShape(SplitAny(expression, RuleDelims));
  }

  // ---------------------------------------------------------------- running the rules

  datatype RunStep = RunStep(state: EnvState, result: Result<RunResult, string>)

  /** The text values among the variables. */
  function StringVariables(vars: map<string, Scalar>): map<string, string> {
    map k | k in vars && vars[k].VStr? :: vars[k].s
  }

  /** The output of a successful run: the text variables, and the rendered match
      information under `match_info` when it is not empty. */
  function CollectedOutput(vars: map<string, Scalar>, detail: Detail): map<string, string> {
    var info := RenderedDetail(detail, vars).vulnerability.matchInfo;
    if info != "" then StringVariables(vars)["match_info" := info] else StringVariables(vars)
  }

  /** The output holds exactly the text variables, which keep their text, and `match_info`
      exactly when the rendered match information is not empty. */
  lemma CollectedOutputSpec(vars: map<string, Scalar>, detail: Detail)
    ensures var out := CollectedOutput(vars, detail);
      var info := RenderedDetail(detail, vars).vulnerability.matchInfo;
      && (forall k :: k in out <==> (k in vars && vars[k].VStr?) || (k == "match_info" && info != ""))
      && (forall k :: k in out && k != "match_info" ==> out[k] == vars[k].s)
      && ("match_info" in out ==> out["match_info"] == (if info != "" then info else vars["match_info"].s))
  {
  }

  /** What a run reports from the top-level verdict. */
  function Concluded(verdict: Result<bool, string>, vars: map<string, Scalar>, detail: Detail): Result<RunResult, string> {
    match verdict
    case Err(m) => Err(m)
    case Ok(b) =>
      if b then Ok(RunResult(true, CollectedOutput(vars, detail), "POC 执行成功"))
      else Ok(RunResult(false, map[], "POC 执行失败"))
  }

  /** What the runner relies on, as function values: rendering a rule's request against
      the variables, a rule step (`execute_rule`) and the top-level verdict
      (`evaluate_poc_expression`). */
  datatype Engine = Engine(
    render: (Request, map<string, Scalar>) -> Request,
    execute: (EnvState, string, Rule, ResponseValue) -> RuleStep,
    verdict: EnvState -> Result<bool, string>)

  /** The environment of the engine with these oracles. */
  function EngineOf(poc: Poc, cel: CelEngine, regex: RegexEngine, order: KeyOrder): Engine
    requires ValidOrder(order)
  {
    Engine((req: Request, vars: map<string, Scalar>) => RenderedRequest(req, vars, order),
           (st: EnvState, name: string, rule: Rule, resp: ResponseValue) => ExecuteRuleSpec(st, name, rule, resp, cel, regex, order),
           (st: EnvState) => PocVerdictSpec(st, poc, cel, order))
  }

  /** `eng` renders and behaves as the environment of these oracles does. Each part is
      triggered by the specification it names, so that a proof consults their definitions
      only where it mentions them. */
  ghost predicate Implements(eng: Engine, poc: Poc, cel: CelEngine, regex: RegexEngine, order: KeyOrder)
    requires ValidOrder(order)
  {
    && (forall req, vars {:trigger RenderedRequest(req, vars, order)} :: eng.render(req, vars) == RenderedRequest(req, vars, order))
    && (forall st, name, rule, resp {:trigger ExecuteRuleSpec(st, name, rule, resp, cel, regex, order)} ::
          eng.execute(st, name, rule, resp) == ExecuteRuleSpec(st, name, rule, resp, cel, regex, order))
    && (forall st {:trigger PocVerdictSpec(st, poc, cel, order)} :: eng.verdict(st) == PocVerdictSpec(st, poc, cel, order))
  }

  lemma EngineOfImplements(poc: Poc, cel: CelEngine, regex: RegexEngine, order: KeyOrder)
    requires ValidOrder(order)
    ensures Implements(EngineOf(poc, cel, regex, order), poc, cel, regex, order)
  {
  }

  /** The textual test after a false verdict: the expression calls the rule and is a
      conjunction somewhere. */
  predicate ShortCut(expression: string, name: string, verdict: bool) {
    !verdict && Occurs(name + "()", expression) && Occurs("&&", expression)
  }

  /** After one rule: go on with a new state, or stop the run with this outcome. */
  datatype Next = Continue(state: EnvState) | Stop(step: RunStep)

  /** One rule of the run: a missing rule is an error; otherwise the rule runs on a copy
      whose request is rendered against the current variables, and a false verdict of a
      rule the conjunction calls cuts the run short. */
  function RuleRun(st: EnvState, poc: Poc, name: string, dispatch: Dispatch, eng: Engine, order: KeyOrder): Next
    requires ValidOrder(order)
  {
    if name !in poc.rules then Stop(RunStep(st, Err("规则 " + name + " 不存在")))
    else
      var rule := poc.rules[name];
      var copy := rule.(request := eng.render(rule.request, st.variables));
      match dispatch(copy)
      case Err(m) => Stop(RunStep(st, Err(m)))
      case Ok(resp) =>
        var step := eng.execute(st, name, copy, resp);
        match step.result
        case Err(m) => Stop(RunStep(step.state, Err(m)))
        case Ok(verdict) =>
          if ShortCut(poc.expression, name, verdict) then
            Stop(RunStep(step.state, Ok(RunResult(false, map[], "规则 " + name + " 执行失败"))))
          else Continue(step.state)
  }

  /** A rule step that stops the run is an error or a failure without output, and one
      that goes on ran a rule the document defines. */
  lemma RuleRunOutcome(st: EnvState, poc: Poc, name: string, dispatch: Dispatch, eng: Engine, order: KeyOrder)
    requires ValidOrder(order)
    ensures var next := RuleRun(st, poc, name, dispatch, eng, order);
      && (next.Stop? ==> next.step.result.Err? || (!next.step.result.value.success && next.step.result.value.output == map[]))
      && (next.Continue? ==> name in poc.rules)
  {
  }

  /** The final verdict: an error is reported as it is, true reports success with the
      collected output and false a failure without output. */
  lemma ConcludeOutcome(verdict: Result<bool, string>, vars: map<string, Scalar>, detail: Detail)
    ensures var c := Concluded(verdict, vars, detail);
      && (c.Ok? <==> verdict.Ok?)
      && (verdict.Err? ==> c.error == verdict.error)
      && (c.Ok? ==> (c.value.success <==> verdict.value))
      && (c.Ok? && !c.value.success ==> c.value.output == map[] && c.value.message == "POC 执行失败")
      && (c.Ok? && c.value.success ==> c.value.output == CollectedOutput(vars, detail) && c.value.message == "POC 执行成功")
  {
  }

  /** The rules named by `calls`, one after the other, then the top-level verdict. */
  function RulesFrom(st: EnvState, poc: Poc, calls: seq<string>, dispatch: Dispatch, eng: Engine, order: KeyOrder): RunStep
    requires ValidOrder(order)
    decreases |calls|
  {
    if calls == [] then RunStep(st, Concluded(eng.verdict(st), st.variables, poc.detail))
    else
      match RuleRun(st, poc, calls[0], dispatch, eng, order)
      case Stop(step) => step
      case Continue(next) => RulesFrom(next, poc, calls[1..], dispatch, eng, order)
  }

  /** `run_rules`: the rules the top-level expression calls, then its verdict. */
  function RunRulesSpec(st: EnvState, poc: Poc, dispatch: Dispatch, eng: Engine, order: KeyOrder): RunStep
    requires ValidOrder(order)
  {
    RulesFrom(st, poc, ExtractedCalls(poc.expression), dispatch, eng, order)
  }

  /** A failing run, whether cut short, refused by the verdict or false, reports no output. */
  lemma {:induction false} RulesFromFailure(st: EnvState, poc: Poc, calls: seq<string>, dispatch: Dispatch,
                                            eng: Engine, order: KeyOrder)
    requires ValidOrder(order)
    ensures var run := RulesFrom(st, poc, calls, dispatch, eng, order);
      run.result.Ok? && !run.result.value.success ==> run.result.value.output == map[]
    decreases |calls|
  {
    if calls == [] {
      ConcludeOutcome(eng.verdict(st), st.variables, poc.detail);
    } else {
      var next := RuleRun(st, poc, calls[0], dispatch, eng, order);
      RuleRunOutcome(st, poc, calls[0], dispatch, eng, order);
      if next.Continue? {
        RulesFromFailure(next.state, poc, calls[1..], dispatch, eng, order);
      }
    }
  }

  /** A run that reaches a true top-level verdict reports the collected output of the
      final variables. */
  lemma {:induction false} RulesFromSuccess(st: EnvState, poc: Poc, calls: seq<string>, dispatch: Dispatch,
                                            eng: Engine, order: KeyOrder)
    requires ValidOrder(order)
    ensures var run := RulesFrom(st, poc, calls, dispatch, eng, order);
      run.result.Ok? && run.result.value.success ==>
        && run.result.value.message == "POC 执行成功"
        && run.result.value.output == CollectedOutput(run.state.variables, poc.detail)
    decreases |calls|
  {
    if calls == [] {
      ConcludeOutcome(eng.verdict(st), st.variables, poc.detail);
    } else {
      var next := RuleRun(st, poc, calls[0], dispatch, eng, order);
      RuleRunOutcome(st, poc, calls[0], dispatch, eng, order);
      if next.Continue? {
        RulesFromSuccess(next.state, poc, calls[1..], dispatch, eng, order);
      }
    }
  }

  /** A successful run has run every called rule: a missing rule or a short cut ends the
      run before the top-level verdict. */
  lemma {:induction false} RulesFromDefined(st: EnvState, poc: Poc, calls: seq<string>, dispatch: Dispatch,
                                            eng: Engine, order: KeyOrder)
    requires ValidOrder(order)
    ensures var run := RulesFrom(st, poc, calls, dispatch, eng, order);
      run.result.Ok? && run.result.value.success ==> forall j :: 0 <= j < |calls| ==> calls[j] in poc.rules
    decreases |calls|
  {
    if calls != [] {
      var next := RuleRun(st, poc, calls[0], dispatch, eng, order);
      RuleRunOutcome(st, poc, calls[0], dispatch, eng, order);
      if next.Continue? {
        RulesFromDefined(next.state, poc, calls[1..], dispatch, eng, order);
        forall j | 1 <= j < |calls| ensures calls[j] == calls[1..][j - 1] {
        }
      }
    }
  }

  /** A call of a rule the document does not define makes the run fail, with an error
      naming it unless an earlier rule failed or cut the run short. */
  lemma MissingRuleFails(st: EnvState, poc: Poc, calls: seq<string>, j: nat, dispatch: Dispatch,
                         eng: Engine, order: KeyOrder)
    requires ValidOrder(order) && j < |calls| && calls[j] !in poc.rules
    ensures var run := RulesFrom(st, poc, calls, dispatch, eng, order);
      run.result.Err? || !run.result.value.success
  {
    RulesFromDefined(st, poc, calls, dispatch, eng, order);
  }

  // ---------------------------------------------------------------- payloads

  const AnyHit: string := "POC 执行成功（至少一个 payload 匹配）"
  const NoHit: string := "POC 执行失败（所有 payload 均未匹配）"

  function PayloadHit(name: string): string {
    "POC 执行成功（使用 payload: " + name + "）"
  }

  /** The values of the named payload set (none for a name that is not one). */
  function PayloadValues(poc: Poc, name: string): map<string, string> {
    if name in poc.payloads.payloads then poc.payloads.payloads[name] else map[]
  }

  /** The run of the rules with one payload's values bound as strings. */
  function PayloadRun(st: EnvState, poc: Poc, name: string, dispatch: Dispatch, eng: Engine, order: KeyOrder): RunStep
    requires ValidOrder(order)
  {
    RunRulesSpec(st.(variables := st.variables + PayloadBindings(PayloadValues(poc, name))), poc, dispatch, eng, order)
  }

  /** What one payload's run gives, from the environment it starts in. */
  type EntryRun = (EnvState, string) -> RunStep

  /** The payloads named by `names`, in order: each runs and has the variables restored
      to those it found; `acc` is the last successful result so far. An error ends the
      loop without the restore; a hit ends it unless the loop goes on after hits. */
  function PayloadsFrom(st: EnvState, names: seq<string>, acc: RunResult, continueAfterHit: bool, entry: EntryRun): RunStep
    decreases |names|
  {
    if names == [] then RunStep(st, Ok(acc.(message := if acc.success then AnyHit else NoHit)))
    else
      var run := entry(st, names[0]);
      match run.result
      case Err(m) => RunStep(run.state, Err(m))
      case Ok(res) =>
        var restored := run.state.(variables := st.variables);
        if res.success && !continueAfterHit then RunStep(restored, Ok(res.(message := PayloadHit(names[0]))))
        else PayloadsFrom(restored, names[1..], if res.success then res else acc, continueAfterHit, entry)
  }

  /** `run_with_payloads`: the payload sets in iteration order. */
  function RunWithPayloadsSpec(st: EnvState, poc: Poc, dispatch: Dispatch, eng: Engine, order: KeyOrder): RunStep
    requires ValidOrder(order)
  {
    PayloadsFrom(st, order(poc.payloads.payloads.Keys), RunResult(false, map[], ""), poc.payloads.continueAfterHit,
                 (s: EnvState, n: string) => PayloadRun(s, poc, n, dispatch, eng, order))
  }

  /** What each payload's run gives, up to the first error. */
  function EntryRuns(st: EnvState, names: seq<string>, entry: EntryRun): (r: seq<Result<RunResult, string>>)
    ensures |r| <= |names|
    decreases |names|
  {
    if names == [] then []
    else
      var run := entry(st, names[0]);
      if run.result.Err? then [run.result]
      else [run.result] + EntryRuns(run.state.(variables := st.variables), names[1..], entry)
  }

  /** The payload loop leaves the variables as it found them when every payload completes. */
  lemma {:induction false} PayloadsRestore(st: EnvState, names: seq<string>, acc: RunResult, continueAfterHit: bool, entry: EntryRun)
    ensures var run := PayloadsFrom(st, names, acc, continueAfterHit, entry);
      run.result.Ok? ==> run.state.variables == st.variables
    decreases |names|
  {
    if names != [] {
      var run := entry(st, names[0]);
      if run.result.Ok? {
        PayloadsRestore(run.state.(variables := st.variables), names[1..],
                        if run.result.value.success then run.result.value else acc, continueAfterHit, entry);
      }
    }
  }

  /** The loop fails exactly when some payload's run fails, and a loop that succeeds
      has run every payload when it goes on after hits. */
  lemma {:induction false} PayloadsError(st: EnvState, names: seq<string>, acc: RunResult, continueAfterHit: bool, entry: EntryRun)
    ensures var run := PayloadsFrom(st, names, acc, continueAfterHit, entry);
      var runs := EntryRuns(st, names, entry);
      && (run.result.Err? ==> exists i :: 0 <= i < |runs| && runs[i].Err?)
      && (continueAfterHit ==> (run.result.Err? <==> exists i :: 0 <= i < |runs| && runs[i].Err?))
      && (continueAfterHit && run.result.Ok? ==> |runs| == |names|)
    decreases |names|
  {
    if names != [] {
      var first := entry(st, names[0]);
      var runs := EntryRuns(st, names, entry);
      if first.result.Ok? {
        var st2 := first.state.(variables := st.variables);
        var acc2 := if first.result.value.success then first.result.value else acc;
        PayloadsError(st2, names[1..], acc2, continueAfterHit, entry);
        var rest := EntryRuns(st2, names[1..], entry);
        assert runs == [first.result] + rest;
        if exists i :: 0 <= i < |rest| && rest[i].Err? {
          var i :| 0 <= i < |rest| && rest[i].Err?;
          assert runs[i + 1].Err?;
        }
        if exists i :: 0 <= i < |runs| && runs[i].Err? {
          var i :| 0 <= i < |runs| && runs[i].Err?;
          assert i > 0 && rest[i - 1].Err?;
        }
      } else {
        assert runs[0].Err?;
      }
    }
  }

  /** The last successful result among `runs`, or `acc` when none succeeded. */
  function LastHit(runs: seq<Result<RunResult, string>>, acc: RunResult): RunResult
    decreases |runs|
  {
    if runs == [] then acc
    else LastHit(runs[1..], if runs[0].Ok? && runs[0].value.success then runs[0].value else acc)
  }

  /** Going on after hits, a loop that completes ran every payload without an error and
      reports the last hit, its message saying whether there was one. */
  lemma {:induction false} PayloadsContinueFold(st: EnvState, names: seq<string>, acc: RunResult, entry: EntryRun)
    ensures var run := PayloadsFrom(st, names, acc, true, entry);
      var runs := EntryRuns(st, names, entry);
      var last := LastHit(runs, acc);
      run.result.Ok? ==>
        && (forall i :: 0 <= i < |runs| ==> runs[i].Ok?)
        && run.result.value == last.(message := if last.success then AnyHit else NoHit)
    decreases |names|
  {
    if names != [] {
      var first := entry(st, names[0]);
      if first.result.Ok? {
        var st2 := first.state.(variables := st.variables);
        var acc2 := if first.result.value.success then first.result.value else acc;
        PayloadsContinueFold(st2, names[1..], acc2, entry);
        var runs := EntryRuns(st, names, entry);
        var rest := EntryRuns(st2, names[1..], entry);
        assert runs == [first.result] + rest;
        assert runs[1..] == rest;
      }
    }
  }

  /** The last hit succeeded exactly when `acc` did or one of the runs did. */
  lemma {:induction false} LastHitSuccess(runs: seq<Result<RunResult, string>>, acc: RunResult)
    ensures LastHit(runs, acc).success <==> acc.success || exists i :: 0 <= i < |runs| && runs[i].Ok? && runs[i].value.success
    decreases |runs|
  {
    if runs != [] {
      var acc2 := if runs[0].Ok? && runs[0].value.success then runs[0].value else acc;
      LastHitSuccess(runs[1..], acc2);
      if exists i :: 0 <= i < |runs[1..]| && runs[1..][i].Ok? && runs[1..][i].value.success {
        var i :| 0 <= i < |runs[1..]| && runs[1..][i].Ok? && runs[1..][i].value.success;
        assert runs[i + 1] == runs[1..][i];
      }
      if exists i :: 0 <= i < |runs| && runs[i].Ok? && runs[i].value.success {
        var i :| 0 <= i < |runs| && runs[i].Ok? && runs[i].value.success;
        if i > 0 {
          assert runs[1..][i - 1] == runs[i];
        }
      }
    }
  }

  /** The last hit is the result of the last successful run, or `acc` when none succeeded. */
  lemma LastHitIsLast(runs: seq<Result<RunResult, string>>, acc: RunResult)
    ensures forall i :: (0 <= i < |runs| && runs[i].Ok? && runs[i].value.success &&
              (forall j :: i < j < |runs| ==> !(runs[j].Ok? && runs[j].value.success))) ==>
              LastHit(runs, acc) == runs[i].value
    ensures (forall i :: 0 <= i < |runs| ==> !(runs[i].Ok? && runs[i].value.success)) ==> LastHit(runs, acc) == acc
  {
    forall i | 0 <= i < |runs| && runs[i].Ok? && runs[i].value.success &&
        (forall j :: i < j < |runs| ==> !(runs[j].Ok? && runs[j].value.success))
      ensures LastHit(runs, acc) == runs[i].value
    {
      LastHitAt(runs, acc, i);
    }
    if forall i :: 0 <= i < |runs| ==> !(runs[i].Ok? && runs[i].value.success) {
      LastHitNone(runs, acc);
    }
  }

  lemma {:induction false} LastHitAt(runs: seq<Result<RunResult, string>>, acc: RunResult, i: nat)
    requires i < |runs| && runs[i].Ok? && runs[i].value.success
    requires forall j :: i < j < |runs| ==> !(runs[j].Ok? && runs[j].value.success)
    ensures LastHit(runs, acc) == runs[i].value
    decreases i
  {
    var acc2 := if runs[0].Ok? && runs[0].value.success then runs[0].value else acc;
    var rest := runs[1..];
    if i == 0 {
      assert forall j :: 0 <= j < |rest| ==> rest[j] == runs[j + 1];
      LastHitNone(rest, acc2);
    } else {
      assert forall j :: i - 1 <= j < |rest| ==> rest[j] == runs[j + 1];
      LastHitAt(rest, acc2, i - 1);
    }
  }

  lemma {:induction false} LastHitNone(runs: seq<Result<RunResult, string>>, acc: RunResult)
    requires forall j :: 0 <= j < |runs| ==> !(runs[j].Ok? && runs[j].value.success)
    ensures LastHit(runs, acc) == acc
    decreases |runs|
  {
    if runs != [] {
      var rest := runs[1..];
      assert forall j :: 0 <= j < |rest| ==> rest[j] == runs[j + 1];
      LastHitNone(rest, acc);
    }
  }

  /** Going on after hits: the loop reports a hit exactly when `acc` or some payload's
      run succeeded, and its message says which. */
  lemma PayloadsContinue(st: EnvState, names: seq<string>, acc: RunResult, entry: EntryRun)
    ensures var run := PayloadsFrom(st, names, acc, true, entry);
      var runs := EntryRuns(st, names, entry);
      run.result.Ok? ==>
        && (run.result.value.success <==> acc.success || exists i :: 0 <= i < |runs| && runs[i].Ok? && runs[i].value.success)
        && run.result.value.message == (if run.result.value.success then AnyHit else NoHit)
  {
    PayloadsContinueFold(st, names, acc, entry);
    LastHitSuccess(EntryRuns(st, names, entry), acc);
  }

  /** Going on after hits: a successful loop reports the output of the last payload that
      succeeded, or that of `acc` when none did. */
  lemma PayloadsContinueOutput(st: EnvState, names: seq<string>, acc: RunResult, entry: EntryRun)
    ensures var run := PayloadsFrom(st, names, acc, true, entry);
      var runs := EntryRuns(st, names, entry);
      run.result.Ok? ==>
        && (forall i :: (0 <= i < |runs| && runs[i].Ok? && runs[i].value.success &&
              (forall j :: i < j < |runs| ==> !(runs[j].Ok? && runs[j].value.success))) ==>
              run.result.value.output == runs[i].value.output)
        && ((forall i :: 0 <= i < |runs| ==> !(runs[i].Ok? && runs[i].value.success)) ==> run.result.value.output == acc.output)
  {
    PayloadsContinueFold(st, names, acc, entry);
    LastHitIsLast(EntryRuns(st, names, entry), acc);
  }

  /** Stopping at the first hit: a successful loop names the payload that hit, every
      earlier payload ran and failed, and the output is that of the hit. */
  lemma {:induction false} PayloadsStop(st: EnvState, names: seq<string>, acc: RunResult, entry: EntryRun)
    requires !acc.success
    ensures var run := PayloadsFrom(st, names, acc, false, entry);
      var runs := EntryRuns(st, names, entry);
      run.result.Ok? && run.result.value.success ==>
        exists k :: 0 <= k < |runs| && runs[k].Ok? && runs[k].value.success
          && (forall j :: 0 <= j < k ==> runs[j].Ok? && !runs[j].value.success)
          && run.result.value == runs[k].value.(message := PayloadHit(names[k]))
    decreases |names|
  {
    var run := PayloadsFrom(st, names, acc, false, entry);
    var runs := EntryRuns(st, names, entry);
    if names != [] && run.result.Ok? && run.result.value.success {
      var first := entry(st, names[0]);
      assert first.result.Ok?;
      if first.result.value.success {
        assert runs[0] == first.result;
      } else {
        var st2 := first.state.(variables := st.variables);
        PayloadsStop(st2, names[1..], acc, entry);
        var rest := EntryRuns(st2, names[1..], entry);
        assert runs == [first.result] + rest;
        var k :| 0 <= k < |rest| && rest[k].Ok? && rest[k].value.success
          && (forall j :: 0 <= j < k ==> rest[j].Ok? && !rest[j].value.success)
          && run.result.value == rest[k].value.(message := PayloadHit(names[1..][k]));
        assert runs[k + 1] == rest[k];
        assert names[1..][k] == names[k + 1];
        forall j | 0 <= j < k + 1 ensures runs[j].Ok? && !runs[j].value.success {
          if j > 0 {
            assert runs[j] == rest[j - 1];
          }
        }
      }
    }
  }

  function RunSpec(poc: Poc, dispatch: Dispatch, cel: CelEngine, regex: RegexEngine, order: KeyOrder): Result<RunResult, string>
    requires ValidOrder(order)
  {
    var st := EnvState(SetBindings(poc.setVars), DefaultResponse(), map[]);
    var eng := EngineOf(poc, cel, regex, order);
    if |poc.payloads.payloads| > 0 then RunWithPayloadsSpec(st, poc, dispatch, eng, order).result
    else RunRulesSpec(st, poc, dispatch, eng, order).result
  }

  // ---------------------------------------------------------------- the runner

  class PocRunner {
    const poc: Poc

    constructor (poc: Poc)
      ensures this.poc == poc
    {
      this.poc := poc;
    }

    /** `run_rules`. */
    method RunRules(env: CelEnv, dispatch: Dispatch, cel: CelEngine, regex: RegexEngine, order: KeyOrder, ghost eng: Engine)
      returns (r: Result<RunResult, string>)
      requires ValidOrder(order) && Implements(eng, poc, cel, regex, order)
      modifies env
      ensures RunStep(env.State(), r) == RunRulesSpec(old(env.State()), poc, dispatch, eng, order)
    {
      var calls := ExtractRuleCalls(poc.expression);
      var i := 0;
      while i < |calls|
        invariant 0 <= i <= |calls|
        invariant RulesFrom(env.State(), poc, calls[i..], dispatch, eng, order)
               == RulesFrom(old(env.State()), poc, calls, dispatch, eng, order)
      {
        assert calls[i..][0] == calls[i] && calls[i..][1..] == calls[i + 1..];
        var stop := RunRule(env, calls[i], dispatch, cel, regex, order, eng);
        if stop.Some? {
          return stop.value;
        }
        i := i + 1;
      }
      r := ConcludeRun(env, cel, regex, order, eng);
    }

    /** The body of the loop of `run_rules`: `None` when the run goes on, otherwise what
        it stops with. */
    method RunRule(env: CelEnv, name: string, dispatch: Dispatch, cel: CelEngine, regex: RegexEngine, order: KeyOrder, ghost eng: Engine)
      returns (stop: Option<Result<RunResult, string>>)
      requires ValidOrder(order) && Implements(eng, poc, cel, regex, order)
      modifies env
      ensures match RuleRun(old(env.State()), poc, name, dispatch, eng, order)
        case Stop(step) => stop == Some(step.result) && env.State() == step.state
        case Continue(next) => stop == None && env.State() == next
    {
      if name !in poc.rules {
        return Some(Err("规则 " + name + " 不存在"));
      }
      var rule := poc.rules[name];
      var request := RenderRequest(rule.request, env.variables, order);
      var copy := rule.(request := request);
      var response := dispatch(copy);
      if response.Err? {
        return Some(Err(response.error));
      }
      var verdict := env.ExecuteRule(name, copy, response.value, cel, regex, order);
      if verdict.Err? {
        return Some(Err(verdict.error));
      }
      if !verdict.value && Occurs(name + "()", poc.expression) && Occurs("&&", poc.expression) {
        return Some(Ok(RunResult(false, map[], "规则 " + name + " 执行失败")));
      }
      return None;
    }

    /** The end of `run_rules`: the top-level verdict and the output of a success. */
    method ConcludeRun(env: CelEnv, cel: CelEngine, regex: RegexEngine, order: KeyOrder, ghost eng: Engine) returns (r: Result<RunResult, string>)
      requires ValidOrder(order) && Implements(eng, poc, cel, regex, order)
      ensures r == Concluded(eng.verdict(env.State()), env.variables, poc.detail)
    {
      var top := env.EvaluatePocExpression(poc, cel, order);
      if top.Err? {
        return Err(top.error);
      }
      if top.value {
        var output := CollectStrings(env.variables, order);
        var detail := RenderDetail(poc.detail, env.variables);
        if detail.vulnerability.matchInfo != "" {
          output := output["match_info" := detail.vulnerability.matchInfo];
        }
        r := Ok(RunResult(true, output, "POC 执行成功"));
      } else {
        r := Ok(RunResult(false, map[], "POC 执行失败"));
      }
    }

    /** `run_with_payloads`. */
    method RunWithPayloads(env: CelEnv, dispatch: Dispatch, cel: CelEngine, regex: RegexEngine, order: KeyOrder, ghost eng: Engine)
      returns (r: Result<RunResult, string>)
      requires ValidOrder(order) && Implements(eng, poc, cel, regex, order)
      modifies env
      ensures RunStep(env.State(), r) == RunWithPayloadsSpec(old(env.State()), poc, dispatch, eng, order)
    {
      var names := order(poc.payloads.payloads.Keys);
      assert Enumerates(names, poc.payloads.payloads.Keys);
      ghost var entry: EntryRun := (s: EnvState, n: string) => PayloadRun(s, poc, n, dispatch, eng, order);
      var result := RunResult(false, map[], "");
      var continueFlag := poc.payloads.continueAfterHit;
      var i := 0;
      while i < |names|
        invariant 0 <= i <= |names|
        invariant PayloadsFrom(env.State(), names[i..], result, continueFlag, entry)
               == PayloadsFrom(old(env.State()), names, RunResult(false, map[], ""), continueFlag, entry)
      {
        var name := names[i];
        assert names[i..][0] == name && names[i..][1..] == names[i + 1..];
        var ruleResult := RunPayload(env, name, dispatch, cel, regex, order, eng);
        if ruleResult.Err? {
          return Err(ruleResult.error);
        }
        if ruleResult.value.success && !continueFlag {
          return Ok(ruleResult.value.(message := PayloadHit(name)));
        }
        if ruleResult.value.success {
          result := ruleResult.value;
        }
        i := i + 1;
      }
      r := Ok(result.(message := if result.success then AnyHit else NoHit));
    }

    /** One payload of `run_with_payloads`: its values bound, the rules run, and the
        variables restored unless the run failed. */
    method RunPayload(env: CelEnv, name: string, dispatch: Dispatch, cel: CelEngine, regex: RegexEngine, order: KeyOrder, ghost eng: Engine)
      returns (r: Result<RunResult, string>)
      requires ValidOrder(order) && Implements(eng, poc, cel, regex, order)
      modifies env
      ensures var run := PayloadRun(old(env.State()), poc, name, dispatch, eng, order);
        r == run.result && env.State() == if r.Ok? then run.state.(variables := old(env.variables)) else run.state
    {
      var backup := env.variables;
      env.UpdateFromPayload(PayloadValues(poc, name));
      r := RunRules(env, dispatch, cel, regex, order, eng);
      if r.Ok? {
        env.variables := backup;
      }
    }

    /** `run`: a fresh environment with the document's variables, then the payload loop
      when there are payloads and a single run of the rules otherwise. */
    method Run(dispatch: Dispatch, cel: CelEngine, regex: RegexEngine, order: KeyOrder)
      returns (r: Result<RunResult, string>)
      requires ValidOrder(order)
      ensures r == RunSpec(poc, dispatch, cel, regex, order)
    {
      var env := new CelEnv();
      env.InitFromPoc(poc);
      assert map[] + SetBindings(poc.setVars) == SetBindings(poc.setVars);
      ghost var eng := EngineOf(poc, cel, regex, order);
      EngineOfImplements(poc, cel, regex, order);
      if |poc.payloads.payloads| > 0 {
        r := RunWithPayloads(env, dispatch, cel, regex, order, eng);
      } else {
        r := RunRules(env, dispatch, cel, regex, order, eng);
      }
    }
  }

  /** The text variables, gathered in iteration order. */
  method CollectStrings(vars: map<string, Scalar>, order: KeyOrder) returns (out: map<string, string>)
    requires ValidOrder(order)
    ensures out == StringVariables(vars)
  {
    var keys := order(vars.Keys);
    assert Enumerates(keys, vars.Keys);
    out := map[];
    for i := 0 to |keys|
      invariant forall k :: k in out <==> k in keys[..i] && vars[k].VStr?
      invariant forall k :: k in out ==> out[k] == vars[k].s
    {
      var k := keys[i];
      assert keys[..i + 1] == keys[..i] + [k];
      if vars[k].VStr? {
        out := out[k := vars[k].s];
      }
    }
    assert keys[..|keys|] == keys;
    assert out == StringVariables(vars);
  }
}
