/** The scan loop of the Go engine (scanner/scanner.go): each rule is filled from the
    probe's bindings, sent, and judged by its search pattern or its expression; the
    rules of a probe are scanned in order until one fails. */
module GoScanner {
  import opened Base
  import opened Text
  import opened GoDecode
  import opened GoBuild
  import GoFunctions

  /** What sending a rule produces: the request object, the response object and the
      response body. */
  datatype Exchange = Exchange(request: GoValue, response: GoValue, body: string)

  /** `url.JoinPath(target, rule.Path)`, `proto.SetupRequest`, `http.Do` and
      `proto.SetupResponse` together: the exchange for a rule, or the first error. */
  type Network = (string, RuleData) -> Result<Exchange, string>

  /** The map iteration order and the oracles a scan runs on. */
  datatype Engine = Engine(order: KeyOrder, net: Network, regex: GoRegexp, eval: GoEval)

  /** A Go `(verify bool, err error)` result, or a run-time panic. */
  datatype Verdict = Verdict(verify: bool, err: Option<string>) | Crashed(reason: string)

  const IndexPanic := "index out of range"
  const ConversionPanic := "interface conversion: interface {} is not bool"

  /** `scan`: the verdict on one rule, with the bindings `vars` of the scanner. */
  function ScanSpec(vars: map<string, GoValue>, target: string, rule: RuleData, e: Engine): (v: Verdict)
    ensures WellFormedRegexp(e.regex) ==> v != Crashed(IndexPanic)
    ensures WellFormedRegexp(e.regex) && rule.search != "" ==> v.Verdict?
  {
    match e.net(target, rule)
    case Err(err) => Verdict(false, Some(err))
    case Ok(x) =>
      if rule.search != "" then
        match SearchStatus(Trim(rule.search), x.body, e.regex)
        case Done => Verdict(true, None)
        case Failed(_) => Verdict(false, None)
        case Panicked => Crashed(IndexPanic)
      else
        match e.eval(rule.expression, vars["request" := x.request]["response" := x.response])
        case Err(err) => Verdict(false, Some("scan failed: " + err))
        case Ok(out) => if out.GBool? then Verdict(out.b, None) else Crashed(ConversionPanic)
  }

  /** A verdict after which `Start` goes on to the next rule. */
  predicate Proceeds(v: Verdict) {
    v == Verdict(true, None)
  }

  /** A verdict with which `StartByGroups` returns. */
  predicate Stops(v: Verdict) {
    v.Crashed? || v.err.Some? || v.verify
  }

  /** The verdict of `Start` and how many rules it rewrote and scanned. */
  datatype StartRun = StartRun(verdict: Verdict, scanned: nat)

  /** What `Start` does with one rule: `rewrite` is `DecodeSet`, `judge` is `scan` on the
      rewritten rule. */
  datatype Probe = Probe(rewrite: RuleData -> RuleData, judge: RuleData -> Verdict)

  /** The probe of a scanner with the bindings `vars`. */
  function ProbeOf(vars: map<string, GoValue>, target: string, e: Engine): Probe {
    Probe(d => DecodedRule(d, vars, e.order), d => ScanSpec(vars, target, d, e))
  }

  /** `p` rewrites like `DecodeSet` and judges like `scan` with the bindings `vars`. */
  ghost predicate Realizes(p: Probe, vars: map<string, GoValue>, target: string, e: Engine) {
    && (forall d {:trigger DecodedRule(d, vars, e.order)} :: p.rewrite(d) == DecodedRule(d, vars, e.order))
    && (forall d {:trigger ScanSpec(vars, target, d, e)} :: p.judge(d) == ScanSpec(vars, target, d, e))
  }

  /** The verdicts on the rules, each rewritten. */
  function Verdicts(p: Probe, datas: seq<RuleData>): (r: seq<Verdict>)
    ensures |r| == |datas|
  {
    seq(|datas|, j requires 0 <= j < |datas| => p.judge(p.rewrite(datas[j])))
  }

  /** The loop of `Start` on the verdicts `vs`: the first one that does not proceed, or
      the last one; `(false, nil)` when there is none. */
  function FirstStop(vs: seq<Verdict>): (r: StartRun)
    ensures r.scanned <= |vs|
  {
    if vs == [] then StartRun(Verdict(false, None), 0)
    else if !Proceeds(vs[0]) || |vs| == 1 then StartRun(vs[0], 1)
    else Shifted(FirstStop(vs[1..]), 1)
  }

  function Shifted(r: StartRun, n: nat): StartRun {
    StartRun(r.verdict, r.scanned + n)
  }

  /** `Start` on rules with the fields `datas`. */
  function StartSpec(p: Probe, datas: seq<RuleData>): (r: StartRun)
    ensures r.scanned <= |datas|
  {
    FirstStop(Verdicts(p, datas))
  }

  /** The rules after the first `n` of them have been rewritten. */
  function Advance(p: Probe, datas: seq<RuleData>, n: nat): (r: seq<RuleData>)
    ensures |r| == |datas|
  {
    seq(|datas|, j requires 0 <= j < |datas| => if j < n then p.rewrite(datas[j]) else datas[j])
  }

  /** The fields of the rules. */
  function Datas(rules: seq<PocRule>): (r: seq<RuleData>)
    reads set x | x in rules
    ensures |r| == |rules|
    ensures forall j {:trigger r[j]} :: 0 <= j < |rules| ==> r[j] == rules[j].Data()
  {
    if rules == [] then [] else [rules[0].Data()] + Datas(rules[1..])
  }

  /** What the calls of `Start` for one group come to: the verdict that made
      `StartByGroups` return, if one did, and the rules' fields afterwards. */
  datatype GroupRun = GroupRun(stopped: Option<Verdict>, datas: seq<RuleData>)

  /** One more call of `Start` for a group, unless an earlier one stopped it. */
  function Next(p: Probe, g: GroupRun): (r: GroupRun)
    ensures |r.datas| == |g.datas|
  {
    if g.stopped.Some? then g
    else
      var run := StartSpec(p, g.datas);
      GroupRun(if Stops(run.verdict) then Some(run.verdict) else None, Advance(p, g.datas, run.scanned))
  }

  /** `times` calls of `Start` on the same rules, stopping at a verdict that `Stops`. */
  function Repeat(p: Probe, datas: seq<RuleData>, times: nat): (r: GroupRun)
    ensures |r.datas| == |datas|
    decreases times
  {
    if times == 0 then GroupRun(None, datas) else Next(p, Repeat(p, datas, times - 1))
  }

  /** What the calls of `Start` for a group with the fields `g` come to: the verdict
      that stopped the group, if one did. */
  type GroupOutcome = seq<RuleData> -> Option<Verdict>

  /** The outcome of `times` calls of `Start` on each group, the probe being `p`. */
  function OutcomeOf(p: Probe): GroupOutcome {
    g => Repeat(p, g, |g|).stopped
  }

  /** `outcome` is the outcome of the calls of `Start` with the probe `p`. */
  ghost predicate Summarizes(outcome: GroupOutcome, p: Probe) {
    forall g {:trigger Repeat(p, g, |g|)} :: outcome(g) == Repeat(p, g, |g|).stopped
  }

  /** The outcomes of the groups taken in the order `names`. */
  function Outcomes(outcome: GroupOutcome, groups: map<string, seq<RuleData>>, names: seq<string>): (r: seq<Option<Verdict>>)
    requires forall i :: 0 <= i < |names| ==> names[i] in groups
    ensures |r| == |names|
  {
    seq(|names|, m requires 0 <= m < |names| => outcome(groups[names[m]]))
  }

  /** The first verdict that stopped a group; `(false, nil)` when none did. */
  function FirstStopped(outcomes: seq<Option<Verdict>>): Verdict {
    if outcomes == [] then Verdict(false, None)
    else if outcomes[0].Some? then outcomes[0].value
    else FirstStopped(outcomes[1..])
  }

  /** `StartByGroups` on groups with the fields `groups`, visited in the order `names`. */
  function GroupsSpec(outcome: GroupOutcome, groups: map<string, seq<RuleData>>, names: seq<string>): Verdict
    requires forall i :: 0 <= i < |names| ==> names[i] in groups
  {
    FirstStopped(Outcomes(outcome, groups, names))
  }

  /** The fields of every group's rules. */
  ghost function GroupDatas(groups: map<string, seq<PocRule>>): map<string, seq<RuleData>>
    reads Objects(groups)
  {
    map k | k in groups :: Datas(groups[k])
  }

  /** `scanner`: the CEL environment lives in the oracles, `vars` is `set`. The methods
      that visit rules are stated for any probe `p` that `Realizes` the scanner's
      rewriting and judging, such as `ProbeOf(vars, target, e)`. */
  class Scanner {
    var vars: map<string, GoValue>

    constructor (vars: map<string, GoValue>)
      ensures this.vars == vars
    {
      this.vars := vars;
    }

    /** `scan`: the search or the expression runs on a copy of the bindings, so nothing
        it binds reaches the scanner. */
    method Scan(target: string, rule: PocRule, e: Engine) returns (v: Verdict)
      ensures v == ScanSpec(vars, target, rule.Data(), e)
      ensures WellFormedRegexp(e.regex) && rule.search != "" ==> v.Verdict?
    {
      var local := vars;  // maps.Copy(set, s.set)
      var exchange := e.net(target, rule.Data());
      if exchange.Err? {
        return Verdict(false, Some(exchange.error));
      }
      local := local["request" := exchange.value.request];
      if rule.search != "" {
        var status, bound := Search(Trim(rule.search), exchange.value.body, local, e.regex);
        match status
        case Done => return Verdict(true, None);
        case Failed(_) => return Verdict(false, None);
        case Panicked => return Crashed(IndexPanic);
      }
      local := local["response" := exchange.value.response];
      var out := e.eval(rule.expression, local);
      if out.Err? {
        return Verdict(false, Some("scan failed: " + out.error));
      }
      if out.value.GBool? {
        return Verdict(out.value.b, None);
      }
      return Crashed(ConversionPanic);
    }

    /** The body of the loop of `Start`: one rule rewritten in place and scanned. */
    method DecodeAndScan(target: string, rules: seq<PocRule>, i: nat, e: Engine, ghost p: Probe, ghost D: seq<RuleData>)
      returns (v: Verdict)
      requires ValidOrder(e.order) && Realizes(p, vars, target, e)
      requires forall i, j :: 0 <= i < j < |rules| ==> rules[i] != rules[j]
      requires i < |rules| == |D|
      requires forall j :: 0 <= j < |rules| ==> rules[j].Data() == if j < i then p.rewrite(D[j]) else D[j]
      modifies rules[i]
      ensures forall j :: 0 <= j < |rules| ==> rules[j].Data() == if j <= i then p.rewrite(D[j]) else D[j]
      ensures v == p.judge(p.rewrite(D[i]))
    {
      rules[i].DecodeSet(vars, e.order);
      v := Scan(target, rules[i], e);
    }

    /** `Start`: each rule in turn is rewritten in place by `DecodeSet` and scanned,
        until a verdict other than `(true, nil)`. */
    method Start(target: string, rules: seq<PocRule>, e: Engine, ghost p: Probe) returns (v: Verdict)
      requires ValidOrder(e.order) && Realizes(p, vars, target, e)
      requires forall i, j :: 0 <= i < j < |rules| ==> rules[i] != rules[j]
      modifies set x | x in rules
      ensures var run := StartSpec(p, old(Datas(rules)));
        v == run.verdict && Datas(rules) == Advance(p, old(Datas(rules)), run.scanned)
    {
      ghost var D := Datas(rules);
      ghost var V := Verdicts(p, D);
      v := Verdict(false, None);
      var i := 0;
      while i < |rules|
        invariant 0 <= i <= |rules|
        invariant forall j :: 0 <= j < |rules| ==> rules[j].Data() == if j < i then p.rewrite(D[j]) else D[j]
        invariant forall k :: 0 <= k < i ==> Proceeds(V[k])
        invariant v == if i == 0 then Verdict(false, None) else V[i - 1]
      {
        v := DecodeAndScan(target, rules, i, e, p, D);
        if !Proceeds(v) {
          FirstStopAt(V, i);
          RulesAdvanced(rules, D, i + 1, p);
          return;
        }
        i := i + 1;
      }
      if 0 < i {
        FirstStopAt(V, i - 1);
      }
      RulesAdvanced(rules, D, i, p);
    }

    /** One call of `Start` in the loop of `StartByGroups`, and whether it stops the
        group. */
    method StartOnce(target: string, rules: seq<PocRule>, e: Engine, ghost p: Probe, ghost datas: seq<RuleData>, ghost t: nat)
      returns (stopped: Option<Verdict>)
      requires ValidOrder(e.order) && Realizes(p, vars, target, e)
      requires forall i, j :: 0 <= i < j < |rules| ==> rules[i] != rules[j]
      requires Repeat(p, datas, t) == GroupRun(None, Datas(rules))
      modifies set x | x in rules
      ensures Repeat(p, datas, t + 1) == GroupRun(stopped, Datas(rules))
    {
      var v := Start(target, rules, e, p);
      stopped := if Stops(v) then Some(v) else None;  // return verify, err
    }

    /** The inner loop of `StartByGroups`: `Start` once for every rule of the group. */
    method StartRepeatedly(target: string, rules: seq<PocRule>, e: Engine, ghost p: Probe) returns (stopped: Option<Verdict>)
      requires ValidOrder(e.order) && Realizes(p, vars, target, e)
      requires forall i, j :: 0 <= i < j < |rules| ==> rules[i] != rules[j]
      modifies set x | x in rules
      ensures var run := Repeat(p, old(Datas(rules)), |rules|);
        stopped == run.stopped && Datas(rules) == run.datas
    {
      ghost var D := Datas(rules);
      stopped := None;
      var i := 0;
      while i < |rules| && stopped.None?
        invariant 0 <= i <= |rules|
        invariant Repeat(p, D, i) == GroupRun(stopped, Datas(rules))
      {
        stopped := StartOnce(target, rules, e, p, D, i);
        i := i + 1;
      }
      RepeatStops(p, D, i, |rules|, GroupRun(stopped, Datas(rules)));
    }

    /** One group of `StartByGroups`; the rules of the other groups keep their fields. */
    method StartGroup(target: string, groups: map<string, seq<PocRule>>, k: string, e: Engine,
                      ghost p: Probe, ghost outcome: GroupOutcome)
      returns (stopped: Option<Verdict>)
      requires ValidOrder(e.order) && Realizes(p, vars, target, e) && Summarizes(outcome, p)
      requires Disjoint(groups) && k in groups
      modifies Objects(groups)
      ensures stopped == outcome(old(Datas(groups[k])))
      ensures forall l :: l in groups && l != k ==> Datas(groups[l]) == old(Datas(groups[l]))
    {
      GroupObjects(groups, k);
      GroupsApart(groups, k);
      stopped := StartRepeatedly(target, groups[k], e, p);
    }

    /** `StartByGroups`: the groups in map order, each tried until a call of `Start`
        verifies or fails with an error. */
    method StartByGroups(target: string, groups: map<string, seq<PocRule>>, e: Engine,
                         ghost p: Probe, ghost outcome: GroupOutcome) returns (v: Verdict)
      requires ValidOrder(e.order) && Realizes(p, vars, target, e) && Summarizes(outcome, p)
      requires Disjoint(groups)
      modifies Objects(groups)
      ensures v == GroupsSpec(outcome, old(GroupDatas(groups)), e.order(groups.Keys))
    {
      ghost var G := GroupDatas(groups);
      var names := e.order(groups.Keys);
      assert forall m :: 0 <= m < |names| ==> names[m] in groups && names[m] in G;
      ghost var O := Outcomes(outcome, G, names);
      for n := 0 to |names|
        invariant forall m :: n <= m < |names| ==> Datas(groups[names[m]]) == G[names[m]]
        invariant FirstStopped(O) == FirstStopped(O[n..])
      {
        var stopped := StartGroup(target, groups, names[n], e, p, outcome);
        assert stopped == O[n];
        assert O[n..][1..] == O[n + 1..];
        if stopped.Some? {
          return stopped.value;
        }
      }
      return Verdict(false, None);
    }
  }

  /** The probe made of `DecodedRule` and `ScanSpec` is one the methods accept. */
  lemma ProbeOfRealizes(vars: map<string, GoValue>, target: string, e: Engine)
    ensures Realizes(ProbeOf(vars, target, e), vars, target, e)
  {
  }

  /** The outcome made of `Repeat` is one the methods accept. */
  lemma OutcomeOfSummarizes(p: Probe)
    ensures Summarizes(OutcomeOf(p), p)
  {
  }

  /** `FirstStop` ends at the first verdict that does not proceed, or at the last one
      when all of them proceed. */
  lemma {:induction false} FirstStopAt(vs: seq<Verdict>, i: nat)
    requires i < |vs|
    requires forall k :: 0 <= k < i ==> Proceeds(vs[k])
    requires !Proceeds(vs[i]) || i == |vs| - 1
    ensures FirstStop(vs) == StartRun(vs[i], i + 1)
    decreases i
  {
    if i > 0 {
      FirstStopAt(vs[1..], i - 1);
    }
  }

  lemma RulesAdvanced(rules: seq<PocRule>, datas: seq<RuleData>, n: nat, p: Probe)
    requires |rules| == |datas|
    requires forall j :: 0 <= j < |rules| ==> rules[j].Data() == if j < n then p.rewrite(datas[j]) else datas[j]
    ensures Datas(rules) == Advance(p, datas, n)
  {
  }

  /** The rules of one group are distinct objects of the group map. */
  lemma GroupObjects(groups: map<string, seq<PocRule>>, k: string)
    requires Disjoint(groups) && k in groups
    ensures forall i, j :: 0 <= i < j < |groups[k]| ==> groups[k][i] != groups[k][j]
    ensures forall x :: x in groups[k] ==> x in Objects(groups)
  {
  }

  /** The rules of the other groups are not rules of group `k`. */
  lemma GroupsApart(groups: map<string, seq<PocRule>>, k: string)
    requires Disjoint(groups) && k in groups
    ensures forall l, x :: l in groups && l != k && x in groups[l] ==> x !in groups[k]
  {
    forall l, x | l in groups && l != k && x in groups[l] ensures x !in groups[k] {
      var j :| 0 <= j < |groups[l]| && groups[l][j] == x;
      assert forall i :: 0 <= i < |groups[k]| ==> groups[k][i] != groups[l][j];
    }
  }

  /** The loop of `StartRepeatedly` ends with all calls made or the group stopped. */
  lemma RepeatStops(p: Probe, datas: seq<RuleData>, t: nat, u: nat, g: GroupRun)
    requires t <= u && Repeat(p, datas, t) == g && (t == u || g.stopped.Some?)
    ensures Repeat(p, datas, u) == g
  {
    if t < u {
      RepeatStaysStopped(p, datas, t, u);
    }
  }

  /** Once a call of `Start` has stopped the group, later ones do not happen. */
  lemma {:induction false} RepeatStaysStopped(p: Probe, datas: seq<RuleData>, t: nat, u: nat)
    requires t <= u && Repeat(p, datas, t).stopped.Some?
    ensures Repeat(p, datas, u) == Repeat(p, datas, t)
    decreases u - t
  {
    if t < u {
      RepeatStaysStopped(p, datas, t, u - 1);
    }
  }
}
