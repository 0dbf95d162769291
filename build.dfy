/** The probe definitions of the Go engine (build/poc.go): a rule's placeholders are
    filled from the variable bindings, rules are deep-copied before a scan rewrites
    them, and a probe's `set` section is evaluated into those bindings. */
module GoBuild {
  import opened Base
  import opened Text
  import opened Rewrite
  import opened GoDecode
  import GoFunctions
  import GoUtils
  import Utf8

  /** `fmt.Sprintf("%v", v)` of a binding that is not a string map. */
  function Show(v: GoValue): string
    requires !v.VStringMap?
  {
    match v
    case VString(s) => s
    case VInt(i) => IntToString(i)
    case VObject(_, text) => text
  }

  /** The placeholder `{{key}}`. */
  function Token(key: string): (r: string)
    ensures r != []
  {
    "{{" + key + "}}"
  }

  /** The fields of a `PocRule`. */
  datatype RuleData = RuleData(
    requestMethod: string,
    path: string,
    headers: map<string, string>,
    body: string,
    followRedirects: bool,
    search: string,
    expression: string)

  /** Every header value with `pat` replaced by `text`. */
  function ReplaceInHeaders(headers: map<string, string>, pat: string, text: string): map<string, string> {
    map h | h in headers :: ReplaceAll(headers[h], pat, text)
  }

  /** One pass of the binding loop of `PocRule.DecodeSet`. */
  function Substitute(d: RuleData, key: string, v: GoValue): RuleData {
    if v.VStringMap? then d
    else
      var pat, text := Token(key), Show(v);
      d.(headers := ReplaceInHeaders(d.headers, pat, text),
         path := ReplaceAll(Trim(d.path), pat, text),
         body := ReplaceAll(Trim(d.body), pat, text))
  }

  /** The passes for the keys `keys`, in that order (each of them a key of `vars`). */
  function SubstituteAll(d: RuleData, vars: map<string, GoValue>, keys: seq<string>): RuleData
    decreases |keys|
  {
    if keys == [] then d
    else
      var last, init := keys[|keys| - 1], SubstituteAll(d, vars, keys[..|keys| - 1]);
      if last in vars then Substitute(init, last, vars[last]) else init
  }

  /** Spaces and then plus signs of the path become `%20`. */
  function EscapePath(path: string): string {
    ReplaceAll(ReplaceAll(path, " ", "%20"), "+", "%20")
  }

  /** A rule after `DecodeSet(vars)`, the map handing out its keys in `order`. */
  function DecodedRule(d: RuleData, vars: map<string, GoValue>, order: KeyOrder): RuleData {
    var s := SubstituteAll(d, vars, order(vars.Keys));
    s.(path := EscapePath(s.path))
  }

  /** `PocRule`. */
  class PocRule {
    var requestMethod: string
    var path: string
    var headers: map<string, string>
    var body: string
    var followRedirects: bool
    var search: string
    var expression: string

    function Data(): RuleData
      reads this
    {
      RuleData(requestMethod, path, headers, body, followRedirects, search, expression)
    }

    constructor (d: RuleData)
      ensures Data() == d
    {
      requestMethod := d.requestMethod;
      path := d.path;
      headers := d.headers;
      body := d.body;
      followRedirects := d.followRedirects;
      search := d.search;
      expression := d.expression;
    }

    /** `PocRule.DecodeSet(set)`: Go's map iteration hands out the keys of `vars` and of
        the headers in `order`. */
    method DecodeSet(vars: map<string, GoValue>, order: KeyOrder)
      requires ValidOrder(order)
      modifies this
      ensures Data() == DecodedRule(old(Data()), vars, order)
    {
      var keys := order(vars.Keys);
      for i := 0 to |keys|
        invariant Data() == SubstituteAll(old(Data()), vars, keys[..i])
      {
        assert keys[..i + 1][..i] == keys[..i];
        ApplyBinding(keys[i], vars[keys[i]], order);
      }
      assert keys[..|keys|] == keys;
      path := ReplaceAll(path, " ", "%20");
      path := ReplaceAll(path, "+", "%20");
    }

    /** One pass of the loop of `DecodeSet`: a binding that is not a string map is
        substituted into the headers, the trimmed path and the trimmed body. */
    method ApplyBinding(key: string, valueSet: GoValue, order: KeyOrder)
      requires ValidOrder(order)
      modifies this
      ensures Data() == Substitute(old(Data()), key, valueSet)
    {
      if valueSet.VStringMap? {
        return;
      }
      var value := Show(valueSet);
      var pat := Token(key);
      ReplaceHeaders(pat, value, order);
      path := ReplaceAll(Trim(path), pat, value);
      body := ReplaceAll(Trim(body), pat, value);
    }

    /** The inner loop of `DecodeSet`, over the header names. */
    method ReplaceHeaders(pat: string, value: string, order: KeyOrder)
      requires ValidOrder(order)
      modifies this
      ensures Data() == old(Data()).(headers := ReplaceInHeaders(old(headers), pat, value))
    {
      var names := order(headers.Keys);
      headers := ReplaceEach(headers, names, pat, value);
    }
  }

  /** The loop of `ReplaceHeaders`: each header of `names` in turn has `pat` replaced by
      `text`, written back under the same name. */
  method ReplaceEach(h0: map<string, string>, names: seq<string>, pat: string, text: string)
    returns (headers: map<string, string>)
    requires Enumerates(names, h0.Keys)
    ensures headers == ReplaceInHeaders(h0, pat, text)
  {
    headers := h0;
    for j := 0 to |names|
      invariant headers.Keys == h0.Keys
      invariant forall h :: h in h0 ==> headers[h] == if h in names[..j] then ReplaceAll(h0[h], pat, text) else h0[h]
    {
      var name := names[j];
      assert name !in names[..j];
      assert forall h :: h in names[..j + 1] <==> h in names[..j] || h == name;
      headers := headers[name := ReplaceAll(headers[name], pat, text)];
    }
    assert forall h :: h in h0 ==> h in names[..|names|];
  }

  /** After `DecodeSet` the path holds neither a space nor a plus sign. */
  lemma DecodedPathEscaped(d: RuleData, vars: map<string, GoValue>, order: KeyOrder)
    requires ValidOrder(order)
    ensures ' ' !in DecodedRule(d, vars, order).path
    ensures '+' !in DecodedRule(d, vars, order).path
  {
    var p := SubstituteAll(d, vars, order(vars.Keys)).path;
    ReplaceCharacter(p, ' ', "%20");
    ReplaceCharacter(ReplaceAll(p, " ", "%20"), '+', "%20");
  }

  /** Substitution touches only path, body and header values: the method, the redirect
      flag, search, expression and the header names stay. */
  lemma {:induction false} SubstituteKeeps(d: RuleData, vars: map<string, GoValue>, keys: seq<string>)
    requires forall i :: 0 <= i < |keys| ==> keys[i] in vars
    ensures var s := SubstituteAll(d, vars, keys);
      && s.requestMethod == d.requestMethod && s.followRedirects == d.followRedirects
      && s.search == d.search && s.expression == d.expression
      && s.headers.Keys == d.headers.Keys
    decreases |keys|
  {
    if keys != [] {
      SubstituteKeeps(d, vars, keys[..|keys| - 1]);
    }
  }

  lemma DecodedKeeps(d: RuleData, vars: map<string, GoValue>, order: KeyOrder)
    requires ValidOrder(order)
    ensures var s := DecodedRule(d, vars, order);
      && s.requestMethod == d.requestMethod && s.followRedirects == d.followRedirects
      && s.search == d.search && s.expression == d.expression
      && s.headers.Keys == d.headers.Keys
  {
    SubstituteKeeps(d, vars, order(vars.Keys));
  }

  /** When every binding is a string map (or there is none) nothing is trimmed or
      substituted: only the path is escaped. */
  lemma {:induction false} SubstituteSkipsMaps(d: RuleData, vars: map<string, GoValue>, keys: seq<string>)
    requires forall i :: 0 <= i < |keys| ==> keys[i] in vars && vars[keys[i]].VStringMap?
    ensures SubstituteAll(d, vars, keys) == d
    decreases |keys|
  {
    if keys != [] {
      SubstituteSkipsMaps(d, vars, keys[..|keys| - 1]);
    }
  }

  lemma DecodedWithoutText(d: RuleData, vars: map<string, GoValue>, order: KeyOrder)
    requires ValidOrder(order)
    requires forall k :: k in vars ==> vars[k].VStringMap?
    ensures DecodedRule(d, vars, order) == d.(path := EscapePath(d.path))
  {
    SubstituteSkipsMaps(d, vars, order(vars.Keys));
  }

  /** A binding that is not a string map trims path and body, then splits them and every
      header value at its placeholder and joins the pieces with the value's `%v` text. */
  lemma SubstituteSplitsAtToken(d: RuleData, key: string, v: GoValue)
    requires !v.VStringMap?
    ensures var s := Substitute(d, key, v);
      && s.path == Join(Split(Trim(d.path), Token(key)), Show(v))
      && s.body == Join(Split(Trim(d.body), Token(key)), Show(v))
      && s.headers.Keys == d.headers.Keys
      && (forall h :: h in d.headers ==> s.headers[h] == Join(Split(d.headers[h], Token(key)), Show(v)))
  {
    var pat, text := Token(key), Show(v);
    ReplaceAllIsSplitJoin(Trim(d.path), pat, text);
    ReplaceAllIsSplitJoin(Trim(d.body), pat, text);
    HeadersSplitJoin(d.headers, pat, text);
  }

  lemma HeadersSplitJoin(headers: map<string, string>, pat: string, text: string)
    requires pat != []
    ensures ReplaceInHeaders(headers, pat, text).Keys == headers.Keys
    ensures forall h :: h in headers ==> ReplaceInHeaders(headers, pat, text)[h] == Join(Split(headers[h], pat), text)
  {
    forall h | h in headers
      ensures ReplaceInHeaders(headers, pat, text)[h] == Join(Split(headers[h], pat), text)
    {
      ReplaceAllIsSplitJoin(headers[h], pat, text);
    }
  }

  // ------------------------------------------------------------------ copies

  /** `DeepcopyRules`: fresh rules with the same fields, so that rewriting the copies
      leaves the originals alone. */
  method DeepcopyRules(source: seq<PocRule>) returns (rules: seq<PocRule>)
    ensures |rules| == |source|
    ensures forall i :: 0 <= i < |rules| ==> fresh(rules[i]) && rules[i].Data() == source[i].Data()
    ensures forall i, j :: 0 <= i < j < |rules| ==> rules[i] != rules[j]
  {
    rules := [];
    for i := 0 to |source|
      invariant |rules| == i
      invariant forall k :: 0 <= k < i ==> fresh(rules[k]) && rules[k].Data() == source[k].Data()
      invariant forall k, l :: 0 <= k < l < i ==> rules[k] != rules[l]
    {
      var copy := new PocRule(source[i].Data());
      rules := rules + [copy];
    }
  }

  /** The rule objects of a group map. */
  ghost function Objects(groups: map<string, seq<PocRule>>): set<PocRule> {
    set k, i | k in groups && 0 <= i < |groups[k]| :: groups[k][i]
  }

  /** The rule objects of a group map are pairwise distinct objects. */
  ghost predicate Disjoint(groups: map<string, seq<PocRule>>) {
    forall a, b, i, j ::
      a in groups && b in groups && 0 <= i < |groups[a]| && 0 <= j < |groups[b]| && (a != b || i != j)
      ==> groups[a][i] != groups[b][j]
  }

  /** Every rule object of a group map is recorded in `owner` with its group and place. */
  ghost predicate Owned(groups: map<string, seq<PocRule>>, owner: map<PocRule, (string, nat)>) {
    forall k, i :: k in groups && 0 <= i < |groups[k]| ==> groups[k][i] in owner && owner[groups[k][i]] == (k, i)
  }

  lemma OwnedDisjoint(groups: map<string, seq<PocRule>>, owner: map<PocRule, (string, nat)>)
    requires Owned(groups, owner)
    ensures Disjoint(groups)
  {
  }

  /** Adding a group adds its rules to the objects of a group map. */
  lemma ObjectsAdd(groups: map<string, seq<PocRule>>, key: string, rules: seq<PocRule>)
    requires key !in groups
    ensures Objects(groups[key := rules]) == Objects(groups) + set r | r in rules
  {
    var next := groups[key := rules];
    forall r | r in Objects(next) ensures r in Objects(groups) || r in rules {
      var k, i :| k in next && 0 <= i < |next[k]| && next[k][i] == r;
      if k != key {
        assert groups[k][i] == r;
      }
    }
    forall r | r in Objects(groups) ensures r in Objects(next) {
      var k, i :| k in groups && 0 <= i < |groups[k]| && groups[k][i] == r;
      assert next[k][i] == r;
    }
    forall r | r in rules ensures r in Objects(next) {
      var i :| 0 <= i < |rules| && rules[i] == r;
      assert next[key][i] == r;
    }
  }

  /** `owner` with each of `rules` recorded at its place in the group `key`. */
  ghost function Recorded(owner: map<PocRule, (string, nat)>, key: string, rules: seq<PocRule>): map<PocRule, (string, nat)>
    requires forall i, j :: 0 <= i < j < |rules| ==> rules[i] != rules[j]
  {
    owner + map j | 0 <= j < |rules| :: rules[j] := (key, j)
  }

  /** Recording a group of objects not yet in a group map keeps the map owned. */
  lemma OwnedAdd(groups: map<string, seq<PocRule>>, owner: map<PocRule, (string, nat)>, key: string, rules: seq<PocRule>)
    requires Owned(groups, owner) && key !in groups
    requires forall i, j :: 0 <= i < j < |rules| ==> rules[i] != rules[j]
    requires forall j :: 0 <= j < |rules| ==> rules[j] !in Objects(groups)
    ensures Owned(groups[key := rules], Recorded(owner, key, rules))
  {
    forall k, i | k in groups && 0 <= i < |groups[k]|
      ensures groups[k][i] !in set j | 0 <= j < |rules| :: rules[j]
    {
      assert groups[k][i] in Objects(groups);
    }
  }

  /** One pass of the loop of `DeepcopyGroups`: the group `key` deep-copied into `copy`. */
  method AddGroup(copy: map<string, seq<PocRule>>, key: string, source: seq<PocRule>, ghost owner: map<PocRule, (string, nat)>)
    returns (next: map<string, seq<PocRule>>, ghost owner': map<PocRule, (string, nat)>)
    requires key !in copy && Owned(copy, owner)
    ensures key in next && next == copy[key := next[key]]
    ensures |next[key]| == |source|
    ensures forall i :: 0 <= i < |source| ==> next[key][i].Data() == source[i].Data()
    ensures fresh(Objects(next) - Objects(copy))
    ensures Owned(next, owner')
  {
    var rules := DeepcopyRules(source);
    next := copy[key := rules];
    assert forall j :: 0 <= j < |rules| ==> rules[j] !in Objects(copy);
    OwnedAdd(copy, owner, key, rules);
    owner' := Recorded(owner, key, rules);
    ObjectsAdd(copy, key, rules);
  }

  /** The loop of `DeepcopyGroups` over the group names `names`. */
  method CopyGroups(src: map<string, seq<PocRule>>, names: seq<string>) returns (copy: map<string, seq<PocRule>>)
    requires Enumerates(names, src.Keys)
    ensures copy.Keys == src.Keys
    ensures forall k :: k in copy ==> |copy[k]| == |src[k]|
    ensures fresh(Objects(copy))
    ensures forall k, i :: k in copy && 0 <= i < |copy[k]| ==> copy[k][i].Data() == src[k][i].Data()
    ensures Disjoint(copy)
  {
    copy := map[];
    ghost var owner: map<PocRule, (string, nat)> := map[];
    for n := 0 to |names|
      invariant forall k :: k in copy <==> k in names[..n]
      invariant forall k :: k in copy ==> k in src && |copy[k]| == |src[k]|
      invariant fresh(Objects(copy))
      invariant forall k, i :: k in copy && 0 <= i < |copy[k]| ==> copy[k][i].Data() == src[k][i].Data()
      invariant Owned(copy, owner)
    {
      var key := names[n];
      assert key !in names[..n];
      copy, owner := AddGroup(copy, key, src[key], owner);
      assert names[..n + 1] == names[..n] + [key];
    }
    assert names[..|names|] == names;
    assert forall k :: k in copy <==> k in src;
    OwnedDisjoint(copy, owner);
  }

  /** `PocEvent`. */
  class PocEvent {
    var name: string
    var variables: map<string, string>
    var rules: seq<PocRule>
    var groups: map<string, seq<PocRule>>

    constructor (name: string, variables: map<string, string>, rules: seq<PocRule>, groups: map<string, seq<PocRule>>)
      ensures this.name == name && this.variables == variables && this.rules == rules && this.groups == groups
    {
      this.name := name;
      this.variables := variables;
      this.rules := rules;
      this.groups := groups;
    }

    /** `DeepcopyGroups`: the same group names, each group deep-copied, no rule object
        shared between two places. */
    method DeepcopyGroups(order: KeyOrder) returns (copy: map<string, seq<PocRule>>)
      requires ValidOrder(order)
      ensures copy.Keys == groups.Keys
      ensures forall k :: k in copy ==> |copy[k]| == |groups[k]|
      ensures fresh(Objects(copy))
      ensures forall k, i :: k in copy && 0 <= i < |copy[k]| ==> copy[k][i].Data() == groups[k][i].Data()
      ensures Disjoint(copy)
    {
      var names := order(groups.Keys);
      copy := CopyGroups(groups, names);
    }

    /** `PocEvent.DecodeSet(env)`: the definitions in sorted key order. `reverse(k)` stands
        for the object the call `proto.NewReverse()` made for key `k` returns: each call
        makes a fresh object with its own flag, so different keys may get different ones. */
    method DecodeSet(order: KeyOrder, eval: GoEval, reverse: string -> GoValue, textOf: GoFunctions.CelVal -> string)
      returns (bindings: map<string, GoValue>)
      requires ValidOrder(order)
      ensures var keys := GoUtils.Sort(order(variables.Keys));
        && (forall i :: 0 <= i < |keys| ==> keys[i] in variables)
        && bindings == Bindings(variables, keys, eval, reverse, textOf)
    {
      SortKeepsKeys(order(variables.Keys), variables);
      if |variables| > 0 {
        var keys := GoUtils.SortMapKeys(variables, order(variables.Keys));
        bindings := BindAll(variables, keys, eval, reverse, textOf);
      } else {
        bindings := map[];
        EnumerationLength(order(variables.Keys), variables.Keys);
      }
    }
  }

  /** The loop of `PocEvent.DecodeSet` over the sorted keys. */
  method BindAll(defs: map<string, string>, keys: seq<string>, eval: GoEval, reverse: string -> GoValue,
                 textOf: GoFunctions.CelVal -> string) returns (bindings: map<string, GoValue>)
    requires forall i :: 0 <= i < |keys| ==> keys[i] in defs
    ensures bindings == Bindings(defs, keys, eval, reverse, textOf)
  {
    bindings := map[];
    for i := 0 to |keys|
      invariant bindings == Bindings(defs, keys[..i], eval, reverse, textOf)
    {
      assert keys[..i + 1][..i] == keys[..i];
      var key := keys[i];
      var value := defs[key];
      if value == "" {
        continue;
      } else if value == "newReverse()" {
        bindings := bindings[key := reverse(key)];
      } else {
        var out := eval(value, bindings);
        if out.Ok? {
          bindings := bindings[key := Converted(out.value, textOf)];
        }
      }
    }
    assert keys[..|keys|] == keys;
  }

  // ------------------------------------------------------------------ event bindings

  /** `decode.Evaluate(env, text, set)`: the CEL program for `text` run on the bindings,
      or its compile or run-time error. */
  type GoEval = (string, map<string, GoValue>) -> Result<GoFunctions.CelVal, string>

  /** `fmt.Sprintf("%v", out)` of a result that is not an integer or bytes: a string is
      its UTF-8 text; `textOf` gives the text of the kinds the model does not spell out. */
  function CelText(out: GoFunctions.CelVal, textOf: GoFunctions.CelVal -> string): string {
    match out
    case GString(s) => Utf8.Decode(s)
    case GBool(b) => if b then "true" else "false"
    case _ => textOf(out)
  }

  /** The binding for an evaluation result: `int64` as an integer, `[]byte` as the text
      its UTF-8 bytes spell (`string(v)`), anything else as its `%v` text. */
  function Converted(out: GoFunctions.CelVal, textOf: GoFunctions.CelVal -> string): GoValue {
    match out
    case GInt(i) => VInt(i)
    case GBytes(b) => VString(Utf8.Decode(b))
    case _ => VString(CelText(out, textOf))
  }

  /** A string or bytes result binds the text its UTF-8 bytes spell. */
  lemma ConvertedText(t: string, textOf: GoFunctions.CelVal -> string)
    ensures Converted(GoFunctions.GString(Utf8.Encode(t)), textOf) == VString(t)
    ensures Converted(GoFunctions.GBytes(Utf8.Encode(t)), textOf) == VString(t)
  {
    Utf8.DecodeEncode(t);
  }

  /** One pass of the loop of `PocEvent.DecodeSet`. */
  function BindStep(vars: map<string, GoValue>, key: string, value: string, eval: GoEval,
                    reverse: string -> GoValue, textOf: GoFunctions.CelVal -> string): map<string, GoValue> {
    if value == "" then vars
    else if value == "newReverse()" then vars[key := reverse(key)]
    else
      match eval(value, vars)
      case Err(_) => vars
      case Ok(out) => vars[key := Converted(out, textOf)]
  }

  /** The bindings the definitions `defs` make for the keys `keys`, in that order. */
  function Bindings(defs: map<string, string>, keys: seq<string>, eval: GoEval,
                    reverse: string -> GoValue, textOf: GoFunctions.CelVal -> string): map<string, GoValue>
    requires forall i :: 0 <= i < |keys| ==> keys[i] in defs
    decreases |keys|
  {
    if keys == [] then map[]
    else
      var key := keys[|keys| - 1];
      BindStep(Bindings(defs, keys[..|keys| - 1], eval, reverse, textOf), key, defs[key], eval, reverse, textOf)
  }

  lemma SortKeepsKeys(iteration: seq<string>, defs: map<string, string>)
    requires Enumerates(iteration, defs.Keys)
    ensures forall i :: 0 <= i < |GoUtils.Sort(iteration)| ==> GoUtils.Sort(iteration)[i] in defs
  {
    var s := GoUtils.Sort(iteration);
    GoUtils.SortSpec(iteration);
    forall i | 0 <= i < |s| ensures s[i] in defs {
      assert s[i] in multiset(s);
      assert s[i] in multiset(iteration);
    }
  }

  /** Only keys of the list with a non-empty definition get a binding. */
  lemma {:induction false} BindingsDomain(defs: map<string, string>, keys: seq<string>, eval: GoEval,
                                         reverse: string -> GoValue, textOf: GoFunctions.CelVal -> string)
    requires forall i :: 0 <= i < |keys| ==> keys[i] in defs
    ensures forall k :: k in Bindings(defs, keys, eval, reverse, textOf) ==> k in keys && defs[k] != ""
    decreases |keys|
  {
    if keys != [] {
      BindingsDomain(defs, keys[..|keys| - 1], eval, reverse, textOf);
    }
  }

  /** Keys that come later do not change the binding of a key. */
  lemma {:induction false} BindingsLater(defs: map<string, string>, keys: seq<string>, n: nat, k: string,
                                        eval: GoEval, reverse: string -> GoValue, textOf: GoFunctions.CelVal -> string)
    requires forall i :: 0 <= i < |keys| ==> keys[i] in defs
    requires n <= |keys| && k !in keys[n..]
    ensures var all, before := Bindings(defs, keys, eval, reverse, textOf), Bindings(defs, keys[..n], eval, reverse, textOf);
      (k in all <==> k in before) && (k in all ==> all[k] == before[k])
    decreases |keys|
  {
    if n < |keys| {
      var init := keys[..|keys| - 1];
      assert init[..n] == keys[..n];
      assert forall x :: x in init[n..] ==> x in keys[n..];
      BindingsLater(defs, init, n, k, eval, reverse, textOf);
    } else {
      assert keys[..n] == keys;
    }
  }

  /** Each key in the sorted list is bound as its definition says, evaluated against the
      bindings of the keys before it: a `newReverse()` definition to its own reverse object,
      a failed evaluation to nothing, a successful one to its converted result. */
  lemma BindingsAt(defs: map<string, string>, keys: seq<string>, i: nat, eval: GoEval,
                   reverse: string -> GoValue, textOf: GoFunctions.CelVal -> string)
    requires forall j :: 0 <= j < |keys| ==> keys[j] in defs
    requires forall j, l :: 0 <= j < l < |keys| ==> keys[j] != keys[l]
    requires i < |keys|
    ensures var all, before, k := Bindings(defs, keys, eval, reverse, textOf), Bindings(defs, keys[..i], eval, reverse, textOf), keys[i];
      && (defs[k] == "" ==> k !in all)
      && (defs[k] == "newReverse()" ==> k in all && all[k] == reverse(k))
      && (defs[k] != "" && defs[k] != "newReverse()" ==>
            && (eval(defs[k], before).Err? ==> k !in all)
            && (eval(defs[k], before).Ok? ==> k in all && all[k] == Converted(eval(defs[k], before).value, textOf)))
  {
    var k := keys[i];
    var upTo := keys[..i + 1];
    assert upTo[..i] == keys[..i];
    assert k !in keys[i + 1..];
    BindingsLater(defs, keys, i + 1, k, eval, reverse, textOf);
    BindingsDomain(defs, keys[..i], eval, reverse, textOf);
  }
}
