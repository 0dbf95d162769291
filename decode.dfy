/** The variable declarations and regular-expression bindings of the Go engine's CEL
    library (library/decode/compile.go and library/decode/evaluate.go, which define
    `UpdateCompileOptions` and `Search` identically). */
module GoDecode {
  import opened Base
  import opened Text

  /** A value of the engine's `set` map (`map[string]any`): text, an integer, a map of
      strings, or an object such as a request, a response or a reverse-connection
      record, with the text `%v` prints for it. */
  datatype GoValue =
    | VString(s: string)
    | VInt(i: int)
    | VStringMap(m: map<string, string>)
    | VObject(kind: string, text: string)

  // ------------------------------------------------------------------ declarations

  /** The CEL type a `set` variable is declared with. */
  datatype VarType = IntType | ReverseType | StringType

  /** An environment option: one of the fixed library options of `NewCelOption`, named by
      a label, or the declaration of a variable. */
  datatype EnvOption = Builtin(option: string) | Variable(name: string, typ: VarType)

  /** The type of a variable from the expression that defines it. */
  function DeclaredType(value: string): VarType {
    if IsPrefix("randomInt", value) then IntType
    else if IsPrefix("newReverse", value) then ReverseType
    else StringType
  }

  /** The declarations for the entries of `args` in the order `keys`. */
  function Declarations(args: map<string, string>, keys: seq<string>): (r: seq<EnvOption>)
    requires forall i :: 0 <= i < |keys| ==> keys[i] in args
    ensures |r| == |keys|
  {
    if keys == [] then []
    else
      var last := keys[|keys| - 1];
      Declarations(args, keys[..|keys| - 1]) + [Variable(last, DeclaredType(args[last]))]
  }

  /** `CelLibrary`: the options a CEL environment is built from. */
  class CelLibrary {
    var envOptions: seq<EnvOption>
    var proOptions: seq<string>

    constructor (envOptions: seq<EnvOption>, proOptions: seq<string>)
      ensures this.envOptions == envOptions && this.proOptions == proOptions
    {
      this.envOptions := envOptions;
      this.proOptions := proOptions;
    }

    /** `UpdateCompileOptions`: one variable declaration per entry of `args`, appended in
        the map's iteration order `iteration`. */
    method UpdateCompileOptions(args: map<string, string>, iteration: seq<string>)
      requires Enumerates(iteration, args.Keys)
      modifies this
      ensures envOptions == old(envOptions) + Declarations(args, iteration)
      ensures proOptions == old(proOptions)
    {
      for i := 0 to |iteration|
        invariant envOptions == old(envOptions) + Declarations(args, iteration[..i])
        invariant proOptions == old(proOptions)
      {
        var k := iteration[i];
        var v := args[k];
        var d: VarType;
        if IsPrefix("randomInt", v) {
          d := IntType;
        } else if IsPrefix("newReverse", v) {
          d := ReverseType;
        } else {
          d := StringType;
        }
        assert iteration[..i + 1][..i] == iteration[..i];
        envOptions := envOptions + [Variable(k, d)];
      }
      assert iteration[..|iteration|] == iteration;
    }
  }

  /** The declarations name the keys in order, one each, typed Int when the value starts
      with `randomInt`, Reverse when it starts with `newReverse` and String otherwise. */
  lemma {:induction false} DeclarationsShape(args: map<string, string>, keys: seq<string>)
    requires forall i :: 0 <= i < |keys| ==> keys[i] in args
    ensures var r := Declarations(args, keys);
      forall i :: 0 <= i < |r| ==>
        && r[i].Variable? && r[i].name == keys[i]
        && (r[i].typ == IntType <==> IsPrefix("randomInt", args[keys[i]]))
        && (r[i].typ == ReverseType <==> !IsPrefix("randomInt", args[keys[i]]) && IsPrefix("newReverse", args[keys[i]]))
        && (r[i].typ == StringType <==> !IsPrefix("randomInt", args[keys[i]]) && !IsPrefix("newReverse", args[keys[i]]))
    decreases |keys|
  {
    if keys != [] {
      var init := keys[..|keys| - 1];
      DeclarationsShape(args, init);
    }
  }

  /** Over an enumeration of the map, every entry is declared exactly once. */
  lemma DeclarationsCover(args: map<string, string>, keys: seq<string>)
    requires Enumerates(keys, args.Keys)
    ensures var r := Declarations(args, keys);
      && |r| == |args|
      && (forall i :: 0 <= i < |r| ==> r[i].Variable? && r[i].name in args && r[i].typ == DeclaredType(args[r[i].name]))
      && (forall k :: k in args ==> exists i :: 0 <= i < |r| && r[i] == Variable(k, DeclaredType(args[k])))
      && (forall i, j :: 0 <= i < j < |r| ==> r[i].Variable? && r[j].Variable? && r[i].name != r[j].name)
  {
    EnumerationLength(keys, args.Keys);
    DeclarationsShape(args, keys);
    var r := Declarations(args, keys);
    forall i | 0 <= i < |r| ensures r[i].typ == DeclaredType(args[keys[i]]) {
      DeclaredTypeAgrees(args[keys[i]], r[i].typ);
    }
    forall k | k in args ensures exists i :: 0 <= i < |r| && r[i] == Variable(k, DeclaredType(args[k])) {
      var i :| 0 <= i < |keys| && keys[i] == k;
      assert r[i] == Variable(k, DeclaredType(args[k]));
    }
  }

  lemma DeclaredTypeAgrees(value: string, t: VarType)
    requires t == IntType <==> IsPrefix("randomInt", value)
    requires t == ReverseType <==> !IsPrefix("randomInt", value) && IsPrefix("newReverse", value)
    requires t == StringType <==> !IsPrefix("randomInt", value) && !IsPrefix("newReverse", value)
    ensures t == DeclaredType(value)
  {
  }

  // ------------------------------------------------------------------ search

  /** What the Go regular-expression engine makes of a pattern and a subject:
      `SubexpNames()` (entry 0 for the whole match, then one per group, `""` for an
      unnamed one) and `FindStringSubmatch(subject)` (empty when there is no match;
      otherwise one entry per name). */
  datatype Submatches = Submatches(names: seq<string>, result: seq<string>)

  /** `regexp.Compile(pattern)` followed by the two calls above; the error of a pattern
      that does not compile. */
  type GoRegexp = (string, string) -> Result<Submatches, string>

  /** How a call that returns a Go `error` ends: without error, with one, or by a
      run-time panic. */
  datatype Status = Done | Failed(message: string) | Panicked

  const NotMatched: string := "not matched"

  /** `vars` after `vars[names[i]] = result[i]` for `i` from 1 up to `n - 1`. */
  function Bind(vars: map<string, GoValue>, names: seq<string>, result: seq<string>, n: nat): map<string, GoValue>
    requires n <= |names| && n <= |result|
  {
    if n <= 1 then vars else Bind(vars, names, result, n - 1)[names[n - 1] := VString(result[n - 1])]
  }

  /** What Go's `regexp` guarantees of a compiled pattern: `SubexpNames()` always holds
      entry 0, and `FindStringSubmatch` gives either nil or one entry per name. */
  ghost predicate WellFormedRegexp(regex: GoRegexp) {
    forall p, s :: regex(p, s).Ok? ==>
      var m := regex(p, s).value;
      |m.names| >= 1 && (m.result == [] || |m.result| == |m.names|)
  }

  /** How `Search` ends. On an engine that keeps Go's guarantee it never panics:
      the index never passes the end of the submatches. */
  function SearchStatus(re: string, body: string, regex: GoRegexp): (r: Status)
    ensures WellFormedRegexp(regex) ==> r != Panicked
  {
    match regex(re, body)
    case Err(e) => Failed(e)
    case Ok(m) =>
      if |m.result| > 1 && |m.names| > 1 then
        if |m.names| <= |m.result| then Done else Panicked
      else Failed(NotMatched)
  }

  /** `Search(re, body, set)`: the bindings are made into a copy of `set` that is
      returned, standing for the caller's map the Go code writes into. */
  method Search(re: string, body: string, vars: map<string, GoValue>, regex: GoRegexp)
    returns (status: Status, out: map<string, GoValue>)
    ensures status == SearchStatus(re, body, regex)
    ensures regex(re, body).Err? ==> status == Failed(regex(re, body).error) && out == vars
    ensures regex(re, body).Ok? ==>
      var m := regex(re, body).value;
      if |m.result| > 1 && |m.names| > 1 then
        && (|m.names| <= |m.result| ==> status == Done && out == Bind(vars, m.names, m.result, |m.names|))
        && (|m.names| > |m.result| ==> status == Panicked && out == Bind(vars, m.names, m.result, |m.result|))
      else status == Failed(NotMatched) && out == vars
    ensures WellFormedRegexp(regex) ==> status != Panicked
  {
    out := vars;
    var compiled := regex(re, body);
    if compiled.Err? {
      return Failed(compiled.error), out;
    }
    var result, names := compiled.value.result, compiled.value.names;
    if |result| > 1 && |names| > 1 {
      for i := 0 to |names|
        invariant i <= |result|
        invariant out == Bind(vars, names, result, i)
      {
        if i > 0 && i <= |result| {
          if i == |result| {
            return Panicked, out;  // result[i] is out of range
          }
          out := out[names[i] := VString(result[i])];
        }
      }
      return Done, out;
    }
    return Failed(NotMatched), out;
  }

  /** On an engine that keeps Go's guarantee, `Search` succeeds exactly when the pattern
      compiles, has a group and matches, and it then binds every group. */
  lemma SearchDoneOnMatch(re: string, body: string, regex: GoRegexp)
    requires WellFormedRegexp(regex)
    ensures SearchStatus(re, body, regex) == Done <==>
      regex(re, body).Ok? && |regex(re, body).value.result| > 1
    ensures SearchStatus(re, body, regex) == Done ==>
      var m := regex(re, body).value;
      |m.names| == |m.result| && |m.names| > 1
  {
    if regex(re, body).Ok? {
      var m := regex(re, body).value;
      assert |m.names| >= 1 && (m.result == [] || |m.result| == |m.names|);
    }
  }

  /** A key no group in `1..n-1` is named keeps its binding (or its absence). */
  lemma {:induction false} BindUntouched(vars: map<string, GoValue>, names: seq<string>, result: seq<string>, n: nat, k: string)
    requires n <= |names| && n <= |result|
    requires forall j :: 1 <= j < n ==> names[j] != k
    ensures k in Bind(vars, names, result, n) <==> k in vars
    ensures k in vars ==> Bind(vars, names, result, n)[k] == vars[k]
  {
    if n > 1 {
      BindUntouched(vars, names, result, n - 1, k);
    }
  }

  /** A key is bound to the text of the last group in `1..n-1` of that name: every
      unnamed group writes the key `""`, and the last one wins. */
  lemma {:induction false} BindLastWins(vars: map<string, GoValue>, names: seq<string>, result: seq<string>, n: nat, j: nat)
    requires n <= |names| && n <= |result|
    requires 1 <= j < n
    requires forall l :: j < l < n ==> names[l] != names[j]
    ensures names[j] in Bind(vars, names, result, n)
    ensures Bind(vars, names, result, n)[names[j]] == VString(result[j])
  {
    if j < n - 1 {
      BindLastWins(vars, names, result, n - 1, j);
    }
  }
}
