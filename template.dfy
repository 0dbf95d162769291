/** Placeholder rendering of the Rust engine (src/template.rs): `{{name}}` is
    replaced by the variable's text in one left-to-right pass; unknown names stay. */
module Template {
  import opened Base
  import opened Text
  import opened Rewrite
  import opened Values
  import opened PocModel

  /** The replacement for one `{{name}}` match: the variable's text, or the match
      itself (`{{` + name + `}}`) when the name is unbound. Names are not trimmed. */
  function Substitute(vars: map<string, Scalar>): seq<string> -> string {
    g => if |g| == 1 && g[0] in vars then Display(vars[g[0]]) else "{{" + (if |g| == 1 then g[0] else "") + "}}"
  }

  /** `render_template`. */
  function RenderTemplate(t: string, vars: map<string, Scalar>): string {
    ReplaceAllWith(Placeholder, t, Substitute(vars))
  }

  /** A template without `{{` renders unchanged. */
  lemma RenderWithoutPlaceholder(t: string, vars: map<string, Scalar>)
    requires !Occurs("{{", t)
    ensures RenderTemplate(t, vars) == t
  {
    NoPlaceholderWithoutBraces(t);
    NoMatchUnchanged(Placeholder, t, Substitute(vars));
  }

  /** Text without `{` is copied through as it stands. */
  lemma RenderPlainPrefix(a: string, rest: string, vars: map<string, Scalar>)
    requires '{' !in a
    ensures RenderTemplate(a + rest, vars) == a + RenderTemplate(rest, vars)
  {
    var s := a + rest;
    forall i | 0 <= i < |a| ensures MatchAt(Placeholder, s[i..]).None? {
      assert s[i..][0] == a[i];
    }
    UnmatchedPrefix(Placeholder, s, |a|, Substitute(vars));
    assert s[..|a|] == a;
    assert s[|a|..] == rest;
  }

  /** One placeholder: a bound name becomes its value's text, an unbound one stays as
      written, inner white space included; the value itself is never rescanned. */
  lemma RenderPlaceholder(name: string, rest: string, vars: map<string, Scalar>)
    requires name != [] && '}' !in name
    ensures RenderTemplate("{{" + name + "}}" + rest, vars)
         == (if name in vars then Display(vars[name]) else "{{" + name + "}}") + RenderTemplate(rest, vars)
  {
    var s := "{{" + name + "}}" + rest;
    PlaceholderMatch(name, rest);
    MatchReplaced(Placeholder, s, Substitute(vars), Match(|name| + 4, [name]));
    assert s[|name| + 4..] == rest;
  }

  /** A template that is a single unbound placeholder renders as itself. */
  lemma RenderMissing(name: string, vars: map<string, Scalar>)
    requires name != [] && '}' !in name && name !in vars
    ensures RenderTemplate("{{" + name + "}}", vars) == "{{" + name + "}}"
  {
    RenderPlaceholder(name, "", vars);
    assert "{{" + name + "}}" + "" == "{{" + name + "}}";
  }

  /** A template with one placeholder between plain texts renders as the texts around
      the placeholder's substitution. */
  lemma RenderOnePlaceholder(before: string, name: string, after: string, vars: map<string, Scalar>)
    requires '{' !in before && name != [] && '}' !in name && !Occurs("{{", after)
    ensures RenderTemplate(before + "{{" + name + "}}" + after, vars)
         == before + (if name in vars then Display(vars[name]) else "{{" + name + "}}") + after
  {
    assert before + "{{" + name + "}}" + after == before + ("{{" + name + "}}" + after);
    RenderPlainPrefix(before, "{{" + name + "}}" + after, vars);
    RenderPlaceholder(name, after, vars);
    RenderWithoutPlaceholder(after, vars);
  }

  /** The example of the documentation of `render_template`: `Hello, {{name}}!` with
      `name` bound to `World`, spelled as the text around the placeholder. */
  lemma RenderExample(before: string, name: string, after: string, vars: map<string, Scalar>)
    requires before == "Hello, " && name == "name" && after == "!"
    requires vars == map["name" := VStr("World")]
    ensures RenderTemplate(before + "{{" + name + "}}" + after, vars) == before + "World" + after
  {
    RenderOnePlaceholder(before, name, after, vars);
  }

  // ---------------------------------------------------------------- requests

  /** `render_template` against fixed variables. */
  function Renderer(vars: map<string, Scalar>): string -> string {
    t => RenderTemplate(t, vars)
  }

  /** The header map rebuilt from the taken headers, visited in `keys` order: each
      rendered name is inserted with its rendered value, so a later collision wins. */
  function RenderedHeaders(keys: seq<string>, src: map<string, string>, render: string -> string): map<string, string>
    requires forall i :: 0 <= i < |keys| ==> keys[i] in src
    decreases |keys|
  {
    if keys == [] then map[]
    else
      var last := keys[|keys| - 1];
      RenderedHeaders(keys[..|keys| - 1], src, render)[render(last) := render(src[last])]
  }

  /** The request after rendering (the function `RenderRequest` computes). */
  function RenderedRequest(req: Request, vars: map<string, Scalar>, order: KeyOrder): Request
    requires ValidOrder(order)
  {
    assert Enumerates(order(req.headers.Keys), req.headers.Keys);
    req.(path := RenderTemplate(req.path, vars), body := RenderTemplate(req.body, vars),
         headers := RenderedHeaders(order(req.headers.Keys), req.headers, Renderer(vars)))
  }

  /** The header loop of `render_request`. */
  method RenderHeaders(keys: seq<string>, src: map<string, string>, render: string -> string)
    returns (headers: map<string, string>)
    requires forall i :: 0 <= i < |keys| ==> keys[i] in src
    ensures headers == RenderedHeaders(keys, src, render)
  {
    headers := map[];
    for i := 0 to |keys|
      invariant headers == RenderedHeaders(keys[..i], src, render)
    {
      assert keys[..i + 1][..i] == keys[..i];
      headers := headers[render(keys[i]) := render(src[keys[i]])];
    }
    assert keys[..|keys|] == keys;
  }

  /** `render_request`: path, body and every header name and value are rendered;
      nothing else in the request changes. Headers are visited in `order`. */
  method RenderRequest(req: Request, vars: map<string, Scalar>, order: KeyOrder) returns (r: Request)
    requires ValidOrder(order)
    ensures r == RenderedRequest(req, vars, order)
    ensures r.path == RenderTemplate(req.path, vars) && r.body == RenderTemplate(req.body, vars)
    ensures r.httpMethod == req.httpMethod && r.cache == req.cache
    ensures r.followRedirects == req.followRedirects && r.timeout == req.timeout
    ensures |r.headers| <= |req.headers|
  {
    r := req.(path := RenderTemplate(req.path, vars));
    r := r.(body := RenderTemplate(req.body, vars));
    var keys := order(req.headers.Keys);
    assert Enumerates(keys, req.headers.Keys);
    var headers := RenderHeaders(keys, req.headers, Renderer(vars));
    r := r.(headers := headers);
    RenderedHeadersSize(keys, req.headers, Renderer(vars));
    EnumerationLength(keys, req.headers.Keys);
  }

  /** The rendered header names are exactly the renderings of the original names. */
  lemma {:induction false} RenderedHeadersKeys(keys: seq<string>, src: map<string, string>, render: string -> string)
    requires forall i :: 0 <= i < |keys| ==> keys[i] in src
    ensures forall n :: n in RenderedHeaders(keys, src, render) <==> exists i :: 0 <= i < |keys| && render(keys[i]) == n
    decreases |keys|
  {
    if keys != [] {
      var init := keys[..|keys| - 1];
      RenderedHeadersKeys(init, src, render);
      forall n ensures n in RenderedHeaders(keys, src, render) <==> exists i :: 0 <= i < |keys| && render(keys[i]) == n {
        if n in RenderedHeaders(init, src, render) {
          var i :| 0 <= i < |init| && render(init[i]) == n;
          assert keys[i] == init[i];
        }
        if exists i :: 0 <= i < |keys| && render(keys[i]) == n {
          var i :| 0 <= i < |keys| && render(keys[i]) == n;
          if i < |init| {
            assert init[i] == keys[i];
          }
        }
      }
    }
  }

  /** The header count never grows. */
  lemma {:induction false} RenderedHeadersSize(keys: seq<string>, src: map<string, string>, render: string -> string)
    requires forall i :: 0 <= i < |keys| ==> keys[i] in src
    ensures |RenderedHeaders(keys, src, render)| <= |keys|
    decreases |keys|
  {
    if keys != [] {
      RenderedHeadersSize(keys[..|keys| - 1], src, render);
    }
  }

  /** Each rendered name holds the rendered value of the last original header, in
      visiting order, whose name renders to it. */
  lemma {:induction false} RenderedHeadersLastWins(keys: seq<string>, src: map<string, string>, render: string -> string, j: nat)
    requires forall i :: 0 <= i < |keys| ==> keys[i] in src
    requires j < |keys|
    requires forall i :: j < i < |keys| ==> render(keys[i]) != render(keys[j])
    ensures render(keys[j]) in RenderedHeaders(keys, src, render)
    ensures RenderedHeaders(keys, src, render)[render(keys[j])] == render(src[keys[j]])
    decreases |keys|
  {
    if j < |keys| - 1 {
      var init := keys[..|keys| - 1];
      assert init[j] == keys[j];
      forall i | j < i < |init| ensures render(init[i]) != render(init[j]) {
        assert init[i] == keys[i];
      }
      RenderedHeadersLastWins(init, src, render, j);
    }
  }

  // ---------------------------------------------------------------- details

  /** The custom fields with every value rendered and every name kept. */
  function RenderedFields(fields: map<string, string>, vars: map<string, Scalar>): (r: map<string, string>)
    ensures r.Keys == fields.Keys
  {
    map k | k in fields :: RenderTemplate(fields[k], vars)
  }

  /** The loop over the taken custom fields, reinserting each under its own name. */
  method RenderFields(taken: map<string, string>, vars: map<string, Scalar>) returns (fields: map<string, string>)
    ensures fields == RenderedFields(taken, vars)
  {
    fields := map[];
    var remaining := taken.Keys;
    while remaining != {}
      invariant remaining <= taken.Keys
      invariant fields.Keys == taken.Keys - remaining
      invariant forall k :: k in fields ==> fields[k] == RenderTemplate(taken[k], vars)
      decreases remaining
    {
      var k :| k in remaining;
      fields := fields[k := RenderTemplate(taken[k], vars)];
      remaining := remaining - {k};
    }
  }

  /** The detail after rendering (the function `RenderDetail` computes). */
  function RenderedDetail(detail: Detail, vars: map<string, Scalar>): Detail {
    var v := detail.vulnerability;
    var f := detail.fingerprint;
    detail.(
      vulnerability := v.(matchInfo := if v.matchInfo == "" then "" else RenderTemplate(v.matchInfo, vars),
                          customFields := RenderedFields(v.customFields, vars)),
      fingerprint := f.(version := if f.version == "" then "" else RenderTemplate(f.version, vars)))
  }

  /** `render_detail`: the vulnerability's match text and the fingerprint's version
      are rendered when non-empty, every custom vulnerability field value is
      rendered under its own name; nothing else in the detail changes. */
  method RenderDetail(detail: Detail, vars: map<string, Scalar>) returns (d: Detail)
    ensures d == RenderedDetail(detail, vars)
    ensures d.vulnerability.matchInfo
         == (if detail.vulnerability.matchInfo == "" then "" else RenderTemplate(detail.vulnerability.matchInfo, vars))
    ensures d.fingerprint.version
         == (if detail.fingerprint.version == "" then "" else RenderTemplate(detail.fingerprint.version, vars))
    ensures d.vulnerability.customFields.Keys == detail.vulnerability.customFields.Keys
    ensures forall k :: k in d.vulnerability.customFields ==>
              d.vulnerability.customFields[k] == RenderTemplate(detail.vulnerability.customFields[k], vars)
    ensures d.vulnerability.customFields == RenderedFields(detail.vulnerability.customFields, vars)
    ensures d.author == detail.author && d.links == detail.links
    ensures d.warning == detail.warning && d.description == detail.description
    ensures d.vulnerability.id == detail.vulnerability.id && d.vulnerability.level == detail.vulnerability.level
    ensures d.fingerprint == detail.fingerprint.(version := d.fingerprint.version)
  {
    d := detail;
    if detail.vulnerability.matchInfo != "" {
      d := d.(vulnerability := d.vulnerability.(matchInfo := RenderTemplate(detail.vulnerability.matchInfo, vars)));
    }
    if detail.fingerprint.version != "" {
      d := d.(fingerprint := d.fingerprint.(version := RenderTemplate(detail.fingerprint.version, vars)));
    }
    var fields := RenderFields(detail.vulnerability.customFields, vars);
    d := d.(vulnerability := d.vulnerability.(customFields := fields));
  }
}
