/** The probe-rule document of the Rust engine (src/poc.rs): requests, rules,
    transport, detail and payloads. Deserialisation defaults are modelled by
    `Decode*` functions from the fields present in the document to the record. */
module PocModel {
  import opened Base

  /** An unsigned 64-bit count of seconds. */
  type U64 = x: int | 0 <= x < 0x1_0000_0000_0000_0000

  datatype Request = Request(
    httpMethod: string,
    cache: bool,
    followRedirects: bool,
    path: string,
    headers: map<string, string>,
    body: string,
    timeout: U64)

  /** A rule: its request, its expression, and the outputs it extracts (keys unique). */
  datatype Rule = Rule(request: Request, expression: string, output: map<string, string>)

  datatype Transport = HTTP | TCP | UDP

  datatype Fingerprint = Fingerprint(
    id: string, name: string, version: string, cpe: string,
    customFields: map<string, string>)

  datatype Vulnerability = Vulnerability(
    id: string, level: string, matchInfo: string,
    customFields: map<string, string>)

  datatype Detail = Detail(
    author: string, links: seq<string>, warning: string, description: string,
    fingerprint: Fingerprint, vulnerability: Vulnerability)

  /** Payload sets by name; `continue` goes on after the first successful set. */
  datatype Payloads = Payloads(continueAfterHit: bool, payloads: map<string, map<string, string>>)

  /** A YAML scalar or node, as far as the engine distinguishes them. Integers are
      kept unbounded here; `AsI64` is what the engine reads from them. */
  datatype Yaml =
    | YNull
    | YBool(b: bool)
    | YInt(i: int)
    | YFloat
    | YString(s: string)
    | YSequence
    | YMapping
    | YTagged

  datatype Poc = Poc(
    name: string,
    manual: bool,
    transport: Transport,
    setVars: map<string, Yaml>,
    rules: map<string, Rule>,
    expression: string,
    detail: Detail,
    payloads: Payloads)

  const I64Min: int := -0x8000_0000_0000_0000
  const I64Max: int := 0x7FFF_FFFF_FFFF_FFFF

  /** `serde_yaml::Number::as_i64`: integers within the signed 64-bit range. */
  function AsI64(y: Yaml): (r: Option<int>)
    ensures r.Some? <==> y.YInt? && I64Min <= y.i <= I64Max
    ensures r.Some? ==> r.value == y.i
  {
    if y.YInt? && I64Min <= y.i <= I64Max then Some(y.i) else None
  }

  // ---------------------------------------------------------------- defaults

  const DefaultTimeout: U64 := 10

  /** The fields of a request as they appear in a document; absent ones are `None`. */
  datatype RequestFields = RequestFields(
    httpMethod: Option<string>,
    cache: Option<bool>,
    followRedirects: Option<bool>,
    path: Option<string>,
    headers: Option<map<string, string>>,
    body: Option<string>,
    timeout: Option<U64>)

  function OrElse<T>(o: Option<T>, d: T): T {
    match o
    case Some(v) => v
    case None => d
  }

  /** Deserialising a request: present fields are taken, `cache` defaults to true,
      `follow_redirects` to false, `timeout` to 10 seconds, the rest to empty. */
  function DecodeRequest(f: RequestFields): (r: Request)
    ensures f.cache.None? ==> r.cache
    ensures f.followRedirects.None? ==> !r.followRedirects
    ensures f.timeout.None? ==> r.timeout == 10
    ensures f.httpMethod.None? ==> r.httpMethod == ""
    ensures f.path.None? ==> r.path == ""
    ensures f.body.None? ==> r.body == ""
    ensures f.headers.None? ==> r.headers == map[]
    ensures f.cache.Some? ==> r.cache == f.cache.value
    ensures f.followRedirects.Some? ==> r.followRedirects == f.followRedirects.value
    ensures f.timeout.Some? ==> r.timeout == f.timeout.value
    ensures f.httpMethod.Some? ==> r.httpMethod == f.httpMethod.value
    ensures f.path.Some? ==> r.path == f.path.value
    ensures f.body.Some? ==> r.body == f.body.value
    ensures f.headers.Some? ==> r.headers == f.headers.value
  {
    Request(
      OrElse(f.httpMethod, ""),
      OrElse(f.cache, true),
      OrElse(f.followRedirects, false),
      OrElse(f.path, ""),
      OrElse(f.headers, map[]),
      OrElse(f.body, ""),
      OrElse(f.timeout, DefaultTimeout))
  }

  /** The derived `Default` request, which a rule without a `request` field gets: every
      field is empty, false or zero. The field defaults above apply only to a `request`
      map that is present. */
  function DefaultRequest(): (r: Request)
    ensures !r.cache && !r.followRedirects && r.timeout == 0
    ensures r.httpMethod == "" && r.path == "" && r.body == "" && r.headers == map[]
  {
    Request("", false, false, "", map[], "", 0)
  }

  /** The request of a deserialised rule: the derived default when the field is absent,
      and the decoded map when it is present. */
  function DecodeRuleRequest(field: Option<RequestFields>): (r: Request)
    ensures field.None? ==> !r.cache && r.timeout == 0 && r == DefaultRequest()
    ensures field.Some? ==> r == DecodeRequest(field.value)
  {
    match field
    case None => DefaultRequest()
    case Some(f) => DecodeRequest(f)
  }

  /** A rule without `request` and a rule with an empty `request` map get different
      requests: the empty map takes the field defaults (cache on, 10 second timeout). */
  lemma AbsentAndEmptyRequestDiffer()
    ensures DecodeRuleRequest(None) != DecodeRuleRequest(Some(RequestFields(None, None, None, None, None, None, None)))
    ensures DecodeRuleRequest(Some(RequestFields(None, None, None, None, None, None, None))).cache
    ensures !DecodeRuleRequest(None).cache
  {
  }

  /** The canonical name a transport is written with. */
  function TransportName(t: Transport): string {
    match t
    case HTTP => "HTTP"
    case TCP => "TCP"
    case UDP => "UDP"
  }

  /** Reading a transport name: the canonical upper-case name or its lower-case alias. */
  function ParseTransport(name: string): (r: Option<Transport>)
    ensures r.Some? <==> name in {"HTTP", "http", "TCP", "tcp", "UDP", "udp"}
    ensures r == Some(HTTP) <==> name == "HTTP" || name == "http"
    ensures r == Some(TCP) <==> name == "TCP" || name == "tcp"
    ensures r == Some(UDP) <==> name == "UDP" || name == "udp"
  {
    if name == "HTTP" || name == "http" then Some(HTTP)
    else if name == "TCP" || name == "tcp" then Some(TCP)
    else if name == "UDP" || name == "udp" then Some(UDP)
    else None
  }

  /** A document without a `transport` field means HTTP; an unknown name is rejected. */
  function DecodeTransport(field: Option<string>): (r: Option<Transport>)
    ensures field.None? ==> r == Some(HTTP)
    ensures field.Some? ==> r == ParseTransport(field.value)
  {
    match field
    case None => Some(HTTP)
    case Some(name) => ParseTransport(name)
  }

  /** Writing a transport and reading it back gives the same transport. */
  lemma TransportRoundTrip(t: Transport)
    ensures ParseTransport(TransportName(t)) == Some(t)
  {
  }

  /** Deserialising the payload section: `continue_` defaults to false. */
  function DecodePayloads(continueField: Option<bool>, sets: Option<map<string, map<string, string>>>): (r: Payloads)
    ensures continueField.None? ==> !r.continueAfterHit
    ensures continueField.Some? ==> r.continueAfterHit == continueField.value
    ensures r.payloads == OrElse(sets, map[])
  {
    Payloads(OrElse(continueField, false), OrElse(sets, map[]))
  }
}
