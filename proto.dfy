/** The response record of the Go engine (library/proto/response.go): the header block
    of the raw HTTP response becomes a map from lower-cased names to trimmed values. */
module GoProto {
  import opened Base
  import opened Text

  const LineBreak: string := "\r\n"

  /** `strings.SplitN(line, ":", 2)` when it yields two parts: the text before the first
      `:` and everything after it. */
  function SplitField(line: string): (r: Option<(string, string)>)
    ensures r.None? <==> ':' !in line
    ensures r.Some? ==> line == r.value.0 + ":" + r.value.1 && ':' !in r.value.0
  {
    var i := FindChar(':', line, 0);
    if i < 0 then None
    else
      assert line == line[..i] + ":" + line[i + 1..];
      Some((line[..i], line[i + 1..]))
  }

  /** The header name a line sets, if it sets one. */
  function LineKey(line: string): Option<string> {
    match SplitField(line)
    case None => None
    case Some((name, _)) => Some(ToLower(name))
  }

  /** The headers the lines set, in order: a later line for the same lower-cased name
      overwrites an earlier one. */
  function HeaderMap(lines: seq<string>): map<string, string>
    decreases |lines|
  {
    if lines == [] then map[]
    else
      var init := HeaderMap(lines[..|lines| - 1]);
      match SplitField(lines[|lines| - 1])
      case None => init
      case Some((name, value)) => init[ToLower(name) := Trim(value)]
  }

  /** The header loop of `SetupResponse`. */
  method ParseHeaders(raw: string) returns (headers: map<string, string>)
    ensures headers == HeaderMap(Split(raw, LineBreak))
  {
    headers := map[];
    var lines := Split(raw, LineBreak);
    for i := 0 to |lines|
      invariant headers == HeaderMap(lines[..i])
    {
      assert lines[..i + 1][..i] == lines[..i];
      var values := SplitField(lines[i]);
      if values.None? {
        continue;
      }
      headers := headers[ToLower(values.value.0) := Trim(values.value.1)];
    }
    assert lines[..|lines|] == lines;
  }

  /** A name and a value put together with `:` split back apart, however many `:` the
      value holds. */
  lemma SplitFieldJoin(name: string, value: string)
    requires ':' !in name
    ensures SplitField(name + ":" + value) == Some((name, value))
  {
    var line := name + ":" + value;
    assert line[|name|] == ':';
    var i := FindChar(':', line, 0);
    assert forall j :: 0 <= j < |name| ==> line[j] == name[j];
    assert i == |name|;
    assert line[..i] == name;
    assert line[i + 1..] == value;
  }

  /** Every header name is lower case. */
  lemma {:induction false} HeaderNamesLower(lines: seq<string>)
    ensures forall k :: k in HeaderMap(lines) ==> IsLower(k)
    decreases |lines|
  {
    if lines != [] {
      HeaderNamesLower(lines[..|lines| - 1]);
    }
  }

  /** A line without `:` sets nothing. */
  lemma LineWithoutColon(lines: seq<string>, line: string)
    requires ':' !in line
    ensures HeaderMap(lines + [line]) == HeaderMap(lines)
  {
    assert (lines + [line])[..|lines + [line]| - 1] == lines;
  }

  /** A name no line sets is absent. */
  lemma {:induction false} HeaderAbsent(lines: seq<string>, k: string)
    requires forall i :: 0 <= i < |lines| ==> LineKey(lines[i]) != Some(k)
    ensures k !in HeaderMap(lines)
    decreases |lines|
  {
    if lines != [] {
      var init := lines[..|lines| - 1];
      assert forall i :: 0 <= i < |init| ==> init[i] == lines[i];
      HeaderAbsent(init, k);
    }
  }

  /** The value of a name is the trimmed value of the last line that sets it, names
      compared without regard to case. */
  lemma {:induction false} HeaderLast(lines: seq<string>, i: nat)
    requires i < |lines| && SplitField(lines[i]).Some?
    requires forall j :: i < j < |lines| ==> LineKey(lines[j]) != LineKey(lines[i])
    ensures var f := SplitField(lines[i]).value;
      ToLower(f.0) in HeaderMap(lines) && HeaderMap(lines)[ToLower(f.0)] == Trim(f.1)
    decreases |lines|
  {
    var init := lines[..|lines| - 1];
    if i < |lines| - 1 {
      assert forall j :: i < j < |init| ==> init[j] == lines[j];
      HeaderLast(init, i);
      var last := lines[|lines| - 1];
      assert LineKey(last) != LineKey(lines[i]);
    }
  }

  /** Names differing only in the case of ASCII letters are one header. */
  lemma SameNameOverwrites(lines: seq<string>, a: string, b: string, v: string, w: string)
    requires ':' !in a && ':' !in b && ToLower(a) == ToLower(b)
    ensures HeaderMap(lines + [a + ":" + v, b + ":" + w]) == HeaderMap(lines)[ToLower(b) := Trim(w)]
  {
    SplitFieldJoin(a, v);
    SplitFieldJoin(b, w);
    var all := lines + [a + ":" + v, b + ":" + w];
    assert all[..|all| - 1] == lines + [a + ":" + v];
    assert (lines + [a + ":" + v])[..|lines| ] == lines;
  }

  /** `int32(x)`: the two's-complement truncation of an `int` to 32 bits. */
  function Int32(x: int): (r: int)
    ensures -0x8000_0000 <= r < 0x8000_0000
    ensures -0x8000_0000 <= x < 0x8000_0000 ==> r == x
  {
    (x + 0x8000_0000) % 0x1_0000_0000 - 0x8000_0000
  }

  /** `proto.Url` as `SetupURL` fills it from the parsed request URI. */
  datatype Url = Url(scheme: string, domain: string, host: string, port: string, path: string, query: string, fragment: string)

  /** `proto.Response`. */
  class Response {
    var url: Url
    var headers: map<string, string>
    var status: int
    var contentType: string
    var body: string
    var bodyString: string

    constructor ()
      ensures headers == map[] && status == 0 && contentType == "" && body == [] && bodyString == ""
    {
      url := Url("", "", "", "", "", "", "");
      headers := map[];
      status := 0;
      contentType := "";
      body := [];
      bodyString := "";
    }
  }

  /** `SetupResponse`: `parsedUrl` is what `url.Parse` and `SetupURL` make of the request
      URI, `rawHeader` the response's header block, `statusCode` its status and
      `contentType` its `Content-Type` and `body` its body; `BodyString` shares the body's
      bytes. A URI that does not parse is the error. */
  method SetupResponse(parsedUrl: Result<Url, string>, rawHeader: string, statusCode: int,
                       contentType: string, body: string)
    returns (resp: Response?, err: Option<string>)
    ensures parsedUrl.Err? ==> resp == null && err == Some(parsedUrl.error)
    ensures parsedUrl.Ok? ==>
      && err == None && resp != null && fresh(resp)
      && resp.url == parsedUrl.value
      && resp.headers == HeaderMap(Split(rawHeader, LineBreak))
      && resp.status == Int32(statusCode)
      && resp.contentType == contentType
      && resp.body == body && resp.bodyString == body
  {
    if parsedUrl.Err? {
      return null, Some(parsedUrl.error);
    }
    var headers := ParseHeaders(rawHeader);
    resp := new Response();
    resp.url := parsedUrl.value;
    resp.headers := headers;
    resp.status := Int32(statusCode);
    resp.contentType := contentType;
    resp.body := body;
    resp.bodyString := resp.body;
    err := None;
  }
}
