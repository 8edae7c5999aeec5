/** The request serialiser of the HTTP client: the literal text written to
    the router's socket for a request path and a form body. */
module Client {
  import opened Text

  const CrLf: string := "\r\n"

  /** The fixed User-Agent value, in three pieces that together spell it. */
  const BrowserPlatform: string := "Mozilla/5.0 (Windows NT 10.0; Win64; x64) "
  const BrowserEngine: string := "AppleWebKit/537.36 (KHTML, like Gecko) "
  const BrowserVersion: string := "Chrome/60.0.3112.113 Safari/537.36"
  const UserAgent: string := BrowserPlatform + BrowserEngine + BrowserVersion

  const HostLine: string := "Host: 192.168.1.1"
  const AcceptLine: string := "Accept: */*"
  const ConnectionLine: string := "Connection: close"

  /** `Client::create_request_header(r, d)`: a POST carrying `d` when `d` is
      non-empty, a GET otherwise. In the POST variant the User-Agent value is
      not terminated by CR LF. */
  function CreateRequestHeader(r: string, d: string): (h: string)
    ensures d != [] ==> h == Join(PostLines(r, d), CrLf)
    ensures d == [] ==> h == Join(GetLines(r), CrLf)
  {
    if d != [] then
      JoinPostLines("POST " + r + " HTTP/1.1", HostLine, AcceptLine, "User-Agent: " + UserAgent + ConnectionLine, d);
      "POST " + r + " HTTP/1.1" + CrLf
      + HostLine + CrLf
      + AcceptLine + CrLf
      + ("User-Agent: " + UserAgent + ConnectionLine) + CrLf + CrLf + d
    else
      JoinGetLines("GET " + r + " HTTP/1.1", HostLine, AcceptLine, "User-Agent: " + UserAgent, ConnectionLine);
      "GET " + r + " HTTP/1.1" + CrLf
      + HostLine + CrLf
      + AcceptLine + CrLf
      + ("User-Agent: " + UserAgent) + CrLf
      + ConnectionLine + CrLf + CrLf
  }

  /** The text `client::get(path)` writes. */
  function GetRequest(path: string): string {
    CreateRequestHeader(path, "")
  }

  /** The text `client::post(path, data)` writes. */
  function PostRequest(path: string, data: string): string {
    CreateRequestHeader(path, data)
  }

  /** The request cut into CR LF terminated lines. */
  function Lines(request: string): seq<string> {
    Split(request, CrLf)
  }

  lemma {:induction false} JoinSnoc(xs: seq<string>, x: string, sep: string)
    requires |xs| >= 1
    ensures Join(xs + [x], sep) == Join(xs, sep) + sep + x
    decreases |xs|
  {
    if |xs| == 1 {
      assert xs + [x] == [xs[0], x];
    } else {
      assert (xs + [x])[1..] == xs[1..] + [x];
      JoinSnoc(xs[1..], x, sep);
    }
  }

  lemma JoinLines6(a: string, b: string, c: string, d: string, e: string, f: string)
    ensures Join([a, b, c, d, e, f], CrLf)
         == a + CrLf + b + CrLf + c + CrLf + d + CrLf + e + CrLf + f
  {
    JoinSnoc([a], b, CrLf);
    JoinSnoc([a, b], c, CrLf);
    JoinSnoc([a, b, c], d, CrLf);
    JoinSnoc([a, b, c, d], e, CrLf);
    JoinSnoc([a, b, c, d, e], f, CrLf);
    assert [a] + [b] == [a, b];
    assert [a, b] + [c] == [a, b, c];
    assert [a, b, c] + [d] == [a, b, c, d];
    assert [a, b, c, d] + [e] == [a, b, c, d, e];
    assert [a, b, c, d, e] + [f] == [a, b, c, d, e, f];
  }

  lemma JoinLines7(a: string, b: string, c: string, d: string, e: string, f: string, g: string)
    ensures Join([a, b, c, d, e, f, g], CrLf)
         == a + CrLf + b + CrLf + c + CrLf + d + CrLf + e + CrLf + f + CrLf + g
  {
    JoinLines6(a, b, c, d, e, f);
    JoinSnoc([a, b, c, d, e, f], g, CrLf);
    assert [a, b, c, d, e, f] + [g] == [a, b, c, d, e, f, g];
  }

  /** The shape of a POST: four header lines, an empty line, the body. */
  lemma JoinPostLines(a: string, b: string, c: string, d: string, body: string)
    ensures Join([a, b, c, d, "", body], CrLf)
         == a + CrLf + b + CrLf + c + CrLf + d + CrLf + CrLf + body
  {
    JoinLines6(a, b, c, d, "", body);
    var x := a + CrLf + b + CrLf + c + CrLf + d + CrLf;
    assert x + "" == x;
  }

  /** The shape of a GET: five header lines, then two empty ones. */
  lemma JoinGetLines(a: string, b: string, c: string, d: string, e: string)
    ensures Join([a, b, c, d, e, "", ""], CrLf)
         == a + CrLf + b + CrLf + c + CrLf + d + CrLf + e + CrLf + CrLf
  {
    JoinLines7(a, b, c, d, e, "", "");
    var x := a + CrLf + b + CrLf + c + CrLf + d + CrLf + e + CrLf;
    assert x + "" == x;
    assert x + CrLf + "" == x + CrLf;
  }

  lemma PlatformHasNoCr() ensures '\r' !in BrowserPlatform {}
  lemma EngineHasNoCr() ensures '\r' !in BrowserEngine {}
  lemma VersionHasNoCr() ensures '\r' !in BrowserVersion {}

  lemma UserAgentHasNoCr()
    ensures '\r' !in UserAgent
  {
    PlatformHasNoCr();
    EngineHasNoCr();
    VersionHasNoCr();
  }

  /** None of the fixed header lines holds a CR. */
  lemma FixedLinesHaveNoCr()
    ensures '\r' !in HostLine && '\r' !in AcceptLine && '\r' !in ConnectionLine
    ensures '\r' !in "User-Agent: " + UserAgent
    ensures '\r' !in "User-Agent: " + UserAgent + ConnectionLine
  {
    UserAgentHasNoCr();
    assert '\r' !in "User-Agent: ";
    assert '\r' !in HostLine;
    assert '\r' !in AcceptLine;
    assert '\r' !in ConnectionLine;
  }

  /** The lines of a GET request, as `create_request_header` spells them. */
  function GetLines(path: string): seq<string> {
    ["GET " + path + " HTTP/1.1", HostLine, AcceptLine, "User-Agent: " + UserAgent, ConnectionLine, "", ""]
  }

  /** The lines of a POST request, as `create_request_header` spells them. */
  function PostLines(path: string, data: string): seq<string> {
    ["POST " + path + " HTTP/1.1", HostLine, AcceptLine, "User-Agent: " + UserAgent + ConnectionLine, "", data]
  }

  lemma RequestLineHasNoCr(verb: string, path: string)
    requires '\r' !in verb && '\r' !in path
    ensures '\r' !in verb + path + " HTTP/1.1"
  {
    assert '\r' !in " HTTP/1.1";
  }

  lemma GetLinesHaveNoCr(path: string)
    requires '\r' !in path
    ensures forall k :: 0 <= k < |GetLines(path)| ==> CrLf[0] !in GetLines(path)[k]
  {
    FixedLinesHaveNoCr();
    RequestLineHasNoCr("GET ", path);
  }

  lemma PostLinesHaveNoCr(path: string, data: string)
    requires '\r' !in path && '\r' !in data
    ensures forall k :: 0 <= k < |PostLines(path, data)| ==> CrLf[0] !in PostLines(path, data)[k]
  {
    FixedLinesHaveNoCr();
    RequestLineHasNoCr("POST ", path);
  }

  /** A GET request (what `client::get`, and `client::post` with an empty
      body, write) is the request line of section 3.1.1 of RFC 7230, then
      exactly four header lines, then the empty line, and nothing after. */
  lemma GetRequestLines(path: string, data: string)
    requires '\r' !in path
    requires data == []
    ensures PostRequest(path, data) == GetRequest(path)
    ensures Lines(GetRequest(path))
         == ["GET " + path + " HTTP/1.1", HostLine, AcceptLine,
             "User-Agent: " + UserAgent, ConnectionLine, "", ""]
  {
    GetLinesHaveNoCr(path);
    SplitJoin(GetLines(path), CrLf);
  }

  /** A POST request: request line, then three header lines, of which the
      third runs the User-Agent value straight into `Connection: close`,
      then the empty line, then the body verbatim. There is no
      Content-Length or Content-Type header. */
  lemma PostRequestLines(path: string, data: string)
    requires '\r' !in path && '\r' !in data
    requires data != []
    ensures Lines(PostRequest(path, data))
         == ["POST " + path + " HTTP/1.1", HostLine, AcceptLine,
             "User-Agent: " + UserAgent + ConnectionLine, "", data]
  {
    PostLinesHaveNoCr(path, data);
    SplitJoin(PostLines(path, data), CrLf);
  }

  /** Whatever the body, a POST request is one fixed header text for the
      path followed by the body verbatim: nothing in the headers depends on
      the body (no length, no type), and the body is not escaped. */
  lemma PostBodyVerbatim(path: string, d1: string, d2: string)
    requires d1 != [] && d2 != []
    ensures |PostRequest(path, d1)| >= |d1|
    ensures PostRequest(path, d1)[|PostRequest(path, d1)| - |d1|..] == d1
    ensures PostRequest(path, d2)
         == PostRequest(path, d1)[..|PostRequest(path, d1)| - |d1|] + d2
  {
  }
}
