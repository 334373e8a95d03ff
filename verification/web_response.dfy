/** The response side of the web application: the header list and body
    buffer, output compression, `respond`, `sendHeaders`, `redirect` and the
    detection of the request URI from the server variables. The wire is a
    record of the `header()` calls made, the text echoed and whether the
    application was closed; the output compressor, the clock and the client's
    rendering engine are parameters. */
module WebResponse {
  import opened Wrappers
  import Strings
  import Json

  // -----------------------------------------------------------------------
  // State
  // -----------------------------------------------------------------------

  /** A header value as given to `setHeader`: text or an integer (status
      codes are set as integers). */
  datatype HeaderValue = Text(s: string) | Number(n: int)

  datatype Header = Header(name: string, value: HeaderValue)

  /** The response buffer: whether it may be cached, the headers in the order
      they were set and the body chunks. */
  datatype Response = Response(cachable: bool, headers: seq<Header>, body: seq<string>)

  /** One call of PHP's `header($line, $replace, $code)`. */
  datatype Emitted = Emitted(line: string, replace: bool, code: Option<HeaderValue>)

  /** The output transport: whether headers were already sent before the
      application acted, the header calls made, the text echoed and whether
      `close` was called. */
  datatype Wire = Wire(headersSent: bool, lines: seq<Emitted>, output: string, closed: bool)

  /** The rendering engine detected for the client; only Trident matters. */
  datatype Engine = Trident | OtherEngine

  /** The formatted clock readings `respond` needs (without the " GMT"
      suffix): the current time and the time fifteen minutes later. */
  datatype Clock = Clock(now: string, inFifteenMinutes: string)

  datatype WebApp = WebApp(
    response: Response,
    wire: Wire,
    server: map<string, string>,
    engine: Engine,
    /** the formatted `modifiedDate`, when one is set */
    modifiedDate: Option<string>)

  /** A fresh response: not cachable, no headers, no body. */
  const EmptyResponse := Response(false, [], [])

  /** PHP's string conversion of a header value. */
  function Render(v: HeaderValue): string
  {
    match v
    case Text(s) => s
    case Number(n) => Strings.IntToString(n)
  }

  // -----------------------------------------------------------------------
  // Headers
  // -----------------------------------------------------------------------

  /** No header carries exactly this name. */
  predicate Lacks(headers: seq<Header>, name: string)
  {
    forall i :: 0 <= i < |headers| ==> headers[i].name != name
  }

  /** The headers whose name is not exactly `name`, in their order. */
  function Without(headers: seq<Header>, name: string): (r: seq<Header>)
    ensures |r| <= |headers|
    ensures Lacks(r, name)
    ensures Lacks(headers, name) ==> r == headers
  {
    if |headers| == 0 then []
    else if headers[0].name == name then Without(headers[1..], name)
    else [headers[0]] + Without(headers[1..], name)
  }

  /** `Without` distributes over concatenation. */
  lemma {:induction false} WithoutAppend(a: seq<Header>, b: seq<Header>, name: string)
    ensures Without(a + b, name) == Without(a, name) + Without(b, name)
  {
    if |a| == 0 {
      assert a + b == b;
    } else {
      assert (a + b)[1..] == a[1..] + b;
      WithoutAppend(a[1..], b, name);
    }
  }

  /** Removing a name that neither part uses leaves the concatenation. */
  lemma WithoutKeeps(a: seq<Header>, extra: seq<Header>, name: string)
    requires Lacks(a, name) && Lacks(extra, name)
    ensures Without(a + extra, name) == a + extra
  {
    WithoutAppend(a, extra, name);
  }

  /** `setHeader`: appends the header; with `replace`, every header with
      exactly the same name (the comparison is case-sensitive) is removed
      first. The body and the cache flag do not change. */
  function SetHeader(resp: Response, name: string, value: HeaderValue, replace: bool): (r: Response)
    ensures |r.headers| > 0 && r.headers[|r.headers| - 1] == Header(name, value)
    ensures !replace ==> r.headers[..|r.headers| - 1] == resp.headers
    ensures r.cachable == resp.cachable && r.body == resp.body
  {
    var kept := if replace then Without(resp.headers, name) else resp.headers;
    var r := resp.(headers := kept + [Header(name, value)]);
    assert r.headers[..|r.headers| - 1] == kept;
    r
  }

  /** Replacing a header whose name is not present just appends it. */
  lemma SetHeaderReplaceAbsent(resp: Response, name: string, value: HeaderValue)
    requires Lacks(resp.headers, name)
    ensures SetHeader(resp, name, value, true).headers == resp.headers + [Header(name, value)]
  {
  }

  /** A name absent from two lists is absent from their concatenation. */
  lemma LacksAppend(a: seq<Header>, b: seq<Header>, name: string)
    requires Lacks(a, name) && Lacks(b, name)
    ensures Lacks(a + b, name)
  {
  }

  /** A replacing `setHeader` keeps, in their order, exactly the headers with
      other names. */
  lemma SetHeaderReplaceKeepsOthers(resp: Response, name: string, value: HeaderValue)
    ensures var r := SetHeader(resp, name, value, true).headers;
            forall h :: h in r[..|r| - 1] <==> h in resp.headers && h.name != name
  {
    var r := SetHeader(resp, name, value, true).headers;
    assert r[..|r| - 1] == Without(resp.headers, name);
    WithoutMembers(resp.headers, name);
  }

  /** `Without` keeps exactly the headers with other names. */
  lemma {:induction false} WithoutMembers(headers: seq<Header>, name: string)
    ensures forall h :: h in Without(headers, name) <==> h in headers && h.name != name
  {
    if |headers| > 0 {
      WithoutMembers(headers[1..], name);
      assert headers == [headers[0]] + headers[1..];
    }
  }

  /** Two replacing `setHeader`s in a row leave the headers with neither
      name, followed by the two new headers. */
  lemma ReplaceTwice(headers: seq<Header>, a: Header, b: Header)
    requires a.name != b.name
    ensures Without(Without(headers, a.name) + [a], b.name) + [b]
            == Without(Without(headers, a.name), b.name) + [a, b]
    ensures forall h :: h in Without(Without(headers, a.name), b.name) <==>
                          h in headers && h.name != a.name && h.name != b.name
  {
    var once := Without(headers, a.name);
    WithoutAppend(once, [a], b.name);
    assert Without([a], b.name) == [a];
    WithoutMembers(headers, a.name);
    WithoutMembers(once, b.name);
  }

  /** How many headers carry exactly this name. */
  function CountNamed(headers: seq<Header>, name: string): nat
  {
    if |headers| == 0 then 0
    else (if headers[0].name == name then 1 else 0) + CountNamed(headers[1..], name)
  }

  lemma {:induction false} CountNamedAppend(a: seq<Header>, b: seq<Header>, name: string)
    ensures CountNamed(a + b, name) == CountNamed(a, name) + CountNamed(b, name)
  {
    if |a| == 0 {
      assert a + b == b;
    } else {
      assert (a + b)[1..] == a[1..] + b;
      CountNamedAppend(a[1..], b, name);
    }
  }

  lemma {:induction false} CountNamedWithout(a: seq<Header>, name: string)
    ensures CountNamed(Without(a, name), name) == 0
  {
    if |a| > 0 {
      CountNamedWithout(a[1..], name);
      if a[0].name != name {
        assert ([a[0]] + Without(a[1..], name))[1..] == Without(a[1..], name);
      }
    }
  }

  /** After a replacing `setHeader` exactly one header carries the name, and
      it holds the new value. */
  lemma SetHeaderReplaceLeavesOne(resp: Response, name: string, value: HeaderValue)
    ensures CountNamed(SetHeader(resp, name, value, true).headers, name) == 1
  {
    var kept := Without(resp.headers, name);
    CountNamedWithout(resp.headers, name);
    CountNamedAppend(kept, [Header(name, value)], name);
    assert CountNamed([Header(name, value)], name) == 1 by {
      assert [Header(name, value)][1..] == [];
    }
  }

  /** Replacing a header twice with the same value is the same as once. */
  lemma SetHeaderReplaceIdempotent(resp: Response, name: string, value: HeaderValue)
    ensures SetHeader(SetHeader(resp, name, value, true), name, value, true) == SetHeader(resp, name, value, true)
  {
    var kept := Without(resp.headers, name);
    WithoutAppend(kept, [Header(name, value)], name);
    assert Without([Header(name, value)], name) == [] by {
      assert [Header(name, value)][1..] == [];
    }
    assert kept + [] == kept;
  }

  /** `setHeader('foo', 'bar')` on no headers gives one header; then
      `setHeader('foo', 'car', true)` leaves only the new one. */
  lemma SetHeaderTestCase()
    ensures SetHeader(EmptyResponse, "foo", Text("bar"), false).headers == [Header("foo", Text("bar"))]
    ensures SetHeader(SetHeader(EmptyResponse, "foo", Text("bar"), false), "foo", Text("car"), true).headers
            == [Header("foo", Text("car"))]
  {
    var r1 := SetHeader(EmptyResponse, "foo", Text("bar"), false);
    assert [Header("foo", Text("bar"))][1..] == [];
    assert Without(r1.headers, "foo") == [];
  }

  /** `clearHeaders`: no headers remain; the application itself is returned
      (the same buffer with the list emptied). */
  function ClearHeaders(resp: Response): (r: Response)
    ensures r.headers == [] && r.body == resp.body && r.cachable == resp.cachable
  {
    resp.(headers := [])
  }

  // -----------------------------------------------------------------------
  // Body
  // -----------------------------------------------------------------------

  /** `getBody()`: the chunks concatenated (`getBody(true)` is the chunk list). */
  function GetBody(resp: Response): string
  {
    Concat(resp.body)
  }

  function Concat(chunks: seq<string>): (r: string)
    ensures |chunks| == 0 ==> r == ""
  {
    if |chunks| == 0 then "" else chunks[0] + Concat(chunks[1..])
  }

  lemma {:induction false} ConcatAppend(a: seq<string>, b: seq<string>)
    ensures Concat(a + b) == Concat(a) + Concat(b)
  {
    if |a| == 0 {
      assert a + b == b;
    } else {
      assert (a + b)[1..] == a[1..] + b;
      ConcatAppend(a[1..], b);
    }
  }

  /** `setBody`: the body becomes exactly the given content. */
  function SetBody(resp: Response, content: string): (r: Response)
    ensures GetBody(r) == content
    ensures r.headers == resp.headers && r.cachable == resp.cachable
  {
    var r := resp.(body := [content]);
    assert [content][1..] == [];
    r
  }

  /** `prependBody`: the content goes before the current body. */
  function PrependBody(resp: Response, content: string): (r: Response)
    ensures GetBody(r) == content + GetBody(resp)
    ensures r.headers == resp.headers && r.cachable == resp.cachable
  {
    var r := resp.(body := [content] + resp.body);
    assert r.body[1..] == resp.body;
    r
  }

  /** `appendBody`: the content goes after the current body. */
  function AppendBody(resp: Response, content: string): (r: Response)
    ensures GetBody(r) == GetBody(resp) + content
    ensures r.headers == resp.headers && r.cachable == resp.cachable
  {
    ConcatAppend(resp.body, [content]);
    assert [content][1..] == [];
    resp.(body := resp.body + [content])
  }

  /** The body operations from the tests: the empty default, then
      `Testing`, `Pre-Testing` and `Testing Later`. */
  lemma BodyTestCases()
    ensures GetBody(EmptyResponse) == "" && EmptyResponse.body == []
    ensures GetBody(SetBody(EmptyResponse, "Testing")) == "Testing"
    ensures GetBody(PrependBody(SetBody(EmptyResponse, "Testing"), "Pre-")) == "Pre-Testing"
    ensures GetBody(AppendBody(SetBody(EmptyResponse, "Testing"), " Later")) == "Testing Later"
  {
  }

  /** `allowCache($allow)`: sets the flag when an argument is given and
      returns the flag. */
  function AllowCache(resp: Response, allow: Option<bool>): (r: (Response, bool))
    ensures r.1 == r.0.cachable
    ensures allow.Some? ==> r.1 == allow.value
    ensures allow.None? ==> r.0 == resp
    ensures r.0.headers == resp.headers && r.0.body == resp.body
  {
    match allow
    case Some(b) => (resp.(cachable := b), b)
    case None => (resp, resp.cachable)
  }

  // -----------------------------------------------------------------------
  // Compression
  // -----------------------------------------------------------------------

  /** The encodings the application can produce. */
  predicate Supported(encoding: string)
  {
    encoding == "gzip" || encoding == "deflate"
  }

  /** The encoder: the body in the given encoding, or `None` when encoding
      fails. */
  type Encoder = (string, string) -> Option<string>

  /** The position, in the client's order, of the first supported encoding
      the encoder succeeds with. */
  function ChooseEncoding(encodings: seq<string>, data: string, encode: Encoder, from: nat): (r: Option<nat>)
    requires from <= |encodings|
    ensures r.Some? ==> from <= r.value < |encodings| && Supported(encodings[r.value])
                        && encode(encodings[r.value], data).Some?
    ensures forall j :: from <= j < |encodings| && (r.None? || j < r.value) ==>
              !(Supported(encodings[j]) && encode(encodings[j], data).Some?)
    decreases |encodings| - from
  {
    if from == |encodings| then None
    else if Supported(encodings[from]) && encode(encodings[from], data).Some? then Some(from)
    else ChooseEncoding(encodings, data, encode, from + 1)
  }

  /** `compress`: when headers are not yet sent, the body is replaced by its
      encoding in the first of the client's accepted encodings that is
      supported (and encodes), and three headers are appended. Otherwise
      nothing changes. */
  function Compress(resp: Response, accepted: seq<string>, headersSent: bool, encode: Encoder): (r: Response)
    ensures headersSent ==> r == resp
    ensures (forall e :: e in accepted ==> !Supported(e)) ==> r == resp
    ensures r != resp ==>
              exists i :: 0 <= i < |accepted| && Supported(accepted[i])
                && encode(accepted[i], GetBody(resp)).Some?
                && (forall j :: 0 <= j < i ==> !(Supported(accepted[j]) && encode(accepted[j], GetBody(resp)).Some?))
                && r.body == [encode(accepted[i], GetBody(resp)).value]
                && r.headers == resp.headers + CompressionHeaders(accepted[i])
    ensures !headersSent && ChooseEncoding(accepted, GetBody(resp), encode, 0).Some? ==>
              var i := ChooseEncoding(accepted, GetBody(resp), encode, 0).value;
              && r.body == [encode(accepted[i], GetBody(resp)).value]
              && r.headers == resp.headers + CompressionHeaders(accepted[i])
              && r.cachable == resp.cachable
    ensures ChooseEncoding(accepted, GetBody(resp), encode, 0).None? ==> r == resp
  {
    if headersSent then resp
    else
      var data := GetBody(resp);
      match ChooseEncoding(accepted, data, encode, 0)
      case None => resp
      case Some(i) =>
        var enc := accepted[i];
        var r1 := SetHeader(resp, "Content-Encoding", Text(enc), false);
        var r2 := SetHeader(r1, "Vary", Text("Accept-Encoding"), false);
        var r3 := SetHeader(r2, "X-Content-Encoded-By", Text("Joomla"), false);
        assert r3.headers == resp.headers + CompressionHeaders(enc);
        r3.(body := [encode(enc, data).value])
  }

  /** An encoding is usable when the application supports it and the
      encoder succeeds with it on the body. */
  predicate Usable(encoding: string, data: string, encode: Encoder)
  {
    Supported(encoding) && encode(encoding, data).Some?
  }

  /** Compression applies the first usable encoding the client accepts: the
      body becomes that encoding of the old body and the three compression
      headers follow the old ones. */
  lemma CompressAppliesFirstUsable(resp: Response, accepted: seq<string>, i: nat, encode: Encoder)
    requires i < |accepted| && Usable(accepted[i], GetBody(resp), encode)
    requires forall j :: 0 <= j < i ==> !Usable(accepted[j], GetBody(resp), encode)
    ensures var r := Compress(resp, accepted, false, encode);
            && r.body == [encode(accepted[i], GetBody(resp)).value]
            && r.headers == resp.headers + CompressionHeaders(accepted[i])
            && r.cachable == resp.cachable
  {
    var c := ChooseEncoding(accepted, GetBody(resp), encode, 0);
    assert c.Some?;
    assert c.value == i;
  }

  /** Without a usable accepted encoding, compression changes nothing. */
  lemma CompressWithoutUsable(resp: Response, accepted: seq<string>, encode: Encoder)
    requires forall j :: 0 <= j < |accepted| ==> !Usable(accepted[j], GetBody(resp), encode)
    ensures Compress(resp, accepted, false, encode) == resp
  {
  }

  /** The headers compression adds, in order. */
  function CompressionHeaders(encoding: string): seq<Header>
  {
    [Header("Content-Encoding", Text(encoding)), Header("Vary", Text("Accept-Encoding")),
     Header("X-Content-Encoded-By", Text("Joomla"))]
  }

  /** The compression tests: `gzip, deflate` picks gzip, `deflate, gzip`
      picks deflate; unknown encodings, no encodings and already-sent headers
      leave the response alone. */
  lemma CompressTestCases(body: string, encode: Encoder)
    requires forall e :: Supported(e) ==> encode(e, body).Some?
    ensures var resp := Response(false, [], [body]);
            && Compress(resp, ["gzip", "deflate"], false, encode).headers == CompressionHeaders("gzip")
            && Compress(resp, ["deflate", "gzip"], false, encode).headers == CompressionHeaders("deflate")
            && Compress(resp, ["foo", "bar"], false, encode) == resp
            && Compress(resp, [], false, encode) == resp
            && Compress(resp, ["gzip", "deflate"], true, encode) == resp
  {
    var resp := Response(false, [], [body]);
    OneChunkBody(body);
    CompressFirstSupported(resp, "gzip", "deflate", encode);
    CompressFirstSupported(resp, "deflate", "gzip", encode);
    CompressUnsupported(resp, encode);
  }

  /** A body of one chunk is that chunk. */
  lemma OneChunkBody(body: string)
    ensures GetBody(Response(false, [], [body])) == body
  {
    assert [body][1..] == [];
  }

  /** Unknown encodings and an empty list leave the response alone. */
  lemma CompressUnsupported(resp: Response, encode: Encoder)
    ensures Compress(resp, ["foo", "bar"], false, encode) == resp
    ensures Compress(resp, [], false, encode) == resp
  {
    assert forall e :: e in ["foo", "bar"] ==> !Supported(e);
  }

  /** Of two supported encodings on a response without headers, the first
      one the client lists is used. */
  lemma CompressFirstSupported(resp: Response, first: string, second: string, encode: Encoder)
    requires resp.headers == [] && first in {"gzip", "deflate"}
    requires encode(first, GetBody(resp)).Some?
    ensures Compress(resp, [first, second], false, encode).headers == CompressionHeaders(first)
  {
    assert [] + CompressionHeaders(first) == CompressionHeaders(first);
  }

  // -----------------------------------------------------------------------
  // Status lines and sending headers
  // -----------------------------------------------------------------------

  /** The reason phrase of each status code the application knows. */
  function ReasonPhrase(code: int): Option<string>
  {
    match code
    case 100 => Some("Continue")
    case 101 => Some("Switching Protocols")
    case 102 => Some("Processing")
    case 200 => Some("OK")
    case 201 => Some("Created")
    case 202 => Some("Accepted")
    case 203 => Some("Non-Authoritative Information")
    case 204 => Some("No Content")
    case 205 => Some("Reset Content")
    case 206 => Some("Partial Content")
    case 207 => Some("Multi-Status")
    case 208 => Some("Already Reported")
    case 226 => Some("IM Used")
    case 300 => Some("Multiple Choices")
    case 301 => Some("Moved Permanently")
    case 302 => Some("Found")
    case 303 => Some("See other")
    case 304 => Some("Not Modified")
    case 305 => Some("Use Proxy")
    case 306 => Some("(Unused)")
    case 307 => Some("Temporary Redirect")
    case 308 => Some("Permanent Redirect")
    case 400 => Some("Bad Request")
    case 401 => Some("Unauthorized")
    case 402 => Some("Payment Required")
    case 403 => Some("Forbidden")
    case 404 => Some("Not Found")
    case 405 => Some("Method Not Allowed")
    case 406 => Some("Not Acceptable")
    case 407 => Some("Proxy Authentication Required")
    case 408 => Some("Request Timeout")
    case 409 => Some("Conflict")
    case 410 => Some("Gone")
    case 411 => Some("Length Required")
    case 412 => Some("Precondition Failed")
    case 413 => Some("Payload Too Large")
    case 414 => Some("URI Too Long")
    case 415 => Some("Unsupported Media Type")
    case 416 => Some("Range Not Satisfiable")
    case 417 => Some("Expectation Failed")
    case 418 => Some("I'm a teapot")
    case 421 => Some("Misdirected Request")
    case 422 => Some("Unprocessable Entity")
    case 423 => Some("Locked")
    case 424 => Some("Failed Dependency")
    case 426 => Some("Upgrade Required")
    case 428 => Some("Precondition Required")
    case 429 => Some("Too Many Requests")
    case 431 => Some("Request Header Fields Too Large")
    case 451 => Some("Unavailable For Legal Reasons")
    case 500 => Some("Internal Server Error")
    case 501 => Some("Not Implemented")
    case 502 => Some("Bad Gateway")
    case 503 => Some("Service Unavailable")
    case 504 => Some("Gateway Timeout")
    case 505 => Some("HTTP Version Not Supported")
    case 506 => Some("Variant Also Negotiates")
    case 507 => Some("Insufficient Storage")
    case 508 => Some("Loop Detected")
    case 510 => Some("Not Extended")
    case 511 => Some("Network Authentication Required")
    case _ => None
  }

  /** `isValidHttpStatus`: the code has a known reason phrase. */
  predicate IsValidHttpStatus(code: int)
    ensures IsValidHttpStatus(code) ==> 100 <= code < 600
  {
    ReasonPhrase(code).Some?
  }

  lemma ValidStatusTestCases()
    ensures IsValidHttpStatus(500)
    ensures !IsValidHttpStatus(460)
  {
  }

  /** The integer a status header value stands for (PHP's `(int)` cast). */
  function StatusCode(v: HeaderValue): int
  {
    match v
    case Number(n) => n
    case Text(s) => Strings.LeadingInt(s)
  }

  /** The status line for a code: the reason phrase follows the code when it
      is known, otherwise the line ends with the code. */
  function StatusLine(code: int): (line: string)
    ensures var prefix := "HTTP/1.1 " + Strings.IntToString(code);
            && |prefix| <= |line| && line[..|prefix|] == prefix
            && (IsValidHttpStatus(code) <==> |line| > |prefix|)
  {
    var prefix := "HTTP/1.1 " + Strings.IntToString(code);
    match ReasonPhrase(code)
    case Some(phrase) => prefix + " " + phrase
    case None => prefix
  }

  /** The `header()` call `sendHeaders` makes for one header: a header named
      `status` in any case becomes a status line whose response code is the
      header's value; any other is `name: value`. */
  function HeaderCall(h: Header): (e: Emitted)
    ensures e.replace
    ensures e.code.Some? <==> Strings.Lower(h.name) == "status"
    ensures e.code.Some? ==> e.code.value == h.value && e.line == StatusLine(StatusCode(h.value))
    ensures e.code.None? ==> e.line == h.name + ": " + Render(h.value)
  {
    if Strings.Lower(h.name) == "status" then Emitted(StatusLine(StatusCode(h.value)), true, Some(h.value))
    else Emitted(h.name + ": " + Render(h.value), true, None)
  }

  /** `sendHeaders`: one `header()` call per header, in order, unless the
      headers were already sent. */
  function SendHeaders(headers: seq<Header>, headersSent: bool): (calls: seq<Emitted>)
    ensures headersSent ==> calls == []
    ensures !headersSent ==> |calls| == |headers|
    ensures !headersSent ==> forall i :: 0 <= i < |headers| ==> calls[i] == HeaderCall(headers[i])
  {
    if headersSent || |headers| == 0 then []
    else [HeaderCall(headers[0])] + SendHeaders(headers[1..], false)
  }

  /** The calls for concatenated header lists are the concatenated calls. */
  lemma SendHeadersAppend(a: seq<Header>, b: seq<Header>)
    ensures SendHeaders(a + b, false) == SendHeaders(a, false) + SendHeaders(b, false)
  {
    var l := SendHeaders(a + b, false);
    var m := SendHeaders(a, false) + SendHeaders(b, false);
    assert |l| == |m|;
    forall i | 0 <= i < |l|
      ensures l[i] == m[i]
    {
      if i < |a| {
        assert (a + b)[i] == a[i];
      } else {
        assert (a + b)[i] == b[i - |a|];
      }
    }
  }

  /** The `sendHeaders` test: `foo: bar`, then `Status` 200 as its status
      line with code 200. */
  lemma SendHeadersTestCase()
    ensures SendHeaders([Header("foo", Text("bar")), Header("Status", Number(200))], false)
            == [Emitted("foo: bar", true, None), Emitted("HTTP/1.1 200 OK", true, Some(Number(200)))]
  {
    assert Strings.Lower("foo") != "status";
    assert Strings.Lower("Status") == "status";
    assert Strings.IntToString(200) == "200" by {
      assert Strings.NatToString(2) == "2";
      assert Strings.NatToString(20) == "20";
      assert Strings.NatToString(200) == "200";
    }
    assert StatusLine(200) == "HTTP/1.1 200 OK";
    var hs := [Header("foo", Text("bar")), Header("Status", Number(200))];
    assert HeaderCall(hs[0]) == Emitted("foo: bar", true, None);
    assert HeaderCall(hs[1]) == Emitted("HTTP/1.1 200 OK", true, Some(Number(200)));
  }

  // -----------------------------------------------------------------------
  // respond
  // -----------------------------------------------------------------------

  const MimeType := "text/html; charset=utf-8"
  const ExpiredDate := "Wed, 17 Aug 2005 00:00:00 GMT"
  const NoCacheDirectives := "no-store, no-cache, must-revalidate, post-check=0, pre-check=0"

  /** The content type every response is sent with. */
  const ContentTypeHeader := Header("Content-Type", Text(MimeType))

  /** The headers `respond` sets before sending: the content type, then
      either cache-defeating headers or, when caching is allowed, an expiry
      and the modification date (when one is set). */
  function RespondHeaders(resp: Response, modifiedDate: Option<string>, clock: Clock): (r: Response)
    ensures ContentTypeHeader in r.headers
    ensures !resp.cachable ==> |r.headers| >= 4 && r.headers[|r.headers| - 4..] == CacheDefeating(clock)
    ensures resp.cachable ==>
              r.headers == resp.headers + [ContentTypeHeader,
                                           Header("Expires", Text(clock.inFifteenMinutes + " GMT"))]
                           + (if modifiedDate.Some? then [Header("Last-Modified", Text(modifiedDate.value + " GMT"))] else [])
    ensures r.body == resp.body && r.cachable == resp.cachable
  {
    var r1 := SetHeader(resp, "Content-Type", Text(MimeType), false);
    if !r1.cachable then
      var r := PreventCaching(r1, clock);
      assert ContentTypeHeader in r.headers by {
        assert r1.headers == resp.headers + [ContentTypeHeader];
        PreventCachingKeeps(r1, clock);
        PreventedKeepsContentType(r1, r.headers);
      }
      r
    else
      var r2 := SetHeader(r1, "Expires", Text(clock.inFifteenMinutes + " GMT"), false);
      match modifiedDate
      case Some(d) => SetHeader(r2, "Last-Modified", Text(d + " GMT"), false)
      case None => r2
  }

  /** An uncachable response keeps, before the four cache-defeating
      headers, its old headers and the content type, except any expiry or
      modification date. */
  lemma RespondHeadersUncachedKeeps(resp: Response, modifiedDate: Option<string>, clock: Clock)
    requires !resp.cachable
    ensures var r := RespondHeaders(resp, modifiedDate, clock).headers;
            forall h :: h in r[..|r| - 4] <==>
                          (h in resp.headers || h == ContentTypeHeader)
                          && h.name != "Expires" && h.name != "Last-Modified"
  {
    var r1 := SetHeader(resp, "Content-Type", Text(MimeType), false);
    assert r1.headers == resp.headers + [ContentTypeHeader];
    RespondUncachedPrevents(resp, modifiedDate, clock);
    PreventCachingKeeps(r1, clock);
  }

  /** The content type survives the cache-defeating headers. */
  lemma PreventedKeepsContentType(r1: Response, headers: seq<Header>)
    requires ContentTypeHeader in r1.headers
    requires |headers| >= 4
    requires forall h :: h in headers[..|headers| - 4] <==>
                          h in r1.headers && h.name != "Expires" && h.name != "Last-Modified"
    ensures ContentTypeHeader in headers
  {
    var ct := ContentTypeHeader;
    assert ct in headers[..|headers| - 4];
    assert headers == headers[..|headers| - 4] + headers[|headers| - 4..];
  }

  /** The headers an uncachable response gains, in order. */
  function NoCacheHeaders(clock: Clock): seq<Header>
  {
    [ContentTypeHeader] + CacheDefeating(clock)
  }

  /** The four headers that keep an uncachable response out of caches. */
  function CacheDefeating(clock: Clock): seq<Header>
  {
    [Header("Expires", Text(ExpiredDate)), Header("Last-Modified", Text(clock.now + " GMT")),
     Header("Cache-Control", Text(NoCacheDirectives)), Header("Pragma", Text("no-cache"))]
  }

  /** The cache-defeating part of `respond`: an expiry in the past and the
      current time as modification date, both replacing earlier values, then
      the no-cache directives. On headers without an expiry or a
      modification date it just appends the four headers. */
  function PreventCaching(resp: Response, clock: Clock): (r: Response)
    ensures |r.headers| >= 4 && r.headers[|r.headers| - 4..] == CacheDefeating(clock)
    ensures Lacks(resp.headers, "Expires") && Lacks(resp.headers, "Last-Modified") ==>
              r.headers == resp.headers + CacheDefeating(clock)
    ensures r.body == resp.body && r.cachable == resp.cachable
  {
    var r2 := SetHeader(resp, "Expires", Text(ExpiredDate), true);
    var r3 := SetHeader(r2, "Last-Modified", Text(clock.now + " GMT"), true);
    var r4 := SetHeader(r3, "Cache-Control", Text(NoCacheDirectives), false);
    var r5 := SetHeader(r4, "Pragma", Text("no-cache"), false);
    var kept := Without(Without(resp.headers, "Expires"), "Last-Modified");
    NoCacheChain(resp, clock);
    SuffixOfAppend(kept, CacheDefeating(clock));
    r5
  }

  /** The four `setHeader` calls of the cache-defeating part leave the
      headers with neither replaced name, then the four new headers. */
  lemma NoCacheChain(resp: Response, clock: Clock)
    ensures var r2 := SetHeader(resp, "Expires", Text(ExpiredDate), true);
            var r3 := SetHeader(r2, "Last-Modified", Text(clock.now + " GMT"), true);
            var r4 := SetHeader(r3, "Cache-Control", Text(NoCacheDirectives), false);
            SetHeader(r4, "Pragma", Text("no-cache"), false).headers
            == Without(Without(resp.headers, "Expires"), "Last-Modified") + CacheDefeating(clock)
  {
    ReplaceTwice(resp.headers, Header("Expires", Text(ExpiredDate)), Header("Last-Modified", Text(clock.now + " GMT")));
  }

  /** The last `|b|` elements of `a + b` are `b`. */
  lemma SuffixOfAppend(a: seq<Header>, b: seq<Header>)
    ensures (a + b)[|a + b| - |b|..] == b
  {
  }

  /** Before the four cache-defeating headers come exactly the old headers
      other than an expiry or a modification date: those are replaced, the
      rest is kept. */
  lemma PreventCachingKeeps(resp: Response, clock: Clock)
    ensures var r := PreventCaching(resp, clock).headers;
            forall h :: h in r[..|r| - 4] <==> h in resp.headers && h.name != "Expires" && h.name != "Last-Modified"
  {
    var r := PreventCaching(resp, clock).headers;
    var kept := Without(Without(resp.headers, "Expires"), "Last-Modified");
    ReplaceTwice(resp.headers, Header("Expires", Text(ExpiredDate)), Header("Last-Modified", Text(clock.now + " GMT")));
    NoCacheChain(resp, clock);
    assert r[..|r| - 4] == kept;
  }

  /** An uncachable response whose headers use none of the replaced names
      gains exactly the five cache-defeating headers, after its own. */
  lemma RespondHeadersUncached(resp: Response, modifiedDate: Option<string>, clock: Clock)
    requires !resp.cachable
    requires Lacks(resp.headers, "Expires") && Lacks(resp.headers, "Last-Modified")
    ensures RespondHeaders(resp, modifiedDate, clock).headers == resp.headers + NoCacheHeaders(clock)
  {
    var r1 := SetHeader(resp, "Content-Type", Text(MimeType), false);
    RespondUncachedPrevents(resp, modifiedDate, clock);
    ContentTypeFirst(resp);
    assert PreventCaching(r1, clock).headers == r1.headers + CacheDefeating(clock);
    AppendAssoc(resp.headers, [ContentTypeHeader], CacheDefeating(clock));
  }

  /** An uncachable response takes the cache-defeating branch after the
      content type. */
  lemma RespondUncachedPrevents(resp: Response, modifiedDate: Option<string>, clock: Clock)
    requires !resp.cachable
    ensures RespondHeaders(resp, modifiedDate, clock)
            == PreventCaching(SetHeader(resp, "Content-Type", Text(MimeType), false), clock)
  {
  }

  /** The content type is appended as the first cache-defeating header. */
  lemma ContentTypeFirst(resp: Response)
    requires Lacks(resp.headers, "Expires") && Lacks(resp.headers, "Last-Modified")
    ensures var r := SetHeader(resp, "Content-Type", Text(MimeType), false).headers;
            r == resp.headers + [ContentTypeHeader]
            && Lacks(r, "Expires") && Lacks(r, "Last-Modified")
  {
    LacksAppend(resp.headers, [ContentTypeHeader], "Expires");
    LacksAppend(resp.headers, [ContentTypeHeader], "Last-Modified");
  }

  /** A cachable response with a modification date gains the content type,
      the expiry and the modification date, in that order. */
  lemma RespondHeadersCached(resp: Response, date: string, clock: Clock)
    requires resp.cachable
    ensures RespondHeaders(resp, Some(date), clock).headers ==
            resp.headers + [Header("Content-Type", Text(MimeType)),
                            Header("Expires", Text(clock.inFifteenMinutes + " GMT")),
                            Header("Last-Modified", Text(date + " GMT"))]
  {
  }

  /** `respond`: sets the headers, sends them and echoes the body. */
  function Respond(app: WebApp, clock: Clock): (r: WebApp)
    ensures r.wire.output == app.wire.output + GetBody(app.response)
    ensures r.wire.closed == app.wire.closed && r.wire.headersSent == app.wire.headersSent
    ensures r.wire.lines == app.wire.lines + SendHeaders(r.response.headers, app.wire.headersSent)
    ensures r.response.body == app.response.body && r.response.cachable == app.response.cachable
    ensures r.server == app.server && r.engine == app.engine && r.modifiedDate == app.modifiedDate
  {
    var resp := RespondHeaders(app.response, app.modifiedDate, clock);
    var calls := SendHeaders(resp.headers, app.wire.headersSent);
    app.(response := resp,
         wire := app.wire.(lines := app.wire.lines + calls, output := app.wire.output + Concat(resp.body)))
  }

  /** The uncached `respond` test: caching stays off, the content type is
      the first header and the body stays empty. */
  lemma RespondUncachedTestCase(wire: Wire, server: map<string, string>, engine: Engine, clock: Clock)
    ensures var r := Respond(WebApp(EmptyResponse, wire, server, engine, None), clock);
            !r.response.cachable && r.response.headers[0] == Header("Content-Type", Text(MimeType))
            && GetBody(r.response) == ""
  {
    RespondHeadersUncached(EmptyResponse, None, clock);
  }

  /** The cached `respond` test: with caching allowed the third header is
      the modification date and the body stays empty. */
  lemma RespondCachedTestCase(wire: Wire, server: map<string, string>, engine: Engine, date: string, clock: Clock)
    ensures var cached := AllowCache(EmptyResponse, Some(true)).0;
            var r := Respond(WebApp(cached, wire, server, engine, Some(date)), clock);
            r.response.cachable && r.response.headers[2] == Header("Last-Modified", Text(date + " GMT"))
            && GetBody(r.response) == ""
  {
    RespondHeadersCached(AllowCache(EmptyResponse, Some(true)).0, date, clock);
  }

  // -----------------------------------------------------------------------
  // The request URI
  // -----------------------------------------------------------------------

  /** A server variable, the empty string when it is not set. */
  function Server(server: map<string, string>, key: string): string
  {
    if key in server then server[key] else ""
  }

  /** The scheme: `https://` when `HTTPS` is set, not empty and not `off` in
      any case; `http://` otherwise. */
  function Scheme(server: map<string, string>): (s: string)
    ensures s == "https://" || s == "http://"
  {
    var https := Server(server, "HTTPS");
    if !Strings.PhpEmpty(https) && Strings.Lower(https) != "off" then "https://" else "http://"
  }

  /** The request URI before trimming: host and `REQUEST_URI` when both
      `PHP_SELF` and `REQUEST_URI` are set (Apache), otherwise host,
      `SCRIPT_NAME` and the query string when there is one (IIS). Either way
      the scheme comes first and the host right after it. */
  function RawRequestUri(server: map<string, string>): (raw: string)
    ensures var n := |Scheme(server)|; var host := Server(server, "HTTP_HOST");
            && n + |host| <= |raw| && raw[..n] == Scheme(server) && raw[n..n + |host|] == host
  {
    var phpSelf := Server(server, "PHP_SELF");
    var requestUri := Server(server, "REQUEST_URI");
    var host := Server(server, "HTTP_HOST");
    var path :=
      if !Strings.PhpEmpty(phpSelf) && !Strings.PhpEmpty(requestUri) then
        requestUri
      else
        var query := Server(server, "QUERY_STRING");
        Server(server, "SCRIPT_NAME") + (if !Strings.PhpEmpty(query) then "?" + query else "");
    var scheme := Scheme(server);
    var tail := host + path;
    var raw := scheme + tail;
    assert raw[..|scheme|] == scheme;
    assert raw[|scheme|..] == tail;
    assert raw[|scheme|..|scheme| + |host|] == tail[..|host|];
    assert tail[..|host|] == host;
    raw
  }

  /** `detectRequestUri`: the raw request URI trimmed; trimming never touches
      the scheme. */
  function DetectRequestUri(server: map<string, string>): (uri: string)
    ensures |Scheme(server)| <= |uri| && uri[..|Scheme(server)|] == Scheme(server)
  {
    var raw := RawRequestUri(server);
    var n := |Scheme(server)|;
    RawStartsWithScheme(server);
    TrimKeepsScheme(raw, n);
    Strings.Trim(raw, Strings.Whitespace)
  }

  /** The raw request URI starts with the scheme, an `h` and a `/`. */
  lemma RawStartsWithScheme(server: map<string, string>)
    ensures var raw := RawRequestUri(server); var n := |Scheme(server)|;
            3 <= n <= |raw| && raw[..n] == Scheme(server) && raw[0] == 'h' && raw[n - 1] == '/'
  {
    var raw := RawRequestUri(server);
    var n := |Scheme(server)|;
    assert raw[0] == raw[..n][0] && raw[n - 1] == raw[..n][n - 1];
  }

  /** A raw request URI that is the scheme followed by a text not ending in
      whitespace is detected unchanged. */
  lemma DetectAfterScheme(server: map<string, string>, tail: string)
    requires RawRequestUri(server) == Scheme(server) + tail
    requires tail == [] || tail[|tail| - 1] !in Strings.Whitespace
    ensures DetectRequestUri(server) == Scheme(server) + tail
  {
    var e := Scheme(server) + tail;
    assert e[0] == 'h';
    if tail == [] {
      assert e[|e| - 1] == '/';
    } else {
      assert e[|e| - 1] == tail[|tail| - 1];
    }
    DetectUntrimmed(server, e);
  }

  /** Trimming a text that starts with a scheme (`...://`) leaves the scheme
      in place. */
  lemma TrimKeepsScheme(s: string, n: nat)
    requires 3 <= n <= |s| && s[0] == 'h' && s[n - 1] == '/'
    ensures var t := Strings.Trim(s, Strings.Whitespace);
            n <= |t| && t[..n] == s[..n]
  {
    var t := Strings.Trim(s, Strings.Whitespace);
    var lo := Strings.SkipForward(s, Strings.Whitespace, 0);
    assert lo == 0;
    assert s[n - 1] !in Strings.Whitespace;
  }

  /** The server variables of a detection test; `HTTPS` is set only when
      given. */
  function TestServer(https: Option<string>, phpSelf: string, requestUri: string, host: string,
                      scriptName: string, query: string): map<string, string>
  {
    var base := map["PHP_SELF" := phpSelf, "REQUEST_URI" := requestUri, "HTTP_HOST" := host,
                    "SCRIPT_NAME" := scriptName, "QUERY_STRING" := query];
    if https.Some? then base["HTTPS" := https.value] else base
  }

  /** A raw request URI whose ends are not whitespace is detected unchanged. */
  lemma DetectUntrimmed(server: map<string, string>, expected: string)
    requires RawRequestUri(server) == expected
    requires |expected| > 0 ==>
               expected[0] !in Strings.Whitespace && expected[|expected| - 1] !in Strings.Whitespace
    ensures DetectRequestUri(server) == expected
  {
    Strings.TrimKeepsTrimmed(expected, Strings.Whitespace);
  }

  /** The scheme of a detection test: `https://` exactly when `HTTPS` is
      `on`. */
  lemma TestServerScheme(https: Option<string>, phpSelf: string, requestUri: string, host: string,
                         scriptName: string, query: string)
    requires https == None || https == Some("on")
    ensures Scheme(TestServer(https, phpSelf, requestUri, host, scriptName, query))
            == if https.Some? then "https://" else "http://"
  {
    var server := TestServer(https, phpSelf, requestUri, host, scriptName, query);
    if https.Some? {
      assert Server(server, "HTTPS") == "on";
      assert Strings.Lower("on") != "off" by {
        assert |Strings.Lower("on")| == 2;
      }
    } else {
      assert "HTTPS" !in server;
    }
  }

  /** Apache mode before trimming: the host followed by the request URI. */
  lemma RawRequestUriApache(server: map<string, string>)
    requires !Strings.PhpEmpty(Server(server, "PHP_SELF")) && !Strings.PhpEmpty(Server(server, "REQUEST_URI"))
    ensures RawRequestUri(server)
            == Scheme(server) + (Server(server, "HTTP_HOST") + Server(server, "REQUEST_URI"))
  {
  }

  /** Apache mode: the scheme, the host and the request URI, whenever the
      request URI does not end in whitespace. */
  lemma DetectRequestUriApache(server: map<string, string>)
    requires !Strings.PhpEmpty(Server(server, "PHP_SELF")) && !Strings.PhpEmpty(Server(server, "REQUEST_URI"))
    requires var requestUri := Server(server, "REQUEST_URI");
             requestUri[|requestUri| - 1] !in Strings.Whitespace
    ensures DetectRequestUri(server)
            == Scheme(server) + (Server(server, "HTTP_HOST") + Server(server, "REQUEST_URI"))
  {
    var requestUri := Server(server, "REQUEST_URI");
    var tail := Server(server, "HTTP_HOST") + requestUri;
    RawRequestUriApache(server);
    assert tail[|tail| - 1] == requestUri[|requestUri| - 1];
    DetectAfterScheme(server, tail);
  }

  /** The part of an IIS-mode URI after the host: the script name, and `?`
      with the query string when the query string is not empty. */
  function IisPath(server: map<string, string>): (path: string)
    ensures var script := Server(server, "SCRIPT_NAME"); var query := Server(server, "QUERY_STRING");
            && |script| <= |path| && path[..|script|] == script
            && (Strings.PhpEmpty(query) <==> |path| == |script|)
            && (!Strings.PhpEmpty(query) ==> path[|script|] == '?' && path[|script| + 1..] == query)
  {
    var query := Server(server, "QUERY_STRING");
    Server(server, "SCRIPT_NAME") + (if !Strings.PhpEmpty(query) then "?" + query else "")
  }

  /** IIS mode before trimming: the host, the script name and the query
      string when there is one. */
  lemma RawRequestUriIis(server: map<string, string>)
    requires Strings.PhpEmpty(Server(server, "PHP_SELF")) || Strings.PhpEmpty(Server(server, "REQUEST_URI"))
    ensures RawRequestUri(server) == Scheme(server) + (Server(server, "HTTP_HOST") + IisPath(server))
  {
  }

  /** IIS mode: the scheme, the host, the script name and the query string
      when there is one, whenever that text does not end in whitespace. */
  lemma DetectRequestUriIis(server: map<string, string>)
    requires Strings.PhpEmpty(Server(server, "PHP_SELF")) || Strings.PhpEmpty(Server(server, "REQUEST_URI"))
    requires var tail := Server(server, "HTTP_HOST") + IisPath(server);
             tail == [] || tail[|tail| - 1] !in Strings.Whitespace
    ensures DetectRequestUri(server) == Scheme(server) + (Server(server, "HTTP_HOST") + IisPath(server))
  {
    var tail := Server(server, "HTTP_HOST") + IisPath(server);
    assert RawRequestUri(server) == Scheme(server) + tail by {
      RawRequestUriIis(server);
    }
    DetectAfterScheme(server, tail);
  }

  /** Test instance: the Apache-mode server of the detection test, with and
      without `HTTPS`. */
  lemma DetectRequestUriApacheTestCase(https: Option<string>)
    requires https == None || https == Some("on")
    ensures var scheme := if https.Some? then "https://" else "http://";
            DetectRequestUri(TestServer(https, "/j/index.php", "/j/index.php?foo=bar", "joom.la:3", "/j/index.php", ""))
            == scheme + ("joom.la:3" + "/j/index.php?foo=bar")
  {
    var server := TestServer(https, "/j/index.php", "/j/index.php?foo=bar", "joom.la:3", "/j/index.php", "");
    TestServerScheme(https, "/j/index.php", "/j/index.php?foo=bar", "joom.la:3", "/j/index.php", "");
    assert Server(server, "PHP_SELF") == "/j/index.php";
    assert Server(server, "HTTP_HOST") == "joom.la:3";
    assert Server(server, "REQUEST_URI") == "/j/index.php?foo=bar";
    DetectRequestUriApache(server);
  }

  /** Test instance: the IIS-mode server of the detection test, with and
      without a query string. */
  lemma DetectRequestUriIisTestCase(query: string)
    requires query == "" || query == "foo=bar"
    ensures DetectRequestUri(TestServer(None, "", "", "joom.la:3", "/j/index.php", query))
            == "http://" + ("joom.la:3" + ("/j/index.php" + (if query == "" then "" else "?" + query)))
  {
    var server := TestServer(None, "", "", "joom.la:3", "/j/index.php", query);
    TestServerScheme(None, "", "", "joom.la:3", "/j/index.php", query);
    assert Server(server, "PHP_SELF") == "";
    assert Server(server, "HTTP_HOST") == "joom.la:3";
    assert Server(server, "SCRIPT_NAME") == "/j/index.php";
    assert Server(server, "QUERY_STRING") == query;
    assert Strings.PhpEmpty(query) <==> query == "";
    var tail := "joom.la:3" + IisPath(server);
    assert tail[|tail| - 1] == 'p' || tail[|tail| - 1] == 'r';
    DetectRequestUriIis(server);
  }

  // -----------------------------------------------------------------------
  // redirect
  // -----------------------------------------------------------------------

  /** The number of ASCII letters `s` starts with. */
  function LetterPrefixLength(s: string): (n: nat)
    ensures n <= |s|
    ensures forall i :: 0 <= i < n ==> Strings.IsLowerLetter(Strings.LowerChar(s[i]))
    ensures n < |s| ==> !Strings.IsLowerLetter(Strings.LowerChar(s[n]))
  {
    if |s| > 0 && Strings.IsLowerLetter(Strings.LowerChar(s[0])) then 1 + LetterPrefixLength(s[1..]) else 0
  }

  /** The URL starts with a scheme: one or more letters, then `://`. */
  predicate IsAbsolute(url: string)
  {
    var n := LetterPrefixLength(url);
    n >= 1 && n + 3 <= |url| && url[n..n + 3] == "://"
  }

  /** The length of the scheme and `://` an absolute URI starts with; zero
      for any other. */
  function SchemeEnd(uri: string): (n: nat)
    ensures n <= |uri|
  {
    if IsAbsolute(uri) then LetterPrefixLength(uri) + 3 else 0
  }

  /** Where the authority ends: at the first `/` after the scheme, or at the
      end of the URI. */
  function AuthorityEnd(uri: string): (n: nat)
    ensures SchemeEnd(uri) <= n <= |uri|
  {
    var start := SchemeEnd(uri);
    var slash := Strings.IndexOf(uri[start..], '/');
    if slash < 0 then |uri| else start + slash
  }

  /** The length of the path at the start of `tail`: up to the first `?` or
      `#`, whichever comes first. */
  function PathLength(tail: string): (n: nat)
    ensures n <= |tail|
  {
    var q := Strings.IndexOf(tail, '?');
    var h := Strings.IndexOf(tail, '#');
    if q >= 0 && (h < 0 || q < h) then q else if h >= 0 then h else |tail|
  }

  /** The scheme and authority of an absolute URI (up to the first `/` after
      `://`) and its path (up to a `?` or `#`); a URI without a scheme has no
      authority and is all path. */
  function SplitUri(uri: string): (r: (string, string))
    ensures r.0 + r.1 <= uri
  {
    var a := AuthorityEnd(uri);
    var b := PathLength(uri[a..]);
    AdjacentSlices(uri, a, a + b);
    (uri[..a], uri[a..a + b])
  }

  /** Two adjacent slices from the start make up a prefix. */
  lemma AdjacentSlices(s: string, a: nat, b: nat)
    requires a <= b <= |s|
    ensures s[..a] + s[a..b] <= s
  {
    assert s[..a] + s[a..b] == s[..b];
  }

  /** The directory part of a path: its `/`-separated parts without the last
      one, joined, with a trailing `/`. */
  function Directory(path: string): (d: string)
    ensures |d| > 0 && d[|d| - 1] == '/'
  {
    var parts := Strings.Split(path, '/');
    (if |parts| == 1 then "" else Strings.Join(parts[..|parts| - 1], '/')) + "/"
  }

  /** The redirect target: an absolute URL as given; a URL starting with `/`
      after the request's scheme and authority; anything else after the
      request's directory as well. */
  function ResolveUrl(url: string, requestUri: string): (target: string)
    ensures IsAbsolute(url) ==> target == url
    ensures !IsAbsolute(url) ==> |target| >= |url| && target[|target| - |url|..] == url
  {
    if IsAbsolute(url) then url
    else
      var (prefix, path) := SplitUri(requestUri);
      if |url| > 0 && url[0] == '/' then prefix + url
      else prefix + Directory(path) + url
  }

  /** Letters in front of a non-letter: the letter run is exactly them. */
  lemma {:induction false} LetterPrefixOf(w: string, rest: string)
    requires forall i :: 0 <= i < |w| ==> Strings.IsLowerLetter(w[i])
    requires |rest| > 0 && !Strings.IsLowerLetter(Strings.LowerChar(rest[0]))
    ensures LetterPrefixLength(w + rest) == |w|
    decreases |w|
  {
    if |w| == 0 {
      assert w + rest == rest;
    } else {
      assert (w + rest)[1..] == w[1..] + rest;
      LetterPrefixOf(w[1..], rest);
    }
  }

  /** The first `c` of `a + b` is the front of `b` when `a` has none. */
  lemma IndexOfAfter(a: string, b: string, c: char)
    requires c !in a && |b| > 0 && b[0] == c
    ensures Strings.IndexOf(a + b, c) == |a|
  {
    var s := a + b;
    assert s[|a|] == c;
    assert forall i :: 0 <= i < |a| ==> s[i] == a[i];
  }

  /** A URL without `:` has no scheme. */
  lemma NoColonNotAbsolute(url: string)
    requires ':' !in url
    ensures !IsAbsolute(url)
  {
    var n := LetterPrefixLength(url);
    if n >= 1 && n + 3 <= |url| {
      assert url[n] == url[n..n + 3][0];
    }
  }

  /** `http://` is a scheme of seven characters. */
  lemma HttpSchemeEnd(tail: string)
    ensures SchemeEnd("http://" + tail) == 7
    ensures ("http://" + tail)[7..] == tail
  {
    var uri := "http://" + tail;
    assert uri == "http" + ("://" + tail);
    LetterPrefixOf("http", "://" + tail);
    assert uri[4..7] == "://";
  }

  /** The authority of `http://host/...` ends before the path's `/`. */
  lemma HttpAuthorityEnd(host: string, path: string)
    requires '/' !in host
    requires |path| > 0 ==> path[0] == '/'
    ensures AuthorityEnd("http://" + host + path) == 7 + |host|
  {
    var uri := "http://" + host + path;
    assert uri == "http://" + (host + path);
    HttpSchemeEnd(host + path);
    if |path| > 0 {
      IndexOfAfter(host, path, '/');
    } else {
      assert host + path == host;
    }
  }

  /** A path without `?` or `#` is all path. */
  lemma WholePath(path: string)
    requires '?' !in path && '#' !in path
    ensures PathLength(path) == |path|
  {
  }

  /** An `http://` URI made of a host without `/` and a path that is empty or
      starts with `/`, neither holding `?` or `#`, splits into the scheme and
      host, and the path. */
  lemma SplitHttpUri(host: string, path: string)
    requires '/' !in host && '?' !in path && '#' !in path
    requires |path| > 0 ==> path[0] == '/'
    ensures SplitUri("http://" + host + path) == ("http://" + host, path)
  {
    var uri := "http://" + host + path;
    var a := 7 + |host|;
    assert AuthorityEnd(uri) == a by {
      HttpAuthorityEnd(host, path);
    }
    assert uri[..a] == "http://" + host && uri[a..] == path && uri[a..a + |path|] == path by {
      assert uri == ("http://" + host) + path;
    }
    assert PathLength(uri[a..]) == |path| by {
      WholePath(path);
    }
    SplitUriParts(uri, a, |path|);
  }

  /** The split is the authority and the path that the two lengths
      delimit. */
  lemma SplitUriParts(uri: string, a: nat, b: nat)
    requires a <= |uri| && AuthorityEnd(uri) == a && PathLength(uri[a..]) == b
    ensures SplitUri(uri) == (uri[..a], uri[a..a + b])
  {
  }

  /** The directory of an empty path and of a file at the root is `/`. */
  lemma RootDirectory(file: string)
    requires '/' !in file
    ensures Directory("") == "/"
    ensures Directory("/" + file) == "/"
  {
    Strings.SplitCons("", file, '/');
    Strings.SplitNoSeparator(file, '/');
    assert "/" + file == "" + ['/'] + file;
    var parts := Strings.Split("/" + file, '/');
    assert parts == ["", file];
    assert parts[..1] == [""];
  }

  /** A URL starting with `/` goes after the request's scheme and host. */
  lemma ResolveRootRelative(host: string, path: string, url: string)
    requires '/' !in host && '?' !in path && '#' !in path
    requires |path| > 0 ==> path[0] == '/'
    requires ':' !in url && |url| > 0 && url[0] == '/'
    ensures ResolveUrl(url, "http://" + host + path) == "http://" + host + url
  {
    NoColonNotAbsolute(url);
    SplitHttpUri(host, path);
  }

  /** Any other URL without a scheme goes after the request's directory,
      which for a request at the root is `/`. */
  lemma ResolveRelative(host: string, file: string, url: string)
    requires '/' !in host && '/' !in file && '?' !in file && '#' !in file
    requires ':' !in url && (|url| == 0 || url[0] != '/')
    ensures ResolveUrl(url, "http://" + host) == "http://" + host + "/" + url
    ensures ResolveUrl(url, "http://" + host + ("/" + file)) == "http://" + host + "/" + url
  {
    NoColonNotAbsolute(url);
    RootDirectory(file);
    SplitHttpUri(host, "");
    assert "http://" + host + "" == "http://" + host;
    SplitHttpUri(host, "/" + file);
  }

  /** The redirect URLs of the tests, against the request URI of a host:
      `/foo` and `foo` against the bare host, and `index.php` against
      `/index.php`, all land at the host's root. */
  lemma ResolveUrlTestCases(host: string)
    requires '/' !in host
    ensures ResolveUrl("/foo", "http://" + host) == "http://" + host + "/foo"
    ensures ResolveUrl("foo", "http://" + host) == "http://" + host + "/" + "foo"
    ensures ResolveUrl("index.php", "http://" + host + ("/" + "index.php")) == "http://" + host + "/" + "index.php"
  {
    ResolveLeadingSlashCase(host);
    ResolveNoSlashCase(host);
    ResolveIndexCase(host);
  }

  lemma ResolveLeadingSlashCase(host: string)
    requires '/' !in host
    ensures ResolveUrl("/foo", "http://" + host) == "http://" + host + "/foo"
  {
    assert ':' !in "/foo" && "/foo"[0] == '/';
    ResolveRootRelative(host, "", "/foo");
    assert "http://" + host + "" == "http://" + host;
  }

  lemma ResolveNoSlashCase(host: string)
    requires '/' !in host
    ensures ResolveUrl("foo", "http://" + host) == "http://" + host + "/" + "foo"
  {
    assert ':' !in "foo" && "foo"[0] != '/';
    ResolveRelative(host, "", "foo");
  }

  lemma ResolveIndexCase(host: string)
    requires '/' !in host
    ensures ResolveUrl("index.php", "http://" + host + ("/" + "index.php")) == "http://" + host + "/" + "index.php"
  {
    var f := "index.php";
    assert ':' !in f && '/' !in f && '?' !in f && '#' !in f && f[0] != '/';
    ResolveRelative(host, f, f);
  }

  /** The server variables of the redirect tests: no `HTTPS`, `PHP_SELF`
      or `QUERY_STRING`, so the host and the script name follow `http://`. */
  lemma RedirectTestRawUri(host: string, scriptName: string)
    ensures RawRequestUri(map["HTTP_HOST" := host, "REQUEST_URI" := "/index.php", "SCRIPT_NAME" := scriptName])
            == "http://" + host + scriptName
  {
    var server := map["HTTP_HOST" := host, "REQUEST_URI" := "/index.php", "SCRIPT_NAME" := scriptName];
    assert Scheme(server) == "http://" by {
      assert "HTTPS" !in server;
    }
    assert Server(server, "PHP_SELF") == "";
    assert Server(server, "QUERY_STRING") == "";
    assert Server(server, "HTTP_HOST") == host;
    assert Server(server, "SCRIPT_NAME") == scriptName;
    assert host + scriptName + "" == host + scriptName;
  }

  /** The request URI of the redirect tests, which the URLs resolve
      against. */
  lemma RedirectTestRequestUri(host: string, scriptName: string)
    requires |host| > 0 && host[|host| - 1] !in Strings.Whitespace
    requires scriptName == "" || scriptName == "/index.php"
    ensures DetectRequestUri(map["HTTP_HOST" := host, "REQUEST_URI" := "/index.php", "SCRIPT_NAME" := scriptName])
            == "http://" + host + scriptName
  {
    var server := map["HTTP_HOST" := host, "REQUEST_URI" := "/index.php", "SCRIPT_NAME" := scriptName];
    RedirectTestRawUri(host, scriptName);
    RedirectTestUriEnds(host, scriptName);
    DetectUntrimmed(server, "http://" + host + scriptName);
  }

  /** The redirect tests' request URI neither starts nor ends with
      whitespace. */
  lemma RedirectTestUriEnds(host: string, scriptName: string)
    requires |host| > 0 && host[|host| - 1] !in Strings.Whitespace
    requires scriptName == "" || scriptName == "/index.php"
    ensures var e := "http://" + host + scriptName;
            e[0] !in Strings.Whitespace && e[|e| - 1] !in Strings.Whitespace
  {
    var e := "http://" + host + scriptName;
    assert e[0] == 'h';
    if scriptName == "" {
      assert e[|e| - 1] == host[|host| - 1];
    } else {
      assert e[|e| - 1] == scriptName[|scriptName| - 1];
    }
  }

  /** The body sent when headers are already out: a script that sets the
      location to the JSON-encoded URL. */
  function ScriptRedirect(url: string): string
  {
    "<script>document.location.href=" + Json.Encode(url) + ";</script>\n"
  }

  /** The document sent to Trident clients for a non-ASCII URL. */
  function HtmlRedirect(url: string): string
  {
    "<html><head><meta http-equiv=\"content-type\" content=\"" + MimeType + "\" />"
    + "<script>document.location.href=" + Json.Encode(url) + ";</script></head><body></body></html>"
  }

  /** The script redirect carries the URL losslessly: reading back the
      encoded text between its fixed parts gives the URL. */
  lemma ScriptRedirectCarriesUrl(url: string, other: string)
    ensures ScriptRedirect(url) == ScriptRedirect(other) ==> url == other
    ensures Json.Unescape(Json.Escape(url)) == Some(url)
  {
    Json.EscapeRoundTrip(url);
    if ScriptRedirect(url) == ScriptRedirect(other) {
      var p := "<script>document.location.href=";
      var a := ScriptRedirect(url);
      assert Json.Encode(url) == a[|p|..|a| - |";</script>\n"|];
      assert Json.Encode(other) == a[|p|..|a| - |";</script>\n"|];
      Json.EncodeInjective(url, other);
    }
  }

  /** The redirect without the fallbacks: `Status` (301 when moved, 303
      otherwise) and `Location` replace any header of the same exact name. */
  function RedirectHeaders(resp: Response, target: string, moved: bool): (r: Response)
    ensures |r.headers| >= 2
    ensures r.headers[|r.headers| - 2..]
            == [Header("Status", Number(if moved then 301 else 303)), Header("Location", Text(target))]
    ensures r.body == resp.body && r.cachable == resp.cachable
  {
    var status := Header("Status", Number(if moved then 301 else 303));
    var withStatus := SetHeader(resp, "Status", status.value, true);
    var r := SetHeader(withStatus, "Location", Text(target), true);
    assert r.headers[|r.headers| - 2..] == [status, Header("Location", Text(target))] by {
      ReplaceTwice(resp.headers, status, Header("Location", Text(target)));
    }
    r
  }

  /** Before the two redirect headers come exactly the old headers with
      other names. */
  lemma RedirectHeadersKeepsOthers(resp: Response, target: string, moved: bool)
    ensures var r := RedirectHeaders(resp, target, moved).headers;
            forall h :: h in r[..|r| - 2] <==> h in resp.headers && h.name != "Status" && h.name != "Location"
  {
    var status := Header("Status", Number(if moved then 301 else 303));
    var r := RedirectHeaders(resp, target, moved).headers;
    ReplaceTwice(resp.headers, status, Header("Location", Text(target)));
    assert r[..|r| - 2] == Without(Without(resp.headers, "Status"), "Location");
  }

  /** `redirect`: resolves the URL against the request URI; when headers are
      already sent echoes a script redirect; for a Trident client and a
      non-ASCII target echoes an HTML document; otherwise sets the status
      and location headers. It then responds and closes the application. */
  function Redirect(app: WebApp, url: string, moved: bool, clock: Clock): (r: WebApp)
    ensures r.wire.closed
    ensures var target := ResolveUrl(url, DetectRequestUri(app.server));
            && (app.wire.headersSent ==>
                  r.wire.output == app.wire.output + ScriptRedirect(target) + GetBody(app.response)
                  && r.wire.lines == app.wire.lines)
            && (!app.wire.headersSent && app.engine == Trident && !Strings.IsAscii(target) ==>
                  r.wire.output == app.wire.output + HtmlRedirect(target) + GetBody(app.response))
  {
    var target := ResolveUrl(url, DetectRequestUri(app.server));
    var (resp, echoed) :=
      if app.wire.headersSent then (app.response, ScriptRedirect(target))
      else if app.engine == Trident && !Strings.IsAscii(target) then (app.response, HtmlRedirect(target))
      else (RedirectHeaders(app.response, target, moved), "");
    var r := Respond(app.(response := resp, wire := app.wire.(output := app.wire.output + echoed)), clock);
    r.(wire := r.wire.(closed := true))
  }

  /** The header calls of a redirect with headers unsent to a non-Trident
      client, when no preset header uses the replaced names: the preset
      headers, the status line, the location and the five headers of an
      uncachable response. */
  lemma RedirectSendsLines(app: WebApp, url: string, moved: bool, clock: Clock)
    requires !app.wire.headersSent && app.engine != Trident && !app.response.cachable
    requires Lacks(app.response.headers, "Status") && Lacks(app.response.headers, "Location")
    requires Lacks(app.response.headers, "Expires") && Lacks(app.response.headers, "Last-Modified")
    ensures var target := ResolveUrl(url, DetectRequestUri(app.server));
            Redirect(app, url, moved, clock).wire.lines ==
              app.wire.lines + SendHeaders(app.response.headers, false)
              + SendHeaders(RedirectTail(target, moved, clock), false)
  {
    var target := ResolveUrl(url, DetectRequestUri(app.server));
    var preset := app.response.headers;
    var resp := RedirectHeaders(app.response, target, moved);
    RedirectPlain(app, url, moved, clock);
    RedirectHeadersAppend(app.response, target, moved);
    RedirectThenRespond(resp, preset, target, moved, app.modifiedDate, clock);
    CombineLines(app.wire.lines, RespondHeaders(resp, app.modifiedDate, clock).headers,
                 preset, RedirectTail(target, moved, clock));
  }

  /** Sending headers made of two parts sends the lines of each part. */
  lemma CombineLines(lines: seq<Emitted>, h: seq<Header>, preset: seq<Header>, tail: seq<Header>)
    requires h == preset + tail
    ensures lines + SendHeaders(h, false) == lines + SendHeaders(preset, false) + SendHeaders(tail, false)
  {
    SendHeadersAppend(preset, tail);
  }

  /** A redirect with headers unsent to a non-Trident client sends the
      headers `respond` leaves after the status and location headers. */
  lemma RedirectPlain(app: WebApp, url: string, moved: bool, clock: Clock)
    requires !app.wire.headersSent && app.engine != Trident
    ensures var target := ResolveUrl(url, DetectRequestUri(app.server));
            var resp := RespondHeaders(RedirectHeaders(app.response, target, moved), app.modifiedDate, clock);
            Redirect(app, url, moved, clock).wire.lines == app.wire.lines + SendHeaders(resp.headers, false)
  {
    var target := ResolveUrl(url, DetectRequestUri(app.server));
    var sent := app.(response := RedirectHeaders(app.response, target, moved),
                     wire := app.wire.(output := app.wire.output + ""));
    assert Redirect(app, url, moved, clock).wire.lines == Respond(sent, clock).wire.lines;
  }

  /** With no status or location preset, the redirect headers are appended. */
  lemma RedirectHeadersAppend(resp: Response, target: string, moved: bool)
    requires Lacks(resp.headers, "Status") && Lacks(resp.headers, "Location")
    ensures RedirectHeaders(resp, target, moved).headers ==
            resp.headers + [Header("Status", Number(if moved then 301 else 303)), Header("Location", Text(target))]
  {
    var status := Header("Status", Number(if moved then 301 else 303));
    var withStatus := SetHeader(resp, "Status", status.value, true);
    SetHeaderReplaceAbsent(resp, "Status", status.value);
    LacksAppend(resp.headers, [status], "Location");
    SetHeaderReplaceAbsent(withStatus, "Location", Text(target));
  }

  /** The headers `respond` leaves after a plain redirect. */
  lemma RedirectThenRespond(resp: Response, preset: seq<Header>, target: string, moved: bool,
                            modifiedDate: Option<string>, clock: Clock)
    requires !resp.cachable
    requires Lacks(preset, "Expires") && Lacks(preset, "Last-Modified")
    requires resp.headers ==
             preset + [Header("Status", Number(if moved then 301 else 303)), Header("Location", Text(target))]
    ensures RespondHeaders(resp, modifiedDate, clock).headers == preset + RedirectTail(target, moved, clock)
  {
    var pair := [Header("Status", Number(if moved then 301 else 303)), Header("Location", Text(target))];
    LacksAppend(preset, pair, "Expires");
    LacksAppend(preset, pair, "Last-Modified");
    RespondHeadersUncached(resp, modifiedDate, clock);
    AppendAssoc(preset, pair, NoCacheHeaders(clock));
  }

  lemma AppendAssoc(a: seq<Header>, b: seq<Header>, c: seq<Header>)
    ensures a + b + c == a + (b + c)
  {
  }

  /** The headers a plain redirect adds after the preset ones. */
  function RedirectTail(target: string, moved: bool, clock: Clock): seq<Header>
  {
    [Header("Status", Number(if moved then 301 else 303)), Header("Location", Text(target))] + NoCacheHeaders(clock)
  }

  // -----------------------------------------------------------------------
  // The redirect tests' header lines
  // -----------------------------------------------------------------------

  /** A name of another length than `status`, or starting with another
      letter, is not a status header. */
  lemma NotStatusName(name: string)
    requires |name| != 6 || Strings.LowerChar(name[0]) != 's'
    ensures Strings.Lower(name) != "status"
  {
    if |name| == 6 {
      assert Strings.Lower(name)[0] != 's';
    }
  }

  /** The `header()` call for a header that is not a status header. */
  lemma PlainHeaderCall(name: string, v: HeaderValue)
    requires |name| != 6 || Strings.LowerChar(name[0]) != 's'
    ensures HeaderCall(Header(name, v)) == Emitted(name + ": " + Render(v), true, None)
  {
    NotStatusName(name);
  }

  /** A status line is the version, the code's digits and its reason phrase. */
  lemma StatusLineOf(code: int, digits: string, phrase: string)
    requires Strings.IntToString(code) == digits && ReasonPhrase(code) == Some(phrase)
    ensures StatusLine(code) == "HTTP/1.1 " + digits + " " + phrase
  {
  }

  /** The status lines the redirect tests expect: `303 See other`. */
  lemma SeeOtherLine()
    ensures StatusLine(303) == "HTTP/1.1 303 See other"
  {
    Strings.ThreeDigits(303);
    StatusLineOf(303, "303", "See other");
  }

  /** `301 Moved Permanently`. */
  lemma MovedPermanentlyLine()
    ensures StatusLine(301) == "HTTP/1.1 301 Moved Permanently"
  {
    Strings.ThreeDigits(301);
    StatusLineOf(301, "301", "Moved Permanently");
  }

  /** `201 Created`. */
  lemma CreatedLine()
    ensures StatusLine(201) == "HTTP/1.1 201 Created"
  {
    Strings.ThreeDigits(201);
    StatusLineOf(201, "201", "Created");
  }

  /** The lines of the five headers of an uncachable response. */
  lemma NoCacheLines(clock: Clock)
    ensures SendHeaders(NoCacheHeaders(clock), false) ==
              [Emitted("Content-Type" + ": " + MimeType, true, None),
               Emitted("Expires" + ": " + ExpiredDate, true, None),
               Emitted("Last-Modified" + ": " + (clock.now + " GMT"), true, None),
               Emitted("Cache-Control" + ": " + NoCacheDirectives, true, None),
               Emitted("Pragma" + ": " + "no-cache", true, None)]
  {
    var calls := SendHeaders(NoCacheHeaders(clock), false);
    assert calls[0] == Emitted("Content-Type" + ": " + MimeType, true, None) by {
      PlainHeaderCall("Content-Type", Text(MimeType));
    }
    assert calls[1] == Emitted("Expires" + ": " + ExpiredDate, true, None) by {
      PlainHeaderCall("Expires", Text(ExpiredDate));
    }
    assert calls[2] == Emitted("Last-Modified" + ": " + (clock.now + " GMT"), true, None) by {
      PlainHeaderCall("Last-Modified", Text(clock.now + " GMT"));
    }
    assert calls[3] == Emitted("Cache-Control" + ": " + NoCacheDirectives, true, None) by {
      PlainHeaderCall("Cache-Control", Text(NoCacheDirectives));
    }
    assert calls[4] == Emitted("Pragma" + ": " + "no-cache", true, None) by {
      PlainHeaderCall("Pragma", Text("no-cache"));
    }
  }

  /** The redirect's own two lines: the status line and the location. */
  lemma RedirectHeadLines(target: string, code: int)
    ensures SendHeaders([Header("Status", Number(code)), Header("Location", Text(target))], false) ==
              [Emitted(StatusLine(code), true, Some(Number(code))), Emitted("Location" + ": " + target, true, None)]
  {
    var calls := SendHeaders([Header("Status", Number(code)), Header("Location", Text(target))], false);
    assert calls[0] == Emitted(StatusLine(code), true, Some(Number(code))) by {
      assert Strings.Lower("Status") == "status";
    }
    assert calls[1] == Emitted("Location" + ": " + target, true, None) by {
      PlainHeaderCall("Location", Text(target));
    }
  }

  /** The seven lines a redirect adds: the status line, the location and the
      five headers of an uncachable response. */
  lemma RedirectTailLines(target: string, moved: bool, clock: Clock)
    ensures var code := if moved then 301 else 303;
            SendHeaders(RedirectTail(target, moved, clock), false) ==
              [Emitted(StatusLine(code), true, Some(Number(code))),
               Emitted("Location" + ": " + target, true, None)] +
              [Emitted("Content-Type" + ": " + MimeType, true, None),
               Emitted("Expires" + ": " + ExpiredDate, true, None),
               Emitted("Last-Modified" + ": " + (clock.now + " GMT"), true, None),
               Emitted("Cache-Control" + ": " + NoCacheDirectives, true, None),
               Emitted("Pragma" + ": " + "no-cache", true, None)]
  {
    var code := if moved then 301 else 303;
    var head := [Header("Status", Number(code)), Header("Location", Text(target))];
    SendHeadersAppend(head, NoCacheHeaders(clock));
    RedirectHeadLines(target, code);
    NoCacheLines(clock);
  }

  /** Appending a list made of two parts appends the parts in turn. */
  lemma AppendParts(lines: seq<Emitted>, tail: seq<Emitted>, head: seq<Emitted>, rest: seq<Emitted>)
    requires tail == head + rest
    ensures lines + tail == lines + head + rest
  {
  }

  /** A redirect from a response without headers sends only the redirect's
      own lines. */
  lemma RedirectFreshLines(app: WebApp, url: string, moved: bool, clock: Clock)
    requires !app.wire.headersSent && app.engine != Trident && !app.response.cachable
    requires app.response.headers == []
    ensures var target := ResolveUrl(url, DetectRequestUri(app.server));
            Redirect(app, url, moved, clock).wire.lines ==
              app.wire.lines + SendHeaders(RedirectTail(target, moved, clock), false)
  {
    var lines := Redirect(app, url, moved, clock).wire.lines;
    var preset := SendHeaders(app.response.headers, false);
    var tail := SendHeaders(RedirectTail(ResolveUrl(url, DetectRequestUri(app.server)), moved, clock), false);
    RedirectSendsLines(app, url, moved, clock);
    DropEmptyPart(app.wire.lines, preset, tail, lines);
  }

  /** An empty middle part adds nothing. */
  lemma DropEmptyPart(lines: seq<Emitted>, preset: seq<Emitted>, tail: seq<Emitted>, all: seq<Emitted>)
    requires all == lines + preset + tail && |preset| == 0
    ensures all == lines + tail
  {
    assert lines + preset == lines;
  }

  /** A redirect from a fresh response sends exactly the seven lines, starting
      with `303 See other`. */
  lemma RedirectLinesTestCase(app: WebApp, url: string, clock: Clock)
    requires !app.wire.headersSent && app.engine != Trident && !app.response.cachable
    requires app.response.headers == []
    ensures var target := ResolveUrl(url, DetectRequestUri(app.server));
            Redirect(app, url, false, clock).wire.lines ==
              app.wire.lines +
              [Emitted("HTTP/1.1 303 See other", true, Some(Number(303))),
               Emitted("Location" + ": " + target, true, None)] +
              [Emitted("Content-Type" + ": " + MimeType, true, None),
               Emitted("Expires" + ": " + ExpiredDate, true, None),
               Emitted("Last-Modified" + ": " + (clock.now + " GMT"), true, None),
               Emitted("Cache-Control" + ": " + NoCacheDirectives, true, None),
               Emitted("Pragma" + ": " + "no-cache", true, None)]
  {
    var target := ResolveUrl(url, DetectRequestUri(app.server));
    var tail := SendHeaders(RedirectTail(target, false, clock), false);
    var head := [Emitted("HTTP/1.1 303 See other", true, Some(Number(303))), Emitted("Location" + ": " + target, true, None)];
    var rest := [Emitted("Content-Type" + ": " + MimeType, true, None),
                    Emitted("Expires" + ": " + ExpiredDate, true, None),
                    Emitted("Last-Modified" + ": " + (clock.now + " GMT"), true, None),
                    Emitted("Cache-Control" + ": " + NoCacheDirectives, true, None),
                    Emitted("Pragma" + ": " + "no-cache", true, None)];
    assert tail == head + rest by {
      RedirectTailLines(target, false, clock);
      SeeOtherLine();
    }
    RedirectFreshLines(app, url, false, clock);
    AppendParts(app.wire.lines, tail, head, rest);
  }

  /** A permanent move sends the same lines, starting with
      `301 Moved Permanently`. */
  lemma RedirectMovedTestCase(app: WebApp, url: string, clock: Clock)
    requires !app.wire.headersSent && app.engine != Trident && !app.response.cachable
    requires app.response.headers == []
    ensures var target := ResolveUrl(url, DetectRequestUri(app.server));
            Redirect(app, url, true, clock).wire.lines ==
              app.wire.lines +
              [Emitted("HTTP/1.1 301 Moved Permanently", true, Some(Number(301))),
               Emitted("Location" + ": " + target, true, None)] +
              [Emitted("Content-Type" + ": " + MimeType, true, None),
               Emitted("Expires" + ": " + ExpiredDate, true, None),
               Emitted("Last-Modified" + ": " + (clock.now + " GMT"), true, None),
               Emitted("Cache-Control" + ": " + NoCacheDirectives, true, None),
               Emitted("Pragma" + ": " + "no-cache", true, None)]
  {
    var target := ResolveUrl(url, DetectRequestUri(app.server));
    var tail := SendHeaders(RedirectTail(target, true, clock), false);
    var head := [Emitted("HTTP/1.1 301 Moved Permanently", true, Some(Number(301))), Emitted("Location" + ": " + target, true, None)];
    var rest := [Emitted("Content-Type" + ": " + MimeType, true, None),
                    Emitted("Expires" + ": " + ExpiredDate, true, None),
                    Emitted("Last-Modified" + ": " + (clock.now + " GMT"), true, None),
                    Emitted("Cache-Control" + ": " + NoCacheDirectives, true, None),
                    Emitted("Pragma" + ": " + "no-cache", true, None)];
    assert tail == head + rest by {
      RedirectTailLines(target, true, clock);
      MovedPermanentlyLine();
    }
    RedirectFreshLines(app, url, true, clock);
    AppendParts(app.wire.lines, tail, head, rest);
  }

  /** A `status` header in lower case is still sent as a status line. */
  lemma LowerStatusHeaderSent()
    ensures SendHeaders([Header("status", Number(201))], false)
            == [Emitted("HTTP/1.1 201 Created", true, Some(Number(201)))]
  {
    assert Strings.Lower("status") == "status";
    CreatedLine();
  }

  /** A redirect from a response holding only a lower-case `status` header
      sends that header's status line before the redirect's own lines: the
      name differs from the `Status` the redirect replaces. */
  lemma RedirectPresetLines(app: WebApp, url: string, clock: Clock)
    requires !app.wire.headersSent && app.engine != Trident && !app.response.cachable
    requires app.response.headers == [Header("status", Number(201))]
    ensures var target := ResolveUrl(url, DetectRequestUri(app.server));
            Redirect(app, url, false, clock).wire.lines ==
              app.wire.lines + [Emitted("HTTP/1.1 201 Created", true, Some(Number(201)))]
              + SendHeaders(RedirectTail(target, false, clock), false)
  {
    var headers := app.response.headers;
    assert Lacks(headers, "Status") && Lacks(headers, "Location");
    assert Lacks(headers, "Expires") && Lacks(headers, "Last-Modified");
    RedirectSendsLines(app, url, false, clock);
    LowerStatusHeaderSent();
  }

  /** The preset `201` status line comes first, then the redirect's `303`
      line and the rest. */
  lemma RedirectWithPresetStatus(app: WebApp, url: string, clock: Clock)
    requires !app.wire.headersSent && app.engine != Trident && !app.response.cachable
    requires app.response.headers == [Header("status", Number(201))]
    ensures var target := ResolveUrl(url, DetectRequestUri(app.server));
            Redirect(app, url, false, clock).wire.lines ==
              app.wire.lines + [Emitted("HTTP/1.1 201 Created", true, Some(Number(201)))] +
              [Emitted("HTTP/1.1 303 See other", true, Some(Number(303))),
               Emitted("Location" + ": " + target, true, None)] +
              [Emitted("Content-Type" + ": " + MimeType, true, None),
               Emitted("Expires" + ": " + ExpiredDate, true, None),
               Emitted("Last-Modified" + ": " + (clock.now + " GMT"), true, None),
               Emitted("Cache-Control" + ": " + NoCacheDirectives, true, None),
               Emitted("Pragma" + ": " + "no-cache", true, None)]
  {
    var target := ResolveUrl(url, DetectRequestUri(app.server));
    var tail := SendHeaders(RedirectTail(target, false, clock), false);
    var head := [Emitted("HTTP/1.1 303 See other", true, Some(Number(303))), Emitted("Location" + ": " + target, true, None)];
    var rest := [Emitted("Content-Type" + ": " + MimeType, true, None),
                    Emitted("Expires" + ": " + ExpiredDate, true, None),
                    Emitted("Last-Modified" + ": " + (clock.now + " GMT"), true, None),
                    Emitted("Cache-Control" + ": " + NoCacheDirectives, true, None),
                    Emitted("Pragma" + ": " + "no-cache", true, None)];
    assert tail == head + rest by {
      RedirectTailLines(target, false, clock);
      SeeOtherLine();
    }
    RedirectPresetLines(app, url, clock);
    AppendParts(app.wire.lines + [Emitted("HTTP/1.1 201 Created", true, Some(Number(201)))], tail, head, rest);
  }
}
