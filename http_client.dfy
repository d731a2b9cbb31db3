/**
 * The HTTP/1.1 engine of the client: URL defaulting, the request it writes,
 * the parsing of the response it reads, content decoding, the redirect rule
 * and the bounded redirect loop of `make_request`.
 *
 * Bytes are read as characters. The library calls the engine makes and does
 * not define (`urlparse`, `urljoin`, `zlib.decompress`) are parameters, and
 * the network is a sequence of canned per-hop outcomes.
 */
module HttpClient {
  import opened Wrappers
  import opened Text
  import opened Dicts
  import Cookies

  const CRLF := "\r\n"
  const CRLFCRLF := "\r\n\r\n"

  // ---------------------------------------------------------------------
  // parse_url

  /** What `parsed.port` gives: no port, a number, or a ValueError (a port that is not a number in 0..65535). */
  datatype PortField = NoPort | Port(n: nat) | BadPort

  /** The fields of `urllib.parse.urlparse(url)` the engine reads. */
  datatype UrlParts = UrlParts(scheme: string, netloc: string, path: string, query: string, port: PortField)

  /** `(scheme, host, port, path)` as `parse_url` returns them. */
  datatype Target = Target(scheme: string, host: string, port: nat, path: string)

  function DefaultPort(scheme: string): nat {
    if scheme == "https" then 443 else 80
  }

  /** `parsed.netloc.split(':')[0]`: the netloc up to its first colon. */
  function HostPart(netloc: string): (r: string)
    ensures ':' !in r && StartsWith(netloc, r)
    ensures r != netloc ==> netloc[|r|] == ':'
  {
    match SplitOnce(netloc, ':')
    case None => netloc
    case Some((h, _)) => h
  }

  /** The path sent on the request line: `/` for an empty path, then `?query` when there is a query. */
  function PathAndQuery(path: string, query: string): (r: string)
    ensures r != [] && StartsWith(r, path)
    ensures query != [] ==> r == (if path == [] then "/" else path) + "?" + query
    ensures query == [] ==> r == if path == [] then "/" else path
  {
    var path' := if path == "" then "/" else path;
    if query != "" then path' + "?" + query else path'
  }

  /**
   * `parse_url` applied to what `urlparse` returned; None where reading the
   * port raises.
   */
  function ParseUrl(p: UrlParts): (r: Option<Target>)
    ensures r.None? <==> p.port.BadPort?
    ensures r.Some? ==> r.value.scheme == if p.scheme == "" then "http" else p.scheme
    ensures r.Some? ==> r.value.port == if p.port.Port? && p.port.n != 0 then p.port.n else DefaultPort(r.value.scheme)
    ensures r.Some? ==> r.value.host == HostPart(p.netloc) && r.value.path == PathAndQuery(p.path, p.query)
  {
    if p.port.BadPort? then None
    else
      var scheme := if p.scheme == "" then "http" else p.scheme;
      var port := if p.port.Port? && p.port.n != 0 then p.port.n else DefaultPort(scheme);
      Some(Target(scheme, HostPart(p.netloc), port, PathAndQuery(p.path, p.query)))
  }

  // ---------------------------------------------------------------------
  // parse_headers

  /** The response headers: lower-cased name -> value, in first-seen order. */
  type Headers = Dict<string>

  /** `field` is the stripped, lower-cased text before the first `:` of `line`, and the stripped text after it. */
  ghost predicate FieldOf(line: string, field: (string, string)) {
    exists key, value :: line == key + ":" + value && ':' !in key && field == (Lower(Strip(key)), Strip(value))
  }

  /** `key, value = line.split(':', 1)` then `(key.strip().lower(), value.strip())`; None where the unpacking raises. */
  function HeaderField(line: string): (r: Option<(string, string)>)
    ensures r.None? <==> ':' !in line
    ensures r.Some? ==> FieldOf(line, r.value)
    ensures r.Some? ==> Lower(r.value.0) == r.value.0 && Stripped(r.value.1)
  {
    match SplitOnce(line, ':')
    case None => None
    case Some((key, value)) =>
      LowerTwice(Strip(key));
      Some((Lower(Strip(key)), Strip(value)))
  }

  /** The loop of `parse_headers` over the lines after the status line: empty lines skipped, each other line assigned into the dict. */
  function HeaderFields(lines: seq<string>): (r: Option<Headers>)
    ensures r.Some? ==> UniqueKeys(r.value)
  {
    if lines == [] then Some([])
    else
      var n := |lines| - 1;
      match HeaderFields(lines[..n])
      case None => None
      case Some(headers) =>
        if lines[n] == [] then Some(headers)
        else
          match HeaderField(lines[n])
          case None => None
          case Some((key, value)) => Some(Put(headers, key, value))
  }

  /** `parse_headers(header_block)`: the first CRLF-separated line, and the fields of the rest. */
  function ParseHeaderBlock(block: string): (r: Option<(string, Headers)>)
    ensures r.Some? ==> StartsWith(block, r.value.0) && !Contains(r.value.0, CRLF)
    ensures r.None? <==> HeaderFields(Split(block, CRLF)[1..]).None?
    ensures r.Some? ==> r.value == (Split(block, CRLF)[0], HeaderFields(Split(block, CRLF)[1..]).value)
  {
    var lines := Split(block, CRLF);
    match HeaderFields(lines[1..])
    case None => None
    case Some(headers) => Some((lines[0], headers))
  }

  /** `parse_headers`, step by step: the dict is filled as the lines are read, and the first bad line raises. */
  method ParseHeaders(block: string) returns (r: Option<(string, Headers)>)
    ensures r == ParseHeaderBlock(block)
  {
    var lines := Split(block, CRLF);
    var statusLine := lines[0];
    var rest := lines[1..];
    var headers: Headers := [];
    for i := 0 to |rest|
      invariant HeaderFields(rest[..i]) == Some(headers)
    {
      HeaderFieldsPrefix(rest, i, headers);
      var line := rest[i];
      if line != [] {
        var field := SplitOnce(line, ':');
        if field.None? {
          HeaderFieldsFailed(rest, i + 1);
          return None;
        }
        var (key, value) := field.value;
        headers := Put(headers, Lower(Strip(key)), Strip(value));
      }
    }
    assert rest[..|rest|] == rest;
    return Some((statusLine, headers));
  }

  /** One turn of the loop of `parse_headers`, on the prefix of the lines read so far. */
  lemma HeaderFieldsPrefix(lines: seq<string>, i: nat, headers: Headers)
    requires i < |lines| && HeaderFields(lines[..i]) == Some(headers)
    ensures lines[i] == [] ==> HeaderFields(lines[..i + 1]) == Some(headers)
    ensures lines[i] != [] ==>
      (HeaderFields(lines[..i + 1]) == match HeaderField(lines[i]) case None => None case Some(f) => Some(Put(headers, f.0, f.1)))
  {
    assert lines[..i + 1][..i] == lines[..i];
  }

  /** Once a line has raised, the whole loop has. */
  lemma {:induction false} HeaderFieldsFailed(lines: seq<string>, k: nat)
    requires k <= |lines| && HeaderFields(lines[..k]).None?
    ensures HeaderFields(lines).None?
    decreases |lines| - k
  {
    if k < |lines| {
      assert lines[..k + 1][..k] == lines[..k];
      HeaderFieldsFailed(lines, k + 1);
    } else {
      assert lines[..k] == lines;
    }
  }

  /** A non-empty line without `:` makes the header block raise... */
  lemma {:induction false} HeaderFieldsRaises(lines: seq<string>, i: nat)
    requires i < |lines| && lines[i] != [] && ':' !in lines[i]
    ensures HeaderFields(lines).None?
  {
    var n := |lines| - 1;
    if i < n {
      assert lines[..n][i] == lines[i];
      HeaderFieldsRaises(lines[..n], i);
      HeaderFieldsAfterRaise(lines);
    } else {
      HeaderFieldsLastRaises(lines);
    }
  }

  /** Lines read after the loop has raised change nothing. */
  lemma HeaderFieldsAfterRaise(lines: seq<string>)
    requires lines != [] && HeaderFields(lines[..|lines| - 1]).None?
    ensures HeaderFields(lines).None?
  {
  }

  /** A last line without `:` raises. */
  lemma HeaderFieldsLastRaises(lines: seq<string>)
    requires lines != [] && lines[|lines| - 1] != [] && ':' !in lines[|lines| - 1]
    ensures HeaderFields(lines).None?
  {
    assert HeaderField(lines[|lines| - 1]).None?;
  }

  /** ...and the block parses when every non-empty line has one. */
  lemma {:induction false} HeaderFieldsAccepts(lines: seq<string>)
    requires forall i :: 0 <= i < |lines| && lines[i] != [] ==> ':' in lines[i]
    ensures HeaderFields(lines).Some?
  {
    if lines != [] {
      var n := |lines| - 1;
      assert forall i :: 0 <= i < n ==> lines[..n][i] == lines[i];
      HeaderFieldsAccepts(lines[..n]);
    }
  }

  /** The header block raises exactly when some non-empty line after the status line has no `:`. */
  lemma HeaderFieldsNone(lines: seq<string>)
    ensures HeaderFields(lines).None? <==> exists i :: 0 <= i < |lines| && lines[i] != [] && ':' !in lines[i]
  {
    if i :| 0 <= i < |lines| && lines[i] != [] && ':' !in lines[i] {
      HeaderFieldsRaises(lines, i);
    } else {
      HeaderFieldsAccepts(lines);
    }
  }

  /** No line after line `i` names `key`. */
  predicate LastNaming(lines: seq<string>, i: nat, key: string)
    requires i < |lines|
  {
    forall j :: i < j < |lines| && lines[j] != [] && HeaderField(lines[j]).Some? ==> HeaderField(lines[j]).value.0 != key
  }

  /** A later duplicate overwrites an earlier one: a name has the value of the last line that names it. */
  lemma {:induction false} HeaderFieldsLast(lines: seq<string>, i: nat, key: string, value: string)
    requires HeaderFields(lines).Some?
    requires i < |lines| && lines[i] != [] && HeaderField(lines[i]) == Some((key, value))
    requires LastNaming(lines, i, key)
    ensures Get(HeaderFields(lines).value, key) == Some(value)
  {
    var n := |lines| - 1;
    if i < n {
      var pre := lines[..n];
      HeaderFieldsStep(lines);
      assert LastNaming(pre, i, key) by {
        assert forall j :: i < j < |pre| ==> pre[j] == lines[j];
      }
      HeaderFieldsLast(pre, i, key, value);
      HeaderFieldsKeep(lines, key);
    } else {
      HeaderFieldsLastLine(lines, key, value);
    }
  }

  /** The last line's field is in the result. */
  lemma HeaderFieldsLastLine(lines: seq<string>, key: string, value: string)
    requires HeaderFields(lines).Some? && lines != []
    requires lines[|lines| - 1] != [] && HeaderField(lines[|lines| - 1]) == Some((key, value))
    ensures Get(HeaderFields(lines).value, key) == Some(value)
  {
    HeaderFieldsStep(lines);
    PutOther(HeaderFields(lines[..|lines| - 1]).value, (key, value), key);
  }

  /** A last line that is empty or names another key leaves `key` as it was. */
  lemma HeaderFieldsKeep(lines: seq<string>, key: string)
    requires HeaderFields(lines).Some? && |lines| >= 2
    requires LastNaming(lines, |lines| - 2, key)
    ensures HeaderFields(lines[..|lines| - 1]).Some?
    ensures Get(HeaderFields(lines).value, key) == Get(HeaderFields(lines[..|lines| - 1]).value, key)
  {
    HeaderFieldsStep(lines);
    var n := |lines| - 1;
    if lines[n] != [] {
      PutOther(HeaderFields(lines[..n]).value, HeaderField(lines[n]).value, key);
    }
  }

  /** `d[k] = v` then `d.get(key)`. */
  lemma PutOther(d: Headers, field: (string, string), key: string)
    ensures Get(Put(d, field.0, field.1), key) == if field.0 == key then Some(field.1) else Get(d, key)
  {
  }

  /** One line more: an empty line changes nothing, any other is assigned into the fields so far. */
  lemma HeaderFieldsStep(lines: seq<string>)
    requires lines != [] && HeaderFields(lines).Some?
    ensures HeaderFields(lines[..|lines| - 1]).Some?
    ensures lines[|lines| - 1] == [] ==> HeaderFields(lines) == HeaderFields(lines[..|lines| - 1])
    ensures lines[|lines| - 1] != [] ==>
      HeaderField(lines[|lines| - 1]).Some?
      && HeaderFields(lines).value == Put(HeaderFields(lines[..|lines| - 1]).value,
                                          HeaderField(lines[|lines| - 1]).value.0, HeaderField(lines[|lines| - 1]).value.1)
  {
  }

  /** A name no line gives is absent. */
  lemma {:induction false} HeaderFieldsAbsent(lines: seq<string>, key: string)
    requires HeaderFields(lines).Some?
    requires forall j :: 0 <= j < |lines| && lines[j] != [] && HeaderField(lines[j]).Some? ==> HeaderField(lines[j]).value.0 != key
    ensures Get(HeaderFields(lines).value, key) == None
  {
    if lines != [] {
      HeaderFieldsAbsent(lines[..|lines| - 1], key);
    }
  }

  /** Every name in the dict is lower case, and every value is stripped. */
  lemma {:induction false} HeaderFieldsNormalised(lines: seq<string>)
    requires HeaderFields(lines).Some?
    ensures forall i :: 0 <= i < |HeaderFields(lines).value| ==>
      Lower(HeaderFields(lines).value[i].0) == HeaderFields(lines).value[i].0 && Stripped(HeaderFields(lines).value[i].1)
  {
    if lines != [] {
      var n := |lines| - 1;
      HeaderFieldsNormalised(lines[..n]);
      var h := HeaderFields(lines[..n]).value;
      if lines[n] != [] {
        var (key, value) := HeaderField(lines[n]).value;
        var r := Put(h, key, value);
        forall i | 0 <= i < |r| ensures Lower(r[i].0) == r[i].0 && Stripped(r[i].1) {
          assert Keys(r)[i] == r[i].0;
          if r[i].0 == key {
            GetAt(r, i);
          } else {
            GetAt(r, i);
            var t := IndexOf(h, r[i].0);
            assert t < |h| && h[t].0 == r[i].0;
            GetAt(h, t);
          }
        }
      }
    }
  }

  // ---------------------------------------------------------------------
  // _parse_response

  datatype Response = Response(status: string, headers: Headers, body: string)

  /**
   * `_parse_response`: the bytes are cut at the first CRLFCRLF into the
   * header block and the body; None where there is no CRLFCRLF or the
   * header block raises.
   */
  function ParseResponse(bytes: string): (r: Option<Response>)
    ensures !Contains(bytes, CRLFCRLF) ==> r.None?
    ensures Contains(bytes, CRLFCRLF) ==> (r.Some? <==> ParseHeaderBlock(SplitAtFirst(bytes, CRLFCRLF).value.0).Some?)
    ensures r.Some? ==> exists head :: bytes == head + CRLFCRLF + r.value.body && !Contains(head, CRLFCRLF)
                                      && (forall k: nat :: k < |head| ==> !OccursAt(bytes, CRLFCRLF, k))
                                      && ParseHeaderBlock(head) == Some((r.value.status, r.value.headers))
  {
    match SplitAtFirst(bytes, CRLFCRLF)
    case None => None
    case Some((head, body)) =>
      match ParseHeaderBlock(head)
      case None => None
      case Some((status, headers)) => Some(Response(status, headers, body))
  }

  /** `_parse_response`, with the header block read by the `parse_headers` loop. */
  method ReadResponse(bytes: string) returns (r: Option<Response>)
    ensures r == ParseResponse(bytes)
  {
    var parts := SplitAtFirst(bytes, CRLFCRLF);
    if parts.None? {
      return None;
    }
    var (headerPart, bodyPart) := parts.value;
    var parsed := ParseHeaders(headerPart);
    if parsed.None? {
      return None;
    }
    var (statusLine, headers) := parsed.value;
    return Some(Response(statusLine, headers, bodyPart));
  }

  /** `int(status_line.split()[1])`; None where that raises. */
  function StatusCode(status: string): (r: Option<int>)
  {
    var words := Words(status);
    if |words| < 2 then None else ParseInt(words[1])
  }

  /** A status line `version code reason` gives back its code. */
  lemma StatusCodeOf(version: string, code: nat, reason: string)
    requires version != [] && forall j :: 0 <= j < |version| ==> !IsSpace(version[j])
    requires reason == [] || IsSpace(reason[0])
    ensures StatusCode(version + " " + Decimal(code) + reason) == Some(code)
  {
    var digits := Decimal(code);
    forall j | 0 <= j < |digits| ensures !IsSpace(digits[j]) {
      assert IsDigit(digits[j]);
    }
    WordsPair(version, digits, reason);
    ParseDecimal(code);
  }

  // ---------------------------------------------------------------------
  // _build_request_lines

  const UserAgent := "basic-curl-clone-socket/0.1"
  const UserAgentLine := "User-Agent: " + UserAgent
  const AcceptLine := "Accept: */*"
  const Encodings := "gzip, deflate"
  const AcceptEncodingLine := "Accept-Encoding: " + Encodings
  const ConnectionLine := "Connection: close"
  const FormType := "application/x-www-form-urlencoded"
  const FormTypeLine := "Content-Type: " + FormType
  const ContentLengthName := "Content-Length"

  function ContentLengthLine(n: nat): string {
    ContentLengthName + ": " + Decimal(n)
  }

  /** `method == "POST" and data`: the request carries a form body. */
  predicate Posts(verb: string, data: Option<string>) {
    verb == "POST" && data.Some? && data.value != []
  }

  /** The request line and the five header lines every request starts with. */
  function FixedLines(verb: string, host: string, path: string): seq<string> {
    [verb + " " + path + " HTTP/1.1", "Host: " + host, UserAgentLine, AcceptLine, AcceptEncodingLine, ConnectionLine]
  }

  /** What `_build_request_lines` returns: the lines to join with CRLF, and the body bytes. */
  datatype Built = Built(lines: seq<string>, body: string)

  /**
   * `_build_request_lines(method, host, path, data, request_headers,
   * cookie_header)`; `extra` is the caller's header text, added verbatim.
   */
  function RequestLines(verb: string, host: string, path: string, data: Option<string>, extra: string, cookie: string): Built
  {
    Built(FixedLines(verb, host, path) + OptionalLines(cookie, extra) + FormLines(verb, data) + ["", ""],
          if Posts(verb, data) then data.value else [])
  }

  /** The Cookie line when there is a cookie, then the caller's header text when there is some. */
  function OptionalLines(cookie: string, extra: string): seq<string> {
    (if cookie != [] then ["Cookie: " + cookie] else []) + (if extra != [] then [extra] else [])
  }

  /** The form headers of a POST with data. */
  function FormLines(verb: string, data: Option<string>): seq<string> {
    if Posts(verb, data) then [FormTypeLine, ContentLengthLine(|data.value|)] else []
  }

  /**
   * The layout of the request: the request line and the fixed headers first,
   * a Cookie line exactly when there is a cookie, the caller's text when there
   * is some, the form headers and the body exactly for a POST with data, and
   * two empty lines last.
   */
  lemma RequestLayout(verb: string, host: string, path: string, data: Option<string>, extra: string, cookie: string, r: Built)
    requires r == RequestLines(verb, host, path, data, extra, cookie)
    ensures |r.lines| == 8 + (if cookie != [] then 1 else 0) + (if extra != [] then 1 else 0) + (if Posts(verb, data) then 2 else 0)
    ensures r.lines[..6] == FixedLines(verb, host, path)
    ensures cookie != [] ==> r.lines[6] == "Cookie: " + cookie
    ensures extra != [] ==> r.lines[if cookie != [] then 7 else 6] == extra
    ensures r.body != [] <==> Posts(verb, data)
    ensures Posts(verb, data) ==> r.body == data.value
    ensures Posts(verb, data) ==> r.lines[|r.lines| - 4] == FormTypeLine && r.lines[|r.lines| - 3] == ContentLengthLine(|r.body|)
    ensures r.lines[|r.lines| - 2] == [] && r.lines[|r.lines| - 1] == []
  {
  }

  /** `_build_request_lines`, appending one line at a time. */
  method BuildRequestLines(verb: string, host: string, path: string, data: Option<string>, extra: string, cookie: string)
    returns (lines: seq<string>, body: string)
    ensures Built(lines, body) == RequestLines(verb, host, path, data, extra, cookie)
  {
    lines := [];
    lines := lines + [verb + " " + path + " HTTP/1.1"];
    lines := lines + ["Host: " + host];
    lines := lines + [UserAgentLine];
    lines := lines + [AcceptLine];
    lines := lines + [AcceptEncodingLine];
    lines := lines + [ConnectionLine];
    assert lines == FixedLines(verb, host, path);
    ghost var opening := lines;
    if cookie != [] {
      lines := lines + ["Cookie: " + cookie];
    }
    if extra != [] {
      lines := lines + [extra];
    }
    assert lines == opening + OptionalLines(cookie, extra);
    ghost var headed := lines;
    body := [];
    if verb == "POST" && data.Some? && data.value != [] {
      body := data.value;
      lines := lines + [FormTypeLine];
      lines := lines + [ContentLengthLine(|body|)];
      assert lines == headed + FormLines(verb, data);
    } else {
      assert lines == headed + FormLines(verb, data);
    }
    assert body == if Posts(verb, data) then data.value else [];
    ghost var formed := lines;
    lines := lines + [""];
    lines := lines + [""];
    assert lines == formed + ["", ""];
  }

  // ---------------------------------------------------------------------
  // The request on the wire

  /** `"\r\n".join(request_lines).encode('utf-8') + body_bytes` */
  function Wire(r: Built): string {
    Join(r.lines, CRLF) + r.body
  }

  /** Lines that keep the framing intact: none is empty or holds a CR. */
  predicate PlainLines(lines: seq<string>) {
    forall i :: 0 <= i < |lines| ==> lines[i] != [] && '\r' !in lines[i]
  }

  /** Plain lines that are header lines: each holds a `:`. */
  predicate HeaderLines(lines: seq<string>) {
    forall i :: 0 <= i < |lines| ==> lines[i] != [] && '\r' !in lines[i] && ':' in lines[i]
  }

  /** The two empty lines at the end put CRLFCRLF after the head. */
  lemma {:induction false} JoinBlankEnd(head: seq<string>)
    requires head != []
    ensures Join(head + ["", ""], CRLF) == Join(head, CRLF) + CRLFCRLF
  {
    var lines := head + ["", ""];
    assert lines[1..] == head[1..] + ["", ""];
    if |head| > 1 {
      JoinBlankEnd(head[1..]);
    } else {
      assert Join(["", ""], CRLF) == CRLF;
    }
  }

  /** A CR at `k` is not followed by another CR two places on. */
  predicate CRThenPlain(j: string, k: int)
    requires 0 <= k < |j|
  {
    j[k] != '\r' || (k + 2 < |j| && j[k + 2] != '\r')
  }

  /** In plain lines joined with CRLF, no CR ends the text or stands two places after another CR. */
  lemma {:induction false} JoinShape(lines: seq<string>)
    requires lines != [] && PlainLines(lines)
    ensures Join(lines, CRLF) != [] && Join(lines, CRLF)[0] != '\r' && Join(lines, CRLF)[|Join(lines, CRLF)| - 1] != '\r'
    ensures forall k :: 0 <= k < |Join(lines, CRLF)| ==> CRThenPlain(Join(lines, CRLF), k)
  {
    var h := lines[0];
    var j := Join(lines, CRLF);
    assert h[0] in h && h[|h| - 1] in h;
    if |lines| == 1 {
      forall k | 0 <= k < |j| ensures CRThenPlain(j, k) {
        assert h[k] in h;
      }
    } else {
      var rest := Join(lines[1..], CRLF);
      JoinShape(lines[1..]);
      assert j == h + CRLF + rest;
      forall k | 0 <= k < |j| ensures CRThenPlain(j, k) {
        if k < |h| {
          assert j[k] == h[k] && h[k] in h;
        } else if k == |h| {
          assert j[k + 2] == rest[0];
        } else if k == |h| + 1 {
          assert j[k] == '\n';
        } else {
          assert CRThenPlain(rest, k - |h| - 2);
          assert j[k] == rest[k - |h| - 2];
        }
      }
    }
  }

  /** A request whose head lines are plain is cut, at its first CRLFCRLF, into its head and its body. */
  lemma RequestSplit(head: seq<string>, body: string)
    requires head != [] && PlainLines(head)
    ensures SplitAtFirst(Join(head + ["", ""], CRLF) + body, CRLFCRLF) == Some((Join(head, CRLF), body))
  {
    JoinBlankEnd(head);
    JoinShape(head);
    var j := Join(head, CRLF);
    var s := j + CRLFCRLF + body;
    forall k: nat | k < |j| ensures !OccursAt(s, CRLFCRLF, k) {
      if k + 4 <= |s| {
        assert s[k] == j[k];
        assert CRThenPlain(j, k);
        if j[k] == '\r' {
          assert s[k + 2] == j[k + 2];
          assert s[k..k + 4][2] == s[k + 2];
        } else {
          assert s[k..k + 4][0] == s[k];
        }
      }
    }
    SplitAtFirstAt(s, CRLFCRLF, j, body);
  }

  /** Splitting CRLF-joined lines that hold no CR gives the lines back. */
  lemma {:induction false} SplitJoin(lines: seq<string>)
    requires lines != [] && forall i :: 0 <= i < |lines| ==> '\r' !in lines[i]
    ensures Split(Join(lines, CRLF), CRLF) == lines
  {
    var h := lines[0];
    if |lines| == 1 {
      forall k: nat | k <= |h| ensures !OccursAt(h, CRLF, k) {
        if k + 2 <= |h| {
          assert h[k..k + 2][0] == h[k] && h[k] in h;
        }
      }
    } else {
      var rest := Join(lines[1..], CRLF);
      var s := h + CRLF + rest;
      forall k: nat | k < |h| ensures !OccursAt(s, CRLF, k) {
        assert s[k] == h[k] && h[k] in h;
        if k + 2 <= |s| {
          assert s[k..k + 2][0] == s[k];
        }
      }
      SplitAtFirstAt(s, CRLF, h, rest);
      SplitJoin(lines[1..]);
    }
  }

  /** A `Name: value` line with a plain name and a stripped value reads back as the lower-cased name and the value. */
  lemma HeaderFieldOf(name: string, value: string)
    requires ':' !in name && Stripped(name)
    requires value != [] && !IsSpace(value[0]) && !IsSpace(value[|value| - 1])
    ensures HeaderField(name + ": " + value) == Some((Lower(name), value))
  {
    assert name + ": " + value == name + [':'] + ([' '] + value);
    SplitOnceAt(name, ':', [' '] + value);
    StripSpaceBefore(value);
  }

  lemma ContentLengthNameText()
    ensures ':' !in ContentLengthName && Stripped(ContentLengthName) && Lower(ContentLengthName) == "content-length"
  {
  }

  /** The Content-Length line reads back, through the header parser, as the decimal length. */
  lemma ContentLengthField(n: nat)
    ensures HeaderField(ContentLengthLine(n)) == Some(("content-length", Decimal(n)))
  {
    var digits := Decimal(n);
    assert IsDigit(digits[0]) && IsDigit(digits[|digits| - 1]);
    ContentLengthNameText();
    HeaderFieldOf(ContentLengthName, digits);
  }

  // The fixed texts hold no CR, and each header name holds its `:`.

  lemma UserAgentText()
    ensures '\r' !in UserAgent && '\r' !in "User-Agent: " && "User-Agent: "[10] == ':'
  {
  }

  lemma AcceptText()
    ensures '\r' !in AcceptLine && AcceptLine[6] == ':'
  {
  }

  lemma AcceptEncodingText()
    ensures '\r' !in Encodings && '\r' !in "Accept-Encoding: " && "Accept-Encoding: "[15] == ':'
  {
  }

  lemma ConnectionText()
    ensures '\r' !in ConnectionLine && ConnectionLine[10] == ':'
  {
  }

  lemma FormTypeText()
    ensures '\r' !in FormType && '\r' !in "Content-Type: " && "Content-Type: "[12] == ':'
  {
  }

  lemma ShortTexts()
    ensures '\r' !in " " && '\r' !in " HTTP/1.1" && '\r' !in "Host: " && "Host: "[4] == ':'
    ensures '\r' !in "Cookie: " && "Cookie: "[6] == ':' && '\r' !in ": "
  {
  }

  /** Header lines stay header lines when put together. */
  lemma HeaderLinesConcat(a: seq<string>, b: seq<string>)
    requires HeaderLines(a) && HeaderLines(b)
    ensures HeaderLines(a + b)
  {
    forall i | 0 <= i < |a + b| ensures (a + b)[i] != [] && '\r' !in (a + b)[i] && ':' in (a + b)[i] {
      if i >= |a| {
        assert (a + b)[i] == b[i - |a|];
      }
    }
  }

  /** The fixed headers are header lines; the request line is plain when the method and the path hold no CR. */
  lemma FixedLinesPlain(verb: string, host: string, path: string)
    requires '\r' !in verb && '\r' !in host && '\r' !in path
    ensures PlainLines(FixedLines(verb, host, path)[..1])
    ensures HeaderLines(FixedLines(verb, host, path)[1..])
  {
    ShortTexts();
    UserAgentText();
    AcceptText();
    AcceptEncodingText();
    ConnectionText();
    var fixed := FixedLines(verb, host, path);
    assert fixed[1][4] == ':' && fixed[2][10] == ':' && fixed[4][15] == ':';
    assert fixed[1..] == ["Host: " + host, UserAgentLine, AcceptLine, AcceptEncodingLine, ConnectionLine];
  }

  /** The optional lines and the form lines are header lines. */
  lemma LaterLinesPlain(verb: string, data: Option<string>, extra: string, cookie: string)
    requires '\r' !in cookie
    requires extra == [] || ('\r' !in extra && ':' in extra)
    ensures HeaderLines(OptionalLines(cookie, extra))
    ensures HeaderLines(FormLines(verb, data))
  {
    ShortTexts();
    FormTypeText();
    if cookie != [] {
      assert ("Cookie: " + cookie)[6] == ':';
    }
    if Posts(verb, data) {
      var digits := Decimal(|data.value|);
      assert '\r' !in digits by {
        forall i | 0 <= i < |digits| ensures digits[i] != '\r' {
          assert IsDigit(digits[i]);
        }
      }
      ContentLengthNameText();
      assert ContentLengthLine(|data.value|)[|ContentLengthName|] == ':';
      assert FormTypeLine[12] == ':';
    }
  }

  /** A head of plain lines, header lines after the first, followed by two empty lines and a body, parses back into its parts. */
  lemma HeadReadsBack(head: seq<string>, body: string)
    requires head != [] && PlainLines(head) && HeaderLines(head[1..])
    ensures HeaderFields(head[1..]).Some?
    ensures ParseResponse(Join(head + ["", ""], CRLF) + body) == Some(Response(head[0], HeaderFields(head[1..]).value, body))
  {
    RequestSplit(head, body);
    SplitJoin(head);
    HeaderFieldsAccepts(head[1..]);
  }

  /** The head of a request: the lines before the two empty ones. */
  lemma RequestHead(verb: string, host: string, path: string, data: Option<string>, extra: string, cookie: string, r: Built)
    requires r == RequestLines(verb, host, path, data, extra, cookie)
    requires '\r' !in verb && '\r' !in host && '\r' !in path && '\r' !in cookie
    requires extra == [] || ('\r' !in extra && ':' in extra)
    ensures |r.lines| > 2 && r.lines == r.lines[..|r.lines| - 2] + ["", ""]
    ensures PlainLines(r.lines[..|r.lines| - 2]) && HeaderLines(r.lines[1..|r.lines| - 2])
    ensures r.lines[0] == verb + " " + path + " HTTP/1.1"
    ensures Posts(verb, data) ==> r.lines[|r.lines| - 3] == ContentLengthLine(|r.body|)
  {
    var fixed := FixedLines(verb, host, path);
    var later := OptionalLines(cookie, extra) + FormLines(verb, data);
    var head := fixed + later;
    assert r.lines == head + ["", ""];
    assert r.lines[..|r.lines| - 2] == head;
    FixedLinesPlain(verb, host, path);
    LaterLinesPlain(verb, data, extra, cookie);
    HeaderLinesConcat(OptionalLines(cookie, extra), FormLines(verb, data));
    HeaderLinesConcat(fixed[1..], later);
    assert head == fixed[..1] + (fixed[1..] + later);
    HeadPlain(fixed[..1], fixed[1..] + later);
  }

  /** One plain line followed by header lines: plain lines whose tail is those header lines. */
  lemma HeadPlain(first: seq<string>, rest: seq<string>)
    requires |first| == 1 && PlainLines(first) && HeaderLines(rest)
    ensures PlainLines(first + rest) && (first + rest)[1..] == rest
  {
    var head := first + rest;
    forall i | 0 <= i < |head| ensures head[i] != [] && '\r' !in head[i] {
      if i > 0 {
        assert head[i] == rest[i - 1];
      }
    }
  }

  /**
   * The request, read back with the framing the client applies to responses:
   * it splits at the first CRLFCRLF into the head and exactly the body, the
   * head's first line is the request line, and a POST's Content-Length field
   * is the decimal length of the body.
   */
  lemma RequestReadsBack(verb: string, host: string, path: string, data: Option<string>, extra: string, cookie: string, r: Built)
    requires r == RequestLines(verb, host, path, data, extra, cookie)
    requires '\r' !in verb && '\r' !in host && '\r' !in path && '\r' !in cookie
    requires extra == [] || ('\r' !in extra && ':' in extra)
    ensures ParseResponse(Wire(r)).Some?
    ensures ParseResponse(Wire(r)).value.status == verb + " " + path + " HTTP/1.1"
    ensures ParseResponse(Wire(r)).value.body == r.body
    ensures Posts(verb, data) ==> Get(ParseResponse(Wire(r)).value.headers, "content-length") == Some(Decimal(|r.body|))
  {
    RequestHead(verb, host, path, data, extra, cookie, r);
    var head := r.lines[..|r.lines| - 2];
    HeadReadsBack(head, r.body);
    if Posts(verb, data) {
      var rest := head[1..];
      assert rest[|rest| - 1] == ContentLengthLine(|r.body|);
      ContentLengthField(|r.body|);
      HeaderFieldsLast(rest, |rest| - 1, "content-length", Decimal(|r.body|));
    }
  }

  // ---------------------------------------------------------------------
  // _handle_compression

  /** `zlib.decompress(data, wbits)`; None where it raises `zlib.error`. */
  type Inflate = (string, int) -> Option<string>

  /** `16 + zlib.MAX_WBITS`: a gzip wrapper. */
  const GzipWbits := 31
  /** `zlib.MAX_WBITS`, the default: a zlib wrapper. */
  const ZlibWbits := 15
  /** `-zlib.MAX_WBITS`: raw deflate. */
  const RawWbits := -15

  /**
   * `_handle_compression(headers, body_part)`: gzip is inflated with a gzip
   * wrapper, deflate first with a zlib wrapper and then raw; every failure
   * keeps the bytes as they came.
   */
  function Decompress(inflate: Inflate, headers: Headers, body: string): (r: string)
    ensures Get(headers, "content-encoding") != Some("gzip") && Get(headers, "content-encoding") != Some("deflate") ==> r == body
    ensures Get(headers, "content-encoding") == Some("gzip") ==>
      inflate(body, GzipWbits) == Some(r) || (inflate(body, GzipWbits).None? && r == body)
    ensures Get(headers, "content-encoding") == Some("deflate") ==>
      inflate(body, ZlibWbits) == Some(r)
      || (inflate(body, ZlibWbits).None? && inflate(body, RawWbits) == Some(r))
      || (inflate(body, ZlibWbits).None? && inflate(body, RawWbits).None? && r == body)
  {
    var encoding := Get(headers, "content-encoding");
    if encoding == Some("gzip") then
      match inflate(body, GzipWbits)
      case Some(inflated) => inflated
      case None => body
    else if encoding == Some("deflate") then
      match inflate(body, ZlibWbits)
      case Some(inflated) => inflated
      case None =>
        match inflate(body, RawWbits)
        case Some(inflated) => inflated
        case None => body
    else body
  }

  // ---------------------------------------------------------------------
  // _handle_redirect

  /** `(new_url, new_method, new_data)`; `url` is None where there is no Location. */
  datatype Redirect = Redirect(url: Option<string>, verb: string, data: Option<string>)

  /** `urllib.parse.urljoin(base, url)` */
  type UrlJoin = (string, string) -> string

  /** Whether the redirect turns the request into a GET without data (section 15.4 of RFC 9110). */
  predicate BecomesGet(code: int, verb: string) {
    code == 303 || ((code == 301 || code == 302) && verb == "POST")
  }

  /**
   * `_handle_redirect(status_code, headers, current_url, method, data)`: the
   * Location, resolved against the current URL; 303, and 301 or 302 after a
   * POST, go on as a GET without data, and everything else keeps the method
   * and the data.
   */
  function HandleRedirect(code: int, headers: Headers, current: string, verb: string, data: Option<string>, urljoin: UrlJoin): (r: Redirect)
    ensures r.url.Some? <==> Get(headers, "location").Some? && Get(headers, "location").value != []
    ensures r.url.Some? ==> r.url.value == urljoin(current, Get(headers, "location").value)
    ensures r.url.Some? && BecomesGet(code, verb) ==> r.verb == "GET" && r.data.None?
    ensures r.url.None? || !BecomesGet(code, verb) ==> r.verb == verb && r.data == data
  {
    var location := Get(headers, "location");
    if location.Some? && location.value != [] then
      var next := urljoin(current, location.value);
      if BecomesGet(code, verb) then Redirect(Some(next), "GET", None) else Redirect(Some(next), verb, data)
    else
      Redirect(None, verb, data)
  }

  // ---------------------------------------------------------------------
  // make_request

  /** The library calls the engine makes and does not define. */
  datatype Library = Library(urlparse: string -> Option<UrlParts>, urljoin: UrlJoin, inflate: Inflate)

  /**
   * `parse_url(url)` with the library's `urlparse`; None where either raises:
   * `urlparse` itself on a malformed netloc, or the port.
   */
  function Locate(lib: Library, url: string): (r: Option<Target>)
    ensures r.None? <==> lib.urlparse(url).None? || lib.urlparse(url).value.port.BadPort?
    ensures r.Some? ==> r == ParseUrl(lib.urlparse(url).value)
  {
    match lib.urlparse(url)
    case None => None
    case Some(parts) => ParseUrl(parts)
  }

  /** `allow_redirects`, `max_redirects` and `request_headers`. */
  datatype Options = Options(allowRedirects: bool, maxRedirects: int, extraHeaders: string)

  /** The defaults of `make_request`: `allow_redirects=True`, `max_redirects=5`, `request_headers=""`. */
  const DefaultOptions := Options(true, 5, "")

  /**
   * What the network does on one hop: connecting or the TLS handshake raises
   * (before the `try`, so the exception leaves `make_request`), sending or
   * receiving raises (inside the `try`), or the server answers these bytes.
   */
  datatype Hop = Refused | Dropped | Reply(bytes: string)

  /** Why `make_request` returned `(None, None, None)`. */
  datatype Failure = TransportError | MalformedResponse | TooManyRedirects

  /** The end of `make_request`: a response, `(None, None, None)`, or an exception. */
  datatype Outcome = Done(response: Response) | Failed(why: Failure) | Raised

  /** One request put on the wire: where it went, and its lines and body. */
  datatype Request = Request(target: Target, built: Built)

  /**
   * The loop's variables (`redirect_count`, `current_url`, `method`, `data`),
   * the cookie jar and its file, and the requests sent so far.
   */
  datatype Session = Session(count: nat, url: string, verb: string, data: Option<string>,
                             jar: Cookies.Jar, file: Option<string>, sent: seq<Request>)

  /** One pass of the loop body ends in `continue` or in leaving `make_request`. */
  datatype Step = Next(next: Session) | Stop(outcome: Outcome, last: Session)

  predicate IsRedirectCode(code: int) {
    code == 301 || code == 302 || code == 303 || code == 307 || code == 308
  }

  /** `get_cookies_for_url`, `_build_request_lines` and the send: the request joins the ones sent. */
  function Send(opts: Options, s: Session, t: Target): (r: Session)
    ensures r == s.(sent := r.sent) && |r.sent| == |s.sent| + 1 && r.sent[..|s.sent|] == s.sent
    ensures r.sent[|s.sent|] == Request(t, RequestLines(s.verb, t.host, t.path, s.data, opts.extraHeaders, Cookies.CookieHeader(s.jar, t.host)))
  {
    var cookie := Cookies.CookieHeader(s.jar, t.host);
    s.(sent := s.sent + [Request(t, RequestLines(s.verb, t.host, t.path, s.data, opts.extraHeaders, cookie))])
  }

  /** `if 'set-cookie' in headers: store_cookies(headers.get('set-cookie'), host)` */
  function ReceiveCookies(s: Session, headers: Headers, host: string): (r: Session)
    ensures Get(headers, "set-cookie").None? ==> r == s
    ensures Get(headers, "set-cookie").Some? ==>
      r == s.(jar := r.jar, file := Some(Cookies.Serialize(r.jar)))
      && r.jar == Cookies.StoreAll(s.jar, [Get(headers, "set-cookie").value], host)
    ensures Cookies.WellFormed(s.jar) ==> Cookies.WellFormed(r.jar)
  {
    match Get(headers, "set-cookie")
    case None => s
    case Some(value) =>
      var jar := Cookies.StoreAll(s.jar, Cookies.HeaderList(Cookies.One(value)), host);
      s.(jar := jar, file := Some(Cookies.Serialize(jar)))
  }

  /** The rest of the loop body once the server's bytes are in. */
  function Answer(lib: Library, opts: Options, s: Session, host: string, bytes: string): (r: Step)
    ensures r.Next? ==> r.next.count == s.count + 1 && r.next.sent == s.sent
    ensures r.Stop? ==> r.last.count == s.count && r.last.sent == s.sent
    ensures r.Stop? ==> r.outcome != Failed(TooManyRedirects) && !r.outcome.Raised?
    ensures Cookies.WellFormed(s.jar) && r.Next? ==> Cookies.WellFormed(r.next.jar)
    ensures Cookies.WellFormed(s.jar) && r.Stop? ==> Cookies.WellFormed(r.last.jar)
    ensures ParseResponse(bytes).None? ==> r == Stop(Failed(MalformedResponse), s)
    ensures ParseResponse(bytes).Some? && StatusCode(ParseResponse(bytes).value.status).None? ==>
      r == Stop(Failed(MalformedResponse), ReceiveCookies(s, ParseResponse(bytes).value.headers, host))
  {
    match ParseResponse(bytes)
    case None => Stop(Failed(MalformedResponse), s)
    case Some(resp) => Settle(lib, opts, ReceiveCookies(s, resp.headers, host), resp)
  }

  /**
   * After the cookies are stored: a redirect status, with redirects allowed
   * and a Location, continues at the new URL with the count one higher;
   * anything else returns the response with its body decoded.
   */
  function Settle(lib: Library, opts: Options, s: Session, resp: Response): (r: Step)
    ensures r.Next? ==> r.next == s.(count := s.count + 1, url := r.next.url, verb := r.next.verb, data := r.next.data)
    ensures r.Next? ==> r.next.url != []
    ensures r.Stop? ==> r.last == s && r.outcome != Failed(TooManyRedirects) && !r.outcome.Raised?
    ensures StatusCode(resp.status).None? ==> r == Stop(Failed(MalformedResponse), s)
  {
    var body := Decompress(lib.inflate, resp.headers, resp.body);
    match StatusCode(resp.status)
    case None => Stop(Failed(MalformedResponse), s)
    case Some(code) =>
      var final := Stop(Done(Response(resp.status, resp.headers, body)), s);
      if IsRedirectCode(code) && opts.allowRedirects then
        var redirect := HandleRedirect(code, resp.headers, s.url, s.verb, s.data, lib.urljoin);
        if redirect.url.Some? && redirect.url.value != [] then
          Next(s.(count := s.count + 1, url := redirect.url.value, verb := redirect.verb, data := redirect.data))
        else final
      else final
  }

  /** One pass of the `while` body of `make_request`, on hop number `count`. */
  function Exchange(lib: Library, opts: Options, hops: nat -> Hop, s: Session): (r: Step)
    ensures r.Next? ==> r.next.count == s.count + 1 && |r.next.sent| == |s.sent| + 1
    ensures r.Stop? ==> r.last.count == s.count && r.outcome != Failed(TooManyRedirects)
    ensures r.Stop? && r.outcome.Raised? ==> r.last == s
    ensures r.Stop? && !r.outcome.Raised? ==> |r.last.sent| == |s.sent| + 1
    ensures Cookies.WellFormed(s.jar) && r.Next? ==> Cookies.WellFormed(r.next.jar)
    ensures Cookies.WellFormed(s.jar) && r.Stop? ==> Cookies.WellFormed(r.last.jar)
    ensures Locate(lib, s.url).None? ==> r == Stop(Raised, s)
    ensures Locate(lib, s.url).Some? && hops(s.count).Refused? ==> r == Stop(Raised, s)
    ensures Locate(lib, s.url).Some? && hops(s.count).Dropped? ==>
      r == Stop(Failed(TransportError), Send(opts, s, Locate(lib, s.url).value))
  {
    match Locate(lib, s.url)
    case None => Stop(Raised, s)
    case Some(t) => Deliver(lib, opts, hops(s.count), s, t)
  }

  /** The hop to target `t`: connect, send the request, read the reply. */
  function Deliver(lib: Library, opts: Options, hop: Hop, s: Session, t: Target): (r: Step)
    ensures r.Next? ==> r.next.count == s.count + 1 && |r.next.sent| == |s.sent| + 1
    ensures r.Stop? ==> r.last.count == s.count && r.outcome != Failed(TooManyRedirects)
    ensures r.Stop? && r.outcome.Raised? ==> r.last == s
    ensures r.Stop? && !r.outcome.Raised? ==> |r.last.sent| == |s.sent| + 1
    ensures Cookies.WellFormed(s.jar) && r.Next? ==> Cookies.WellFormed(r.next.jar)
    ensures Cookies.WellFormed(s.jar) && r.Stop? ==> Cookies.WellFormed(r.last.jar)
    ensures hop.Refused? ==> r == Stop(Raised, s)
    ensures hop.Dropped? ==> r == Stop(Failed(TransportError), Send(opts, s, t))
    ensures hop.Reply? ==> r.Next? || r.last.sent == Send(opts, s, t).sent
  {
    match hop
    case Refused => Stop(Raised, s)
    case Dropped => Stop(Failed(TransportError), Send(opts, s, t))
    case Reply(bytes) => Answer(lib, opts, Send(opts, s, t), t.host, bytes)
  }

  /** The `while redirect_count <= max_redirects` loop from a given state to its end. */
  function Run(lib: Library, opts: Options, hops: nat -> Hop, s: Session): (r: (Outcome, Session))
    decreases if s.count <= opts.maxRedirects then opts.maxRedirects + 1 - s.count else 0
  {
    if s.count > opts.maxRedirects then (Failed(TooManyRedirects), s)
    else
      match Exchange(lib, opts, hops, s)
      case Stop(outcome, last) => (outcome, last)
      case Next(next) => Run(lib, opts, hops, next)
  }

  /** The state `make_request` starts from. */
  function Start(verb: string, url: string, data: Option<string>, jar: Cookies.Jar, file: Option<string>): Session {
    Session(0, url, verb, data, jar, file, [])
  }

  /** The state a pass leaves behind. */
  function After(step: Step): Session {
    match step
    case Next(next) => next
    case Stop(_, last) => last
  }

  /**
   * One pass of the `while` body of `make_request` on the jar `jar`: the URL
   * is parsed, the hop connects, the request is built with the jar's cookies
   * and sent, the answer is parsed, its Set-Cookie stored, its body decoded,
   * and a redirect followed or the response returned.
   */
  method Pass(jar: Cookies.CookieJar, lib: Library, opts: Options, hops: nat -> Hop,
              count: nat, currentUrl: string, currentVerb: string, currentData: Option<string>, sent: seq<Request>)
    returns (step: Step)
    requires jar.Valid()
    modifies jar
    ensures jar.Valid()
    ensures step == Exchange(lib, opts, hops, Session(count, currentUrl, currentVerb, currentData, old(jar.entries), old(jar.file), sent))
    ensures jar.entries == After(step).jar && jar.file == After(step).file
  {
    var s := Session(count, currentUrl, currentVerb, currentData, jar.entries, jar.file, sent);
    var target := Locate(lib, currentUrl);
    if target.None? {
      return Stop(Raised, s);
    }
    var t := target.value;
    var hop := hops(count);
    if hop.Refused? {
      return Stop(Raised, s);
    }
    var cookie := jar.CookiesFor(t.host, t.path);
    var lines, body := BuildRequestLines(currentVerb, t.host, t.path, currentData, opts.extraHeaders, cookie);
    var nowSent := sent + [Request(t, Built(lines, body))];
    assert Send(opts, s, t) == s.(sent := nowSent);
    if hop.Dropped? {
      return Stop(Failed(TransportError), s.(sent := nowSent));
    }
    step := Respond(jar, lib, opts, count, currentUrl, currentVerb, currentData, nowSent, t.host, hop.bytes);
  }

  /**
   * The rest of the pass once the server's bytes are in: they are parsed,
   * the Set-Cookie value is stored under the hop's host, the body is decoded,
   * and a redirect is followed or the response returned.
   */
  method Respond(jar: Cookies.CookieJar, lib: Library, opts: Options,
                 count: nat, currentUrl: string, currentVerb: string, currentData: Option<string>, sent: seq<Request>,
                 host: string, bytes: string)
    returns (step: Step)
    requires jar.Valid()
    modifies jar
    ensures jar.Valid()
    ensures step == Answer(lib, opts, Session(count, currentUrl, currentVerb, currentData, old(jar.entries), old(jar.file), sent), host, bytes)
    ensures jar.entries == After(step).jar && jar.file == After(step).file
  {
    var s := Session(count, currentUrl, currentVerb, currentData, jar.entries, jar.file, sent);
    var response := ReadResponse(bytes);
    if response.None? {
      return Stop(Failed(MalformedResponse), s);
    }
    var received := Remember(jar, s, response.value.headers, host);
    AnswerParsed(lib, opts, s, host, bytes, response.value);
    step := Settle(lib, opts, received, response.value);
  }

  /** `if 'set-cookie' in headers: store_cookies(headers.get('set-cookie'), host)` on the jar object. */
  method Remember(jar: Cookies.CookieJar, s: Session, headers: Headers, host: string) returns (received: Session)
    requires jar.Valid() && jar.entries == s.jar && jar.file == s.file
    modifies jar
    ensures jar.Valid()
    ensures received == ReceiveCookies(s, headers, host)
    ensures jar.entries == received.jar && jar.file == received.file
  {
    var setCookie := Get(headers, "set-cookie");
    if setCookie.Some? {
      jar.Store(Cookies.One(setCookie.value), host);
    }
    received := s.(jar := jar.entries, file := jar.file);
  }

  /** A parsed reply: the cookies are stored, then the status decides. */
  lemma AnswerParsed(lib: Library, opts: Options, s: Session, host: string, bytes: string, resp: Response)
    requires ParseResponse(bytes) == Some(resp)
    ensures Answer(lib, opts, s, host, bytes) == Settle(lib, opts, ReceiveCookies(s, resp.headers, host), resp)
  {
  }

  /**
   * `make_request(method, url, data, allow_redirects, max_redirects,
   * request_headers=...)` against the cookie jar `jar`: the hops the network
   * gives are `hops(0)`, `hops(1)`, ...; `sent` is every request written.
   */
  method MakeRequest(jar: Cookies.CookieJar, lib: Library, opts: Options, hops: nat -> Hop,
                     verb: string, url: string, data: Option<string>)
    returns (outcome: Outcome, sent: seq<Request>)
    requires jar.Valid()
    modifies jar
    ensures jar.Valid()
    ensures outcome == Run(lib, opts, hops, Start(verb, url, data, old(jar.entries), old(jar.file))).0
    ensures sent == Run(lib, opts, hops, Start(verb, url, data, old(jar.entries), old(jar.file))).1.sent
    ensures jar.entries == Run(lib, opts, hops, Start(verb, url, data, old(jar.entries), old(jar.file))).1.jar
    ensures jar.file == Run(lib, opts, hops, Start(verb, url, data, old(jar.entries), old(jar.file))).1.file
  {
    ghost var result := Run(lib, opts, hops, Start(verb, url, data, jar.entries, jar.file));
    var count: nat := 0;
    var currentUrl := url;
    var currentVerb := verb;
    var currentData := data;
    sent := [];
    while count <= opts.maxRedirects
      invariant jar.Valid()
      invariant Run(lib, opts, hops, Session(count, currentUrl, currentVerb, currentData, jar.entries, jar.file, sent)) == result
      decreases opts.maxRedirects + 1 - count
    {
      ghost var s := Session(count, currentUrl, currentVerb, currentData, jar.entries, jar.file, sent);
      var step := Pass(jar, lib, opts, hops, count, currentUrl, currentVerb, currentData, sent);
      match step
      case Stop(o, last) =>
        RunStop(lib, opts, hops, s, o, last);
        return o, last.sent;
      case Next(next) =>
        RunNext(lib, opts, hops, s, next);
        count := next.count;
        currentUrl := next.url;
        currentVerb := next.verb;
        currentData := next.data;
        sent := next.sent;
    }
    return Failed(TooManyRedirects), sent;
  }

  /** A pass that leaves `make_request` ends the loop. */
  lemma RunStop(lib: Library, opts: Options, hops: nat -> Hop, s: Session, outcome: Outcome, last: Session)
    requires s.count <= opts.maxRedirects && Exchange(lib, opts, hops, s) == Stop(outcome, last)
    ensures Run(lib, opts, hops, s) == (outcome, last)
  {
  }

  /** A pass that ends in `continue` leaves the rest of the loop to the next state. */
  lemma RunNext(lib: Library, opts: Options, hops: nat -> Hop, s: Session, next: Session)
    requires s.count <= opts.maxRedirects && Exchange(lib, opts, hops, s) == Next(next)
    ensures Run(lib, opts, hops, s) == Run(lib, opts, hops, next)
  {
  }

  // ---------------------------------------------------------------------
  // What the loop promises

  /**
   * From a state whose requests match its count, the loop ends with one
   * request per pass: the count rises by one per followed redirect, it ends
   * past `max_redirects` exactly when the result is "too many redirects",
   * and every other ending except an exception put one more request on the
   * wire than it followed redirects.
   */
  lemma {:induction false} RunBounds(lib: Library, opts: Options, hops: nat -> Hop, s: Session)
    requires |s.sent| == s.count
    ensures s.count <= Run(lib, opts, hops, s).1.count
    ensures Run(lib, opts, hops, s).0 == Failed(TooManyRedirects) <==> Run(lib, opts, hops, s).1.count > opts.maxRedirects
    ensures s.count <= opts.maxRedirects + 1 ==> Run(lib, opts, hops, s).1.count <= opts.maxRedirects + 1
    ensures Run(lib, opts, hops, s).0 == Failed(TooManyRedirects) || Run(lib, opts, hops, s).0.Raised? ==>
      |Run(lib, opts, hops, s).1.sent| == Run(lib, opts, hops, s).1.count
    ensures Run(lib, opts, hops, s).0 != Failed(TooManyRedirects) && !Run(lib, opts, hops, s).0.Raised? ==>
      |Run(lib, opts, hops, s).1.sent| == Run(lib, opts, hops, s).1.count + 1
    decreases if s.count <= opts.maxRedirects then opts.maxRedirects + 1 - s.count else 0
  {
    if s.count <= opts.maxRedirects {
      match Exchange(lib, opts, hops, s)
      case Stop(outcome, last) =>
        RunStop(lib, opts, hops, s, outcome, last);
      case Next(next) =>
        RunNext(lib, opts, hops, s, next);
        RunBounds(lib, opts, hops, next);
    }
  }

  /**
   * `make_request` itself: at most `max_redirects + 1` requests, none at all
   * when `max_redirects` is negative, and "too many redirects" exactly when
   * the `(max_redirects + 1)`-th hop also redirected.
   */
  lemma MakeRequestHops(lib: Library, opts: Options, hops: nat -> Hop,
                        verb: string, url: string, data: Option<string>, jar: Cookies.Jar, file: Option<string>)
    ensures opts.maxRedirects < 0 ==>
      Run(lib, opts, hops, Start(verb, url, data, jar, file)) == (Failed(TooManyRedirects), Start(verb, url, data, jar, file))
    ensures opts.maxRedirects >= 0 ==> |Run(lib, opts, hops, Start(verb, url, data, jar, file)).1.sent| <= opts.maxRedirects + 1
    ensures opts.maxRedirects >= 0 ==>
      (Run(lib, opts, hops, Start(verb, url, data, jar, file)).0 == Failed(TooManyRedirects) <==>
       Run(lib, opts, hops, Start(verb, url, data, jar, file)).1.count == opts.maxRedirects + 1)
    ensures Run(lib, opts, hops, Start(verb, url, data, jar, file)).0 == Failed(TooManyRedirects) ==>
      |Run(lib, opts, hops, Start(verb, url, data, jar, file)).1.sent| == Run(lib, opts, hops, Start(verb, url, data, jar, file)).1.count
  {
    RunBounds(lib, opts, hops, Start(verb, url, data, jar, file));
  }

  /**
   * `make_request` called with its defaults puts at most six requests on the
   * wire, and gives up as "too many redirects" exactly when six redirects
   * were followed, after the sixth request.
   */
  lemma DefaultHops(lib: Library, hops: nat -> Hop, verb: string, url: string, jar: Cookies.Jar, file: Option<string>)
    ensures |Run(lib, DefaultOptions, hops, Start(verb, url, None, jar, file)).1.sent| <= 6
    ensures Run(lib, DefaultOptions, hops, Start(verb, url, None, jar, file)).0 == Failed(TooManyRedirects) <==>
            Run(lib, DefaultOptions, hops, Start(verb, url, None, jar, file)).1.count == 6
    ensures Run(lib, DefaultOptions, hops, Start(verb, url, None, jar, file)).0 == Failed(TooManyRedirects) ==>
            |Run(lib, DefaultOptions, hops, Start(verb, url, None, jar, file)).1.sent| == 6
  {
    MakeRequestHops(lib, DefaultOptions, hops, verb, url, None, jar, file);
  }

  /**
   * The response is returned as it stands when redirects are off, the status
   * is not a redirect, or the Location is missing or resolves to nothing.
   */
  lemma SettleFinal(lib: Library, opts: Options, s: Session, resp: Response, code: int)
    requires StatusCode(resp.status) == Some(code)
    requires !opts.allowRedirects || !IsRedirectCode(code) || Get(resp.headers, "location").None?
             || Get(resp.headers, "location") == Some("") || lib.urljoin(s.url, Get(resp.headers, "location").value) == []
    ensures Settle(lib, opts, s, resp) == Stop(Done(Response(resp.status, resp.headers, Decompress(lib.inflate, resp.headers, resp.body))), s)
  {
  }

  /** Otherwise the loop goes on at the resolved Location, as `_handle_redirect` rewrote the method and the data. */
  lemma SettleFollows(lib: Library, opts: Options, s: Session, resp: Response, code: int, location: string)
    requires StatusCode(resp.status) == Some(code) && IsRedirectCode(code) && opts.allowRedirects
    requires Get(resp.headers, "location") == Some(location) && location != [] && lib.urljoin(s.url, location) != []
    ensures Settle(lib, opts, s, resp).Next?
    ensures Settle(lib, opts, s, resp).next.count == s.count + 1
    ensures Settle(lib, opts, s, resp).next.url == lib.urljoin(s.url, location)
    ensures BecomesGet(code, s.verb) ==> Settle(lib, opts, s, resp).next.verb == "GET" && Settle(lib, opts, s, resp).next.data.None?
    ensures !BecomesGet(code, s.verb) ==> Settle(lib, opts, s, resp).next.verb == s.verb && Settle(lib, opts, s, resp).next.data == s.data
  {
  }

  /**
   * The loop only goes on after an allowed redirect status whose Location is
   * present: the next URL is `urljoin` of the current one and the Location,
   * and the method and data are those `_handle_redirect` gives.
   */
  lemma SettleNext(lib: Library, opts: Options, s: Session, resp: Response)
    requires Settle(lib, opts, s, resp).Next?
    ensures opts.allowRedirects && StatusCode(resp.status).Some? && IsRedirectCode(StatusCode(resp.status).value)
    ensures Get(resp.headers, "location").Some? && Get(resp.headers, "location").value != []
    ensures Settle(lib, opts, s, resp).next.url == lib.urljoin(s.url, Get(resp.headers, "location").value)
    ensures (Settle(lib, opts, s, resp).next.verb, Settle(lib, opts, s, resp).next.data) ==
      (if BecomesGet(StatusCode(resp.status).value, s.verb) then ("GET", None) else (s.verb, s.data))
  {
  }

  /**
   * Once the URL parses and the connection is made, the pass writes exactly
   * one request, whose `Cookie` header is computed from the jar as it was
   * when the pass began.
   */
  lemma ExchangeSends(lib: Library, opts: Options, hops: nat -> Hop, s: Session, t: Target)
    requires Locate(lib, s.url) == Some(t) && !hops(s.count).Refused?
    ensures After(Exchange(lib, opts, hops, s)).sent ==
      s.sent + [Request(t, RequestLines(s.verb, t.host, t.path, s.data, opts.extraHeaders, Cookies.CookieHeader(s.jar, t.host)))]
  {
  }

  /**
   * A pass that follows a redirect has stored that response's `Set-Cookie`
   * under the host it was sent to (and rewritten the file) before the next
   * pass computes its `Cookie` header from the jar.
   */
  lemma RedirectStoresCookies(lib: Library, opts: Options, hops: nat -> Hop, s: Session, next: Session,
                              t: Target, bytes: string, resp: Response)
    requires Exchange(lib, opts, hops, s) == Next(next)
    requires Locate(lib, s.url) == Some(t) && hops(s.count) == Reply(bytes) && ParseResponse(bytes) == Some(resp)
    ensures Get(resp.headers, "set-cookie").None? ==> next.jar == s.jar && next.file == s.file
    ensures Get(resp.headers, "set-cookie").Some? ==>
      next.jar == Cookies.StoreAll(s.jar, [Get(resp.headers, "set-cookie").value], t.host)
      && next.file == Some(Cookies.Serialize(next.jar))
  {
    var sent := Send(opts, s, t);
    assert Exchange(lib, opts, hops, s) == Settle(lib, opts, ReceiveCookies(sent, resp.headers, t.host), resp);
  }

  /**
   * A cookie set on a redirect, filed under a domain the host ends with, is
   * sent back to the same host on the next hop, unless a domain after it in
   * jar order that the host ends with holds the name.
   */
  lemma RedirectCarriesCookie(lib: Library, opts: Options, hops: nat -> Hop, s: Session, next: Session,
                              t: Target, bytes: string, resp: Response, c: Cookies.SetCookie)
    requires Exchange(lib, opts, hops, s) == Next(next)
    requires Locate(lib, s.url) == Some(t) && hops(s.count) == Reply(bytes) && ParseResponse(bytes) == Some(resp)
    requires Get(resp.headers, "set-cookie").Some?
    requires Cookies.ParseSetCookie(Get(resp.headers, "set-cookie").value, t.host) == Some(c) && EndsWith(t.host, c.domain)
    requires Cookies.WellFormed(s.jar)
    requires forall j :: IndexOf(s.jar, c.domain) < j < |s.jar| && EndsWith(t.host, s.jar[j].0) ==> c.name !in Keys(s.jar[j].1)
    ensures Get(Cookies.Collect(next.jar, t.host), c.name) == Some(c.value)
    ensures c.name + "=" + c.value in Cookies.CookieParts(next.jar, t.host)
  {
    RedirectStoresCookies(lib, opts, hops, s, next, t, bytes, resp);
    Cookies.StoreThenLookup(s.jar, Get(resp.headers, "set-cookie").value, t.host, c);
    Cookies.CollectedSent(next.jar, t.host, c.name, c.value);
  }
}
