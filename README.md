# curl_clone engine and cookie jar in Dafny

This project models the two parts of `curl_clone` that hold its logic:
- the HTTP/1.1 engine of `curlclone/http_client.py`;
- the cookie jar of `curlclone/cookies.py`.

The engine part covers:
- URL defaulting;
- the request `_build_request_lines` writes;
- the split of a response into its header block and body;
- the header parser;
- the content-encoding dispatch;
- the redirect rule;
- the bounded redirect loop of `make_request`.

The cookie jar part covers the process-wide `cookie_jar` and its file `cookies.txt`, with the four operations of the module:
- load;
- save;
- lookup for a host;
- store of `Set-Cookie` values.

Files:
- `wrappers.dfy`: `Option`.
- `text.dfy`: the Python `str` operations the code relies on, as Python defines them:
  - `strip` (with the full `isspace` set) and `lower`;
  - `split(sep)`, `split(sep, 1)` and `split()`;
  - `join`, `startswith` and `endswith`;
  - `int()` on decimal digits and `str()` on naturals;
  - text-mode line iteration.
- `dicts.dfy`: a Python `dict` with string keys, as an insertion-ordered sequence of pairs. The order decides what the cookie file lists first and which value a lookup reports. Provides `d[k] = v`, `d.get(k)` and `d.update(other)`.
- `cookies.dfy`: the jar as a value (`Jar`).
  - Pure functions say what load, save, lookup and store compute, and lemmas state what they promise.
  - The class `CookieJar` holds `cookie_jar` (field `entries`) and the file text (field `file`). Its methods do the same work step by step, in the source's loops, and are proved equal to the functions.
- `http_client.dfy`: the engine.
  - `parse_headers`, `_parse_response` and `_build_request_lines` are methods with loops or appends, proved equal to specification functions.
  - `_handle_compression` and `_handle_redirect` are functions.
  - The `make_request` loop is the method `MakeRequest`, which works on a `CookieJar`. It is proved equal to the function `Run` over a `Session`. A `Session` holds:
    - the loop variables (`redirect_count`, `current_url`, `method`, `data`);
    - the jar and the file;
    - every request put on the wire.
  - The network is a function `hops: nat -> Hop`. Each hop is one of:
    - the connection or TLS handshake raises;
    - sending or receiving raises;
    - the server answers these bytes.
  - `urlparse`, `urljoin` and `zlib.decompress` are function-valued parameters (`Library`). `urlparse` is partial: `None` stands for the `ValueError` it raises on a malformed netloc. `zlib.decompress` is partial: `None` stands for `zlib.error`.
  - `make_request` always returns `(None, None, None)` on failure. The model's `Outcome` also says why: `Failed(TransportError)`, `Failed(MalformedResponse)` or `Failed(TooManyRedirects)`.
  - `Raised` stands for an exception that leaves `make_request`. Three things raise outside its `try`: `urlparse` on a malformed URL, reading a bad port in `parse_url`, and connecting.
  - `DefaultOptions` holds the defaults of `make_request`: `allow_redirects=True`, `max_redirects=5` and `request_headers=""`.

## Model

| member | source | states |
|---|---|---|
| HttpClient.HostPart | curlclone/http_client.py:22-24 | the host is the netloc up to its first `:`, holds no `:`, and is a prefix of the netloc followed by `:` when shorter |
| HttpClient.PathAndQuery | curlclone/http_client.py:18-20 | the path is `/` for an empty path and the path itself otherwise; with a query it is that, then `?`, then the query |
| HttpClient.ParseUrl | curlclone/http_client.py:10-25 | the result is None exactly when reading the port raises; the scheme defaults to `http`; the port is the explicit non-zero one, else 443 for `https` and 80 otherwise; host and path as above |
| HttpClient.Locate | curlclone/http_client.py:15-25 | `parse_url(url)` fails (raises) exactly when `urlparse` raises or the port is bad; otherwise it is `ParseUrl` of what `urlparse` returned |
| HttpClient.HeaderField | curlclone/http_client.py:37-38 | a line gives a field exactly when it holds a `:`; the field is the text before the first `:`, stripped and lower-cased, and the text after it, stripped |
| HttpClient.HeaderFields | curlclone/http_client.py:35-38 | the fields of the lines after the status line form a dict (no name twice) |
| HttpClient.ParseHeaderBlock | curlclone/http_client.py:27-39 | the status line is the first CRLF-separated line (a prefix of the block without CRLF) and the headers are `HeaderFields` of the other lines; the block raises exactly when those lines do |
| HttpClient.ParseHeaders | curlclone/http_client.py:27-39 | the loop that fills the dict line by line and raises at the first bad line computes `ParseHeaderBlock` |
| HttpClient.HeaderFieldsNone | curlclone/http_client.py:35-37 | the header block raises exactly when some non-empty line after the status line has no `:` |
| HttpClient.HeaderFieldsLast | curlclone/http_client.py:35-38 | a later duplicate overwrites an earlier one: a name has the value of the last line naming it |
| HttpClient.HeaderFieldsAbsent | curlclone/http_client.py:35-38 | a name no line gives is absent from the dict |
| HttpClient.HeaderFieldsNormalised | curlclone/http_client.py:38 | every stored name is lower case and every stored value is stripped |
| HttpClient.ParseResponse | curlclone/http_client.py:89-96 | no CRLFCRLF means no response; with one, the bytes parse exactly when the text before the first CRLFCRLF parses as a header block, and then the bytes are `head + CRLFCRLF + body` where no CRLFCRLF starts inside `head`, so the body is everything after the first CRLFCRLF (a leading blank line included), with the status line and headers of that head |
| HttpClient.ReadResponse | curlclone/http_client.py:89-96 | the split followed by the `parse_headers` loop computes `ParseResponse` |
| HttpClient.StatusCodeOf | curlclone/http_client.py:206 | `int(status_line.split()[1])` of `version code reason` is the code |
| HttpClient.RequestLayout | curlclone/http_client.py:42-69 | layout of the request, in order: the request line and five fixed headers; a Cookie line iff the cookie is non-empty; the caller's header text iff non-empty; Content-Type and the body's Content-Length iff POST with non-empty data (only then is the body non-empty); two empty lines |
| HttpClient.BuildRequestLines | curlclone/http_client.py:42-69 | the lines appended one by one and the body are exactly `RequestLines`, whose layout `RequestLayout` states |
| HttpClient.RequestReadsBack | curlclone/http_client.py:168-169 | the CRLF-joined request, read with the client's own response framing, splits into its head and exactly its body; its first line is the request line, and a POST's `content-length` field is the decimal length of the body |
| HttpClient.Decompress | curlclone/http_client.py:98-116 | any encoding other than `gzip` or `deflate` keeps the body; gzip inflates with the gzip wrapper or keeps the body; deflate tries the zlib wrapper, then raw deflate, then keeps the body |
| HttpClient.HandleRedirect | curlclone/http_client.py:118-136 | a URL is returned iff the Location is present and non-empty, and it is `urljoin(current, location)`; 303, or 301/302 after POST, becomes GET without data; everything else keeps the method and data |
| HttpClient.Send | curlclone/http_client.py:166-169 | a hop writes one request: the one built from the current method and data, the jar's Cookie header for the host, and the caller's headers |
| HttpClient.ReceiveCookies | curlclone/http_client.py:199-200 | without `set-cookie` nothing changes; with it, the value is stored under the hop's host and the file is rewritten from the new jar; the jar stays a dict of dicts |
| HttpClient.Answer | curlclone/http_client.py:190-235 | unparsable bytes give `(None, None, None)` with nothing stored; a status line without an integer second word gives `(None, None, None)` after the Set-Cookie was stored and the file rewritten; a redirect raises the count by one, and any other ending keeps it; never "too many redirects" or an exception |
| HttpClient.Settle | curlclone/http_client.py:203-217 | a status line without an integer second word gives `(None, None, None)`; a followed redirect changes only the count (by one), the URL (to a non-empty one), the method and the data; a final answer leaves the state as it is |
| HttpClient.Exchange | curlclone/http_client.py:155-235 | one pass of the loop body: a URL that `urlparse` or the port rejects, or a refused connection, raises with the state untouched; a failed send or receive returns `(None, None, None)` with the request written; a redirect raises the count by 1 and writes one request; every other ending writes exactly one request; the jar stays well formed |
| HttpClient.Deliver | curlclone/http_client.py:158-235 | once the URL has parsed: a refused connection raises with the state untouched, a failed send or receive returns `(None, None, None)` after writing the request, and a reply writes the request before it is read |
| HttpClient.Pass | curlclone/http_client.py:155-217 | the loop body run on the jar object computes `Exchange`, and leaves the jar and its file as the pass's state says |
| HttpClient.Respond | curlclone/http_client.py:190-217 | the part of the pass after the bytes arrive computes `Answer` on the jar object |
| HttpClient.Remember | curlclone/http_client.py:199-200 | storing the Set-Cookie value on the jar object computes `ReceiveCookies` |
| HttpClient.MakeRequest | curlclone/http_client.py:139-241 | the `while` loop computes `Run`: its outcome, the requests written, and the jar and file it leaves |
| HttpClient.RunBounds | curlclone/http_client.py:151-241 | the count never falls and never passes `max_redirects + 1`; "too many redirects" iff the final count exceeds `max_redirects`; an exception or "too many redirects" means one request per followed redirect, and every other ending one more |
| HttpClient.MakeRequestHops | curlclone/http_client.py:151-241 | a negative `max_redirects` gives "too many redirects" with no hop; otherwise at most `max_redirects + 1` requests, and "too many redirects" iff the count ends at `max_redirects + 1` |
| HttpClient.DefaultHops | curlclone/http_client.py:139-241 | with the defaults (`max_redirects=5`) at most six requests go out, and "too many redirects" comes exactly when six redirects were followed, after six requests |
| HttpClient.SettleFinal | curlclone/http_client.py:203-217 | with redirects off, a non-redirect status, or a missing or empty Location, the response is returned with its decoded body |
| HttpClient.SettleFollows | curlclone/http_client.py:207-214 | otherwise the loop continues at the resolved Location with the count one higher, and the method and data are rewritten by the redirect rule |
| HttpClient.SettleNext | curlclone/http_client.py:206-214 | conversely, the loop goes on only after a redirect status with redirects allowed and a non-empty Location; the next URL is `urljoin(current_url, location)` and the method and data are those `_handle_redirect` gives |
| HttpClient.ExchangeSends | curlclone/http_client.py:155-169 | once the URL parses and the connection is made, the pass writes exactly one request, whose Cookie header comes from the jar as the pass found it |
| HttpClient.RedirectStoresCookies | curlclone/http_client.py:166-214 | a pass that follows a redirect has stored its Set-Cookie under the hop's host, and rewritten the file, in the state the next pass builds its Cookie header from |
| HttpClient.RedirectCarriesCookie | curlclone/http_client.py:166-214 | a cookie set on a redirect, filed under a domain the host ends with, is collected for the same host on the next hop with its value and is the item `name=value` of its Cookie header, unless a domain after it in jar order that the host ends with holds the name |
| Cookies.Assign | curlclone/cookies.py:24-26 | `jar[domain][name] = value`: that entry now holds the value, every other entry keeps its own, a new domain goes last, and within the domain a new name goes last and a present one keeps its place |
| Cookies.SplitFields | curlclone/cookies.py:23 | a line that unpacks is `domain TAB name TAB value`, with no tab in the domain or the name; extra tabs stay in the value |
| Cookies.SplitFieldsNone | curlclone/cookies.py:22-28 | the unpacking raises exactly when the line holds fewer than two tabs |
| Cookies.LoadLineSkipped | curlclone/cookies.py:18-28 | a line that is empty once stripped, or whose stripped form holds fewer than two tabs, leaves the jar as it was |
| Cookies.LoadLines | curlclone/cookies.py:18-28 | the line loop keeps the jar a dict of non-empty dicts |
| Cookies.LoadText | curlclone/cookies.py:10-30 | the jar is reset; a missing file leaves it empty |
| Cookies.LoadLinesAppend | curlclone/cookies.py:18-28 | the line loop reads line by line: later lines continue from the jar the earlier ones left |
| Cookies.LoadCommentLine | curlclone/cookies.py:19-21 | a line whose stripped form starts with `#` is skipped |
| Cookies.LoadSkippedLines | curlclone/cookies.py:19-21 | the two comment lines of the file and an empty line are skipped |
| Cookies.LoadEntryLine | curlclone/cookies.py:19-26 | the line saved for a storable cookie loads back as that assignment |
| Cookies.LoadJarLines | curlclone/cookies.py:23-40 | the cookie lines of a storable jar load back into that jar, in order |
| Cookies.LoadSaveRoundTrip | curlclone/cookies.py:10-42 | loading the saved text gives back the same jar, in the same order, for every jar whose cookies survive the file format (no tab before the value, no line break, a domain not starting with white space or `#`, a value not ending in white space) |
| Cookies.Collect | curlclone/cookies.py:46-50 | the cookies sent form a dict: each name once |
| Cookies.CollectGetLast | curlclone/cookies.py:46-50 | a name is sent with the value of the last domain, in jar order, that the host ends with and that holds the name |
| Cookies.CollectGetNone | curlclone/cookies.py:46-50 | a name no matching domain holds is not sent |
| Cookies.CookieHeaderEmpty | curlclone/cookies.py:44-51 | the Cookie header is `""` exactly when no jar domain is a suffix of the host |
| Cookies.HeaderList | curlclone/cookies.py:55-56 | a single value is a one-element list; a list is used as it is |
| Cookies.CookieDomainDefault | curlclone/cookies.py:68-75 | without a `Domain=` attribute the cookie goes under the default domain |
| Cookies.CookieDomainLast | curlclone/cookies.py:68-75 | otherwise it goes under the domain of the last `Domain=` attribute |
| Cookies.DomainSegment | curlclone/cookies.py:70-75 | ` key=d`, for any upper/lower-case spelling `key` of `domain`, is a domain attribute naming `d` less exactly one leading dot |
| Cookies.AttrDomainOf | curlclone/cookies.py:69-75 | every domain attribute, however spaced or spelled, is `key=rest` once stripped with `key` a spelling of `domain`, and names `rest` stripped, less exactly one leading dot |
| Cookies.ParseSetCookie | curlclone/cookies.py:59-75 | a value is skipped exactly when its first `;`-segment, stripped, has no `=`; otherwise the name and value are the stripped texts before and after that segment's first `=`, and the domain is the one the attribute loop leaves |
| Cookies.ParsePlainSetCookie | curlclone/cookies.py:59-75 | `name=value` is that cookie under the default domain; the split is at the first `=`, so the value may hold more `=` |
| Cookies.ParseDomainSetCookie | curlclone/cookies.py:59-75 | `name=value; Domain=d` is that cookie under `d` less one leading dot |
| Cookies.StoreOne | curlclone/cookies.py:58-78 | filing one value keeps the jar a dict of non-empty dicts |
| Cookies.StoreAll | curlclone/cookies.py:58-78 | so does the whole loop |
| Cookies.StoreAllOther | curlclone/cookies.py:58-78 | an entry that no value files keeps its value |
| Cookies.AssignThenCollect | curlclone/cookies.py:47-78 | a cookie filed under a domain the host ends with is collected with that value and `name=value` is an item of the host's Cookie header, unless a domain after it in jar order that the host ends with holds the name; an earlier one, such as a parent domain, is overridden |
| Cookies.StoreThenLookup | curlclone/cookies.py:44-81 | a stored Set-Cookie value from a host, filed under a domain the host ends with, is collected for that host with its value and `name=value` is an item of its next Cookie header, unless a domain after it in jar order that the host ends with holds the name |
| Cookies.StorePlainThenLookup | curlclone/cookies.py:44-81 | a plain `name=value` is filed under the host that sent it and so comes back to that host as the item `name=value`, under the same later-domain condition |
| Cookies.CollectedSent | curlclone/cookies.py:46-51 | every name the merged dict gives a value is sent as the item `name=value` |
| Cookies.StoreDomainThenLookup | curlclone/cookies.py:44-81 | `name=value; Domain=d` from a host that ends with `d` (less its dot) is sent back to that host as the item `name=value`, under the same condition |
| Cookies.CookieJar.constructor | curlclone/cookies.py:8 | the jar starts empty |
| Cookies.CookieJar.Load | curlclone/cookies.py:10-30 | the reset and the line loop compute `LoadText` of the file |
| Cookies.CookieJar.Save | curlclone/cookies.py:32-42 | the nested write loops leave the file holding exactly the two comment lines, then `domain TAB name TAB value` per cookie in jar order, each ending in a newline |
| Cookies.CookieJar.CookiesFor | curlclone/cookies.py:44-51 | the `update` loop and the join compute `CookieHeader`; the path plays no part |
| Cookies.CookieJar.Store | curlclone/cookies.py:53-81 | the loop computes `StoreAll`, keeps the jar a dict of dicts, and rewrites the file exactly once, after every value, even when all were skipped |
| Dicts.Put | curlclone/cookies.py:26 | `d[k] = v`: `k` holds `v`, no other key changes, a present key keeps its place and a new one goes last |
| Dicts.PutPut | curlclone/cookies.py:26 | assigning a key twice leaves the second value in the first assignment's place |
| Dicts.UpdateGet | curlclone/cookies.py:50 | after `update`, a key of `other` has its value from `other` and every other key keeps its own |
| Text.StripTrims | curlclone/http_client.py:38 | `strip()` is a slice of the text with only white space outside it, starting and ending with no white space |
| Text.SplitOnce | curlclone/http_client.py:37 | `split(c, 1)` unpacks exactly when `c` occurs; it cuts at the first `c` |
| Text.SplitAtFirst | curlclone/http_client.py:93 | `split(p, 1)` unpacks exactly when `p` occurs; it cuts at the first occurrence |
| Text.FirstCutUnique | curlclone/http_client.py:93 | two cuts of a text before a first `p` are the same cut, so the text before and after the first `p` are fixed |
| Text.Split | curlclone/http_client.py:33 | the pieces of `split(p)` join back into the text, and none holds `p`; for a separator that cannot overlap itself this fixes the pieces |
| Text.WordsRuns | curlclone/http_client.py:206 | `split()` gives the maximal runs of non-white-space characters of the text, in order |
| Text.ParseDecimal | curlclone/http_client.py:206 | `int(str(n)) == n` |
| Text.SplitTerminated | curlclone/cookies.py:36-40 | reading back newline-terminated lines gives those lines and an empty one |

## Left out

- Sockets and TLS are not modelled: `create_connection`, `wrap_socket`, `sendall`, the `recv` loop, timeouts and `sock.close()`. Each hop is a canned outcome, and a connect or TLS failure is an exception that leaves `make_request`.
- The `zlib` algorithms are not modelled; only the fallback dispatch is. `urlparse` and `urljoin` are parameters whose behaviour is not modelled.
- `urljoin` is total here. Where it raises inside the `try`, the code returns `(None, None, None)`; the model does not capture that path.
- The other defaults of `make_request` (`data=None`, `verbose=False`) are not separate: the caller gives the data, and verbose output is left out.
- File system errors are not modelled. The file is a string, or absent. A failed read or write (`IOError`, which the code prints and ignores) is not.
- Character encodings are not modelled. Bytes are characters and UTF-8 encoding is the identity. So `Content-Length` is the length of the data in characters, which equals its byte length for ASCII data only. `errors='ignore'` decoding is not modelled.
- Verbose tracing, every warning printed to stderr, and the traceback are left out.
- `curlclone/cli.py` is not part of this model.
- Text.Lower: lower-cases ASCII letters only, where Python's `lower()` also folds other letters.
- Text.ParseInt: accepts only ASCII digits, where Python's `int()` also accepts other Unicode digits.
- Text.SplitLines: cuts a file at every CR and LF, where Python's text mode yields one line per `\n`, `\r\n` or `\r`. The two differ only by extra empty lines, which the loader skips.
- HttpClient.RequestReadsBack: requires the caller's header text to be one line holding a `:`. `request_headers` is a string that the code appends verbatim, so other texts can break the framing.
- The model's `Outcome` keeps the reason for `(None, None, None)`, which the code only prints.
- Cookies.AttrDomain: has no contract of its own. `AttrDomainOf` states what it gives for every domain attribute, and `DomainSegment` for the spelling ` Domain=d`.
- Cookies.CookieDomain: has no contract of its own. `CookieDomainDefault` and `CookieDomainLast` state both of its cases.
- The `path` attribute of `Set-Cookie`, and the `path` argument of `get_cookies_for_url`, play no part, as in the code.
- A hop whose send or receive raises still lists its request as written: the model does not tell a failed send from a failed receive.
