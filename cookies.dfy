/**
 * The cookie jar of the client: a process-wide mapping from domain to
 * (cookie name -> value), loaded from and written back to a tab-separated
 * text file `cookies.txt`, consulted for the `Cookie` header of every request
 * and filled from every `Set-Cookie` response header.
 *
 * The jar's state is an insertion-ordered dict of insertion-ordered dicts
 * (`Jar`); the pure functions below say what each operation computes on that
 * state, and the class `CookieJar` holds the state and the file and performs
 * the operations step by step, as the module does.
 */
module Cookies {
  import opened Wrappers
  import opened Text
  import opened Dicts

  /** `cookie_jar`: domain -> (name -> value), both levels in insertion order. */
  type Jar = Dict<Dict<string>>

  /** Every jar the module builds is a dict of non-empty dicts. */
  predicate WellFormed(jar: Jar) {
    UniqueKeys(jar) && forall i :: 0 <= i < |jar| ==> jar[i].1 != [] && UniqueKeys(jar[i].1)
  }

  /** `cookie_jar.get(domain, {}).get(name)` */
  function Lookup(jar: Jar, domain: string, name: string): Option<string> {
    match Get(jar, domain)
    case None => None
    case Some(names) => Get(names, name)
  }

  /**
   * `if domain not in cookie_jar: cookie_jar[domain] = {}` then
   * `cookie_jar[domain][name] = value`: that one entry is set, every other
   * entry keeps its value, and a new domain goes after the existing ones.
   */
  function Assign(jar: Jar, domain: string, name: string, value: string): (r: Jar)
    ensures Lookup(r, domain, name) == Some(value)
    ensures forall d, n :: (d, n) != (domain, name) ==> Lookup(r, d, n) == Lookup(jar, d, n)
    ensures Keys(r) == if domain in Keys(jar) then Keys(jar) else Keys(jar) + [domain]
    ensures Get(r, domain).Some?
    ensures Keys(Get(r, domain).value) ==
      if name in Keys(Get(jar, domain).GetOr([])) then Keys(Get(jar, domain).GetOr([])) else Keys(Get(jar, domain).GetOr([])) + [name]
    ensures WellFormed(jar) ==> WellFormed(r)
  {
    var names := Get(jar, domain).GetOr([]);
    AssignWellFormed(jar, domain, name, value);
    AssignInner(jar, domain, names, name, value);
    Put(jar, domain, Put(names, name, value))
  }

  /** The domain's dict after the assignment is its old dict with `name` assigned. */
  lemma AssignInner(jar: Jar, domain: string, names: Dict<string>, name: string, value: string)
    ensures Get(Put(jar, domain, Put(names, name, value)), domain) == Some(Put(names, name, value))
    ensures Keys(Put(names, name, value)) == if name in Keys(names) then Keys(names) else Keys(names) + [name]
  {
  }

  lemma AssignWellFormed(jar: Jar, domain: string, name: string, value: string)
    ensures WellFormed(jar) ==> WellFormed(Put(jar, domain, Put(Get(jar, domain).GetOr([]), name, value)))
  {
    if WellFormed(jar) {
      var names := Get(jar, domain).GetOr([]);
      var i := IndexOf(jar, domain);
      assert UniqueKeys(names) by {
        if i < |jar| {
          assert names == jar[i].1;
        }
      }
      var inner := Put(names, name, value);
      PutShape(jar, domain, inner);
      var r := Put(jar, domain, inner);
      forall t | 0 <= t < |r| ensures r[t].1 != [] && UniqueKeys(r[t].1) {
        if t != i {
          assert r[t] == jar[t];
        }
      }
    }
  }

  // ---------------------------------------------------------------------
  // save_cookies_to_file

  const CommentLine1 := "# Basic Curl Clone Cookies"
  const CommentLine2 := "# Format: Domain\tName\tValue"

  /** The file line of one cookie, without its newline. */
  function EntryLine(domain: string, name: string, value: string): string {
    domain + "\t" + name + "\t" + value
  }

  lemma EntryLineParts(domain: string, name: string, value: string)
    ensures EntryLine(domain, name, value) == domain + ['\t'] + (name + ['\t'] + value)
  {
  }

  /** The lines of one domain's cookies, in the domain's name order. */
  function DomainLines(domain: string, names: Dict<string>): seq<string> {
    if names == [] then []
    else
      var n := |names| - 1;
      DomainLines(domain, names[..n]) + [EntryLine(domain, names[n].0, names[n].1)]
  }

  /** The lines of every cookie in the jar, in jar order. */
  function JarLines(jar: Jar): seq<string> {
    if jar == [] then []
    else
      var n := |jar| - 1;
      JarLines(jar[..n]) + DomainLines(jar[n].0, jar[n].1)
  }

  /** The text `save_cookies_to_file` writes: the two comment lines, then one line per cookie. */
  function Serialize(jar: Jar): string {
    Terminated([CommentLine1, CommentLine2] + JarLines(jar))
  }

  // ---------------------------------------------------------------------
  // load_cookies_from_file

  /**
   * `domain, name, value = line.split('\t', 2)`: the text up to the first
   * tab, the text between the first two tabs, and all the rest (tabs
   * included); None where the unpacking raises, the line holding fewer than
   * two tabs.
   */
  function SplitFields(line: string): (r: Option<(string, string, string)>)
    ensures r.Some? ==> line == EntryLine(r.value.0, r.value.1, r.value.2) && '\t' !in r.value.0 && '\t' !in r.value.1
  {
    match SplitOnce(line, '\t')
    case None => None
    case Some((domain, rest)) =>
      match SplitOnce(rest, '\t')
      case None => None
      case Some((name, value)) =>
        EntryLineParts(domain, name, value);
        Some((domain, name, value))
  }

  /** The unpacking raises exactly when the line holds fewer than two tabs. */
  lemma SplitFieldsNone(line: string)
    ensures SplitFields(line).None? <==> forall i, j :: 0 <= i < j < |line| ==> !(line[i] == '\t' && line[j] == '\t')
  {
    match SplitOnce(line, '\t')
    case None =>
    case Some((domain, rest)) =>
      match SplitOnce(rest, '\t')
      case None =>
        assert forall j :: |domain| < j < |line| ==> line[j] == rest[j - |domain| - 1];
      case Some((name, value)) =>
        var i, j := |domain|, |domain| + 1 + |name|;
        assert line[i] == '\t' && line[j] == rest[|name|] == '\t';
  }

  /** One turn of the loop of `load_cookies_from_file`. */
  function LoadLine(jar: Jar, raw: string): Jar {
    var line := Strip(raw);
    if line == [] || line[0] == '#' then jar
    else
      match SplitFields(line)
      case None => jar
      case Some((domain, name, value)) => Assign(jar, domain, name, value)
  }

  /**
   * A line that is empty once stripped, or whose stripped form holds fewer
   * than two tabs, leaves the jar as it was.
   */
  lemma LoadLineSkipped(jar: Jar, raw: string)
    ensures Strip(raw) == [] ==> LoadLine(jar, raw) == jar
    ensures (forall i, j :: 0 <= i < j < |Strip(raw)| ==> !(Strip(raw)[i] == '\t' && Strip(raw)[j] == '\t'))
            ==> LoadLine(jar, raw) == jar
  {
    SplitFieldsNone(Strip(raw));
  }

  /** The loop of `load_cookies_from_file` over `lines`, starting from `jar`. */
  function LoadLines(jar: Jar, lines: seq<string>): (r: Jar)
    ensures WellFormed(jar) ==> WellFormed(r)
  {
    if lines == [] then jar
    else LoadLine(LoadLines(jar, lines[..|lines| - 1]), lines[|lines| - 1])
  }

  /** The jar `load_cookies_from_file` leaves: empty, then filled from the file when there is one. */
  function LoadText(file: Option<string>): (jar: Jar)
    ensures WellFormed(jar)
    ensures file.None? ==> jar == []
  {
    match file
    case None => []
    case Some(text) => LoadLines([], SplitLines(text))
  }

  // ---------------------------------------------------------------------
  // get_cookies_for_url

  /**
   * `cookies_to_send`: the cookies of every domain the host ends with,
   * merged in jar order with `dict.update`.
   */
  function Collect(jar: Jar, host: string): (r: Dict<string>)
    ensures UniqueKeys(r)
  {
    if jar == [] then []
    else
      var n := |jar| - 1;
      var acc := Collect(jar[..n], host);
      if EndsWith(host, jar[n].0) then Update(acc, jar[n].1) else acc
  }

  /** The `name=value` items of the `Cookie` header, before they are joined. */
  function CookieParts(jar: Jar, host: string): (parts: seq<string>)
  {
    var c := Collect(jar, host);
    seq(|c|, i requires 0 <= i < |c| => c[i].0 + "=" + c[i].1)
  }

  /** `get_cookies_for_url(host, path)`: the items joined with "; ". */
  function CookieHeader(jar: Jar, host: string): string {
    Join(CookieParts(jar, host), "; ")
  }

  // ---------------------------------------------------------------------
  // store_cookies

  datatype SetCookie = SetCookie(domain: string, name: string, value: string)

  /** What `store_cookies` accepts: one `Set-Cookie` value, or a list of them. */
  datatype SetCookieArg = One(header: string) | Many(headers: seq<string>)

  /** `if not isinstance(set_cookie_headers, list): set_cookie_headers = [set_cookie_headers]` */
  function HeaderList(arg: SetCookieArg): (hs: seq<string>)
    ensures arg.One? ==> hs == [arg.header]
    ensures arg.Many? ==> hs == arg.headers
  {
    match arg
    case One(h) => [h]
    case Many(hs) => hs
  }

  /** An attribute that, stripped and lower-cased, starts with `domain=`. */
  predicate IsDomainAttr(part: string) {
    StartsWith(Lower(Strip(part)), "domain=")
  }

  /** The domain a `Domain=` attribute names: its text after the first `=`, stripped, less one leading dot. */
  function AttrDomain(part: string): string
    requires IsDomainAttr(part)
  {
    match SplitOnce(Strip(part), '=')
    case None => []
    case Some((_, after)) =>
      var d := Strip(after);
      if d != [] && d[0] == '.' then d[1..] else d
  }

  /**
   * Every domain attribute, however it is spaced or spelled, is `key=rest`
   * once stripped, with `key` some spelling of `domain`; it names `rest`
   * stripped, less exactly one leading dot.
   */
  lemma AttrDomainOf(part: string)
    requires IsDomainAttr(part)
    ensures var s := Strip(part);
      |s| >= 7 && Lower(s[..6]) == "domain" && s[6] == '='
      && AttrDomain(part) == (var d := Strip(s[7..]); if d != [] && d[0] == '.' then d[1..] else d)
  {
    var s := Strip(part);
    var low := Lower(s);
    assert low[..7] == "domain=";
    forall k | 0 <= k < 6 ensures s[k] != '=' {
      assert low[k] == LowerChar(s[k]) == "domain"[k];
    }
    assert low[6] == LowerChar(s[6]) == '=';
    assert Lower(s[..6]) == low[..6];
    assert '=' !in s[..6];
    assert s == s[..6] + ['='] + s[7..];
    SplitOnceAt(s[..6], '=', s[7..]);
  }

  /** The domain a cookie is filed under, as the attribute loop of `store_cookies` leaves it. */
  function CookieDomain(attrs: seq<string>, default: string): string {
    if attrs == [] then default
    else
      var n := |attrs| - 1;
      if IsDomainAttr(attrs[n]) then AttrDomain(attrs[n]) else CookieDomain(attrs[..n], default)
  }

  /** With no `Domain=` attribute the cookie is filed under the default domain. */
  lemma {:induction false} CookieDomainDefault(attrs: seq<string>, default: string)
    requires forall i :: 0 <= i < |attrs| ==> !IsDomainAttr(attrs[i])
    ensures CookieDomain(attrs, default) == default
  {
    if attrs != [] {
      CookieDomainDefault(attrs[..|attrs| - 1], default);
    }
  }

  /** Otherwise it is filed under the domain of the last `Domain=` attribute. */
  lemma {:induction false} CookieDomainLast(attrs: seq<string>, default: string, i: nat)
    requires i < |attrs| && IsDomainAttr(attrs[i])
    requires forall j :: i < j < |attrs| ==> !IsDomainAttr(attrs[j])
    ensures CookieDomain(attrs, default) == AttrDomain(attrs[i])
  {
    var n := |attrs| - 1;
    if i < n {
      var pre := attrs[..n];
      assert pre[i] == attrs[i];
      assert forall j :: i < j < |pre| ==> pre[j] == attrs[j];
      CookieDomainLast(pre, default, i);
      CookieDomainSkip(attrs, default);
      calc {
        CookieDomain(attrs, default);
        CookieDomain(pre, default);
        AttrDomain(pre[i]);
        AttrDomain(attrs[i]);
      }
    } else {
      CookieDomainHere(attrs, default);
    }
  }

  /** A last attribute that is not `Domain=` is passed over. */
  lemma CookieDomainSkip(attrs: seq<string>, default: string)
    requires attrs != [] && !IsDomainAttr(attrs[|attrs| - 1])
    ensures CookieDomain(attrs, default) == CookieDomain(attrs[..|attrs| - 1], default)
  {
  }

  /** A last attribute that is `Domain=` decides. */
  lemma CookieDomainHere(attrs: seq<string>, default: string)
    requires attrs != [] && IsDomainAttr(attrs[|attrs| - 1])
    ensures CookieDomain(attrs, default) == AttrDomain(attrs[|attrs| - 1])
  {
  }

  /** `name` and `value` are the stripped texts before and after the first `=` of `segment`. */
  ghost predicate NameValueOf(segment: string, name: string, value: string) {
    exists before, after :: segment == before + "=" + after && '=' !in before && name == Strip(before) && value == Strip(after)
  }

  /**
   * One `Set-Cookie` value as `store_cookies` reads it: the name and value
   * are the stripped text either side of the first `=` of the first
   * `;`-separated segment; None where that segment has no `=` (the value is
   * skipped).
   */
  function ParseSetCookie(header: string, default: string): (r: Option<SetCookie>)
    ensures r.None? <==> '=' !in Strip(Split(header, ";")[0])
    ensures r.Some? ==> NameValueOf(Strip(Split(header, ";")[0]), r.value.name, r.value.value)
    ensures r.Some? ==> r.value.domain == CookieDomain(Split(header, ";")[1..], default)
  {
    var parts := Split(header, ";");
    var nameValue := Strip(parts[0]);
    match SplitOnce(nameValue, '=')
    case None => None
    case Some((name, value)) => Some(SetCookie(CookieDomain(parts[1..], default), Strip(name), Strip(value)))
  }

  /** One turn of the loop of `store_cookies`: the cookie of `header` filed into the jar, if it has one. */
  function StoreOne(jar: Jar, header: string, default: string): (r: Jar)
    ensures WellFormed(jar) ==> WellFormed(r)
  {
    match ParseSetCookie(header, default)
    case None => jar
    case Some(c) => Assign(jar, c.domain, c.name, c.value)
  }

  /** The jar after the loop of `store_cookies` over `headers` (the file is rewritten after it). */
  function StoreAll(jar: Jar, headers: seq<string>, default: string): (r: Jar)
    ensures WellFormed(jar) ==> WellFormed(r)
  {
    if headers == [] then jar
    else
      var n := |headers| - 1;
      StoreOne(StoreAll(jar, headers[..n], default), headers[n], default)
  }

  /** The value `header` does not file a cookie under (domain, name). */
  predicate Untouched(header: string, default: string, domain: string, name: string) {
    match ParseSetCookie(header, default)
    case None => true
    case Some(c) => (c.domain, c.name) != (domain, name)
  }

  /** `store_cookies` touches only the entries it writes: a (domain, name) no header files keeps its value. */
  lemma {:induction false} StoreAllOther(jar: Jar, headers: seq<string>, default: string, domain: string, name: string)
    requires forall i :: 0 <= i < |headers| ==> Untouched(headers[i], default, domain, name)
    ensures Lookup(StoreAll(jar, headers, default), domain, name) == Lookup(jar, domain, name)
    decreases |headers|
  {
    if headers != [] {
      var n := |headers| - 1;
      var pre := headers[..n];
      assert forall i :: 0 <= i < |pre| ==> pre[i] == headers[i];
      StoreAllOther(jar, pre, default, domain, name);
      StoreOneOther(StoreAll(jar, pre, default), headers[n], default, domain, name);
    }
  }

  /** One value filed leaves every entry it does not write as it was. */
  lemma StoreOneOther(jar: Jar, header: string, default: string, domain: string, name: string)
    requires Untouched(header, default, domain, name)
    ensures Lookup(StoreOne(jar, header, default), domain, name) == Lookup(jar, domain, name)
  {
  }

  lemma StoreAllStep(jar: Jar, headers: seq<string>, i: nat, default: string)
    requires i < |headers|
    ensures StoreAll(jar, headers[..i + 1], default) == StoreOne(StoreAll(jar, headers[..i], default), headers[i], default)
  {
    assert headers[..i + 1][..i] == headers[..i];
  }

  // ---------------------------------------------------------------------
  // What the operations promise

  /** The file loop is a left fold: reading more lines continues from where the first ones left the jar. */
  lemma {:induction false} LoadLinesAppend(jar: Jar, a: seq<string>, b: seq<string>)
    ensures LoadLines(jar, a + b) == LoadLines(LoadLines(jar, a), b)
    decreases |b|
  {
    if b == [] {
      assert a + b == a;
    } else {
      var n := |b| - 1;
      assert (a + b)[..|a + b| - 1] == a + b[..n];
      LoadLinesAppend(jar, a, b[..n]);
    }
  }

  lemma LoadLinesStep(jar: Jar, lines: seq<string>, i: nat)
    requires i < |lines|
    ensures LoadLines(jar, lines[..i + 1]) == LoadLine(LoadLines(jar, lines[..i]), lines[i])
  {
    assert lines[..i + 1][..i] == lines[..i];
  }

  /** A cookie the file can hold and give back unchanged. */
  predicate StorableEntry(domain: string, name: string, value: string) {
    && domain != [] && !IsSpace(domain[0]) && domain[0] != '#'
    && value != [] && !IsSpace(value[|value| - 1])
    && '\t' !in domain && '\t' !in name
    && NoLineBreak(domain) && NoLineBreak(name) && NoLineBreak(value)
  }

  /** Every cookie of the jar is storable. */
  predicate Storable(jar: Jar) {
    forall i, j :: 0 <= i < |jar| && 0 <= j < |jar[i].1| ==> StorableEntry(jar[i].0, jar[i].1[j].0, jar[i].1[j].1)
  }

  /** Loading the line saved for a storable cookie files that cookie again. */
  lemma LoadEntryLine(jar: Jar, domain: string, name: string, value: string)
    requires StorableEntry(domain, name, value)
    ensures LoadLine(jar, EntryLine(domain, name, value)) == Assign(jar, domain, name, value)
  {
    EntryLineStripped(domain, name, value);
    EntryLineFields(domain, name, value);
  }

  /** The saved line of a storable cookie is left alone by `strip()` and is not a comment. */
  lemma EntryLineStripped(domain: string, name: string, value: string)
    requires StorableEntry(domain, name, value)
    ensures Strip(EntryLine(domain, name, value)) == EntryLine(domain, name, value)
    ensures EntryLine(domain, name, value) != [] && EntryLine(domain, name, value)[0] != '#'
  {
    var line := EntryLine(domain, name, value);
    assert line[0] == domain[0] && line[|line| - 1] == value[|value| - 1];
  }

  /** The saved line unpacks into the cookie's three fields. */
  lemma EntryLineFields(domain: string, name: string, value: string)
    requires '\t' !in domain && '\t' !in name
    ensures SplitFields(EntryLine(domain, name, value)) == Some((domain, name, value))
  {
    var line := EntryLine(domain, name, value);
    var rest := name + "\t" + value;
    assert line == domain + ['\t'] + rest;
    SplitOnceAt(domain, '\t', rest);
    assert rest == name + ['\t'] + value;
    SplitOnceAt(name, '\t', value);
  }

  /** Loading the lines of one new domain files that domain's cookies, in their order. */
  lemma {:induction false} LoadDomainLines(jar: Jar, domain: string, names: Dict<string>)
    requires names != [] && UniqueKeys(names) && domain !in Keys(jar)
    requires forall j :: 0 <= j < |names| ==> StorableEntry(domain, names[j].0, names[j].1)
    ensures LoadLines(jar, DomainLines(domain, names)) == Put(jar, domain, names)
    decreases |names|
  {
    var n := |names| - 1;
    if n == 0 {
      LoadDomainLinesOne(jar, domain, names);
    } else {
      var first := names[..n];
      assert forall j :: 0 <= j < n ==> first[j] == names[j];
      LoadDomainLines(jar, domain, first);
      LoadDomainLinesMore(jar, domain, names);
    }
  }

  lemma LoadDomainLinesOne(jar: Jar, domain: string, names: Dict<string>)
    requires |names| == 1 && domain !in Keys(jar)
    requires StorableEntry(domain, names[0].0, names[0].1)
    ensures LoadLines(jar, DomainLines(domain, names)) == Put(jar, domain, names)
  {
    LoadDomainLinesLast(jar, domain, names);
    assert DomainLines(domain, names[..0]) == [];
    LoadEntryLine(jar, domain, names[0].0, names[0].1);
    assert Get(jar, domain) == None;
    PutLast(names);
  }

  lemma LoadDomainLinesMore(jar: Jar, domain: string, names: Dict<string>)
    requires |names| >= 2 && UniqueKeys(names)
    requires StorableEntry(domain, names[|names| - 1].0, names[|names| - 1].1)
    requires LoadLines(jar, DomainLines(domain, names[..|names| - 1])) == Put(jar, domain, names[..|names| - 1])
    ensures LoadLines(jar, DomainLines(domain, names)) == Put(jar, domain, names)
  {
    var n := |names| - 1;
    var first := names[..n];
    LoadDomainLinesLast(jar, domain, names);
    LoadEntryLine(Put(jar, domain, first), domain, names[n].0, names[n].1);
    AssignAgain(jar, domain, first, names[n].0, names[n].1);
    PutLast(names);
  }

  lemma LoadDomainLinesLast(jar: Jar, domain: string, names: Dict<string>)
    requires names != []
    ensures LoadLines(jar, DomainLines(domain, names))
         == LoadLine(LoadLines(jar, DomainLines(domain, names[..|names| - 1])), EntryLine(domain, names[|names| - 1].0, names[|names| - 1].1))
  {
    var n := |names| - 1;
    var line := EntryLine(domain, names[n].0, names[n].1);
    LoadLinesAppend(jar, DomainLines(domain, names[..n]), [line]);
    assert [line][..0] == [];
  }

  /** Filing a cookie under a domain just assigned its cookies adds the cookie to them. */
  lemma AssignAgain(jar: Jar, domain: string, names: Dict<string>, name: string, value: string)
    ensures Assign(Put(jar, domain, names), domain, name, value) == Put(jar, domain, Put(names, name, value))
  {
    assert Get(Put(jar, domain, names), domain) == Some(names);
    PutPut(jar, domain, names, Put(names, name, value));
  }

  /** Loading every cookie line of a jar rebuilds the jar. */
  lemma {:induction false} LoadJarLines(jar: Jar)
    requires WellFormed(jar) && Storable(jar)
    ensures LoadLines([], JarLines(jar)) == jar
    decreases |jar|
  {
    if jar != [] {
      var n := |jar| - 1;
      var first := jar[..n];
      assert WellFormed(first) && Storable(first);
      LoadJarLines(first);
      LoadLinesAppend([], JarLines(first), DomainLines(jar[n].0, jar[n].1));
      assert jar[n].0 !in Keys(first);
      LoadDomainLines(first, jar[n].0, jar[n].1);
      PutLast(jar);
    }
  }

  /** A comment line, one whose stripped form starts with `#`, leaves the jar as it is. */
  lemma LoadCommentLine(jar: Jar, line: string)
    requires StartsWith(Strip(line), "#")
    ensures LoadLine(jar, line) == jar
  {
    assert Strip(line)[0] == "#"[0];
  }

  /** The two comment lines of the file and the empty line after its last newline leave the jar as it is. */
  lemma LoadSkippedLines(jar: Jar)
    ensures LoadLines(jar, [CommentLine1, CommentLine2]) == jar
    ensures LoadLine(jar, "") == jar
  {
    assert Stripped(CommentLine1) && Stripped(CommentLine2);
    LoadCommentLine(jar, CommentLine1);
    LoadCommentLine(jar, CommentLine2);
    assert [CommentLine1, CommentLine2][..1] == [CommentLine1] && [CommentLine1][..0] == [];
    assert LoadLines(jar, [CommentLine1]) == jar;
    assert Strip("") == "";
  }

  /**
   * Saving then loading gives back the same jar, cookie for cookie and in
   * the same order, as long as each cookie survives the file format: a domain
   * that does not start with white space or `#`, no tab before the value, a
   * value that does not end in white space, and no line breaks.
   */
  lemma LoadSaveRoundTrip(jar: Jar)
    requires WellFormed(jar) && Storable(jar)
    ensures LoadText(Some(Serialize(jar))) == jar
  {
    var header := [CommentLine1, CommentLine2];
    var lines := header + JarLines(jar);
    assert forall i :: 0 <= i < |lines| ==> NoLineBreak(lines[i]) by {
      JarLinesNoLineBreak(jar);
    }
    SplitTerminated(lines);
    LoadLinesAppend([], lines, [""]);
    LoadLinesAppend([], header, JarLines(jar));
    LoadSkippedLines([]);
    LoadJarLines(jar);
    LoadSkippedLines(jar);
    assert [""][..0] == [];
  }

  lemma {:induction false} JarLinesNoLineBreak(jar: Jar)
    requires Storable(jar)
    ensures forall i :: 0 <= i < |JarLines(jar)| ==> NoLineBreak(JarLines(jar)[i])
    decreases |jar|
  {
    if jar != [] {
      var n := |jar| - 1;
      assert Storable(jar[..n]);
      JarLinesNoLineBreak(jar[..n]);
      DomainLinesNoLineBreak(jar[n].0, jar[n].1);
    }
  }

  lemma {:induction false} DomainLinesNoLineBreak(domain: string, names: Dict<string>)
    requires forall j :: 0 <= j < |names| ==> StorableEntry(domain, names[j].0, names[j].1)
    ensures forall i :: 0 <= i < |DomainLines(domain, names)| ==> NoLineBreak(DomainLines(domain, names)[i])
    decreases |names|
  {
    if names != [] {
      var n := |names| - 1;
      DomainLinesNoLineBreak(domain, names[..n]);
      var line := EntryLine(domain, names[n].0, names[n].1);
      assert NoLineBreak(line) by {
        assert NoLineBreak("\t");
      }
    }
  }

  /**
   * The `Cookie` header carries, for each name, the value of the last domain
   * (in jar order) that the host ends with and that holds the name.
   */
  lemma {:induction false} CollectGetLast(jar: Jar, host: string, name: string, i: nat)
    requires WellFormed(jar)
    requires i < |jar| && EndsWith(host, jar[i].0) && name in Keys(jar[i].1)
    requires forall j :: i < j < |jar| && EndsWith(host, jar[j].0) ==> name !in Keys(jar[j].1)
    ensures Get(Collect(jar, host), name) == Get(jar[i].1, name)
    decreases |jar|
  {
    var n := |jar| - 1;
    assert WellFormed(jar[..n]);
    if i < n {
      CollectGetLast(jar[..n], host, name, i);
      if EndsWith(host, jar[n].0) {
        UpdateGet(Collect(jar[..n], host), jar[n].1, name);
      }
    } else {
      UpdateGet(Collect(jar[..n], host), jar[n].1, name);
    }
  }

  /** A name no matching domain holds is not sent. */
  lemma {:induction false} CollectGetNone(jar: Jar, host: string, name: string)
    requires WellFormed(jar)
    requires forall j :: 0 <= j < |jar| && EndsWith(host, jar[j].0) ==> name !in Keys(jar[j].1)
    ensures Get(Collect(jar, host), name) == None
    decreases |jar|
  {
    if jar != [] {
      var n := |jar| - 1;
      assert WellFormed(jar[..n]);
      CollectGetNone(jar[..n], host, name);
      if EndsWith(host, jar[n].0) {
        UpdateGet(Collect(jar[..n], host), jar[n].1, name);
      }
    }
  }

  /** Some cookie is collected exactly when some domain of the jar is a suffix of the host. */
  lemma {:induction false} CollectEmpty(jar: Jar, host: string)
    requires WellFormed(jar)
    ensures Collect(jar, host) == [] <==> forall j :: 0 <= j < |jar| ==> !EndsWith(host, jar[j].0)
    decreases |jar|
  {
    if jar != [] {
      var n := |jar| - 1;
      assert WellFormed(jar[..n]);
      CollectEmpty(jar[..n], host);
    }
  }

  /** The `Cookie` header is empty exactly when no domain of the jar is a suffix of the host. */
  lemma CookieHeaderEmpty(jar: Jar, host: string)
    requires WellFormed(jar)
    ensures CookieHeader(jar, host) == [] <==> forall j :: 0 <= j < |jar| ==> !EndsWith(host, jar[j].0)
  {
    CollectEmpty(jar, host);
    var parts := CookieParts(jar, host);
    if parts != [] {
      assert |parts[0]| > 0;
      assert |Join(parts, "; ")| >= |parts[0]|;
    }
  }

  /** The first segment `name=value` of a Set-Cookie value reads back as that name and value. */
  lemma NameValueSegment(name: string, value: string)
    requires Stripped(name) && Stripped(value) && '=' !in name
    ensures Strip(name + "=" + value) == name + "=" + value
    ensures SplitOnce(name + "=" + value, '=') == Some((name, value))
    ensures Strip(name) == name && Strip(value) == value
  {
    var nv := name + "=" + value;
    assert nv == name + ['='] + value;
    assert nv[0] == (if name == [] then '=' else name[0]);
    assert nv[|nv| - 1] == (if value == [] then '=' else value[|value| - 1]);
    assert Stripped(nv);
    SplitOnceAt(name, '=', value);
  }

  /**
   * The attribute ` key=domain`, where `key` is `Domain` in any mix of upper
   * and lower case, is a domain attribute naming the domain less one leading
   * dot.
   */
  lemma DomainSegment(key: string, domain: string)
    requires Lower(key) == "domain" && Stripped(domain)
    ensures IsDomainAttr(" " + key + "=" + domain)
    ensures AttrDomain(" " + key + "=" + domain) == if domain != [] && domain[0] == '.' then domain[1..] else domain
  {
    var p := key + "=" + domain;
    DomainKeyText(key);
    DomainAttrStrip(key, domain);
    DomainAttrLower(key, domain);
    assert p == key + ['='] + domain;
    SplitOnceAt(key, '=', domain);
    assert Strip(domain) == domain;
  }

  /** A spelling of `domain` holds neither `=` nor white space. */
  lemma DomainKeyText(key: string)
    requires Lower(key) == "domain"
    ensures |key| == 6 && '=' !in key && (key[0] == 'd' || key[0] == 'D')
  {
    assert |key| == 6;
    forall k | 0 <= k < 6 ensures key[k] != '=' {
      assert Lower(key)[k] == LowerChar(key[k]) == "domain"[k];
    }
    assert Lower(key)[0] == LowerChar(key[0]) == 'd';
  }

  lemma DomainAttrStrip(key: string, domain: string)
    requires Lower(key) == "domain" && Stripped(domain)
    ensures Strip(" " + key + "=" + domain) == key + "=" + domain
  {
    DomainKeyText(key);
    var p := key + "=" + domain;
    assert " " + key + "=" + domain == [' '] + p;
    assert p[0] == key[0];
    assert p[|p| - 1] == (if domain == [] then '=' else domain[|domain| - 1]);
    StripSpaceBefore(p);
  }

  lemma DomainAttrLower(key: string, domain: string)
    requires Lower(key) == "domain"
    ensures StartsWith(Lower(key + "=" + domain), "domain=")
  {
    DomainKeyText(key);
    var p := key + "=" + domain;
    assert Lower(p)[..6] == Lower(key);
    assert Lower(p)[6] == '=';
    assert Lower(p)[..7] == Lower(p)[..6] + [Lower(p)[6]];
  }

  /**
   * `name=value` with a stripped name and value, no `=` in the name and no
   * `;` anywhere, is that cookie, filed under the default domain.
   */
  lemma ParsePlainSetCookie(name: string, value: string, default: string)
    requires Stripped(name) && Stripped(value)
    requires '=' !in name && ';' !in name && ';' !in value
    ensures ParseSetCookie(name + "=" + value, default) == Some(SetCookie(default, name, value))
  {
    var h := name + "=" + value;
    assert ';' !in h;
    SplitWithout(h, ';');
    NameValueSegment(name, value);
    var parts := Split(h, ";");
    assert parts == [h];
    assert |parts| == 1 && |parts[1..]| == 0;
    assert CookieDomain(parts[1..], default) == default;
  }

  /**
   * `name=value; Domain=domain` is that cookie, filed under the domain less
   * one leading dot.
   */
  lemma ParseDomainSetCookie(name: string, value: string, domain: string, default: string)
    requires Stripped(name) && Stripped(value) && Stripped(domain)
    requires '=' !in name && ';' !in name && ';' !in value && ';' !in domain
    ensures ParseSetCookie(name + "=" + value + "; Domain=" + domain, default)
         == Some(SetCookie(if domain != [] && domain[0] == '.' then domain[1..] else domain, name, value))
  {
    var h := name + "=" + value + "; Domain=" + domain;
    DomainSetCookieParts(name, value, domain);
    DomainAttrOnly(domain, default);
    NameValueSegment(name, value);
    assert Split(h, ";")[1..] == [" Domain=" + domain];
  }

  /** The value splits at its one `;` into the `name=value` segment and the attribute. */
  lemma DomainSetCookieParts(name: string, value: string, domain: string)
    requires ';' !in name && ';' !in value && ';' !in domain
    ensures Split(name + "=" + value + "; Domain=" + domain, ";") == [name + "=" + value, " Domain=" + domain]
  {
    var nv := name + "=" + value;
    var attr := " Domain=" + domain;
    DomainSetCookieText(name, value, domain);
    assert ';' !in nv;
    assert ';' !in attr;
    TwoSegments(nv, attr);
  }

  lemma DomainSetCookieText(name: string, value: string, domain: string)
    ensures name + "=" + value + "; Domain=" + domain == (name + "=" + value) + [';'] + (" Domain=" + domain)
  {
  }

  /** Two segments without `;` joined by one `;` split back into those two. */
  lemma TwoSegments(a: string, b: string)
    requires ';' !in a && ';' !in b
    ensures Split(a + [';'] + b, ";") == [a, b]
  {
    SplitAtChar(a, ';', b);
    SplitWithout(b, ';');
  }

  /** A lone ` Domain=domain` attribute decides the domain. */
  lemma DomainAttrOnly(domain: string, default: string)
    requires Stripped(domain)
    ensures CookieDomain([" Domain=" + domain], default) == if domain != [] && domain[0] == '.' then domain[1..] else domain
  {
    var attr := " Domain=" + domain;
    assert attr == " " + "Domain" + "=" + domain;
    DomainSegment("Domain", domain);
    CookieDomainHere([attr], default);
  }

  /**
   * Once a cookie is filed under a domain the host ends with, the host is sent
   * that value, unless a domain after that one in jar order that the host also
   * ends with holds the same name. A domain before it in jar order, such as a
   * parent domain filed earlier, is overridden.
   */
  lemma AssignThenCollect(jar: Jar, domain: string, name: string, value: string, host: string)
    requires WellFormed(jar) && EndsWith(host, domain)
    requires forall j :: IndexOf(jar, domain) < j < |jar| && EndsWith(host, jar[j].0) ==> name !in Keys(jar[j].1)
    ensures Get(Collect(Assign(jar, domain, name, value), host), name) == Some(value)
    ensures name + "=" + value in CookieParts(Assign(jar, domain, name, value), host)
  {
    var r := Assign(jar, domain, name, value);
    var i := IndexOf(r, domain);
    AssignPlace(jar, domain, name, value);
    GetAt(r, i);
    forall j | i < j < |r| && EndsWith(host, r[j].0) ensures name !in Keys(r[j].1) {
      AssignElsewhere(jar, domain, name, value, j);
      GetAt(jar, j);
    }
    CollectGetLast(r, host, name, i);
    CollectedSent(r, host, name, value);
  }

  /**
   * The domain assigned to keeps its place, or goes at the end when it is
   * new; the domains after it are the ones after it before.
   */
  lemma AssignPlace(jar: Jar, domain: string, name: string, value: string)
    requires WellFormed(jar)
    ensures IndexOf(Assign(jar, domain, name, value), domain) == IndexOf(jar, domain)
    ensures IndexOf(jar, domain) < |Assign(jar, domain, name, value)|
    ensures forall j :: IndexOf(jar, domain) < j < |Assign(jar, domain, name, value)| ==> j < |jar| && jar[j].0 != domain
  {
    var inner := Put(Get(jar, domain).GetOr([]), name, value);
    assert Assign(jar, domain, name, value) == Put(jar, domain, inner);
    PutShape(jar, domain, inner);
    PutIndexOf(jar, domain, inner);
  }

  /** Assigning under one domain leaves the entry of every other domain as it was. */
  lemma AssignElsewhere(jar: Jar, domain: string, name: string, value: string, j: nat)
    requires j < |jar| && jar[j].0 != domain
    ensures Assign(jar, domain, name, value)[j] == jar[j]
  {
    var i := IndexOf(jar, domain);
    assert i < |jar| ==> i != j;
  }

  /**
   * A `Set-Cookie` value received from a host, filed under a domain the host
   * ends with, reaches that host's next `Cookie` header with its value, unless
   * a domain after it in jar order that the host ends with holds the name.
   */
  lemma StoreThenLookup(jar: Jar, header: string, host: string, c: SetCookie)
    requires WellFormed(jar)
    requires ParseSetCookie(header, host) == Some(c) && EndsWith(host, c.domain)
    requires forall j :: IndexOf(jar, c.domain) < j < |jar| && EndsWith(host, jar[j].0) ==> c.name !in Keys(jar[j].1)
    ensures Get(Collect(StoreAll(jar, [header], host), host), c.name) == Some(c.value)
    ensures c.name + "=" + c.value in CookieParts(StoreAll(jar, [header], host), host)
  {
    var hs := [header];
    assert hs[..0] == [];
    assert StoreAll(jar, hs, host) == Assign(jar, c.domain, c.name, c.value);
    AssignThenCollect(jar, c.domain, c.name, c.value, host);
  }

  /**
   * A plain `name=value` is filed under the host that sent it, so it is sent
   * back to that host, unless a domain after the host in jar order that the
   * host ends with holds the name.
   */
  lemma StorePlainThenLookup(jar: Jar, name: string, value: string, host: string)
    requires WellFormed(jar)
    requires Stripped(name) && Stripped(value)
    requires '=' !in name && ';' !in name && ';' !in value
    requires forall j :: IndexOf(jar, host) < j < |jar| && EndsWith(host, jar[j].0) ==> name !in Keys(jar[j].1)
    ensures Get(Collect(StoreAll(jar, [name + "=" + value], host), host), name) == Some(value)
    ensures name + "=" + value in CookieParts(StoreAll(jar, [name + "=" + value], host), host)
  {
    ParsePlainSetCookie(name, value, host);
    assert host[|host| - |host|..] == host;
    StoreThenLookup(jar, name + "=" + value, host, SetCookie(host, name, value));
  }

  /** A name the collected cookies give a value is sent as `name=value`. */
  lemma CollectedSent(jar: Jar, host: string, name: string, value: string)
    requires Get(Collect(jar, host), name) == Some(value)
    ensures name + "=" + value in CookieParts(jar, host)
  {
    var c := Collect(jar, host);
    var i := IndexOf(c, name);
    assert CookieParts(jar, host)[i] == name + "=" + value;
  }

  /**
   * `name=value; Domain=d` received from a host that ends with `d` (less its
   * leading dot) reaches that host's next `Cookie` header, even when an
   * earlier domain in jar order holds the name.
   */
  lemma StoreDomainThenLookup(jar: Jar, name: string, value: string, domain: string, host: string)
    requires WellFormed(jar)
    requires Stripped(name) && Stripped(value) && Stripped(domain)
    requires '=' !in name && ';' !in name && ';' !in value && ';' !in domain
    requires EndsWith(host, if domain != [] && domain[0] == '.' then domain[1..] else domain)
    requires forall j :: (IndexOf(jar, if domain != [] && domain[0] == '.' then domain[1..] else domain) < j < |jar|
                          && EndsWith(host, jar[j].0)) ==> name !in Keys(jar[j].1)
    ensures Get(Collect(StoreAll(jar, [name + "=" + value + "; Domain=" + domain], host), host), name) == Some(value)
    ensures name + "=" + value in CookieParts(StoreAll(jar, [name + "=" + value + "; Domain=" + domain], host), host)
  {
    ParseDomainSetCookie(name, value, domain, host);
    var filed := if domain != [] && domain[0] == '.' then domain[1..] else domain;
    StoreThenLookup(jar, name + "=" + value + "; Domain=" + domain, host, SetCookie(filed, name, value));
  }

  lemma JarLinesStep(header: seq<string>, jar: Jar, i: nat)
    requires i < |jar|
    ensures header + JarLines(jar[..i + 1]) == header + JarLines(jar[..i]) + DomainLines(jar[i].0, jar[i].1)
  {
    assert jar[..i + 1][..i] == jar[..i];
  }

  lemma DomainLinesStep(done: seq<string>, domain: string, names: Dict<string>, j: nat)
    requires j < |names|
    ensures Terminated(done + DomainLines(domain, names[..j + 1]))
         == Terminated(done + DomainLines(domain, names[..j])) + EntryLine(domain, names[j].0, names[j].1) + "\n"
  {
    var before := done + DomainLines(domain, names[..j]);
    var line := EntryLine(domain, names[j].0, names[j].1);
    assert names[..j + 1][..j] == names[..j];
    assert done + DomainLines(domain, names[..j + 1]) == before + [line];
    assert (before + [line])[..|before|] == before;
  }

  // ---------------------------------------------------------------------
  // The module state

  class CookieJar {
    /** `cookie_jar` */
    var entries: Jar
    /** The contents of `cookies.txt`; None while there is no such file. */
    var file: Option<string>

    ghost predicate Valid()
      reads this
    {
      WellFormed(entries)
    }

    /** The state at import: `cookie_jar = {}`, and whatever file is on disk. */
    constructor (file: Option<string>)
      ensures Valid() && entries == [] && this.file == file
    {
      entries := [];
      this.file := file;
    }

    /** `load_cookies_from_file()`: the jar is emptied, then filled from the file's lines if the file exists. */
    method Load()
      modifies this`entries
      ensures Valid() && entries == LoadText(file)
    {
      entries := [];
      if file.None? {
        return;
      }
      var lines := SplitLines(file.value);
      for i := 0 to |lines|
        invariant entries == LoadLines([], lines[..i])
      {
        LoadLinesStep([], lines, i);
        var line := Strip(lines[i]);
        if line == [] || line[0] == '#' {
          continue;
        }
        var fields := SplitFields(line);
        if fields.Some? {
          var (domain, name, value) := fields.value;
          entries := Assign(entries, domain, name, value);
        }
      }
      assert lines[..|lines|] == lines;
    }

    /** `save_cookies_to_file()`: the file is overwritten with the jar's text. */
    method Save()
      modifies this`file
      ensures file == Some(Serialize(entries))
    {
      var header := [CommentLine1, CommentLine2];
      var text := CommentLine1 + "\n" + CommentLine2 + "\n";
      assert text == Terminated(header + JarLines(entries[..0])) by {
        assert header[..1] == [CommentLine1] && [CommentLine1][..0] == [];
        assert Terminated([CommentLine1]) == CommentLine1 + "\n";
        assert header + JarLines(entries[..0]) == header;
      }
      for i := 0 to |entries|
        invariant text == Terminated(header + JarLines(entries[..i]))
      {
        var domain := entries[i].0;
        var names := entries[i].1;
        var done := header + JarLines(entries[..i]);
        assert names[..0] == [] && done + DomainLines(domain, []) == done;
        for j := 0 to |names|
          invariant text == Terminated(done + DomainLines(domain, names[..j]))
        {
          DomainLinesStep(done, domain, names, j);
          text := text + EntryLine(domain, names[j].0, names[j].1) + "\n";
        }
        assert names[..|names|] == names;
        JarLinesStep(header, entries, i);
      }
      assert entries[..|entries|] == entries;
      file := Some(text);
    }

    /** `get_cookies_for_url(host, path)`; the path plays no part. */
    method CookiesFor(host: string, path: string) returns (header: string)
      ensures header == CookieHeader(entries, host)
    {
      var toSend: Dict<string> := [];
      for i := 0 to |entries|
        invariant toSend == Collect(entries[..i], host)
      {
        assert entries[..i + 1][..i] == entries[..i];
        if EndsWith(host, entries[i].0) {
          toSend := Update(toSend, entries[i].1);
        }
      }
      assert entries[..|entries|] == entries;
      header := Join(seq(|toSend|, k requires 0 <= k < |toSend| => toSend[k].0 + "=" + toSend[k].1), "; ");
    }

    /** `store_cookies(set_cookie_headers, default_domain)`: each value filed in turn, then the file rewritten once. */
    method Store(arg: SetCookieArg, defaultDomain: string)
      requires Valid()
      modifies this
      ensures Valid()
      ensures entries == StoreAll(old(entries), HeaderList(arg), defaultDomain)
      ensures file == Some(Serialize(entries))
    {
      var headers := HeaderList(arg);
      ghost var start := entries;
      for i := 0 to |headers|
        invariant entries == StoreAll(start, headers[..i], defaultDomain)
      {
        var parsed := ParseSetCookie(headers[i], defaultDomain);
        ghost var before := entries;
        if parsed.Some? {
          entries := Assign(entries, parsed.value.domain, parsed.value.name, parsed.value.value);
        }
        assert entries == StoreOne(before, headers[i], defaultDomain);
        StoreAllStep(start, headers, i, defaultDomain);
      }
      assert headers[..|headers|] == headers;
      Save();
    }
  }
}
