/**
 * The handful of Python `str` operations the client relies on, with the
 * behaviour Python gives them: `strip`, `lower`, `split` in its three forms
 * (on a separator, at most once, on white space), `join`, `startswith`,
 * `endswith`, `int()` of a decimal string and `str()` of a natural number.
 * Strings are sequences of characters; a byte string is read as the string
 * of its bytes.
 */
module Text {
  import opened Wrappers

  /** Python's `str.isspace()` on one character: what `strip()` and `split()` remove. */
  predicate IsSpace(c: char) {
    c == ' ' || ('\t' <= c <= '\r') || ('\U{1c}' <= c <= '\U{1f}')
    || c == '\U{85}' || c == '\U{a0}' || c == '\U{1680}' || ('\U{2000}' <= c <= '\U{200a}')
    || c == '\U{2028}' || c == '\U{2029}' || c == '\U{202f}' || c == '\U{205f}' || c == '\U{3000}'
  }

  predicate IsDigit(c: char) {
    '0' <= c <= '9'
  }

  /** A line break for a file read in Python's text mode (universal newlines). */
  predicate IsLineBreak(c: char) {
    c == '\n' || c == '\r'
  }

  predicate NoLineBreak(s: string) {
    forall j :: 0 <= j < |s| ==> !IsLineBreak(s[j])
  }

  predicate StartsWith(s: string, prefix: string) {
    |prefix| <= |s| && s[..|prefix|] == prefix
  }

  predicate EndsWith(s: string, suffix: string) {
    |suffix| <= |s| && s[|s| - |suffix|..] == suffix
  }

  /** `s.lstrip()` */
  function LStrip(s: string): (r: string)
    ensures |r| <= |s|
    ensures r == [] || !IsSpace(r[0])
  {
    if s != [] && IsSpace(s[0]) then LStrip(s[1..]) else s
  }

  /** `lstrip()` removes a prefix of white space. */
  lemma {:induction false} LStripSuffix(s: string)
    ensures LStrip(s) == s[|s| - |LStrip(s)|..] && AllSpace(s[..|s| - |LStrip(s)|])
  {
    if s != [] && IsSpace(s[0]) {
      LStripSuffix(s[1..]);
      assert s[..|s| - |LStrip(s)|] == [s[0]] + s[1..][..|s| - 1 - |LStrip(s)|];
    }
  }

  /** `s.rstrip()` */
  function RStrip(s: string): (r: string)
    ensures |r| <= |s| && r == s[..|r|]
    ensures r == [] || !IsSpace(r[|r| - 1])
  {
    if s != [] && IsSpace(s[|s| - 1]) then RStrip(s[..|s| - 1]) else s
  }

  /** `rstrip()` removes a suffix of white space. */
  lemma {:induction false} RStripPrefix(s: string)
    ensures AllSpace(s[|RStrip(s)|..])
  {
    if s != [] && IsSpace(s[|s| - 1]) {
      var n := |s| - 1;
      RStripPrefix(s[..n]);
      assert s[|RStrip(s)|..] == s[..n][|RStrip(s)|..] + [s[n]];
    }
  }

  /** A string `strip()` leaves as it is: empty, or without white space at either end. */
  predicate Stripped(s: string) {
    s == [] || (!IsSpace(s[0]) && !IsSpace(s[|s| - 1]))
  }

  /** `t` holds white space only. */
  predicate AllSpace(t: string) {
    forall k :: 0 <= k < |t| ==> IsSpace(t[k])
  }

  /** `t` holds no white space. */
  predicate NoSpace(t: string) {
    forall k :: 0 <= k < |t| ==> !IsSpace(t[k])
  }

  /** `r` is a slice `s[i..j]` of `s` with only white space outside it. */
  ghost predicate TrimmedFrom(s: string, r: string) {
    exists i, j :: 0 <= i <= j <= |s| && r == s[i..j] && AllSpace(s[..i]) && AllSpace(s[j..])
  }

  /** `s.strip()`: white space removed from both ends and nothing else touched. */
  function Strip(s: string): (r: string)
    ensures |r| <= |s|
    ensures Stripped(r)
    ensures Stripped(s) ==> r == s
  {
    RStrip(LStrip(s))
  }

  /**
   * What `strip()` leaves is a slice of `s` with only white space outside it;
   * with `Stripped` this fixes the result.
   */
  lemma StripTrims(s: string)
    ensures TrimmedFrom(s, Strip(s))
  {
    var t := LStrip(s);
    var r := RStrip(t);
    var i := |s| - |t|;
    LStripSuffix(s);
    RStripPrefix(t);
    assert r == s[i..i + |r|] && AllSpace(s[..i]);
    var after := s[i + |r|..];
    assert AllSpace(after) by {
      forall k | 0 <= k < |after| ensures IsSpace(after[k]) {
        assert after[k] == t[|r| + k] == t[|r|..][k];
      }
    }
  }

  /** A string that is already stripped comes back from `strip()` without the space put before it. */
  lemma StripSpaceBefore(s: string)
    requires s != [] && !IsSpace(s[0]) && !IsSpace(s[|s| - 1])
    ensures Strip([' '] + s) == s
  {
    assert ([' '] + s)[1..] == s;
    assert LStrip([' '] + s) == s;
  }

  function LowerChar(c: char): char {
    if 'A' <= c <= 'Z' then (c as int + 32) as char else c
  }

  /** `s.lower()` on the ASCII letters. */
  function Lower(s: string): (r: string)
    ensures |r| == |s|
  {
    seq(|s|, i requires 0 <= i < |s| => LowerChar(s[i]))
  }

  /** Lower-casing twice is lower-casing once. */
  lemma LowerTwice(s: string)
    ensures Lower(Lower(s)) == Lower(s)
  {
  }

  function IndexOfChar(s: string, c: char): (i: nat)
    ensures i <= |s|
    ensures i < |s| ==> s[i] == c
    ensures forall j :: 0 <= j < i ==> s[j] != c
  {
    if s == [] then 0 else if s[0] == c then 0 else 1 + IndexOfChar(s[1..], c)
  }

  /**
   * `a, b = s.split(c, 1)`: the text before and after the first `c`; None
   * where the unpacking raises because `s` holds no `c`.
   */
  function SplitOnce(s: string, c: char): (r: Option<(string, string)>)
    ensures r.None? <==> c !in s
    ensures r.Some? ==> s == r.value.0 + [c] + r.value.1 && c !in r.value.0
  {
    var i := IndexOfChar(s, c);
    if i == |s| then None else Some((s[..i], s[i + 1..]))
  }

  /** Splitting at the first `c` finds the first `c`, whatever follows it. */
  lemma SplitOnceAt(a: string, c: char, b: string)
    requires c !in a
    ensures SplitOnce(a + [c] + b, c) == Some((a, b))
  {
    var s := a + [c] + b;
    var i := IndexOfChar(s, c);
    assert s[|a|] == c;
    assert forall j :: 0 <= j < |a| ==> s[j] == a[j];
    assert i == |a|;
    assert s[..i] == a && s[i + 1..] == b;
  }

  predicate OccursAt(s: string, p: string, k: nat) {
    k + |p| <= |s| && s[k..k + |p|] == p
  }

  /** `p in s` */
  predicate Contains(s: string, p: string) {
    exists k: nat :: k <= |s| && OccursAt(s, p, k)
  }

  function FindFrom(s: string, p: string, k: nat): (i: nat)
    requires p != [] && k <= |s|
    ensures k <= i <= |s|
    ensures i < |s| ==> OccursAt(s, p, i)
    ensures forall j: nat :: k <= j < i ==> !OccursAt(s, p, j)
    decreases |s| - k
  {
    if k == |s| || OccursAt(s, p, k) then k else FindFrom(s, p, k + 1)
  }

  /**
   * `a, b = s.split(p, 1)`: the text before the first occurrence of `p` and
   * the text after it; None where `s` holds no `p`.
   */
  function SplitAtFirst(s: string, p: string): (r: Option<(string, string)>)
    requires p != []
    ensures r.None? <==> !Contains(s, p)
    ensures r.Some? ==> s == r.value.0 + p + r.value.1
    ensures r.Some? ==> forall k: nat :: k < |r.value.0| ==> !OccursAt(s, p, k)
    ensures r.Some? ==> !Contains(r.value.0, p)
  {
    var i := FindFrom(s, p, 0);
    if i == |s| then
      assert forall k: nat :: !OccursAt(s, p, k) by {
        forall k: nat ensures !OccursAt(s, p, k) {
          if k < |s| { assert 0 <= k < i; }
        }
      }
      None
    else
      var a := s[..i];
      assert forall k: nat :: !OccursAt(a, p, k) by {
        forall k: nat ensures !OccursAt(a, p, k) {
          if k + |p| <= |a| {
            assert k < i && !OccursAt(s, p, k);
            assert forall j :: k <= j < k + |p| ==> a[j] == s[j];
            assert s[k..k + |p|] == a[k..k + |p|];
          }
        }
      }
      Some((a, s[i + |p|..]))
  }

  /** A text cut at the first `p`: when `s == a + p + b` and `p` starts nowhere inside `a`, the cut is there. */
  lemma SplitAtFirstAt(s: string, p: string, a: string, b: string)
    requires p != [] && s == a + p + b
    requires forall k: nat :: k < |a| ==> !OccursAt(s, p, k)
    ensures SplitAtFirst(s, p) == Some((a, b))
  {
    assert OccursAt(s, p, |a|);
    var i := FindFrom(s, p, 0);
    assert i == |a|;
    assert s[..i] == a && s[i + |p|..] == b;
  }

  /** The cut at the first `p` is unique: two texts before a first `p` are the same, and so are the rests. */
  lemma FirstCutUnique(s: string, p: string, a1: string, b1: string, a2: string, b2: string)
    requires p != []
    requires s == a1 + p + b1 && forall k: nat :: k < |a1| ==> !OccursAt(s, p, k)
    requires s == a2 + p + b2 && forall k: nat :: k < |a2| ==> !OccursAt(s, p, k)
    ensures a1 == a2 && b1 == b2
  {
    SplitAtFirstAt(s, p, a1, b1);
    SplitAtFirstAt(s, p, a2, b2);
  }

  /** `sep.join(parts)` */
  function Join(parts: seq<string>, sep: string): (r: string)
    ensures parts != [] ==> StartsWith(r, parts[0])
  {
    if parts == [] then [] else if |parts| == 1 then parts[0] else parts[0] + sep + Join(parts[1..], sep)
  }

  /**
   * `s.split(p)` for a non-empty separator: joining the pieces back gives `s`,
   * and no piece holds `p`. For a separator that cannot overlap itself, such
   * as CRLF or `;`, these two facts fix the pieces; `SplitAtFirst` cuts at the
   * first occurrence for any separator.
   */
  function Split(s: string, p: string): (parts: seq<string>)
    requires p != []
    ensures |parts| >= 1
    ensures Join(parts, p) == s
    ensures forall i :: 0 <= i < |parts| ==> !Contains(parts[i], p)
    decreases |s|
  {
    match SplitAtFirst(s, p)
    case None => [s]
    case Some((a, b)) => [a] + Split(b, p)
  }

  /** Splitting on a one-character separator cuts at its first occurrence. */
  lemma SplitAtChar(a: string, c: char, b: string)
    requires c !in a
    ensures Split(a + [c] + b, [c]) == [a] + Split(b, [c])
  {
    var s := a + [c] + b;
    forall k: nat | k < |a| ensures !OccursAt(s, [c], k) {
      assert s[k] == a[k];
    }
    SplitAtFirstAt(s, [c], a, b);
  }

  /** A text without the separator splits into itself alone. */
  lemma SplitWithout(a: string, c: char)
    requires c !in a
    ensures Split(a, [c]) == [a]
  {
    forall k: nat | k <= |a| ensures !OccursAt(a, [c], k) {
      if k < |a| {
        assert a[k..k + 1] == [a[k]];
      }
    }
  }

  function IndexOfSpace(s: string): (i: nat)
    ensures i <= |s|
    ensures i < |s| ==> IsSpace(s[i])
    ensures forall j :: 0 <= j < i ==> !IsSpace(s[j])
  {
    if s == [] then 0 else if IsSpace(s[0]) then 0 else 1 + IndexOfSpace(s[1..])
  }

  /** The first white space of `a + b` is the first of `b` when `a` has none. */
  lemma {:induction false} IndexOfSpaceAt(a: string, b: string)
    requires forall j :: 0 <= j < |a| ==> !IsSpace(a[j])
    requires b == [] || IsSpace(b[0])
    ensures IndexOfSpace(a + b) == |a|
  {
    if a != [] {
      assert (a + b)[1..] == a[1..] + b;
      IndexOfSpaceAt(a[1..], b);
    }
  }

  /**
   * `ws` are the maximal runs of non-white-space characters of `s`, in order:
   * `s` is white space up to the first run, the first run ends at white space
   * or at the end, and the rest of `s` holds the other runs.
   */
  ghost predicate IsWords(s: string, ws: seq<string>)
    decreases |ws|
  {
    if ws == [] then AllSpace(s)
    else exists i, j :: 0 <= i < j <= |s| && AllSpace(s[..i]) && s[i..j] == ws[0] && NoSpace(ws[0])
                        && (j == |s| || IsSpace(s[j])) && IsWords(s[j..], ws[1..])
  }

  /** `s.split()`: the maximal runs of non-white-space characters, in order. */
  function Words(s: string): (ws: seq<string>)
    ensures forall i :: 0 <= i < |ws| ==> ws[i] != [] && forall j :: 0 <= j < |ws[i]| ==> !IsSpace(ws[i][j])
    decreases |s|
  {
    var t := LStrip(s);
    if t == [] then []
    else
      var i := IndexOfSpace(t);
      [t[..i]] + Words(t[i..])
  }

  /** The words `split()` gives are the maximal runs of non-white-space characters of `s`, in order. */
  lemma {:induction false} WordsRuns(s: string)
    ensures IsWords(s, Words(s))
    decreases |s|
  {
    var t := LStrip(s);
    LStripSuffix(s);
    if t != [] {
      var i := IndexOfSpace(t);
      var p := |s| - |t|;
      var rest := Words(t[i..]);
      WordsRuns(t[i..]);
      var ws := Words(s);
      assert ws == [t[..i]] + rest && ws[1..] == rest;
      assert s[p..p + i] == t[..i] && s[p + i..] == t[i..];
      assert p + i == |s| || IsSpace(s[p + i]);
    }
  }

  /** A word followed by white space or nothing is the first word. */
  lemma WordsLeading(a: string, b: string)
    requires a != [] && forall j :: 0 <= j < |a| ==> !IsSpace(a[j])
    requires b == [] || IsSpace(b[0])
    ensures Words(a + b) == [a] + Words(b)
  {
    var s := a + b;
    assert LStrip(s) == s;
    IndexOfSpaceAt(a, b);
    assert s[..|a|] == a && s[|a|..] == b;
  }

  /** White space in front changes no word. */
  lemma WordsAfterSpace(s: string)
    ensures Words([' '] + s) == Words(s)
  {
    assert ([' '] + s)[1..] == s;
    assert LStrip([' '] + s) == LStrip(s);
  }

  /** A word, one space and what follows: the word, then the words of the rest. */
  lemma WordThenSpace(a: string, x: string)
    requires a != [] && forall j :: 0 <= j < |a| ==> !IsSpace(a[j])
    ensures Words(a + ([' '] + x)) == [a] + Words(x)
  {
    WordsLeading(a, [' '] + x);
    WordsAfterSpace(x);
  }

  lemma SpacedConcat(a: string, b: string, rest: string)
    ensures a + " " + b + rest == a + ([' '] + (b + rest))
  {
  }

  /** Two words separated by one space, before a tail that starts with white space or is empty. */
  lemma WordsPair(a: string, b: string, rest: string)
    requires a != [] && forall j :: 0 <= j < |a| ==> !IsSpace(a[j])
    requires b != [] && forall j :: 0 <= j < |b| ==> !IsSpace(b[j])
    requires rest == [] || IsSpace(rest[0])
    ensures Words(a + " " + b + rest) == [a, b] + Words(rest)
  {
    SpacedConcat(a, b, rest);
    WordThenSpace(a, b + rest);
    WordsLeading(b, rest);
  }

  function DigitChar(d: nat): (c: char)
    requires d < 10
    ensures IsDigit(c)
  {
    ('0' as int + d) as char
  }

  /** `str(n)` */
  function Decimal(n: nat): (r: string)
    ensures r != [] && forall i :: 0 <= i < |r| ==> IsDigit(r[i])
  {
    if n < 10 then [DigitChar(n)] else Decimal(n / 10) + [DigitChar(n % 10)]
  }

  predicate AllDigits(s: string) {
    forall i :: 0 <= i < |s| ==> IsDigit(s[i])
  }

  function DigitsValue(s: string): nat
    requires AllDigits(s)
  {
    if s == [] then 0 else 10 * DigitsValue(s[..|s| - 1]) + (s[|s| - 1] as int - '0' as int)
  }

  /** Decimal digits with single underscores between them, as Python's `int()` reads them. */
  predicate IsDigitGroup(s: string) {
    && s != [] && IsDigit(s[0]) && IsDigit(s[|s| - 1])
    && (forall i :: 0 <= i < |s| ==> IsDigit(s[i]) || s[i] == '_')
    && (forall i :: 0 <= i < |s| - 1 ==> s[i] == '_' ==> s[i + 1] != '_')
  }

  function WithoutUnderscores(s: string): (r: string)
    requires forall i :: 0 <= i < |s| ==> IsDigit(s[i]) || s[i] == '_'
    ensures AllDigits(r)
    ensures AllDigits(s) ==> r == s
  {
    if s == [] then [] else WithoutUnderscores(s[..|s| - 1]) + (if s[|s| - 1] == '_' then [] else [s[|s| - 1]])
  }

  function GroupValue(s: string): nat
    requires IsDigitGroup(s)
  {
    DigitsValue(WithoutUnderscores(s))
  }

  /** `int(s)` for a string without surrounding white space; None where `int` raises. */
  function ParseInt(s: string): (r: Option<int>)
  {
    if s != [] && (s[0] == '+' || s[0] == '-') then
      if IsDigitGroup(s[1..]) then Some(if s[0] == '-' then -(GroupValue(s[1..]) as int) else GroupValue(s[1..]) as int) else None
    else if IsDigitGroup(s) then Some(GroupValue(s))
    else None
  }

  lemma {:induction false} DecimalValue(n: nat)
    ensures DigitsValue(Decimal(n)) == n
  {
    if n >= 10 {
      DecimalValue(n / 10);
      var d := Decimal(n);
      assert d[..|d| - 1] == Decimal(n / 10);
    }
  }

  /** `int(str(n)) == n`: the decimal text of a natural number reads back as that number. */
  lemma ParseDecimal(n: nat)
    ensures ParseInt(Decimal(n)) == Some(n)
  {
    DecimalValue(n);
    var d := Decimal(n);
    assert IsDigitGroup(d);
  }

  function LineEnd(s: string): (i: nat)
    ensures i <= |s|
    ensures i < |s| ==> IsLineBreak(s[i])
    ensures forall j :: 0 <= j < i ==> !IsLineBreak(s[j])
  {
    if s == [] then 0 else if IsLineBreak(s[0]) then 0 else 1 + LineEnd(s[1..])
  }

  /**
   * The lines of a text file read in text mode, cut at every CR and LF.
   * Python yields one line per "\n", "\r\n" or "\r"; cutting at every CR and
   * LF gives the same lines with an extra empty one after each "\r\n" and at
   * the end, and every reader here skips empty lines.
   */
  function SplitLines(s: string): (lines: seq<string>)
    ensures |lines| >= 1
    ensures forall i :: 0 <= i < |lines| ==> NoLineBreak(lines[i])
    decreases |s|
  {
    var i := LineEnd(s);
    if i == |s| then [s] else [s[..i]] + SplitLines(s[i + 1..])
  }

  /** The text `"".join(line + "\n" for line in lines)`. */
  function Terminated(lines: seq<string>): (text: string)
    ensures |text| >= |lines|
  {
    if lines == [] then [] else Terminated(lines[..|lines| - 1]) + lines[|lines| - 1] + "\n"
  }

  lemma {:induction false} TerminatedFirst(lines: seq<string>)
    requires lines != []
    ensures Terminated(lines) == lines[0] + "\n" + Terminated(lines[1..])
  {
    if |lines| > 1 {
      var n := |lines| - 1;
      var tail := lines[1..];
      TerminatedFirst(lines[..n]);
      assert lines[..n][1..] == tail[..n - 1];
      assert tail[n - 1] == lines[n];
      assert Terminated(tail) == Terminated(tail[..n - 1]) + lines[n] + "\n";
      ConcatFive(lines[0], "\n", Terminated(tail[..n - 1]), lines[n], "\n");
    }
  }

  lemma ConcatFive(a: string, b: string, c: string, d: string, e: string)
    ensures a + b + c + d + e == a + b + (c + d + e)
  {
  }

  /** A line and its newline, read back, are that line and what follows. */
  lemma SplitLinesAt(a: string, rest: string)
    requires NoLineBreak(a)
    ensures SplitLines(a + "\n" + rest) == [a] + SplitLines(rest)
  {
    var s := a + "\n" + rest;
    assert s[|a|] == '\n';
    assert forall j :: 0 <= j < |a| ==> s[j] == a[j];
    assert LineEnd(s) == |a|;
    assert s[..|a|] == a && s[|a| + 1..] == rest;
  }

  /** Reading back terminated lines gives those lines and a last empty one. */
  lemma {:induction false} SplitTerminated(lines: seq<string>)
    requires forall i :: 0 <= i < |lines| ==> NoLineBreak(lines[i])
    ensures SplitLines(Terminated(lines)) == lines + [""]
  {
    if lines != [] {
      var tail := lines[1..];
      TerminatedFirst(lines);
      SplitLinesAt(lines[0], Terminated(tail));
      TailNoLineBreak(lines);
      SplitTerminated(tail);
      calc {
        SplitLines(Terminated(lines));
        SplitLines(lines[0] + "\n" + Terminated(tail));
        [lines[0]] + SplitLines(Terminated(tail));
        [lines[0]] + (tail + [""]);
        { ConsTail(lines, [""]); }
        lines + [""];
      }
    }
  }

  lemma TailNoLineBreak(lines: seq<string>)
    requires lines != [] && forall i :: 0 <= i < |lines| ==> NoLineBreak(lines[i])
    ensures forall i :: 0 <= i < |lines[1..]| ==> NoLineBreak(lines[1..][i])
  {
    assert forall i :: 0 <= i < |lines[1..]| ==> lines[1..][i] == lines[i + 1];
  }

  lemma ConsTail(lines: seq<string>, more: seq<string>)
    requires lines != []
    ensures [lines[0]] + (lines[1..] + more) == lines + more
  {
    assert [lines[0]] + lines[1..] == lines;
  }
}
