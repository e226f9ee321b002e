/** Parsing the uploaded URL list: one URL per line, each line stripped of
    surrounding whitespace, blank lines dropped, order kept. */
module UrlList {

  /** The characters Python's `str.strip()` removes (those `str.isspace()`
      accepts), by code point. */
  predicate IsSpace(c: char) {
    var n := c as int;
    (9 <= n <= 13) || (28 <= n <= 32) || n == 0x85 || n == 0xA0 || n == 0x1680
    || (0x2000 <= n <= 0x200A) || n == 0x2028 || n == 0x2029 || n == 0x202F
    || n == 0x205F || n == 0x3000
  }

  /** Neither the first nor the last character is whitespace. */
  predicate IsStripped(s: string) {
    s == [] || (!IsSpace(s[0]) && !IsSpace(s[|s| - 1]))
  }

  /** Drops leading whitespace: the result is a suffix of `s`, everything
      dropped is whitespace, and the result does not start with whitespace. */
  function TrimStart(s: string): (r: string)
    ensures |r| <= |s| && r == s[|s| - |r|..]
    ensures forall k :: 0 <= k < |s| - |r| ==> IsSpace(s[k])
    ensures r == [] || !IsSpace(r[0])
  {
    if s != [] && IsSpace(s[0]) then TrimStart(s[1..]) else s
  }

  /** Drops trailing whitespace: the result is a prefix of `s`, everything
      dropped is whitespace, and the result does not end with whitespace. */
  function TrimEnd(s: string): (r: string)
    ensures |r| <= |s| && r == s[..|r|]
    ensures forall k :: |r| <= k < |s| ==> IsSpace(s[k])
    ensures r == [] || !IsSpace(r[|r| - 1])
  {
    if s != [] && IsSpace(s[|s| - 1]) then TrimEnd(s[..|s| - 1]) else s
  }

  /** `r` occurs in `s` at position `i`, with only whitespace before and after it. */
  predicate IsSpacedInfix(r: string, s: string, i: nat) {
    i + |r| <= |s| && r == s[i..i + |r|]
    && (forall k :: 0 <= k < i ==> IsSpace(s[k]))
    && (forall k :: i + |r| <= k < |s| ==> IsSpace(s[k]))
  }

  /** `str.strip()`: the result has no surrounding whitespace and is the
      stretch of `s` left once only whitespace is cut from both ends, so it
      loses none of the non-whitespace characters. */
  function Strip(s: string): (r: string)
    ensures IsStripped(r)
    ensures exists i :: IsSpacedInfix(r, s, i)
    ensures forall k :: 0 <= k < |s| && !IsSpace(s[k]) ==> s[k] in r
  {
    var t := TrimStart(s);
    var r := TrimEnd(t);
    TrimmedInfix(s, t, r);
    r
  }

  /** A prefix `r` of a suffix `t` of `s`, with only whitespace cut off at
      either end and none left at either end, is a stretch of `s` without
      surrounding whitespace and with only whitespace around it, holding every
      non-whitespace character of `s`. */
  lemma TrimmedInfix(s: string, t: string, r: string)
    requires |t| <= |s| && t == s[|s| - |t|..]
    requires forall k :: 0 <= k < |s| - |t| ==> IsSpace(s[k])
    requires t == [] || !IsSpace(t[0])
    requires |r| <= |t| && r == t[..|r|]
    requires forall k :: |r| <= k < |t| ==> IsSpace(t[k])
    requires r == [] || !IsSpace(r[|r| - 1])
    ensures IsStripped(r)
    ensures IsSpacedInfix(r, s, |s| - |t|)
    ensures forall k :: 0 <= k < |s| && !IsSpace(s[k]) ==> s[k] in r
  {
    var i := |s| - |t|;
    if r != [] {
      assert r[0] == t[0];
    }
    assert r == s[i..i + |r|];
    forall k | i + |r| <= k < |s| ensures IsSpace(s[k]) {
      assert s[k] == t[k - i];
    }
    forall k | 0 <= k < |s| && !IsSpace(s[k]) ensures s[k] in r {
      assert r[k - i] == s[k];
    }
  }

  /** The contract of Strip determines its result: any stretch of `s` with no
      surrounding whitespace of its own and only whitespace around it in `s`
      is the stripped line. */
  lemma StripUnique(s: string, r: string, i: nat)
    requires IsStripped(r) && IsSpacedInfix(r, s, i)
    ensures r == Strip(s)
  {
    var t := Strip(s);
    var j :| IsSpacedInfix(t, s, j);
    SpacedInfixUnique(s, r, i, t, j);
  }

  /** Two stretches of `s`, each without surrounding whitespace and with only
      whitespace around it, are the same stretch. */
  lemma SpacedInfixUnique(s: string, r: string, i: nat, t: string, j: nat)
    requires IsStripped(r) && IsSpacedInfix(r, s, i)
    requires IsStripped(t) && IsSpacedInfix(t, s, j)
    ensures r == t
  {
    if r != [] && t != [] {
      assert s[i] == r[0] && s[j] == t[0];
      assert s[i + |r| - 1] == r[|r| - 1] && s[j + |t| - 1] == t[|t| - 1];
      assert i == j;
      assert |r| == |t|;
    }
  }

  /** A string without surrounding whitespace is left as it is. */
  lemma StripStripped(s: string)
    requires IsStripped(s)
    ensures Strip(s) == s
  {
  }

  /** The pieces of `s[..n]` between newline characters, read left to right:
      a newline starts a new, empty line; any other character extends the
      last line. */
  function LinesUpTo(s: string, n: nat): (ls: seq<string>)
    requires n <= |s|
    ensures |ls| > 0
  {
    if n == 0 then [[]]
    else
      var prev := LinesUpTo(s, n - 1);
      var c := s[n - 1];
      if c == '\n' then prev + [[]]
      else prev[..|prev| - 1] + [prev[|prev| - 1] + [c]]
  }

  /** The pieces of `s` between newline characters, like `s.split("\n")`. */
  function Lines(s: string): (ls: seq<string>)
    ensures |ls| > 0
  {
    LinesUpTo(s, |s|)
  }

  /** No line holds a newline; there is one line more than there are newlines. */
  lemma {:induction false} LinesUpToNoNewline(s: string, n: nat)
    requires n <= |s|
    ensures forall k :: 0 <= k < |LinesUpTo(s, n)| ==> '\n' !in LinesUpTo(s, n)[k]
    ensures |LinesUpTo(s, n)| == multiset(s[..n])['\n'] + 1
    decreases n
  {
    if n > 0 {
      LinesUpToNoNewline(s, n - 1);
      assert s[..n] == s[..n - 1] + [s[n - 1]];
    }
  }

  lemma LinesNoNewline(s: string)
    ensures forall k :: 0 <= k < |Lines(s)| ==> '\n' !in Lines(s)[k]
    ensures |Lines(s)| == multiset(s)['\n'] + 1
  {
    LinesUpToNoNewline(s, |s|);
    assert s[..|s|] == s;
  }

  /** `f` applied to each line. */
  function MapLines(f: string -> string, lines: seq<string>): seq<string> {
    seq(|lines|, k requires 0 <= k < |lines| => f(lines[k]))
  }

  /** Mapping over two pieces, one after the other, is mapping over each. */
  lemma MapLinesAppend(f: string -> string, a: seq<string>, b: seq<string>)
    ensures MapLines(f, a + b) == MapLines(f, a) + MapLines(f, b)
  {
    var l, r := MapLines(f, a + b), MapLines(f, a) + MapLines(f, b);
    forall k | 0 <= k < |l| ensures l[k] == r[k] {
      if k < |a| {
        assert (a + b)[k] == a[k];
      } else {
        assert (a + b)[k] == b[k - |a|];
      }
    }
  }

  /** Each line stripped: the k-th result is the k-th line stripped, and so
      has no surrounding whitespace. */
  function StripAll(lines: seq<string>): (r: seq<string>)
    ensures |r| == |lines|
    ensures forall k :: 0 <= k < |r| ==> r[k] == Strip(lines[k]) && IsStripped(r[k])
  {
    MapLines(Strip, lines)
  }

  /** The non-empty strings, in order. */
  function DropBlank(ss: seq<string>): (r: seq<string>)
    ensures forall k :: 0 <= k < |r| ==> r[k] != [] && r[k] in ss
    ensures |r| <= |ss|
  {
    if ss == [] then []
    else (if ss[0] == [] then [] else [ss[0]]) + DropBlank(ss[1..])
  }

  /** Dropping blanks from two pieces, one after the other, is dropping them
      from each piece. */
  lemma {:induction false} DropBlankAppend(a: seq<string>, b: seq<string>)
    ensures DropBlank(a + b) == DropBlank(a) + DropBlank(b)
    decreases |a|
  {
    if a == [] {
      assert a + b == b;
    } else {
      assert (a + b)[0] == a[0];
      assert (a + b)[1..] == a[1..] + b;
      DropBlankAppend(a[1..], b);
    }
  }

  /** Exactly the non-empty strings are kept. */
  lemma {:induction false} DropBlankMembers(ss: seq<string>)
    ensures forall x :: x in DropBlank(ss) <==> x in ss && x != []
    decreases |ss|
  {
    if ss != [] {
      DropBlankMembers(ss[1..]);
      assert ss == [ss[0]] + ss[1..];
    }
  }

  /** Strings that are all non-empty are kept as they are. */
  lemma {:induction false} DropBlankOfNonBlank(ss: seq<string>)
    requires forall k :: 0 <= k < |ss| ==> ss[k] != []
    ensures DropBlank(ss) == ss
    decreases |ss|
  {
    if ss != [] {
      DropBlankOfNonBlank(ss[1..]);
      assert ss == [ss[0]] + ss[1..];
    }
  }

  /** The uploaded list, as `[line.strip() for line in lines if line.strip()]`:
      every kept URL is non-empty and stripped, and there are no more of them
      than lines. */
  function KeepNonBlank(lines: seq<string>): (urls: seq<string>)
    ensures forall k :: 0 <= k < |urls| ==> urls[k] != [] && IsStripped(urls[k])
    ensures |urls| <= |lines|
  {
    DropBlank(StripAll(lines))
  }

  /** The URLs of an uploaded text: its stripped non-blank lines, in order.
      Each is non-empty, has no surrounding whitespace and no newline. */
  function ParseUrlList(content: string): (urls: seq<string>)
    ensures forall k :: 0 <= k < |urls| ==> urls[k] != [] && IsStripped(urls[k]) && '\n' !in urls[k]
  {
    var ls := Lines(content);
    LinesNoNewline(content);
    var urls := KeepNonBlank(ls);
    ParseUrlListNoNewline(ls);
    urls
  }

  /** A stretch of `s` takes its characters from `s`. */
  lemma SpacedInfixChars(r: string, s: string, i: nat)
    requires IsSpacedInfix(r, s, i)
    ensures forall c :: c in r ==> c in s
  {
    forall c | c in r ensures c in s {
      var k :| 0 <= k < |r| && r[k] == c;
      assert s[i..i + |r|][k] == s[i + k];
    }
  }

  /** Stripping takes its characters from the line. */
  lemma StripChars(s: string)
    ensures forall c :: c in Strip(s) ==> c in s
  {
    var i: nat :| IsSpacedInfix(Strip(s), s, i);
    SpacedInfixChars(Strip(s), s, i);
  }

  /** Keeping the non-blank lines keeps lines that hold no newline. */
  lemma ParseUrlListNoNewline(lines: seq<string>)
    requires forall k :: 0 <= k < |lines| ==> '\n' !in lines[k]
    ensures forall k :: 0 <= k < |KeepNonBlank(lines)| ==> '\n' !in KeepNonBlank(lines)[k]
  {
    var stripped := StripAll(lines);
    var kept := KeepNonBlank(lines);
    DropBlankMembers(stripped);
    forall k | 0 <= k < |kept| ensures '\n' !in kept[k] {
      assert kept[k] in stripped;
      var j :| 0 <= j < |stripped| && stripped[j] == kept[k];
      StripChars(lines[j]);
    }
  }

  /** A text holding each URL on its own line, each line ending in a newline. */
  function JoinLines(urls: seq<string>): string {
    if urls == [] then [] else urls[0] + ['\n'] + JoinLines(urls[1..])
  }

  lemma {:induction false} LinesUpToOfLine(u: string, n: nat)
    requires n <= |u| && '\n' !in u
    ensures LinesUpTo(u, n) == [u[..n]]
    decreases n
  {
    if n > 0 {
      LinesUpToOfLine(u, n - 1);
      assert u[..n - 1] + [u[n - 1]] == u[..n];
    }
  }

  /** Text without a newline is a single line. */
  lemma LinesOfLine(u: string)
    requires '\n' !in u
    ensures Lines(u) == [u]
  {
    LinesUpToOfLine(u, |u|);
    assert u[..|u|] == u;
  }

  /** Texts that agree on their first `n` characters have the same lines there. */
  lemma {:induction false} LinesUpToAgree(s: string, u: string, n: nat)
    requires n <= |s| && n <= |u|
    requires forall k :: 0 <= k < n ==> s[k] == u[k]
    ensures LinesUpTo(s, n) == LinesUpTo(u, n)
    decreases n
  {
    if n > 0 {
      LinesUpToAgree(s, u, n - 1);
    }
  }

  /** Extending the last line of `ls + lt` extends the last line of `lt`. */
  lemma ExtendLastOfConcat(ls: seq<string>, lt: seq<string>, c: char)
    requires |lt| > 0
    ensures var lw := ls + lt;
      lw[..|lw| - 1] + [lw[|lw| - 1] + [c]] == ls + (lt[..|lt| - 1] + [lt[|lt| - 1] + [c]])
  {
    var lw := ls + lt;
    assert lw[..|lw| - 1] == ls + lt[..|lt| - 1];
  }

  /** Up to and including the joining newline: the lines of `s`, then an empty one. */
  lemma LinesUpToAppendBase(s: string, t: string)
    ensures LinesUpTo(s + ['\n'] + t, |s| + 1) == Lines(s) + LinesUpTo(t, 0)
  {
    var u := s + ['\n'] + t;
    LinesUpToAgree(s, u, |s|);
    assert u[|s|] == '\n';
  }

  /** One more character of `t` changes only the lines that come from `t`. */
  lemma LinesUpToAppendStep(s: string, t: string, m: nat)
    requires 0 < m <= |t|
    requires LinesUpTo(s + ['\n'] + t, |s| + m) == Lines(s) + LinesUpTo(t, m - 1)
    ensures LinesUpTo(s + ['\n'] + t, |s| + 1 + m) == Lines(s) + LinesUpTo(t, m)
  {
    var u := s + ['\n'] + t;
    var ls, lt := Lines(s), LinesUpTo(t, m - 1);
    var c := t[m - 1];
    assert u[|s| + m] == c;
    if c == '\n' {
      assert LinesUpTo(u, |s| + 1 + m) == ls + lt + [[]];
      assert ls + lt + [[]] == ls + (lt + [[]]);
    } else {
      ExtendLastOfConcat(ls, lt, c);
    }
  }

  /** The lines of `s`, a newline and the first `m` characters of `t`. */
  lemma {:induction false} LinesUpToAppend(s: string, t: string, m: nat)
    requires m <= |t|
    ensures LinesUpTo(s + ['\n'] + t, |s| + 1 + m) == Lines(s) + LinesUpTo(t, m)
    decreases m
  {
    if m == 0 {
      LinesUpToAppendBase(s, t);
    } else {
      LinesUpToAppend(s, t, m - 1);
      LinesUpToAppendStep(s, t, m);
    }
  }

  /** Splitting at a newline splits the list of lines there. */
  lemma LinesAppend(s: string, t: string)
    ensures Lines(s + ['\n'] + t) == Lines(s) + Lines(t)
  {
    LinesUpToAppend(s, t, |t|);
  }

  /** The text of joined URLs splits back into the URLs and a final empty line. */
  lemma {:induction false} LinesOfJoin(urls: seq<string>)
    requires forall k :: 0 <= k < |urls| ==> '\n' !in urls[k]
    ensures Lines(JoinLines(urls)) == urls + [[]]
    decreases |urls|
  {
    if urls != [] {
      LinesOfJoin(urls[1..]);
      LinesAppend(urls[0], JoinLines(urls[1..]));
      LinesOfLine(urls[0]);
      assert urls == [urls[0]] + urls[1..];
    }
  }

  /** Non-blank stripped URLs followed by an empty line keep exactly the URLs. */
  lemma KeepNonBlankOfUrls(urls: seq<string>)
    requires forall k :: 0 <= k < |urls| ==> urls[k] != [] && IsStripped(urls[k])
    ensures KeepNonBlank(urls + [[]]) == urls
  {
    KeepNonBlankAppend(urls, [[]]);
    forall k | 0 <= k < |urls| ensures StripAll(urls)[k] == urls[k] {
      StripStripped(urls[k]);
    }
    assert StripAll(urls) == urls;
    DropBlankOfNonBlank(urls);
    StripStripped([]);
    KeepNonBlankOne([]);
  }

  /** Keeping the non-blank lines of two pieces of text, one after the other,
      is keeping those of each piece, in order. */
  lemma KeepNonBlankAppend(a: seq<string>, b: seq<string>)
    ensures KeepNonBlank(a + b) == KeepNonBlank(a) + KeepNonBlank(b)
  {
    MapLinesAppend(Strip, a, b);
    DropBlankAppend(StripAll(a), StripAll(b));
  }

  /** Every line that strips to something non-empty contributes its stripped
      form, and every kept URL is the stripped form of some line. */
  lemma KeepNonBlankMembers(lines: seq<string>)
    ensures forall k :: 0 <= k < |lines| && Strip(lines[k]) != [] ==> Strip(lines[k]) in KeepNonBlank(lines)
    ensures forall u :: u in KeepNonBlank(lines) ==> exists k :: 0 <= k < |lines| && u == Strip(lines[k])
  {
    var stripped := StripAll(lines);
    DropBlankMembers(stripped);
    forall k | 0 <= k < |lines| && Strip(lines[k]) != [] ensures Strip(lines[k]) in KeepNonBlank(lines) {
      assert stripped[k] == Strip(lines[k]);
    }
  }

  /** Text written as any newline-free lines, one per line, parses to the
      stripped forms of its non-blank lines, in order. */
  lemma ParseJoinedLines(lines: seq<string>)
    requires forall k :: 0 <= k < |lines| ==> '\n' !in lines[k]
    ensures ParseUrlList(JoinLines(lines)) == KeepNonBlank(lines)
  {
    LinesOfJoin(lines);
    KeepNonBlankAppend(lines, [[]]);
    assert KeepNonBlank([[]]) == [];
  }

  /** A list of one line keeps its stripped form unless that is empty. */
  lemma KeepNonBlankOne(line: string)
    ensures KeepNonBlank([line]) == if Strip(line) == [] then [] else [Strip(line)]
  {
    assert StripAll([line]) == [Strip(line)];
    assert DropBlank([Strip(line)]) == (if Strip(line) == [] then [] else [Strip(line)]) + DropBlank([]);
  }

  /** A URL followed by a carriage return is kept without it. */
  lemma KeepReturn(u: string)
    requires u != [] && IsStripped(u)
    ensures KeepNonBlank([u + "\r"]) == [u]
  {
    assert IsSpacedInfix(u, u + "\r", 0);
    StripUnique(u + "\r", u, 0);
    KeepNonBlankOne(u + "\r");
  }

  /** A line of spaces is dropped. */
  lemma KeepSpaces()
    ensures KeepNonBlank(["  "]) == []
  {
    assert IsSpacedInfix([], "  ", 0);
    StripUnique("  ", [], 0);
    KeepNonBlankOne("  ");
  }

  /** A URL indented by a space is kept without the space. */
  lemma KeepIndent(v: string)
    requires v != [] && IsStripped(v)
    ensures KeepNonBlank([" " + v]) == [v]
  {
    assert IsSpacedInfix(v, " " + v, 1);
    StripUnique(" " + v, v, 1);
    KeepNonBlankOne(" " + v);
  }

  /** A list of three lines is the concatenation of its one-line lists. */
  lemma ThreeLines(l0: string, l1: string, l2: string)
    ensures [l0, l1, l2] == [l0] + [l1] + [l2]
  {
  }

  /** Three lines keep what each keeps alone, in order. */
  lemma KeepNonBlankThree(l0: string, l1: string, l2: string)
    ensures KeepNonBlank([l0, l1, l2]) == KeepNonBlank([l0]) + KeepNonBlank([l1]) + KeepNonBlank([l2])
  {
    ThreeLines(l0, l1, l2);
    KeepNonBlankAppend([l0] + [l1], [l2]);
    KeepNonBlankAppend([l0], [l1]);
  }

  /** The padded lines of PaddedLinesExample keep the two bare URLs. */
  lemma PaddedLinesKept(u: string, v: string)
    requires u != [] && IsStripped(u)
    requires v != [] && IsStripped(v)
    ensures KeepNonBlank([u + "\r", "  ", " " + v]) == [u, v]
  {
    KeepNonBlankThree(u + "\r", "  ", " " + v);
    KeepReturn(u);
    KeepSpaces();
    KeepIndent(v);
  }

  /** A URL followed by a carriage return, a line of spaces and a URL indented
      by a space parse to the two bare URLs. */
  lemma PaddedLinesExample(u: string, v: string)
    requires u != [] && IsStripped(u) && '\n' !in u
    requires v != [] && IsStripped(v) && '\n' !in v
    ensures ParseUrlList(JoinLines([u + "\r", "  ", " " + v])) == [u, v]
  {
    var lines := [u + "\r", "  ", " " + v];
    assert forall k :: 0 <= k < |lines| ==> '\n' !in lines[k];
    ParseJoinedLines(lines);
    PaddedLinesKept(u, v);
  }

  /** Writing non-blank, already stripped URLs one per line and parsing the
      text gives back exactly those URLs, in the same order. */
  lemma ParseJoinRoundTrip(urls: seq<string>)
    requires forall k :: 0 <= k < |urls| ==> urls[k] != [] && IsStripped(urls[k]) && '\n' !in urls[k]
    ensures ParseUrlList(JoinLines(urls)) == urls
  {
    LinesOfJoin(urls);
    KeepNonBlankOfUrls(urls);
  }
}
