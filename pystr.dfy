/** The Python string primitives the preprocessor relies on (`str.strip`,
    `str.lower`, `str.split`, `str.join`, `str.splitlines`, `textwrap.indent`,
    `textwrap.dedent`), specified on `seq<char>`. */
module PyStr {

  datatype Option<+T> = None | Some(value: T)

  /** `str.isspace()` on one character; the same set is what `\s` matches in
      a regular expression over `str`. */
  predicate IsSpace(c: char) {
    || ('\t' <= c <= '\r')
    || ('\U{1C}' <= c <= ' ')
    || c == '\U{85}' || c == '\U{A0}' || c == '\U{1680}'
    || ('\U{2000}' <= c <= '\U{200A}')
    || c == '\U{2028}' || c == '\U{2029}' || c == '\U{202F}' || c == '\U{205F}' || c == '\U{3000}'
  }

  /** The line boundaries of `str.splitlines` (where "\r\n" also counts as one). */
  predicate IsLineBreak(c: char) {
    || c == '\n' || c == '\r' || c == '\U{0B}' || c == '\U{0C}'
    || ('\U{1C}' <= c <= '\U{1E}')
    || c == '\U{85}' || c == '\U{2028}' || c == '\U{2029}'
  }

  predicate NotLineBreak(c: char) { !IsLineBreak(c) }

  predicate All(s: string, p: char -> bool) {
    forall i :: 0 <= i < |s| ==> p(s[i])
  }

  // ---------------------------------------------------------------- strip

  /** Length of the longest prefix of `s` whose characters all satisfy `p`. */
  function LeadLen(s: string, p: char -> bool): (n: nat)
    ensures n <= |s|
    ensures All(s[..n], p)
    ensures n < |s| ==> !p(s[n])
  {
    if s == [] || !p(s[0]) then 0 else 1 + LeadLen(s[1..], p)
  }

  /** Length of the longest suffix of `s` whose characters all satisfy `p`. */
  function TrailLen(s: string, p: char -> bool): (n: nat)
    ensures n <= |s|
    ensures forall k :: |s| - n <= k < |s| ==> p(s[k])
    ensures n < |s| ==> !p(s[|s| - 1 - n])
  {
    if s == [] || !p(s[|s| - 1]) then 0 else 1 + TrailLen(s[..|s| - 1], p)
  }

  /** `s.strip(chars)` where `chars` is described by `p`: removes the longest
      prefix and the longest suffix made of such characters. */
  function StripBy(s: string, p: char -> bool): (r: string)
    ensures |r| <= |s|
    ensures exists i :: 0 <= i <= |s| - |r| && s[i..i + |r|] == r
                        && All(s[..i], p) && forall k :: i + |r| <= k < |s| ==> p(s[k])
  {
    var i := LeadLen(s, p);
    var t := s[i..];
    var n := TrailLen(t, p);
    var r := s[i..|s| - n];
    assert s[i..i + |r|] == r;
    assert forall k :: i + |r| <= k < |s| ==> s[k] == t[k - i];
    r
  }

  /** What is left starts and ends with a kept character; nothing is left
      exactly when every character is stripped; a string whose two ends are
      kept comes back unchanged. */
  lemma StripByEnds(s: string, p: char -> bool)
    ensures var r := StripBy(s, p);
            && (r != [] ==> !p(r[0]) && !p(r[|r| - 1]))
            && (r == [] <==> All(s, p))
            && (s != [] && !p(s[0]) && !p(s[|s| - 1]) ==> r == s)
  {
    var i := LeadLen(s, p);
    var t := s[i..];
    var n := TrailLen(t, p);
    var r := s[i..|s| - n];
    assert StripBy(s, p) == r;
    if r != [] {
      assert r[0] == t[0];
      assert r[|r| - 1] == t[|t| - 1 - n];
    } else {
      assert s[..i] == s;
    }
    assert All(s, p) ==> i == |s|;
  }

  /** Stripping never introduces a character. */
  lemma StripKeepsOut(s: string, c: char)
    requires c !in s
    ensures c !in Strip(s)
  {
    var r := Strip(s);
    var i :| 0 <= i <= |s| - |r| && s[i..i + |r|] == r && All(s[..i], IsSpace) && All(s[i + |r|..], IsSpace);
    forall k | 0 <= k < |r| ensures r[k] != c { assert r[k] == s[i + k]; }
  }

  /** `s.strip()`. */
  function Strip(s: string): (r: string)
    ensures r != [] ==> !IsSpace(r[0]) && !IsSpace(r[|r| - 1])
    ensures r == [] <==> All(s, IsSpace)
  {
    StripByEnds(s, IsSpace);
    StripBy(s, IsSpace)
  }

  /** The characters of `strip('"\'')`. */
  predicate IsQuote(c: char) { c == '"' || c == '\'' }

  /** Stripping twice is stripping once. */
  lemma StripByIdempotent(s: string, p: char -> bool)
    ensures StripBy(StripBy(s, p), p) == StripBy(s, p)
  {
    var r := StripBy(s, p);
    StripByEnds(s, p);
    StripByEnds(r, p);
    if r == [] {
      assert StripBy(r, p) == [] by { StripByEnds(r, p); }
    }
  }

  // ---------------------------------------------------------------- lower

  function LowerChar(c: char): char {
    if 'A' <= c <= 'Z' then (c as int + 32) as char else c
  }

  /** `s.lower()` on ASCII letters. */
  function Lower(s: string): (r: string)
    ensures |r| == |s|
    ensures forall i :: 0 <= i < |s| ==> r[i] == LowerChar(s[i])
  {
    if s == [] then [] else [LowerChar(s[0])] + Lower(s[1..])
  }

  // ---------------------------------------------------------------- split / join

  /** `sep.join(parts)`. */
  function Join(sep: string, parts: seq<string>): string {
    if |parts| == 0 then ""
    else if |parts| == 1 then parts[0]
    else parts[0] + sep + Join(sep, parts[1..])
  }

  function IndexOf(s: string, c: char): (i: nat)
    requires c in s
    ensures i < |s| && s[i] == c && c !in s[..i]
  {
    if s[0] == c then 0 else 1 + IndexOf(s[1..], c)
  }

  /** `s.split(sep)` for a one-character separator: never empty, no piece
      holds the separator, and joining the pieces gives `s` back. */
  function Split(s: string, sep: char): (r: seq<string>)
    ensures |r| >= 1
    ensures forall i :: 0 <= i < |r| ==> sep !in r[i]
    ensures Join([sep], r) == s
    decreases |s|
  {
    if sep !in s then [s]
    else
      var i := IndexOf(s, sep);
      var rest := Split(s[i + 1..], sep);
      assert s == s[..i] + [sep] + s[i + 1..];
      [s[..i]] + rest
  }

  /** Splitting what was joined gives the pieces back when no piece holds the separator. */
  lemma {:induction false} SplitJoin(parts: seq<string>, sep: char)
    requires |parts| >= 1
    requires forall i :: 0 <= i < |parts| ==> sep !in parts[i]
    ensures Split(Join([sep], parts), sep) == parts
  {
    if |parts| > 1 {
      var s := Join([sep], parts);
      var p0 := parts[0];
      assert s == p0 + [sep] + Join([sep], parts[1..]);
      assert sep !in p0;
      assert s[|p0|] == sep;
      assert sep in s;
      var i := IndexOf(s, sep);
      assert s[..|p0|] == p0;
      assert i == |p0|;
      assert s[..i] == p0;
      assert s[i + 1..] == Join([sep], parts[1..]);
      SplitJoin(parts[1..], sep);
    }
  }

  // ---------------------------------------------------------------- splitlines / indent

  /** Length of the first line of `s` as `splitlines(True)` cuts it, its
      line boundary included. */
  function FirstLineLen(s: string): (n: nat)
    requires s != []
    ensures 0 < n <= |s|
    ensures n < |s| ==> IsLineBreak(s[n - 1])
  {
    var k := LeadLen(s, NotLineBreak);
    if k == |s| then k
    else if s[k] == '\r' && k + 1 < |s| && s[k + 1] == '\n' then
      k + 2
    else k + 1
  }

  /** The lines of `s` as `s.splitlines(True)` yields them. */
  function SplitLinesKeepEnds(s: string): (r: seq<string>)
    ensures forall i :: 0 <= i < |r| ==> r[i] != []
    decreases |s|
  {
    if s == [] then [] else [s[..FirstLineLen(s)]] + SplitLinesKeepEnds(s[FirstLineLen(s)..])
  }

  predicate EndsInBreak(line: string) {
    line != [] && IsLineBreak(line[|line| - 1])
  }

  /** Every line but the last ends with its line boundary. */
  lemma {:induction false} SplitLinesEnds(s: string)
    ensures forall i :: 0 <= i < |SplitLinesKeepEnds(s)| - 1 ==> EndsInBreak(SplitLinesKeepEnds(s)[i])
    decreases |s|
  {
    if s != [] {
      var n := FirstLineLen(s);
      var tail := SplitLinesKeepEnds(s[n..]);
      var lines := SplitLinesKeepEnds(s);
      assert lines == [s[..n]] + tail;
      SplitLinesEnds(s[n..]);
      forall i | 0 <= i < |lines| - 1
        ensures EndsInBreak(lines[i])
      {
        if i == 0 {
          assert tail != [] && n < |s|;
          assert lines[0] == s[..n] && lines[0][n - 1] == s[n - 1];
        } else {
          assert lines[i] == tail[i - 1];
        }
      }
    }
  }

  /** The first line holds no line boundary before its own, and a `\r`
      ending it is not followed by `\n` (`\r\n` is one boundary). */
  lemma FirstLineBreaks(s: string)
    requires s != []
    ensures var n := FirstLineLen(s);
            OneLine(s[..n]) && (n < |s| && s[n - 1] == '\r' ==> s[n] != '\n')
  {
    var n := FirstLineLen(s);
    var k := LeadLen(s, NotLineBreak);
    assert forall i :: 0 <= i < k ==> s[..k][i] == s[i];
    assert s[..n][..] == s[..n];
  }

  /** A line as `splitlines` cuts it: a line boundary may only end it, as one
      character or as `\r\n`. */
  predicate OneLine(line: string) {
    forall j :: 0 <= j < |line| - 1 ==>
      !IsLineBreak(line[j]) || (j == |line| - 2 && line[j] == '\r' && line[j + 1] == '\n')
  }

  /** Every line `splitlines(True)` yields holds a single line: no boundary
      occurs before its end. */
  lemma {:induction false} SplitLinesOneLine(s: string)
    ensures forall i :: 0 <= i < |SplitLinesKeepEnds(s)| ==> OneLine(SplitLinesKeepEnds(s)[i])
    decreases |s|
  {
    if s != [] {
      var n := FirstLineLen(s);
      var tail := SplitLinesKeepEnds(s[n..]);
      var lines := SplitLinesKeepEnds(s);
      assert lines == [s[..n]] + tail;
      SplitLinesOneLine(s[n..]);
      FirstLineBreaks(s);
      forall i | 0 <= i < |lines|
        ensures OneLine(lines[i])
      {
        if i > 0 {
          assert lines[i] == tail[i - 1];
        }
      }
    }
  }

  predicate CrThenLf(line: string, next: string) {
    line != [] && next != [] && line[|line| - 1] == '\r' && next[0] == '\n'
  }

  /** `splitlines` never cuts between the `\r` and the `\n` of `\r\n`. */
  lemma {:induction false} SplitLinesKeepsCrLf(s: string)
    ensures forall i :: 0 <= i < |SplitLinesKeepEnds(s)| - 1 ==>
              !CrThenLf(SplitLinesKeepEnds(s)[i], SplitLinesKeepEnds(s)[i + 1])
    decreases |s|
  {
    if s != [] {
      var n := FirstLineLen(s);
      var tail := SplitLinesKeepEnds(s[n..]);
      var lines := SplitLinesKeepEnds(s);
      assert lines == [s[..n]] + tail;
      SplitLinesKeepsCrLf(s[n..]);
      forall i | 0 <= i < |lines| - 1
        ensures !CrThenLf(lines[i], lines[i + 1])
      {
        if i == 0 {
          assert tail != [] && n < |s|;
          FirstLineBreaks(s);
          assert tail[0] == s[n..][..FirstLineLen(s[n..])];
          assert tail[0][0] == s[n];
          assert lines[0][n - 1] == s[n - 1];
        } else {
          assert lines[i] == tail[i - 1] && lines[i + 1] == tail[i];
        }
      }
    }
  }

  /** `"".join(lines)`. */
  function Concat(lines: seq<string>): string {
    if lines == [] then "" else lines[0] + Concat(lines[1..])
  }

  lemma {:induction false} SplitLinesConcat(s: string)
    ensures Concat(SplitLinesKeepEnds(s)) == s
    decreases |s|
  {
    if s != [] {
      var n := FirstLineLen(s);
      var rest := SplitLinesKeepEnds(s[n..]);
      assert SplitLinesKeepEnds(s) == [s[..n]] + rest;
      SplitLinesConcat(s[n..]);
      ConcatCons(s[..n], rest);
      CutAt(s, n);
    }
  }

  lemma CutAt(s: string, n: nat)
    requires n <= |s|
    ensures s[..n] + s[n..] == s
  {
  }

  lemma ConcatCons(line: string, lines: seq<string>)
    ensures Concat([line] + lines) == line + Concat(lines)
  {
    assert ([line] + lines)[1..] == lines;
  }

  /** Whether `textwrap.indent`'s default predicate (`line.strip()`) holds. */
  predicate IsNonBlank(line: string) {
    LeadLen(line, IsSpace) < |line|
  }

  /** A line is non-blank exactly when it holds a non-whitespace character,
      which is exactly when `line.strip()` is non-empty. */
  lemma NonBlankIsStrip(line: string)
    ensures IsNonBlank(line) <==> exists i :: 0 <= i < |line| && !IsSpace(line[i])
    ensures IsNonBlank(line) <==> Strip(line) != []
  {
    var n := LeadLen(line, IsSpace);
    assert line[..|line|] == line;
    if n == |line| {
      assert All(line, IsSpace);
    } else {
      assert !IsSpace(line[n]);
    }
  }

  /** Number of lines of `s` that `textwrap.indent` prefixes. */
  function NonBlankLines(s: string): nat
    decreases |s|
  {
    if s == [] then 0
    else (if IsNonBlank(s[..FirstLineLen(s)]) then 1 else 0) + NonBlankLines(s[FirstLineLen(s)..])
  }

  /** `textwrap.indent(s, prefix)`: every line holding a non-whitespace
      character gets `prefix` in front; the others are kept as they are. */
  function Indent(s: string, prefix: string): (r: string)
    decreases |s|
  {
    if s == [] then []
    else
      PrefixLine(s[..FirstLineLen(s)], prefix) + Indent(s[FirstLineLen(s)..], prefix)
  }

  /** One line as `textwrap.indent` writes it. */
  function PrefixLine(line: string, prefix: string): string {
    if IsNonBlank(line) then prefix + line else line
  }

  /** `indent` works line by line: the lines of `splitlines(True)`, each
      prefixed when it is non-blank and kept as it is otherwise, concatenated
      in order. */
  lemma {:induction false} IndentLineWise(s: string, prefix: string)
    ensures var lines := SplitLinesKeepEnds(s);
            Indent(s, prefix) == Concat(seq(|lines|, i requires 0 <= i < |lines| => PrefixLine(lines[i], prefix)))
    decreases |s|
  {
    var lines := SplitLinesKeepEnds(s);
    var each := seq(|lines|, i requires 0 <= i < |lines| => PrefixLine(lines[i], prefix));
    if s == [] {
      assert each == [];
    } else {
      var n := FirstLineLen(s);
      var tail := SplitLinesKeepEnds(s[n..]);
      assert lines == [s[..n]] + tail;
      var eachTail := seq(|tail|, i requires 0 <= i < |tail| => PrefixLine(tail[i], prefix));
      assert each == [PrefixLine(s[..n], prefix)] + eachTail;
      IndentLineWise(s[n..], prefix);
      IndentStep(s, prefix, n);
      ConcatCons(PrefixLine(s[..n], prefix), eachTail);
    }
  }

  /** Indenting only inserts the prefix once per non-blank line. */
  lemma {:induction false} IndentLength(s: string, prefix: string)
    ensures |Indent(s, prefix)| == |s| + |prefix| * NonBlankLines(s)
    decreases |s|
  {
    if s != [] {
      var n := FirstLineLen(s);
      IndentStep(s, prefix, n);
      IndentLength(s[n..], prefix);
      if IsNonBlank(s[..n]) {
        MulSucc(|prefix|, NonBlankLines(s[n..]));
      }
    }
  }

  /** `indent` and the count of non-blank lines, one line at a time. */
  lemma IndentStep(s: string, prefix: string, n: nat)
    requires s != [] && n == FirstLineLen(s)
    ensures Indent(s, prefix) == PrefixLine(s[..n], prefix) + Indent(s[n..], prefix)
    ensures NonBlankLines(s) == (if IsNonBlank(s[..n]) then 1 else 0) + NonBlankLines(s[n..])
    ensures s[..n] + s[n..] == s
  {
    IndentUnfold(s, prefix, n);
    NonBlankUnfold(s, n);
    CutAt(s, n);
  }

  lemma IndentUnfold(s: string, prefix: string, n: nat)
    requires s != [] && n == FirstLineLen(s)
    ensures Indent(s, prefix) == PrefixLine(s[..n], prefix) + Indent(s[n..], prefix)
  {
  }

  lemma NonBlankUnfold(s: string, n: nat)
    requires s != [] && n == FirstLineLen(s)
    ensures NonBlankLines(s) == (if IsNonBlank(s[..n]) then 1 else 0) + NonBlankLines(s[n..])
  {
  }

  lemma MulSucc(a: nat, k: nat)
    ensures a * (1 + k) == a + a * k
  {
  }

  /** A text none of whose lines holds a non-whitespace character is left as it is. */
  lemma {:induction false} IndentBlankOnly(s: string, prefix: string)
    requires NonBlankLines(s) == 0
    ensures Indent(s, prefix) == s
    decreases |s|
  {
    if s != [] {
      var n := FirstLineLen(s);
      IndentStep(s, prefix, n);
      IndentBlankOnly(s[n..], prefix);
    }
  }

  /** A non-empty prefix leaves the text unchanged exactly when no line of it is non-blank. */
  lemma IndentUnchangedIff(s: string, prefix: string)
    requires prefix != []
    ensures Indent(s, prefix) == s <==> NonBlankLines(s) == 0
  {
    IndentLength(s, prefix);
    if NonBlankLines(s) == 0 {
      IndentBlankOnly(s, prefix);
    } else {
      MulPositive(|prefix|, NonBlankLines(s));
      assert |Indent(s, prefix)| > |s|;
    }
  }

  lemma MulPositive(a: nat, k: nat)
    requires a > 0 && k > 0
    ensures a * k > 0
  {
  }

  // ---------------------------------------------------------------- dedent

  /** The characters `textwrap.dedent` treats as indentation. */
  predicate IsIndentChar(c: char) { c == ' ' || c == '\t' }

  /** A line `dedent` blanks out (only spaces and tabs, or nothing). */
  predicate IsBlankLine(l: string) { All(l, IsIndentChar) }

  /** The leading spaces and tabs of a line. */
  function IndentOf(l: string): (r: string)
    ensures r <= l && IsBlankLine(r)
    ensures |r| < |l| ==> !IsIndentChar(l[|r|])
  {
    l[..LeadLen(l, IsIndentChar)]
  }

  /** The longest common prefix of two strings. */
  function CommonPrefix(a: string, b: string): (r: string)
    ensures r <= a && r <= b
    ensures |r| == |a| || |r| == |b| || a[|r|] != b[|r|]
  {
    if a == [] || b == [] || a[0] != b[0] then []
    else [a[0]] + CommonPrefix(a[1..], b[1..])
  }

  /** The indentation of each non-blank line, in order. */
  function NonBlankIndents(lines: seq<string>): seq<string>
  {
    if lines == [] then []
    else (if IsBlankLine(lines[0]) then [] else [IndentOf(lines[0])]) + NonBlankIndents(lines[1..])
  }

  /** The margin loop of `dedent`: the first indentation, then the common
      prefix with each further one; None when there is none. */
  function MarginFrom(inds: seq<string>, acc: Option<string>): Option<string>
  {
    if inds == [] then acc
    else MarginFrom(inds[1..], Some(if acc.None? then inds[0] else CommonPrefix(acc.value, inds[0])))
  }

  function Margin(lines: seq<string>): string {
    var m := MarginFrom(NonBlankIndents(lines), None);
    if m.None? then "" else m.value
  }

  predicate PrefixOfAll(m: string, inds: seq<string>) {
    forall k :: 0 <= k < |inds| ==> m <= inds[k]
  }

  /** No longer string is a common prefix of `inds`: one of them ends where
      `m` ends, or two of them differ right after it. */
  predicate Tight(m: string, inds: seq<string>) {
    || (exists k :: 0 <= k < |inds| && |inds[k]| == |m|)
    || (exists k1, k2 :: 0 <= k1 < |inds| && 0 <= k2 < |inds| && |m| < |inds[k1]| && |m| < |inds[k2]|
                         && inds[k1][|m|] != inds[k2][|m|])
  }

  /** The margin loop computes the longest common prefix. */
  lemma {:induction false} MarginFromSpec(inds: seq<string>, acc: Option<string>, done: seq<string>)
    requires acc.None? <==> done == []
    requires acc.Some? ==> PrefixOfAll(acc.value, done) && Tight(acc.value, done)
    ensures MarginFrom(inds, acc).None? <==> done + inds == []
    ensures MarginFrom(inds, acc).Some? ==>
              PrefixOfAll(MarginFrom(inds, acc).value, done + inds) && Tight(MarginFrom(inds, acc).value, done + inds)
    decreases |inds|
  {
    if inds == [] {
      assert done + inds == done;
    } else {
      var x := inds[0];
      var done' := done + [x];
      var m := if acc.None? then x else CommonPrefix(acc.value, x);
      assert done' + inds[1..] == done + inds;
      if acc.None? {
        assert done' == [x];
        assert |done'[0]| == |m|;
      } else {
        var a := acc.value;
        forall k | 0 <= k < |done'| ensures m <= done'[k] {
          if k < |done| {
            assert a <= done[k];
            assert done'[k] == done[k];
          }
        }
        if |m| == |x| {
          assert |done'[|done|]| == |m|;
        } else if |m| == |a| {
          assert m == a;
          if exists k :: 0 <= k < |done| && |done[k]| == |a| {
            var k :| 0 <= k < |done| && |done[k]| == |a|;
            assert done'[k] == done[k];
          } else {
            var k1, k2 :| 0 <= k1 < |done| && 0 <= k2 < |done| && |a| < |done[k1]| && |a| < |done[k2]|
                          && done[k1][|a|] != done[k2][|a|];
            assert done'[k1] == done[k1] && done'[k2] == done[k2];
          }
        } else {
          assert a[|m|] != x[|m|];
          assert a <= done[0];
          assert done'[0][|m|] == a[|m|];
          assert done'[|done|] == x;
        }
      }
      MarginFromSpec(inds[1..], Some(m), done');
    }
  }

  lemma {:induction false} NonBlankIndentsMember(lines: seq<string>, i: nat)
    requires i < |lines| && !IsBlankLine(lines[i])
    ensures IndentOf(lines[i]) in NonBlankIndents(lines)
  {
    if i > 0 {
      NonBlankIndentsMember(lines[1..], i - 1);
    }
  }

  /** The margin prefixes the indentation of every non-blank line and is
      itself made of spaces and tabs. */
  lemma MarginIsPrefix(lines: seq<string>, i: nat)
    requires i < |lines| && !IsBlankLine(lines[i])
    ensures Margin(lines) <= IndentOf(lines[i])
    ensures IsBlankLine(Margin(lines))
  {
    var inds := NonBlankIndents(lines);
    MarginFromSpec(inds, None, []);
    NonBlankIndentsMember(lines, i);
    assert [] + inds == inds;
    var m, ind := Margin(lines), IndentOf(lines[i]);
    forall j | 0 <= j < |m| ensures IsIndentChar(m[j]) { assert m[j] == ind[j]; }
  }

  function DedentLine(l: string, margin: string): string {
    if IsBlankLine(l) then "" else if margin <= l then l[|margin|..] else l
  }

  function DedentLines(lines: seq<string>, margin: string): (r: seq<string>)
    ensures |r| == |lines|
    ensures forall i :: 0 <= i < |lines| ==> r[i] == DedentLine(lines[i], margin)
  {
    if lines == [] then [] else [DedentLine(lines[0], margin)] + DedentLines(lines[1..], margin)
  }

  /** `textwrap.dedent(s)` (the regular-expression version): lines of only
      spaces and tabs become empty, and the longest common leading run of
      spaces and tabs of the other lines is removed from each of them. */
  function Dedent(s: string): string {
    var lines := Split(s, '\n');
    Join("\n", DedentLines(lines, Margin(lines)))
  }

  lemma DedentSplit(s: string)
    ensures var lines := Split(s, '\n');
            Split(Dedent(s), '\n') == DedentLines(lines, Margin(lines))
  {
    var lines := Split(s, '\n');
    var m := Margin(lines);
    var outLines := DedentLines(lines, m);
    forall i | 0 <= i < |outLines| ensures '\n' !in outLines[i] {
      assert '\n' !in lines[i];
      if !IsBlankLine(lines[i]) && m <= lines[i] {
        assert outLines[i] == lines[i][|m|..];
      }
    }
    SplitJoin(outLines, '\n');
  }

  /** Dedent keeps the number of lines; each output line is the input line
      blanked (when blank) or with the margin removed, and the margin is
      spaces and tabs that prefix every non-blank line. */
  lemma DedentLineWise(s: string)
    ensures var lines := Split(s, '\n');
            var out := Split(Dedent(s), '\n');
            && IsBlankLine(Margin(lines))
            && |out| == |lines|
            && forall i :: 0 <= i < |lines| ==>
                 && (IsBlankLine(lines[i]) || Margin(lines) <= IndentOf(lines[i]))
                 && out[i] == (if IsBlankLine(lines[i]) then "" else lines[i][|Margin(lines)|..])
  {
    var lines := Split(s, '\n');
    var m := Margin(lines);
    DedentSplit(s);
    forall i | 0 <= i < |lines| && !IsBlankLine(lines[i]) ensures m <= IndentOf(lines[i]) {
      MarginIsPrefix(lines, i);
    }
    if exists i :: 0 <= i < |lines| && !IsBlankLine(lines[i]) {
      var i :| 0 <= i < |lines| && !IsBlankLine(lines[i]);
      MarginIsPrefix(lines, i);
    } else {
      MarginNone(lines);
    }
  }

  lemma {:induction false} MarginNone(lines: seq<string>)
    requires forall i :: 0 <= i < |lines| ==> IsBlankLine(lines[i])
    ensures NonBlankIndents(lines) == [] && Margin(lines) == ""
  {
    if lines != [] {
      MarginNone(lines[1..]);
    }
  }

  /** Removing the margin from a non-blank line removes it from its indentation. */
  lemma DedentNonBlank(l: string, m: string)
    requires !IsBlankLine(l) && m <= IndentOf(l)
    ensures !IsBlankLine(DedentLine(l, m))
    ensures IndentOf(DedentLine(l, m)) == IndentOf(l)[|m|..]
  {
    var ind := IndentOf(l);
    var d := l[|m|..];
    assert |ind| < |l|;
    assert !IsIndentChar(d[|ind| - |m|]);
    var j := LeadLen(d, IsIndentChar);
    assert All(d[..|ind| - |m|], IsIndentChar) by {
      forall t | 0 <= t < |ind| - |m| ensures IsIndentChar(d[t]) { assert d[t] == ind[|m| + t]; }
    }
    LeadLenExact(d, IsIndentChar, |ind| - |m|);
    assert d[..|ind| - |m|] == ind[|m|..];
  }

  lemma {:induction false} LeadLenExact(s: string, p: char -> bool, n: nat)
    requires n <= |s| && All(s[..n], p) && (n < |s| ==> !p(s[n]))
    ensures LeadLen(s, p) == n
  {
    if n > 0 {
      assert p(s[0]);
      assert s[1..][..n - 1] == s[..n][1..];
      LeadLenExact(s[1..], p, n - 1);
    }
  }

  function DropEach(inds: seq<string>, n: nat): (r: seq<string>)
    requires forall k :: 0 <= k < |inds| ==> n <= |inds[k]|
    ensures |r| == |inds| && forall k :: 0 <= k < |inds| ==> r[k] == inds[k][n..]
  {
    if inds == [] then [] else [inds[0][n..]] + DropEach(inds[1..], n)
  }

  lemma {:induction false} NonBlankIndentsDedent(lines: seq<string>, m: string)
    requires forall i :: 0 <= i < |lines| && !IsBlankLine(lines[i]) ==> m <= IndentOf(lines[i])
    ensures forall k :: 0 <= k < |NonBlankIndents(lines)| ==> |m| <= |NonBlankIndents(lines)[k]|
    ensures NonBlankIndents(DedentLines(lines, m)) == DropEach(NonBlankIndents(lines), |m|)
  {
    if lines != [] {
      NonBlankIndentsDedent(lines[1..], m);
      var l := lines[0];
      assert DedentLines(lines, m) == [DedentLine(l, m)] + DedentLines(lines[1..], m);
      assert DedentLines(lines, m)[1..] == DedentLines(lines[1..], m);
      if !IsBlankLine(l) {
        DedentNonBlank(l, m);
      }
    }
  }

  /** The dedented lines have no common indentation left. */
  lemma DedentedMarginEmpty(lines: seq<string>)
    ensures Margin(DedentLines(lines, Margin(lines))) == ""
  {
    var m := Margin(lines);
    var out := DedentLines(lines, m);
    forall i | 0 <= i < |lines| && !IsBlankLine(lines[i]) ensures m <= IndentOf(lines[i]) {
      MarginIsPrefix(lines, i);
    }
    NonBlankIndentsDedent(lines, m);
    var inds := NonBlankIndents(lines);
    var outInds := NonBlankIndents(out);
    MarginFromSpec(outInds, None, []);
    assert [] + outInds == outInds;
    if inds != [] {
      MarginFromSpec(inds, None, []);
      assert [] + inds == inds;
      TightDrop(inds, m, Margin(out));
    }
  }

  /** Once the longest common prefix is dropped, nothing non-empty is common. */
  lemma TightDrop(inds: seq<string>, m: string, r: string)
    requires inds != [] && PrefixOfAll(m, inds) && Tight(m, inds)
    requires forall k :: 0 <= k < |inds| ==> |m| <= |inds[k]|
    requires PrefixOfAll(r, DropEach(inds, |m|))
    ensures r == []
  {
    var outInds := DropEach(inds, |m|);
    if exists k :: 0 <= k < |inds| && |inds[k]| == |m| {
      var k :| 0 <= k < |inds| && |inds[k]| == |m|;
      assert outInds[k] == [];
      assert r <= outInds[k];
    } else {
      var k1, k2 :| 0 <= k1 < |inds| && 0 <= k2 < |inds| && |m| < |inds[k1]| && |m| < |inds[k2]|
                    && inds[k1][|m|] != inds[k2][|m|];
      assert outInds[k1][0] == inds[k1][|m|];
      assert outInds[k2][0] == inds[k2][|m|];
      NoCommonFirst(outInds[k1], outInds[k2], r);
    }
  }

  lemma NoCommonFirst(a: string, b: string, m: string)
    requires m <= a && m <= b && a != [] && b != [] && a[0] != b[0]
    ensures m == []
  {
  }

  /** Dedenting twice is dedenting once: the margin of a dedented text is empty. */
  lemma DedentIdempotent(s: string)
    ensures Dedent(Dedent(s)) == Dedent(s)
  {
    var lines := Split(s, '\n');
    var m := Margin(lines);
    var out := DedentLines(lines, m);
    DedentSplit(s);
    DedentedMarginEmpty(lines);
    forall i | 0 <= i < |out| ensures DedentLine(out[i], "") == out[i] {
      if !IsBlankLine(lines[i]) {
        MarginIsPrefix(lines, i);
        DedentNonBlank(lines[i], m);
      }
    }
    assert DedentLines(out, "") == out;
  }
}
