/** `BLOCK_RE.search(text)`, written out as a matcher. The pattern is
    compiled with MULTILINE, DOTALL and VERBOSE; VERBOSE drops the literal
    space after the opener, so the first argument may follow it directly and
    the captured arguments keep any space before them.

    At a line start `p`: the opener; the arguments, the longest run of
    argument characters; `\s*\n`, which ends after the last newline of the
    whitespace run that follows (no match at `p` without one); then the
    code, lazily up to the first line start holding the closer whose tail
    succeeds. The tail, `\s*$` (`[ ]*$` in the legacy syntax), takes the
    longest run of tail characters that ends at the end of the text or just
    before a newline. Backtracking into the arguments or into `\s*` never
    yields a different match, so these greedy choices are the match. */
module Locator {
  import opened PyStr
  import opened Grammar

  /** A match: `m.start()`, `m.end()`, `m.group('args')`, `m.group('code')`. */
  datatype Block = Block(start: nat, end: nat, args: string, code: string)

  /** Where `^` matches under MULTILINE. */
  predicate IsLineStart(text: string, p: nat) {
    p == 0 || (0 < p <= |text| && text[p - 1] == '\n')
  }

  /** `w` occurs in `text` at `g`. */
  predicate OccursAt(text: string, g: nat, w: string)
    decreases |w|
  {
    w == [] || (g < |text| && text[g] == w[0] && OccursAt(text, g + 1, w[1..]))
  }

  lemma {:induction false} OccursAtSlice(text: string, g: nat, w: string)
    requires g <= |text|
    ensures OccursAt(text, g, w) <==> g + |w| <= |text| && text[g..g + |w|] == w
    decreases |w|
  {
    if w != [] && g < |text| {
      OccursAtSlice(text, g + 1, w[1..]);
      if g + |w| <= |text| {
        var t := text[g..g + |w|];
        assert t == [text[g]] + text[g + 1..g + |w|];
        assert t == w <==> text[g] == w[0] && text[g + 1..g + |w|] == w[1..];
      }
    }
  }

  /** The openers: ```` ```genhtml ```` or ```` ```genmark ```` now, `::genhtml::`
      in the legacy syntax. */
  predicate IsOpener(d: Dialect, s: string) {
    match d
    case Current => s == "```genhtml" || s == "```genmark"
    case Legacy => s == "::genhtml::"
  }

  /** The length of the opener at `p`, if one is there. */
  function OpenerLen(d: Dialect, text: string, p: nat): (r: Option<nat>)
    requires p <= |text|
    ensures r.Some? ==> p + r.value <= |text| && IsOpener(d, text[p..p + r.value])
  {
    var n := if d == Current then 10 else 11;
    if p + n <= |text| && IsOpener(d, text[p..p + n]) then Some(n) else None
  }

  /** The closing fence: ```` ``` ```` now, `::end-genhtml::` in the legacy syntax. */
  function Closer(d: Dialect): string {
    match d
    case Current => "```"
    case Legacy => "::end-genhtml::"
  }

  /** What may follow the closing fence on its line: `\s` now, only ' '
      in the legacy syntax. */
  predicate TailChar(d: Dialect, c: char) {
    match d
    case Current => IsSpace(c)
    case Legacy => c == ' '
  }

  // ---------------------------------------------------------------- runs

  /** The end of the argument run from `q` on. */
  function ArgsEnd(d: Dialect, text: string, q: nat): (a: nat)
    requires q <= |text|
    ensures q <= a <= |text|
    decreases |text| - q
  {
    if q == |text| || !IsArgChar(d, text[q]) then q else ArgsEnd(d, text, q + 1)
  }

  lemma {:induction false} ArgsEndSpec(d: Dialect, text: string, q: nat)
    requires q <= |text|
    ensures var a := ArgsEnd(d, text, q);
            (forall i :: q <= i < a ==> IsArgChar(d, text[i])) && (a < |text| ==> !IsArgChar(d, text[a]))
    decreases |text| - q
  {
    if q < |text| && IsArgChar(d, text[q]) {
      ArgsEndSpec(d, text, q + 1);
    }
  }

  /** The end of the whitespace run from `a` on. */
  function SpaceEnd(text: string, a: nat): (w: nat)
    requires a <= |text|
    ensures a <= w <= |text|
    decreases |text| - a
  {
    if a == |text| || !IsSpace(text[a]) then a else SpaceEnd(text, a + 1)
  }

  lemma {:induction false} SpaceEndSpec(text: string, a: nat)
    requires a <= |text|
    ensures var w := SpaceEnd(text, a);
            (forall i :: a <= i < w ==> IsSpace(text[i])) && (w < |text| ==> !IsSpace(text[w]))
    decreases |text| - a
  {
    if a < |text| && IsSpace(text[a]) {
      SpaceEndSpec(text, a + 1);
    }
  }

  /** The end of the run of tail characters from `e` on. */
  function TailRunEnd(d: Dialect, text: string, e: nat): (w: nat)
    requires e <= |text|
    ensures e <= w <= |text|
    decreases |text| - e
  {
    if e == |text| || !TailChar(d, text[e]) then e else TailRunEnd(d, text, e + 1)
  }

  lemma {:induction false} TailRunEndSpec(d: Dialect, text: string, e: nat)
    requires e <= |text|
    ensures var w := TailRunEnd(d, text, e);
            (forall i :: e <= i < w ==> TailChar(d, text[i])) && (w < |text| ==> !TailChar(d, text[w]))
    decreases |text| - e
  {
    if e < |text| && TailChar(d, text[e]) {
      TailRunEndSpec(d, text, e + 1);
    }
  }

  /** The largest `j` in `[lo, hi)` holding a newline. */
  function LastNewline(text: string, lo: nat, hi: nat): (r: Option<nat>)
    requires lo <= hi <= |text|
    ensures r.Some? ==> lo <= r.value < hi
    decreases hi - lo
  {
    if lo == hi then None
    else if text[hi - 1] == '\n' then Some(hi - 1)
    else LastNewline(text, lo, hi - 1)
  }

  lemma {:induction false} LastNewlineSpec(text: string, lo: nat, hi: nat)
    requires lo <= hi <= |text|
    ensures var r := LastNewline(text, lo, hi);
            && (r.Some? ==> text[r.value] == '\n' && forall k :: r.value < k < hi ==> text[k] != '\n')
            && (r.None? ==> forall k :: lo <= k < hi ==> text[k] != '\n')
    decreases hi - lo
  {
    if lo < hi && text[hi - 1] != '\n' {
      LastNewlineSpec(text, lo, hi - 1);
    }
  }

  // ---------------------------------------------------------------- the tail

  /** `k` ends a tail run starting at `e` that `$` accepts. */
  predicate IsTailEnd(d: Dialect, text: string, e: nat, k: nat) {
    e <= k <= |text| && (forall i :: e <= i < k ==> TailChar(d, text[i]))
    && (k == |text| || text[k] == '\n')
  }

  /** The greedy tail after the closer at `e`: where the match ends. */
  function TailEnd(d: Dialect, text: string, e: nat): (r: Option<nat>)
    requires e <= |text|
    ensures r.Some? ==> e <= r.value <= |text|
  {
    var w := TailRunEnd(d, text, e);
    if w == |text| || text[w] == '\n' then Some(w) else LastNewline(text, e, w)
  }

  /** The tail ends at the largest position `$` accepts after a run of tail
      characters, and fails exactly when there is none. */
  lemma TailEndSpec(d: Dialect, text: string, e: nat)
    requires e <= |text|
    ensures var r := TailEnd(d, text, e);
            && (r.Some? ==> IsTailEnd(d, text, e, r.value)
                            && forall j :: r.value < j <= |text| ==> !IsTailEnd(d, text, e, j))
            && (r.None? ==> forall j :: e <= j <= |text| ==> !IsTailEnd(d, text, e, j))
  {
    var w := TailRunEnd(d, text, e);
    TailRunEndSpec(d, text, e);
    LastNewlineSpec(text, e, w);
    assert forall j :: w < j <= |text| ==> !IsTailEnd(d, text, e, j) by {
      forall j | w < j <= |text| ensures !IsTailEnd(d, text, e, j) {
        assert !TailChar(d, text[w]);
      }
    }
  }

  // ---------------------------------------------------------------- the code

  /** A closing fence at `g`: at a line start just after a newline (the
      lookbehind), with a tail that succeeds. */
  predicate IsClose(d: Dialect, text: string, g: nat) {
    1 <= g && g + |Closer(d)| <= |text| && text[g - 1] == '\n' && OccursAt(text, g, Closer(d))
    && TailEnd(d, text, g + |Closer(d)|).Some?
  }

  /** The lazy `(?P<code>.*?)`: the first closing fence at or after `f`, and
      the end of its tail. */
  function CodeEnd(d: Dialect, text: string, f: nat): (r: Option<(nat, nat)>)
    requires 1 <= f <= |text|
    ensures r.Some? ==> f <= r.value.0 && r.value.0 + |Closer(d)| <= r.value.1 <= |text|
    decreases |text| - f
  {
    if IsClose(d, text, f) then Some((f, TailEnd(d, text, f + |Closer(d)|).value))
    else if f == |text| then None
    else CodeEnd(d, text, f + 1)
  }

  /** The code ends at the first closing fence from `f` on. */
  lemma {:induction false} CodeEndFirst(d: Dialect, text: string, f: nat)
    requires 1 <= f <= |text| && CodeEnd(d, text, f).Some?
    ensures var g := CodeEnd(d, text, f).value.0;
            && IsClose(d, text, g)
            && CodeEnd(d, text, f).value.1 == TailEnd(d, text, g + |Closer(d)|).value
            && forall h :: f <= h < g ==> !IsClose(d, text, h)
    decreases |text| - f
  {
    if !IsClose(d, text, f) {
      CodeEndFirst(d, text, f + 1);
    }
  }

  /** The match fails at the code start exactly when no closing fence follows. */
  lemma {:induction false} CodeEndNone(d: Dialect, text: string, f: nat)
    requires 1 <= f <= |text|
    ensures CodeEnd(d, text, f).None? <==> forall h :: f <= h <= |text| ==> !IsClose(d, text, h)
    decreases |text| - f
  {
    if !IsClose(d, text, f) && f < |text| {
      CodeEndNone(d, text, f + 1);
      assert CodeEnd(d, text, f) == CodeEnd(d, text, f + 1);
      if CodeEnd(d, text, f).Some? {
        var h :| f + 1 <= h <= |text| && IsClose(d, text, h);
      }
    }
  }

  /** Where `\s*\n` leaves off after the arguments ending at `a`: after the
      last newline of the whitespace run there, if the run holds one. */
  function CodeStart(text: string, a: nat): (r: Option<nat>)
    requires a <= |text|
    ensures r.Some? ==> a < r.value <= |text|
  {
    match LastNewline(text, a, SpaceEnd(text, a))
    case None => None
    case Some(j) => Some(j + 1)
  }

  /** The code starts right after a newline that ends a whitespace run from
      `a`, and no newline follows in that run; without one there is none. */
  lemma CodeStartSpec(text: string, a: nat)
    requires a <= |text|
    ensures var w := SpaceEnd(text, a);
            var r := CodeStart(text, a);
            && (r.Some? ==> text[r.value - 1] == '\n' && (forall i :: a <= i < w ==> IsSpace(text[i]))
                            && r.value <= w && (forall k :: r.value <= k < w ==> text[k] != '\n'))
            && (r.None? ==> forall k :: a <= k < w ==> text[k] != '\n')
  {
    SpaceEndSpec(text, a);
    LastNewlineSpec(text, a, SpaceEnd(text, a));
  }

  // ---------------------------------------------------------------- search

  /** Where the parts of a match lie: the opener's length, the end of the
      arguments, the start and end of the code, and the end of the match. */
  datatype Spans = Spans(opener: nat, argsEnd: nat, codeStart: nat, codeEnd: nat, end: nat)

  /** The spans of the match at `p`, if the pattern matches there. */
  function MatchSpans(d: Dialect, text: string, p: nat): (r: Option<Spans>)
    requires p <= |text|
    ensures r.Some? ==> var m := r.value;
                        p + m.opener <= m.argsEnd < m.codeStart <= m.codeEnd
                        && m.codeEnd + |Closer(d)| <= m.end <= |text|
  {
    if !IsLineStart(text, p) then None
    else match OpenerLen(d, text, p)
      case None => None
      case Some(n) =>
        var a := ArgsEnd(d, text, p + n);
        match CodeStart(text, a)
        case None => None
        case Some(c) =>
          match CodeEnd(d, text, c)
          case None => None
          case Some((f, k)) => Some(Spans(n, a, c, f, k))
  }

  /** `BLOCK_RE.match(text, p)` under `search` semantics. */
  function MatchAt(d: Dialect, text: string, p: nat): (r: Option<Block>)
    requires p <= |text|
    ensures r.Some? ==> r.value.start == p && p < r.value.end <= |text|
  {
    match MatchSpans(d, text, p)
    case None => None
    case Some(m) => Some(Block(p, m.end, text[p + m.opener..m.argsEnd], text[m.codeStart..m.codeEnd]))
  }

  /** `BLOCK_RE.search(text)` from position `p` on. */
  function FindFrom(d: Dialect, text: string, p: nat): (r: Option<Block>)
    requires p <= |text|
    ensures r.Some? ==> p <= r.value.start <= |text|
    decreases |text| - p
  {
    var here := MatchAt(d, text, p);
    if here.Some? then here
    else if p == |text| then None
    else FindFrom(d, text, p + 1)
  }

  /** The search returns the match at the least position that has one. */
  lemma {:induction false} FindFromSpec(d: Dialect, text: string, p: nat)
    requires p <= |text|
    ensures FindFrom(d, text, p).Some? ==>
              MatchAt(d, text, FindFrom(d, text, p).value.start) == FindFrom(d, text, p)
    ensures FindFrom(d, text, p).Some? ==>
              forall q :: p <= q < FindFrom(d, text, p).value.start ==> MatchAt(d, text, q).None?
    ensures FindFrom(d, text, p).None? ==> forall q :: p <= q <= |text| ==> MatchAt(d, text, q).None?
    decreases |text| - p
  {
    var here := MatchAt(d, text, p);
    if here.Some? {
      assert FindFrom(d, text, p) == here && here.value.start == p;
    } else if p < |text| {
      var next := FindFrom(d, text, p + 1);
      FindFromSpec(d, text, p + 1);
      assert FindFrom(d, text, p) == next;
      if next.Some? {
        forall q | p <= q < next.value.start
          ensures MatchAt(d, text, q).None?
        {
          if q == p {
            assert MatchAt(d, text, q) == here;
          }
        }
      }
    }
  }

  /** `BLOCK_RE.search(text)`: the match with the least start, or None when
      no position matches. */
  function FindBlock(d: Dialect, text: string): (r: Option<Block>)
    ensures r.Some? ==> r.value.start <= |text| && MatchAt(d, text, r.value.start) == r
                        && forall q :: 0 <= q < r.value.start ==> MatchAt(d, text, q).None?
    ensures r.None? ==> forall q :: 0 <= q <= |text| ==> MatchAt(d, text, q).None?
  {
    FindFromSpec(d, text, 0);
    FindFrom(d, text, 0)
  }
}
