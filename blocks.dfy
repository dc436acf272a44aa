/** What the block matcher accepts: every match has the shape of the block
    pattern, a block written out in that shape is found, and a legacy
    opening line holding a comma never starts a block. */
module Blocks {
  import opened PyStr
  import opened Grammar
  import opened Locator

  /** The spans of a match, as the matcher computes them. */
  lemma SpansOf(d: Dialect, text: string, p: nat, m: Spans)
    requires p <= |text| && MatchSpans(d, text, p) == Some(m)
    ensures IsLineStart(text, p) && OpenerLen(d, text, p) == Some(m.opener)
    ensures m.argsEnd == ArgsEnd(d, text, p + m.opener)
    ensures CodeStart(text, m.argsEnd) == Some(m.codeStart)
    ensures CodeEnd(d, text, m.codeStart) == Some((m.codeEnd, m.end))
  {
  }

  /** A match starts at a line start with the opener, followed by the
      arguments: the longest run of argument characters. */
  lemma SoundArgs(d: Dialect, text: string, p: nat, m: Spans)
    requires p <= |text| && MatchSpans(d, text, p) == Some(m)
    ensures IsLineStart(text, p) && IsOpener(d, text[p..p + m.opener])
    ensures forall i :: p + m.opener <= i < m.argsEnd ==> IsArgChar(d, text[i])
    ensures !IsArgChar(d, text[m.argsEnd])
  {
    SpansOf(d, text, p, m);
    ArgsFacts(d, text, p + m.opener, m.argsEnd);
  }

  lemma ArgsFacts(d: Dialect, text: string, q: nat, a: nat)
    requires q <= a < |text| && ArgsEnd(d, text, q) == a
    ensures (forall i :: q <= i < a ==> IsArgChar(d, text[i])) && !IsArgChar(d, text[a])
  {
    ArgsEndSpec(d, text, q);
  }

  /** Between the arguments and the code lies whitespace ending with a
      newline. */
  lemma SoundSpace(d: Dialect, text: string, p: nat, m: Spans)
    requires p <= |text| && MatchSpans(d, text, p) == Some(m)
    ensures text[m.codeStart - 1] == '\n'
    ensures forall i :: m.argsEnd <= i < m.codeStart ==> IsSpace(text[i])
  {
    SpansOf(d, text, p, m);
    CodeStartFacts(text, m.argsEnd, m.codeStart);
  }

  /** That newline is the last one of the whitespace run after the
      arguments: the whitespace that goes on into the code holds none. */
  lemma SoundSpaceLast(d: Dialect, text: string, p: nat, m: Spans)
    requires p <= |text| && MatchSpans(d, text, p) == Some(m)
    ensures forall k :: m.codeStart <= k < SpaceEnd(text, m.argsEnd) ==> text[k] != '\n'
  {
    SpansOf(d, text, p, m);
    CodeStartFacts(text, m.argsEnd, m.codeStart);
  }

  lemma CodeStartFacts(text: string, a: nat, c: nat)
    requires a <= |text| && CodeStart(text, a) == Some(c)
    ensures (forall i :: a <= i < c ==> IsSpace(text[i])) && text[c - 1] == '\n'
            && forall k :: c <= k < SpaceEnd(text, a) ==> text[k] != '\n'
  {
    CodeStartSpec(text, a);
  }

  /** The code is empty or ends with a newline, and it is followed by the
      first closing fence from its start on. */
  lemma SoundCode(d: Dialect, text: string, p: nat, m: Spans)
    requires p <= |text| && MatchSpans(d, text, p) == Some(m)
    ensures text[m.codeEnd - 1] == '\n' && IsClose(d, text, m.codeEnd)
    ensures forall h :: m.codeStart <= h < m.codeEnd ==> !IsClose(d, text, h)
  {
    SpansOf(d, text, p, m);
    CodeEndFirst(d, text, m.codeStart);
  }

  /** After the closer comes the longest run of tail characters that ends at
      the end of the text or just before a newline; the match ends there. */
  lemma SoundTail(d: Dialect, text: string, p: nat, m: Spans)
    requires p <= |text| && MatchSpans(d, text, p) == Some(m)
    ensures text[m.codeEnd..m.codeEnd + |Closer(d)|] == Closer(d)
    ensures IsTailEnd(d, text, m.codeEnd + |Closer(d)|, m.end)
    ensures var e := m.codeEnd + |Closer(d)|; forall j :: m.end < j <= |text| ==> !IsTailEnd(d, text, e, j)
  {
    SpansOf(d, text, p, m);
    TailFacts(d, text, m.codeStart, m.codeEnd, m.end);
  }

  lemma TailFacts(d: Dialect, text: string, c: nat, g: nat, k: nat)
    requires 1 <= c <= |text| && CodeEnd(d, text, c) == Some((g, k))
    ensures text[g..g + |Closer(d)|] == Closer(d)
    ensures IsTailEnd(d, text, g + |Closer(d)|, k)
    ensures var e := g + |Closer(d)|; forall j :: k < j <= |text| ==> !IsTailEnd(d, text, e, j)
  {
    CodeEndFirst(d, text, c);
    CloseFacts(d, text, g, k);
  }

  lemma CloseFacts(d: Dialect, text: string, g: nat, k: nat)
    requires IsClose(d, text, g) && TailEnd(d, text, g + |Closer(d)|) == Some(k)
    ensures text[g..g + |Closer(d)|] == Closer(d)
    ensures IsTailEnd(d, text, g + |Closer(d)|, k)
    ensures var e := g + |Closer(d)|; forall j :: k < j <= |text| ==> !IsTailEnd(d, text, e, j)
  {
    OccursAtSlice(text, g, Closer(d));
    TailEndSpec(d, text, g + |Closer(d)|);
  }

  /** How a match lies in the text: the opener of `n` characters, the
      arguments and whitespace up to a newline (the head), then the code from
      `c` on with no closing fence inside, a closing fence at a line start and
      its tail up to the end of the match (the body). */
  predicate Framed(d: Dialect, text: string, b: Block, n: nat, c: nat) {
    FramedHead(d, text, b, n, c) && FramedBody(d, text, b, c)
  }

  predicate FramedHead(d: Dialect, text: string, b: Block, n: nat, c: nat) {
    && b.start + n + |b.args| < c <= |text|
    && IsOpener(d, text[b.start..b.start + n])
    && text[b.start + n..b.start + n + |b.args|] == b.args
    && (forall i :: b.start + n + |b.args| <= i < c ==> IsSpace(text[i])) && text[c - 1] == '\n'
  }

  predicate FramedBody(d: Dialect, text: string, b: Block, c: nat) {
    && 1 <= c && c + |b.code| + |Closer(d)| <= b.end <= |text|
    && text[c..c + |b.code|] == b.code
    && (forall h :: c <= h < c + |b.code| ==> !IsClose(d, text, h))
    && IsClose(d, text, c + |b.code|)
    && IsTailEnd(d, text, c + |b.code| + |Closer(d)|, b.end)
  }

  /** A block the matcher returns starts at a line start, its arguments are
      argument characters, its code is empty or ends with a newline, and it
      is framed in the text as the pattern requires. */
  lemma MatchSound(d: Dialect, text: string, p: nat, b: Block)
    requires p <= |text| && MatchAt(d, text, p) == Some(b)
    ensures IsLineStart(text, p)
    ensures forall i :: 0 <= i < |b.args| ==> IsArgChar(d, b.args[i])
    ensures b.code == [] || b.code[|b.code| - 1] == '\n'
    ensures exists n, c :: Framed(d, text, b, n, c)
  {
    var m := MatchSpans(d, text, p).value;
    MatchedArgs(d, text, p, m, b);
    MatchedCode(d, text, p, m, b);
    MatchedFrame(d, text, p, m);
    assert b == Block(p, m.end, text[p + m.opener..m.argsEnd], text[m.codeStart..m.codeEnd]);
  }

  lemma MatchedArgs(d: Dialect, text: string, p: nat, m: Spans, b: Block)
    requires p <= |text| && MatchSpans(d, text, p) == Some(m) && MatchAt(d, text, p) == Some(b)
    ensures IsLineStart(text, p)
    ensures forall i :: 0 <= i < |b.args| ==> IsArgChar(d, b.args[i])
  {
    assert b.args == text[p + m.opener..m.argsEnd];
    SoundArgs(d, text, p, m);
    assert forall i :: 0 <= i < |b.args| ==> b.args[i] == text[p + m.opener + i];
  }

  lemma MatchedCode(d: Dialect, text: string, p: nat, m: Spans, b: Block)
    requires p <= |text| && MatchSpans(d, text, p) == Some(m) && MatchAt(d, text, p) == Some(b)
    ensures b.code == [] || b.code[|b.code| - 1] == '\n'
  {
    assert b.code == text[m.codeStart..m.codeEnd];
    SoundCode(d, text, p, m);
    if b.code != [] {
      assert b.code[|b.code| - 1] == text[m.codeEnd - 1];
    }
  }

  lemma MatchedFrame(d: Dialect, text: string, p: nat, m: Spans)
    requires p <= |text| && MatchSpans(d, text, p) == Some(m)
    ensures Framed(d, text, Block(p, m.end, text[p + m.opener..m.argsEnd], text[m.codeStart..m.codeEnd]),
                   m.opener, m.codeStart)
  {
    var b := Block(p, m.end, text[p + m.opener..m.argsEnd], text[m.codeStart..m.codeEnd]);
    MatchedHead(d, text, p, m, b);
    MatchedBody(d, text, p, m, b);
  }

  lemma MatchedHead(d: Dialect, text: string, p: nat, m: Spans, b: Block)
    requires p <= |text| && MatchSpans(d, text, p) == Some(m)
    requires b == Block(p, m.end, text[p + m.opener..m.argsEnd], text[m.codeStart..m.codeEnd])
    ensures FramedHead(d, text, b, m.opener, m.codeStart)
  {
    SoundArgs(d, text, p, m);
    SoundSpace(d, text, p, m);
    assert p + m.opener + |b.args| == m.argsEnd;
  }

  lemma MatchedBody(d: Dialect, text: string, p: nat, m: Spans, b: Block)
    requires p <= |text| && MatchSpans(d, text, p) == Some(m)
    requires b == Block(p, m.end, text[p + m.opener..m.argsEnd], text[m.codeStart..m.codeEnd])
    ensures FramedBody(d, text, b, m.codeStart)
  {
    SoundCode(d, text, p, m);
    SoundTail(d, text, p, m);
    assert m.codeStart + |b.code| == m.codeEnd;
  }

  /** The block `search` returns to `_replace_block` has the shape of the
      pattern, and no earlier position starts one. */
  lemma FindBlockSound(d: Dialect, text: string, b: Block)
    requires FindBlock(d, text) == Some(b)
    ensures IsLineStart(text, b.start)
    ensures forall i :: 0 <= i < |b.args| ==> IsArgChar(d, b.args[i])
    ensures b.code == [] || b.code[|b.code| - 1] == '\n'
    ensures exists n, c :: Framed(d, text, b, n, c)
    ensures forall q :: 0 <= q < b.start ==> MatchAt(d, text, q).None?
  {
    MatchSound(d, text, b.start, b);
  }

  // ---------------------------------------------------------------- completeness

  lemma {:induction false} ArgsEndAt(d: Dialect, text: string, q: nat, a: nat)
    requires q <= a <= |text|
    requires forall i :: q <= i < a ==> IsArgChar(d, text[i])
    requires a < |text| ==> !IsArgChar(d, text[a])
    ensures ArgsEnd(d, text, q) == a
    decreases a - q
  {
    if q < a {
      ArgsEndAt(d, text, q + 1, a);
    }
  }

  lemma {:induction false} CodeEndAt(d: Dialect, text: string, f: nat, g: nat)
    requires 1 <= f <= g <= |text|
    requires forall h :: f <= h < g ==> !IsClose(d, text, h)
    requires IsClose(d, text, g)
    ensures CodeEnd(d, text, f) == Some((g, TailEnd(d, text, g + |Closer(d)|).value))
    decreases g - f
  {
    if f < g {
      CodeEndAt(d, text, f + 1, g);
    }
  }

  /** The whitespace after the arguments: when the newline at `a` is the
      only newline of the run, the code starts right after it. */
  lemma CodeStartAfter(text: string, a: nat, lim: nat)
    requires a < lim <= |text| && text[a] == '\n'
    requires lim < |text| ==> !IsSpace(text[lim])
    requires forall k :: a < k < lim ==> text[k] != '\n'
    ensures CodeStart(text, a) == Some(a + 1)
  {
    var w := SpaceEnd(text, a);
    SpaceEndSpec(text, a);
    LastNewlineSpec(text, a, w);
    if lim < |text| {
      assert !IsSpace(text[lim]);
    }
    assert w <= lim;
  }

  /** The tail accepted after the closer: nothing, or a newline followed by a
      line that does not start with whitespace; the match ends there. */
  lemma TailAt(d: Dialect, text: string, e: nat)
    requires e <= |text|
    requires e == |text| || (e + 1 < |text| && text[e] == '\n' && !IsSpace(text[e + 1]))
    ensures TailEnd(d, text, e) == Some(e)
  {
    if e < |text| {
      assert IsSpace(text[e]);
      var w := TailRunEnd(d, text, e);
      if d == Current {
        assert TailRunEnd(d, text, e + 1) == e + 1;
        assert w == e + 1;
      } else {
        assert w == e;
      }
    }
  }

  /** The conditions on the code of a block written out by hand: its leading
      whitespace holds no newline, it is empty or ends with a newline, and
      none of its lines starts with the closer's first character. */
  predicate PlainCode(d: Dialect, code: string) {
    && (forall i :: 0 <= i < LeadLen(code, IsSpace) ==> code[i] != '\n')
    && (code == [] || code[|code| - 1] == '\n')
    && forall i :: 0 <= i < |code| && IsLineStart(code, i) ==> code[i] != Closer(d)[0]
  }

  /** The conditions on what follows the closer: nothing, or a newline and
      a line that does not start with whitespace. */
  predicate PlainTail(t: string) {
    t == [] || (|t| > 1 && t[0] == '\n' && !IsSpace(t[1]))
  }

  /** The matcher's steps on a text whose parts lie at `n`, `a`, `f`, `e`. */
  lemma SpansAt(d: Dialect, text: string, n: nat, a: nat, f: nat, e: nat)
    requires n <= a < |text|
    requires OpenerLen(d, text, 0) == Some(n) && ArgsEnd(d, text, n) == a
    requires CodeStart(text, a) == Some(a + 1) && CodeEnd(d, text, a + 1) == Some((f, e))
    ensures MatchSpans(d, text, 0) == Some(Spans(n, a, a + 1, f, e))
  {
  }

  lemma OpenerAt(d: Dialect, text: string, op: string)
    requires IsOpener(d, op) && |op| <= |text| && text[..|op|] == op
    ensures OpenerLen(d, text, 0) == Some(|op|)
  {
    assert text[0..|op|] == op;
  }

  lemma ArgsAt(d: Dialect, text: string, n: nat, args: string)
    requires n + |args| < |text| && text[n..n + |args|] == args && text[n + |args|] == '\n'
    requires forall i :: 0 <= i < |args| ==> IsArgChar(d, args[i])
    ensures ArgsEnd(d, text, n) == n + |args|
  {
    forall i | n <= i < n + |args|
      ensures IsArgChar(d, text[i])
    {
      assert text[i] == args[i - n];
    }
    ArgsEndAt(d, text, n, n + |args|);
  }

  lemma CodeAt(d: Dialect, text: string, c: nat, f: nat, code: string)
    requires 1 <= c && f == c + |code| && f + |Closer(d)| <= |text| && text[c - 1] == '\n'
    requires text[c..f] == code && text[f..f + |Closer(d)|] == Closer(d)
    requires PlainCode(d, code)
    ensures CodeStart(text, c - 1) == Some(c)
    ensures text[f - 1] == '\n'
    ensures forall h :: c <= h < f ==> !IsClose(d, text, h)
  {
    assert text[f] == Closer(d)[0];
    CodeStartAt(text, c, f, code, LeadLen(code, IsSpace));
    if code != [] {
      assert text[f - 1] == code[|code| - 1];
    }
    NoCloseIn(d, text, c, code);
  }

  lemma CodeStartAt(text: string, c: nat, f: nat, code: string, lead: nat)
    requires 1 <= c && f == c + |code| && f < |text| && text[c - 1] == '\n'
    requires text[c..f] == code && !IsSpace(text[f])
    requires lead <= |code| && (lead < |code| ==> !IsSpace(code[lead]))
    requires forall i :: 0 <= i < lead ==> code[i] != '\n'
    ensures CodeStart(text, c - 1) == Some(c)
  {
    LeadStops(text, c, code, text[f], lead);
    LeadHasNoNewline(text, c, code, lead);
    CodeStartAfter(text, c - 1, c + lead);
  }

  lemma LeadStops(text: string, c: nat, code: string, x: char, lead: nat)
    requires c + |code| < |text| && text[c..c + |code|] == code && text[c + |code|] == x && !IsSpace(x)
    requires lead <= |code| && (lead < |code| ==> !IsSpace(code[lead]))
    ensures !IsSpace(text[c + lead])
  {
    if lead < |code| {
      assert text[c + lead] == code[lead];
    }
  }

  lemma LeadHasNoNewline(text: string, c: nat, code: string, lead: nat)
    requires c + |code| <= |text| && text[c..c + |code|] == code && lead <= |code|
    requires forall i :: 0 <= i < lead ==> code[i] != '\n'
    ensures forall k :: c <= k < c + lead ==> text[k] != '\n'
  {
    forall k | c <= k < c + lead
      ensures text[k] != '\n'
    {
      assert text[k] == code[k - c];
    }
  }

  lemma NoCloseIn(d: Dialect, text: string, c: nat, code: string)
    requires 1 <= c && c + |code| <= |text| && text[c - 1] == '\n' && text[c..c + |code|] == code
    requires forall i :: 0 <= i < |code| && IsLineStart(code, i) ==> code[i] != Closer(d)[0]
    ensures forall h :: c <= h < c + |code| ==> !IsClose(d, text, h)
  {
    forall h | c <= h < c + |code|
      ensures !IsClose(d, text, h)
    {
      var i := h - c;
      assert text[h] == code[i];
      if h > c {
        assert text[h - 1] == code[i - 1];
      }
      if text[h - 1] == '\n' {
        assert IsLineStart(code, i);
      }
    }
  }

  lemma CloseAt(d: Dialect, text: string, f: nat, t: string)
    requires 1 <= f && f + |Closer(d)| + |t| == |text| && text[f - 1] == '\n'
    requires text[f..f + |Closer(d)|] == Closer(d) && text[f + |Closer(d)|..] == t && PlainTail(t)
    ensures IsClose(d, text, f) && TailEnd(d, text, f + |Closer(d)|) == Some(f + |Closer(d)|)
  {
    var e := f + |Closer(d)|;
    if t != [] {
      assert text[e] == t[0] && text[e + 1] == t[1];
    }
    OccursAtSlice(text, f, Closer(d));
    TailAt(d, text, e);
  }

  /** The parts of a block, by where they lie in the text: the opener ends
      at `n`, the arguments at `a`, the code at `f` and the closer at `e`. */
  lemma MatchParts(d: Dialect, text: string, op: string, args: string, code: string, t: string,
                   n: nat, a: nat, f: nat, e: nat)
    requires IsOpener(d, op)
    requires forall i :: 0 <= i < |args| ==> IsArgChar(d, args[i])
    requires PlainCode(d, code) && PlainTail(t)
    requires LaidOut(text, op, args, code, Closer(d), t, n, a, f, e)
    ensures MatchSpans(d, text, 0) == Some(Spans(n, a, a + 1, f, e))
  {
    OpenerAt(d, text, op);
    ArgsAt(d, text, n, args);
    CodeAndCloseAt(d, text, a + 1, f, e, code, t);
    SpansAt(d, text, n, a, f, e);
  }

  /** The code from `c` to `f`, then the closer up to `e` and the tail. */
  lemma CodeAndCloseAt(d: Dialect, text: string, c: nat, f: nat, e: nat, code: string, t: string)
    requires 1 <= c && f == c + |code| && e == f + |Closer(d)| && |text| == e + |t| && text[c - 1] == '\n'
    requires text[c..f] == code && text[f..e] == Closer(d) && text[e..] == t
    requires PlainCode(d, code) && PlainTail(t)
    ensures CodeStart(text, c - 1) == Some(c) && CodeEnd(d, text, c) == Some((f, e))
  {
    CodeAt(d, text, c, f, code);
    CloseAt(d, text, f, t);
    CodeEndAt(d, text, c, f);
  }

  /** A text laid out in the pattern's shape is matched at its start, with
      its own arguments and code. */
  lemma MatchBuilt(d: Dialect, text: string, op: string, args: string, code: string, t: string,
                   n: nat, a: nat, f: nat, e: nat)
    requires IsOpener(d, op)
    requires forall i :: 0 <= i < |args| ==> IsArgChar(d, args[i])
    requires PlainCode(d, code) && PlainTail(t)
    requires LaidOut(text, op, args, code, Closer(d), t, n, a, f, e)
    ensures MatchAt(d, text, 0) == Some(Block(0, e, args, code))
  {
    MatchParts(d, text, op, args, code, t, n, a, f, e);
    BlockOf(d, text, 0, Spans(n, a, a + 1, f, e));
  }

  lemma BlockOf(d: Dialect, text: string, p: nat, m: Spans)
    requires p <= |text| && MatchSpans(d, text, p) == Some(m)
    ensures MatchAt(d, text, p) == Some(Block(p, m.end, text[p + m.opener..m.argsEnd], text[m.codeStart..m.codeEnd]))
  {
  }

  /** The opener ends at `n`, the arguments at `a` (then a newline), the
      code at `f` and the closer at `e`; the tail follows. */
  predicate LaidOut(text: string, op: string, args: string, code: string, cl: string, t: string,
                    n: nat, a: nat, f: nat, e: nat)
  {
    && n == |op| && a == n + |args| && f == a + 1 + |code| && e == f + |cl| && |text| == e + |t|
    && text[..n] == op && text[n..a] == args && text[a] == '\n'
    && text[a + 1..f] == code && text[f..e] == cl && text[e..] == t
  }

  /** A block written out as a concatenation is laid out so. */
  lemma Layout(op: string, args: string, code: string, cl: string, t: string, text: string,
               n: nat, a: nat, f: nat, e: nat)
    requires text == op + args + "\n" + code + cl + t
    requires n == |op| && a == n + |args| && f == a + 1 + |code| && e == f + |cl|
    ensures LaidOut(text, op, args, code, cl, t, n, a, f, e)
  {
    assert text[..n] == op;
    assert text[n..a] == args;
    assert text[a + 1..f] == code;
    assert text[f..e] == cl;
    assert text[e..] == t;
  }

  /** The block found in a text laid out in the pattern's shape is that
      block: nothing matches before it. */
  lemma FindBuilt(d: Dialect, text: string, op: string, args: string, code: string, t: string,
                  n: nat, a: nat, f: nat, e: nat)
    requires IsOpener(d, op)
    requires forall i :: 0 <= i < |args| ==> IsArgChar(d, args[i])
    requires PlainCode(d, code) && PlainTail(t)
    requires LaidOut(text, op, args, code, Closer(d), t, n, a, f, e)
    ensures FindBlock(d, text) == Some(Block(0, e, args, code))
  {
    MatchBuilt(d, text, op, args, code, t, n, a, f, e);
  }

  /** In the legacy syntax a comma is not an argument character, so an
      opening line whose arguments hold one never starts a block: the
      argument run stops at the comma, where `\s*\n` cannot match. */
  lemma LegacyCommaRejected(text: string, p: nat, args: string)
    requires p + 11 + |args| < |text|
    requires text[p..p + 11] == "::genhtml::"
    requires forall i :: 0 <= i < |args| ==> IsArgChar(Legacy, args[i]) && text[p + 11 + i] == args[i]
    requires text[p + 11 + |args|] == ','
    ensures MatchAt(Legacy, text, p) == None
  {
    var a := p + 11 + |args|;
    forall i | p + 11 <= i < a
      ensures IsArgChar(Legacy, text[i])
    {
      assert text[i] == args[i - p - 11];
    }
    ArgsEndAt(Legacy, text, p + 11, a);
    assert SpaceEnd(text, a) == a;
  }
}
