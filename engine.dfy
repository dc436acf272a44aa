/** The rewrite engine of `GenHTMLPreprocessor`, for both block syntaxes:
    `_replace_block` finds the first block, parses its options, assembles
    its code and splices the replacement in; `run` joins the document's
    lines, replaces blocks until none is left and splits the text again.
    Running the code is the oracle `exec`, one per variant; what it prints
    or the traceback it raises is all the engine sees of it. */
module Engine {
  import opened PyStr
  import opened Grammar
  import opened Args
  import opened Output
  import opened Snippets
  import opened Locator
  import Options
  import LegacyOptions

  /** The legacy `generate_html`: the captured output as it is, or the
      traceback indented by four spaces. */
  function LegacyHtml(exec: string -> ExecResult, code: string): (r: string)
    ensures exec(code).Ok? ==> r == exec(code).stdout
    ensures exec(code).Fault? ==> r == Indent(exec(code).traceback, "    ")
  {
    match exec(code)
    case Ok(out) => out
    case Fault(tb) => Indent(tb, "    ")
  }

  /** What replaces a block: the assembled code indented by four spaces when
      interpretation is off, otherwise the output of running it. */
  function Replacement(d: Dialect, cat: Catalog, exec: string -> ExecResult, b: Block): string {
    match d
    case Current =>
      var s := Options.ApplyAll(Options.Defaults, FindArgs(Current, b.args));
      var raw := GeneratePythonCode(cat, b.code, Split(s.header, ','), Split(s.footer, ','));
      if s.interpret then GenerateHtml(exec, raw, s.format, s.alt, s.title) else Indent(raw, "    ")
    case Legacy =>
      var s := LegacyOptions.ApplyAll(LegacyOptions.Defaults, FindArgs(Legacy, b.args));
      var raw := GeneratePythonCode(cat, b.code, Split(s.header, ','), Split(s.footer, ','));
      if s.interpret then LegacyHtml(exec, raw) else Indent(raw, "    ")
  }

  /** `_replace_block` as a value: the new text and whether a block was replaced. */
  function Replace(d: Dialect, cat: Catalog, exec: string -> ExecResult, text: string): (r: (string, bool))
    ensures r.1 <==> FindBlock(d, text).Some?
    ensures !r.1 ==> r.0 == text
  {
    match FindBlock(d, text)
    case None => (text, false)
    case Some(b) => (text[..b.start] + Replacement(d, cat, exec, b) + text[b.end..], true)
  }

  /** `_replace_block`: search, the option loop, assembly, then the splice. */
  method ReplaceBlock(d: Dialect, cat: Catalog, exec: string -> ExecResult, text: string)
    returns (out: string, didReplace: bool)
    ensures (out, didReplace) == Replace(d, cat, exec, text)
  {
    var m := FindBlock(d, text);
    if m.None? {
      return text, false;
    }
    var b := m.value;
    var replacement: string;
    if d == Current {
      var s := Options.ParseOptions(b.args);
      var raw := GeneratePythonCode(cat, b.code, Split(s.header, ','), Split(s.footer, ','));
      if s.interpret {
        replacement := GenerateHtml(exec, raw, s.format, s.alt, s.title);
      } else {
        replacement := Indent(raw, "    ");
      }
    } else {
      var s := LegacyOptions.ParseOptions(b.args);
      var raw := GeneratePythonCode(cat, b.code, Split(s.header, ','), Split(s.footer, ','));
      if s.interpret {
        replacement := LegacyHtml(exec, raw);
      } else {
        replacement := Indent(raw, "    ");
      }
    }
    assert replacement == Replacement(d, cat, exec, b);
    return text[..b.start] + replacement + text[b.end..], true;
  }

  /** The splice leaves the text before and after the block as it was and
      puts the replacement exactly where the block was. */
  lemma SpliceKeepsOutside(d: Dialect, cat: Catalog, exec: string -> ExecResult, text: string)
    requires FindBlock(d, text).Some?
    ensures var b := FindBlock(d, text).value;
            var rep := Replacement(d, cat, exec, b);
            var out := Replace(d, cat, exec, text).0;
            && |out| == b.start + |rep| + (|text| - b.end)
            && out[..b.start] == text[..b.start]
            && out[b.start..b.start + |rep|] == rep
            && out[b.start + |rep|..] == text[b.end..]
  {
    var b := FindBlock(d, text).value;
    SpliceParts(text[..b.start], Replacement(d, cat, exec, b), text[b.end..]);
  }

  lemma SpliceParts(pre: string, rep: string, post: string)
    ensures var out := pre + rep + post;
            && out[..|pre|] == pre
            && out[|pre|..|pre| + |rep|] == rep
            && out[|pre| + |rep|..] == post
  {
  }

  /** With `interpret` set to a falsy value (its last occurrence), the block
      is replaced by its assembled code indented by four spaces and nothing
      is run. */
  lemma ShownWhenNotInterpreted(d: Dialect, cat: Catalog, exec: string -> ExecResult, b: Block)
    requires var v := LastValue(FindArgs(d, b.args), "interpret");
             v.Some? && Lower(v.value) in Options.Falsy
    ensures var found := FindArgs(d, b.args);
            var header := match LastValue(found, "header") case Some(v) => v case None => "";
            var footer := match LastValue(found, "footer") case Some(v) => v case None => "";
            Replacement(d, cat, exec, b)
              == Indent(GeneratePythonCode(cat, b.code, Split(header, ','), Split(footer, ',')), "    ")
  {
    if d == Current {
      Options.ParsedSettings(b.args);
    } else {
      LegacyOptions.ParsedSettings(b.args);
    }
  }

  /** When the code raises, both variants show the traceback indented by
      four spaces, whatever the format. */
  lemma FaultShowsTraceback(d: Dialect, cat: Catalog, exec: string -> ExecResult, b: Block, raw: string)
    requires var found := FindArgs(d, b.args);
             var header := match LastValue(found, "header") case Some(v) => v case None => "";
             var footer := match LastValue(found, "footer") case Some(v) => v case None => "";
             raw == GeneratePythonCode(cat, b.code, Split(header, ','), Split(footer, ','))
    requires !(var v := LastValue(FindArgs(d, b.args), "interpret"); v.Some? && Lower(v.value) in Options.Falsy)
    requires exec(raw).Fault?
    ensures Replacement(d, cat, exec, b) == Indent(exec(raw).traceback, "    ")
  {
    if d == Current {
      Options.ParsedSettings(b.args);
    } else {
      LegacyOptions.ParsedSettings(b.args);
    }
  }

  /** In the current syntax, with no `format` given, what the code printed
      goes in place of the block as it is. */
  lemma CurrentShowsStdout(cat: Catalog, exec: string -> ExecResult, b: Block, raw: string)
    requires var found := FindArgs(Current, b.args);
             var header := match LastValue(found, "header") case Some(v) => v case None => "";
             var footer := match LastValue(found, "footer") case Some(v) => v case None => "";
             raw == GeneratePythonCode(cat, b.code, Split(header, ','), Split(footer, ','))
    requires !(var v := LastValue(FindArgs(Current, b.args), "interpret"); v.Some? && Lower(v.value) in Options.Falsy)
    requires LastValue(FindArgs(Current, b.args), "format").None?
    requires exec(raw).Ok?
    ensures Replacement(Current, cat, exec, b) == exec(raw).stdout
  {
    Options.ParsedSettings(b.args);
    Options.LastOccurrenceWins(Options.Defaults, FindArgs(Current, b.args));
  }

  /** The legacy variant puts what the code printed in place of the block,
      with no encoding step. */
  lemma LegacyShowsStdout(cat: Catalog, exec: string -> ExecResult, b: Block, raw: string)
    requires var found := FindArgs(Legacy, b.args);
             var header := match LastValue(found, "header") case Some(v) => v case None => "";
             var footer := match LastValue(found, "footer") case Some(v) => v case None => "";
             raw == GeneratePythonCode(cat, b.code, Split(header, ','), Split(footer, ','))
    requires !(var v := LastValue(FindArgs(Legacy, b.args), "interpret"); v.Some? && Lower(v.value) in Options.Falsy)
    requires exec(raw).Ok?
    ensures Replacement(Legacy, cat, exec, b) == exec(raw).stdout
  {
    LegacyOptions.ParsedSettings(b.args);
  }

  // ---------------------------------------------------------------- run

  /** The `while did_replace` loop for any step that returns the new text and
      whether it replaced something, with at most `fuel` steps; None when the
      fuel runs out first. */
  function Iterate(step: string -> (string, bool), text: string, fuel: nat): Option<string>
    decreases fuel
  {
    if fuel == 0 then None
    else if step(text).1 then Iterate(step, step(text).0, fuel - 1)
    else Some(text)
  }

  /** Whatever the loop returns is a text the step leaves alone. */
  lemma {:induction false} IterateStops(step: string -> (string, bool), text: string, fuel: nat)
    requires Iterate(step, text, fuel).Some?
    ensures !step(Iterate(step, text, fuel).value).1
    decreases fuel
  {
    if step(text).1 {
      IterateStops(step, step(text).0, fuel - 1);
    }
  }

  /** More fuel never changes a result reached with less. */
  lemma {:induction false} IterateMonotone(step: string -> (string, bool), text: string, fuel: nat, more: nat)
    requires fuel <= more && Iterate(step, text, fuel).Some?
    ensures Iterate(step, text, more) == Iterate(step, text, fuel)
    decreases fuel
  {
    if step(text).1 {
      IterateMonotone(step, step(text).0, fuel - 1, more - 1);
    }
  }

  /** What the loop will return from a given state: the text itself once
      nothing was replaced, otherwise what the remaining passes give. */
  function Pending(step: string -> (string, bool), text: string, fuel: nat, did: bool): Option<string> {
    if did then Iterate(step, text, fuel) else Some(text)
  }

  /** A pass moves the loop from one state to the next without changing
      what it will return, for a step that leaves the text alone when it
      replaces nothing. */
  lemma PendingStep(step: string -> (string, bool), text: string, fuel: nat, next: string, did: bool, rest: nat)
    requires fuel > 0 && rest == fuel - 1 && step(text) == (next, did) && (!did ==> next == text)
    ensures Pending(step, next, rest, did) == Pending(step, text, fuel, true)
  {
    assert step(text).0 == next && step(text).1 == did;
    if did {
      assert Iterate(step, text, fuel) == Iterate(step, next, rest);
    }
  }

  /** `_replace_block` as the step of the loop. */
  function Step(d: Dialect, cat: Catalog, exec: string -> ExecResult): string -> (string, bool) {
    text => Replace(d, cat, exec, text)
  }

  /** The loop of `run` on the joined text. */
  function RunText(d: Dialect, cat: Catalog, exec: string -> ExecResult, text: string, fuel: nat): Option<string> {
    Iterate(Step(d, cat, exec), text, fuel)
  }

  /** `run` as a value. */
  function RunLines(d: Dialect, cat: Catalog, exec: string -> ExecResult, lines: seq<string>, fuel: nat): Option<seq<string>> {
    match RunText(d, cat, exec, Join("\n", lines), fuel)
    case None => None
    case Some(t) => Some(Split(t, '\n'))
  }

  /** `run`: join, replace until no block is left, split. */
  method Run(d: Dialect, cat: Catalog, exec: string -> ExecResult, lines: seq<string>, fuel: nat)
    returns (out: Option<seq<string>>)
    ensures out == RunLines(d, cat, exec, lines, fuel)
  {
    var text := Join("\n", lines);
    ghost var result := RunText(d, cat, exec, text, fuel);
    var didReplace := true;
    var left := fuel;
    while didReplace
      invariant Pending(Step(d, cat, exec), text, left, didReplace) == result
      decreases left, didReplace
    {
      if left == 0 {
        return None;
      }
      text, didReplace, left := Pass(d, cat, exec, text, left);
    }
    return Some(Split(text, '\n'));
  }

  /** One pass of the loop of `run`: one call of `_replace_block`. */
  method Pass(d: Dialect, cat: Catalog, exec: string -> ExecResult, text: string, left: nat)
    returns (next: string, did: bool, rest: nat)
    requires left > 0
    ensures rest == left - 1
    ensures Pending(Step(d, cat, exec), next, rest, did) == Pending(Step(d, cat, exec), text, left, true)
  {
    next, did := ReplaceBlock(d, cat, exec, text);
    rest := left - 1;
    assert Step(d, cat, exec)(text) == (next, did);
    PendingStep(Step(d, cat, exec), text, left, next, did, rest);
  }

  /** Whatever `run` returns holds no block. */
  lemma RunLeavesNoBlock(d: Dialect, cat: Catalog, exec: string -> ExecResult, text: string, fuel: nat)
    requires RunText(d, cat, exec, text, fuel).Some?
    ensures FindBlock(d, RunText(d, cat, exec, text, fuel).value).None?
  {
    var step := Step(d, cat, exec);
    IterateStops(step, text, fuel);
    var t := Iterate(step, text, fuel).value;
    assert step(t) == Replace(d, cat, exec, t);
  }

  /** More passes of the loop never change a result reached with fewer. */
  lemma RunFuelMonotone(d: Dialect, cat: Catalog, exec: string -> ExecResult, text: string, fuel: nat, more: nat)
    requires fuel <= more && RunText(d, cat, exec, text, fuel).Some?
    ensures RunText(d, cat, exec, text, more) == RunText(d, cat, exec, text, fuel)
  {
    IterateMonotone(Step(d, cat, exec), text, fuel, more);
  }

  /** The loop returns its input unchanged exactly when that input holds no
      block. */
  lemma RunTextFixedPoint(d: Dialect, cat: Catalog, exec: string -> ExecResult, text: string, fuel: nat)
    requires fuel >= 1
    ensures FindBlock(d, text).None? <==> RunText(d, cat, exec, text, fuel) == Some(text)
  {
    var step := Step(d, cat, exec);
    assert step(text) == Replace(d, cat, exec, text);
    if RunText(d, cat, exec, text, fuel) == Some(text) {
      RunLeavesNoBlock(d, cat, exec, text, fuel);
    }
  }

  /** `run` on lines holding no block returns the same lines. */
  lemma RunWithoutBlocks(d: Dialect, cat: Catalog, exec: string -> ExecResult, lines: seq<string>, fuel: nat)
    requires fuel >= 1 && lines != []
    requires forall i :: 0 <= i < |lines| ==> '\n' !in lines[i]
    requires FindBlock(d, Join("\n", lines)).None?
    ensures RunLines(d, cat, exec, lines, fuel) == Some(lines)
  {
    SplitJoin(lines, '\n');
    RunTextFixedPoint(d, cat, exec, Join("\n", lines), fuel);
  }
}
