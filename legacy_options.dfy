/** The option scan of `_replace_block` in the legacy genhtml.py: only
    `header`, `footer` and `interpret` are recognised. */
module LegacyOptions {
  import opened PyStr
  import opened Grammar
  import opened Args
  import Options

  datatype Settings = Settings(header: string, footer: string, interpret: bool)

  /** `'', '', True`. */
  const Defaults := Settings("", "", true)

  const Known: set<string> := {"header", "footer", "interpret"}

  /** One pair: a recognised key sets its own setting; any other key,
      `format` among them, changes nothing. */
  function Apply(s: Settings, a: Arg): (r: Settings)
    ensures a.key !in Known ==> r == s
  {
    if a.key == "header" then s.(header := Options.CleanName(a.value))
    else if a.key == "footer" then s.(footer := Options.CleanName(a.value))
    else if a.key == "interpret" then s.(interpret := Lower(a.value) !in Options.Falsy)
    else s
  }

  function ApplyAll(s: Settings, args: seq<Arg>): Settings
    decreases |args|
  {
    if args == [] then s else Apply(ApplyAll(s, args[..|args| - 1]), args[|args| - 1])
  }

  lemma ApplyAllSnoc(s: Settings, args: seq<Arg>, i: nat)
    requires i < |args|
    ensures ApplyAll(s, args[..i + 1]) == Apply(ApplyAll(s, args[..i]), args[i])
  {
    assert args[..i + 1][..i] == args[..i];
  }

  lemma ApplyFields(p: Settings, a: Arg)
    ensures var r := Apply(p, a);
            && r.header == (if a.key == "header" then Options.CleanName(a.value) else p.header)
            && r.footer == (if a.key == "footer" then Options.CleanName(a.value) else p.footer)
            && r.interpret == (if a.key == "interpret" then Lower(a.value) !in Options.Falsy else p.interpret)
  {
  }

  /** The option loop of the legacy `_replace_block`. */
  method ParseOptions(argText: string) returns (s: Settings)
    ensures s == ApplyAll(Defaults, FindArgs(Legacy, argText))
  {
    var found := FindArgs(Legacy, argText);
    var header, footer, interpret := "", "", true;
    for i := 0 to |found|
      invariant Settings(header, footer, interpret) == ApplyAll(Defaults, found[..i])
    {
      var key, value := found[i].key, found[i].value;
      ApplyFields(Settings(header, footer, interpret), found[i]);
      ApplyAllSnoc(Defaults, found, i);
      if key == "header" {
        header := Options.CleanName(value);
      } else if key == "footer" {
        footer := Options.CleanName(value);
      } else if key == "interpret" {
        interpret := Lower(value) !in Options.Falsy;
      }
    }
    assert found[..|found|] == found;
    s := Settings(header, footer, interpret);
  }

  /** Each setting is decided by the last pair with its key, or keeps its
      starting value. */
  lemma {:induction false} LastOccurrenceWins(s: Settings, args: seq<Arg>)
    ensures var r := ApplyAll(s, args);
            && r.header == (match LastValue(args, "header") case Some(v) => Options.CleanName(v) case None => s.header)
            && r.footer == (match LastValue(args, "footer") case Some(v) => Options.CleanName(v) case None => s.footer)
            && r.interpret == (match LastValue(args, "interpret") case Some(v) => Lower(v) !in Options.Falsy case None => s.interpret)
    decreases |args|
  {
    if args != [] {
      var init := args[..|args| - 1];
      var a := args[|args| - 1];
      LastOccurrenceWins(s, init);
      ApplyFields(ApplyAll(s, init), a);
      Options.LastValueStep(args, "header");
      Options.LastValueStep(args, "footer");
      Options.LastValueStep(args, "interpret");
    }
  }

  /** The parsed settings of a legacy opening line: interpretation is off
      exactly when the last `interpret` value lowercases to one of
      `FALSY_VALUES`; header and footer are the last values given, verbatim,
      and made of letters, digits and commas only. */
  lemma ParsedSettings(argText: string)
    ensures var found := FindArgs(Legacy, argText);
            var r := ApplyAll(Defaults, found);
            && (!r.interpret <==> LastValue(found, "interpret").Some? && Lower(LastValue(found, "interpret").value) in Options.Falsy)
            && r.header == (match LastValue(found, "header") case Some(v) => v case None => "")
            && r.footer == (match LastValue(found, "footer") case Some(v) => v case None => "")
            && (forall i :: 0 <= i < |r.header| ==> IsValueChar(Legacy, r.header[i]))
            && (forall i :: 0 <= i < |r.footer| ==> IsValueChar(Legacy, r.footer[i]))
  {
    var found := FindArgs(Legacy, argText);
    LastOccurrenceWins(Defaults, found);
    Options.LastValueIsValue(Legacy, found, "header");
    Options.LastValueIsValue(Legacy, found, "footer");
    LastValueSpec(found, "header");
    LastValueSpec(found, "footer");
  }
}
