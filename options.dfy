/** The option scan of `_replace_block` in genhtml/genhtml.py: the pairs of
    the opening line update six settings in turn, starting from the defaults. */
module Options {
  import opened PyStr
  import opened Grammar
  import opened Args
  import opened Output

  datatype Settings = Settings(header: string, footer: string, interpret: bool,
                               format: string, alt: string, title: string)

  /** `'', '', True, 'html', '', ''`. */
  const Defaults := Settings("", "", true, "html", "", "")

  /** `FALSY_VALUES`. */
  const Falsy: set<string> := {"0", "no", "false", "f"}

  /** The option names the scan recognises. */
  const Known: set<string> := {"header", "footer", "interpret", "format", "alt", "title"}

  /** `value.strip().strip('"\'')`, applied to snippet names. */
  function CleanName(v: string): (r: string)
    ensures |r| <= |v|
    ensures r != [] ==> !IsQuote(r[0]) && !IsQuote(r[|r| - 1])
    ensures r == [] <==> All(Strip(v), IsQuote)
  {
    StripByEnds(Strip(v), IsQuote);
    StripBy(Strip(v), IsQuote)
  }

  /** `value.strip('\'"')`, applied to alt and title. */
  function CleanLabel(v: string): (r: string)
    ensures |r| <= |v|
    ensures r != [] ==> !IsQuote(r[0]) && !IsQuote(r[|r| - 1])
    ensures r == [] <==> All(v, IsQuote)
  {
    StripByEnds(v, IsQuote);
    StripBy(v, IsQuote)
  }

  /** The lowercased format, reset to `html` when `DATA_FORMATS` has no such key. */
  function NormalizeFormat(v: string): (r: string)
    ensures r in FormatKeys
    ensures Lower(v) in FormatKeys ==> r == Lower(v)
    ensures Lower(v) !in FormatKeys ==> r == "html"
  {
    var f := Lower(v);
    if f in FormatKeys then f else "html"
  }

  /** One pair: a recognised key sets its own setting and no other; any
      other key changes nothing. */
  function Apply(s: Settings, a: Arg): (r: Settings)
    ensures a.key !in Known ==> r == s
    ensures s.format in FormatKeys ==> r.format in FormatKeys
  {
    if a.key == "header" then s.(header := CleanName(a.value))
    else if a.key == "footer" then s.(footer := CleanName(a.value))
    else if a.key == "interpret" then s.(interpret := Lower(a.value) !in Falsy)
    else if a.key == "format" then s.(format := NormalizeFormat(a.value))
    else if a.key == "alt" then s.(alt := CleanLabel(a.value))
    else if a.key == "title" then s.(title := CleanLabel(a.value))
    else s
  }

  /** The pairs applied left to right. */
  function ApplyAll(s: Settings, args: seq<Arg>): (r: Settings)
    ensures s.format in FormatKeys ==> r.format in FormatKeys
    decreases |args|
  {
    if args == [] then s else Apply(ApplyAll(s, args[..|args| - 1]), args[|args| - 1])
  }

  /** The option loop of `_replace_block`. */
  method ParseOptions(argText: string) returns (s: Settings)
    ensures s == ApplyAll(Defaults, FindArgs(Current, argText))
    ensures s.format in FormatKeys
  {
    var found := FindArgs(Current, argText);
    var header, footer, interpret, dataformat, alt, title := "", "", true, "html", "", "";
    for i := 0 to |found|
      invariant Settings(header, footer, interpret, dataformat, alt, title) == ApplyAll(Defaults, found[..i])
      invariant dataformat in FormatKeys
    {
      var key, value := found[i].key, found[i].value;
      ghost var before := Settings(header, footer, interpret, dataformat, alt, title);
      ApplyFields(before, found[i]);
      ApplyAllSnoc(Defaults, found, i);
      if key == "header" {
        header := CleanName(value);
      } else if key == "footer" {
        footer := CleanName(value);
      } else if key == "interpret" {
        interpret := Lower(value) !in Falsy;
      } else if key == "format" {
        dataformat := Lower(value);
        if dataformat !in FormatKeys {
          dataformat := "html";
        }
      } else if key == "alt" {
        alt := CleanLabel(value);
      } else if key == "title" {
        title := CleanLabel(value);
      }
    }
    assert found[..|found|] == found;
    s := Settings(header, footer, interpret, dataformat, alt, title);
  }

  lemma ApplyAllSnoc(s: Settings, args: seq<Arg>, i: nat)
    requires i < |args|
    ensures ApplyAll(s, args[..i + 1]) == Apply(ApplyAll(s, args[..i]), args[i])
  {
    assert args[..i + 1][..i] == args[..i];
  }

  /** Each setting is decided by the last pair with its key, or keeps its
      starting value when no pair has that key. */
  lemma {:induction false} LastOccurrenceWins(s: Settings, args: seq<Arg>)
    ensures var r := ApplyAll(s, args);
            && r.header == (match LastValue(args, "header") case Some(v) => CleanName(v) case None => s.header)
            && r.footer == (match LastValue(args, "footer") case Some(v) => CleanName(v) case None => s.footer)
            && r.interpret == (match LastValue(args, "interpret") case Some(v) => Lower(v) !in Falsy case None => s.interpret)
            && r.format == (match LastValue(args, "format") case Some(v) => NormalizeFormat(v) case None => s.format)
            && r.alt == (match LastValue(args, "alt") case Some(v) => CleanLabel(v) case None => s.alt)
            && r.title == (match LastValue(args, "title") case Some(v) => CleanLabel(v) case None => s.title)
    decreases |args|
  {
    if args != [] {
      var init := args[..|args| - 1];
      var a := args[|args| - 1];
      LastOccurrenceWins(s, init);
      var p := ApplyAll(s, init);
      assert ApplyAll(s, args) == Apply(p, a);
      ApplyFields(p, a);
      LastValueStep(args, "header");
      LastValueStep(args, "footer");
      LastValueStep(args, "interpret");
      LastValueStep(args, "format");
      LastValueStep(args, "alt");
      LastValueStep(args, "title");
    }
  }

  lemma LastValueStep(args: seq<Arg>, key: string)
    requires args != []
    ensures LastValue(args, key) == if args[|args| - 1].key == key then Some(args[|args| - 1].value)
                                    else LastValue(args[..|args| - 1], key)
  {
  }

  lemma ApplyFields(p: Settings, a: Arg)
    ensures var r := Apply(p, a);
            && r.header == (if a.key == "header" then CleanName(a.value) else p.header)
            && r.footer == (if a.key == "footer" then CleanName(a.value) else p.footer)
            && r.interpret == (if a.key == "interpret" then Lower(a.value) !in Falsy else p.interpret)
            && r.format == (if a.key == "format" then NormalizeFormat(a.value) else p.format)
            && r.alt == (if a.key == "alt" then CleanLabel(a.value) else p.alt)
            && r.title == (if a.key == "title" then CleanLabel(a.value) else p.title)
  {
  }

  /** The values a scan finds are used verbatim for names and labels: they
      hold no whitespace and no quote, so the stripping removes nothing. */
  lemma CleanIsVerbatim(d: Dialect, v: string)
    requires v != [] && forall i :: 0 <= i < |v| ==> IsValueChar(d, v[i])
    ensures CleanName(v) == v && CleanLabel(v) == v
  {
    ValueCharIsPlain(d, v[0]);
    ValueCharIsPlain(d, v[|v| - 1]);
    NotSpace(v[0]);
    NotSpace(v[|v| - 1]);
    assert Strip(v) == v;
    assert StripBy(v, IsQuote) == v;
  }

  lemma NotSpace(c: char)
    requires IsArgChar(Current, c) && c != ' '
    ensures !IsSpace(c)
  {
  }

  /** The parsed settings of an opening line: interpretation is off exactly
      when the last `interpret` value lowercases to one of `FALSY_VALUES`;
      header, footer, alt and title are the last values given, verbatim. */
  lemma ParsedSettings(argText: string)
    ensures var found := FindArgs(Current, argText);
            var r := ApplyAll(Defaults, found);
            && (!r.interpret <==> LastValue(found, "interpret").Some? && Lower(LastValue(found, "interpret").value) in Falsy)
            && r.header == (match LastValue(found, "header") case Some(v) => v case None => "")
            && r.footer == (match LastValue(found, "footer") case Some(v) => v case None => "")
            && r.alt == (match LastValue(found, "alt") case Some(v) => v case None => "")
            && r.title == (match LastValue(found, "title") case Some(v) => v case None => "")
  {
    var found := FindArgs(Current, argText);
    LastOccurrenceWins(Defaults, found);
    LastValueIsValue(Current, found, "header");
    LastValueIsValue(Current, found, "footer");
    LastValueIsValue(Current, found, "alt");
    LastValueIsValue(Current, found, "title");
  }

  lemma LastValueIsValue(d: Dialect, args: seq<Arg>, key: string)
    requires forall i :: 0 <= i < |args| ==> WellFormed(d, args[i])
    ensures LastValue(args, key).Some? ==>
              CleanName(LastValue(args, key).value) == LastValue(args, key).value
              && CleanLabel(LastValue(args, key).value) == LastValue(args, key).value
  {
    if LastValue(args, key).Some? {
      LastValueSpec(args, key);
      var j :| 0 <= j < |args| && args[j].key == key && args[j].value == LastValue(args, key).value;
      CleanIsVerbatim(d, args[j].value);
    }
  }
}
