/** The snippet catalog: header and footer code fragments loaded from
    directories, and the code assembler that wraps user code in them. A
    directory is given as a map from snippet name (the file's base name) to
    the file's lines, each with its line ending, as iterating the open file
    yields them. */
module Snippets {
  import opened PyStr

  type Directory = map<string, seq<string>>

  /** `line.startswith('#')`. */
  predicate IsComment(line: string) {
    |line| > 0 && line[0] == '#'
  }

  /** The number of leading comment lines of a file. */
  function CommentRun(lines: seq<string>): (n: nat)
    ensures n <= |lines|
    ensures forall i :: 0 <= i < n ==> IsComment(lines[i])
    ensures n < |lines| ==> !IsComment(lines[n])
  {
    if lines == [] || !IsComment(lines[0]) then 0 else 1 + CommentRun(lines[1..])
  }

  /** `filter_first_comments`: skip lines while they start with '#', then
      emit the first other line and every line after it, comments included. */
  method FilterFirstComments(lines: seq<string>) returns (out: seq<string>)
    ensures out == lines[CommentRun(lines)..]
    ensures exists k :: 0 <= k <= |lines| && out == lines[k..]
    ensures lines == [] || !IsComment(lines[0]) ==> out == lines
    ensures out == [] <==> forall i :: 0 <= i < |lines| ==> IsComment(lines[i])
    ensures out != [] ==> !IsComment(out[0])
  {
    out := [];
    var i := 0;
    while i < |lines|
      invariant 0 <= i <= |lines|
      invariant forall j :: 0 <= j < i ==> IsComment(lines[j])
      invariant out == []
    {
      var line := lines[i];
      i := i + 1;
      if !IsComment(line) {
        out := [line];
        break;
      }
    }
    out := out + lines[i..];
    assert out == lines[CommentRun(lines)..] by {
      CommentRunUnique(lines, if out == [] then |lines| else i - 1);
    }
  }

  /** The leading comment run is determined by where the first non-comment line is. */
  lemma {:induction false} CommentRunUnique(lines: seq<string>, k: nat)
    requires k <= |lines|
    requires forall i :: 0 <= i < k ==> IsComment(lines[i])
    requires k < |lines| ==> !IsComment(lines[k])
    ensures CommentRun(lines) == k
  {
    if k > 0 {
      CommentRunUnique(lines[1..], k - 1);
    }
  }

  /** The text of one snippet file: `''.join(filter_first_comments(fd))`. */
  function SnippetText(lines: seq<string>): string {
    Concat(lines[CommentRun(lines)..])
  }

  /** `dict(gen_headfoots_from_dir(directory))`. */
  function LoadDir(dir: Directory): (m: map<string, string>)
    ensures m.Keys == dir.Keys
    ensures forall name :: name in dir ==> m[name] == SnippetText(dir[name])
  {
    map name | name in dir :: SnippetText(dir[name])
  }

  /** Built-in entries updated with the custom ones (`dict.update`), if a
      custom directory is configured: a custom file overrides the built-in
      file of the same name. */
  function Overlay(builtin: Directory, custom: Option<Directory>): (m: map<string, string>)
    ensures custom.None? ==> m == LoadDir(builtin)
    ensures custom.Some? ==> m.Keys == builtin.Keys + custom.value.Keys
    ensures custom.Some? ==> forall name :: name in custom.value ==> m[name] == SnippetText(custom.value[name])
    ensures custom.Some? ==> forall name :: name in builtin && name !in custom.value ==>
                                              m[name] == SnippetText(builtin[name])
  {
    if custom.None? then LoadDir(builtin) else LoadDir(builtin) + LoadDir(custom.value)
  }

  datatype Catalog = Catalog(header: map<string, string>, footer: map<string, string>)

  /** The `''` and `'none'` aliases `build_configs` adds to a loaded map:
      `''` mirrors `default`, `none` is empty (even over a `none` file), and
      every other entry stays as loaded. */
  function WithAliases(m: map<string, string>): (r: map<string, string>)
    requires "default" in m
    ensures r.Keys == m.Keys + {"", "none"}
    ensures r[""] == m["default"] && r["none"] == ""
    ensures forall name :: name in m && name != "" && name != "none" ==> r[name] == m[name]
  {
    m["" := m["default"]]["none" := ""]
  }

  /** What `build_configs` leaves in `self.header` and `self.footer`; None
      when looking up `default` raises (in either map). */
  function BuildCatalog(builtinHeaders: Directory, builtinFooters: Directory,
                        customHeaders: Option<Directory>, customFooters: Option<Directory>): (c: Option<Catalog>)
    ensures var h := Overlay(builtinHeaders, customHeaders);
            var f := Overlay(builtinFooters, customFooters);
            && (c.Some? <==> "default" in h && "default" in f)
            && (c.Some? ==>
                  && c.value.header == WithAliases(h) && c.value.footer == WithAliases(f)
                  && c.value.header[""] == c.value.header["default"]
                  && c.value.footer[""] == c.value.footer["default"]
                  && c.value.header["none"] == "" && c.value.footer["none"] == "")
  {
    var h := Overlay(builtinHeaders, customHeaders);
    var f := Overlay(builtinFooters, customFooters);
    if "default" in h && "default" in f then Some(Catalog(WithAliases(h), WithAliases(f))) else None
  }

  /** The preprocessor's `self.header` and `self.footer` dictionaries. */
  class HeadFoot {
    var header: map<string, string>
    var footer: map<string, string>

    constructor ()
      ensures header == map[] && footer == map[]
    {
      header := map[];
      footer := map[];
    }

    function Snapshot(): Catalog
      reads this
    {
      Catalog(header, footer)
    }

    /** The loading half of `build_configs`: built-in snippets, updated with
        the custom ones where a custom directory is configured. */
    method Load(builtinHeaders: Directory, builtinFooters: Directory,
                customHeaders: Option<Directory>, customFooters: Option<Directory>)
      modifies this
      ensures header == Overlay(builtinHeaders, customHeaders)
      ensures footer == Overlay(builtinFooters, customFooters)
    {
      header := LoadDir(builtinHeaders);
      footer := LoadDir(builtinFooters);
      if customHeaders.Some? {
        header := header + LoadDir(customHeaders.value);
      }
      if customFooters.Some? {
        footer := footer + LoadDir(customFooters.value);
      }
    }

    /** `build_configs`: load built-in then custom snippets into the two maps,
        then add the `''` and `'none'` aliases. `ok` is false where Python
        raises KeyError on the missing `default`; the maps are then left as
        far as the assignments got. */
    method BuildConfigs(builtinHeaders: Directory, builtinFooters: Directory,
                        customHeaders: Option<Directory>, customFooters: Option<Directory>)
      returns (ok: bool)
      modifies this
      ensures var h := Overlay(builtinHeaders, customHeaders);
              var f := Overlay(builtinFooters, customFooters);
              && ok == ("default" in h && "default" in f)
              && (ok ==> Some(Snapshot()) == BuildCatalog(builtinHeaders, builtinFooters, customHeaders, customFooters))
              && ("default" !in h ==> header == h && footer == f)
              && ("default" in h && "default" !in f ==> header == h["" := h["default"]] && footer == f)
    {
      Load(builtinHeaders, builtinFooters, customHeaders, customFooters);
      if "default" !in header {
        return false;
      }
      header := header["" := header["default"]];
      if "default" !in footer {
        return false;
      }
      footer := footer["" := footer["default"]];
      header := header["none" := ""];
      footer := footer["none" := ""];
      return true;
    }
  }

  // ---------------------------------------------------------------- assembler

  /** `catalog.get(name, '')`. */
  function Lookup(m: map<string, string>, name: string): string {
    if name in m then m[name] else ""
  }

  function Lookups(m: map<string, string>, names: seq<string>): (r: seq<string>)
    ensures |r| == |names| && forall i :: 0 <= i < |names| ==> r[i] == Lookup(m, names[i])
  {
    if names == [] then [] else [Lookup(m, names[0])] + Lookups(m, names[1..])
  }

  lemma {:induction false} JoinAppend(sep: string, a: seq<string>, b: seq<string>)
    requires a != [] && b != []
    ensures Join(sep, a + b) == Join(sep, a) + sep + Join(sep, b)
  {
    if |a| > 1 {
      assert (a + b)[1..] == a[1..] + b;
      JoinAppend(sep, a[1..], b);
    } else {
      assert (a + b)[1..] == b;
    }
  }

  /** `generate_python_code`: the header snippets in order, the dedented
      code, then the footer snippets in order, one newline between each. */
  function GeneratePythonCode(cat: Catalog, code: string, headers: seq<string>, footers: seq<string>): (r: string)
    ensures headers != [] && footers != [] ==>
              r == Join("\n", Lookups(cat.header, headers)) + "\n" + Dedent(code) + "\n"
                   + Join("\n", Lookups(cat.footer, footers))
  {
    var hs, fs := Lookups(cat.header, headers), Lookups(cat.footer, footers);
    var parts := hs + [Dedent(code)] + fs;
    if headers != [] && footers != [] then
      JoinAppend("\n", hs + [Dedent(code)], fs);
      JoinAppend("\n", hs, [Dedent(code)]);
      Join("\n", parts)
    else Join("\n", parts)
  }

  /** With `header=none footer=none` the unit is the dedented code between two
      empty lines; an unknown name contributes an empty line the same way. */
  lemma AssembleWithoutSnippets(cat: Catalog, code: string, h: string, f: string)
    requires h !in cat.header || cat.header[h] == ""
    requires f !in cat.footer || cat.footer[f] == ""
    ensures GeneratePythonCode(cat, code, [h], [f]) == "\n" + Dedent(code) + "\n"
  {
  }

  /** The default option value `''` splits to the one name `''`, which a
      built catalog resolves to the `default` snippet. */
  lemma DefaultNameIsDefaultSnippet(builtinHeaders: Directory, builtinFooters: Directory,
                                    customHeaders: Option<Directory>, customFooters: Option<Directory>)
    requires BuildCatalog(builtinHeaders, builtinFooters, customHeaders, customFooters).Some?
    ensures var c := BuildCatalog(builtinHeaders, builtinFooters, customHeaders, customFooters).value;
            && Split("", ',') == [""]
            && Lookups(c.header, Split("", ',')) == [c.header["default"]]
            && Lookups(c.footer, Split("", ',')) == [c.footer["default"]]
  {
  }
}
