# genhtml block rewriting, modelled in Dafny

genhtml is a Python-Markdown preprocessor. A fenced block in a Markdown document holds Python code. A block opens with
`` ```genhtml `` or `` ```genmark `` followed by `key=value` options, and closes with a line `` ``` ``. The earlier
version at the repository root uses `::genhtml::` and `::end-genhtml::` instead. The preprocessor replaces each block
with what the code prints, or with the code itself when `interpret` is false. This project models that engine and proves
what it promises:

- `Grammar` holds the character classes of the two regex dialects. `Dialect.Current` is `genhtml/genhtml.py`;
  `Dialect.Legacy` is `genhtml.py`.
- `PyStr` holds the Python string primitives the engine relies on, each with its own contract: `str.strip`,
  `str.lower`, `'\n'.join`, `str.split`, `str.splitlines(True)`, `textwrap.indent` and `textwrap.dedent`.
- `Args` scans options the way `ARG_RE.findall` does, as a scanner over the argument text. It proves the round trip
  from rendered pairs back to the same pairs, and characterises the last value given for a key.
- `Options` and `LegacyOptions` model the option loops of the two versions. Each is an imperative `ParseOptions`
  method proved against a left fold `ApplyAll`. Lemmas about `ApplyAll` show that the last occurrence of a key wins,
  that unknown keys change nothing and that the falsy values switch interpretation off.
- `Locator` is a hand-written matcher for `BLOCK_RE`, with the regex's backtracking worked out. Its parts are:
  - the args group is the maximal run of argument characters;
  - `\s*\n` ends after the last newline of the whitespace that follows the args;
  - the lazy code group stops at the first closing fence whose tail `\s*$` succeeds;
  - the tail takes the longest run of tail characters that ends at the end of the text or before a newline.

  `FindBlock` is `search`: the leftmost start at which the matcher succeeds.
- `Blocks` proves every block the matcher returns sound against those rules (`Blocks.FindBlockSound`). It also proves
  the matcher complete for a block at the start of the text: opener, args, one newline, then code whose leading
  whitespace holds no newline, that is empty or ends with a newline, and that has no line starting with the fence's
  first character (`Blocks.PlainCode`), then the fence, then nothing or a newline and a non-space line.
- `Snippets` models the header and footer catalogs:
  - `filter_first_comments` as a loop;
  - the directories as given maps;
  - `build_configs` as a class whose methods update its `header` and `footer` maps in place;
  - `generate_python_code`.
- `Output` models `raw_to_b64image` and the `DATA_FORMATS` encoders. It proves that an image tag reads back to the
  format, the stripped payload, alt and title.
- `Engine` models the rest: `_replace_block` (option scan, assembly, execution or indented display, splice), the
  legacy `generate_html`, and `run` as an imperative loop proved against a functional iteration.

Executing user code is an oracle `exec: string -> ExecResult`. It returns `Ok(stdout)` or `Fault(traceback)`, and
every function that runs code takes it as a parameter. `run` need not terminate, because a replacement may contain
a new block. It therefore takes a fuel bound and returns `None` when the fuel runs out.

A few facts about the source shape the model:
- `BLOCK_RE` is compiled with `re.VERBOSE`, so the space written after the opener is ignored: `` ```genhtmlheader=x ``
  opens a block, and the args capture starts right after the opener.
- The tail `\s*$` in multiline mode can also consume the blank lines after the fence, up to the last one.
  `Locator.TailEnd` models this.
- The code of a block goes through `textwrap.dedent`. It removes the longest common leading whitespace of the
  non-blank lines and blanks whitespace-only lines.

## Model

| member | source | states |
|---|---|---|
| Grammar.ValueCharIsPlain | genhtml/genhtml.py:113 | an option value character is never a quote, a space or `=`, and is also an argument character |
| Args.ValueLen | genhtml/genhtml.py:113 | the value group is the longest run of value characters at the front |
| Args.MatchArg | genhtml/genhtml.py:113 | a match of `ARG_RE` at the front of the text is a well-formed pair whose written form is exactly the consumed prefix |
| Args.MatchValueBare | genhtml/genhtml.py:113 | an unquoted value is matched with an empty quote, up to the end of its run |
| Args.MatchValueQuoted | genhtml/genhtml.py:113 | a value between two equal quotes is matched with that quote, and the closing quote is consumed |
| Args.MatchRendered | genhtml/genhtml.py:113 | a well-formed pair followed by the end or a space is matched as exactly that pair and length |
| Args.FindArgs | genhtml/genhtml.py:115 | every pair `findall` yields has a `[\w-]+` key, a quote of `"`, `'` or nothing, and a non-empty value of value characters |
| Args.SkipSpace | genhtml/genhtml.py:115 | a space before the text adds no pair and removes none |
| Args.FindArgsAfterMatch | genhtml/genhtml.py:115 | after a match, `findall` returns that pair followed by the pairs of the rest |
| Args.FindArgsRenderAll | genhtml/genhtml.py:113-115 | scanning well-formed pairs written out and separated by spaces gives back exactly those pairs, in order |
| Args.LastValueSpec | genhtml/genhtml.py:115-130 | the last value for a key is absent exactly when no pair has the key; otherwise it belongs to a pair with that key after which no pair has it |
| Options.NormalizeFormat | genhtml/genhtml.py:122-126 | the format is lowercased, is always a key of `DATA_FORMATS`, and becomes `html` exactly when the lowercased value is no key |
| Options.Apply | genhtml/genhtml.py:115-132 | a pair with an unrecognised key leaves all six settings unchanged; the format stays a `DATA_FORMATS` key |
| Options.ApplyFields | genhtml/genhtml.py:116-130 | a pair changes exactly the setting its key names, to the stripped, lowercased-and-tested or normalised value |
| Options.ApplyAll | genhtml/genhtml.py:114-132 | folding the pairs keeps the format a `DATA_FORMATS` key |
| Options.ParseOptions | genhtml/genhtml.py:114-132 | the loop over the six variables ends with the settings of the left fold from `'', '', True, 'html', '', ''`, and the format is a `DATA_FORMATS` key |
| Options.LastOccurrenceWins | genhtml/genhtml.py:114-132 | every setting is computed from the last value given for its key, or keeps its starting value when the key is absent |
| Options.CleanIsVerbatim | genhtml/genhtml.py:117-130 | stripping whitespace and quotes leaves a scanned value unchanged |
| Options.CleanName | genhtml/genhtml.py:117-119 | `value.strip().strip('"\'')` is no longer than the value, neither starts nor ends with a quote, and is empty exactly when the stripped value is all quotes |
| Options.CleanLabel | genhtml/genhtml.py:128-130 | `value.strip('\'"')` is no longer than the value, neither starts nor ends with a quote, and is empty exactly when the value is all quotes |
| Options.LastValueIsValue | genhtml/genhtml.py:117-130 | the last value for a key is unchanged by that stripping |
| Options.ParsedSettings | genhtml/genhtml.py:114-130 | `interpret` is false exactly when the last `interpret` value lowercases into `FALSY_VALUES`; header, footer, alt and title are the last values given, verbatim, or `''` |
| LegacyOptions.Apply | genhtml.py:93-101 | keys other than header, footer and interpret, `format` included, leave the settings unchanged |
| LegacyOptions.ApplyFields | genhtml.py:94-99 | a pair changes exactly the setting its key names |
| LegacyOptions.ParseOptions | genhtml.py:92-101 | the loop over header, footer and interpret ends with the settings of the left fold from `'', '', True` |
| LegacyOptions.ApplyAll | genhtml.py:92-101 | the left fold the legacy loop computes; its meaning is stated by LegacyOptions.LastOccurrenceWins and LegacyOptions.ParsedSettings |
| LegacyOptions.LastOccurrenceWins | genhtml.py:92-101 | each of the three settings is computed from the last value given for its key, or keeps its starting value |
| LegacyOptions.ParsedSettings | genhtml.py:91-99 | `interpret` is false exactly when the last value lowercases into `FALSY_VALUES`; header and footer are the last values verbatim and hold only `[a-zA-Z0-9,]` |
| Locator.OccursAtSlice | genhtml/genhtml.py:89-91 | a literal occurs at a position exactly when the slice there equals it |
| Locator.OpenerLen | genhtml/genhtml.py:89 | an opener found at a position is `` ```genhtml `` or `` ```genmark `` (`::genhtml::` in the legacy syntax) and fits in the text |
| Locator.ArgsEndSpec | genhtml/genhtml.py:89 | the args group is the maximal run of `[=\w'" +,_-]` (legacy `[=\w'" -]`) characters |
| Locator.SpaceEndSpec | genhtml/genhtml.py:89 | the whitespace run after the args is maximal |
| Locator.LastNewlineSpec | genhtml/genhtml.py:89 | the newline found is the last one in the range, and none is found when the range has none |
| Locator.ArgsEnd | genhtml/genhtml.py:89 | the args run ends within the text, after its start; its maximality is Locator.ArgsEndSpec |
| Locator.CodeStart | genhtml/genhtml.py:89 | the code starts after the args and within the text; where, is Locator.CodeStartSpec |
| Locator.CodeStartSpec | genhtml/genhtml.py:89 | the code starts right after the last newline of the whitespace run, and there is no match when that run holds no newline |
| Locator.TailRunEndSpec | genhtml/genhtml.py:91 | the run of tail characters after the fence is maximal |
| Locator.TailEnd | genhtml/genhtml.py:91 | the tail ends between the fence and the end of the text; which end, is Locator.TailEndSpec |
| Locator.TailEndSpec | genhtml/genhtml.py:91 | the tail ends at the furthest point reachable through tail characters that is the end of the text or a newline, and fails when there is none |
| Locator.CodeEndFirst | genhtml/genhtml.py:90-91 | the lazy code group stops at the first line-start closing fence whose tail succeeds |
| Locator.CodeEndNone | genhtml/genhtml.py:90-91 | the code group fails exactly when no closing fence that can complete the match follows |
| Locator.CodeEnd | genhtml/genhtml.py:90-91 | the code ends at or after its start, and the fence and tail fit in the text; which fence, is Locator.CodeEndFirst |
| Locator.MatchSpans | genhtml/genhtml.py:88-92 | the spans of a match are ordered: opener, args, code start, code end, fence, end within the text |
| Locator.MatchAt | genhtml/genhtml.py:88-92 | a match at a position starts there and ends after it, within the text |
| Locator.FindFromSpec | genhtml/genhtml.py:108 | the scan returns the match at the first position that has one, and nothing when no position has one |
| Locator.FindBlock | genhtml/genhtml.py:108 | `search` finds the leftmost match, or none exactly when no position matches |
| Blocks.SoundArgs | genhtml/genhtml.py:89 | a match's args are all argument characters and are followed by a non-argument character |
| Blocks.SoundSpace | genhtml/genhtml.py:89 | between args and code there is only whitespace, ending in a newline |
| Blocks.SoundSpaceLast | genhtml/genhtml.py:89 | no newline lies between the code start and the end of the whitespace run |
| Blocks.SoundCode | genhtml/genhtml.py:90-91 | the code ends in a newline before a closing fence, and no earlier position in it is a closing fence |
| Blocks.SoundTail | genhtml/genhtml.py:91 | the fence is present, the match ends at a valid tail end, and no later point is one |
| Blocks.MatchSound | genhtml/genhtml.py:88-92 | a block the matcher returns starts at a line start, its args are argument characters, its code is empty or ends in a newline, and the text holds opener, args, whitespace ending in a newline, the code with no closing fence inside, a line-start fence and its tail up to the block's end |
| Blocks.FindBlockSound | genhtml/genhtml.py:108-110 | the block `search` hands to `_replace_block` has that shape, and no earlier position starts a block |
| Blocks.ArgsEndAt | genhtml/genhtml.py:89 | a run of argument characters followed by another character is exactly the args group |
| Blocks.CodeEndAt | genhtml/genhtml.py:90-91 | the first closing fence with a valid tail is where the code ends |
| Blocks.CodeStartAfter | genhtml/genhtml.py:89 | with a newline right after the args and non-space text after it, the code starts after that newline |
| Blocks.TailAt | genhtml/genhtml.py:91 | a fence at the end of the text, or followed by a newline and a non-space, ends the match right there |
| Blocks.MatchBuilt | genhtml/genhtml.py:88-92 | opener, args, newline, code meeting `Blocks.PlainCode` (leading whitespace without a newline, empty or ending with a newline, no line starting with the fence's first character), fence and a plain tail form a match that captures exactly those args and that code |
| Blocks.FindBuilt | genhtml/genhtml.py:88-92 | `search` on such a text finds that block at position 0 |
| Blocks.LegacyCommaRejected | genhtml.py:66-67 | a legacy opener whose args run is followed by a comma never matches, so `header=a,b` stops a legacy block |
| Snippets.CommentRun | genhtml/genhtml.py:69-76 | the lines skipped are exactly the leading run of lines starting with `#` |
| Snippets.CommentRunUnique | genhtml/genhtml.py:69-76 | any prefix of comment lines followed by a non-comment or the end is that run |
| Snippets.SnippetText | genhtml/genhtml.py:80-81 | the text of a snippet file; that it is the lines after the leading comments, joined, is stated by Snippets.FilterFirstComments and Snippets.LoadDir |
| Snippets.FilterFirstComments | genhtml/genhtml.py:69-76 | the loop yields the lines after the leading comment run: a suffix of the input, the input itself when its first line is no comment, nothing exactly when every line is a comment, and otherwise a first line that is no comment |
| Snippets.LoadDir | genhtml/genhtml.py:78-82 | the catalog of a directory has one entry per file, holding the file's lines after the leading comments, joined |
| Snippets.Overlay | genhtml/genhtml.py:166-173 | without a custom directory the catalog is the built-in one; with one, a name has its custom text if it has one and its built-in text otherwise |
| Snippets.WithAliases | genhtml/genhtml.py:174-177 | the aliases add `''` as a copy of `default` and set `none` to the empty text, even over a `none` file, leaving every other entry alone |
| Snippets.BuildCatalog | genhtml/genhtml.py:162-177 | the catalogs exist exactly when both have `default`, and then are the overlays with the aliases |
| Snippets.HeadFoot.Load | genhtml/genhtml.py:166-173 | after loading, the header and footer maps are the overlays of custom over built-in entries |
| Snippets.HeadFoot.BuildConfigs | genhtml/genhtml.py:162-177 | succeeds exactly when both catalogs have `default`, and then holds the aliased catalogs; on the `KeyError` paths the maps are left as the source leaves them |
| Snippets.Lookup | genhtml/genhtml.py:156 | `self.header.get(header, '')`; stated as part of Snippets.Lookups |
| Snippets.Lookups | genhtml/genhtml.py:156-158 | each name is looked up in order, and a missing name gives `''` |
| Snippets.JoinAppend | genhtml/genhtml.py:155-159 | joining two non-empty lists back to back is joining each and putting the separator between |
| Snippets.GeneratePythonCode | genhtml/genhtml.py:154-159 | the unit is the header lookups, the dedented code and the footer lookups, in that order, joined with newlines |
| Snippets.AssembleWithoutSnippets | genhtml/genhtml.py:154-159 | with an empty or missing header and footer, the unit is the dedented code between two newlines |
| Snippets.DefaultNameIsDefaultSnippet | genhtml/genhtml.py:134 | the default header name `''` splits to `['']` and resolves to the `default` snippet, for headers and footers |
| Output.DataFormat | genhtml/genhtml.py:59-64 | `DATA_FORMATS` has exactly the keys png, jpg, svg and html, each naming its own encoder |
| Output.RawToB64Image | genhtml/genhtml.py:52-57 | `raw_to_b64image`; what its tag carries is stated by Output.ImgRoundTrip |
| Output.ParseAttrsRoundTrip | genhtml/genhtml.py:55-57 | each of the alt and title attributes is present exactly when its value is non-empty, and reads back to that value |
| Output.ImgRoundTrip | genhtml/genhtml.py:52-57 | reading the tag back gives the format and the stripped payload; the alt and title attributes are present exactly when their values are non-empty, and give those values |
| Output.Encode | genhtml/genhtml.py:59-64 | `html` returns the captured text unchanged whatever alt and title are; png, jpg and svg give a tag that reads back with media type png, jpg or svg+xml, the stripped payload, and alt and title present exactly when non-empty |
| Output.GenerateHtml | genhtml/genhtml.py:142-152 | a fault gives the traceback indented by four spaces and no encoder runs; otherwise `html` gives the captured text, and an image format gives a tag that reads back to its media type, the stripped captured text, and alt and title present exactly when non-empty |
| PyStr.LeadLen | genhtml/genhtml.py:117 | the leading run of characters that satisfy the predicate is maximal |
| PyStr.TrailLen | genhtml/genhtml.py:117 | the trailing run is maximal |
| PyStr.StripBy | genhtml/genhtml.py:117 | the result is a slice of the input, with only stripped characters before and after it |
| PyStr.StripByEnds | genhtml/genhtml.py:117 | the result neither starts nor ends with a stripped character, is empty exactly when every character is stripped, and is the input when both ends are kept |
| PyStr.StripByIdempotent | genhtml/genhtml.py:117 | stripping twice is stripping once |
| PyStr.Strip | genhtml/genhtml.py:117 | `str.strip()` neither starts nor ends with whitespace, and is empty exactly when the input is all whitespace |
| PyStr.Lower | genhtml/genhtml.py:121 | `lower()` keeps the length and lowers each letter in place |
| PyStr.Split | genhtml/genhtml.py:134 | `split` gives at least one piece, no piece holds the separator, and joining the pieces gives the input back |
| PyStr.Join | genhtml/genhtml.py:98 | `'\n'.join(lines)`; PyStr.SplitJoin states that `split('\n')` undoes it |
| PyStr.SplitJoin | genhtml/genhtml.py:98-104 | splitting joined lines on the separator gives the lines back when none holds it |
| PyStr.SplitLinesKeepEnds | genhtml/genhtml.py:139 | `splitlines(True)` gives only non-empty lines |
| PyStr.FirstLineBreaks | genhtml/genhtml.py:139 | the first line ends at the first line boundary, taking `\r\n` as one boundary |
| PyStr.SplitLinesOneLine | genhtml/genhtml.py:139 | no line `splitlines(True)` gives holds a line boundary before its end |
| PyStr.SplitLinesKeepsCrLf | genhtml/genhtml.py:139 | `splitlines(True)` never separates the `\r` and the `\n` of `\r\n` |
| PyStr.SplitLinesEnds | genhtml/genhtml.py:139 | every line `splitlines(True)` gives, except the last, ends with its line boundary |
| PyStr.SplitLinesConcat | genhtml/genhtml.py:139 | `splitlines(True)` loses nothing: its lines concatenate to the input |
| PyStr.NonBlankIsStrip | genhtml/genhtml.py:139 | a line is prefixed exactly when it holds a non-whitespace character, which is exactly when `line.strip()` is non-empty |
| PyStr.IndentLength | genhtml/genhtml.py:139 | indenting adds one prefix per non-blank line and nothing else |
| PyStr.IndentBlankOnly | genhtml/genhtml.py:139 | text with only blank lines is unchanged by `indent` |
| PyStr.IndentUnchangedIff | genhtml/genhtml.py:139 | with a non-empty prefix, `indent` leaves text unchanged exactly when it has no non-blank line |
| PyStr.Indent | genhtml/genhtml.py:139 | `textwrap.indent`; its line-by-line meaning is PyStr.IndentLineWise |
| PyStr.IndentLineWise | genhtml/genhtml.py:139 | `indent` is the lines of `splitlines(True)`, in order, each with the prefix in front when it holds a non-whitespace character and unchanged otherwise, concatenated |
| PyStr.IndentOf | genhtml/genhtml.py:157 | a line's indentation is its longest leading run of spaces and tabs |
| PyStr.CommonPrefix | genhtml/genhtml.py:157 | the common prefix of two indentations is a prefix of both that cannot be extended |
| PyStr.MarginFromSpec | genhtml/genhtml.py:157 | the margin loop yields the longest common prefix of the indentations |
| PyStr.MarginIsPrefix | genhtml/genhtml.py:157 | the margin is whitespace and a prefix of every non-blank line's indentation |
| PyStr.DedentLineWise | genhtml/genhtml.py:157 | `dedent` keeps the line count, blanks whitespace-only lines and removes exactly the margin from every other line |
| PyStr.DedentedMarginEmpty | genhtml/genhtml.py:157 | after dedenting, the non-blank lines have no common margin left |
| PyStr.DedentIdempotent | genhtml/genhtml.py:157 | dedenting twice is dedenting once |
| PyStr.Dedent | genhtml/genhtml.py:157 | `textwrap.dedent`; its line-by-line meaning is PyStr.DedentLineWise |
| Engine.LegacyHtml | genhtml.py:111-120 | the legacy output is the captured text itself, with no encoding, or the traceback indented by four spaces |
| Engine.Replacement | genhtml/genhtml.py:134-139 | the text that replaces a block; its cases are Engine.ShownWhenNotInterpreted, Engine.FaultShowsTraceback, Engine.CurrentShowsStdout and Engine.LegacyShowsStdout |
| Engine.Replace | genhtml/genhtml.py:106-139 | a block is replaced exactly when `search` finds one, and with no match the text comes back unchanged |
| Engine.ReplaceBlock | genhtml/genhtml.py:106-139 | the method (option loop, assembly, splice) returns the text and flag of `Replace` |
| Engine.SpliceKeepsOutside | genhtml/genhtml.py:137-139 | the result is the text before the block, the replacement and the text after it: nothing outside the block changes |
| Engine.Step | genhtml/genhtml.py:102 | one call of `_replace_block`, as a step function; Engine.Replace states it |
| Engine.Iterate | genhtml/genhtml.py:101-102 | the `while did_replace` loop with fuel; Engine.IterateStops and Engine.IterateMonotone state it |
| Engine.RunText | genhtml/genhtml.py:98-102 | the loop on the joined text; Engine.RunTextFixedPoint and Engine.RunLeavesNoBlock state it |
| Engine.RunLines | genhtml/genhtml.py:97-104 | `run` as a value: join, loop, split; Engine.Run computes it and Engine.RunWithoutBlocks states it |
| Engine.ShownWhenNotInterpreted | genhtml/genhtml.py:134-139 | with a falsy `interpret`, the replacement is the assembled code, built from the last header and footer names, indented by four spaces |
| Engine.FaultShowsTraceback | genhtml/genhtml.py:145-151 | when the assembled code faults, the replacement is its traceback indented by four spaces, in either version |
| Engine.CurrentShowsStdout | genhtml/genhtml.py:134-152 | with no format given and interpretation on, a successful run is replaced by its captured text |
| Engine.LegacyShowsStdout | genhtml.py:103-120 | in the legacy version, a successful interpreted run is replaced by its captured text |
| Engine.IterateStops | genhtml/genhtml.py:101-102 | when the loop ends, one more step would replace nothing |
| Engine.IterateMonotone | genhtml/genhtml.py:101-102 | more fuel does not change a result already reached |
| Engine.PendingStep | genhtml/genhtml.py:101-102 | one pass of the loop body leaves unchanged what the loop will return |
| Engine.Pass | genhtml/genhtml.py:101-102 | one call of `_replace_block` uses one unit of fuel and keeps the loop's eventual result |
| Engine.Run | genhtml/genhtml.py:97-104 | the loop over `_replace_block` returns the lines of the iterated replacement, or none when the fuel runs out |
| Engine.RunLeavesNoBlock | genhtml/genhtml.py:101-104 | a finished run leaves no block in the text |
| Engine.RunFuelMonotone | genhtml/genhtml.py:101-102 | a run that finishes with some fuel gives the same text with more |
| Engine.RunTextFixedPoint | genhtml/genhtml.py:101-110 | the loop returns the text unchanged exactly when it has no block |
| Engine.RunWithoutBlocks | genhtml/genhtml.py:97-110 | lines holding no block come back unchanged |

Both versions share the matcher, the scanner, the catalog and the assembler; the `Dialect` parameter selects the
legacy grammar, fence and tail (genhtml.py:66-70, 91), the legacy option loop and the legacy `generate_html`. The
catalog rows cite the current file. The legacy `filter_first_comments`, `generate_python_code` and `build_configs`
(genhtml.py:47-54, 122-127, 130-143) are the same code, except that the legacy built-in directories are the
relative paths `headers` and `footers`.

## Left out

- Execution: `exec`, stdout redirection and `traceback.format_exc` are the `exec` oracle. The current version runs
  the code in one fresh dictionary and the legacy one in separate fresh globals and locals. The caller supplies the
  oracle of the version it models.
- Execution state: the oracle is a pure function of the code text. In the source, every block runs in the same
  process, so imported modules, `sys`, files, the clock and randomness carry over from one block and run to the next.
  Two identical blocks can print different things there but always get the same replacement in the model.
- Execution exits: both versions catch only `Exception` (genhtml/genhtml.py:148, genhtml.py:116). A `SystemExit`
  from `exit()` in a block, or a `KeyboardInterrupt`, escapes `generate_html` and aborts the whole conversion. The
  model has no such path: every run of the oracle ends in `Ok` or `Fault`.
- Engine.Run: `run` may loop forever when replacements keep producing blocks. The model bounds it with fuel and
  returns `None` when the fuel is spent, so a run that does not end is not distinguished from one that needs more fuel.
- `\w` and `lower()` are modelled on ASCII: `\w` is ASCII letters, digits and `_`, and `lower()` lowers `A`-`Z`. The
  non-ASCII letters that Python's Unicode `\w` and `lower()` also handle are not modelled. `str.isspace`, used by
  `strip`, `\s` and `indent`, is modelled on its full character list.
- Files and packaging: `glob`, `open` and `pkg_resources` give the directories. Each directory is a given map from
  snippet name to the file's lines, with line ends kept.
- `logging` calls (unknown options, unknown formats, faults, custom directories) have no effect on the result and are
  not modelled.
- Host integration: `GenHTMLMarkdownExtension`, its configuration and its registration hooks are not modelled, beyond
  `headers_dir` and `footers_dir`, which become optional directories.
- plot.py, the snippet files under headers/ and footers/, setup.py and test/test_examples.py are not part of this model.
- textwrap.dedent is modelled on the regex-based implementation of Python 3.12: lines of only spaces and tabs become
  empty, and the margin is built from spaces and tabs. Later reimplementations are not modelled.
- Output.Encode: the image-tag round trip is stated only when the data, alt and title hold no `"`. With a quote
  inside, the tag the source writes is ambiguous to read back.
- Output.GenerateHtml: as with Output.Encode, the image tag's read-back (Output.ImgRoundTrip) is stated only when the
  captured text, alt and title hold no `"`.
- Snippets.HeadFoot.BuildConfigs: the `KeyError` raised when `default` is missing is the `false` result. The maps
  keep the state the source leaves them in at that point.
- Engine.CurrentShowsStdout: stated for blocks without a `format` option. With an image format, Output.GenerateHtml
  gives the encoded tag.
