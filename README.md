# squirrelfocus: trailer emission and configuration loading

squirrelfocus keeps a developer journal as Markdown files. Each file may open
with a metadata block between `---` markers, holding a `trailers:` mapping
such as `fix`, `why`, `change` and `proof`. This project models two parts of
it:

- `scripts/sqf_emit.py` picks the newest journal entry and reads its
  metadata, with PyYAML when it is installed and with a hand-written
  line scanner otherwise. It then prints commit trailers (`fix: …` lines)
  or a CI summary, filling a `{{key}}` template with the trailer values.
  It loads its configuration over built-in defaults.
- `cli/config.py` loads the command-line tool's configuration. It checks
  every required key for presence and type and merges the loaded values
  over the defaults.

Modules:

- `Text` (text.dfy) holds the Python `str` operations the core uses:
  `startswith`, `find`, `split`, `strip`, `splitlines`, `join` and
  `replace`, with their properties.
- `Yaml` (yaml.dfy) holds the values YAML loading hands back, and the
  copy-then-update merge both loaders perform.
- `FrontMatter` (front_matter.dfy) holds `split_frontmatter`:
  - the `---` cut;
  - the fallback scanner, as a method with the source's loop, specified
    by a declarative description of the trailers scope;
  - the round trip from a written trailers block to the scanned dictionary.
- `SqfEmit` (sqf_emit.dfy) holds:
  - `DEF_CFG` and `load_cfg`;
  - `newest_md`;
  - the trailers loop and the summary loop, as methods;
  - `main`, as the method `Run` and the function `Emitted`.
- `CliConfig` (cli_config.dfy) holds `DEFAULTS`, `REQUIRED_KEYS` and
  `load`, with the source's validation loop.

Some things are inputs rather than computations:

- The file system, the clock, `sys.argv` and PyYAML's parser.
- A journal listing is a sequence of (path, modification time) pairs.
- Reading a file is a function from path to text.
- A loaded document is `Parsed`: a `Failure` carrying the exception's
  text, or a `Mapping`.

The model follows the code as written. Some of its behaviour is easy to
misread:

- With no configuration file, `cli/config.py` `load` reports every required
  key as missing: five problems, in order. See
  `CliConfig.AbsentFileProblems`.
- One absent required key is not the only problem reported. Every other
  absent required key also gets a `missing` problem.
- `load` checks list-typed keys with `isinstance(v, list)` only. It does
  not check the elements.
- The fallback scanner captures pairs only under a `trailers:` line. It
  never captures top-level `key: value` lines. A later `trailers:` line
  reopens the scope.
- The scanner's value is stripped of every leading and trailing `"`, then
  of every leading and trailing `'`, not of one matched pair.
- `"---"` is found as a substring. The metadata therefore ends at the
  first `---` after the opening three characters, even inside a line.
- A `trailers` value that is true but not a dictionary does not fail
  where it is read (sqf_emit.py:100). It fails at the first `.get` in the
  trailers or summary loop (lines 104 and 112). With no keys, or in any
  other mode, the run prints normally.
- The summary loop can leave placeholders behind or create them. A value
  that spells its own key's placeholder keeps it
  (`SqfEmit.SelfValuesKeepTemplate`). A value that spells a later key's
  placeholder is replaced again (`SqfEmit.ValueFormsPlaceholder`).
  `SqfEmit.SummaryFills` shows that every placeholder is filled when the
  template's text and the values hold no `{`. This is a sufficient
  condition, not a necessary one.

## Model

| member | source | states |
|---|---|---|
| Yaml.Overlay | scripts/sqf_emit.py:79-80 | the merge keeps every default key, adds every loaded key whose value is not `None`, lets loaded non-`None` values win and keeps the default where the loaded value is `None` or absent |
| Text.Find | scripts/sqf_emit.py:43 | the search for the second `---` finds the leftmost occurrence at or after the start position, or reports that there is none |
| Text.SplitOnce | scripts/sqf_emit.py:65 | `s.split(":", 1)`: the text is the part before, the separator and the part after, and the part before holds no separator |
| Text.LStripSuffix | scripts/sqf_emit.py:63 | left stripping keeps a suffix, removes only characters of the set, and stops at a character outside it |
| Text.RStripPrefix | scripts/sqf_emit.py:63 | right stripping keeps a prefix, removes only characters of the set, and stops at a character outside it |
| Text.StripIsSlice | scripts/sqf_emit.py:63 | `strip` returns a slice of its input whose ends are not in the stripped set, and everything cut off is in the set |
| Text.StripKeeps | scripts/sqf_emit.py:66 | a text whose ends are outside the set is returned unchanged by `strip` |
| Text.StripPadded | scripts/sqf_emit.py:63 | leading padding made of stripped characters is removed from a non-empty text whose ends are outside the set, and the text is kept |
| Text.Strip | scripts/sqf_emit.py:63 | `strip` never lengthens its input and leaves no character of the set at either end |
| Text.Trim | scripts/sqf_emit.py:63 | `strip()` never lengthens its input and leaves no whitespace at either end |
| Text.StripChar | scripts/sqf_emit.py:66 | `strip('"')` never lengthens its input and leaves no quote at either end |
| Text.LineEnd | scripts/sqf_emit.py:55 | the first line break is found, with no line break before it |
| Text.SplitLines | scripts/sqf_emit.py:55 | no line that `splitlines` returns holds a line break |
| Text.LineEndAt | scripts/sqf_emit.py:55 | the line end is the first '\n' when none precedes it |
| Text.SplitLinesJoin | scripts/sqf_emit.py:55 | splitting lines that were joined with '\n' gives the lines back, when no line holds '\n' and the last line is not empty |
| Text.SplitLinesUnlines | scripts/sqf_emit.py:55 | splitting '\n'-terminated lines without line breaks gives the lines back |
| Text.NotInUnlines | scripts/sqf_emit.py:55 | a character in no line, other than '\n', is not in the terminated text |
| Text.Join | scripts/sqf_emit.py:107 | joining no parts gives `""`, one part gives that part, and the result starts with the first part |
| Text.SplitOnceAt | scripts/sqf_emit.py:65 | `split(":", 1)` cuts at the first colon: any decomposition with no colon before it is the one returned |
| Text.OccursShift | scripts/sqf_emit.py:112 | occurrences shift by one position when the first character is dropped |
| Text.ReplaceSkips | scripts/sqf_emit.py:112 | `replace` copies a prefix in which no occurrence starts unchanged |
| Text.ReplaceFirst | scripts/sqf_emit.py:112 | `replace` rewrites the leftmost occurrence and continues after it |
| Text.ReplaceAbsent | scripts/sqf_emit.py:112 | `replace` leaves a text without the pattern unchanged |
| Text.ReplaceIdentity | scripts/sqf_emit.py:112 | replacing a pattern by itself changes nothing (used by `SqfEmit.SelfValuesKeepTemplate`) |
| FrontMatter.CutFrontMatter | scripts/sqf_emit.py:40-47 | no block exactly when the text does not start with `---` or has no later `---`; otherwise text = `---` + meta + `---` + body, with no `---` starting inside the metadata |
| FrontMatter.BodyOf | scripts/sqf_emit.py:41-47 | the body is the whole text without a block, and what follows the second `---` with one |
| FrontMatter.Classify | scripts/sqf_emit.py:58-66 | a line is the header exactly when it strips to `trailers:`; otherwise it is plain when not indented, nested when indented without a colon, and a pair line when indented with a colon |
| FrontMatter.Kinds | scripts/sqf_emit.py:57 | one classification per metadata line |
| FrontMatter.ScopeStep | scripts/sqf_emit.py:58-68 | after a line the scanner is in scope exactly when the line is `trailers:`, or it was in scope and the line is indented |
| FrontMatter.ScopeClosed | scripts/sqf_emit.py:67-68 | once a non-indented line closes the scope, only a later `trailers:` line reopens it |
| FrontMatter.ScanStep | scripts/sqf_emit.py:57-68 | one step of the loop: the scope flag's update, and a pair stored exactly when an indented line with a colon is read in scope |
| FrontMatter.ScannedKeys | scripts/sqf_emit.py:64-66 | a key is in the scanned dictionary exactly when some captured line has it, and its value is that of the last such line |
| FrontMatter.StrDict | scripts/sqf_emit.py:70 | the trailers dictionary as a YAML value has the same keys, each with its string |
| FrontMatter.FallbackMap | scripts/sqf_emit.py:69-71 | the fallback's only possible key is `trailers`, present exactly when something was captured |
| FrontMatter.ParseFallback | scripts/sqf_emit.py:53-71 | the fallback loop returns exactly the declarative scan of the metadata lines |
| FrontMatter.SplitFrontmatter | scripts/sqf_emit.py:40-71 | returns the metadata the chosen strategy reads (a loader failure gives `{}`) and the body of the cut |
| FrontMatter.FrontMatterOf | scripts/sqf_emit.py:40-52 | without a front matter block the metadata is `{}`; the fallback strategy yields no key but `trailers` |
| FrontMatter.FallbackOf | scripts/sqf_emit.py:53-71 | the fallback yields at most the key `trailers`, and then a non-empty dictionary of strings |
| FrontMatter.ScannedEmpty | scripts/sqf_emit.py:69-70 | the fallback yields `trailers` exactly when some line is captured |
| FrontMatter.PairLines | scripts/sqf_emit.py:62-66 | one indented `key: value` line per pair, in order |
| FrontMatter.ClassifyPair | scripts/sqf_emit.py:62-66 | an indented `key: value` line of a writable pair is read as exactly that pair; a pair is writable when the key has no colon or line break and is not padded with whitespace, and the value is non-empty, single-line, not padded and neither starts nor ends with a quote |
| FrontMatter.PairLineShape | scripts/sqf_emit.py:62-64 | the line of a writable pair is indented, is not the header, holds a colon and strips to `key: value` |
| FrontMatter.PairLineParts | scripts/sqf_emit.py:65-66 | splitting the line of a writable pair at its first colon and stripping gives back the key and the value |
| FrontMatter.KindOfPairLine | scripts/sqf_emit.py:57-66 | in a trailers block, the line of a writable pair is classified as that pair |
| FrontMatter.ClassifyFixed | scripts/sqf_emit.py:58-68 | an empty line closes the scope and the `trailers:` line opens it |
| FrontMatter.BlockLinesAvoid | scripts/sqf_emit.py:55 | a character absent from every key and value, and not added by the block, is in no line of the block |
| FrontMatter.KindsOfBlock | scripts/sqf_emit.py:57-66 | a trailers block of writable pairs classifies as a plain line, the header, then one pair line per pair |
| FrontMatter.ScannedBlock | scripts/sqf_emit.py:57-66 | after the header and `n` pair lines the scanner is in scope and holds the first `n` pairs, a later pair for a key winning |
| FrontMatter.BlockSplits | scripts/sqf_emit.py:55 | a trailers block whose keys and values hold no line break splits back into its lines |
| FrontMatter.BlockScanned | scripts/sqf_emit.py:57-68 | scanning a trailers block of writable pairs captures the dictionary of its pairs |
| FrontMatter.FallbackOfLines | scripts/sqf_emit.py:55-71 | the fallback result depends on the metadata only through its lines |
| FrontMatter.FallbackReadsBlock | scripts/sqf_emit.py:53-71 | the fallback reads a trailers block of writable pairs back as `{"trailers": pairs}`, or `{}` for no pairs |
| FrontMatter.CutAt | scripts/sqf_emit.py:41-47 | `---` + metadata + `---` + body is cut after the metadata when the metadata holds no `-` |
| FrontMatter.FallbackJournal | scripts/sqf_emit.py:40-71 | a journal `---` + metadata + `---` + body whose metadata holds no `-` reads as the fallback scan of that metadata, with its body |
| FrontMatter.BlockAvoidsDash | scripts/sqf_emit.py:43 | a block of `-`-free pairs holds no `-`, so the cut cannot end inside it |
| FrontMatter.JournalReadBack | scripts/sqf_emit.py:40-71 | a journal holding a trailers block of writable pairs whose keys and values hold no `-` reads back as the dictionary of its pairs, with its body intact |
| SqfEmit.StrList | scripts/sqf_emit.py:23 | the list value holds each string, in order |
| SqfEmit.LoadCfg | scripts/sqf_emit.py:74-84 | the defaults when PyYAML or the file is missing or loading raised; otherwise the loaded non-`None` values over the defaults, with every default key present |
| SqfEmit.Strings | scripts/sqf_emit.py:91 | a value is a list of strings exactly when every item is a string, and then the strings are its items |
| SqfEmit.StringItems | scripts/sqf_emit.py:91 | the items are all strings exactly when a result is given, and the result spells them |
| SqfEmit.DefaultKeys | scripts/sqf_emit.py:23 | the default trailer keys are `fix`, `why`, `change`, `proof`, `ref` |
| SqfEmit.NewestIndex | scripts/sqf_emit.py:37 | `max` by modification time: no entry is newer, and no earlier entry is as new |
| SqfEmit.NewestMd | scripts/sqf_emit.py:34-37 | `None` exactly when there is no entry; otherwise the path of the first newest entry |
| SqfEmit.Lookup | scripts/sqf_emit.py:104 | an absent key reads as `""` and a string value as itself |
| SqfEmit.ShowValues | scripts/sqf_emit.py:104 | `str()` of a trailer value: a string is itself, booleans are `True`/`False`, `None` is `None` |
| SqfEmit.TrailerTable | scripts/sqf_emit.py:100 | a missing or false `trailers` gives `{}` and a dictionary gives its entries; no table exactly for a true non-dictionary, which has no `.get` for the key loops to call |
| SqfEmit.TrailerLines | scripts/sqf_emit.py:101-107 | at most one line per key |
| SqfEmit.TrailerLineShape | scripts/sqf_emit.py:104-106 | a trailer line is the key, `: `, then the value with no whitespace at either end |
| SqfEmit.RenderTrailers | scripts/sqf_emit.py:102-106 | the trailers loop collects exactly the specified lines |
| SqfEmit.TrailerLinesAppend | scripts/sqf_emit.py:103-106 | the lines of two key runs are those of the first, then those of the second |
| SqfEmit.TrailerLinesExactly | scripts/sqf_emit.py:103-106 | a line is printed exactly when it is `key: value` for some key whose stripped value is not blank |
| SqfEmit.NoTrailersNoLines | scripts/sqf_emit.py:103-106 | with no trailers no line is collected |
| SqfEmit.Placeholder | scripts/sqf_emit.py:112 | a placeholder is four characters longer than its key and starts with two opening braces |
| SqfEmit.PlaceholderShape | scripts/sqf_emit.py:112 | a placeholder is the key wrapped in two braces on each side |
| SqfEmit.Summary | scripts/sqf_emit.py:110-112 | with no keys the summary is the template itself |
| SqfEmit.RenderSummary | scripts/sqf_emit.py:109-113 | the summary loop produces exactly the sequence of replacements, one key after another |
| SqfEmit.Filled | scripts/sqf_emit.py:111-112 | filling keeps the number of template pieces |
| SqfEmit.PlaceholderApart | scripts/sqf_emit.py:112 | for two different keys without braces, the placeholder of one does not start anywhere inside the placeholder of the other |
| SqfEmit.Mismatch | scripts/sqf_emit.py:112 | the placeholders of two different keys without braces differ at some aligned position |
| SqfEmit.ReplaceHoles | scripts/sqf_emit.py:112 | for a key without braces, one replacement fills exactly that key's holes in a template whose literal text holds no `{` and whose keys hold no braces, and keeps every other piece |
| SqfEmit.FilledBraceless | scripts/sqf_emit.py:111-112 | filling with values without `{` keeps the literal text free of `{` and the keys free of braces |
| SqfEmit.FilledStep | scripts/sqf_emit.py:111-112 | filling key by key equals filling with all the keys |
| SqfEmit.FilledNone | scripts/sqf_emit.py:110 | with no keys the template is unchanged |
| SqfEmit.SummaryFills | scripts/sqf_emit.py:109-113 | for a template whose literal text holds no `{`, keys without braces and values without `{`, the summary replaces every placeholder of a listed key by its value and leaves the rest of the template as written |
| SqfEmit.ValueFormsPlaceholder | scripts/sqf_emit.py:111-112 | for example, template `{{a}}` with `a` = `{{b}}` and `b` = `B` gives `B`: a value that spells a later key's placeholder is itself replaced |
| SqfEmit.SelfValuesKeepTemplate | scripts/sqf_emit.py:111-112 | when every key's value is its own placeholder the template comes back unchanged, so the summary can equal the template even when it holds placeholders |
| SqfEmit.BracelessTemplateKept | scripts/sqf_emit.py:110-112 | a template without `{` comes back unchanged, whatever the keys and values |
| SqfEmit.Mode | scripts/sqf_emit.py:88 | the mode is the first argument, and `trailers` without one |
| SqfEmit.Emitted | scripts/sqf_emit.py:87-115 | whatever `main` prints is empty or ends with a line break |
| SqfEmit.Run | scripts/sqf_emit.py:87-115 | `main` computes exactly the outcome `Emitted` specifies: it raises on a non-string `journals_dir` or at the first lookup in a true non-dictionary `trailers`, and otherwise prints |
| SqfEmit.RaisesExactly | scripts/sqf_emit.py:93-112 | `main` raises exactly when `journals_dir` is not a string, or an entry is reached in `trailers` or `summary` mode with at least one key and `trailers` is a true non-dictionary |
| SqfEmit.UnknownModePrintsNothing | scripts/sqf_emit.py:101-115 | with a string `journals_dir`, a mode other than `trailers` and `summary` prints nothing, whatever the entry holds |
| SqfEmit.TrailersModePrints | scripts/sqf_emit.py:101-107 | when an entry is reached and `trailers` is a dictionary or false, trailers mode prints the trailer lines of the configured keys, in `trailer_keys` order, joined by line breaks and followed by one; a line is among them exactly when it is the `key: value` line of a configured key whose value is not blank |
| SqfEmit.SummaryModePrints | scripts/sqf_emit.py:109-113 | when an entry is reached and `trailers` is a dictionary or false, summary mode prints the template with every placeholder of a configured key filled by its value, for a template whose text holds no `{`, keys without braces and values without `{` |
| SqfEmit.NoEntryPrintsNothing | scripts/sqf_emit.py:93-96 | with a string `journals_dir` and no journal entry nothing is printed, whatever the mode and configuration |
| SqfEmit.FailedLoadPrintsBlank | scripts/sqf_emit.py:48-52 | when an entry is reached in trailers mode and the YAML loader raises, the entry reads as `{}` and only a line break is printed |
| CliConfig.KeyProblem | cli/config.py:52-58 | at most one problem per key: `missing` when absent, `should be <type>` when mistyped, none exactly when satisfied |
| CliConfig.CheckKeys | cli/config.py:52-58 | at most one problem per required key |
| CliConfig.Load | cli/config.py:38-61 | a failed read gives only `invalid YAML: <reason>` and the defaults; otherwise every required key is checked in order and the loaded non-`None` values are merged over the defaults; no problem exactly when a mapping with every key valid was loaded |
| CliConfig.CheckKeysEmpty | cli/config.py:51-58 | no problem exactly when every required key is satisfied |
| CliConfig.CheckKeysAppend | cli/config.py:52-58 | problems come in the order of the keys |
| CliConfig.CheckKeysExactly | cli/config.py:52-58 | every problem is the problem of some required key, and every unsatisfied key reports its problem |
| CliConfig.AbsentFileProblems | cli/config.py:49-54 | without a configuration file the five required keys are reported missing, in order |
| CliConfig.DefaultsValid | cli/config.py:15-35 | the defaults hold exactly the required keys, each with a value of its type |
| CliConfig.NullReportedDefaultKept | cli/config.py:55-60 | a required key loaded as `null` is reported as mistyped, yet the merged configuration keeps its default |

## Left out

- PyYAML's parser is not modelled. What `safe_load` returns is an input.
  A top-level configuration document that is not a mapping is not modelled
  as such: `load_cfg` swallows the error it raises (scripts/sqf_emit.py:76-83),
  so it is passed to `LoadCfg` as a failed load, which gives the defaults.
  For `cli/config.py`, where it would raise, it is not modelled. A front
  matter block that loads as a true non-mapping (a list or a scalar) would
  raise on `.get` at scripts/sqf_emit.py:100 and is not modelled either; the
  loader returns a `Mapping` or a `Failure`.
- Globbing, `os.path.getmtime`, opening and reading files, `sys.argv` and
  `print` are inputs or outcomes. Modification times are integers, not
  floats.
- Whether PyYAML is importable is a parameter. `SplitFrontmatter` takes
  the reading strategy as an argument, and `LoadCfg` and `Load` take the
  loaded document as an argument. The model does not tie the two
  together, as the single `HAVE_YAML` flag does.
- Only ASCII whitespace is stripped. Only '\n' ends a line; Python's
  `splitlines` also splits on '\r' and other separators.
- SqfEmit.Show: `str()` of a list or dictionary trailer value is shown as
  `""`, not as its Python rendering.
- SqfEmit.TrailerTable: scalars other than strings, booleans and `None`
  count as true values. A zero-valued `trailers` therefore raises in the
  model, where Python would read it as `{}`.
- SqfEmit.Run: requires, only when a journal entry is reached, that
  `trailer_keys` is a list of strings in `trailers` or `summary` mode and
  `summary_format` is a string in `summary` mode; other modes and runs
  without an entry need neither. Runs with a string `trailer_keys`
  (iterated by character), a mapping (iterated by key), list items that
  are not strings (printed through `str`, or a `TypeError` in summary
  mode) or a value that cannot be iterated are not modelled. A non-string
  `journals_dir` is modelled: it raises (scripts/sqf_emit.py:35).
- SqfEmit.SummaryFills: the "every placeholder is replaced" property is
  proved under a sufficient condition: the template's literal text and the
  values hold no `{`. It is not necessary (`SqfEmit.SelfValuesKeepTemplate`
  and `SqfEmit.BracelessTemplateKept`), and without it a value can itself be
  rewritten (`SqfEmit.ValueFormsPlaceholder`).
- FrontMatter.JournalReadBack: keys and values without `-` is a sufficient
  condition for the cut to end at the closing marker, not a necessary one.
- No concrete journal example (such as the two-entry `fix: new` journal)
  is proved. The general round trip `FrontMatter.JournalReadBack` covers it.
- `cli/__init__.py` and `scripts/post_triage_comment.js` are not part of
  this model.
