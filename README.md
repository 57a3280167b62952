# Emoji alias links, modelled in Dafny

`add_aliases.py` gives emoji image files extra names. An image file is
called `<prefix><sequence>.<ext>`, for example `emoji_u1f600.png`. Its
sequence is the `_`-joined hex code points of the emoji.

The tool runs in three steps:

1. It reads an alias file. Each line maps an alias sequence to a target
   sequence.
2. It scans the target directory for image files.
3. For every alias whose target has a file, it creates a symbolic link
   named after the alias that points at the target's file.
   - An alias that already has a file is skipped, unless `replace` is set.
   - With `replace`, it first removes the file such an alias already has.
   - With `dry_run`, it only prints what it would do.

The project models:

- the two codec functions `str_to_seq` and `seq_to_str`;
- the line loop of `read_emoji_aliases`;
- the planning and execution logic of `add_aliases`.

The proofs show the following:

- The codec round-trips.
- Comments and blank lines are ignored.
- The last definition of an alias wins.
- An alias is planned a link exactly when its target has a file and,
  unless replacing, it has no file of its own. The link points at the
  target's file, and every other alias is reported.
- Without `replace`, nothing is removed.
- A dry run makes no file system call.
- Removals come before links, and each kind is made in sorted order.
- A refused call ends the run, and nothing after it is attempted.

Modules, one file each:

- `Wrappers` (`wrappers.dfy`): `Option` and `Result`.
- `Order` (`order.dfy`): Python's lexicographic order on tuples and on
  strings. `sorted` of a collection of distinct elements is a specification
  function, `SortedList`. The method that computes it is `SortedBy`, a
  selection sort.
- `Codec` (`codec.dfy`): `str.split`, `str.join`, hex numerals and `'%04x'`,
  plus `StrToSeq` and `SeqToStr`.
- `Diagnostics` (`diagnostics.dfy`): the messages the tool prints, kept
  abstract. Each one carries the values formatted into its text.
- `AliasFile` (`alias_file.dfy`): how one line is parsed (`ParseLine`), and
  what the whole file yields as a fold over the lines (`Load`). The loop
  itself is the method `ReadEmojiAliases`, which is proved equal to the fold.
- `Planner` (`planner.dfy`):
  - the directory scan (`Scan`);
  - the plan for the sorted aliases (`PlanFor`, computed by the loop
    `PlanAliases`);
  - the execution (`Execution`, computed by `Execute`);
  - the whole run (`Outcome`, computed by `AddAliases`).
- `RunProperties` (`run_properties.dfy`): what a whole run promises, stated
  over `Outcome`.

The outside world is the datatype `Planner.World`. It holds:

- the directory's path, `filedir`;
- whether the target is a directory;
- the directory's entries, in listing order;
- the lines of the alias file;
- the set of file system calls that would be refused.

Directory entries and file system calls name files relative to `filedir`;
`path.join` is not modelled.

A run yields a `Run`:

- the log of calls carried out, in order;
- the messages, with standard output and standard error in one sequence;
- whether the run returned or raised, and why.

Some failures crash the Python program, through an uncaught exception or a
deliberate `raise`. The model states each of them as an explicit `Raised`
status:

- a line that does not split into two fields;
- a non-hex alias token;
- a directory entry whose middle part is not hex;
- a refused `os.remove`;
- a refused `os.symlink`.

In the code, these messages go to standard output:

- `cannot process alias`;
- the dry-run previews;
- the `replacing` and `created` counts.

The other reports go to standard error. The model merges the two streams
into one sequence of messages.

## Model

| member | source | states |
|---|---|---|
| Codec.Split | add_aliases.py:31 | `split` always yields at least one piece |
| Codec.JoinSplit | add_aliases.py:31 | no piece of `s.split(sep)` holds `sep`, and joining the pieces with `sep` gives back `s` |
| Codec.SplitJoin | add_aliases.py:31-35 | splitting undoes joining when no piece holds the separator |
| Codec.Hex4 | add_aliases.py:35 | `'%04x' % n` is a canonical piece whose hex value is `n`: only lowercase digits, and no leading zero beyond four digits. It has exactly four digits below 0x10000 |
| Codec.CanonicalPieceUnique | add_aliases.py:35 | every canonical piece is the `'%04x'` rendering of its own value, so the rendering is unique |
| Codec.ParsePiecesValues | add_aliases.py:31 | `int(x, 16)` on every piece succeeds exactly when each piece is a non-empty string of hex digits. The result then holds each piece's value, in order |
| Codec.StrToSeq | add_aliases.py:30-31 | a parsed sequence is never empty |
| Codec.SeqToStrFormat | add_aliases.py:34-35 | `seq_to_str` writes one `_`-separated piece per code point. Each piece is a canonical lowercase hex numeral of the code point, four digits below 0x10000 |
| Codec.RoundTrip | add_aliases.py:30-35 | `str_to_seq(seq_to_str(s)) == s` for every non-empty sequence |
| Codec.EmptyDoesNotRoundTrip | add_aliases.py:30-35 | the empty sequence renders as `""`, and `str_to_seq("")` fails |
| Codec.SeqToStrEmpty | add_aliases.py:34-35 | only the empty sequence renders as `""` |
| Codec.SeqToStrInjective | add_aliases.py:34-35 | distinct sequences get distinct names |
| Codec.CanonicalTokenRoundTrip | add_aliases.py:30-35 | a token made of canonical pieces parses, and `seq_to_str` writes it back unchanged |
| Codec.StrToSeqAccepts | add_aliases.py:30-31 | `str_to_seq` succeeds exactly on tokens whose every `_`-separated piece is a non-empty hex numeral |
| Codec.NormalizeRoundTrip | add_aliases.py:30-35 | for every such token, `seq_to_str(str_to_seq(s))` is its normal form: each piece rewritten as `'%04x'` of its value, so `1F600` and `01f600` both come back as `1f600` |
| Order.SortedBy | add_aliases.py:76 | `sorted` of distinct elements returns `SortedList`: each element once, in strictly increasing order |
| Order.SortedUnique | add_aliases.py:76 | only one list holds each element of a set once in increasing order, so `sorted` is well defined |
| Order.LessTotal | add_aliases.py:76 | two distinct tuples are always ordered one way or the other |
| Order.LessTransitive | add_aliases.py:76 | tuple order is transitive |
| Order.CodesInjective | add_aliases.py:93 | strings with the same character codes are equal, so sorting by codes never ties two distinct strings |
| AliasFile.Find | add_aliases.py:43 | `line.find('#')` is -1 exactly when there is no `#`. Otherwise it is the index of the first `#` |
| AliasFile.CutComment | add_aliases.py:43-45 | the text left holds no `#` |
| AliasFile.StripProperties | add_aliases.py:46 | `strip()` returns a slice of its input with only whitespace cut from either end. The slice neither starts nor ends with whitespace |
| AliasFile.StripEmpty | add_aliases.py:46-47 | `strip()` is empty exactly when the line is all whitespace |
| AliasFile.CommentIgnored | add_aliases.py:43-45 | everything from the first `#` on is ignored |
| AliasFile.BlankLine | add_aliases.py:43-48 | a line is skipped exactly when its text before any `#` is all whitespace |
| AliasFile.SkippedLine | add_aliases.py:47-55 | a blank line, or a line whose target is not hex, leaves the map unchanged |
| AliasFile.FailingLine | add_aliases.py:49-50 | a line that does not split into two fields, or whose alias token is not hex, stops the reading with an error naming that line |
| AliasFile.DefiningLine | add_aliases.py:56 | a definition sets its alias to its target and leaves every other alias as it was |
| AliasFile.LastDefinitionWins | add_aliases.py:56 | an alias defined more than once gets the target of its last definition |
| AliasFile.DefinedAliases | add_aliases.py:42-57 | the keys of the map are exactly the aliases some line defines |
| AliasFile.FailureIsFinal | add_aliases.py:49-50 | once a line raises, nothing after it changes the outcome |
| AliasFile.FirstFailingLine | add_aliases.py:49-50 | the error names the first line that raises, of that line's kind. Every line before it reads cleanly |
| AliasFile.ReadLine | add_aliases.py:43-56 | one turn of the loop applies the line's parse to the map read so far. An error names this line, and a `cannot process alias` report comes exactly from a non-hex target |
| AliasFile.ReadEmojiAliases | add_aliases.py:38-57 | the loop returns `Load(lines)` together with the reports of the lines read. On an error, it reports only the lines before the failing line, which lies within the file |
| Planner.Middle | add_aliases.py:70 | the slice between prefix and extension is what lies between them |
| Planner.Globbed | add_aliases.py:67-68 | the names returned are the directory entries that match `<prefix>*.<ext>`, as a subsequence of the listing: they keep its order |
| Planner.ScanSucceeds | add_aliases.py:69-71 | the `seq_to_file` comprehension succeeds exactly when every matching name has a hex middle part |
| Planner.ScanFailsAt | add_aliases.py:69-71 | when the comprehension raises, it names the first matching name whose middle part is not hex |
| Planner.ScanEntries | add_aliases.py:69-71 | each file in the table is one of the names, under its own sequence, and every name's sequence is a key |
| Planner.ScanInjective | add_aliases.py:69-71 | no two sequences share a file |
| Planner.ScanLastWins | add_aliases.py:69-71 | a sequence shared by several names keeps the last of them |
| Planner.AliasNameInjective | add_aliases.py:88 | distinct aliases get distinct link names |
| Planner.AliasNameScansBack | add_aliases.py:88 | a link name matches the scan pattern, and scanning reads it back as its alias |
| Planner.PlanAliases | add_aliases.py:74-89 | the loop over `sorted(aliases.items())` builds `PlanFor`: the links, the files to replace and the reports |
| Planner.PlanCreates | add_aliases.py:76-89 | an alias gets a link exactly when its target has a file and, unless replacing, it has none of its own. The link points at the target's file |
| Planner.PlanLinksPlanned | add_aliases.py:76-89 | every planned link is named after an alias that gets one |
| Planner.PlanReports | add_aliases.py:77-86 | an alias whose target has no file is reported as `TargetMissing`. One whose target has a file, but which has a file of its own while existing files are kept, is reported as `AliasExists` |
| Planner.PlanReportsSkipped | add_aliases.py:77-86 | every report of the plan is the report of an alias that gets no link |
| Planner.PlanAccounts | add_aliases.py:76-89 | the number of links planned plus the number of reports is the number of aliases |
| Planner.PlanReplaces | add_aliases.py:81-83 | the files to replace are exactly the existing files of aliases that get links. Each is listed once, and none is listed without `replace` |
| Planner.NoReplaceKeepsFiles | add_aliases.py:81-86 | without `replace`, nothing is replaced and no alias that has a file gets a link |
| Planner.RemoveFiles | add_aliases.py:93-94 | the removal loop carries out the removals in order up to the first refused one, and reports whether all were made |
| Planner.CreateLinks | add_aliases.py:97-106 | a dry run prints one preview per key and calls nothing. Otherwise the links are made in order up to the first refused one, which is reported |
| Planner.Link | add_aliases.py:95-107 | after the removals, the link phase yields the `replacing` count, the links made, and `created` or the failure that raises |
| Planner.Execute | add_aliases.py:91-107 | the removals and then the links give the run `Execution` describes |
| Planner.ExecutionLog | add_aliases.py:91-106 | the calls made are the planned ones, in order, up to the first refused one |
| Planner.AddAliases | add_aliases.py:60-107 | a run gives the outcome `Outcome` describes: a missing directory, a bad name, a bad alias file, or the plan carried out |
| RunProperties.ActionsOrdered | add_aliases.py:91-106 | the planned calls put removals before links, each kind in strictly increasing order of name |
| RunProperties.ActionsPlanned | add_aliases.py:91-106 | the planned calls remove each replaced file, only when replacing for real, and link each planned alias, only when not previewing. There is nothing else, and a dry run plans no call |
| RunProperties.ExecutionPrefix | add_aliases.py:91-106 | the calls made are a prefix of the planned calls, none of them refused, and the next planned call is refused |
| RunProperties.ExecutionEnds | add_aliases.py:91-107 | a run returns exactly when every planned call was made, and then reports the link count. A raise names the refused call, and a refused link is reported |
| RunProperties.OutcomeBeforePlanning | add_aliases.py:61-73 | a missing directory is only reported, by a message naming `filedir`. A bad name or a bad alias file raises before any call |
| RunProperties.DryRunChangesNothing | add_aliases.py:91-103 | a dry run makes no call and can raise only on a bad name or a bad alias file |
| RunProperties.RemovalsBeforeLinks | add_aliases.py:91-106 | the calls of any run put removals first and links last, each kind in increasing order of name |
| RunProperties.CallsArePlanned | add_aliases.py:76-106 | every link made is named after a planned alias and points at its target's file, a directory entry. Every removal is of the existing file of a planned alias, and only when replacing. No call made was refused |
| RunProperties.NothingRemovedWithoutReplace | add_aliases.py:81-94 | without `replace`, a run removes nothing |
| RunProperties.CompletedRunLinksAll | add_aliases.py:91-107 | a run that returns makes every planned link and, when replacing, removes every replaced file. It ends by reporting the number of links |
| RunProperties.FailedLinkStopsRun | add_aliases.py:102-106 | a refused link ends the run: it is reported last and is not in the log. Every link made sorts before it |
| RunProperties.FailedRemovalStopsRun | add_aliases.py:93-94 | a refused removal ends the run before any link. Every removal made sorts before it |

## Left out

- `main` and its `argparse` options are left out. `prefix`, `ext`, `replace` and `dry_run` are plain inputs, `filedir` is the field `World.filedir`, and no set of extensions is enforced.
- `DATA_ROOT` and opening the alias file are left out. The file is given as its sequence of lines.
- `path.isdir` is a boolean input, `World.isDir`.
- `glob.glob` is modelled only as a filter of a given listing. A name matches if it starts with the prefix, ends with `.` and the extension, and is long enough that the two do not overlap. The listing order is kept. Metacharacters in the prefix, the hidden-file rule and the platform's listing order are not modelled.
- `os.remove` and `os.symlink` have no effects in the model. Each is an `Action` in the run's log, and whether the file system refuses it is a fixed set given as input. The effect of earlier calls on later ones is not modelled.
- The text of the messages is not modelled. Each is a `Diagnostics.Message` carrying its values, and standard output and standard error are one sequence.
- `Codec.StrToSeq`: `int(x, 16)` here accepts only non-empty strings of hex digits. Python also accepts surrounding whitespace, a sign and a `0x` prefix, and the model refuses those. Without a sign, code points are never negative.
- Python 2 byte strings are modelled as `seq<char>`. `strip()` removes space, tab, newline, vertical tab, form feed and carriage return.
- `Planner.Execute`: `sorted(aliases_to_replace)` is computed as `sorted` of the set of its entries. The two agree because the list never holds a file twice (`Planner.PlanReplaces`, given `Planner.ScanInjective`).
- The process exit status is left out. A raise is the `Raised` status of the run, and the `Exception('oops')` text is not modelled.
