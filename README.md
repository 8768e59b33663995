# Slide-deck workspace scripts, modelled in Dafny

This project models the two helper scripts of a multi-presentation slide-deck workspace.

- **The aggregator** (`scripts/aggregate-builds.ts`) does the following:
  - clears `dist/`;
  - discovers every sub-directory of `slides/` as a presentation, in listing order;
  - copies each presentation's built `slides/<name>/dist` tree to `dist/<name>`, or only warns when there is none;
  - writes `dist/index.html` with one block per discovered presentation. Each block has a humanized title and a link to `./<name>/`. An empty list gets a placeholder instead.
- **The selector** (`scripts/select-presentation.ts`) does the following:
  - lists the sub-directories of `slides/`, sorted;
  - resolves which one to run, either from a name hint (the second argument) or from a prompt loop (number or part of a name);
  - runs `pnpm --filter <name> <command>`, where the command defaults to `dev`.

Modules:

- `Wrappers` — `Option`.
- `Search` — the first-match search behind `Array.prototype.find`, shared with the reader of the index page.
- `JsText` — the parts of JavaScript's string semantics the scripts rely on:
  - the regular-expression class `\w`;
  - ASCII `toUpperCase`/`toLowerCase`;
  - `includes`;
  - `parseInt(s, 10)`.
- `StringOrder` — `Array.prototype.sort` on strings, a stable sort by character code.
- `Title` — the title humaniser `replace(/-/g, " ").replace(/\b\w/g, toUpperCase)`.
- `IndexPage`:
  - the generated body of the index page;
  - a reader that recovers the listed titles and links from it.
- `FileTree`:
  - directory trees as the platform lists them;
  - the output directory as a class whose map of paths the file-system calls update;
  - the recursive `copyDir` as a method over that class.
- `Listing` — a listing of `slides/` and the directory filter both scripts apply.
- `Aggregator` — the aggregation script:
  - the discovery loop and the copy loop as methods;
  - the whole run as a function of the listing.
- `Selector` — the selection script:
  - argument defaults;
  - hint resolution;
  - the prompt loop, as a method over a scripted sequence of answers and as the state machine `Prompting → Matched | Cancelled`;
  - the final dispatch.

With a hint, `scripts/select-presentation.ts:81-96` resolves the name itself and never reaches the single-presentation shortcut of `selectPresentation` (`scripts/select-presentation.ts:28-30`). So a hint that matches nothing lists the names and exits 1 even when there is one presentation or none (`Selector.HintOverridesSingle`, `Selector.HintResolves`).

Two cases where a file-system call throws are modelled as an aborted run that leaves `dist/` as it is at that moment:

- A presentation whose `dist` is a file: `mkdir` succeeds, then listing the file as a directory throws.
- A presentation called `index.html` that has a `dist/`: the page would be written where a directory now stands.

## Model

| member | source | states |
|---|---|---|
| JsText.UpperChar | scripts/aggregate-builds.ts:96 | `toUpperCase` on one character moves `a`–`z` to `A`–`Z` and leaves every other character alone |
| JsText.LowerChar | scripts/select-presentation.ts:53 | `toLowerCase` on one character moves `A`–`Z` to `a`–`z` and leaves every other character alone |
| JsText.LowerHasNoUpper | scripts/select-presentation.ts:53 | `toLowerCase` leaves no upper-case letter in its result |
| JsText.LowerIdempotent | scripts/select-presentation.ts:53 | lower-casing lower-cased text changes nothing |
| JsText.ContainsIffOccurs | scripts/select-presentation.ts:53 | `includes` holds exactly when the piece occurs at some offset of the string |
| JsText.ContainsNonEmpty | scripts/select-presentation.ts:55 | a string that includes a non-empty piece is not empty |
| JsText.Contains | scripts/select-presentation.ts:53 | `includes` as a search from every offset; `ContainsIffOccurs` proves it finds exactly the offsets where the piece occurs |
| JsText.TrimStart | scripts/select-presentation.ts:46 | after skipping leading white space, the rest is no longer than the input and does not start with JavaScript white space |
| JsText.TrimStartDropsWhiteSpace | scripts/select-presentation.ts:46 | what `parseInt` skips is a run of white space and nothing else: the rest is the suffix of the input after that run |
| JsText.ParseInt | scripts/select-presentation.ts:46 | `parseInt(s, 10)`: skip white space, then read a signed number; the `ParseInt…` lemmas give its value on every shape of input |
| JsText.ParseSigned | scripts/select-presentation.ts:46 | an optional `+` or `-`, then the digits, with the sign applied to their value |
| JsText.ScanDigits | scripts/select-presentation.ts:46 | reads the longest run of decimal digits, NaN when there is none; `ScanRun` and `ScanFirst` give its value |
| JsText.DigitsValueSnoc | scripts/select-presentation.ts:46 | appending a digit multiplies the value read so far by ten and adds the digit |
| JsText.DigitsValueOfFormat | scripts/select-presentation.ts:46 | reading a printed numeral back gives the number printed |
| JsText.TrimStartSkips | scripts/select-presentation.ts:46 | `parseInt` skips exactly the leading white space |
| JsText.ScanRun | scripts/select-presentation.ts:46 | digit scanning reads the longest run of digits and stops at the first non-digit |
| JsText.ScanFirst | scripts/select-presentation.ts:46 | a non-empty run of digits followed by a non-digit scans to that run's value |
| JsText.ParseSignedDigits | scripts/select-presentation.ts:46 | after the white space, an optional `+`/`-` then digits give the signed value of the digits |
| JsText.ParseIntDigits | scripts/select-presentation.ts:46 | `parseInt(ws + sign + digits + rest)` is the signed value of the digits whatever non-digit text follows, so `"2x"` is 2 |
| JsText.ParseIntNoDigits | scripts/select-presentation.ts:46 | without a digit after the white space and sign, `parseInt` is NaN |
| JsText.ParseIntFormat | scripts/select-presentation.ts:46 | a numeral, or a minus and a numeral, followed by non-digits parses to that number or its negation |
| StringOrder.NotAfterReflexive | scripts/select-presentation.ts:15 | every string sorts not after itself |
| StringOrder.NotAfterTotal | scripts/select-presentation.ts:15 | any two strings are ordered one way or the other |
| StringOrder.NotAfterTransitive | scripts/select-presentation.ts:15 | the code-unit order is transitive |
| StringOrder.NotAfterAntisymmetric | scripts/select-presentation.ts:15 | two strings each not after the other are equal |
| StringOrder.Insert | scripts/select-presentation.ts:15 | inserting into a sorted list adds exactly the element and keeps it sorted |
| StringOrder.Sort | scripts/select-presentation.ts:15 | `sort()` returns a sorted permutation of its input |
| StringOrder.SortedHeadsAgree | scripts/select-presentation.ts:15 | two sorted permutations of the same names start with the same name |
| StringOrder.SortedPermutationUnique | scripts/select-presentation.ts:15 | there is only one sorted permutation, so the offered list does not depend on how the sort is carried out |
| Title.Dehyphen | scripts/aggregate-builds.ts:96 | `replace(/-/g, " ")` keeps the length, leaves no hyphen, and keeps every character other than a hyphen or a space in the text exactly when it was there |
| Title.UpperKeepsClass | scripts/aggregate-builds.ts:96 | upper-casing a character keeps it a word character or not, and a hyphen or not |
| Title.Humanize | scripts/aggregate-builds.ts:96 | the heading for a name: hyphens become spaces, then each `\b\w` match is upper-cased; `HumanizeAt`, `HumanizeNoHyphen` and `HumanizeIdempotent` state its properties |
| Title.CapitalizeFromAt | scripts/aggregate-builds.ts:96 | the `\b\w` pass upper-cases a character exactly when it is a word character at the start of a word |
| Title.CapitalizeFromLength | scripts/aggregate-builds.ts:96 | the `\b\w` pass keeps the length |
| Title.HumanizeAt | scripts/aggregate-builds.ts:96 | the title has the name's length; at each position a hyphen became a space, the first word character of each run was upper-cased, and everything else is unchanged |
| Title.HumanizeNoHyphen | scripts/aggregate-builds.ts:96 | a title contains no hyphen |
| Title.HumanizeKeepsOthers | scripts/aggregate-builds.ts:96 | a character that is neither a word character, a hyphen nor a space is in the title exactly when it is in the name |
| Title.HumanizeIdempotent | scripts/aggregate-builds.ts:96 | humanizing a title changes nothing |
| Title.HumanizeExamples | scripts/aggregate-builds.ts:96 | `my-cool-talk` becomes `My Cool Talk` and `foo_bar` becomes `Foo_bar` |
| IndexPage.Listings | scripts/aggregate-builds.ts:92-100 | what the page must list: one entry per name, in order, titled by the humaniser and pointing at that name |
| IndexPage.Block | scripts/aggregate-builds.ts:94-98 | the block for one name: its humanized title in a heading and a link to `./<name>/`; `ReadBlockOf` reads it back |
| IndexPage.Blocks | scripts/aggregate-builds.ts:92-100 | the blocks of all names joined with nothing between them; `ParseBlocksOf` reads them back in order |
| IndexPage.IndexBody | scripts/aggregate-builds.ts:90-102 | the blocks for a non-empty list, the placeholder otherwise; `IndexBodyRoundTrip` and `IndexBodyPlaceholder` state what it shows |
| IndexPage.ReadTitleOf | scripts/aggregate-builds.ts:96 | a heading reads back as the title written into it |
| IndexPage.ReadNameOf | scripts/aggregate-builds.ts:97 | the link `./<name>/` reads back as the name, inserted verbatim |
| IndexPage.ReadBlockOf | scripts/aggregate-builds.ts:94-98 | one block, whatever follows it, reads back as its humanized title and its name |
| IndexPage.ParseBlocksOf | scripts/aggregate-builds.ts:92-100 | the joined blocks read back as exactly one entry per name, in order |
| IndexPage.IndexBodyRoundTrip | scripts/aggregate-builds.ts:90-102 | the body lists every name once, in order, with its title and link; an empty list lists nothing |
| IndexPage.IndexBodyPlaceholder | scripts/aggregate-builds.ts:91-101 | the body is the "No presentations found" placeholder exactly when there are no names |
| IndexPage.BlocksStart | scripts/aggregate-builds.ts:94 | a non-empty list's body starts with the newline that opens the first block |
| Listing.DirectoryNamesAppend | scripts/aggregate-builds.ts:17-21 | collecting the names keeps the listing order: listing `a` then `b` collects `a`'s directories then `b`'s |
| Listing.DirectoryNames | scripts/aggregate-builds.ts:17-21 | the names of the directory entries in listing order; `DirectoryNamesMembers` and `DirectoryNamesCount` state which and how many |
| Listing.DirectoryNamesMembers | scripts/aggregate-builds.ts:18-19 | a name is collected exactly when some directory entry carries it |
| Listing.DirectoryIndicesSnoc | scripts/aggregate-builds.ts:18 | one more entry adds its position to the directory positions exactly when it is a directory |
| Listing.DirectoryNamesCount | scripts/aggregate-builds.ts:18-19 | one name is collected per directory entry, so other entries add nothing |
| Listing.DirectoryNamesDistinct | scripts/aggregate-builds.ts:17-21 | a listing without repeated names yields presentations without repeats |
| FileTree.FlattenEntriesKeys | scripts/aggregate-builds.ts:114-126 | copying a directory's entries writes only inside the destination, under the copied names |
| FileTree.FlattenNodeKeys | scripts/aggregate-builds.ts:119-124 | copying a node writes only at its target path or inside it |
| FileTree.FlattenEntriesMirror | scripts/aggregate-builds.ts:114-126 | a relative path exists in the copy exactly when it exists in the source, and holds a directory or a file with the same bytes |
| FileTree.FlattenNodeMirror | scripts/aggregate-builds.ts:119-124 | the same mirror property for a single node and its target path |
| FileTree.FlattenEntries | scripts/aggregate-builds.ts:114-126 | what copying a listing writes, entry by entry in listing order; `FlattenEntriesMirror` shows it mirrors the source |
| FileTree.FlattenNode | scripts/aggregate-builds.ts:119-124 | what copying one entry writes: a directory and its contents, or a file with its bytes |
| FileTree.OutputDir.constructor | scripts/aggregate-builds.ts:13 | a freshly created `dist/` holds only itself |
| FileTree.OutputDir.Reset | scripts/aggregate-builds.ts:10-13 | removing `dist/` and creating it again leaves only the empty directory, whatever was there |
| FileTree.OutputDir.MakeDir | scripts/aggregate-builds.ts:29 | `mkdir` fails exactly when a file is in the way; otherwise the path is a directory and nothing else changes |
| FileTree.OutputDir.CopyFile | scripts/aggregate-builds.ts:123 | `copyFile` fails exactly onto a directory; otherwise the target holds the source's bytes and nothing else changes |
| FileTree.OutputDir.WriteIndex | scripts/aggregate-builds.ts:106 | writing the page fails exactly onto a directory; otherwise the path holds the page and nothing else changes |
| FileTree.OutputDir.CopyDir | scripts/aggregate-builds.ts:114-126 | copying into a destination with nothing below it never fails, and adds exactly the flattened source below the destination |
| FileTree.FreshTarget | scripts/aggregate-builds.ts:115-121 | before each entry is copied its target is vacant, because earlier entries wrote only under their own names |
| Aggregator.Discover | scripts/aggregate-builds.ts:16-21 | the discovery loop pushes exactly the directory names, in listing order |
| Aggregator.Aggregate | scripts/aggregate-builds.ts:10-106 | whatever `dist/` held before, the run ends with the outcome and the `dist/` contents that depend on the listing alone |
| Aggregator.DistOf | scripts/aggregate-builds.ts:25-28 | what `existsSync` finds at `slides/<name>/dist`: the tree there, or nothing |
| Aggregator.CopyOne | scripts/aggregate-builds.ts:28-34 | one presentation of the copy loop: a warning without a `dist`, a copy of a directory `dist`, and a throw after `mkdir` for a file `dist` |
| Aggregator.CopyPhase | scripts/aggregate-builds.ts:24-35 | the copy loop over the discovered names from a fresh `dist/`, stopping at the first throw; `CopyPhaseKeep`, `CopyPhaseLog` and `CopyPhaseAborts` state its result |
| Aggregator.Run | scripts/aggregate-builds.ts:10-111 | the whole run: the copy loop, then the page unless a directory stands at its path; the `Run…` lemmas state its properties |
| Aggregator.DistOfWellFormed | scripts/aggregate-builds.ts:28 | the `dist` found for a presentation is a well-formed tree |
| Aggregator.CopyPhaseOwner | scripts/aggregate-builds.ts:24-35 | after the copy loop every path is `dist/` itself or lies under a discovered name that has a `dist` |
| Aggregator.PathIsVacant | scripts/aggregate-builds.ts:26-29 | before a presentation is copied nothing is at or below `dist/<name>` |
| Aggregator.CopyPhaseSticky | scripts/aggregate-builds.ts:28-30 | once a copy throws, no later presentation is processed |
| Aggregator.CopyPhaseKeep | scripts/aggregate-builds.ts:24-35 | under `dist/<name>`, the finished loop holds exactly what copying that presentation wrote |
| Aggregator.CopyPhaseAborts | scripts/aggregate-builds.ts:28-30 | the copy loop aborts exactly when some discovered `dist` is a file |
| Aggregator.CopyPhaseLog | scripts/aggregate-builds.ts:31-33 | a finished loop logs one line per name, in order: a copy exactly for the names with a `dist` and a warning for the others |
| Aggregator.IndexPathOccupied | scripts/aggregate-builds.ts:106 | a directory occupies `dist/index.html` exactly when a presentation of that name has a `dist` |
| Aggregator.RunCompletes | scripts/aggregate-builds.ts:24-106 | a run completes exactly when no `dist` is a file and no presentation called `index.html` has one |
| Aggregator.RunMirrors | scripts/aggregate-builds.ts:28-30 | after a completed run `dist/<name>` mirrors the presentation's built tree path for path |
| Aggregator.RunSkips | scripts/aggregate-builds.ts:32-34 | a name without a `dist`, or one that is no directory, gets nothing in `dist/` apart from a page of the same name |
| Aggregator.RunReports | scripts/aggregate-builds.ts:109-111 | a completed run reports the number discovered, not the number copied, after one log line per name in order |
| Aggregator.RunWritesIndex | scripts/aggregate-builds.ts:90-106 | a completed run writes the page listing every discovered name in order, copied or not; it shows the placeholder exactly when none was discovered |
| Selector.CommandOf | scripts/select-presentation.ts:6 | the command is the first argument unless it is missing or empty, and then `dev`; it is never empty |
| Selector.HintOf | scripts/select-presentation.ts:7 | a hint is present exactly when the second argument is there and not empty |
| Selector.Available | scripts/select-presentation.ts:11-15 | the directory names, sorted; `AvailableIsSortedDirectories` states what it holds |
| Selector.NameMatches | scripts/select-presentation.ts:53 | the name rule's test: the lower-cased answer occurs in the lower-cased name |
| Selector.HintMatches | scripts/select-presentation.ts:84-86 | the hint test: the exact name, or the name rule's test; `HintEqualitySubsumed` shows the first half adds nothing |
| Selector.ByName | scripts/select-presentation.ts:51-57 | the first name passing the name rule, when it is truthy; `ByNameFirst` and `ByNameNone` state the outcome |
| Selector.Interact | scripts/select-presentation.ts:37-60 | the prompt loop over a sequence of answers, stopping at the first decisive one; `InteractOutcome` states where it ends |
| Selector.SelectionOf | scripts/select-presentation.ts:22-61 | `selectPresentation`: exit 1 with no names, the only name with one, the prompt loop otherwise |
| Selector.CommandArgs | scripts/select-presentation.ts:67 | the argument vector `["--filter", name, command]` |
| Selector.Dispatch | scripts/select-presentation.ts:76-102 | `main`: exit 1 on an unreadable `slides/`, the hint rule when a hint is given, `selectPresentation` otherwise; the `Hint…`, `NoHint…` and `SpawnShape` lemmas state its outcomes |
| Search.FirstIndex | scripts/select-presentation.ts:52-54 | `find` returns the first element satisfying the test, or nothing when none does |
| Search.FirstIndexIs | scripts/select-presentation.ts:52-54 | an element that passes the test with none before it passing is what `find` returns |
| Selector.Step | scripts/select-presentation.ts:38-59 | an answer cancels exactly when it is null or empty, and a selected name is always one of those offered |
| Selector.SelectPresentation | scripts/select-presentation.ts:22-61 | the loop ends as the state machine does: exit 1 with no names, the only name with one, and otherwise the first decisive answer |
| Selector.AvailableIsSortedDirectories | scripts/select-presentation.ts:11-15 | the offered list is sorted, is a permutation of the directory names, and holds a name exactly when a directory entry carries it |
| Selector.HintEqualitySubsumed | scripts/select-presentation.ts:83-87 | the equality test in the hint rule adds nothing to the case-insensitive substring test |
| Selector.MatchIsTruthy | scripts/select-presentation.ts:55 | with a non-empty query a found name is never empty, so `if (match)` never rejects a match |
| Selector.HintResolves | scripts/select-presentation.ts:81-96 | with a hint the prompt is never used; the first matching sorted name is run, and when none matches every name is listed, whatever the number of names |
| Selector.HintRunsFirstMatch | scripts/select-presentation.ts:83-90 | with a hint, the first sorted name containing it case-insensitively is run with the command |
| Selector.HintOverridesSingle | scripts/select-presentation.ts:81-96 | with a hint, a single presentation that does not match is not run, and the script lists it and exits 1 |
| Selector.HintPicksBeta | scripts/select-presentation.ts:83-90 | the hint `bet` against `alpha`, `beta`, `gamma` runs `beta` |
| Selector.HintMatchesNothing | scripts/select-presentation.ts:91-95 | the hint `zzz` against `alpha`, `beta` lists both names |
| Selector.NoHintNoPresentations | scripts/select-presentation.ts:23-26 | without a hint and without presentations the script exits 1 |
| Selector.NoHintSinglePresentation | scripts/select-presentation.ts:28-30 | without a hint a single presentation is run without prompting |
| Selector.SpawnShape | scripts/select-presentation.ts:67 | a spawned `pnpm` always gets `--filter`, an offered name and the command |
| Selector.InteractOutcome | scripts/select-presentation.ts:37-60 | every answer before the last one read was rejected, and the last one decided the state; the loop keeps prompting only when every answer was rejected |
| Selector.StepByNumber | scripts/select-presentation.ts:46-48 | a number from 1 to N, after optional white space and `+` and before any non-digit, picks the name at that position |
| Selector.StepExamples | scripts/select-presentation.ts:46-48 | `"2x"` and `" +2"` both pick the second name |
| Selector.NoMatchWithout | scripts/select-presentation.ts:52-54 | a query does not match a name when its first character is not an upper-case letter and does not occur in the lower-cased name |
| Selector.BetMatchesBetaOnly | scripts/select-presentation.ts:52-54 | `bet` is part of `beta` and not of `alpha` |
| Selector.ByNameFirst | scripts/select-presentation.ts:51-57 | the name rule selects the first name containing the answer case-insensitively |
| Selector.ByNameNone | scripts/select-presentation.ts:51-59 | an answer that no name contains is rejected and the prompt repeats |
| Selector.ParsesTo | scripts/select-presentation.ts:46 | a numeral on its own parses to its number |
| Selector.ZeroFallsThrough | scripts/select-presentation.ts:46-59 | `"0"` is out of range, matches no name, and the prompt repeats |
| Selector.TenFallsThrough | scripts/select-presentation.ts:46-56 | `"10"` with three names is out of range and falls through to the name rule |
| Selector.PromptByPart | scripts/select-presentation.ts:52-56 | answering `bet` selects `beta` after one answer |
| Selector.PromptByPosition | scripts/select-presentation.ts:46-48 | answering `2` selects `beta` after one answer |
| Selector.PromptRetryThenCancel | scripts/select-presentation.ts:38-59 | a rejected answer prompts again, and an empty answer then exits 0 after two answers |

## Left out

- File-system failures other than the two modelled aborts: permissions, a missing `slides/` in the aggregator, and I/O errors. Only the selector's unreadable `slides/` is modelled, as exit 1.
- `mkdir -p` creating missing parents: every `mkdir` in the script targets a path whose parent exists, so it is modelled as creating one directory.
- Symbolic links, file permissions and timestamps: a source tree holds only files with bytes and directories.
- The fixed HTML and CSS around the generated body (`scripts/aggregate-builds.ts:38-89`, `103-104`): the page is `GeneratedIndex(body)`, and its UTF-8 encoding on disk is not modelled.
- Console output: log lines appear only as `Report` entries and outcome tags, not as their text.
- Spawning `pnpm` and passing on its exit code (`scripts/select-presentation.ts:66-73`): only the argument vector is modelled.
- `prompt` is a scripted sequence of answers, with `None` for a null answer. Running out of answers is the `AwaitingInput` outcome.
- JsText.Lower: only ASCII letters change case. JavaScript maps the whole Unicode range.
- JsText.UpperChar: only ASCII letters change case, as for `Lower`.
- StringOrder.Sort: it orders by Dafny characters (code points). JavaScript compares UTF-16 code units, and the two orders agree only within the Basic Multilingual Plane.
- JsText.ParseInt: the result is an unbounded integer. JavaScript's is a double, which for the range compared with the list length (fewer than 2^53 names) gives the same answer.
- Asynchronous execution and the `import.meta.main` guard: both scripts run strictly sequentially.
- FileTree.OutputDir.CopyDir: it requires a destination with nothing below it and a source without repeated names. Both always hold where the script calls it, and other destinations are not modelled.
- Aggregator.Aggregate: it requires the listing to have no repeated names and well-formed `dist` trees, as every real directory has.
