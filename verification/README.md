# illinkrepro, modelled in Dafny

`illinkrepro create` reads an MSBuild binary log, finds one ILLink
(IL trimmer) task and turns its recorded command line into a portable
repro: a directory with an `input` folder holding copies of every
assembly, descriptor, attributes file and search directory the command
line names, and a `linker.rsp` response file whose arguments point at
those copies.

This project models the core of that tool and proves what it promises:

- `Text.dfy`, `Paths.dfy`: the .NET string and `System.IO.Path`
  operations the core relies on (`Trim`, `IndexOf`, `Join`, decimal
  rendering, `Path.Combine`, `GetFileName`, `GetExtension`,
  `GetFileNameWithoutExtension`, `TrimEndingDirectorySeparator`), on a
  platform whose separator is `/`. `Path.GetFullPath`, `File.Exists` and
  `Directory.Exists` on the recording machine are fields of a `Host`
  value and are otherwise unconstrained.
- `ILLink.dfy`: the argument records and their `ToString`. It also has
  the quote-aware tokenizer `SplitLine` (a method with its loop, proved
  against the function `Tokens`) and the grouping of tokens into flag
  groups (`GroupLine`, `GroupLines`). It classifies groups into records
  (`ClassifyGroups`). The constructor with `Parse` is a method proved
  against the function `ParseSpec`. Exceptions are `ParseError` values.
- `Selection.dfy`: the choice of the ILLink task. The tasks found in the
  log are narrowed by project and then by target, in log order. One of
  the remaining tasks is picked, preferring the first failed one.
- `Materializer.dfy`: the repro builder.
  - The class `Workspace` holds the names in `input` (files and
    directories apart) and the `inputFiles` registry. It also keeps a
    ghost log of copies.
  - Its methods `CopyFileToInput` and `CopyDirectoryToInput` run the
    free-name search loops (`FreeFileName`, `FreeDirectoryName`).
  - `RewriteArguments` is the `foreach` over the parsed arguments.
  - `RewriteSpec` and `RewriteAllSpec` state what one `switch` case and
    the whole loop yield and leave in `input`; the methods are proved to
    do exactly that, and the lemmas about them say when the loop fails,
    which fault it reports and what the registry holds afterwards.
  - `Materialize` is the part of `Run` after parsing; `Run` ties
    selection, parsing and materializing together.

## Model

| member | source | states |
|---|---|---|
| Text.IndexOf | ILLink.cs:76 | the result is -1 or the position of the first occurrence; no earlier position holds the character |
| Text.Trim | ILLink.cs:77 | the result is a slice of the input that neither starts nor ends with a trimmed character, and everything cut off is a trimmed character |
| Text.Decimal | Create.cs:198 | the rendering of `index` is non-empty and all digits |
| Text.DecimalValue | Create.cs:198 | the digits read back as the number rendered, and only zero is rendered with a leading '0' |
| Text.TrimKeeps | ILLink.cs:173 | trimming a set of characters from a string that starts and ends with them around a slice that does not gives exactly that slice |
| Text.JoinLength | ILLink.cs:85 | the length of a join is the parts' total length plus one separator between each two neighbours, and it begins with the first part |
| Text.JoinConcat | ILLink.cs:85 | joining two non-empty runs of parts is the join of the first, one separator, then the join of the second, and one part joins to itself: every part appears, in order, with exactly one separator between neighbours |
| Text.DecimalInjective | Create.cs:198 | different numbers render differently |
| Paths.CombinePlainName | Create.cs:192-203 | a plain name put below a directory is the file name of the result; below a non-empty directory not ending in a separator, exactly one separator joins the two |
| Paths.GetFileName | Create.cs:185 | the file name is the suffix after the last separator and holds none |
| Paths.TrimmedDirectoryName | Create.cs:212 | a directory path whose last segment is non-empty is named by that segment, with or without one trailing separator |
| Paths.FileNameNotRooted | Create.cs:149 | a file name is never a rooted path |
| Paths.StemAndExtension | Create.cs:193-194 | a file name is its name without extension followed by its extension (less a lone trailing '.'); neither holds a separator; a non-empty extension starts with its only '.'; a name without '.' is all stem and has no extension; a name holding a '.' is cut at its last '.', which fixes the extension too |
| Paths.CombineInjective | Create.cs:203 | distinct plain names below one directory give distinct paths |
| ILLink.Rendering | ILLink.cs:7-50 | a known record renders as its flag, a space and its path, with `-a` adding a space and its mode (nothing after the space when there is no mode); an unknown argument renders its text verbatim |
| ILLink.TokensNonEmpty | ILLink.cs:157-168 | every token is non-empty: a cut with nothing since the last one yields no token |
| ILLink.SplitLine | ILLink.cs:143-169 | the loop that flips `quoted` on each '"' and cuts at unquoted spaces returns exactly `Tokens(line)` |
| ILLink.TokensConcat | ILLink.cs:145-168 | the tokens concatenated are the line with exactly its unquoted spaces removed; quotes and quoted spaces stay in the tokens |
| ILLink.TokensAreSlices | ILLink.cs:157-168 | each token is the contiguous slice of the line at its span and holds no unquoted space |
| ILLink.TokenSpansInOrder | ILLink.cs:147-168 | token spans lie left to right without overlap, each cut from the next by an unquoted space |
| ILLink.NoSeparatorOneToken | ILLink.cs:167-168 | a non-empty line with no unquoted space is one token, the whole line |
| ILLink.BlankLineNoTokens | ILLink.cs:154-168 | an empty or all-space line yields no token |
| ILLink.QuotedLineHasToken | ILLink.cs:79-81 | from the first quote on there is always a first token, the one starting at that quote |
| ILLink.GroupsWellFormed | ILLink.cs:94-118 | every group is a `-` token followed only by non-`-` tokens, or a single non-`-` token |
| ILLink.GroupLine | ILLink.cs:94-118 | the nested `partIndex`/`subpartIndex` loops produce exactly `Groups(lineSplit)` |
| ILLink.GroupsLossless | ILLink.cs:94-118 | the groups concatenated give back the tokens |
| ILLink.GroupsMaximal | ILLink.cs:101-111 | a flag group runs to the next flag: the group after a flag group starts with a flag |
| ILLink.GroupsUnique | ILLink.cs:94-118 | any split of the tokens into well-formed, maximal groups is the one grouping produces |
| ILLink.SplitLines | ILLink.cs:70 | splitting at '\n' and '\r' yields at least one line and no line holds a line break |
| ILLink.SplitLinesFirst | ILLink.cs:70 | a text without a line break is one line; otherwise the first line is the text up to its first line break, followed by the lines of the text after it |
| ILLink.ReadLinesUntrimmed | ILLink.cs:70 | trimming the split lines of line breaks leaves every line as split |
| ILLink.ToPathQuotes | ILLink.cs:171-178 | a value resolves the same with or without surrounding quotes: normalised as it is when rooted, otherwise below the working path |
| ILLink.LineGroups | ILLink.cs:87-119 | every group of every line is well formed |
| ILLink.GroupLines | ILLink.cs:87-119 | the per-line loop, skipping lines without tokens, yields the lines' groups in line order |
| ILLink.LineGroupsLossless | ILLink.cs:87-119 | the groups of all lines concatenated are the tokens of all lines in order |
| ILLink.LineGroupsPerLine | ILLink.cs:87-119 | no group spans lines: the groups of all lines are exactly each line's own groups, in line order |
| ILLink.ClassifyFails | ILLink.cs:121-139 | classification fails exactly for a known flag with no value, with that flag as the error |
| ILLink.ClassifyKnown | ILLink.cs:125-136 | a known flag with a value picks its record by the flag; the path is `ToPath` of token 2; `-a` takes token 3 as its mode when present; further tokens are dropped; the record renders accordingly |
| ILLink.ClassifyUnknown | ILLink.cs:137-138 | any other group becomes an unknown argument whose text is the tokens joined by single spaces, and it renders as that text |
| ILLink.ClassifyAll | ILLink.cs:121-140 | success iff every group classifies; then one argument per group, in order; otherwise the error of the first failing group |
| ILLink.ClassifyGroups | ILLink.cs:121-140 | the classification loop returns `ClassifyAll` |
| ILLink.Parse | ILLink.cs:58-141 | the constructor with `Parse` returns `ParseSpec` of its inputs |
| ILLink.JoinResplits | ILLink.cs:85 | words without unquoted spaces, all but the last with balanced quotes, re-tokenize to themselves after joining with single spaces |
| ILLink.FirstLineResplits | ILLink.cs:79-85 | the first line's remaining tokens, joined and put back as line 0, re-tokenize to exactly those tokens |
| ILLink.ParseNeedsQuote | ILLink.cs:76-81 | parsing fails for want of a quote iff the first line has none, and never fails for want of a tool path |
| ILLink.RewrittenLinesTokens | ILLink.cs:85-119 | the groups parsed hold exactly the first line's tokens after the tool path, then every other line's tokens, in order |
| ILLink.ClassifyAllSucceeds | ILLink.cs:121-139 | classifying succeeds iff no group is a known flag without a value |
| ILLink.ParseSucceeds | ILLink.cs:58-141 | with a quote in line 0: success iff no group is a known flag without a value; the launcher path is the text before the quote, trimmed of spaces; the tool path is `ToPath` of the first token from the quote; there is one argument per group, in order |
| Selection.Keep | Create.cs:62-75 | the kept tasks are tasks of the list that pass the filter |
| Selection.KeepCounts | Create.cs:62-75 | filtering keeps every occurrence of a passing task and none of a failing one |
| Selection.KeepAppend | Create.cs:62-75 | filtering distributes over concatenation, so log order is kept |
| Selection.KeepKeep | Create.cs:60-96 | filtering by project and then by target is filtering once by both |
| Selection.First | Create.cs:103 | `FirstOrDefault` is none iff no task passes; otherwise it is the earliest passing task |
| Selection.FirstOfKeep | Create.cs:98-103 | the first failed task among the filtered ones is the first task of the log that matches and failed |
| Selection.Pick | Create.cs:98-124 | the pick is a remaining task: the only one when there is one; with several, the first failed one if any failed |
| Selection.Candidates | Create.cs:60-96 | the tasks left after both filters are exactly the log's matching tasks, in log order |
| Selection.KeepEmpty | Create.cs:77-89 | a filter leaves nothing iff no task passes it |
| Selection.PickIsPreferred | Create.cs:98-124 | the pick among the matching tasks is the first matching task that failed, or else the first matching task |
| Selection.SelectTask | Create.cs:54-126 | a chosen task is a task of the log, matches the project and target filters, and is under a target |
| Selection.SelectionGivesUp | Create.cs:54-96 | -1 for an empty log exactly; -1 for a named project exactly when no task is in it; -1 for a target exactly when tasks reach the target filter without crashing it and none matches |
| Selection.SelectionCrashes | Create.cs:86-126 | the run throws for a task not under a target exactly when no project is named and either a target is named and some task has no target, or no target is named and the picked task has none |
| Selection.ChosenIsPreferred | Create.cs:54-126 | a chosen task is under a target and is the preferred one |
| Selection.PreferredMatches | Create.cs:60-96 | the preferred task is a matching task of the log |
| Selection.PreferredIsChosen | Create.cs:54-126 | the preferred task is chosen whenever it is under a target and no target-less task reaches the target filter |
| Selection.SecondOfThreePicked | Create.cs:98-111 | of three tasks where the second and third failed, the second is picked |
| Materializer.FileAttemptsDistinct | Create.cs:195-199 | the names tried for a file (`name`, `stem.1.ext`, `stem.2.ext`, ...) are pairwise different |
| Materializer.DirectoryAttemptsDistinct | Create.cs:220-225 | the names tried for a directory (`name`, `name.1`, ...) are pairwise different |
| Materializer.FileAttemptNumbered | Create.cs:198 | attempt `n > 0` for `stem.ext` is the stem, a '.', `n` in decimal without a leading zero, then the extension |
| Materializer.FileAttemptKeepsExtension | Create.cs:193-198 | a renamed file keeps its non-empty extension |
| Materializer.DirectoryAttemptNumbered | Create.cs:224 | attempt `n > 0` for a directory is its name, a '.', then `n` in decimal without a leading zero |
| Materializer.FreeFileIndex | Create.cs:195-199 | the file search has exactly one stopping attempt: free, with every earlier one a file in `input` |
| Materializer.FreeDirectoryIndex | Create.cs:220-225 | the directory search has exactly one stopping attempt: free, with every earlier one an existing directory |
| Materializer.FreeFileName | Create.cs:192-200 | the loop stops, at the first attempt that is not a file in `input`, every earlier one being one; that is the attempt `FreeFileIndex` names; the name has no separator |
| Materializer.FreeDirectoryName | Create.cs:219-226 | the loop stops, at the first attempt that is not an existing directory (including `input` itself, `.` and `..`), every earlier one being one; that is the attempt `FreeDirectoryIndex` names |
| Materializer.FirstFileCopy | Create.cs:182-207 | the first file copied into the empty `input` is registered as `input/<its file name>`, unless that name is `.` or `..` |
| Materializer.FirstDirectoryCopy | Create.cs:209-233 | the first directory copied into the empty `input` is registered as `input/<its name>`, unless that name is empty, `.` or `..` |
| Materializer.Workspace.constructor | Create.cs:131-134 | `input` starts empty with an empty registry |
| Materializer.Workspace.CopyFileToInput | Create.cs:182-207 | a registered full path returns its stored value and changes nothing. Otherwise `name` is the first free attempt (`FreeFileIndex`); the copy fails with `CopyFailed(full, name)`, changing nothing, when that name is a directory, special, or the source is missing. Else exactly one entry `full -> input/<name>` is added, the name joins the files, and no other entry changes |
| Materializer.Workspace.CopyDirectoryToInput | Create.cs:209-233 | as `CopyFileToInput`, naming by the last part of the path with a trailing separator dropped, searching directories; fails when the name is a file or the source is missing |
| Materializer.Workspace.Record | Create.cs:202-205 | adds the registry entry, the name and the copy, keeping the workspace invariant |
| Materializer.ConsistentExtended | Create.cs:202-205 | a new source under a fresh plain name keeps registry, entries and copy log in agreement |
| Materializer.RegistryWellFormed | Create.cs:203-204 | every registry value is `input/<name>` for a plain, non-special name, and different sources have different values |
| Materializer.Workspace.RepointToFile | Create.cs:141-162 | a file argument is pointed at its copy's registered path, or fails as `CopyFileToInput` does, leaving its source unregistered |
| Materializer.Workspace.RepointToDirectory | Create.cs:163-165 | a search directory is pointed at its copy's registered path, or fails as `CopyDirectoryToInput` does |
| Materializer.Workspace.RewriteArgument | Create.cs:139-171 | one `switch` case: the result and the new `input` are `RewriteSpec`'s; the argument is rewritten as `RewrittenAs` says against the grown registry, or fails with a copy fault of a source left unregistered; an argument that is not copied never fails and changes nothing |
| Materializer.Workspace.RewriteArguments | Create.cs:136-172 | the result and the final `input` are `RewriteAllSpec`'s; one rewritten argument per argument, in order, each as `RewrittenAs` says against the final registry; earlier registry entries never change |
| Materializer.FailureSticks | Create.cs:136-172 | once a copy has failed, further arguments change neither the result nor `input` |
| Materializer.RewriteAllStep | Create.cs:136-172 | a turn of the loop appends a successful rewrite, and a failed one is the loop's result |
| Materializer.RewriteFailsAt | Create.cs:136-233 | the loop fails exactly when some argument's copy fails after every earlier argument was rewritten; its fault and `input` are that copy's |
| Materializer.RewriteRegisters | Create.cs:139-171 | a successful rewrite adds its argument's full source path to the registry when the argument is copied, and nothing else |
| Materializer.RewriteRegistersAll | Create.cs:136-233 | after a successful loop the registry holds exactly its earlier entries and the full source paths of the copied arguments |
| Materializer.NothingCopied | Create.cs:136-172 | arguments none of which is copied are all rewritten, and `input` is left as it was |
| Materializer.CopiedLine | Create.cs:141-165 | a copied argument points to the registry's value for its full path, a path below `input` that is not rooted |
| Materializer.RewrittenLine | Create.cs:141-176 | a rewritten argument keeps its flag and a root its mode; a copied path lies below `input`; `-out` is written `-out out`; a missing root assembly keeps its file name; no known argument is left rooted; unknown ones are written as read |
| Materializer.ResponseFileLines | Create.cs:174-176 | one line per argument, in order: a known argument's line is its original flag, a space, its rewritten path (never rooted; below `input` when copied) and, for `-a`, its original mode; an unknown argument's line is its text as read |
| Materializer.Materialize | Create.cs:131-176 | a repro with `RewriteAllSpec`'s arguments from the empty `input`, written one `ToString` per line, or a crash with its copy fault; a repro's arguments are rewritten as `RewrittenAs` says against a well-formed registry |
| Materializer.Run | Create.cs:54-176 | -1 exactly when selection gives up; a crash when the task is not under a target or its command line is rejected; otherwise what `Materialize` gives for the parsed arguments: the repro of `RewriteAllSpec`'s arguments or the crash with its copy fault |

## Left out

- Command wiring and option definitions (Create.cs:10-26), the binlog
  check, reading and tree walk (Create.cs:30-52), and the creation and
  deletion of the output directories: library plumbing and I/O. The
  tasks of the log come in as a sequence of `IllinkTask` values.
- Console output: text only.
- `Path.GetFullPath`, `File.Exists` and `Directory.Exists` on the
  recording machine are fields of `Host`, with no properties assumed.
  `Path.IsPathRooted` is concrete: the path starts with `/`.
- Windows separators, drive letters and UNC paths: only `/` is a
  separator.
- `StartsWith("-")` is modelled as an ordinal test of the first
  character; culture-sensitive comparison is not modelled.
- The recursive `CopyDirectory` (Create.cs:236-267) is one step: the
  directory's name appears in `input` and the copy is logged. Its
  contents and the failures inside the tree are not modelled.
- `File.WriteAllLines`: `Run` returns the lines of `linker.rsp` rather
  than writing them.
- Filesystem failures other than those that follow from the names in
  `input` and from `File.Exists`/`Directory.Exists` are not modelled. Out
  of scope are permissions, races and disk space.
- `int` overflow of the suffix `index` is not modelled: it is unbounded.
- `DotnetPathSection` and `ILLinkPathSection` exist as records with their
  rendering; `Parse` never builds them.
- The constructor's null check (ILLink.cs:63-64) is not a separate
  error. Once `Parse` returns, both paths are set, as
  `ILLink.ParseNeedsQuote` and `ILLink.ParseSucceeds` show.

Points where the model follows the code rather than what its names suggest:

- `SplitLine` keeps the quote characters inside tokens. The paths are
  stripped of them only by `ToPath`.
- `Parse` takes the first element of the split, even when it is empty.
  It does not look for the first non-empty line.
- `\r\n` yields an empty line in between; such lines have no token and
  are skipped.
- The target filter reads the target of every task left by the project
  filter. So a task not under a target makes `Run` throw even when
  another task matches (`Selection.SelectTask` returns
  `NotUnderTarget`).
