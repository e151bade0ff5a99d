# shell-impl-ts core, modelled in Dafny

This project models the core of a small interactive POSIX-style shell written
in TypeScript. The shell reads a line and splits it into a command and its
arguments. It runs the built-in commands `echo`, `exit`, `type`, `pwd` and
`cd` itself. It also keeps a prefix trie of command names for
tab-completion.

The modules follow the source files:

- `Strings` (strings.dfy) holds the JavaScript string operations the source
  relies on: `split`, `join`, `filter(Boolean)`, `indexOf`, and the
  index filter `[...s].filter((_, i) => !set.has(i)).join('')`.
- `Symbols` (symbols.dfy) models app/symbols.ts: the list `BUILT_INS`, the type
  `BUILT_IN` and `isBuiltIn`.
- `Tokenizer` (tokenizer.dfy) models `extractArgs` and `removeQuotes` of
  app/utils.ts. Each of its two phases is a pure function defined one
  character at a time. The source's loops are methods that are proved equal to
  those functions.
- `Quoting` (quoting.dfy) proves what the tokenizer does with spaces, quotes
  and backslashes. The general results use a small grammar of runs: bare
  text, single-quoted text, double-quoted text, and one escaped character.
  The expectations of tests/utils.test.ts are instances of these results.
- `CommandLine` (command_line.dfy) models `parseInput`. It covers the
  enclosing-quote scan that cuts the command off the line, and the
  first-space split used when the line has no quote.
- `Paths` (paths.dfy) models `relativeToAbsPaths`. It includes Node's POSIX
  `path.dirname`, which that function calls.
- `AutoCompletion` (autocomplete.dfy) models the `AutoComplete` trie of
  app/autocomplete.ts and types/trie.ts. The class keeps a table of nodes and
  two ghost fields. One ghost field is the path each node stands for. The
  other is the set of words added.
- `Handlers` (handlers.dfy) models `handleBuiltIns`, `handleType` and
  `handleCd` as a `Shell` class. Its state is the output written, the
  working directory and whether the session is closed. The pure function
  `Dispatch` states what each built-in does.

The code departs from what a POSIX shell does in three places. The model
follows the code.

- In a POSIX shell a backslash inside single quotes is literal. The split phase
  of `extractArgs` (app/utils.ts:183-188) still treats it as an escape. So
  `'a\' b'` is one argument `a\ b`, while `removeQuotes` keeps the backslash
  (`Quoting.EscapedQuoteInSingleQuotes`).
- A POSIX shell's `type` reports a missing command on the error stream. In
  the code every message of `handleType` goes through the same `rl.write`
  (app/handlers.ts:16-30). The model has a single output log.
- The test at tests/utils.test.ts:158 is titled "before  after". Its assertion
  expects `['before ', 'after']`, which is what the code computes and what
  `Quoting.EscapedSpaceThenGap` proves.

## Model

| member | source | states |
|---|---|---|
| Strings.SplitOn | app/utils.ts:109 | `split` never yields an empty list, and no piece contains the separator |
| Strings.JoinSplit | app/utils.ts:109 | joining the pieces of `split` with the separator gives the string back |
| Strings.SplitConcat | app/utils.ts:109 | `split` of `a + sep + b` is the pieces of `a` followed by the pieces of `b` |
| Strings.DropEmpty | app/utils.ts:109 | `filter(Boolean)` keeps exactly the non-empty pieces: every kept piece is non-empty and drawn from the input, and every non-empty input piece is kept; a single piece is kept or dropped, so with `Strings.DropEmptyConcat` the order is fixed |
| Strings.DropEmptyConcat | app/utils.ts:109 | `filter(Boolean)` distributes over concatenation |
| Strings.Join | app/utils.ts:109 | the joining that `Strings.JoinSplit` and `Strings.SplitJoin` pair with `split`: no pieces give the empty string, one piece gives itself |
| Strings.Fields | app/utils.ts:109 | `split(sep).filter(Boolean)` gives non-empty fields, none holding the separator |
| Strings.IndexOf | app/utils.ts:320 | `indexOf` is -1 exactly when the character is absent; otherwise it is the first position holding it |
| Strings.Without | app/utils.ts:258 | the index filter yields a subsequence of its input |
| Strings.WithoutExtend | app/utils.ts:258 | filtering one more character appends it unless its index is dropped |
| Symbols.IsBuiltIn | app/symbols.ts:4-7 | `isBuiltIn(cmd)` holds exactly when `cmd` names a variant of `BUILT_IN` |
| Symbols.AsBuiltIn | app/symbols.ts:2-7 | the narrowing succeeds exactly for built-in names and gives the variant of that name |
| Symbols.ListMatchesType | app/symbols.ts:1-2 | `BUILT_INS` lists the five names of `BUILT_IN`, each once, and distinct variants have distinct names |
| Symbols.Name | app/symbols.ts:1-2 | every variant of `BUILT_IN` names a member of `BUILT_INS`, a non-empty word without a space |
| Symbols.BuiltInExamples | app/symbols.ts:4-7 | the five names are built-ins; the empty string, other cases and a trailing space are not |
| Tokenizer.SplitStep | app/utils.ts:183-195 | an escape flag is consumed by the next character; otherwise exactly a backslash sets it; a quote flag flips only on its own unescaped quote while the other quote is closed; the two quotes are never open together |
| Tokenizer.SplitFrom | app/utils.ts:181-202 | the split phase never produces an empty piece |
| Tokenizer.SplitFromBound | app/utils.ts:181-202 | every piece takes at least one character, so there are no more pieces than characters |
| Tokenizer.SplitPhase | app/utils.ts:174-202 | the pieces of the split phase are non-empty and no more numerous than the characters of the text |
| Tokenizer.UnquoteFrom | app/utils.ts:220-254 | `removeQuotes` only deletes characters: its result is a subsequence of its input |
| Tokenizer.UnquoteStep | app/utils.ts:222-253 | only a quote or a backslash is deleted; the escape flag is set only by a deleted backslash; an escaped character is kept and clears the flag; the two quotes are never open together |
| Tokenizer.RemoveQuotes | app/utils.ts:213-259 | `removeQuotes(arg)` is a subsequence of `arg` |
| Tokenizer.Tokenize | app/utils.ts:169-207 | one argument per piece of the split phase, each a subsequence of its piece, and no more arguments than characters |
| Tokenizer.SplitAdvance | app/utils.ts:181-202 | one turn of the split loop keeps the pushed pieces plus the split of the rest equal to the final pieces, at a cut and elsewhere |
| Tokenizer.UnquoteAdvance | app/utils.ts:220-254 | one turn of the `removeQuotes` loop keeps the filtered prefix plus the rest of the specification equal to the final result |
| Tokenizer.RemoveQuotesLoop | app/utils.ts:213-259 | the loop with its index set returns exactly `RemoveQuotes(arg)`, a subsequence of `arg` |
| Tokenizer.SplitLoop | app/utils.ts:174-202 | the split loop returns exactly `SplitPhase(argsRaw)` |
| Tokenizer.ExtractArgs | app/utils.ts:169-207 | the split loop followed by `map(removeQuotes)` returns exactly `Tokenize(argsRaw)` |
| Quoting.PlainWords | app/utils.ts:181-207 | text with no quote or backslash tokenizes to its space-separated words, with empty words dropped |
| Quoting.NoArguments | tests/utils.test.ts:72-76 | the empty text and a text of only spaces give no arguments |
| Quoting.SplitPlain | app/utils.ts:181-202 | on plain text the split phase is `split(' ')` with empty pieces dropped |
| Quoting.UnquotePlain | app/utils.ts:220-254 | `removeQuotes` leaves plain text unchanged |
| Quoting.SplitRun | app/utils.ts:181-202 | no run of the grammar is cut by the split phase, and each run ends with all flags clear |
| Quoting.SplitRuns | app/utils.ts:181-202 | a sequence of adjacent runs is never cut by the split phase |
| Quoting.SplitLine | app/utils.ts:181-202 | tokens built from runs and joined by single spaces split back into exactly those tokens |
| Quoting.UnquoteRun | app/utils.ts:220-254 | `removeQuotes` turns each run into the text it stands for |
| Quoting.UnquoteRuns | app/utils.ts:220-254 | `removeQuotes` of adjacent runs is the concatenation of their meanings |
| Quoting.BackslashOutsideQuotes | app/utils.ts:237-243 | outside quotes a backslash is deleted and the next character kept literally |
| Quoting.BackslashInDoubleQuotes | app/utils.ts:227-234 | inside double quotes a backslash is deleted only before `"` or `\` |
| Quoting.BackslashInSingleQuotes | app/utils.ts:226 | inside single quotes `removeQuotes` keeps a backslash |
| Quoting.SplitBackslashInSingleQuotes | app/utils.ts:183-188 | inside single quotes the split phase still takes a backslash as an escape, so the next character neither cuts nor closes |
| Quoting.SplitEscapedQuoteInSingleQuotes | app/utils.ts:183-195 | `'a\' b'` is one piece for the split phase |
| Quoting.UnquoteEscapedQuoteInSingleQuotes | app/utils.ts:222-253 | `removeQuotes` of `'a\' b'` keeps the backslash and the space: `a\ b` |
| Quoting.EscapedQuoteInSingleQuotes | app/utils.ts:169-259 | `'a\' b'` tokenizes to the single argument `a\ b` |
| Quoting.OneToken | app/utils.ts:169-207 | adjacent runs with no space between them form one argument, their meanings concatenated |
| Quoting.LineTokens | app/utils.ts:169-207 | tokens built from runs and joined by single spaces tokenize to their meanings, one argument each |
| Quoting.LeadingSpaces | app/utils.ts:195-198 | spaces before any text produce no piece |
| Quoting.FirstToken | app/utils.ts:169-207 | a token followed by one or more spaces yields its meaning, then the arguments of the rest |
| Quoting.OneRun | app/utils.ts:169-207 | a single non-empty run is one argument, its meaning |
| Quoting.QuotedText | app/utils.ts:169-259 | a quoted text with neither its own quote nor a backslash is one argument, the text without its quotes |
| Quoting.QuotedThen | app/utils.ts:169-259 | such a quoted text followed by a space is the first argument, then the arguments of the rest |
| Quoting.BareWord | app/utils.ts:169-259 | bare text with no space, quote or backslash is one argument, itself |
| Quoting.EscapedBetween | app/utils.ts:181-243 | an escaped character between two bare texts joins them into one argument holding that character |
| Quoting.EscapedAround | app/utils.ts:181-243 | bare text between two escaped characters is one argument holding both characters |
| Quoting.QuotedBareQuoted | app/utils.ts:169-259 | single-quoted, bare and single-quoted text written together is one argument, the three texts joined |
| Quoting.SingleQuotedSpace | tests/utils.test.ts:12 | `'hello world'` is the one argument `hello world` |
| Quoting.DoubleQuotedSpaces | tests/utils.test.ts:97 | double quotes keep a run of spaces inside one argument |
| Quoting.SingleInsideDouble | tests/utils.test.ts:115 | a single quote inside double quotes is kept |
| Quoting.EmptyQuotes | tests/utils.test.ts:88 | `''` between other arguments is an empty argument |
| Quoting.EscapedSpaceThenGap | tests/utils.test.ts:159 | an escaped space stays in its argument, and the unescaped spaces after it separate |
| Quoting.DoubledBackslash | tests/utils.test.ts:171 | `\\` outside quotes gives one backslash |
| Quoting.EscapedQuotes | tests/utils.test.ts:177 | escaped single quotes outside quotes are kept as characters |
| Quoting.AdjacentRuns | tests/utils.test.ts:50 | quoted and bare runs written together make one argument |
| Quoting.OnlyMarkupDeleted | app/utils.ts:220-258 | `removeQuotes` deletes only quote and backslash characters, and keeps every other character in order |
| Quoting.RemoveQuotesDeletes | app/utils.ts:213-259 | the result of `removeQuotes` differs from its input only by deleted markup, and equals a plain input |
| CommandLine.ScanStep | app/utils.ts:301-311 | only a quote is deleted; `last_quote` changes only at a deleted quote; an open quote is closed only by the same quote character |
| CommandLine.ScanFrom | app/utils.ts:299-312 | the quote scan stops at the end or at a space, and keeps a subsequence of what it passed |
| CommandLine.ScanAdvance | app/utils.ts:299-312 | one turn of the scan loop keeps the filtered prefix plus the rest of the scan equal to the final command |
| CommandLine.SplitCommand | app/utils.ts:289-324 | the raw arguments are a suffix of the line; with a quote the command is a subsequence of the text before them; without a quote the line is the command, one space and the raw arguments, or the command alone when it has no space, and the command holds no space |
| CommandLine.ParseLine | app/utils.ts:266-327 | no more arguments than characters, and a line with no space and no quote is a command alone |
| CommandLine.ParseInput | app/utils.ts:266-327 | the method with its loop returns exactly `ParseLine(rawInp)`: the command and `extractArgs` of the rest |
| CommandLine.UnquotedCommand | app/utils.ts:318-324 | without quotes the command has no space and is the whole line, or the line is command, one space and the raw arguments |
| CommandLine.ScanDeletesQuotes | app/utils.ts:299-315 | the scan deletes only quote characters from the text it passed |
| CommandLine.QuotedCommand | app/utils.ts:289-316 | with a quote, the command is the text before a stopping point with quotes deleted, and the raw arguments start after the space there |
| CommandLine.ScanParts | app/utils.ts:299-312 | a command written as words and quoted parts scans to the parts' meanings |
| CommandLine.UnquotedParts | app/utils.ts:318-324 | a command with no quoted part has no space and means itself |
| CommandLine.CommandThenArgs | app/utils.ts:289-324 | a command written as parts, a space and the rest splits into the command's meaning and exactly the rest, in both branches |
| CommandLine.CommandAlone | app/utils.ts:289-324 | a command alone splits into its meaning and empty raw arguments |
| Paths.DirEnd | app/utils.ts:118-124 | the scan of `path.dirname` finds no slash, or a slash at a position from 1 to the start |
| Paths.Dirname | app/utils.ts:118-124 | `path.dirname` never returns the empty string and keeps a path rooted |
| Paths.DirnameChild | app/utils.ts:124 | the parent of `w + name + "/"` is `w` without its trailing slash |
| Paths.DirnameTopLevel | app/utils.ts:124 | the parent of a top-level directory is `/` |
| Paths.DirnameRoot | app/utils.ts:124 | the parent of `/` is `/` |
| Paths.Names | app/utils.ts:109 | every name is non-empty and holds no slash |
| Paths.Start | app/utils.ts:114-119 | the starting directory always ends in a slash |
| Paths.Finish | app/utils.ts:129-131 | exactly one trailing slash is removed, and only from a path longer than one character |
| Paths.Step | app/utils.ts:123-125 | one name keeps a non-empty directory non-empty and a rooted one rooted |
| Paths.Walk | app/utils.ts:121-126 | the walk keeps a non-empty directory non-empty, and names that are all `.` leave it unchanged |
| Paths.RelToAbs | app/utils.ts:88-133 | the result is never empty, and a rooted path does not depend on the working or home directory |
| Paths.RelativeToAbsPaths | app/utils.ts:88-133 | the method with its loop returns exactly `RelToAbs(dirPath, cwd, home)` |
| Paths.NamesConcat | app/utils.ts:109 | the names of `a + "/" + b` are the names of `a` followed by the names of `b` |
| Paths.WalkConcat | app/utils.ts:121-126 | walking two lists of names is walking the first, then the second |
| Paths.HomePaths | app/utils.ts:116 | `""`, `~` and `~/` give the home directory, or `/` when it is unset |
| Paths.DotPaths | app/utils.ts:117-118 | `.` gives the working directory and `..` its parent |
| Paths.RootPaths | app/utils.ts:115 | `/` and `/..` give `/` |
| Paths.UpAtRoot | app/utils.ts:123-124 | from `/`, any walk of `.` and `..` stays at `/` |
| Paths.PlainName | app/utils.ts:119 | a single ordinary name `x` gives `/x`, not a path under the working directory |
| Paths.TrailingSlash | app/utils.ts:109 | a trailing slash on the argument changes nothing |
| Paths.DotSegment | app/utils.ts:123 | a `.` segment after the first name changes nothing |
| Paths.WalkNames | app/utils.ts:121-126 | walking ordinary names appends them, separated and followed by slashes |
| Paths.CanonicalFixedPoint | app/utils.ts:88-133 | an absolute path of ordinary names maps to itself |
| Paths.GluedAfterParent | app/utils.ts:124-125 | for ordinary names `a`, `b`, `c`, `/a/b/../c` gives `/ac`, because `path.dirname` leaves no trailing slash after `..` |
| Paths.GluedNames | app/utils.ts:109 | the names of `/a/b/../c` are `a`, `b`, `..`, `c` |
| Paths.WalkAbsolute | app/utils.ts:121-126 | walking from a rooted directory stays rooted |
| Paths.Absolute | app/utils.ts:88-133 | with a rooted working and home directory, every result is a non-empty rooted path |
| AutoCompletion.SetChild | app/autocomplete.ts:31 | `children.set` maps the letter to the child, and a new key goes last in the key order |
| AutoCompletion.Descend | app/autocomplete.ts:22-32 | one letter of `add_word` gives the node the child for the letter, the existing one or a new leaf appended last, and changes no other node |
| AutoCompletion.Child | app/autocomplete.ts:51 | `children.get` gives the stored child, and in a linked trie it is defined exactly when the letter is a key |
| AutoCompletion.Follow | app/autocomplete.ts:48-54 | in a linked trie a walk only moves down the table, and stays at its node exactly for the empty word |
| AutoCompletion.FollowConcat | app/autocomplete.ts:48-54 | walking `u + v` is walking `u`, then `v` |
| AutoCompletion.FollowPath | app/autocomplete.ts:48-54 | in a linked trie, walking `w` from a node reaches the node for its path extended by `w`, further down the table |
| AutoCompletion.FollowGrows | app/autocomplete.ts:14-36 | adding words never breaks a walk that existed before |
| AutoCompletion.FollowMissing | app/autocomplete.ts:52 | once a walk fails, no extension of it succeeds |
| AutoCompletion.Completion | app/autocomplete.ts:59-67 | following first children from a non-root node reaches a terminal node, with an empty completion exactly when the node is terminal |
| AutoCompletion.CompletionAdded | app/autocomplete.ts:43-70 | a prefix that exists, followed by its completion, is a word that was added |
| AutoCompletion.AddedCompletesToItself | app/autocomplete.ts:43-70 | an added word is found and completes to itself |
| AutoCompletion.PrefixCompletes | app/autocomplete.ts:43-70 | a non-empty prefix that exists leads to a non-root node, and the prefix plus its completion is an added word extending it, the prefix itself when it was added |
| AutoCompletion.DescendKeeps | app/autocomplete.ts:19-33 | one step of the `add_word` loop keeps the trie linked, ordered and labelled, and moves to the child for the letter |
| AutoCompletion.AddStep | app/autocomplete.ts:19-33 | one turn of the `add_word` loop keeps the table linked, ordered, labelled and grown from the old table, with the walk reaching the node of the letters read so far |
| AutoCompletion.MarkKeeps | app/autocomplete.ts:35 | marking the node of the new word terminal restores the trie invariant with the word added |
| AutoCompletion.AutoComplete.constructor | app/autocomplete.ts:6-12 | a new trie is a single non-terminal root and holds no words |
| AutoCompletion.AutoComplete.AddWord | app/autocomplete.ts:14-36 | the empty word changes nothing; another word is added; all earlier words stay present |
| AutoCompletion.AutoComplete.LookUpPrefix | app/autocomplete.ts:43-70 | `undefined` exactly for the empty or absent prefix; otherwise an added word extending the prefix, the prefix itself when it was added, namely the prefix plus its first-child completion |
| Handlers.TypeLine | app/handlers.ts:12-32 | the line `type` writes begins with the command name and ends with a newline |
| Handlers.CdError | app/handlers.ts:48 | the error line of `cd` is `cd: `, the absolute path, and more text ending in a newline |
| Handlers.Dispatch | app/handlers.ts:58-79 | only `exit` breaks and closes; at most one line, newline-terminated; only `cd` moves, to the absolute path exactly when it is a directory, and otherwise reports it |
| Handlers.TypeOfBuiltIn | app/handlers.ts:14-18 | `type` on a built-in reports it without consulting `PATH` |
| Handlers.TypeOfOther | app/handlers.ts:20-31 | `type` on another name reports the `PATH` result or "not found" |
| Handlers.CdThenPwd | app/handlers.ts:39-50 | after a successful `cd`, `pwd` prints the directory changed to |
| Handlers.CdDot | app/handlers.ts:39-50 | `cd .` stays put and `cd ..` goes to the parent when it exists |
| Handlers.CdMissing | app/handlers.ts:46-49 | a failed `cd` keeps the directory and reports an absolute path |
| Handlers.Shell.HandleType | app/handlers.ts:12-32 | appends exactly the line `type` writes and changes nothing else |
| Handlers.Shell.HandleCd | app/handlers.ts:39-50 | moves to the absolute path when it is a directory, else appends the error line |
| Handlers.Shell.HandleBuiltIns | app/handlers.ts:58-79 | the new output, directory, closed flag and signal are those `Dispatch` gives |

## Left out

- `search_PATH` and `isDirectory` read the file system. They are parameters of the handlers (`PathLookup` and a predicate), not modelled.
- `runProgram`, main.ts (the read loop, external commands, output redirection) and the readline object are not part of this model. `rl.write` appends to the field `output`, and `rl.close()` sets `closed`.
- `process.cwd()`, `process.chdir` and `HOME`/`USERPROFILE` are not read from a process. The working directory is a field or a parameter, and the home directory is a parameter; an unset home is the empty string.
- Paths.Dirname: Node's `path.dirname` is library code. It is written out from Node's documented POSIX algorithm, including its `//` result.
- Handlers.Dispatch: requires an argument for `type` and `cd`. The source would pass JavaScript's `undefined` as `args[0]`, which a `string` cannot express.
- Handlers.Shell.HandleBuiltIns: requires a built-in name. For any other `cmd` the source's `switch` matches no case and the function returns `undefined`, which the `Continue`/`Break` signal of the model does not express.
- app/handlers.ts imports `BUILT_INS`, which app/symbols.ts declares but does not export. The model treats it as the list on app/symbols.ts:1.
- AutoCompletion.AutoComplete: trie nodes are table entries, not shared objects. Aliasing between node objects is therefore not modelled; no node is reachable from two parents in the source either.
- AutoCompletion.AutoComplete.LookUpPrefix: the fallbacks `?? ''` and `?? curr` in the completion loop are unreachable in a trie built by `add_word`, because every non-root node that is not terminal has a child. The model proves this and does not model the endless loop they would cause.
- Strings are sequences of characters. JavaScript's iteration by code point (`for ... of`) and its UTF-16 indexing are not told apart.
