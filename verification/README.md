# rsh core, modelled in Dafny

A model of the configuration-and-dispatch core of `rsh`, a small interactive
shell written in Rust. Everything it models lives in `src/main.rs`:

- **Tilde expansion** (`expand_tilde`): a leading `~` becomes the home directory.
- **Run-control loading** (`load_rshrc`): each line of `~/.rshrc` is trimmed,
  blank and `#` lines are skipped, and the prefixes `alias `, `export `,
  `prompt `, `func on_start `, `func on_exit `, `func ` are tried in that
  order to fill an `RshConfig` (three string tables, a prompt, two hook lists).
- **Alias expansion** (`expand_alias`): one layer of first-token substitution.
- **Completion** (`RshHelper::complete`): the word before the cursor is
  tilde-expanded and completed with sorted directory names, each followed by `/`.
- **Start-up and dispatch** (`main`, `run_function`): PATH is forced to
  `/bin:/usr/bin`, the rc file is loaded, start hooks run, and each read line
  is trimmed and dispatched to `exit`, `cd`, `help`, `alias`, `unalias`,
  `export`, `set`, `source`, `func` or, after alias expansion, to `sh -c`.

Everything is pure. A child process is a recorded `Effect` holding its script,
its environment and the working directory it inherits from the shell. The home directory, the file system, the rc file's lines
and directory listings come in through a `World` record of functions
(`host.dfy`). The process environment is mirrored as the map `State.env`,
which holds the variables the session itself set.

Files: `options.dfy` (Option), `text.dfy` (the Rust string operations used:
`trim`, `trim_matches`, `strip_prefix`, `split_once`, `find`/`rfind`,
`split_whitespace`, `join`, `replacen`, `str::cmp`), `paths.dfy`,
`rc_config.dfy`, `alias.dfy`, `host.dfy`, `completion.dfy`, `shell.dfy`.

Behaviours of the code that are easy to misread:

- Alias values lose *every* leading and trailing `"` and then every leading
  and trailing `'`. The quotes need not match, and more than one layer goes.
- `source FILE` only checks that FILE exists. It then loads `~/.rshrc`, never
  FILE. `SourceIgnoresFile` states this.
- `unalias NAME` for a name that is not an alias reports nothing. It is a
  silent no-op.
- `func NAME BODY` splits at the first ASCII space after `func `. So
  `func  x y` (two spaces) stores the body `x y` under the empty name.
- Only the first argument of a built-in is used. `alias x=y` typed at the
  prompt lists the aliases and defines nothing.
- End of input and Ctrl-C leave the loop without running the exit hooks. Only
  `exit` runs them.

Completion offsets are character offsets. Rust uses byte offsets. The word
start is still the same relation to the line, because `' '` is a single byte.

## Model

| member | source | states |
|---|---|---|
| `Paths.ExpandTilde` | src/main.rs:94-101 | a path starting with `~` becomes home followed by the rest of the path, so later `~`s are kept; with no home, or no leading `~`, the path is unchanged |
| `Text.IsWhitespace` | src/main.rs:111 | the Unicode White_Space set that `str::trim` and `split_whitespace` use; no contract of its own; behaviour stated by `TrimSpec`, `Words` |
| `Text.TrimBy` | src/main.rs:120 | `trim_matches` with a predicate; no contract of its own; behaviour stated by `TrimBySpec`, `TrimByPadded`, `TrimByUnchanged` |
| `Text.Trim` | src/main.rs:111 | `str::trim`; no contract of its own; behaviour stated by `TrimSpec`, `WordsOfTrim` |
| `Text.TrimBySpec` | src/main.rs:120 | trimming by any character test keeps a contiguous middle; everything dropped on either side passes the test and neither end of the result does |
| `Text.TrimByPadded` | src/main.rs:117-120 | trimming a text whose ends pass no test removes exactly the padding put around it |
| `Text.TrimMatches` | src/main.rs:120 | `trim_matches(c)` leaves the text with every leading and trailing `c` peeled off: a contiguous middle, all of whose dropped characters are `c` and neither of whose ends is `c` |
| `Text.PeeledUnique` | src/main.rs:120 | peeling a character off both ends has only one possible outcome, so the `trim_matches` contract determines its result |
| `Text.TrimSpec` | src/main.rs:111 | `trim` keeps a contiguous middle of the line; everything dropped on either side is whitespace and the result neither starts nor ends with whitespace |
| `Text.LeadingLen` | src/main.rs:111 | the leading run that trimming removes is exactly the maximal prefix of stripped characters |
| `Text.TrailingLen` | src/main.rs:120 | the trailing run that trimming removes is exactly the maximal suffix of stripped characters |
| `Text.StripPrefix` | src/main.rs:116 | `strip_prefix` succeeds exactly when the prefix starts the line, and the line is the prefix followed by the result |
| `Text.SplitOnce` | src/main.rs:117 | `split_once` fails exactly when the separator is absent; otherwise the parts rebuild the input and the first part holds no separator |
| `Text.SplitOnceAt` | src/main.rs:123 | a line made of a separator-free key, the separator and a value splits back into that key and that value |
| `Text.TrimByUnchanged` | src/main.rs:120 | trimming leaves a text alone when neither end is stripped |
| `Text.ReplaceFirst` | src/main.rs:97 | `replacen(c, with, 1)`; no contract of its own; behaviour stated by `Paths.ExpandTilde` |
| `Text.IndexOfAt` | src/main.rs:97 | the first occurrence found is the one after an occurrence-free prefix |
| `Text.IndexOf` | src/main.rs:258 | the first occurrence of a character: absent exactly when the character is not there, otherwise no earlier occurrence |
| `Text.LastIndexOf` | src/main.rs:42 | `rfind`: absent exactly when the character is not there, otherwise no later occurrence |
| `Text.WordLenBy` | src/main.rs:153 | a word runs up to the first separator character |
| `Text.WordsBy` | src/main.rs:153 | every word is non-empty and free of separators |
| `Text.Words` | src/main.rs:153 | every token of `split_whitespace` is non-empty and has no whitespace in it |
| `Text.WordLenUnique` | src/main.rs:153 | the length of the first word is determined by where the first separator is |
| `Text.WordsBySplit` | src/main.rs:223 | a separator splits the words on its left from the words on its right |
| `Text.WordsSplit` | src/main.rs:223 | a whitespace character separates the tokens on its left from those on its right |
| `Text.WordsByNone` | src/main.rs:223 | a text of separators only has no words |
| `Text.WordsByLeading` | src/main.rs:223 | separators before a text add no words |
| `Text.WordsByTrailing` | src/main.rs:223 | separators after a text add no words |
| `Text.WordsOfTrim` | src/main.rs:218-223 | trimming a line keeps its whitespace tokens, and leaves nothing exactly when the line has no tokens |
| `Text.WordsOfToken` | src/main.rs:153 | a single token splits into itself |
| `Text.Join` | src/main.rs:156 | `join(sep)`; no contract of its own; behaviour stated by `WordsJoin`, `JoinEmpty` |
| `Text.WordsJoin` | src/main.rs:156 | joining tokens with single spaces and splitting again gives the same tokens |
| `Text.JoinEmpty` | src/main.rs:157 | the joined rest is empty exactly when there are no remaining tokens |
| `Text.LexLe` | src/main.rs:80 | `str::cmp` as a less-or-equal on code points; no contract of its own; behaviour stated by `LexReflexive`, `LexTotal`, `LexTransitive`, `LexAntisymmetric` |
| `Text.LexReflexive` | src/main.rs:80 | every display is ordered no later than itself |
| `Text.LexTotal` | src/main.rs:80 | any two displays are ordered one way or the other |
| `Text.LexTransitive` | src/main.rs:80 | the display order is transitive |
| `Text.LexAntisymmetric` | src/main.rs:80 | two displays ordered both ways are equal |
| `Alias.ExpandAlias` | src/main.rs:152-165 | no tokens or an unknown first token: the line verbatim; a known token alone: the replacement; a known token with arguments: replacement, one space, the arguments joined by single spaces |
| `Alias.ExpandAliasWords` | src/main.rs:154-161 | one layer only: the tokens of the result are the replacement's own tokens followed by the original arguments, and the replacement is not looked up again |
| `Alias.ExampleWords` | src/main.rs:153 | `g status -s` splits into `g`, `status`, `-s` |
| `Alias.ExpandAliasExample` | src/main.rs:152-165 | with `g` aliased to `git`, `g status -s` becomes `git status -s` |
| `RcConfig.Recognise` | src/main.rs:116-137 | the `if let … strip_prefix` chain tried in source order; no contract of its own; behaviour stated by `RecogniseFrom`, `RecogniseRule`, `RecogniseNone` |
| `RcConfig.Classify` | src/main.rs:111-137 | what one rc line means after trimming; no contract of its own; behaviour stated by `ClassifyRender`, `ClassifyPrefixedLine`, `AliasLine`, `FunctionLineParts`, `ParseLineSkips` |
| `RcConfig.ApplyAll` | src/main.rs:110-138 | the directives applied in file order; no contract of its own; behaviour stated by `ApplyAllUnbound`, `ApplyAllLastWins`, `ApplyAllNoPrompt`, `ApplyAllPromptLastWins`, `ApplyAllStart`, `ApplyAllExit` |
| `RcConfig.Load` | src/main.rs:107-140 | `load_rshrc` over the file's lines; no contract of its own; behaviour stated by `LoadStep`, `LoadUnbound`, `LoadLastWins`, `LoadPrompt`, `LoadNoPrompt`, `LoadHooks` |
| `RcConfig.Apply` | src/main.rs:116-136 | a directive appends at most one hook to each list, keeps the earlier hooks, and a hook directive leaves the three tables alone |
| `RcConfig.ApplyHooks` | src/main.rs:129-132 | a directive appends exactly its own hook command, to its own list |
| `RcConfig.ParseLine` | src/main.rs:110-137 | a line appends at most one element to each hook list and keeps the earlier ones; a hook line touches no table (what each kind of line does is stated by the `Parse*` lemmas below) |
| `RcConfig.StripQuotes` | src/main.rs:120 | the value is peeled of double quotes at both ends and the remainder of single quotes at both ends, so the result neither starts nor ends with `'`; a value with no quote at either end is kept |
| `RcConfig.QuotesStripped` | src/main.rs:120 | a value wrapped in one matching pair of `"` or of `'` loses exactly that pair |
| `RcConfig.ClassifyPrefixedLine` | src/main.rs:111-116 | a line whose trimmed form starts with a rule's prefix is neither skipped as blank nor as a comment |
| `RcConfig.AliasLine` | src/main.rs:116-121 | a trimmed line `alias K=V`, K free of `=`, is the alias of the trimmed K to the trimmed, unquoted V |
| `RcConfig.ParseAlias` | src/main.rs:116-121 | such a line stores that alias and changes nothing else |
| `RcConfig.ParseAliasWithoutEquals` | src/main.rs:116-117 | an `alias` line without `=` changes nothing |
| `RcConfig.ParseExport` | src/main.rs:122-126 | a trimmed line `export K=V`, K free of `=`, stores the trimmed K with the trimmed V in `env_vars` and changes nothing else |
| `RcConfig.ParseExportWithoutEquals` | src/main.rs:122-123 | an `export` line without `=` changes nothing |
| `RcConfig.ParsePrompt` | src/main.rs:127-128 | a trimmed line `prompt TEXT` sets the prompt to TEXT as it stands and changes nothing else |
| `RcConfig.ParseOnStart` | src/main.rs:129-130 | a trimmed line `func on_start CMD` appends CMD to the start hooks and changes nothing else |
| `RcConfig.ParseOnExit` | src/main.rs:131-132 | a trimmed line `func on_exit CMD` appends CMD to the exit hooks and changes nothing else |
| `RcConfig.ParseFunction` | src/main.rs:133-136 | a trimmed line `func N B`, N free of spaces and not a hook word, stores the trimmed B under the trimmed N and changes nothing else |
| `RcConfig.FunctionLineParts` | src/main.rs:133-136 | a trimmed `func N B` line, N free of spaces and not a hook word, is the function of the trimmed N with the trimmed B |
| `RcConfig.RecogniseNone` | src/main.rs:116-137 | a line that none of the six prefixes starts is not recognised |
| `RcConfig.ParseFunctionWithoutSpace` | src/main.rs:133-134 | a `func` line with no space after `func ` (such as `func NAME` alone) changes nothing |
| `RcConfig.ParseUnrecognised` | src/main.rs:116-137 | a non-blank, non-comment line starting with none of the six prefixes changes nothing |
| `RcConfig.PaddedKey` | src/main.rs:117-120 | a key padded with whitespace gains no `=` and trims back to the key |
| `RcConfig.PaddedValue` | src/main.rs:120 | a value after whitespace and inside at most one matching pair of quotes trims and unquotes back to the value |
| `RcConfig.AliasLineTrimmed` | src/main.rs:111 | an `alias` line whose value ends in a non-whitespace character is already trimmed |
| `RcConfig.AliasPaddedQuoted` | src/main.rs:111-121 | `alias  N = 'V'` (whitespace around key and value, one pair of `"` or `'` or none around the value) defines the same alias as `alias N=V` |
| `RcConfig.AliasQuotedExample` | src/main.rs:116-121 | the line `alias ll='ls -la'` maps `ll` to `ls -la` |
| `RcConfig.ParseLineSkips` | src/main.rs:111-114 | blank lines and lines starting with `#` after trimming change nothing |
| `RcConfig.ClassifyRender` | src/main.rs:111-137 | the canonical line written for a well-formed directive (trimmed key and value, no quotes, no padding) is read back as that directive, through the fixed prefix order and the first-`=` and first-space splits |
| `RcConfig.RecogniseFrom` | src/main.rs:116-137 | when the earlier prefixes do not match, the next one in priority order decides |
| `RcConfig.RecogniseRule` | src/main.rs:116-137 | the first rule whose prefix starts the line builds the directive from the text after it |
| `RcConfig.ExportLineRecognised` | src/main.rs:122-126 | an `export ` line is read by the `export` branch |
| `RcConfig.StartLineRecognised` | src/main.rs:129-130 | a `func on_start ` line is a start hook with the rest of the line as command |
| `RcConfig.ExitLineRecognised` | src/main.rs:131-132 | a `func on_exit ` line is an exit hook with the rest of the line as command |
| `RcConfig.FunctionLineRecognised` | src/main.rs:133-136 | a `func ` line that is not a hook line reaches the function branch |
| `RcConfig.RenderAlias` | src/main.rs:116-121 | a well-formed `alias NAME=VALUE` line reads back as that alias |
| `RcConfig.RenderExport` | src/main.rs:122-126 | a well-formed `export NAME=VALUE` line reads back as that export |
| `RcConfig.RenderPrompt` | src/main.rs:127-128 | a `prompt TEXT` line reads back as that prompt |
| `RcConfig.RenderOnStart` | src/main.rs:129-130 | a `func on_start CMD` line reads back as that start hook |
| `RcConfig.RenderOnExit` | src/main.rs:131-132 | a `func on_exit CMD` line reads back as that exit hook |
| `RcConfig.RenderFunction` | src/main.rs:133-136 | a well-formed `func NAME BODY` line reads back as that function |
| `RcConfig.NotHookPrefix` | src/main.rs:129-133 | `func NAME ...` is a hook line only when NAME is the hook's word |
| `RcConfig.Directives` | src/main.rs:110 | one directive per line, in file order |
| `RcConfig.LoadStep` | src/main.rs:110-138 | loading is the line-by-line fold of the per-line parser |
| `RcConfig.ApplyTable` | src/main.rs:116-136 | a directive changes a table only by storing its own key and value |
| `RcConfig.ApplyAllUnbound` | src/main.rs:116-136 | a key that no directive binds keeps its presence and value |
| `RcConfig.ApplyAllLastWins` | src/main.rs:116-136 | a key ends up with the value of the last directive that binds it |
| `RcConfig.LoadUnbound` | src/main.rs:116-136 | after loading, a key no line binds has its old presence and value |
| `RcConfig.LoadLastWins` | src/main.rs:116-136 | after loading, a key holds the value of the last line that binds it |
| `RcConfig.ApplyAllNoPrompt` | src/main.rs:127-128 | directives without a prompt keep the prompt |
| `RcConfig.ApplyAllPromptLastWins` | src/main.rs:127-128 | the last prompt directive sets the prompt |
| `RcConfig.LoadPrompt` | src/main.rs:127-128 | after loading, the prompt is the text of the last `prompt` line |
| `RcConfig.LoadNoPrompt` | src/main.rs:127-128 | a file without a `prompt` line keeps the prompt |
| `RcConfig.ApplyAllStart` | src/main.rs:129-130 | the start hooks grow by exactly the `func on_start` commands, in order |
| `RcConfig.ApplyAllExit` | src/main.rs:131-132 | the exit hooks grow by exactly the `func on_exit` commands, in order |
| `RcConfig.LoadHooks` | src/main.rs:129-132 | loading appends every `func on_start` and `func on_exit` command of the file, in file order, after the existing hooks |
| `Completion.Target` | src/main.rs:53-57 | the directory to list and the name filter; no contract of its own; behaviour stated by `Complete` |
| `Completion.Listing` | src/main.rs:61-62 | the directory's entries, none when it cannot be read; no contract of its own; behaviour stated by `Complete` |
| `Completion.WordStart` | src/main.rs:42-45 | the word runs from just after the last space before the cursor (or the line start) to the cursor and holds no space |
| `Completion.Candidate` | src/main.rs:65-72 | display and replacement are the same: the entry name followed by `/` |
| `Completion.Candidates` | src/main.rs:61-78 | never more candidates than entries, display equal to replacement |
| `Completion.CandidatesMembers` | src/main.rs:61-78 | a pair is a candidate exactly when some entry is a directory with a readable name that starts with the filter and yields it |
| `Completion.SortByDisplay` | src/main.rs:80 | `sort_by` on the display text; no contract of its own; behaviour stated by `SortSorted`, `SortPermutes`, `SortIsUnique` |
| `Completion.InsertSorted` | src/main.rs:80 | inserting into a display-sorted list keeps it sorted |
| `Completion.InsertPermutes` | src/main.rs:80 | insertion adds exactly the inserted pair |
| `Completion.SortSorted` | src/main.rs:80 | the sorted candidates are in display order |
| `Completion.SortPermutes` | src/main.rs:80 | sorting is a permutation of the candidates |
| `Completion.SortedMembers` | src/main.rs:61-80 | after sorting, a pair is offered exactly when some accepted entry yields it |
| `Completion.SortedUnique` | src/main.rs:80 | two display-sorted permutations of the same candidates are equal, so the order is fully determined |
| `Completion.SortIsUnique` | src/main.rs:80 | any display-sorted arrangement of the candidates is their sort |
| `Completion.Complete` | src/main.rs:40-83 | the start offset bounds the word at the cursor; the candidates are sorted, a permutation of the accepted entries of the target directory (the word itself when it is a directory, else its parent filtered by its last component), and exactly those |
| `Completion.OnlyDirectoriesOffered` | src/main.rs:61-78 | with a directory `foo` and a file `bar.txt`, filter `f` offers `foo/` alone and no filter never offers the file |
| `Completion.ThreeDirectoriesFound` | src/main.rs:61-78 | three directories all pass an empty filter, in listing order |
| `Completion.ThreeDirectoriesSorted` | src/main.rs:80 | `alpha/`, `mid/`, `zeta/` are in display order |
| `Completion.CandidatesInOrder` | src/main.rs:61-80 | directories `zeta`, `alpha`, `mid` are offered as `alpha/`, `mid/`, `zeta/` |
| `Shell.EnsurePath` | src/main.rs:103-105 | `ensure_path`; no contract of its own; behaviour stated by `Spawn`, `StartupEnv` |
| `Shell.RcLines` | src/main.rs:108-110 | the lines of `~/.rshrc`, none when it cannot be opened; no contract of its own; behaviour stated by `Startup`, `StartupRunsStartHooks`, `ExitRunsRcExitHooks`, `SourceMerges` |
| `Shell.Exports` | src/main.rs:123-126 | the process environment after the rc file's `export` lines; no contract of its own; behaviour stated by `ExportsOverlay`, `EnvVarsAreExports`, `LoadExports` |
| `Shell.Spawn` | src/main.rs:144-148 | a child gets its script, the session environment with PATH forced to `/bin:/usr/bin` (every other variable inherited as it is) and the shell's current working directory |
| `Shell.SpawnAll` | src/main.rs:200-206 | one child per hook, in hook order, all in the same working directory |
| `Shell.ExportsOverlay` | src/main.rs:123-126 | setting the exported variables one by one overlays them on the environment, last value winning |
| `Shell.EnvVarsAreExports` | src/main.rs:123-126 | the `env_vars` table evolves exactly like the process environment during a load |
| `Shell.LoadExports` | src/main.rs:123-126 | after a load the process environment is the old one overlaid with the loaded `env_vars` |
| `Shell.Startup` | src/main.rs:167-206 | after start-up the loop runs and PATH is `/bin:/usr/bin` whatever the rc file exported; the configuration is exactly the one loaded from `~/.rshrc` (aliases, functions, variables, both hook lists), its prompt kept when non-empty and otherwise replaced by the default; exactly one PATH-restricted child per start hook has run, in order |
| `Shell.StartupRunsStartHooks` | src/main.rs:200-206 | before the first prompt exactly the `func on_start` commands of `~/.rshrc` have run, once each, in file order |
| `Shell.StartupEnv` | src/main.rs:168-174 | the session's variables after start-up are the `env_vars` loaded from `~/.rshrc`, with PATH forced back |
| `Shell.Exit` | src/main.rs:226-235 | the `exit` built-in; no contract of its own; behaviour stated by `ExitRunsExitHooks`, `ExitRunsRcExitHooks` |
| `Shell.ChangeDir` | src/main.rs:236-242 | the `cd` built-in; no contract of its own; behaviour stated by `CdDefaultsToHome`, `CdSuccess`, `CdFailure`, `CdThenDelegate` |
| `Shell.Unalias` | src/main.rs:249-255 | the `unalias` built-in; no contract of its own; behaviour stated by `UnaliasRemoves`, `MissingArgument` |
| `Shell.ExportVar` | src/main.rs:256-267 | the `export` built-in; no contract of its own; behaviour stated by `ExportSets`, `ExportedPathIsNotUsed`, `MissingArgument` |
| `Shell.Source` | src/main.rs:273-288 | the `source` built-in; no contract of its own; behaviour stated by `SourceMerges`, `SourceIgnoresFile`, `SourceFileAbsent`, `MissingArgument` |
| `Shell.RunFunction` | src/main.rs:289-295 | the `func` built-in and `run_function`; no contract of its own; behaviour stated by `FuncRunsBody`, `MissingArgument` |
| `Shell.Delegate` | src/main.rs:296-308 | the fallback arm; no contract of its own; behaviour stated by `OtherLinesDelegated`, `CdThenDelegate` |
| `Shell.Dispatch` | src/main.rs:223-309 | the `match` on the first token; no contract of its own; behaviour stated by `DispatchExtends`, `ExitRunsExitHooks`, `CdSuccess`, `CdFailure`, `PrintingBuiltinsChangeNothing`, `UnaliasRemoves`, `ExportSets`, `SourceMerges`, `FuncRunsBody`, `OtherLinesDelegated` |
| `Shell.Step` | src/main.rs:218-225 | one pass over a line that was read; no contract of its own; behaviour stated by `StepDispatchesWords`, `BlankLineSkipped`, `StepExtends` |
| `Shell.Next` | src/main.rs:209-216 | one result of the line editor; no contract of its own; behaviour stated by `NextExtends`, `ExitRunsExitHooks` |
| `Shell.Session` | src/main.rs:208-311 | the read loop over a sequence of inputs; no contract of its own; behaviour stated by `SessionSnoc`, `SessionStops`, `SessionExtends`, `RunEnforcesPath`, `ExitRunsRcExitHooks` |
| `Shell.ExtendsTransitive` | src/main.rs:208-311 | the later-state relation composes |
| `Shell.SpawnKeepsPath` | src/main.rs:299-303 | appending children launched with the forced PATH keeps the PATH policy |
| `Shell.QuietBuiltinExtends` | src/main.rs:236-288 | `cd`, `help`, `alias`, `set`, `unalias`, `export` and `source` launch nothing and leave prompt and hooks alone |
| `Shell.LaunchingBuiltinExtends` | src/main.rs:226-308 | `exit`, `func` and any non-built-in line launch their children with the forced PATH |
| `Shell.DispatchExtends` | src/main.rs:223-309 | every built-in and the fallback only add children and messages, never change prompt or hooks, and keep the PATH policy |
| `Shell.StepExtends` | src/main.rs:218-309 | the same for one whole loop pass |
| `Shell.NextExtends` | src/main.rs:209-216 | the same for any result of the line editor |
| `Shell.SessionExtends` | src/main.rs:208-311 | over a whole session every child gets the minimal PATH, and prompt and hooks stay as start-up left them |
| `Shell.SessionStops` | src/main.rs:234 | nothing happens after the loop has ended |
| `Shell.RunEnforcesPath` | src/main.rs:167-311 | in a complete run every child process, hooks included, gets PATH=/bin:/usr/bin |
| `Shell.ExitRunsExitHooks` | src/main.rs:209-235 | `exit` runs each exit hook in order and ends the loop without touching the configuration; end of input ends it without running any |
| `Shell.BlankLineSkipped` | src/main.rs:218-221 | a line of whitespace only changes nothing |
| `Shell.CdDefaultsToHome` | src/main.rs:237 | `cd` without an argument is `cd ~` |
| `Shell.CdFailure` | src/main.rs:238-241 | a failing `cd` keeps the working directory, configuration and children and reports one `cd` error |
| `Shell.CdSuccess` | src/main.rs:236-240 | a `cd` the operating system accepts moves the session to the resolved directory and changes nothing else |
| `Shell.CdThenDelegate` | src/main.rs:236-240 | after a successful `cd DIR` the next delegated line's child starts in the resolved DIR, with the script and environment it would otherwise have had |
| `Shell.PrintingBuiltinsChangeNothing` | src/main.rs:243-248 | `help`, `alias` and `set`, with any arguments, leave the state unchanged |
| `Shell.UnaliasRemoves` | src/main.rs:249-255 | `unalias NAME` removes exactly NAME and nothing else changes; an absent NAME changes nothing, size included |
| `Shell.MissingArgument` | src/main.rs:249-295 | `unalias`, `export`, `source`, `func` without an argument append one message and change nothing else |
| `Shell.ExportSets` | src/main.rs:256-267 | `export` splits its first argument at the first `=` and sets that variable in `env_vars` and the environment; without `=` it reports invalid syntax and changes nothing else |
| `Shell.ExportedPathIsNotUsed` | src/main.rs:256-260 | after `export PATH=V` the session's PATH is V, yet the next delegated command gets `/bin:/usr/bin` |
| `Shell.SourceMerges` | src/main.rs:273-281 | `source` of an existing file overlays the freshly loaded aliases, functions and variables (loaded values win) and keeps prompt, hooks, directory, children and messages |
| `Shell.SourceIgnoresFile` | src/main.rs:274-278 | any two existing files given to `source` have the same effect: the loaded configuration is `~/.rshrc` |
| `Shell.SourceFileAbsent` | src/main.rs:282-284 | `source` of a missing file only reports it |
| `Shell.FuncRunsBody` | src/main.rs:289-291 | `func NAME` runs NAME's body once when defined and is a silent no-op otherwise |
| `Shell.OtherLinesDelegated` | src/main.rs:296-308 | a line whose first token is not a built-in is alias-expanded and delegated as one script, and nothing else changes |
| `Shell.StepDispatchesWords` | src/main.rs:218-225 | a line with no tokens is skipped; otherwise the verb and its arguments are the whitespace tokens of the line as typed, and the dispatched line is the input without its outer whitespace |
| `Shell.SessionSnoc` | src/main.rs:208-311 | one more input is one more loop pass unless the loop has ended |
| `Shell.ExitRunsRcExitHooks` | src/main.rs:167-235 | in any session from start-up that has not ended, typing `exit` runs the `func on_exit` commands of `~/.rshrc`, once each and in file order, and ends the loop |

## Left out

- `src/help.rs` prints a fixed text. `help` is modelled only as a built-in that changes no state.
- The readline editor, its history, the displayed prompt, and the hinter, highlighter and validator capabilities: these belong to a third-party library.
- Printing by `alias` and `set`: the output order follows `HashMap` iteration, which is unspecified. Both are modelled as changing no state.
- Real file-system behaviour: `Path::is_dir`, `parent`, `file_name`, `read_dir`, `exists`, `set_current_dir` and opening `~/.rshrc` are `World` parameters. A file that cannot be opened reads as having no lines. The lines are a finite list, with read errors already dropped as `flatten` drops them. A read error that keeps repeating is not modelled: `lines().flatten()` then never ends (for instance when `~/.rshrc` is a directory, opening succeeds and every read fails), so start-up and `source` hang, which the finite list cannot show.
- Running `sh -c`, the child's exit status and the "command failed" message on a launch failure: these are foreign process calls. Each launch is recorded as an `Effect`.
- `std::env::set_var` panics on an empty name or a NUL character, e.g. `export =x`. The model treats every export as succeeding.
- `dirs::home_dir` follows `$HOME`, and the session can change that with `export HOME=...`. The model keeps one fixed home directory for the whole session.
- The debug `println!`s of PATH, the unused `RshHelper` fields (`commands`, `aliases`) and the `builtins` list they are built from.
- `cd` errors: the message carries the operating system's error text, which the model does not have; the diagnostic is the bare `CdFailed`.
- `Completion.Complete`: the offsets are character offsets, not byte offsets, and `pos` is assumed to lie within the line, as rustyline guarantees.
