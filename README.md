# apex task runner and helpers, modelled in Dafny

This project models the core of apex, a command-line tool that reads an
`apex.yaml` configuration, runs its tasks and generates code from templates.
The model covers eight parts:

- **The task graph executor** (`src/commands/run.ts`).
  - `parseTasks` turns each definition into a `Task`.
  - `runTasks` picks the default task.
  - The recursive `run` visits each name at most once per invocation, through the shared `hasRun` set, and runs a task's deps before its own commands.
  - A missing `generate` task falls back to the code-generation pipeline.
  - The `taskNotFoundError` flag decides whether another missing name throws.
  - The child environment is `apex_spec` plus the flattened `config`.
- **Tasks** (`src/task.ts`).
  - Constructor defaults.
  - Command normalisation: trim, trim every line, join the lines with a space.
  - Commands run in order and stop at the first non-zero exit with `RunError`.
  - Output capture, keyed by the joined line.
  - An unknown runner throws.
- **Configuration helpers** (`src/utils.ts`): `merge`, `mergeConfigurations`, `flatten` and `calulateVersions`.
- **Template helpers** (`src/init.ts`): `renderTemplate` replaces `{{ .key }}`, `processFile` handles `.tmpl` files, and `getUnresolved` coerces provided values and returns the definitions still lacking one.
- **The `--var key=value` parser** (`src/commands/utils.ts`).
- **The URL cache file** (`src/cache/file.ts`): `buf2hex`, the staleness policy, the cache and metadata paths, and `FileWrapper`'s choice between the cached copy and a fresh fetch.
- **The AStyle WASM bridge** (`src/astyle.ts`): NUL-terminated strings written to and read from linear memory, the buffer layout of `format`, and the WASI `syscall` errno mapping.
- **The asset map builder** (`src/asset_builder.ts`).

Parameters of the model:

- Subprocess execution is a function from a shell line and an environment to an exit code and output bytes.
- Loading a URL, rendering a template, SHA-256, the clock, file existence and the WASM `wastyle` call are parameters too.
- The console, shell lines and task bodies appear as an event trace.

JavaScript objects used as dictionaries are insertion-ordered records (`Records.Rec`). Configuration values are a JSON-like datatype with JavaScript truthiness (`Values`).

Modules:

| file | module | models |
|---|---|---|
| records.dfy | Records | Option, Byte, ordered records |
| strings.dfy | Strings | `trim`, `split`, `join`, `indexOf`, `startsWith`, number formatting |
| values.dfy | Values | configuration values, truthiness, `"" + v` |
| config_utils.dfy | ConfigUtils | src/utils.ts |
| task.dfy | Tasks | src/task.ts |
| run.dfy | Executor | src/commands/run.ts |
| template.dfy | Templates | src/init.ts |
| var_options.dfy | VarOptions | src/commands/utils.ts |
| cache_file.dfy | CacheFile | src/cache/file.ts |
| astyle.dfy | AStyle | src/astyle.ts |
| asset_builder.dfy | Assets | src/asset_builder.ts |

Where the code and its documentation disagree, the model follows the code:

- `parseTasks` has no `"name > dep"` shorthand.
- `mergeConfigurations` merges `tasks` as well as `config` and `generates`.
- A task defined as a list or a string gets the defaults.

## Model

| member | source | states |
|---|---|---|
| Records.Rec.Put | src/commands/utils.ts:20 | `obj[k] = v`: only `k` changes; an existing key keeps its position, a new key goes last; distinct listed keys are preserved |
| Records.Empty | src/asset_builder.ts:10 | `{}` has no keys |
| Records.OrEmpty | src/utils.ts:168-177 | `m \|\| {}` and the `= {}` default: the record itself when present, otherwise the empty record |
| Records.FromPairs | src/utils.ts:187-192 | `Object.fromEntries`: a well-formed record whose keys are exactly the pair keys |
| Records.FromPairsLastWins | src/utils.ts:187-192 | for a repeated key, `Object.fromEntries` keeps the last pair's value |
| Records.FirstOccurrences | src/utils.ts:187-192 | the distinct elements of a list: the same members as the list |
| Records.Position | src/utils.ts:187-192 | the index of the first occurrence of an element |
| Records.FirstOccurrencesOrder | src/utils.ts:187-192 | each element is listed once, in the order of first occurrence |
| Records.PositionPrefix | src/utils.ts:187-192 | an element's first occurrence in a prefix is its first occurrence overall |
| Records.FromPairsKeys | src/utils.ts:187-192 | `Object.fromEntries` lists each key once, at the position of its first pair |
| Strings.Trim | src/utils.ts:188 | `trim()` result starts and ends with a non-space and is no longer than its input |
| Strings.TrimInfix | src/utils.ts:188 | `trim()` removes exactly a leading and a trailing run of white space |
| Strings.TrimOfTrimmed | src/task.ts:50 | trimming a string without outer white space changes nothing |
| Strings.SkipSpaces | src/init.ts:174 | `\s*`: the first non-space at or after `i` |
| Strings.Split | src/task.ts:53 | `split("\n")`: at least one piece; no piece holds the separator; no separator means one piece |
| Strings.JoinSplit | src/task.ts:52-55 | joining the pieces of a split with the separator gives the text back |
| Strings.SplitJoin | src/task.ts:52-55 | splitting a join of separator-free pieces gives the pieces back |
| Strings.SplitAppend | src/cache/file.ts:145-152 | splitting `a + sep + b` splits `a` and `b` separately |
| Strings.Join | src/task.ts:55 | no contract of its own: `join(sep)` puts `sep` between consecutive pieces, `""` for no pieces; `JoinSplit` and `SplitJoin` state its round trips with `split` |
| Strings.IndexOfOrMinus | src/commands/utils.ts:10 | `indexOf`: -1 exactly when absent, otherwise the first occurrence |
| Strings.IndexOf | src/commands/utils.ts:10 | for a character that occurs, the index of its first occurrence: in range, holding the character, with none before it |
| Strings.IndexOfPrefix | src/commands/utils.ts:10 | the first separator in `p + sep + tail` is at `\|p\|` when `p` has none |
| Strings.IndexOfExtend | src/commands/utils.ts:10 | the first occurrence of a character in a prefix is its first occurrence overall |
| Strings.ToLowerAscii | src/init.ts:201 | `toLowerCase()` maps every character and keeps the length |
| Strings.StartsWith | src/asset_builder.ts:18 | no contract of its own: `startsWith(prefix)` holds exactly when `prefix` is no longer than the text and equals its first characters |
| Strings.EndsWith | src/asset_builder.ts:44 | no contract of its own: `endsWith(suffix)` holds exactly when `suffix` is no longer than the text and equals its last characters |
| Strings.Contains | src/asset_builder.ts:15 | no contract of its own: `indexOf(sub) != -1` holds exactly when `sub` occurs at some position of the text |
| Strings.NatToString | src/utils.ts:212 | the decimal form of an index: at least one character, all digits, with a leading `0` only for 0 |
| Strings.NatToStringValue | src/utils.ts:212 | the decimal text of an index reads back as that index |
| Values.UnsetIsFalsy | src/utils.ts:195-196 | null, undefined and `""` are falsy; `0` and `false` are the only falsy values `merge` treats as set |
| Values.Truthy | src/init.ts:171 | no contract of its own: `!!value` is false exactly for undefined, null, `false`, `0` and `""`; `UnsetIsFalsy` relates it to `merge`'s unset test |
| Values.Lookup | src/init.ts:191 | `obj[k]`: undefined for an absent key, the stored value otherwise |
| Values.ArrayElementStrings | src/utils.ts:222 | an array's `toString` shows null and undefined elements as empty text |
| Values.ToJsString | src/init.ts:178 | no contract of its own: `"" + v` gives `undefined`, `null`, `true`/`false`, the decimal form of a number, a string itself, an array's elements joined with `,`, and `[object Object]` |
| ConfigUtils.Configuration.constructor | src/config.ts:5-9 | a configuration holds `spec`, `config`, `generates` and `tasks` as given |
| ConfigUtils.TrimKeys | src/utils.ts:187-192 | the trimmed-key copy is a well-formed record |
| ConfigUtils.TrimmedPairs | src/utils.ts:188 | each entry becomes `[k.trim(), v]`, in order |
| ConfigUtils.TrimKeysKeys | src/utils.ts:187-192 | a key is in the trimmed record exactly when it trims from some original key |
| ConfigUtils.TrimmedKeys | src/utils.ts:188 | the record's keys, each trimmed, in the record's order |
| ConfigUtils.TrimKeysOrder | src/utils.ts:187-192 | the trimmed-key copy lists each trimmed key once, where it first appears; a later duplicate replaces the value but not the position |
| ConfigUtils.TrimKeysIdentity | src/utils.ts:187-192 | a record with trimmed keys is unchanged by trimming |
| ConfigUtils.TrimIdempotent | src/utils.ts:188 | trimming twice equals trimming once |
| ConfigUtils.MergePrefixKeys | src/utils.ts:193-200 | after the first `n` addon keys, the base keys stay first and in order, and a key is present exactly when it is in the base or among those addon keys |
| ConfigUtils.MergePrefix | src/utils.ts:193-200 | no contract of its own: the state of `trimmedBase` after the loop has visited the first `n` addon keys; `MergePrefixKeys`, `MergePrefixFills`, `MergePrefixUntouched` and `MergePrefixKeepsSet` state what it holds |
| ConfigUtils.MergePrefixValid | src/utils.ts:193-200 | every pass of the loop keeps the record well formed: keys listed once, exactly the listed keys have values |
| ConfigUtils.MergePrefixFills | src/utils.ts:194-198 | an addon value is copied where the base value is null, undefined or `""` |
| ConfigUtils.MergePrefixUntouched | src/utils.ts:193-200 | a key the addon does not hold keeps its base value |
| ConfigUtils.MergePrefixKeepsSet | src/utils.ts:194-199 | a base value that is set, including `0` and `false`, is never replaced |
| ConfigUtils.MergeStepAt | src/utils.ts:194-199 | one addon key: the base keys stay first, the key becomes present, other keys keep their values, an unset value is filled and a set one kept |
| ConfigUtils.MergeStep | src/utils.ts:194-199 | one pass keeps the record well formed; what it changes is stated by `MergeStepAt` |
| ConfigUtils.MergeAll | src/utils.ts:193-200 | the whole loop yields a well-formed record; `MergeAllAt` states its keys and values |
| ConfigUtils.MergeAllAt | src/utils.ts:193-200 | the whole loop: keys are base plus addon; unset base values are filled, set ones kept |
| ConfigUtils.MergedKeyOrder | src/utils.ts:182-202 | the merged record's keys are the base's trimmed keys in the base's order, followed by the addon's trimmed keys that the base lacks, in the addon's order |
| ConfigUtils.MergeAllKeyOrder | src/utils.ts:193-200 | the loop over the addon's keys keeps the base's keys first and appends each new key in turn |
| ConfigUtils.MergePrefixKeyOrder | src/utils.ts:193-200 | after the first `n` addon keys, the keys are the base's followed by those of the first `n` that the base lacks |
| ConfigUtils.NewKeys | src/utils.ts:193-200 | the keys of a list that are not already present: exactly its members outside `seen` |
| ConfigUtils.Merged | src/utils.ts:182-202 | `merge(base, addon)` is a well-formed record; `Merge`, `MergeAllAt` and `MergedKeyOrder` state its contents and key order |
| ConfigUtils.Merge | src/utils.ts:182-202 | `merge` loop result equals `Merged`; its keys are the trimmed base keys and the trimmed addon keys |
| ConfigUtils.MergedKeysTrimmed | src/utils.ts:186-192 | every key of a merge result is trimmed |
| ConfigUtils.MergedIdempotent | src/utils.ts:182-202 | merging the same addon a second time changes no value |
| ConfigUtils.MergeConfigurations | src/utils.ts:163-180 | `base` is mutated and returned; `config`, `generates` and `tasks` each become the merge of the two, an absent map taken as `{}`; `spec` is unchanged |
| ConfigUtils.Flatten | src/utils.ts:204-224 | no contract of its own: null and undefined give `{prefix: ""}`, a string itself, an array or object the union of its elements' variables under `prefix_index` or `prefix_key`, any other scalar its `toString`; `FlattenScalar` and `FlattenPrefixed` state its shape |
| ConfigUtils.FlattenItems | src/utils.ts:209-214 | no contract of its own: the array loop after its first `n` elements, a later element's variables replacing an earlier one's; `FlattenItemsLastWins` states the collision rule |
| ConfigUtils.FlattenEntries | src/utils.ts:215-220 | no contract of its own: the object loop after its first `n` entries, in entry order; `FlattenEntriesLastWins` states the collision rule |
| ConfigUtils.FlattenScalar | src/utils.ts:205-208 | null and undefined give `{prefix: ""}`, a string `{prefix: s}`, any other scalar `{prefix: toString}` |
| ConfigUtils.FlattenPrefixed | src/utils.ts:204-224 | every key `flatten` produces starts with the prefix, and with `prefix_` for arrays and objects |
| ConfigUtils.FlattenItemsLastWins | src/utils.ts:209-213 | on a key collision among array elements, the later element's value wins |
| ConfigUtils.FlattenEntriesLastWins | src/utils.ts:215-219 | on a key collision among object entries, the later entry's value wins |
| ConfigUtils.VersionFromShape | src/utils.ts:51-60 | a version found is `v<digit>...`, holds no `/`, and `"@" + version + "/"` occurs in the URL |
| ConfigUtils.VersionOfWellFormed | src/utils.ts:51-60 | for `pre@vN.../rest` with no `@` in `pre`, the captured version is exactly `vN...` |
| ConfigUtils.VersionFromSkips | src/utils.ts:51-55 | the search starts at the first `@` |
| ConfigUtils.MatchAt | src/utils.ts:51 | no contract of its own: a match of `/@(v[0-9][.0-9a-zA-Z\-_^\/]*?)\//` starting at `i` exists exactly when `@v`, a digit and a later `/` follow, with only class characters up to that first `/`; the capture is the text from `v` to it |
| ConfigUtils.VersionFrom | src/utils.ts:51-55 | no contract of its own: `exec` searching from `i`; `VersionFromNone`, `VersionFromLeftmost` and `VersionFromShape` state what it returns |
| ConfigUtils.VersionFromNone | src/utils.ts:51-55 | `exec` finds nothing exactly when no position from `i` on starts a match |
| ConfigUtils.VersionFromLeftmost | src/utils.ts:51-55 | `exec` returns the leftmost match: no position before `FirstMatch` starts one, and the result is the match there, or none when no position does |
| ConfigUtils.VersionOf | src/utils.ts:55 | no contract of its own: `exec` over the whole URL, the search from index 0 |
| ConfigUtils.WithVersion | src/utils.ts:46-61 | name and URL unchanged; a template with a non-empty version is untouched; one without takes the version its URL names when there is one, and stays as it was when there is none |
| ConfigUtils.CalculateVersions | src/utils.ts:45-63 | same keys; name and URL unchanged; a template with a version is untouched; every other template gets the version its URL names, or stays as it was when the URL names none |
| Tasks.Field | src/task.ts:32-35 | a definition that is not an object has no fields |
| Tasks.EntryValue | src/task.ts:32-35 | a missing field is undefined; a field's last entry decides its value |
| Tasks.StringsOf | src/task.ts:33-34 | a list field gives one string per element; anything else gives none |
| Tasks.BuiltFromEmpty | src/task.ts:31-36 | an empty definition gives runner `dax`, no deps, no commands and description `""` |
| Tasks.BuiltFromCmds | src/task.ts:31-36 | a definition with only `cmds` keeps those commands, an empty list included, and the other defaults |
| Tasks.Task.constructor | src/task.ts:31-36 | each field is the definition's when truthy, otherwise its default |
| Tasks.Task.Trace | src/task.ts:44-76 | running shows only echoes and shell lines, and nothing at all for an unknown runner |
| Tasks.Task.Run | src/task.ts:38-77 | dax runner: commands run in order; the first non-zero exit fails with `RunError(code)`; otherwise the capture record, empty without capture. Any other runner fails with `unknown runner` |
| Tasks.RunCommand | src/task.ts:50-72 | one command: the joined line is executed; echoed only without capture and quiet; captured as `output[joined] = {cmd, output}` |
| Tasks.TrimAll | src/task.ts:54 | every line is trimmed, in order |
| Tasks.JoinAvoids | src/task.ts:52-55 | a join of newline-free pieces with a space holds no newline |
| Tasks.NormalizeSingleLine | src/task.ts:50-55 | the executed line never holds a newline |
| Tasks.NormalizeOneLine | src/task.ts:50-55 | a one-line, already trimmed command is executed as written |
| Tasks.Normalize | src/task.ts:50-55 | no contract of its own: trim, split at newlines, trim each line, join with one space; `NormalizeSingleLine` and `NormalizeOneLine` state its properties |
| Tasks.PrepareAll | src/task.ts:49-55 | each command gets its trimmed text and its joined line, in order |
| Tasks.FirstFailure | src/task.ts:49-72 | the commands before it exit 0; it exits non-zero, if any does |
| Tasks.CmdEvents | src/task.ts:62-65 | running commands shows only echoes and shell lines |
| Tasks.CmdEventsStep | src/task.ts:49-66 | one more command appends exactly its own events |
| Tasks.FirstFailureStep | src/task.ts:67-72 | a zero exit lets the next command run; a non-zero one is the failure, and nothing after it runs |
| Tasks.CmdEventsEchoed | src/task.ts:61-65 | without capture and quiet, each command is echoed, then executed |
| Tasks.CmdEventsSilent | src/task.ts:58-65 | with capture or quiet, the commands are executed without echo |
| Tasks.CapturePairs | src/task.ts:58-60 | each captured command gives `(joined, {cmd: trimmed, output})` |
| Tasks.Captured | src/task.ts:42-60 | the capture record is well formed |
| Tasks.CapturedAt | src/task.ts:60 | the last command with a given joined line decides its entry |
| Tasks.CapturedKeys | src/task.ts:60 | the capture keys are exactly the joined lines run |
| Tasks.CapturedStep | src/task.ts:60 | capturing one more command is one `output[joined] = ...` |
| Executor.ParseTasks | src/commands/run.ts:68-80 | `config.tasks \|\|= {}`; one task per key, same keys in order, each built from its definition; a `null` definition throws |
| Executor.BuildTasks | src/commands/run.ts:72-79 | the loop builds exactly `Builds(defs, r)` |
| Executor.BuiltPut | src/commands/run.ts:76 | storing the next task extends the map by exactly that key |
| Executor.BuildsBad | src/commands/run.ts:75-76 | the first `null` definition is the one that throws |
| Executor.BuildsAll | src/commands/run.ts:74-79 | with no `null` definition, the full map is the result |
| Executor.Builds | src/commands/run.ts:68-80 | no contract of its own (a specification): a task map with the definitions' keys in order, each task built from its definition, exactly when no definition is `null`; otherwise the first `null` key in key order |
| Executor.LoadTasks | src/commands/run.ts:82-90 | the generated configuration is merged into `config`, which is left as `Loaded` of its former state and the generated one; then its tasks are parsed |
| Executor.TaskEnvSpec | src/commands/run.ts:149-152 | the environment is `apex_spec = spec` plus exactly the entries of `flatten("apex_config", config)` |
| Executor.TaskEnv | src/commands/run.ts:149-152 | no contract of its own: `apex_spec` then the flattened configuration; `TaskEnvSpec` states that the two parts never collide |
| Executor.Visit | src/commands/run.ts:124-143 | `run` marks its name and only adds to `hasRun` and to what has happened |
| Executor.VisitFound | src/commands/run.ts:145-154 | deps, then the body, only add to `hasRun` and to what has happened |
| Executor.VisitDeps | src/commands/run.ts:145-147 | the deps loop only adds to `hasRun` and to what has happened |
| Executor.VisitMemo | src/commands/run.ts:124-128 | memoisation: every body started belongs to a defined, marked name, and no body starts twice |
| Executor.FoundMemo | src/commands/run.ts:145-154 | memoisation holds across a defined task's deps and body |
| Executor.DepsMemo | src/commands/run.ts:145-147 | memoisation holds across the deps loop |
| Executor.VisitOrder | src/commands/run.ts:116-155 | on an acyclic graph, a successful `run` starts every body after the bodies of all its defined deps |
| Executor.FoundOrder | src/commands/run.ts:145-154 | a defined task's body starts after all its defined deps' bodies |
| Executor.FinishOrder | src/commands/run.ts:154 | starting a body whose deps have all started keeps deps-first order |
| Executor.DepsOrder | src/commands/run.ts:145-147 | after a successful deps loop, every defined dep's body has started |
| Executor.VisitLenient | src/commands/run.ts:138-142 | with `taskNotFoundError` off, `run` never fails with `task not defined` |
| Executor.DepsLenient | src/commands/run.ts:145-147 | with `taskNotFoundError` off, the deps loop never fails with `task not defined` |
| Executor.VisitBodyLast | src/commands/run.ts:145-154 | a successful first visit of a defined task ends with its own body, after everything its deps did |
| Executor.VisitMissing | src/commands/run.ts:128-143 | a missing name other than `generate` is marked and nothing runs; strict mode fails with `task not defined: name`, lenient mode succeeds |
| Executor.VisitGenerate | src/commands/run.ts:131-136 | a missing `generate` emits the banner and runs the generator; the visit fails exactly when the generator does, with its reason, in either mode |
| Executor.VisitUndefinedOnly | src/commands/run.ts:124-147 | `task not defined` is thrown only in strict mode, for a name neither defined nor `generate` |
| Executor.DepsUndefinedOnly | src/commands/run.ts:145-147 | the same for the deps loop |
| Executor.Invocation.constructor | src/commands/run.ts:109 | `hasRun` starts empty |
| Executor.Invocation.Run | src/commands/run.ts:116-155 | the recursive method does what `Visit` describes, on the shared `hasRun` |
| Executor.Invocation.RunFound | src/commands/run.ts:145-154 | deps then body, as `VisitFound` describes |
| Executor.Invocation.RunDeps | src/commands/run.ts:145-147 | the deps loop, as `VisitDeps` describes |
| Executor.Invocation.RunRoots | src/commands/run.ts:111-113 | the roots in order, as `VisitAll` describes |
| Executor.RunRootsFresh | src/commands/run.ts:109-113 | a fresh `hasRun` and the loop over the roots give exactly the walk `VisitAll` from an empty state |
| Executor.Roots | src/commands/run.ts:99-102 | with no requested tasks, only the first key of the task map, if any |
| Executor.RunTasks | src/commands/run.ts:92-114 | strict with nothing to run: logs `no tasks defined` and runs nothing; otherwise the result is the roots visited in order from an empty `hasRun`, stopping at the first failure; each body at most once, only for defined names; `task not defined` only in strict mode for a name neither defined nor `generate`; a strict run whose first root is such a name fails with `task not defined` for it before anything runs; a missing `generate` root runs the generator and fails only with its failure; on an acyclic graph, a successful run starts every defined root, each after its deps (the order among roots and among deps is stated by `AllInOrder` and `DepsInOrder`) |
| Executor.VisitAll | src/commands/run.ts:111-113 | every root is marked after a successful loop |
| Executor.AllProps | src/commands/run.ts:109-113 | the properties of `RunTasks` for the whole root loop, from an empty `hasRun` |
| Executor.AllMemo | src/commands/run.ts:109-113 | memoisation holds across roots, including repeated roots |
| Executor.AllOrder | src/commands/run.ts:111-113 | deps-first order holds across roots |
| Executor.AllLenient | src/commands/run.ts:111-113 | with `taskNotFoundError` off, no root fails with `task not defined` |
| Executor.AllUndefinedOnly | src/commands/run.ts:111-113 | across roots, `task not defined` only in strict mode for a name neither defined nor `generate` |
| Executor.AllStops | src/commands/run.ts:111-113 | once a root's visit fails, no later root is visited: the whole loop's result is the one at the failure |
| Executor.AllOne | src/commands/run.ts:111-113 | a loop over a single root is the visit of that root |
| Executor.AllSplit | src/commands/run.ts:111-113 | the loop over the roots is the loop over its first `k` roots and then, when that part succeeds, the loop over the rest from the state it leaves: each root's visit finishes before the next one begins |
| Executor.DepsAsAll | src/commands/run.ts:145-147 | the loop over a task's deps from the `i`-th on is the same walk as the loop over the roots, applied to those deps |
| Executor.AllInOrder | src/commands/run.ts:111-113 | roots run in their listed order: for `a < b`, when the `a`-th root is defined and unmarked at its turn and the `b`-th has not been reached when that visit ends, every start of the `b`-th root's body in a successful loop comes after the `a`-th root's body has started |
| Executor.DepsInOrder | src/commands/run.ts:145-147 | deps run in their listed order: the same statement for the `a`-th and `b`-th deps of a task |
| Executor.FirstRoot | src/commands/run.ts:124-143 | the first root decides the walk when it is missing: strict mode fails with `task not defined` for it before anything runs; a missing `generate` emits the banner first, and the generator's failure ends the walk there |
| Executor.Strict | src/commands/run.ts:62 | no contract of its own: a missing task is an error when there is one configuration or `failUndefined` is set; `RunConfiguration` and `Action` state both modes |
| Executor.Snap | src/config.ts:5-9 | the four fields of a configuration; it is well formed exactly when the configuration is |
| Executor.Loaded | src/commands/run.ts:82-90 | what `loadTasks` leaves: the spec kept and each map merged with the generated one; always well formed, with a task map |
| Executor.TasksOutcome | src/commands/run.ts:92-114 | no contract of its own: `no tasks defined` when strict with nothing to run, otherwise the walk `VisitAll` from an empty `hasRun` |
| Executor.PassOutcome | src/commands/run.ts:52-64 | no contract of its own: a `null` definition throws, listing runs nothing, otherwise `TasksOutcome` |
| Executor.PassOf | src/commands/run.ts:52-64 | no contract of its own: a pass over a loaded configuration parsed its tasks as `Builds` says and ended as `PassOutcome` says |
| Executor.RunLoaded | src/commands/run.ts:54-64 | the rest of a pass after loading ends exactly as `PassOf` says; in lenient mode no missing task is an error; in strict mode an undefined first requested task other than `generate` fails it; listing runs nothing |
| Executor.RunConfiguration | src/commands/run.ts:52-64 | one pass of the loop in `action`: the configuration is left as `Loaded` of its former state and the generated one, and the pass ends exactly as `PassOf` says for it: a `null` definition fails it; listing runs nothing; otherwise the outcome of `runTasks`; in lenient mode no missing task is an error; in strict mode a first requested task other than `generate` that the merged configuration does not define fails it |
| Executor.Folded | src/commands/run.ts:52-64 | no contract of its own: the loop over the passes' outcomes; traces one after another, ending at the first pass that throws, and after the first pass when listing |
| Executor.Traces | src/commands/run.ts:52-64 | no contract of its own: the passes' traces one after another |
| Executor.TracesFront | src/commands/run.ts:52-64 | the traces of a first pass and the rest are its trace then theirs |
| Executor.FoldedAppend | src/commands/run.ts:52-64 | after passes that all succeeded (and not listing, when there were any), one more pass decides the error, and its trace follows theirs |
| Executor.FoldedFirstError | src/commands/run.ts:52-64 | the loop ends with the error of the first pass that throws, with the traces of the passes up to it |
| Executor.FoldedAllSucceed | src/commands/run.ts:52-64 | when no pass throws, the loop succeeds with all the traces in order |
| Executor.PassAt | src/commands/run.ts:52-64 | no contract of its own: pass `j` ran on configuration `j` as it was on entry, as `PassOf` says for its loaded state |
| Executor.Passes | src/commands/run.ts:52-64 | no contract of its own: every recorded pass is as `PassAt` says |
| Executor.PassesAppend | src/commands/run.ts:52-64 | one more pass as `PassOf` says extends the record |
| Executor.Pass | src/commands/run.ts:52-64 | pass `i`: the record grows by this pass, and the configurations after it are left as they were; the lenient, strict and listing statements of `RunConfiguration` |
| Executor.LaterPasses | src/commands/run.ts:52-64 | the loop after a first pass that succeeded without listing: its result is `Folded` over the record, every recorded pass is as `PassOf` says, it stops early only at a pass that throws, and configurations it did not reach are as they were |
| Executor.Action | src/commands/run.ts:45-66 | the result is `Folded` over the passes it made, and every pass `j` loaded configuration `j` as it was on entry and ran as `PassOf` says; it stops early only after a pass that throws, or after the first when listing, leaving the later configurations as they were; with several configurations and no `failUndefined`, no missing task is an error; with one configuration or `failUndefined`, a first requested task other than `generate` that the merged first configuration does not define makes the run fail (`task not defined`, or the `null` definition that throws first); listing runs nothing |
| Templates.MatchLen | src/init.ts:174-177 | a match is at least as long as `{{.`, the key and `}}`, and lies within the text |
| Templates.MatchSound | src/init.ts:174-177 | every match is a placeholder for the key: `{{`, white space, `.`, the key, white space, `}}` |
| Templates.SlicesOfMatch | src/init.ts:174-177 | the matched text, cut at its parts, is a placeholder |
| Templates.MatchPrefix | src/init.ts:174-177 | a match depends only on the text it covers |
| Templates.MatchPlaceholder | src/init.ts:174-177 | a placeholder at the head of the text is matched whole |
| Templates.ReplaceLiteralPrefix | src/init.ts:176-179 | text without `{` passes through the replacement unchanged |
| Templates.ReplacePlaceholder | src/init.ts:176-179 | a placeholder is replaced by the value |
| Templates.ReplaceNoBrace | src/init.ts:176-179 | text without `{` is not changed |
| Templates.PlaceholderBraces | src/init.ts:174 | past its opening `{{`, a placeholder for a key without `{` holds no `{` |
| Templates.PlaceholderTail | src/init.ts:174 | the same, for the whole tail of the placeholder |
| Templates.NoCrossing | src/init.ts:174-179 | a match that starts before a `{{` ends at or before it |
| Templates.ReplaceSplit | src/init.ts:176-179 | the replacement works separately on either side of a point where `{{` begins |
| Templates.ReplaceAround | src/init.ts:176-179 | `t + placeholder + u` becomes `replace(t) + value + replace(u)` for any text on either side, braces and other placeholders included; the value is not scanned again |
| Templates.ReplaceInert | src/init.ts:176-179 | text in which no position starts a match is unchanged |
| Templates.OtherKeyNoMatch | src/init.ts:174-177 | a placeholder for one variable name is no match for another |
| Templates.ReplaceSkipsPlaceholder | src/init.ts:176-179 | replacing another variable copies a placeholder through unchanged |
| Templates.ReplaceOther | src/init.ts:176-179 | replacing another variable leaves a placeholder in place and works on either side of it |
| Templates.ReplaceAll | src/init.ts:174-179 | no contract of its own: `replaceAll` with the global regular expression, matches taken left to right without overlap; `ReplaceNoBrace`, `ReplaceAround`, `ReplaceInert` and `ReplaceOther` state its behaviour |
| Templates.RenderTemplate | src/init.ts:165-182 | the loop's result is `Render`: each key in order, over the previous output |
| Templates.Render | src/init.ts:165-182 | no contract of its own: every key of `data` in `Object.keys` order; `RenderAllFalsy`, `RenderNoBrace` and `RenderPlaceholder` state its behaviour |
| Templates.RenderKeys | src/init.ts:169-180 | no contract of its own: the keys taken in order, each over the previous output; `RenderFalsy`, `RenderKeysAppend` and `RenderKeysAround` state its behaviour |
| Templates.RenderKey | src/init.ts:170-179 | no contract of its own: a falsy value skips the key, a truthy one replaces its placeholders by `value.toString()`; `RenderOneKey` states the replacement |
| Templates.RenderFalsy | src/init.ts:171-173 | keys with falsy values leave the text unchanged |
| Templates.RenderAllFalsy | src/init.ts:169-181 | with only falsy values, the text is returned unchanged |
| Templates.RenderNoBrace | src/init.ts:169-181 | text without `{` renders to itself |
| Templates.RenderKeysAppend | src/init.ts:169-181 | the keys are processed one after another: any split of the key list composes |
| Templates.RenderKeysAround | src/init.ts:169-181 | the other variables render either side of a placeholder and leave it in place |
| Templates.RenderPlaceholder | src/init.ts:165-182 | in a record of several variables, a placeholder of the `i`-th truthy key is replaced by the value's string form, the text on either side rendered by the keys up to it, and the later keys applied to the result; braces elsewhere and other placeholders are allowed |
| Templates.RenderOneKey | src/init.ts:176-179 | a single truthy key replaces every placeholder for it by its value's string form |
| Templates.Extension | src/init.ts:154 | a non-empty extension is a suffix of the path, right after a `.` |
| Templates.ProcessFile | src/init.ts:148-163 | a `tmpl` path loses `.tmpl` and its contents are rendered; any other path is returned unchanged |
| Templates.Coerce | src/init.ts:195-203 | a provided value stays defined; types other than number and confirm are left unchanged |
| Templates.TypeOf | src/init.ts:195 | `variable.type \|\| "input"`: never empty; the given type when it is non-empty, otherwise `input` |
| Templates.Coerced | src/init.ts:190-207 | no contract of its own: the variables after each provided definition's value has been coerced, in definition order; `CoercedDefined`, `CoercedConfirm` and `UnchangedByOthers` state its behaviour |
| Templates.Unresolved | src/init.ts:190-207 | no more unresolved definitions than definitions |
| Templates.GetUnresolved | src/init.ts:184-208 | the loop's results are the `Unresolved` list and the `Coerced` variables |
| Templates.UnresolvedExactly | src/init.ts:190-207 | unresolved are exactly the definitions whose name has no value |
| Templates.CoercedDefined | src/init.ts:190-207 | coercion keeps the keys and never makes a value undefined or defined |
| Templates.CoercedConfirm | src/init.ts:200-202 | a provided confirm value becomes `("" + value).toLowerCase() == "true"` |
| Templates.UnchangedByOthers | src/init.ts:190-207 | a variable with no definition is left as it was |
| Templates.ConfirmIdempotent | src/init.ts:200-202 | coercing a confirm value twice equals coercing it once |
| VarOptions.ParseVar | src/commands/utils.ts:6-22 | no `=`: `ValidationError` with exit code 1 and the exact message; otherwise the text before the first `=` maps to the rest |
| VarOptions.ParseVarRoundTrip | src/commands/utils.ts:10-21 | parsing `key=value`, with no `=` in `key`, stores exactly that pair; the value may be empty or hold `=` |
| VarOptions.ParseVarFrame | src/commands/utils.ts:20-21 | only the parsed key changes; the key order is kept, a new key going last |
| VarOptions.CollectLastWins | src/commands/utils.ts:8-21 | across repeated options, the last occurrence of a key wins |
| VarOptions.CollectVars | src/commands/utils.ts:4-22 | the options fold into a map exactly when every occurrence holds `=`, and the map is well formed |
| VarOptions.CollectFirstError | src/commands/utils.ts:10-16 | the error reported is the one for the first occurrence without `=` |
| VarOptions.LastSplit | src/commands/utils.ts:10-11 | every occurrence holds `=` exactly when all but the last do and the last does |
| VarOptions.OtherKey | src/commands/utils.ts:18 | an option not starting with `key=` sets some other key |
| CacheFile.HexDigit | src/cache/file.ts:140 | a digit below 16 is a lower-case hexadecimal character |
| CacheFile.HexValue | src/cache/file.ts:140 | a lower-case hexadecimal character has a value below 16 that shows as that character |
| CacheFile.HexPair | src/cache/file.ts:140 | a byte shows as two digits, high nibble first, zero-padded |
| CacheFile.Buf2Hex | src/cache/file.ts:138-142 | `2n` lower-case hexadecimal characters |
| CacheFile.Buf2HexAt | src/cache/file.ts:138-142 | byte `i` shows at positions `2i` and `2i+1`, in byte order |
| CacheFile.Hex2Buf | src/cache/file.ts:138-142 | decoding halves the length |
| CacheFile.HexValueDigit | src/cache/file.ts:140 | a digit reads back as its value |
| CacheFile.Buf2HexRoundTrip | src/cache/file.ts:138-142 | decoding the hex gives the bytes back |
| CacheFile.Buf2HexInjective | src/cache/file.ts:138-142 | distinct buffers have distinct hex |
| CacheFile.CheckPolicyAsWritten | src/cache/file.ts:14-25 | as written: no birthtime gives `!strict`; a negative `maxAge` gives false; otherwise true exactly when the file is older than `maxAge` |
| CacheFile.CheckPolicyAsWrittenInverted | src/cache/file.ts:14-25 | as written, a two-minute-old file under a one-minute policy is kept and a brand-new one is refetched |
| CacheFile.CheckPolicy | src/cache/file.ts:14-25 | corrected: the same first two cases; otherwise true exactly when the file is at most `maxAge` old |
| CacheFile.CheckPolicyFresh | src/cache/file.ts:10-25 | a copy the corrected policy keeps is fresh; `RELOAD_POLICY` never keeps a copy with a birthtime; corrected and as-written agree except on the age comparison, which is inverted |
| CacheFile.HashOf | src/cache/file.ts:130-136 | the hash is lower-case hexadecimal |
| CacheFile.HashInput | src/cache/file.ts:131 | the digested text is the path, followed by `?` and `url.search` when there is a query (so `??` since `search` starts with `?`) |
| CacheFile.Scheme | src/cache/file.ts:148 | `protocol.slice(0, -1)`: the protocol without its last character, `""` for an empty protocol |
| CacheFile.Components | src/cache/file.ts:145-151 | the cache directory first; the namespace second exactly when it is given and non-empty; then the scheme, the host and the hash, last |
| CacheFile.JoinPath | src/cache/file.ts:152 | `join` never gives an empty path; with only non-empty components it is those components separated by `/` |
| CacheFile.Path | src/cache/file.ts:144-153 | the path ends with the extension of the URL's path and is longer than it; with a non-empty directory, scheme, host and hash it is the components joined by `/`, followed by that extension |
| CacheFile.Basename | src/cache/file.ts:152 | the last component holds no `/` |
| CacheFile.LastSegment | src/cache/file.ts:152 | the last segment holds no `/` |
| CacheFile.LastDot | src/cache/file.ts:152 | the last `.` before `i`, or -1 |
| CacheFile.Extname | src/cache/file.ts:152 | `extname` is empty or a `.`-led suffix of the last component |
| CacheFile.NonEmpty | src/cache/file.ts:152 | `join` drops empty components and keeps the rest in order |
| CacheFile.Metapath | src/cache/file.ts:155-158 | the cache path with `.metadata.json` appended |
| CacheFile.PathSplits | src/cache/file.ts:144-153 | for a directory that may hold `/`, the path splits into the directory's pieces, then the optional namespace, the scheme without `:`, the host, then the hash with the extension |
| CacheFile.JoinFront | src/cache/file.ts:152 | joining non-empty components gives the first, `/`, and the join of the rest |
| CacheFile.SplitTail | src/cache/file.ts:152 | a directory, `/` and slash-free components with the extension appended split into the directory's pieces and those components |
| CacheFile.JoinAppendLast | src/cache/file.ts:152 | appending the extension to a join extends its last component |
| CacheFile.FileWrapper.constructor | src/cache/file.ts:69-79 | fields as given; `metapath` starts as `""` |
| CacheFile.FileWrapper.Create | src/cache/file.ts:55-67 | a new wrapper whose hash and path are computed from the URL and namespace |
| CacheFile.FileWrapper.Remove | src/cache/file.ts:85-91 | `metapath` is computed only while it is `""`; the file and its metadata are deleted |
| CacheFile.FileWrapper.Get | src/cache/file.ts:118-127 | the cached copy exactly when the file exists and there is no policy or the (corrected) policy keeps it; otherwise a fetch |
| CacheFile.FileWrapper.GetAsWritten | src/cache/file.ts:118-127 | as written: the cached copy exactly when the file exists and there is no policy or `checkPolicy` as written holds, so a present copy older than a non-negative `maxAge` is served from the cache |
| CacheFile.FileWrapper.Decide | src/cache/file.ts:118-127 | the body of `get` for a given check: the cached copy, with its birth time, exactly when present and unpoliced or the check holds; otherwise the fetched file |
| AStyle.Written | src/astyle.ts:172-180 | the bytes at `pointer`, a 0 right after them, and nothing else changed |
| AStyle.WriteEncodedString | src/astyle.ts:172-180 | succeeds exactly when the string and its 0 fit, and memory becomes `Written`; a failed write changes nothing |
| AStyle.CString | src/astyle.ts:187-196 | the bytes from `pointer` up to, not including, the first 0 |
| AStyle.ReadString | src/astyle.ts:187-196 | the loop reads exactly `CString` |
| AStyle.ReadAfterWrite | src/astyle.ts:172-196 | reading back a written string without 0 bytes gives the string |
| AStyle.CStringUnique | src/astyle.ts:187-196 | any 0-free run ending in a 0 at `pointer` is what is read |
| AStyle.ReadUint32 | src/astyle.ts:182-185 | a value exactly when the offset is aligned and in range, below 2^32 |
| AStyle.EncodeUint32 | src/astyle.ts:182-185 | four little-endian bytes |
| AStyle.ReadUint32Encoded | src/astyle.ts:182-185 | reading an encoded value back at an aligned offset gives the value |
| AStyle.LayoutOf | src/astyle.ts:209-216 | `bufferSize = code+1 + options+1 + 4`; the result slot is at the base and the code right after it |
| AStyle.LayoutTiles | src/astyle.ts:209-216 | slot, code and options are adjacent, disjoint and fill the buffer exactly |
| AStyle.Prepared | src/astyle.ts:214-219 | writing the inputs changes no byte outside the code and options regions |
| AStyle.CodeIntact | src/astyle.ts:216-219 | writing the options after the code leaves the code and its terminating 0 in place |
| AStyle.PreparedHoldsInputs | src/astyle.ts:209-219 | after the two writes, code and options read back from their pointers |
| AStyle.Overlay | src/astyle.ts:221-225 | memory after the formatter: its bytes where it wrote, the old ones elsewhere |
| AStyle.Format | src/astyle.ts:198-238 | uninitialised: throws the `init()` message; otherwise the inputs are laid out, the formatter runs, and the result is read through the slot; an allocation, a slot or a result pointer beyond memory is a range error |
| AStyle.Collect | src/astyle.ts:182-196 | the result: a range error exactly when the slot or the pointer it holds is past the end of memory; unterminated exactly when no 0 follows the pointer; otherwise the string read at the pointer, with the formatter's success flag |
| AStyle.Finish | src/astyle.ts:221-237 | memory takes the formatter's writes and the result is read through the slot, as `Collect` describes |
| AStyle.Syscall | src/astyle.ts:46-107 | a return passes through; `ExitStatus` is rethrown; a non-Error throw gives 28; a named error gives its errno |
| AStyle.ErrnoTableAgrees | src/astyle.ts:30-104 | every named error maps to its own fixed errno, and no two names share one |
| AStyle.ErrnoInval | src/astyle.ts:59-104 | 28 exactly for `InvalidData` and unknown names; never success |
| AStyle.Errno | src/astyle.ts:59-104 | a thrown error's name never maps to success (0); `ErrnoTableAgrees` and `ErrnoInval` state the mapping |
| AStyle.ProcExit | src/astyle.ts:138-142 | `proc_exit` throws `ExitStatus(rval)` |
| AStyle.FdClose | src/astyle.ts:143-147 | `fd_close` returns success |
| Assets.LoadPath | src/asset_builder.ts:18-20 | a template's load path always starts with `./` |
| Assets.Key | src/asset_builder.ts:18-46 | a file's key is its load path; a template's key drops a trailing `.tmpl` |
| Assets.Stored | src/asset_builder.ts:40-47 | files store their bytes as loaded; templates store what the render gives, or its rejection |
| Assets.AddOne | src/asset_builder.ts:14-46 | a path holding `..` fails with `invalid path <path>`; a failed load or a rejected render fails with its message; any failure stores nothing |
| Assets.AddAll | src/asset_builder.ts:13-49 | the map only grows: the keys present before stay, in their order, and a well-formed map stays well formed |
| Assets.AssetsBuilder.constructor | src/asset_builder.ts:8-11 | the builder starts with an empty map |
| Assets.AssetsBuilder.AddFiles | src/asset_builder.ts:13-25 | the map and error are `AddAll` of the files |
| Assets.AssetsBuilder.AddTemplates | src/asset_builder.ts:27-49 | the map and error are `AddAll` of the rendered templates; a rejected render ends the call and keeps the earlier entries |
| Assets.AssetsBuilder.AddPaths | src/asset_builder.ts:14-24 | the loop processes paths in order and stops at the first failure |
| Assets.AssetsBuilder.GetAssets | src/asset_builder.ts:51-53 | returns the map |
| Assets.FailureSticks | src/asset_builder.ts:14-24 | after a failure, later paths are neither loaded nor stored |
| Assets.InvalidPathRefused | src/asset_builder.ts:15-17 | a `..` path fails before loading; what earlier paths stored remains |
| Assets.AddAllPresent | src/asset_builder.ts:14-24 | after a successful call, every path was valid and loaded, and its key is present |
| Assets.AddAllOthers | src/asset_builder.ts:23 | a key no path produces keeps its value |
| Assets.AddAllLastWins | src/asset_builder.ts:23 | the last path with a given key decides the stored bytes |
| Assets.KeyPrefixes | src/asset_builder.ts:18-20 | `addFiles` doubles a leading `./` and keeps other paths; `addTemplates` keys always start with `./` |

## Left out

- Subprocess execution is a function of the shell line and environment. Real processes, streaming output, exit codes outside an integer, and `dax` itself are not modelled.
- The console echo, the `no tasks defined` log and the `apex generate` banner appear only as trace events. Their formatting is not modelled.
- The code-generation pipeline (`fromConfigs`, plugins, `processPlugins`) is not modelled:
  - its outcome is a parameter of the run, None when it succeeds;
  - the configuration it generates is a parameter of `Action` and `LoadTasks`.
- Task definitions whose `deps` or `cmds` is truthy but not a list are not modelled: such a value gives no deps or commands here, where JavaScript would iterate the characters of a string.
- `Executor.TaskEnvSpec`: uses `spec` as given. This equals `config.spec || ""` because `spec` is always a string here; an absent `spec` is not modelled.
- JavaScript objects are insertion-ordered string records. Integer-like keys, which JavaScript orders first, and prototype keys are not modelled.
- Numbers are integers:
  - `parseFloat` of a number variable is a parameter;
  - `flatten`'s number `toString` is the integer's decimal text;
  - `checkPolicy` compares integer milliseconds, `now - then > maxAge * 1000`.
- `renderTemplate` treats each key literally. A key holding regular-expression metacharacters, and `$` patterns in a value, are not modelled. White space is the set JavaScript's `\s` and `trim` use.
- `Strings.ToLowerAscii`: lower-cases ASCII letters only, while `toLowerCase` also maps other scripts. This is enough for comparing with `"true"`.
- UTF-8 encoding and decoding (`TextEncoder`, `TextDecoder`, `decode` in `readString`) is not modelled. Strings in WASM memory, asset bytes and rendered templates are byte sequences or a render parameter.
- `fileExtension` and `extname` are external libraries. They are modelled as the text after the last `.` of the last path component.
- `resolve` and `URL` resolution are not modelled. The cache path is the joined components, and assets are keyed by their normalised path.
- `directory()`, SHA-256, the clock, file existence, `lstat` birthtimes, reading, fetching and deleting files are parameters. `FileWrapper.read`, `fetch` and `ensure` are not modelled.
- `CacheFile.HashInput`: keeps the doubled `?` of `url.search`, which already starts with `?`. It is modelled as written because it only affects which file name is used.
- Loading the WASM module (`init`) is not modelled. Neither are `alloc_buffer`, `free_buffer` and memory growth: the address `alloc_buffer` returns and the formatter's writes are parameters.
- `AStyle.ReadString`: requires a 0 byte at or after the pointer. Without one, the source loop never terminates, because `array[length]` past the end of the view is `undefined`, which is never `0`. `Format` reports that case as `Unterminated` instead; a pointer past the end is the `RangeError` of the view.
- The two other WASI stubs, `environ_sizes_get` and `environ_get`, always return success and are not modelled separately.
- `VarOptions.ParseVar`: returns the updated map instead of writing into `previous` and returning that same object. Aliasing of the map is not modelled.
- `Executor.Invocation`: `hasRun` is a field of one invocation, and the trace is kept beside it. The shared `Set` object is not aliased elsewhere.
- `Templates.GetUnresolved`: returns the coerced variables instead of mutating the caller's map in place.
- `ConfigUtils.CalculateVersions`: returns a new record of templates instead of assigning `tmpl.version` in place on the configuration's objects; aliasing of those objects is not modelled.
- `Executor.Action`: takes the configurations as distinct objects, as `parseConfigYaml` builds a fresh object for each document, and takes their entry states as ghost parameters `was` and `gens`.
- `Tasks.StringsOf`: turns every list element into text (null and undefined into `""`). In the source a non-string command makes `c.trim()` throw a `TypeError`, and a `null` dep is looked up under the key `"null"`, failing with `task not defined: "null"` in strict mode; neither is modelled.
- `CacheFile.Path`: `join` normalisation of `.` and `..` components and of repeated `/` in the directory is not modelled.
- The `--list` table rendering (`ui.objToTable`), watch mode, prompts and the CLI shell are not modelled.

## Findings

| source | as written | input that shows it | evidently intended | confidence | as-written member | corrected member |
|---|---|---|---|---|---|---|
| src/cache/file.ts:14-25 | `checkPolicy` returns `stale`, true when the file is older than `maxAge`. `get` (118-127) serves the cached copy when it returns true | birthtime 0, policy `maxAge` 60, now 120000 ms: a copy two minutes old under a one-minute policy is served from cache, while a copy made 0 ms ago is refetched | serve the cached copy while it is at most `maxAge` seconds old, and refetch once it is stale | high, not executed | CacheFile.CheckPolicyAsWritten, CacheFile.CheckPolicyAsWrittenInverted, CacheFile.FileWrapper.GetAsWritten | CacheFile.CheckPolicy, CacheFile.CheckPolicyFresh, CacheFile.FileWrapper.Get |
