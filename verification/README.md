# cliff command registry, modelled in Dafny

cliff is a command-line launcher. It keeps user commands in a home directory,
and that directory holds three things:

- `entry.json` has `commands`, which maps a command key to its help text,
  examples and module path. It also has `dependenciesByCommand`, which maps a
  package name to the keys of the commands recorded as needing it.
- `package.json` is the manifest. It has `dependencies` and, optionally,
  `devDependencies`.
- The rest are command modules copied under `commands/`, plus a `.env` file of
  `KEY=VALUE` lines.

This project models the registry's operations as pure functions over an
abstract store (`Registry.Store`), and proves what each one does:

- **import** offers the commands of another folder that the home lacks, copies
  the chosen ones, stages every package they import whose version differs,
  records which command needs it, merges the staged versions into the
  manifest, sorts the commands, and says whether `npm i` must run. That is
  the import once its module scanner is corrected; as written it throws
  whenever a command is chosen (see below);
- **remove** deletes the chosen commands, takes their keys out of the
  reference lists, and prunes manifest entries nobody references any more;
- **reset** goes back to the factory state once confirmed;
- **dispatch** routes the command line to the `env` handler, a custom
  command, or the usage text;
- the `.env` reader and writer, the `env` command, and the help-table renderer.

Plain JavaScript objects whose key order shows in the output (`commands`,
`.env` entries) are `Records.Record`: a sequence of pairs with unique keys.
Objects whose order does not matter are Dafny maps. `undefined` is `None`.
A document on disk is `Doc`: missing, empty, malformed, or parsed.
`DEFAULT_PACKAGE_JSON` is not defined in any file modelled here, so it is the
parameter `default` of import and reset.

As written, import never gets to stage anything. `import.ts` imports `parse`
from `path` (line 2), not from `es-module-lexer` (line 18 imports only
`init`). So line 118 computes `path.parse(content)`, an object the `for ... of`
at line 120 cannot iterate. Any import of at least one command therefore
throws after the modules are copied, before either document is written. This
is modelled in `ImportCmd.AddCustomCommandsAsWritten` and
`ImportCmd.ImportCommandAsWritten` (see "## Findings").

The rest of the import model reads line 118 as the lexer's `parse`, which the
reads at lines 121-125 expect. The lexer itself is not modelled. The
specifiers the staging loop visits for a command are an input, `specs(key)`.
`ImportCommand` gets them by applying a `scan` function to the copied module
text.

Where the repository's files disagree with each other, the model follows
`packages/cli/src/commands/import.ts`. The older `addCustomCommands` in
`utils/command.ts` is modelled separately, as `CommandUtil.Legacy*`. It does
import the lexer's `parse`, but its loop (line 60) walks the lexer's whole
result instead of the import list, so it stages nothing.

Removing a command prunes a package only when its reference list runs empty.
A command imported while the home already had the same version of a package
is never added to that package's list (import.ts:129-134). So removing the
other commands can prune a package that a remaining command still imports.
`RemoveCmd.PrunedOnlyUnreferenced` states the guarantee that does hold: a
package is pruned only when every key in its reference list was removed.

## Model

| member | source | states |
|---|---|---|
| Strings.BelowIrreflexive | packages/cli/src/utils/command.ts:131 | no key sorts before itself |
| Strings.BelowTransitive | packages/cli/src/utils/command.ts:131 | the key order used by `sort()` is transitive |
| Strings.BelowTotal | packages/cli/src/utils/command.ts:131 | any two different keys are ordered one way or the other |
| Strings.JoinSplitOn | packages/cli/src/constants/env.ts:10 | joining the pieces of `split(c)` with `c` gives back the text |
| Strings.SplitOnJoin | packages/cli/src/commands/env.ts:45-47 | splitting a `join(c)` of pieces free of `c` gives back the pieces |
| Strings.SplitOnAppend | packages/cli/src/constants/env.ts:10 | splitting two texts joined by the separator splits each of them |
| Records.Put | packages/cli/src/commands/import.ts:112 | assignment sets the key, leaves every other key alone, keeps an existing key's place and appends a new key |
| Records.PutAll | packages/cli/src/commands/import.ts:111-112 | after the assignment loop, a key has the assigned value if there is one, and its old value otherwise |
| Records.Filter | packages/cli/src/commands/import.ts:33-40 | keeps exactly the pairs whose key passes, with their values, and keeps a sorted record sorted |
| Records.FilterKeepsOrder | packages/cli/src/commands/import.ts:33-40 | the kept pairs stay in the order of the record they came from |
| Records.Sort | packages/cli/src/utils/command.ts:129-136 | the result is sorted by key, with the same pairs and the same length |
| Records.SortSorted | packages/cli/src/utils/command.ts:129-136 | sorting an already sorted record changes nothing |
| Registry.TryOpen | packages/cli/src/utils/file.ts:3-9 | a missing or empty file is "nothing", malformed text is an error, and parsed text is the document |
| Registry.ReadJson | packages/cli/src/commands/import.ts:84-87 | succeeds exactly on a parsed document; a missing file is `NotFound`, empty or malformed text is `BadJson` |
| Registry.Overlay | packages/cli/src/commands/import.ts:148-151 | staged names take the staged version, a name staged as undefined disappears, other names keep the base version |
| CommandUtil.GetCustomCommandsFromFolder | packages/cli/src/utils/command.ts:9-18 | null exactly when `entry.json` is missing or empty, and an error exactly when it is malformed |
| CommandUtil.LongestCommandLength | packages/cli/src/utils/command.ts:87-89 | absent exactly for no keys; otherwise at least every key's length and equal to one of them |
| CommandUtil.ReorderCommands | packages/cli/src/utils/command.ts:129-136 | keys ascending, same key set, same value per key |
| CommandUtil.ReorderIdempotent | packages/cli/src/utils/command.ts:129-136 | reordering twice equals reordering once |
| CommandUtil.LegacyStage | packages/cli/src/utils/command.ts:50-69 | the older loop as intended, walking each module's import list: every non-relative specifier is staged with its source version, whatever the home pins |
| CommandUtil.LegacyAddCustomCommandsAsWritten | packages/cli/src/utils/command.ts:20-85 | as written: fails exactly when a document cannot be read; selected commands win, the home's other commands stay, the result is sorted, the references are kept, and `dependencies` become exactly the source folder's (`{}` when it has none) |
| CommandUtil.LegacyAddCustomCommands | packages/cli/src/utils/command.ts:20-85 | with line 60 walking the import list: fails also when the source manifest lacks `dependencies` and a selected module imports a package; selected commands win, the others stay, the result is sorted |
| CommandUtil.LegacyDiscardsHomeDependencies | packages/cli/src/utils/command.ts:71-74 | the corrected older import writes exactly the source folder's dependencies and drops the home's own |
| CommandUtil.LegacyCorrectionAgrees | packages/cli/src/utils/command.ts:57-74 | walking the import list changes only failures: when the corrected version succeeds, it writes what the code as written writes |
| CommandUtil.LegacyAsWrittenStagesNothing | packages/cli/src/utils/command.ts:60-66 | a module importing `lodash` from a folder whose manifest has no `dependencies`: as written the import succeeds with `dependencies` `{}`, and the corrected loop throws |
| ImportCmd.Candidates | packages/cli/src/commands/import.ts:28-40 | a candidate is a source command whose key is neither built-in nor already in the home; no source entry means no candidates |
| ImportCmd.Offer | packages/cli/src/commands/import.ts:25-42 | fails exactly when either entry document is malformed; otherwise offers exactly the source commands whose key is neither built in nor a command of the home, with their source descriptors |
| ImportCmd.Selected | packages/cli/src/commands/import.ts:44-73 | exactly the offered commands whose key was chosen, with their descriptors |
| ImportCmd.CopyModules | packages/cli/src/commands/import.ts:56-64 | fails exactly when a chosen module is missing in the source; copies each chosen module and touches no other path |
| ImportCmd.StageModule | packages/cli/src/commands/import.ts:120-145 | a differing package the module imports is staged with the source version and gets the key once per import; every other name is left alone |
| ImportCmd.StageCommands | packages/cli/src/commands/import.ts:111-146 | over all selected modules: staged exactly when some module imports a differing package, with the importing keys appended in selection order |
| ImportCmd.MentionsMembers | packages/cli/src/commands/import.ts:143 | the keys appended to a package's list are exactly the selected keys whose module imports it |
| ImportCmd.Load | packages/cli/src/commands/import.ts:84-104 | the source manifest must parse; a missing home manifest becomes the default and a missing entry becomes an empty one, neither an error |
| ImportCmd.AddCustomCommandsAsWritten | packages/cli/src/commands/import.ts:80-169 | as written (line 118 is `path.parse`): fails exactly when loading fails or any command is selected, with a `TypeError` in the second case; with nothing selected it stages and installs nothing and writes back the sorted commands, the references as they were, and the home's dependencies |
| ImportCmd.AsWrittenAgreesWithoutSelection | packages/cli/src/commands/import.ts:106-162 | with nothing selected, the code as written and the corrected import succeed together and agree whenever the entry already had `dependenciesByCommand` |
| ImportCmd.AddWithSelfAssignedReferences | packages/cli/src/commands/import.ts:100-143 | with line 118 corrected but line 109 as written: fails also when the entry lacks `dependenciesByCommand` while something is staged |
| ImportCmd.AddCustomCommands | packages/cli/src/commands/import.ts:80-169 | fails exactly when loading fails or a needed `dependencies` map is missing; selected commands win, the others stay, the result is sorted, and install runs iff something was staged |
| ImportCmd.ImportStaging | packages/cli/src/commands/import.ts:128-143 | a name is staged iff a selected module imports it and its versions differ; its list grows by the importing keys; other lists are unchanged |
| ImportCmd.ImportSkipsRelative | packages/cli/src/commands/import.ts:128 | a relative specifier is never staged and never recorded |
| ImportCmd.ImportSkipsPinned | packages/cli/src/commands/import.ts:129-134 | a name with the same version on both sides, absent from both included, is neither staged nor recorded |
| ImportCmd.ImportMergesDependencies | packages/cli/src/commands/import.ts:148-151 | written dependencies are the home's overridden by the staged ones; the rest of the manifest is unchanged |
| ImportCmd.ImportInstallsIffStaged | packages/cli/src/commands/import.ts:164-168 | `npm i` runs iff some selected module imports a package whose versions differ |
| ImportCmd.StageSynced | packages/cli/src/commands/import.ts:129-134 | when every imported package has the same version on both sides, nothing is staged or recorded |
| ImportCmd.ReaddStagesNothing | packages/cli/src/commands/import.ts:129-168 | reconciling the same commands again against what was written stages nothing, installs nothing and keeps the manifest |
| ImportCmd.SelfAssignedRejectsEntryWithoutReferences | packages/cli/src/commands/import.ts:109 | with line 118 corrected, importing a command that needs a new package into an entry without `dependenciesByCommand` throws; the corrected import succeeds |
| ImportCmd.AddAcceptsEntryWithoutReferences | packages/cli/src/commands/import.ts:100-109 | the corrected import treats a missing `dependenciesByCommand` as an empty one |
| ImportCmd.ImportCommand | packages/cli/src/commands/import.ts:21-77 | succeeds exactly when both entry documents parse or are absent, every module of a chosen offered command exists in the source folder, the manifests load, and no chosen module imports a package while a `dependencies` map is absent; the written entry is sorted, holds every chosen candidate with its source descriptor and every other home command unchanged; each chosen module is copied with the source text, and no other file changes |
| ImportCmd.ImportCommandInstalls | packages/cli/src/commands/import.ts:114-168 | after an import, `npm i` runs exactly when some chosen module, as copied, imports a package whose home version differs from the source's |
| ImportCmd.ImportCommandAsWritten | packages/cli/src/commands/import.ts:21-77 | as written: succeeds exactly when the documents load and no chosen key is offered; then it installs nothing and leaves the files and the commands as they were |
| ImportCmd.AsWrittenImportThrows | packages/cli/src/commands/import.ts:118-120 | as written, choosing any offered command throws a `TypeError` after every chosen module has been copied into the home |
| ImportCmd.AddNothing | packages/cli/src/commands/import.ts:111-168 | reconciling no commands stages and installs nothing and keeps the references and dependencies |
| ImportCmd.ImportWithoutSourceEntry | packages/cli/src/commands/import.ts:25-40 | with no source `entry.json` the import adds no command, copies nothing and installs nothing |
| ImportCmd.ReimportIsIdempotent | packages/cli/src/commands/import.ts:21-169 | importing again from the same folder with the same choice leaves the home exactly as it is and installs nothing |
| RemoveCmd.RemoveFirst | packages/cli/src/commands/remove.ts:66-73 | removes one occurrence of the key, as a multiset, and nothing when the key is absent |
| RemoveCmd.RemoveFirstSplices | packages/cli/src/commands/remove.ts:68-73 | the removed occurrence is the first one, and the rest keep their order |
| RemoveCmd.RemoveOne | packages/cli/src/commands/remove.ts:58-84 | fails exactly when the key is not a command |
| RemoveCmd.RemoveOneCommands | packages/cli/src/commands/remove.ts:56-61 | one iteration records the command's module path, drops exactly that command and keeps the commands sorted |
| RemoveCmd.RemoveOneReferences | packages/cli/src/commands/remove.ts:64-72 | one iteration takes one occurrence of the key out of every reference list and deletes no list |
| RemoveCmd.RemoveAllCommands | packages/cli/src/commands/remove.ts:57-62 | exactly the selected commands are gone, the others unchanged and still sorted |
| RemoveCmd.RemoveAllModules | packages/cli/src/commands/remove.ts:55-59 | every selected key must be a command, and their module paths are collected in selection order |
| RemoveCmd.RemoveAllReferences | packages/cli/src/commands/remove.ts:65-74 | every list loses the removed keys once each, as multisets; no list is deleted |
| RemoveCmd.PrunedStep | packages/cli/src/commands/remove.ts:75 | a list empties during the loop iff the removed keys account for all of its entries |
| RemoveCmd.RemoveAllManifest | packages/cli/src/commands/remove.ts:75-83 | both manifest maps, when present, lose exactly the names whose list the removed keys account for |
| RemoveCmd.PrunedOnlyUnreferenced | packages/cli/src/commands/remove.ts:65-84 | a package is pruned only when every key in its list was removed |
| RemoveCmd.RemoveCandidates | packages/cli/src/commands/remove.ts:14-17 | the candidates are the home's command keys, none without an entry document |
| RemoveCmd.RemoveCustomCommands | packages/cli/src/commands/remove.ts:41-53 | a missing manifest is a hard error for remove, with no default |
| RemoveCmd.RemoveDistinctSucceeds | packages/cli/src/commands/remove.ts:57-62 | removing distinct keys that are all commands never fails |
| RemoveCmd.SelectionRemovable | packages/cli/src/commands/remove.ts:29-37 | the chosen commands can always be removed, and the files deleted are exactly their modules |
| RemoveCmd.RemoveCommand | packages/cli/src/commands/remove.ts:13-38 | fails exactly on a malformed entry or a manifest that does not parse; deletes exactly the chosen modules |
| RemoveCmd.RemoveCommandCommands | packages/cli/src/commands/remove.ts:57-62 | chosen commands go, unchosen ones stay unchanged, sortedness is kept |
| RemoveCmd.RemoveCommandDocuments | packages/cli/src/commands/remove.ts:57-85 | emptied lists stay; packages are pruned exactly when their list is used up; every other dependency keeps its version |
| ResetCmd.ResetCommand | packages/cli/src/commands/reset.ts:8-29 | unconfirmed changes nothing; confirmed removes `entry.json` and `commands`, writes the default manifest, and keeps every other file |
| ResetCmd.ResetForgetsRegistry | packages/cli/src/commands/reset.ts:14-28 | the confirmed result does not depend on whether `commands` or `entry.json` existed |
| ResetCmd.ResetIdempotent | packages/cli/src/commands/reset.ts:14-28 | resetting twice equals resetting once |
| ResetCmd.ResetKeepsEnvironment | packages/cli/src/commands/reset.ts:14-28 | after a reset no custom command remains and the `.env` entries are unchanged |
| Help.PadEnd | packages/cli/src/utils/help.ts:8 | a key at least the width is unchanged; a shorter one is filled with spaces to the width |
| Help.RenderCommandHelpText | packages/cli/src/utils/help.ts:1-11 | empty input renders as the empty string |
| Help.RowsAligned | packages/cli/src/utils/help.ts:2-8 | every help text starts one column past the widest key, after spaces; a widest key gets no padding |
| Help.RenderedLines | packages/cli/src/utils/help.ts:5-10 | one line per row in input order; each row after the first is indented by four spaces |
| Env.EnvPair | packages/cli/src/constants/env.ts:12 | the key is the text before the first `=`, the value the text up to the second; no `=` means no value |
| Env.NonBlank | packages/cli/src/constants/env.ts:11 | keeps exactly the non-empty strings |
| Env.AddEntries | packages/cli/src/commands/env.ts:40-43 | the last entered value for a key wins, other keys keep theirs, and existing keys keep their order |
| Env.ReadEnv | packages/cli/src/constants/env.ts:6-13 | a missing `.env` gives no entries |
| Env.ParseEnvSkipsBlankLine | packages/cli/src/constants/env.ts:10-11 | a blank line changes nothing |
| Env.ParseEnvLaterLineWins | packages/cli/src/constants/env.ts:8-13 | a later line for a key decides its value |
| Env.WriteEnv | packages/cli/src/commands/env.ts:45-47 | no entries write the empty text |
| Env.WriteEnvLines | packages/cli/src/commands/env.ts:45-47 | the written text splits at its line breaks into exactly one `k=v` line per entry, in order, so there is no final line break |
| Env.EnvRoundTrip | packages/cli/src/commands/env.ts:45-47 | reading back what was written gives the same entries in the same order, for keys and values without `=` or line breaks |
| Env.DropSpaces | packages/cli/src/commands/env.ts:36 | drops exactly the leading whitespace run |
| Env.SplitInput | packages/cli/src/commands/env.ts:36 | no piece contains a comma followed by whitespace, and no piece after the first starts with whitespace |
| Env.SplitInputJoin | packages/cli/src/commands/env.ts:35-37 | pieces put together with separators, each a comma and a whitespace run, split back into exactly those pieces; a bare comma stays inside its piece |
| Env.SplitInputSeparators | packages/cli/src/commands/env.ts:35-37 | every entered text is its pieces put back together with separators, each a comma and a whitespace run |
| Env.EnvAdd | packages/cli/src/commands/env.ts:27-52 | writes `.env` and no other file |
| Env.EnvAddEntries | packages/cli/src/commands/env.ts:33-47 | after `env add`, entered keys read back with the last entered value and all other keys keep theirs |
| Env.EnvCommand | packages/cli/src/commands/env.ts:9-80 | `view` prints the file, or says none is set exactly when there is no `.env`; `add` writes what `EnvAdd` computes from the entered text; anything else prints the rendered `view`/`add` rows |
| Cli.HelpRows | packages/cli/src/cliff.ts:16-43 | the `env` row first, then one row per custom command in key order |
| Cli.Dispatch | packages/cli/src/cliff.ts:70-86 | `env` always goes to the env handler; a known custom key runs with the remaining args and env entries; help shows iff the name is not a row of the usage text |
| Cli.Run | packages/cli/src/cliff.ts:14-22 | fails exactly on a malformed entry document, and routes with the home's commands and env entries |
| Cli.RunWithoutEntry | packages/cli/src/cliff.ts:100-106 | without an entry document no custom command runs, and the usage lists `env` alone |

## Left out

- `es-module-lexer` is not modelled. For the corrected import and the corrected older import it is an input, `specs` or `scan`. Whatever it returns is taken to be exactly the specifiers the loop visits. With the lexer's `parse`, the read of `rawItem['0']` at import.ts:121 visits at most the first import of a module. A lexer error on invalid module text, and a dynamic `import()` whose specifier has no static name, are not modelled.
- Reading each selected module (import.ts:114-117, utils/command.ts:53-56) is not modelled as a failure. `ImportCommand` copies the module into the home before it is read.
- Dynamic `import()` of command modules (cliff.ts:24-37, utils/command.ts:91-126) is left out. A custom command is just its registry entry, so a module that fails to load is not modelled.
- Real I/O is not modelled: reads, writes, copies, `mkdir`, `rm` and `execSync('npm i')`. The store is a map of paths to text. Install appears only as the `install` flag.
- `Promise.all` concurrency is not modelled. Import copies first and then reconciles. Partial failures are not modelled: a failing `fs.rm` of a missing module in remove, or a failing write.
- ImportCmd.ImportCommandAsWritten: when a chosen module is missing from the source folder, the failure records the home's files as they were. The copies of the other chosen modules, which `Promise.all` does not cancel, are not recorded. When both the copy and the reconciliation fail, the model reports the copy's error.
- Help.PadEnd: pads by Dafny characters (code points), where `padEnd` counts UTF-16 code units. It differs only for keys with characters outside the Basic Multilingual Plane.
- CommandUtil.LongestCommandLength: measures keys in Dafny characters (code points), where `.length` counts UTF-16 code units. It differs only for keys with characters outside the Basic Multilingual Plane.
- The interactive prompts (`checkbox`, `confirm`, `input`) and `meow` argument parsing are inputs: the chosen key set, a confirmation flag, the entered text, and the argument list. Path resolution (`path.join`, `isAbsolute`, `relative`) is not modelled.
- Console output is not modelled. `view` and the usage texts are returned as values, and the fixed usage template around the rendered rows is left out.
- JSON shapes beyond those the operations rely on are not modelled. A document either parses into the modelled shape (optional `dependencies`, `devDependencies`, `dependenciesByCommand`) or is malformed.
- Keys inherited from `Object.prototype` (such as `constructor`) are not modelled, nor is the rule that integer-like keys come first in object key order.
- Strings.Below: compares Dafny characters (code points), not UTF-16 code units. It differs from `sort()` only for characters outside the Basic Multilingual Plane.
- RemoveCmd.RemoveCommand: lists removal as success even when a module file is already missing. The source's `fs.rm` would reject after the documents are written.
- The help text for the `import` built-in is not modelled. Only its key matters to candidate filtering.
- `DEFAULT_PACKAGE_JSON` is a parameter, because no modelled file defines it.
- Not modelled, as they have no logic of their own: the bundled duplicate `dist/cliff.js`, the superseded `commands/importCommand.ts`, the prototypes `cliff.mjs`, the publish script, `reset-home.mjs` and the example command `sum.mjs`.

## Findings

| source | as written | input that shows it | evidently intended | confidence | as-written member | corrected member |
|---|---|---|---|---|---|---|
| packages/cli/src/commands/import.ts:118-120 | Line 2 imports `parse` from `path`, so line 118 computes `path.parse(content)`. The `for ... of` at line 120 cannot iterate that object and throws a `TypeError` for the first selected command, after the modules are copied and before either document is written. | any import with at least one chosen command, whatever its module imports | line 118 calls `parse` from `es-module-lexer`, whose result the reads at lines 121-125 expect | high (not executed) | ImportCmd.AsWrittenImportThrows | ImportCmd.AddCustomCommands |
| packages/cli/src/commands/import.ts:109 | `entryJson.dependenciesByCommand = entryJson.dependenciesByCommand` assigns the field to itself. Once line 118 is corrected, an entry document without the field (the shape the older writer produces and `EntryJson` declares) reaches line 139 as `undefined[name]` and throws once a package is staged. | home `entry.json` is `{"commands": {}}`; home dependencies `{}`; source dependencies `{"eslint": "9"}`; one selected command whose module imports `eslint` | a missing `dependenciesByCommand` starts as `{}`, as the default entry at line 100 does | high (not executed) | ImportCmd.SelfAssignedRejectsEntryWithoutReferences | ImportCmd.AddAcceptsEntryWithoutReferences |
| packages/cli/src/utils/command.ts:60 | `for (const item of parsed)` walks the lexer's result, a tuple of the import list, the export list and flags. None of these has an `a` property, so no import is ever staged and line 65 never runs. | source manifest without `dependencies`; one selected command whose module imports `lodash`: the older import succeeds and writes `dependencies` `{}` | the loop walks the import list `parsed[0]` and stages every package import with the source folder's version | high (not executed) | CommandUtil.LegacyAsWrittenStagesNothing | CommandUtil.LegacyStage |
