# typehole: the hole registry and the array-root rewrite

typehole instruments TypeScript source with "typeholes". A typehole is a
recorder call that reports the runtime values flowing through an expression.
The extension keeps a registry of the typeholes it knows. For each typehole it
stores the samples received so far, and for each file the warnings shown.
When a sample arrives, the extension strips the array wrapper that the runtime
library puts around every sample's type text, renames the root to the user's
type alias, and writes the merged type back into the file.

This project models two parts of that in Dafny:

- **The registry** (`packages/extension/src/state.ts`), in `registry.dfy` and
  `reconcile.dfy`.
  - The registry is the class `Registry.Store`. Its field `state` holds the
    record, of type `HoleState.State`.
  - `setState` replaces the record and emits it as a "change" event. Each
    snapshot emitted is appended to the ghost log `changes`.
  - Each operation first builds a new record. That step is a pure function in
    `hole_state.dfy`, one function per record built in the source.
  - `onFileDeleted` and `onFileChanged` are loops that call the mutating
    helpers one after another. Their fold over the ids is specified by
    functions in `reconcile.dfy`, and the effect and idempotence lemmas there
    are proved about those functions.
  - The file's scan is the list of ids the parser finds in the new text. It is
    a parameter of `OnFileChanged`.
- **The sample handler's decisions** (`src/extension.ts`), in
  `sample_handler.dfy` and `text_replace.dfy`.
  - The alias lookup: a missing alias drops the sample.
  - The array-root rewrite.
  - The id of a new typehole, and `last`.
  - JavaScript's `includes`, `indexOf` and `replace` with a string pattern are
    modelled in `TextReplace`. The literal first-occurrence replacement is
    `ReplaceFirst`. `JsReplace` also expands the `$` patterns of the
    replacement text, as ECMAScript's GetSubstitution does.

Facts about the registry that follow from the code and are easy to miss:

- **Duplicate scanned ids.** An unknown id that a scan finds twice is created
  twice, so one id can have two holes (`Reconcile.DuplicateScanTwoHoles`).
- **Removal is not per file.** `removeTypehole` drops the holes with that id
  in every file, not only in the file being rescanned
  (`Reconcile.FileChangedOtherFiles`).
- **Idempotence holds for any scan.** Reconciling twice with the same scan
  changes nothing the second time, repeated ids included
  (`Reconcile.FileChangedIdempotent`).
- **Order.** The new holes are created first, in scan order. The vanished
  ones are then removed, in the order the registry knows them. The modelled
  snapshot log records that order.
- **Not every mutating call emits.** `addWarning` of a span that is already
  listed returns before `setState`, so nothing is emitted.

The sample handler follows the code too: `SampleHandler.OnTypeExtracted` hands
on the rewrite as JavaScript evaluates it, `$` patterns in the type name
included (see "## Findings").

The placeholder type of a new typehole goes to `last` of the rescanned file's
typeholes. When an existing typehole lies below the selection, that is the
existing one, not the new one (`SampleHandler.NewHoleIdIndexesNewHole`).

## Model

| member | source | states |
|---|---|---|
| HoleState.Initial | packages/extension/src/state.ts:11-16 | the record the extension starts with: counter 0, no warnings, no holes, no samples (its properties are stated by `HoleState.InitialValid`) |
| HoleState.InitialValid | packages/extension/src/state.ts:11-16 | the starting record is reachable, has no holes and a zero counter, and has no warnings and no samples for any key |
| HoleState.WarningsOf | packages/extension/src/state.ts:29-32 | a file without an entry has no warnings; otherwise its stored list |
| HoleState.SamplesOf | packages/extension/src/state.ts:52-54 | an id without an entry has no samples; otherwise its stored list |
| HoleState.AlreadyWarned | packages/extension/src/state.ts:36-38 | "some warning has the same start and the same end" holds exactly when the span is listed |
| HoleState.ClearedWarnings | packages/extension/src/state.ts:24-27 | the file's entry exists and is empty; every other file's warnings, the holes, the samples and the counter are unchanged |
| HoleState.WithWarning | packages/extension/src/state.ts:34-50 | afterwards the span is listed; if it was already listed, the record is unchanged; otherwise it is appended last; other files, holes, samples and counter are unchanged |
| HoleState.AddWarningSingleCopy | packages/extension/src/state.ts:34-50 | from a reachable record, adding a span keeps the record reachable, and after adding it twice the file lists it exactly once |
| HoleState.AddWarningIdempotent | packages/extension/src/state.ts:34-50 | adding the same span a second time changes nothing |
| HoleState.ClearedWarningsValid | packages/extension/src/state.ts:24-27 | clearing a file's warnings keeps the record reachable |
| HoleState.WithSample | packages/extension/src/state.ts:56-68 | the id's samples become the new sample followed by the old ones; every other id's samples, the holes, the warnings and the counter are unchanged |
| HoleState.WithoutSamples | packages/extension/src/state.ts:72-80 | the id gets an entry, and it is empty, whether or not it had one; other ids, holes, warnings and counter are unchanged |
| HoleState.WithHole | packages/extension/src/state.ts:82-90 | the hole is appended after all existing holes and the counter rises by exactly one; warnings and samples are unchanged |
| HoleState.DropAll | packages/extension/src/state.ts:98 | the `filter` of `removeTypehole`, for a list of ids: never more holes than before |
| HoleState.DropAllMembers | packages/extension/src/state.ts:98 | a hole survives the filter exactly when it was there and its id is not one of those removed |
| HoleState.WithoutHole | packages/extension/src/state.ts:92-101 | every hole with the id goes, in any file, by the filter; the id's samples are cleared; other ids' samples, the warnings and the counter are unchanged |
| HoleState.FindHole | packages/extension/src/state.ts:143-145 | `None` exactly when no hole has the id; a found hole is in the list and has the id |
| HoleState.FindHoleFirst | packages/extension/src/state.ts:143-145 | `find` returns the hole at the first index carrying the id |
| HoleState.FindHoleAfterAppend | packages/extension/src/state.ts:82-90 | after a hole is created, `getHole` of its id finds it, unless an earlier hole already had that id, which is then still the one found |
| Registry.Store.constructor | packages/extension/src/state.ts:11-16 | the store starts with the initial record, reachable, and with nothing emitted |
| Registry.Store.GetState | packages/extension/src/state.ts:108-110 | the current record |
| Registry.Store.GetNextAvailableId | packages/extension/src/state.ts:20-22 | the counter, which for a reachable record is never below the number of holes |
| Registry.Store.GetWarnings | packages/extension/src/state.ts:29-32 | the file's warnings, none for an unknown file; in a reachable record no span is listed twice |
| Registry.Store.GetSamples | packages/extension/src/state.ts:52-54 | the id's samples, the empty list for an id without an entry |
| Registry.Store.GetHole | packages/extension/src/state.ts:143-145 | the first hole with the id; none exactly when no hole has it |
| Registry.Store.SetState | packages/extension/src/state.ts:103-106 | given a reachable record, the record becomes that one, stays reachable, and exactly that snapshot is emitted once, after all earlier ones |
| Registry.Store.ClearWarnings | packages/extension/src/state.ts:24-27 | the record becomes the cleared one, one snapshot is emitted, and reachability is kept |
| Registry.Store.AddWarning | packages/extension/src/state.ts:34-50 | the record becomes the one with the span listed once; a snapshot is emitted only when the span was new; reachability is kept |
| Registry.Store.AddSample | packages/extension/src/state.ts:56-70 | the returned list is exactly the stored one: the new sample first, then the old ones; one snapshot is emitted and nothing else in the record changes |
| Registry.Store.CreateTypehole | packages/extension/src/state.ts:82-90 | the hole is appended and the counter rises by one; one snapshot is emitted |
| Registry.Store.RemoveTypehole | packages/extension/src/state.ts:92-101 | the holes with the id go and its samples are cleared; one snapshot is emitted |
| Registry.Store.OnFileDeleted | packages/extension/src/state.ts:112-116 | the file's holes are removed by id one at a time, with one snapshot per removal; afterwards no hole names the file |
| Registry.Store.CreateUnknown | packages/extension/src/state.ts:128-134 | every scanned id the file did not know is created, in scan order, repeats included, with one snapshot each |
| Registry.Store.RemoveVanished | packages/extension/src/state.ts:135-140 | every known id missing from the scan is removed, in known order, with one snapshot each |
| Registry.Store.OnFileChanged | packages/extension/src/state.ts:118-141 | the record becomes the reconciled one and the snapshots are the creations followed by the removals; as sets, the file's known ids are the scanned ones (order and repeats may differ); the same scan again would change nothing |
| Reconcile.KnownIds | packages/extension/src/state.ts:119-122 | the file's known ids, in registry order: never more than there are holes |
| Reconcile.KnownIdsMembers | packages/extension/src/state.ts:119-122 | an id is among the file's known ids exactly when a hole of that file carries it |
| Reconcile.Absent | packages/extension/src/state.ts:128-140 | the ids a `forEach` acts on when it skips those the other list `includes`, in order, repeats kept: never more than the list it walks (membership by `Reconcile.AbsentMembers`) |
| Reconcile.AbsentMembers | packages/extension/src/state.ts:128-140 | the `!includes` filter keeps exactly the ids of the first list missing from the second |
| Reconcile.HolesFor | packages/extension/src/state.ts:83 | the `{ id, fileName }` records `createTypehole` builds for the ids, one per id, in order |
| Reconcile.HolesForMembers | packages/extension/src/state.ts:83 | the created holes are exactly the file's holes with the given ids |
| Reconcile.AddAll | packages/extension/src/state.ts:128-134 | `createTypehole` for each id, first to last, each on the record the previous one left (closed form by `Reconcile.AddAllEffect`) |
| Reconcile.RemoveAll | packages/extension/src/state.ts:135-140 | `removeTypehole` for each id, first to last, each on the record the previous one left; also the loop of line 115 (closed form by `Reconcile.RemoveAllEffect`) |
| Reconcile.AddTrace | packages/extension/src/state.ts:128-134 | the snapshots `setState` emits during the creations: one per created id, each the record after that creation |
| Reconcile.RemoveTrace | packages/extension/src/state.ts:135-140 | the snapshots `setState` emits during the removals: one per removed id, each the record after that removal |
| Reconcile.NewIds | packages/extension/src/state.ts:128-134 | the scanned ids the file did not know, in scan order: never more than the scanned ids |
| Reconcile.GoneIds | packages/extension/src/state.ts:135-140 | the file's known ids the scan no longer finds: never more than there are holes |
| Reconcile.FileChangedTrace | packages/extension/src/state.ts:118-141 | the snapshots `onFileChanged` emits: the creations' then the removals', one per created or removed id |
| Reconcile.AddAllEffect | packages/extension/src/state.ts:128-134 | creating a list of ids appends their holes, in order, and raises the counter by their number, and nothing else changes |
| Reconcile.AddAllSnoc | packages/extension/src/state.ts:128-134 | one more creation is one more `createTypehole` on the state reached so far, and one more snapshot in the log |
| Reconcile.RemoveAllSnoc | packages/extension/src/state.ts:135-140 | one more removal is one more `removeTypehole` on the state reached so far, and one more snapshot in the log |
| Reconcile.AbsentSnoc | packages/extension/src/state.ts:128-140 | one more id for the filter is kept exactly when it is missing from the other list |
| Reconcile.CreateStep | packages/extension/src/state.ts:128-134 | one turn of the creation loop: a known id leaves state and log as they are; an unknown id is created and its snapshot logged |
| Reconcile.RemoveStep | packages/extension/src/state.ts:135-140 | one turn of the removal loop: a scanned id leaves state and log as they are; a vanished id is removed and its snapshot logged |
| Reconcile.DeleteStep | packages/extension/src/state.ts:112-116 | one turn of the deletion loop: the next id is removed and its snapshot logged |
| Reconcile.DropAllThenDrop | packages/extension/src/state.ts:98 | filtering out one more id after a list is filtering out the longer list |
| Reconcile.DropAllAppend | packages/extension/src/state.ts:98 | the filter distributes over appending hole lists |
| Reconcile.DropAllNothing | packages/extension/src/state.ts:98 | a filter that matches no hole keeps every hole, in order |
| Reconcile.RemoveAllEffect | packages/extension/src/state.ts:135-140 | removing a list of ids filters all of them out of the holes, clears exactly their samples, and keeps the warnings and the counter |
| Reconcile.AfterFileChanged | packages/extension/src/state.ts:118-141 | the record after reconciliation (creations first, then removals): the warnings are untouched, and the counter never falls and rises by at most the number of scanned ids |
| Reconcile.FileChangedEffect | packages/extension/src/state.ts:118-141 | after reconciliation the holes are the old ones without the vanished ids, followed by the new holes in scan order; the counter rises by their number; the vanished ids' samples are cleared; every other id keeps its samples and the warnings are kept |
| Reconcile.FileChangedMatchesScan | packages/extension/src/state.ts:118-141 | afterwards an id is known for the file exactly when the scan found it |
| Reconcile.FileChangedSamples | packages/extension/src/state.ts:118-141 | an id the scan still finds keeps its samples; a known id the scan lost has none |
| Reconcile.FileChangedOtherFiles | packages/extension/src/state.ts:118-141 | a hole of another file survives exactly when its id did not vanish from the rescanned file |
| Reconcile.AbsentNone | packages/extension/src/state.ts:128-140 | when every id is in the other list, the filter keeps nothing |
| Reconcile.FileChangedIdempotent | packages/extension/src/state.ts:118-141 | repeated with the same scan, reconciliation finds nothing to add and nothing to remove, returns the same record and emits nothing, for any scan, repeats included |
| Reconcile.DuplicateScanTwoHoles | packages/extension/src/state.ts:128-134 | an unknown id that a scan finds twice is created twice, and the counter rises by two |
| Reconcile.DeletedIsChangedToEmpty | packages/extension/src/state.ts:112-116 | deleting a file is reconciling it with an empty scan |
| Reconcile.AbsentOfNothing | packages/extension/src/state.ts:129 | against an empty list, the filter keeps every id |
| Reconcile.AfterFileDeleted | packages/extension/src/state.ts:112-116 | the record after the file's holes are removed by id: no more holes than before, warnings and counter untouched |
| Reconcile.FileDeletedEffect | packages/extension/src/state.ts:112-116 | after deletion no hole names the file; exactly the holes whose id was not one of the file's ids remain; the file's ids have no samples; counter and warnings are kept |
| Reconcile.ReconcileValid | packages/extension/src/state.ts:112-141 | reconciling a file and deleting one keep the record reachable |
| Reconcile.ScenarioOpen | packages/extension/src/state.ts:118-141 | opening a file that holds `a`, `b` on an empty registry creates both, in scan order, with counter 2 and no samples |
| Reconcile.RescanIds | packages/extension/src/state.ts:119-140 | rescanning a file that holds `a`, `b` and now finds `b`, `c` adds `c` and removes `a` |
| Reconcile.RescanEffect | packages/extension/src/state.ts:118-141 | after that rescan the holes are `b` then `c`, the counter rose by one, `a` has no samples and `b` keeps its own |
| Reconcile.Scenario | packages/extension/src/state.ts:118-141 | open with `a`, `b`, sample both, rescan with `b`, `c`: holes `b`, `c`, counter 3, `a` lost its sample, `b` kept its sample |
| TextReplace.FirstFromSpec | src/extension.ts:159 | the search finds the first occurrence at or after its start, and reports none only when there is none |
| TextReplace.IndexOf | src/extension.ts:155-159 | `indexOf`, with `None` for -1 (its meaning is stated by `TextReplace.IndexOfSpec`) |
| TextReplace.IndexOfSpec | src/extension.ts:159 | `indexOf` reports the first occurrence, or none when there is none |
| TextReplace.Includes | src/extension.ts:155-157 | `includes`: `indexOf` finds the pattern (its meaning is stated by `TextReplace.IncludesIff`) |
| TextReplace.IncludesIff | src/extension.ts:155-157 | `includes` holds exactly when the pattern occurs somewhere |
| TextReplace.FirstAtIsIndexOf | src/extension.ts:159 | the first occurrence is the index `indexOf` reports |
| TextReplace.ShorterExcludes | src/extension.ts:155-157 | a text shorter than the pattern does not include it |
| TextReplace.ReplaceFirst | src/extension.ts:159-162 | without an occurrence the text is unchanged; otherwise the first occurrence is replaced; the length changes by the difference between pattern and replacement |
| TextReplace.FirstAfterPrefix | src/extension.ts:159 | an occurrence right after a prefix free of the pattern's first character is the first one |
| TextReplace.ReplaceFirstAfterPrefix | src/extension.ts:159-162 | such an occurrence is the one replaced; prefix and rest are kept |
| TextReplace.ReplaceFirstAtStart | src/extension.ts:161 | a pattern at the very start is found at 0 and replaced there |
| TextReplace.RemoveHeadThenRename | src/extension.ts:160-162 | removing a leading line, then renaming the first name after a prefix free of its first character |
| TextReplace.RenameThenReplace | src/extension.ts:159 | renaming the first pattern, then replacing the first suffix after the renamed part |
| TextReplace.ReplaceFirstKeepsLater | src/extension.ts:159 | only the first occurrence is replaced: a later occurrence survives, shifted by the change in length |
| TextReplace.IncludesWithin | src/extension.ts:155-157 | a text that includes a string includes every piece of it |
| TextReplace.Expand | src/extension.ts:159 | a replacement without `$` stands for itself |
| TextReplace.JsReplace | src/extension.ts:159-162 | with a `$`-free replacement, JavaScript's `replace` is the literal first-occurrence replacement; without an occurrence the text is unchanged |
| TextReplace.ExpandDoubleDollar | src/extension.ts:159 | a replacement ending in `$$`, with no other `$`, expands to the name with one `$` |
| TextReplace.JsReplaceDoubleDollar | src/extension.ts:159 | JavaScript's `replace` with such a replacement inserts one `$` fewer than the replacement has |
| TextReplace.JsRenameStep | src/extension.ts:159 | the renaming step with such a replacement, on named texts |
| TextReplace.JsDropStep | src/extension.ts:159 | removing the first `[]` after a prefix free of `[` |
| TextReplace.JsRenameThenDrop | src/extension.ts:159 | JavaScript's rename then drop of `[]`, for a name ending in `$$`, loses one `$` |
| SampleHandler.ArrayRootLineNamesRoot | src/extension.ts:155-157 | a text that holds the array-root line mentions the root name |
| SampleHandler.StripArrayRootAsWritten | src/extension.ts:155-162 | the rewrite as JavaScript evaluates it: for every type name, a text that mentions neither the root nor `[]` passes through unchanged; for a type name without `$` it is the literal rewrite |
| SampleHandler.StripArrayRoot | src/extension.ts:155-162 | the rewrite with literal replacements: a text that mentions neither the root nor `[]` passes through unchanged, and the result is never longer than the text plus the type name |
| SampleHandler.StripArrayRootOfArray | src/extension.ts:155-162 | for an array root, the array-root line is gone and the element type carries the user's name |
| SampleHandler.StripArrayRootOfValue | src/extension.ts:155-159 | for a plain root, the root is renamed and the first `[]` after it dropped; everything after it, later `[]` included, is kept |
| SampleHandler.DollarNameCollapses | src/extension.ts:159 | the code as written renames the root to a name ending in `$$` with one `$` lost |
| SampleHandler.DollarNameDiffers | src/extension.ts:159 | for such names the literal rewrite keeps both `$`, so the two rewrites differ |
| SampleHandler.DollarNameExample | src/extension.ts:159 | `type IRootObject = number[];` for alias `Total$$` comes out as `type Total$ = number;` |
| SampleHandler.DollarNameExampleIntended | src/extension.ts:159 | the literal rewrite of that text gives `type Total$$ = number;` |
| SampleHandler.OnTypeExtracted | src/extension.ts:149-162 | the sample is dropped exactly when no type alias is found; otherwise the types stripped as JavaScript evaluates the rewrite go on, which for an alias without `$` is the literal rewrite |
| SampleHandler.Last | src/extension.ts:30 | nothing for an empty array, otherwise the element at `length - 1` |
| SampleHandler.NewHoleId | src/extension.ts:113 | the new typehole's number: how many typeholes the whole file had before the insertion (its meaning is stated by `SampleHandler.NewHoleIdIndexesNewHole`) |
| SampleHandler.NewHoleIdIndexesNewHole | src/extension.ts:113-124 | in a rescan listing the typeholes above the new one, the new one and those below it, the number (which counts every earlier typehole, above and below) is the new typehole's index, and `last` finds the new typehole, exactly when none lies below it (for a typehole not repeated below); otherwise `last` finds the last one below |

## Left out

- The HTTP listener, CORS and the server's reply are network I/O. A received sample is modelled by its id and its type text.
- The VS Code editor APIs are not modelled: edits, selections, the rename command and the code-action provider. A warning range is a pair of (line, character) positions compared by equality.
- Parsing is not modelled (`getAST`, `findTypeholes`, `getId`, `tsquery`, `getTypeAliasForId`, `getAllDependencyTypeDeclarations`). Their results are parameters: the scanned id list of `OnFileChanged`, the `Option` alias of `OnTypeExtracted`, and the hole lists of `NewHoleIdIndexesNewHole`.
- `mergeInterfaces` and the type-merge algorithm are not part of this model. `SampleHandler.OnTypeExtracted` gives the text handed to it, computed as JavaScript computes it.
- The event emitter and the logger are not modelled. The emitted snapshots are the ghost log `changes`.
- The `nextUniqueId` counter is an unbounded `nat`. JavaScript's number precision limit is far beyond any reachable count.
- The `{}` records are modelled as maps. JavaScript's prototype keys (`__proto__` and inherited members) are not modelled.
- Samples are opaque (`any` in the source), so they are a type parameter; sample equality is never used.
- Strings are sequences of Unicode characters, while JavaScript strings are UTF-16 code units. Every pattern in the rewrite is ASCII, so search and replacement agree for the texts modelled; lengths and indices of texts with characters outside the Basic Multilingual Plane are not modelled.
- `addSample` returns the very array it stores, so the caller and the state share it. The model returns the list as a value and does not capture that aliasing.
- `clearSamples` is only called from `removeTypehole`, so it is modelled as the pure update `HoleState.WithoutSamples` and not as a method of the store.

## Findings

| source | as written | input that shows it | evidently intended | confidence | as-written member | corrected member |
|---|---|---|---|---|---|---|
| src/extension.ts:159 | the user's type name is passed as the replacement string of `replace`, where `$$`, `$&`, `` $` `` and `$'` are patterns; line 162 does the same | `type IRootObject = number[];` for a type alias named `Total$$` gives `type Total$ = number;` | the root takes the type name literally, giving `type Total$$ = number;` | not executed | SampleHandler.StripArrayRootAsWritten (SampleHandler.DollarNameCollapses, SampleHandler.DollarNameExample) | SampleHandler.StripArrayRoot (SampleHandler.StripArrayRootOfValue, SampleHandler.DollarNameExampleIntended) |
