# A verified model of the publishing toolkit

`xtask` turns the `codex-rs` workspace into the crates that are published as `lemurclaw-*`. It renames
packages and crates, folds many crates into modules of one crate, rewrites brand text, and edits
manifests and the lockfile line by line. All of this is text work done by hand-written scanners, and
what makes it correct is stated in comments: paths still mean the same thing, protected tokens survive,
no dependency cycle appears, running twice is harmless. This project models those scanners and proves
what they keep. Four smaller cores of the repository with properties over whole runs or round trips
are modelled next to them.

Scanners that the source writes as loops are methods here. Each is proved equal to a function of its
input, and the theorems are about that function.

| file | part of the system |
|---|---|
| `Wrappers.dfy`, `Text.dfy` | optional values; `str` operations on UTF-8 bytes: find, replace, lines |
| `Idents.dfy` | maximal identifier runs; whole-word replacement; member identifiers become module paths |
| `Merge.dfy` | folding a crate into a module: self references, path resolution before and after |
| `Brand.dfy`, `BrandOrder.dfy` | brand rewriting around protected tokens; the order of the token list |
| `ClusterSelection.dfy` | choosing the crates to merge; the dependency graph after the merge |
| `SpanEdits.dfy` | identifier renames applied by line and column, back to front |
| `ManifestStrings.dfy`, `ManifestPaths.dfy` | quoted strings on a manifest line; member paths and the workspace manifest |
| `LineMachine.dfy`, `TomlLines.dfy` | what all line rewriters share: stability, idempotence, lines and text |
| `ForkManifest.dfy`, `ForkHeaders.dfy`, `ForkLines.dfy`, `ForkRewire.dfy`, `V8Strip.dfy`, `DepCollapse.dfy` | four manifest rewriters with line state |
| `Lockfile.dfy` | the lockfile rewriter |
| `AnalyticsQueue.dfy`, `EventBatches.dfy`, `EventDedupe.dfy` | the event queue and its worker; batching; deduplication |
| `DiffReader.dfy` | the unified-diff reader |
| `ReleaseVersion.dfy` | Python versions and release tags |
| `AppServerPath.dfy` | paths of either platform |

## What does not hold

Where a claim of the source's comments, or the natural claim about a function, is false, there is a
lemma with a failing input and one with the exact condition under which the claim holds.

- Merging: a `crate::X` path keeps its meaning except when `X` names a sibling's module that is not
  declared locally, and a bare `crate`, as in `pub(crate)` or in front of `::{`, comes to mean the
  merged crate. A path with a leading `::` has a guard of its own (`Merge.PathResolution`, path by path
  for a whole file `Merge.MergeFile`). The two passes do not commute (`Merge.OtherOrderMisresolves`,
  `Merge.OrderDecided`), and the first is not idempotent (`Merge.PrefixingTwice`,
  `Merge.PrefixingDecided`).
- Brand rewriting, the token list: "order matters only for determinism" does not hold
  (`BrandOrder.TokenLost`, and with two entries of the published list
  `BrandOrder.PublishedTokensClash`). It holds exactly when no token contains or overlaps a different
  one (`BrandOrder.OrderDecided`). Every occurrence of a token survives exactly when, besides, no
  token overlaps itself (`BrandOrder.ProtectionDecided`).
- Brand rewriting, markers: text that already contains a marker loses it (`Brand.ForgedMarker`), and a
  marker's text between two tokens is enough (`Brand.ForgedGap`). On texts without a NUL the rewrite
  factors exactly when there is no such gap (`Brand.BrandFactors`).
- Cluster selection: the cycle check looks one external crate deep and misses a cycle through two
  removed proc-macros (`ClusterSelection.UnnoticedCycle`, `ClusterSelection.MacroChainsDecide`). The
  bail-out for a missing `codex-core` can never happen, because the closure always holds its start; a
  missing crate panics instead (`ClusterSelection.CoreCluster`).
- Span edits: the comment takes columns for byte offsets. A library that counts characters has the edit
  land in the wrong place exactly where a multi-byte character stands before it on its line
  (`SpanEdits.OffsetByCharacters`).
- Manifest strings: the byte-level scan damages multi-byte characters when a shortened `./` value makes
  up for their extra bytes (`ManifestStrings.MangledLine`, `ManifestStrings.FastPathRefines`).
- Manifest paths: a path that only goes down, such as `some/codex-bar`, leads astray from a crate
  directory that is itself renamed (`ManifestPaths.BelowRenamedDir`) or when its first segment is
  renamed for its last, and one that only goes up when it leads to a renamed directory
  (`ManifestPaths.PathsFollowDirectories`).
- Fork manifests: rewriting a second time removes a line when the manifest has no `[lib]` and ends in a
  fork dependency's sub-table (`ForkManifest.NotSettled`, `ForkManifest.ForkIdempotent`). A
  `[dev-dependencies.X]` sub-table comes out as `[dependencies.X]` (`ForkHeaders.KindsKept`), and a
  manifest with both gets the same table twice (`ForkHeaders.TableTwice`, `ForkHeaders.TableOnce`).
- V8 stripping: a member whose name merely starts with a removed one is dropped as well
  (`V8Strip.LongerNameDropped`, `V8Strip.MembersExact`).
- Dependency collapsing keeps one line for the whole manifest, not one for each section
  (`DepCollapse.SecondSectionLost`, `DepCollapse.SectionsServed`).
- Lockfile: a header is lost when a line that is not skipped comes between it and its name line
  (`Lockfile.HeaderLost`, `Lockfile.HeaderWritten`), and references stop matching names that are not
  plain (`Lockfile.ReferencesMatch`).
- Paths: joining onto the root changes the platform when the segment starts with a slash
  (`AppServerPath.RootJoin`, `AppServerPath.PlatformKept`).
- All line rewriters: a line that still ends in a carriage return after its line end was taken off
  loses one more on every run, so as functions of the text they are idempotent exactly where no line
  that stays as it is ends in one (`ForkRewire.RewireTwice` and the like).

## Model

| member | source | states |
|---|---|---|
| Idents.ReplaceIdentWhole | xtask/src/bundle.rs:2105-2130 | the byte scan replaces the needle as a whole word; on an identifier needle this is the map over maximal identifier runs that changes this one run |
| Idents.ReplaceWordBoundary | xtask/src/bundle.rs:4427-4464 | the second scanner computes the same function and counts exactly the replaced runs |
| Idents.WholeIsMapRuns | xtask/src/bundle.rs:2105-2130 | whole-word replacement is replacement of maximal runs, so it never fires inside a longer identifier and leaves every other character in place |
| Idents.MapRunsConcat | xtask/src/bundle.rs:2105-2130 | text may be cut anywhere outside a run and rewritten piece by piece |
| Idents.MapRunsMeans | xtask/src/bundle.rs:2105-2130 | on text cut into maximal runs and other characters, each run of the table comes out as its replacement and every other piece as it is |
| Idents.RewriteRs | xtask/src/bundle.rs:2089-2098 | one pass per member equals one simultaneous map over the runs |
| Idents.TableMeans | xtask/src/bundle.rs:2089-2098 | the table sends the underscored package name of each member to its module below the prefix, and nothing else |
| Idents.RewriteIdempotent | xtask/src/bundle.rs:2089-2098 | rewriting again changes nothing |
| Idents.RewriteOrderIndependent | xtask/src/bundle.rs:2089-2098 | any listing of the same members gives the same text |
| Merge.FixSelfRefsInSrc | xtask/src/bundle.rs:2004-2059 | the index-based scan inserts the module name at exactly the whole-word `crate::` self references |
| Merge.SelfReferences | xtask/src/bundle.rs:2042-2045 | the self references are all segments but the exported macro and the module names of siblings that are not declared locally |
| Merge.ReferenceText | xtask/src/bundle.rs:2029-2059 | the text `crate::x` becomes `crate::` + module + `::x` for exactly those, and stays for all others |
| Merge.ParseCanonical | xtask/src/bundle.rs:2004-2059 | source text splits into paths and other bytes in canonical form, and the pieces give back the text |
| Merge.ParseRender | xtask/src/bundle.rs:2004-2059 | canonical pieces are recovered from their text |
| Merge.FixActsOnPaths | xtask/src/bundle.rs:2004-2059 | the prefixing pass changes paths, each on its own, and no other text |
| Merge.RewriteActsOnPaths | xtask/src/bundle.rs:2089-2098 | so does the member pass |
| Merge.PathResolution | xtask/src/bundle.rs:2004-2098 | a path resolves to the same crate and item after both passes if and only if it is not a bare `crate`, and what follows `crate::` is a local module, the module's own name, the exported macro or no module name of a sibling; a path with a leading `::` has a guard of its own, written out as well |
| Merge.SourceResolution | xtask/src/bundle.rs:971-993 | path by path: every path of a file becomes its merged form, resolves as before if and only if it passes that guard, and all other text is unchanged |
| Merge.MergeFile | xtask/src/bundle.rs:971-993 | both passes in their order on the text of a file: the same, for each path whatever the others do |
| Merge.OtherOrderMisresolves | xtask/src/bundle.rs:971-993 | in the other order a member path with a locally declared module name ends up in the wrong crate |
| Merge.PrefixingTwice | xtask/src/bundle.rs:2004-2059 | the prefixing pass run twice prefixes twice |
| Merge.PrefixingDecided | xtask/src/bundle.rs:2004-2059 | on a path it is idempotent if and only if it leaves the path alone: the path does not start with `crate::` and a self reference |
| Merge.OrderDecided | xtask/src/bundle.rs:971-993 | the order of the passes makes no difference to a path if and only if it does not start with the identifier of a member whose module name is declared locally or is the module's own |
| Brand.StashToken | xtask/src/bundle.rs:4131-4146 | one pass over a token's matches: every occurrence becomes the next marker and is stashed in order |
| Brand.RewriteBrandFullText | xtask/src/bundle.rs:4118-4420 | stash, rules by extension, restore. Without tokens the output is what the rules make of the text one after the other, each a replacement between the gaps left of the leftmost occurrences or of maximal runs; with tokens it is that on every gap, when none forges a marker; the count is that of the replaced places |
| Brand.ApplyRuns | xtask/src/bundle.rs:4271-4407 | a literal rule puts its replacement between the gaps of the leftmost occurrences, a word rule in the place of equal maximal runs; all other text stays and the replaced places are counted |
| Brand.RunsOnce | xtask/src/bundle.rs:4271-4407 | there is one such text and count only |
| Brand.OneMoreRule | xtask/src/bundle.rs:4271-4407 | a further rule works on the text the rules before it left |
| Brand.AllRunOnce | xtask/src/bundle.rs:4271-4407 | so the outcome of a list of rules is determined by these descriptions, order included |
| Brand.ApplyMarked | xtask/src/bundle.rs:4271-4407 | a rule on marked text is the rule on every gap, and its count the sum over the gaps |
| Brand.StashAllMarked | xtask/src/bundle.rs:4124-4151 | stashing keeps the text when markers are read as their tokens, and numbers the markers right |
| Brand.RestoreAllMarked | xtask/src/bundle.rs:4408-4420 | restoring by number puts every token back where it was if and only if no gap between two markers forges a marker |
| Brand.BrandFactors | xtask/src/bundle.rs:4118-4420 | the text splits into gaps without a protected token and tokens, counts add up, and the output is the tokens, unchanged, between gaps rewritten alone if and only if no gap forges a marker |
| Brand.BrandFactorsClean | xtask/src/bundle.rs:4118-4420 | in particular for every text that holds no part of a marker |
| Brand.ForgedGap | xtask/src/bundle.rs:4408-4420 | a family of texts without a NUL that forge a marker |
| Brand.ForgedMarker | xtask/src/bundle.rs:4408-4420 | a marker that was in the input is replaced by a token |
| BrandOrder.ProtectIsCutAll | xtask/src/bundle.rs:4131-4146 | when no two different tokens meet, cutting token by token is cutting all of them in one pass from left to right |
| BrandOrder.OrderDecided | xtask/src/bundle.rs:3953-3956 | any order of the list cuts every text in the same places if and only if no token contains or overlaps a different one |
| BrandOrder.ProtectionDecided | xtask/src/bundle.rs:3953-3956 | every occurrence of a token, in every text, is protected if and only if no token contains a different one and no proper suffix of a token starts one |
| BrandOrder.TokensDecide | xtask/src/bundle.rs:3953-3956 | both together, decided by the token list alone |
| BrandOrder.OccurrenceSurvives | xtask/src/bundle.rs:4118-4420 | under that condition every occurrence of a token is in the output, between what the text before and after it becomes |
| BrandOrder.PublishedTokensClash | xtask/src/bundle.rs:3956-4012 | a list with `openai/codex` and `codex-cli`, as the published one, depends on its order |
| BrandOrder.TokenLost | xtask/src/bundle.rs:4118-4420 | a token of the list that does not survive in one order and does in the other |
| ClusterSelection.TransitiveClosure | xtask/src/bundle.rs:719-738 | the stack-based search returns exactly the reachable crates |
| ClusterSelection.ExtendToFixedPoint | xtask/src/bundle.rs:270-299 | whatever the order of each pass, the loop ends with the least extension that is closed under candidates whose dependencies are all inside: what is added starts with `codex-utils-` or is `codex-lmstudio` or `codex-ollama`, and every such crate whose `codex-` dependencies are inside is added; closure under dependencies is kept |
| ClusterSelection.LeastIsDerived | xtask/src/bundle.rs:270-299 | that extension holds exactly the crates of some chain of candidates whose dependencies come before them, so neither the order of the passes nor of the map matters |
| ClusterSelection.WarningsOf | xtask/src/bundle.rs:318-338 | the check finds exactly the one-crate detours |
| ClusterSelection.CoreCluster | xtask/src/bundle.rs:254-338 | never bails; panics exactly when a reachable crate is missing; otherwise the closure is the least set with `codex-core` that is closed under dependencies, what is added are exactly the named candidates whose `codex-` dependencies are inside, what is removed are the proc-macros, and the warnings are the detours through one crate |
| ClusterSelection.ContractionAcyclic | xtask/src/bundle.rs:315-338 | contracting a set of an acyclic graph leaves it acyclic if and only if no dependency path leaves the set and returns |
| ClusterSelection.WarningsDecide | xtask/src/bundle.rs:300-338 | with no removed proc-macro depending on another, the merge is acyclic if and only if nothing is printed |
| ClusterSelection.MacroChainsDecide | xtask/src/bundle.rs:300-338 | in general it is acyclic if and only if no path from the set to the set runs through removed proc-macros only |
| ClusterSelection.UnnoticedCycle | xtask/src/bundle.rs:315-338 | a graph with a cycle and no warning |
| SpanEdits.LineStarts | xtask/src/source_rewrite.rs:246-256 | the line table |
| SpanEdits.OffsetRecovered | xtask/src/source_rewrite.rs:108-116 | a byte offset survives packing and unpacking if and only if its column is below 1,000,000 |
| SpanEdits.OffsetByCharacters | xtask/src/source_rewrite.rs:94-116 | a column counted in characters finds the offset if and only if no multi-byte character stands before it on its line, and it fits |
| SpanEdits.ApplySorted | xtask/src/source_rewrite.rs:266-281 | descending replacement in place equals simultaneous substitution in the original text; no replacement is out of range |
| SpanEdits.ApplySpans | xtask/src/source_rewrite.rs:246-282 | the whole pass: out of range exactly when a span's line is not in the table, else the substitution |
| SpanEdits.OccurrencesRenamed | xtask/src/source_rewrite.rs:94-116 | recorded identifiers, in any order and with repetitions, are each renamed once and all other bytes stay |
| SpanEdits.OccurrencesSpelled | xtask/src/source_rewrite.rs:94-116 | in text of gaps and recorded identifiers, each identifier that starts with `codex_` starts with `lemurclaw_` in the output and everything else is as before |
| ManifestStrings.RewriteCodexStringsInLine | xtask/src/manifest.rs:350-413 | the loop computes the library-name case, else the byte scan when it kept the length, else the safe scan |
| ManifestStrings.RewriteCodexStringsInLineSafe | xtask/src/manifest.rs:415-460 | the character-wise loop computes the safe scan |
| ManifestStrings.FastPathRefines | xtask/src/manifest.rs:371-413 | outside the library-name case the result is the safe one if and only if the bytes gained by damaged characters are not exactly lost by shortened values |
| ManifestStrings.FastPathSafe | xtask/src/manifest.rs:371-413 | in particular on ASCII lines and on lines without a `./` value |
| ManifestStrings.MangledLine | xtask/src/manifest.rs:371-413 | a family of lines that come out damaged |
| ManifestStrings.NamesSpelled | xtask/src/manifest.rs:147-186 | package names change `codex-` in front, identifiers `codex_`, and other names stay |
| ManifestStrings.LibNameSpelled | xtask/src/manifest.rs:350-369 | a library name line keeps its indentation and names the renamed identifier |
| ManifestStrings.ScansSpelled | xtask/src/manifest.rs:371-460 | the safe scan renames the quoted values and keeps the text between them; the fast scan does the same with every byte between them pushed as a character |
| ManifestStrings.PushSpelled | xtask/src/manifest.rs:371-413 | a byte of a multi-byte character pushed so becomes two bytes |
| ManifestStrings.PathSpelled | xtask/src/manifest.rs:162-175 | a member path loses one `./`, and its last segment is renamed like a package |
| ManifestPaths.DstSegments | xtask/src/manifest.rs:162-175 | `dst_member_path` renames the last segment and no other |
| ManifestPaths.PathsFollowDirectories | xtask/src/manifest.rs:380-401 | for every value of an optional `./`, `..` steps and names: from the renamed directory the rewritten value resolves to the renamed target if and only if it goes up and down, or only down from a directory that keeps its name with its head not renamed, or only up to one that keeps its name |
| ManifestPaths.BelowRenamedDir | xtask/src/manifest.rs:380-401 | a value that only goes down misses its target from a renamed crate directory |
| ManifestPaths.EmitMembers | xtask/src/manifest.rs:518-538 | published source members in order under their new paths, then the toolkit's own |
| ManifestPaths.EmitDeps | xtask/src/manifest.rs:573-613 | published dependencies in order, renamed, then the own and the external ones |
| ManifestPaths.MemberSpelled | xtask/src/manifest.rs:518-538 | entry by entry: a member is listed under its new path if that is kept |
| ManifestPaths.DepSpelled | xtask/src/manifest.rs:573-613 | entry by entry: a dependency without a path stays, one with a path stays if its new path is kept, and the key is renamed |
| ManifestPaths.PathDepsAreMembers | xtask/src/manifest.rs:518-613 | every path dependency emitted is an emitted member if and only if every directory that is kept for a dependency is listed |
| LineMachine.Idempotent | xtask/src/manifest.rs:757-807 | a line machine whose every step reads back its own lines is idempotent |
| LineMachine.RewriteTwice | xtask/src/manifest.rs:757-807 | and as a function of the text exactly where no step on the input emits a line that ends in a carriage return |
| ForkRewire.RewritePublishWorkspaceForForks | xtask/src/manifest.rs:757-807 | the loop with its two section flags computes the line machine |
| ForkRewire.RewireBySection | xtask/src/manifest.rs:757-807 | exactly the lines of patch sections go, exactly those of the workspace's dependencies are rewritten, all judged by the nearest header above |
| ForkRewire.RewireIdempotent | xtask/src/manifest.rs:757-855 | rewiring twice is rewiring once; no patch header is left, and no fork dependency without its alias other than an inline table that is not closed on its line |
| ForkRewire.RewireTwice | xtask/src/manifest.rs:757-807 | the same for the text, exactly where no line that its section leaves as it is ends in a stray carriage return |
| ForkRewire.BareSpelled | xtask/src/manifest.rs:812-832 | a fork dependency with a bare version becomes an inline table of that version and the published package |
| ForkRewire.TableSpelled | xtask/src/manifest.rs:834-853 | one with an inline table keeps its entries and gets the package behind them |
| ForkRewire.OthersStay | xtask/src/manifest.rs:812-855 | the lines of all other dependencies stay |
| ForkRewire.AliasTable | xtask/src/manifest.rs:757-770 | the four forks and their packages |
| V8Strip.RewriteWorkspaceManifest | xtask/src/strip_v8.rs:327-395 | the loop with its two flags computes the line machine |
| V8Strip.StripByPlace | xtask/src/strip_v8.rs:344-395 | exactly the removed members inside members arrays and the removed keys of the dependency table go, judged by the lines above |
| V8Strip.StripIdempotent | xtask/src/strip_v8.rs:327-395 | stripping twice is stripping once, and nothing that had to go is left |
| V8Strip.StripTwice | xtask/src/strip_v8.rs:327-395 | the same for the text, exactly where no line that its place leaves standing ends in a stray carriage return |
| V8Strip.MembersExact | xtask/src/strip_v8.rs:411-423 | exactly the removed crates lose their entries if and only if no other crate's name starts with a removed one |
| V8Strip.LongerNameDropped | xtask/src/strip_v8.rs:411-423 | a kept crate that loses its entry |
| V8Strip.RemovedDepDropped | xtask/src/strip_v8.rs:339-342 | the dependency line of a removed crate is recognised by its renamed package name |
| V8Strip.DepsSpelled | xtask/src/strip_v8.rs:339-441 | of the dependency lines exactly those of `v8`, of its data and of the removed crates under their published names go |
| DepCollapse.CollapseDepsInManifest | xtask/src/bundle.rs:4874-4925 | the loop with its flag computes the line machine |
| DepCollapse.CollapseSpec | xtask/src/bundle.rs:4874-4925 | one line stands for the merged package in the place of the cluster's first line, no other line of the cluster is left, all other lines stay |
| DepCollapse.CollapseIdempotent | xtask/src/bundle.rs:4874-4932 | collapsing twice is collapsing once, even when the merged package is a member |
| DepCollapse.CollapseTwice | xtask/src/bundle.rs:4874-4925 | the same for the text, exactly where no line that stays, judged by the lines before it, ends in a stray carriage return |
| DepCollapse.SectionsServed | xtask/src/bundle.rs:4874-4925 | every section with a line of the cluster still has one if and only if all those lines stand in one section |
| DepCollapse.SecondSectionLost | xtask/src/bundle.rs:4874-4925 | a member that two sections depend on is kept for the first only |
| DepCollapse.MembersSpelled | xtask/src/bundle.rs:4874-4925 | a dependency line is of the cluster if its key or its alias is a member's, or its key the merged package's; the first becomes the merged package from the workspace |
| DepCollapse.AliasSpelled | xtask/src/bundle.rs:4874-4932 | the alias of a line is the first quoted value of its key `package` |
| ForkManifest.RewriteForkManifest | xtask/src/forks.rs:239-364 | the loop with its flags, and the section added at the end, compute the line machine and its tail |
| ForkManifest.ForkIdempotent | xtask/src/forks.rs:239-364 | rewriting twice is rewriting once if and only if the manifest has a library section or does not end in a fork dependency's sub-table |
| ForkManifest.ForkSettles | xtask/src/forks.rs:239-364 | a third rewrite never changes anything |
| ForkManifest.NotSettled | xtask/src/forks.rs:239-364 | for every fork with a sibling there is a manifest on which twice differs from once |
| ForkManifest.LibNamedOnce | xtask/src/forks.rs:294-355 | the library sections of the output hold exactly one name line, with the fork's library name |
| ForkManifest.ForkOutputGood | xtask/src/forks.rs:277-345 | in the output no sub-table of a fork dependency has a source location, the package no longer has its old name, and inline fork dependencies have their alias unless they are not closed on their line; how many such tables there are is the subject of `ForkHeaders.TablesCounted` |
| ForkManifest.ForkTwice | xtask/src/forks.rs:239-364 | idempotence of the text-level function, exactly for settled manifests of which no copied line, judged by its section, ends in a stray carriage return |
| ForkLines.WholeByPlace | xtask/src/forks.rs:239-364 | the output of any manifest, each line judged by the section it stands in, and the library section that is added |
| ForkLines.SubSpelled | xtask/src/forks.rs:368-383 | the headers that open a fork dependency's sub-table are the three kinds with its key, no others |
| ForkLines.AliasSpelled | xtask/src/forks.rs:405-428 | an inline dependency on a sibling keeps its entries and gets the published package behind them |
| ForkLines.OthersStay | xtask/src/forks.rs:405-428 | the lines of all other dependencies stay |
| ForkHeaders.WholeHeaders | xtask/src/forks.rs:264-318 | the sections of the output are those of the manifest in order, each fork dependency's sub-table a plain one, and a library section if there was none |
| ForkHeaders.TablesCounted | xtask/src/forks.rs:277-292 | there are as many tables for a fork dependency as the manifest has sub-tables of it under any of the three prefixes |
| ForkHeaders.TableOnce | xtask/src/forks.rs:277-292 | each is written at most once if and only if the manifest has at most one, all three kinds together |
| ForkHeaders.TableTwice | xtask/src/forks.rs:277-292 | a manifest with a plain and a development sub-table gets the same table twice |
| ForkHeaders.KindsKept | xtask/src/forks.rs:277-292 | every section keeps its header if and only if no fork dependency has a development or build sub-table |
| ForkManifest.PublishedForksOk | xtask/src/forks.rs:43-85 | the four forks meet the conditions of these results |
| Lockfile.RewriteLockfile | xtask/src/rename.rs:574-654 | the loop with its held-back header computes the line machine |
| Lockfile.RunIsFilter | xtask/src/rename.rs:574-654 | on blocks with their name lines it filters and rewrites blocks, whatever came before |
| Lockfile.LockfileIsFilter | xtask/src/rename.rs:574-654 | the output is the rewritten preamble and then exactly the rewritten blocks that are kept, in order |
| Lockfile.RunByPlace | xtask/src/rename.rs:574-654 | the output of any lockfile, each line judged by the lines before it |
| Lockfile.HeaderWritten | xtask/src/rename.rs:574-654 | the header of a kept package is written if and only if its name line comes right after it or the lines between are skipped |
| Lockfile.HeaderHasOrigin | xtask/src/rename.rs:574-654 | a header in the output stands in front of a kept name line and comes from the header before that |
| Lockfile.HeaderLost | xtask/src/rename.rs:574-654 | with another line in between, the name line is kept and its header is not |
| Lockfile.ReferencesMatch | xtask/src/rename.rs:640-664 | references are renamed like the name itself if and only if `codex-` occurs in it at most as its prefix and `codex_` not at all |
| Lockfile.ReferenceInLine | xtask/src/rename.rs:640-654 | a reference inside a line is rewritten on its own |
| Lockfile.NameLineRenamed | xtask/src/rename.rs:662-664 | the name line of a kept package carries its renamed name |
| Lockfile.ReferencesInLockfile | xtask/src/rename.rs:574-664 | in any lockfile, a kept reference line and the name line of a kept package both come out renamed, and agree if and only if the name is plain |
| Lockfile.DroppedSpelled | xtask/src/rename.rs:574-640 | a `codex-` or `lemurclaw-` package goes exactly when its published name is not kept; any other package stays |
| Lockfile.LinesSpelled | xtask/src/rename.rs:574-640 | which lines are headers and name lines, behind white space |
| AnalyticsQueue.RunsKeepInv | codex-rs/analytics/src/client.rs:136-169 | the queue's invariant holds after every run of senders, flushers and the worker |
| AnalyticsQueue.InOrder | codex-rs/analytics/src/client.rs:136-169 | processed, then in flight, then queued facts are the accepted ones in order; every offered fact is accepted, dropped or about to be put in; the buffer keeps its bound |
| AnalyticsQueue.DropsWhenFull | codex-rs/analytics/src/client.rs:160-169 | a fact is dropped if and only if every permit is in use |
| AnalyticsQueue.FlushBarrier | codex-rs/analytics/src/client.rs:230-251 | when a flush is acknowledged, everything accepted before it was requested has been ingested and sent |
| AnalyticsQueue.WorkerDrains | codex-rs/analytics/src/client.rs:138-153 | the worker alone can always empty the queue, and acknowledges every queued flush that was not given up |
| AnalyticsQueue.AllServed | codex-rs/analytics/src/client.rs:136-251 | from every reachable state senders, flushers and the worker can finish: every fact that was not dropped is processed, and every flush that was not given up acknowledged |
| EventBatches.TrackEventRequestBatches | codex-rs/analytics/src/client.rs:650-671 | batches concatenate to the events and are not empty, one with accepted lines holds nothing else, two neighbours without accepted lines never occur, and no such split has fewer batches |
| EventBatches.NeededIsLeast | codex-rs/analytics/src/client.rs:650-671 | the lower bound on the number of batches of any split |
| EventDedupe.AnalyticsEventsQueue.ShouldEnqueueAppUsed | codex-rs/analytics/src/client.rs:171-187 | answer and new key set of the first check, in place |
| EventDedupe.AnalyticsEventsQueue.ShouldEnqueuePluginUsed | codex-rs/analytics/src/client.rs:189-210 | answer and new key set of the second check, in place |
| EventDedupe.EpochsOfRun | codex-rs/analytics/src/client.rs:171-210 | over every run the set stays within 4096 keys and the admissions split into epochs of pairwise distinct keys, each completed one with exactly 4096 |
| EventDedupe.SentOncePerEpoch | codex-rs/analytics/src/client.rs:171-210 | a keyed event goes out if and only if its key has not gone out in the running epoch |
| DiffReader.AcceptedLineFingerprints | codex-rs/analytics/src/accepted_lines.rs:30-83 | the loop over lines computes the reader's state function |
| DiffReader.SectionsAdd | codex-rs/analytics/src/accepted_lines.rs:30-83 | reading concatenated sections is the sum of reading each |
| DiffReader.CrIgnored | codex-rs/analytics/src/accepted_lines.rs:143-169 | a carriage return at the end of a line makes no difference |
| DiffReader.ReadPrinted | codex-rs/analytics/src/accepted_lines.rs:30-169 | reading a printed diff gives exactly its counts and, for each added line whose words joined by single blanks have more than 3 bytes and some alphanumeric character or `_`, the fingerprint of that join, in order and with the right path, even when hunk lines look like headers |
| DiffReader.PathSpelled | codex-rs/analytics/src/accepted_lines.rs:143-155 | a file name loses the white space around it and one `b/` or `a/`; `/dev/null` is no file |
| ReleaseVersion.MatchPreSpec | sdk/python/release_version.py:49-65 | the matcher finds exactly the strings and groups of the pre-release patterns |
| ReleaseVersion.MatchHotfixSpec | sdk/python/release_version.py:49-65 | the same for the hotfix pattern |
| ReleaseVersion.ParseShow | sdk/python/release_version.py:68-82 | every normalised version is parsed back from its text |
| ReleaseVersion.ShowParse | sdk/python/release_version.py:68-82 | and what the parser accepts is the text of what it returns |
| ReleaseVersion.TagRoundTrip | sdk/python/release_version.py:45-82 | the tag of every accepted version normalises to what the version does |
| ReleaseVersion.TagInjective | sdk/python/release_version.py:45-82 | versions with the same tag have the same normal form |
| ReleaseVersion.TagSpelled | sdk/python/release_version.py:45-65 | the tag of each form of version, spelled out: `-alpha.`, `-beta.` and `-rc.` with their numbers, the hotfix of an alpha, and the version as it is otherwise |
| ReleaseVersion.NormalizeSpelled | sdk/python/release_version.py:68-82 | white space, a `v` or `rust-v`, and the long names with or without a dot are normalised to the short form |
| ReleaseVersion.AcceptedSpelled | sdk/python/release_version.py:68-82 | whatever is accepted is numbers with dots between them, perhaps a kind and its number, and perhaps a post-release |
| ReleaseVersion.NormalizeIdempotent | sdk/python/release_version.py:68-82 | normalising twice is normalising once |
| AppServerPath.PlatformKept | codex-rs/app-server-client/src/path.rs:33-58 | for all paths and segments, joining keeps the platform if and only if a condition on the trimmed path holds |
| AppServerPath.JoinedParts | codex-rs/app-server-client/src/path.rs:21-42 | under the path's separators the joined path has the parts of both, for all paths and segments |
| AppServerPath.JoinComponents | codex-rs/app-server-client/src/path.rs:13-58 | for absolute paths with a component: components of the path, then the nonempty parts of the segment, same platform |
| AppServerPath.RootJoin | codex-rs/app-server-client/src/path.rs:33-58 | on the root it fails exactly for segments that start with a slash |
| AppServerPath.JoinSpelled | codex-rs/app-server-client/src/path.rs:33-42 | separators at the end go, and one of the platform's comes before the segment |
| AppServerPath.PartsSpelled | codex-rs/app-server-client/src/path.rs:13-31 | components are the nonempty names between runs of separators |

## Left out

- Text of the `xtask` modules is its UTF-8 bytes, one `char` each. White space there is the ASCII kind only; a no-break space or a line separator at the edge of a line would be trimmed by the source.
- Rust and Python strings of the other modules are sequences of characters; their white space is modelled in full. Whether a character is alphanumeric is a parameter of the diff reader.
- Merge: local modules (`collect_local_mods`, `xtask/src/bundle.rs:1952-1973`) are a parameter; include paths, the fixups after the merge and the file walk are not part of the model. Resolution is by crate and item path; imports, re-exports, `super::` and `self::`, and comments and string literals, which the scanners do not tell from code, are not interpreted.
- Merge: the side conditions on names (words; module names that differ from each other, from `crate` and from member identifiers) are what the hand-written cluster tables provide; the tables themselves are not modelled.
- Brand: rules and tokens are parameters with the side conditions the proof needs (no NUL, no part of a marker's text); the literal tables, and the display-text variant built on them, are left out.
- Cluster: reading the graph from `cargo metadata` and building the member records are left out; the order of hash maps and hash sets is an arbitrary choice in the methods.
- SpanEdits: parsing and the syntax visitor are a library; spans are given. Sorting is a stable insertion sort, a stand-in for the library's.
- SpanEdits.ApplySpans: for spans that overlap without being identical only the out-of-range case is stated, because the visitor records none; a cut inside a multi-byte character, where the source panics, is not modelled.
- SpanEdits.OccurrencesRenamed: columns are recorded as byte offsets, as the source's comment has it; what a library that counts characters finds is said by `SpanEdits.OffsetByCharacters`.
- ManifestPaths: the workspace manifest's package and lint tables and the rendering of values are left out; what is modelled of a dependency is its key and path.
- Manifest rewriters: reading and writing the files, and the check in `collapse_deps_in_manifest` that skips writing an unchanged text, are left out.
- Manifest rewriters: `restore_workspace_manifest`, `rewrite_publish_manifest`, `unify_dep_value` and the rewriting of crate manifests are left out.
- ForkManifest: the warning printed for an unknown dependency is left out; names are words, and no fork dependency is called `name`.
- Lockfile.RewriteLockfile: the kept packages are a set of renamed names; how the caller computes them is left out.
- AnalyticsQueue: the channel is modelled by its permits and its buffer, and each step is atomic; reducers, authentication, HTTP and the wait for a closed channel are left out. A flush that times out may happen at any moment.
- AnalyticsQueue.DropsWhenFull: a channel whose worker is gone, on which the source drops every fact as well, is not modelled, because the worker lives as long as there is a sender.
- EventDedupe: the two locks make each check one step; a poisoned lock is left out.
- DiffReader.AcceptedLineFingerprints: fingerprints are the hashed values before hashing; SHA-1 is left out.
- DiffReader: quoted file names and binary patches are not printed by the model's printer.
- ReleaseVersion: the regular expressions are replaced by functions with the groups they are proved to find; command-line handling and the Python runtime release are left out.
- AppServerPath: the conversion to the protocol's path type, and the library that validates native paths, are left out.
- Agent identity, managed installs, the remote control client, packaging scripts and the terminal interface are not part of this model: they are network, cryptography or data copying around the cores above.
