# NVCF release tooling: a verified model

This project models the decision logic behind NVCF's release tooling
(`tools/docs-version-sync` and `tools/chart-version-bumper`) and proves what it promises over
whole runs: which states a publisher, a registry or a chart can ever reach, and what any two of
them have in common. `dafny verify dfyconfig.toml` checks everything.

## What is modelled

**The umbrella publisher** (`Publisher*.dfy`). A server holds releases with a draft flag and
assets that are whole or half-uploaded, and tags. A publisher is a state machine with one request
per step; any request may be served, be refused, be answered with a failure after it took effect,
or leave a torn upload. Any number of publishers with the same inputs interleave in any order, and
a publisher that is never scheduled again has crashed. `PublisherRun.dfy` is the imperative
`publish` with its paging loops; each of its runs is shown to be a run of the machine.
Assumptions on the environment: the server refuses a second asset of one name on one release,
promotion creates a missing tag at the target, and only publishers write.

**Edition registry and umbrella chain** (`Versions.dfy`, `Umbrella.dfy`, `EditionRegistry.dfy`,
`RegistryMeaning.dfy`).
Versions are unbounded decimal strings. A commit's catalog and a product's manifest are fixed
functions of the commit. Register and revise check only the local predecessor; the theorems are
about every reachable registry and about releases that are not neighbours.

**Inventories** (`Inventory*.dfy`, `Sorting.dfy`, `CatalogIds.dfy`, `Publications.dfy`). The
validator, the merge with its owner-tracking conflict gate, the separately written gate of the
comparison, identity assignment, and publication bookkeeping.

**The chart bumper** (`SemVer.dfy`, `SemVerText.dfy`, `ChartText.dfy`, `ValuesPath.dfy`, `ValuesEdit.dfy`,
`AppVersion.dfy`, `AppLines.dfy`, `Charts.dfy`, `SingleImage.dfy`, `FileCommit.dfy`,
`PinLoop.dfy`, `ChartRun.dfy`, `ArtifactVersion.dfy`). Section 11 of SemVer 2.0.0 with the `nv-`
wrapper rule, the line shapes on the text itself, the indentation stack, in-place rewriting, the
multi-file commit on a disk whose writes fail in any pattern, artifact formats, and the loop that
only moves pins up.

**Marked blocks** (`MarkedBlocks.dfy`). First-occurrence search and splice.

What an operation computes is stated a second time on its inputs alone, without the model's own
parsers and lookups: `SemVerText` and `InventoryText` on printed texts, `RegistryMeaning` on the
repository and the file, `TagLookupIff` and `Allows` on the server, the `...Iff` and `...Means`
lemmas elsewhere.

## What the proofs turned up

- Two publishers that both look for the release before either creates it leave two drafts, and
  from then on no run ever succeeds (`PublisherRerun.RacingCreatorsBlock`). A rerun succeeds after
  every run in which this does not happen (`RerunSucceeds`), and always after a lone publisher.
- `registerEdition` does not look at the mode: what it writes can be read back exactly when the
  caller passes a plain release (`EditionRegistry.RegisterReadableIff`), and any other mode locks
  the file (`OddModeLocksTheFile`). The command line always passes a plain release
  (edition_command.go:100), so only another caller can reach this.
- `compareVersions` and a patch bump panic on a version with `+build`, which
  `validStableStackVersion` admits. The model has a `Panic` outcome instead of a precondition.
- A bare value that ends at a stray quote followed by more text (`tag: 1.0"abc`) is rewritten to
  something else than the version. Each rewrite uses up one quote, and the value is spoilt at the
  rewrites that `ChartText.Spoils` reads off the line. The exact conditions: for declared paths,
  repeated or not (`ValuesEdit.PathsReadBackIff`, `Charts.DeclaredMovesIff`), for single-image
  charts (`SingleImage.SingleMovesIff`, `LastsOneMove`), and for whole sequences of runs
  (`PinLoop.PinReportedIff`).
- When Chart.yaml is itself a declared values file, the appVersion edit is always lost
  (`Charts.DeclaredChartLosesAppVersion`). Planning again then reports the new version exactly
  when the path `appVersion` is declared too and lands on an unindented line
  (`Charts.TidyMovesIff`); declaring the path is not enough, since an indented key of that name
  at the top of the file takes it (`AppLines.IndentedTakesPath`).
- `Apply` writes two files without a rollback; after the first write alone every later run
  refuses the chart (`SingleImage.HalfAppliedIsRefused`).
- `main.go` says that a failure means no chart moved. That holds exactly when the first chart that
  is not passive (manual, skipped, refused or not a bump) is the one that fails; otherwise that
  chart has been written (`ChartRun.CleanFailureIff`).
- An artifact such as `${upstream}` is recovered under the format `${release}` and renders to
  nothing (`ArtifactVersion.PlaceholderTagIsLost`); `RecoveredRendersIff` says for which artifacts
  recovering and rendering agree. `validate` accepts `${up${release}stream}`, which then works as
  a format without an upstream value (`NestedIsAccepted`).
- The inventory validator finds a release for a source that moves the slash of the lookup key into
  its plane. The two conflict gates differ exactly on such sources (`InventoryGates.GatesAgree`),
  and there are valid inventories that the merge accepts and the comparison refuses
  (`InventoryWitnesses.SlashedPlaneSplitsGates`).
- The reference of a chart whose version holds `@` does not determine its fields. The merge then
  keeps one chart of two: it is a union of whole artifacts exactly when no two of them share type
  and reference but differ (`InventoryMerge.UnionIff`), and both gates let such a pair through
  (`InventoryWitnesses.AtSignLosesChart`).

## Model

| member | source | states |
|---|---|---|
| `Versions.NumericIdentifierByValue` | tools/docs-version-sync/github.go:489-497 | Comparing canonical digit strings of any length by length and then text is comparing the numbers, and a tie means equal strings |
| `Versions.CompareVersionsByCore` | tools/docs-version-sync/compatibility.go:112-121 | On bare versions the comparison is the lexicographic order of the three numbers, and a tie means equal strings |
| `Versions.ReleaseLocalIsBare` | tools/docs-version-sync/umbrella_manifest.go:146-148 | The release-local predicate admits exactly the bare X.Y.Z versions |
| `Versions.TextIsStable` | tools/docs-version-sync/github.go:454-456 | Three printed numbers with any build suffix of identifiers are a stable version with these very numbers, bare exactly without the suffix |
| `Versions.StableIsText` | tools/docs-version-sync/github.go:454-456 | And every stable version is such a text |
| `Versions.BumpHasOneSuccessor` | tools/docs-version-sync/edition.go:140-176 | After a bare version each kind of change accepts exactly one text: the printed successor |
| `Versions.BumpIff` | tools/docs-version-sync/edition.go:140-176 | On texts: a release is accepted after another exactly when it is the printed successor and the suffix of the other is absent or, but for a patch, holds no dot; the first one exactly when it declares `initial`; a patch after a suffix panics |
| `Versions.SuccessorIsLeast` | tools/docs-version-sync/edition.go:160-172 | The successor is the least version that raises the declared part and keeps the parts before it |
| `Versions.AcceptedBumpIsSuccessor` | tools/docs-version-sync/edition.go:140-176 | Any accepted non-initial version is bare, and its numbers are the successor of its predecessor's, also when that carries `+build` |
| `Versions.ValidateEditionBump` | tools/docs-version-sync/edition.go:140-176 | Splitting, incrementing as a big integer, zeroing in place and joining decides as the successor rule does, with the panic on a `+build` patch bump |
| `Editions.StackAcceptsIff` | tools/docs-version-sync/edition.go:185-204 | A stack step is accepted exactly when it is not down, keeps the major unless the change is major, and does not change the minor alone in a patch; it panics exactly on versions that are not bare |
| `Editions.EditionAcceptsIff` | tools/docs-version-sync/edition.go:178-207 | An edition is accepted after another exactly when it names it, its version may follow and so may each of the three stacks |
| `Editions.AcceptedStackStep` | tools/docs-version-sync/edition.go:178-207 | An accepted stack step keeps the version or raises it, keeps its major unless the change is major and its minor when the change is a patch |
| `Umbrella.UmbrellaAcceptsIff` | tools/docs-version-sync/umbrella_manifest.go:167-187 | A release is accepted after another exactly when that one is qualified and named, the version may follow, each of the three stacks may take its step, and a stack that stays keeps tag, commit and digest; the first one exactly when it names none and declares `initial` |
| `Umbrella.AcceptedStep` | tools/docs-version-sync/umbrella_manifest.go:167-187 | An accepted transition is the one successor release, every stack passes its own step, and a stack that stays keeps tag, commit and inventory |
| `Umbrella.ChainIncreases` | tools/docs-version-sync/umbrella_manifest.go:167-187 | Between any two releases of an accepted chain the release version strictly increases and no stack regresses |
| `Umbrella.SameVersionSameSource` | tools/docs-version-sync/umbrella_manifest.go:167-187 | Any two releases of a chain that select one version of a stack select the same tag, commit and inventory digest |
| `Umbrella.SharedReleaseSharesStacks` | tools/docs-version-sync/edition.go:140-207 | Releases of a chain that share a major hold the major of every stack; those that share major.minor hold every stack's major.minor |
| `EditionRegistry.RegistryFile.Read` | tools/docs-version-sync/edition_registry.go:33-64 | Reading succeeds exactly on valid, pairwise distinct entries with a registered default |
| `EditionRegistry.RegistryFile.RegisterEdition` | tools/docs-version-sync/edition_registry.go:258-301 | The file and the verdict after the loops are those of the registration step |
| `EditionRegistry.RegistryFile.ReviseDocs` | tools/docs-version-sync/umbrella_docs.go:223-264 | The file and the verdict after the loop are those of the revision step, whose meaning `RegistryMeaning.ReviseMeans` states |
| `RegistryMeaning.ReadableIff` | tools/docs-version-sync/edition_registry.go:33-64 | The file can be read exactly when every entry is a plain or an umbrella one by its fields, versions differ and the default is registered |
| `RegistryMeaning.RegisterMeans` | tools/docs-version-sync/edition_registry.go:258-301 | A registration succeeds exactly when the catalog at the commit is the qualified edition of the version and may follow the default, or the very entry is there; a new version is then first and the default, and nothing else changes |
| `RegistryMeaning.ReviseMeans` | tools/docs-version-sync/umbrella_docs.go:223-264 | A revision succeeds exactly when the catalog at the commit binds the qualified product and the version is new or holds that product; the version is then at the commit, which is among its revisions, every other entry is as it was, and nothing changes exactly when it was there already |
| `RegistryMeaning.ReviseHeld` | tools/docs-version-sync/umbrella_docs.go:234-258 | A registered version moves in its place, with the commit appended to its revisions unless it is among them |
| `RegistryMeaning.ReviseNew` | tools/docs-version-sync/umbrella_docs.go:248-255 | A version that is not registered is added at the end, and becomes the default of a file without one |
| `EditionRegistry.RegistryFile.ValidatePredecessors` | tools/docs-version-sync/edition_registry.go:205-232 | The two loops over catalogs accept exactly when every entry verifies and each legacy entry follows its named predecessor |
| `RegistryMeaning.PassesIff` | tools/docs-version-sync/edition_registry.go:205-232 | On the repository and the file alone: the check accepts exactly when the file can be read, every outside check passes, every entry stands for its catalog, and each catalog without a product follows the registered one it names |
| `EditionRegistry.CollectCatalogs` | tools/docs-version-sync/edition_registry.go:205-220 | The first loop succeeds exactly when every entry verifies, and files each catalog under its version |
| `EditionRegistry.CheckCatalogs` | tools/docs-version-sync/edition_registry.go:221-232 | The second loop's verdict does not depend on the order of the map |
| `EditionRegistry.ExecuteKeeps` | tools/docs-version-sync/edition_registry.go:258-301 | Every command keeps the invariant and lets the registry only evolve |
| `EditionRegistry.EveryReachableRegistry` | tools/docs-version-sync/edition_registry.go:33-64 | On every run: distinct versions, registered default, revision lists with the current commit and no duplicates, and, for every entry of plain mode, a qualified catalog whose predecessor check still holds after revisions |
| `EditionRegistry.EveryReachablePair` | tools/docs-version-sync/umbrella_docs.go:223-264 | Between any two states: mode, ref, product commit and digest never change, legacy entries not at all, revision lists only grow, and the default only moves to a strictly larger version |
| `EditionRegistry.ReachableRegistryPasses` | tools/docs-version-sync/edition_registry.go:205-232 | In every reachable registry the registry check passes exactly when every outside check does |
| `EditionRegistry.RegisterReadableIff` | tools/docs-version-sync/edition_registry.go:258-301 | What a registration writes can be read back exactly when the caller passed a plain release |
| `EditionRegistry.OddModeLocksTheFile` | tools/docs-version-sync/edition_registry.go:258-301 | A release that would be added is added under any other mode but `umbrella` as well, and every later command fails on the file |
| `EditionRegistry.RevisionsAgree` | tools/docs-version-sync/umbrella_docs.go:84-96 | Two revisions of one product give the same verdict in every transition |
| `PublisherMachine.StepKeeps` | tools/docs-version-sync/umbrella_publish.go:140-293 | One step of one publisher keeps the invariant of the server and of its own state |
| `PublisherMachine.NextKeeps` | tools/docs-version-sync/umbrella_publish.go:140-293 | So does a step of any one of several interleaved publishers, for all of them |
| `PublisherSafety.EveryRunIsSafe` | tools/docs-version-sync/umbrella_publish.go:140-183 | In every interleaving and at every crash point no asset changes, and a release that leaves the draft state holds exactly the expected names and bytes |
| `PublisherSafety.StableReleasesAreNotWritten` | tools/docs-version-sync/umbrella_publish.go:140-183 | No request of any publisher adds to a release that is stable at that moment, even when the publisher still takes it for a draft |
| `PublisherSafety.SuccessMeansPublished` | tools/docs-version-sync/umbrella_publish.go:245-293 | A run without error leaves a release with the tag, target and notes and exactly the expected map and, when promoting, a stable one whose tag leads to the target through at most five annotated tags |
| `ReleaseServer.TagLookupIff` | tools/docs-version-sync/umbrella_publish.go:185-209 | On any server a tag selects a commit exactly when at most five annotated tags lead from it to the commit, and is missing exactly when it is not there |
| `PublisherSafety.TornUploadBlocksPromotion` | tools/docs-version-sync/umbrella_publish.go:140-183 | An asset that is not fully uploaded keeps its release a draft on every later run |
| `PublisherSafety.CompleteIsExact` | tools/docs-version-sync/umbrella_publish.go:140-183 | A release that passed the asset check is exactly the expected map with nothing half-uploaded |
| `PublisherLiveness.SucceedsIffPublishable` | tools/docs-version-sync/umbrella_publish.go:245-293 | With every request served, publish succeeds exactly on servers where the component releases are public with their tags and bytes, the tag is absent or leads to the target, and the release of the tag, if there is one, has the identity and nothing but expected assets, all of them once it is stable |
| `PublisherLiveness.SourceOkIff` | tools/docs-version-sync/umbrella_publish.go:211-243 | A component release passes exactly when its first published release is stable, its tag leads to its commit and the inventory is there, uploaded, with the expected bytes |
| `PublisherRerun.RerunSucceeds` | tools/docs-version-sync/umbrella_publish.go:245-293 | After any run of any publishers with whole uploads and no second draft, however they crashed, a served rerun succeeds |
| `PublisherRerun.LoneRerunSucceeds` | tools/docs-version-sync/umbrella_publish.go:245-293 | From the state left by any prefix of one publisher's run with whole uploads, a served rerun succeeds |
| `PublisherRerun.DuplicatesBlock` | tools/docs-version-sync/umbrella_publish.go:99-119 | Two releases with the tag block every later run |
| `PublisherRerun.RacingCreatorsBlock` | tools/docs-version-sync/umbrella_publish.go:245-293 | On every publishable server without the release, one interleaving of two publishers leaves two drafts, after which no run succeeds |
| `PublisherRun.FindReleaseByTag` | tools/docs-version-sync/umbrella_publish.go:99-119 | The paging loop reports none, the one, or a duplicate, by the number of releases with the tag over all pages |
| `PublisherRun.ListAssets` | tools/docs-version-sync/umbrella_publish.go:121-138 | The paging loop gives every asset by name, or fails exactly when a name repeats |
| `PublisherRun.PeelTag` | tools/docs-version-sync/umbrella_publish.go:199-207 | The loop over annotated tags accepts exactly when at most five of them lead to the target |
| `PublisherRun.Publisher.VerifyTag` | tools/docs-version-sync/umbrella_publish.go:185-209 | The tag check is the machine's tag step, and passes only if the tag leads to the target or may be and is missing |
| `PublisherRun.Publisher.VerifyAssets` | tools/docs-version-sync/umbrella_publish.go:140-183 | The asset check with its loop is a run of the machine to the step after it, or to failure |
| `PublisherRun.Publisher.Publish` | tools/docs-version-sync/umbrella_publish.go:245-293 | Whatever the server answers, publish is a run of the machine; on success the release is published as promised, and assets are only ever added |
| `Inventory.ReleaseKeyIsPair` | tools/docs-version-sync/resolved_inventory.go:675-677 | Among known planes the joined lookup key determines plane and name |
| `Inventory.FieldsByReference` | tools/docs-version-sync/resolved_inventory.go:614-643 | Valid artifacts with one type and reference have the same fields exactly unless they are charts with versions of different lengths, and then a version holds `@` |
| `Sorting.AscendingIsUnique` | tools/docs-version-sync/resolved_inventory.go:679-701 | A sequence that strictly ascends under the comparators is determined by its members |
| `Sorting.SortAscends` | tools/docs-version-sync/resolved_inventory.go:679-701 | Sorting distinct keys with the comparators gives what the validator's strict order asks |
| `InventoryRun.Validate` | tools/docs-version-sync/resolved_inventory.go:541-612 | The loops over releases, artifacts and sources with their lookup tables accept exactly the valid inventories |
| `InventoryText.ValidIff` | tools/docs-version-sync/resolved_inventory.go:541-612 | On the fields alone: an inventory is valid exactly when releases, artifacts, sources and warnings are in order, planes are known, every artifact is well formed, every source names a release and fits it, and every release has its chart |
| `InventoryText.ArtifactIff` | tools/docs-version-sync/resolved_inventory.go:618-643 | An artifact is valid exactly as `REPOSITORY/NAME@VERSION` or as an image reference printed from its very fields |
| `InventoryText.ImageIff` | tools/docs-version-sync/resolved_inventory.go:474-512 | The parser gives exactly the fields a reference is printed from: repository with the name after its last slash, a tag without slash and colon, a digest; one of the two, and no bare `latest` |
| `InventoryRun.CheckReleases` | tools/docs-version-sync/resolved_inventory.go:564-574 | The first loop accepts exactly strictly ascending releases of known planes and fills the lookup table |
| `InventoryRun.CheckSources` | tools/docs-version-sync/resolved_inventory.go:588-606 | The source loop accepts exactly non-empty, strictly ascending sources that fit their releases, and collects the releases charted |
| `InventoryMerge.MergeApartSources` | tools/docs-version-sync/resolved_inventory.go:526-539 | Merging sources that share no release keeps all of them |
| `InventoryMerge.MergeSourceMeans` | tools/docs-version-sync/resolved_inventory.go:526-539 | One source more leaves each release named once, and required once any of its sources was |
| `InventoryMerge.TableIs` | tools/docs-version-sync/catalog_inventory.go:216-227 | The merge table has the keys of the inputs, the fields of the first artifact of each key, and all sources of all |
| `InventoryMerge.CombinedIsValid` | tools/docs-version-sync/catalog_inventory.go:166-244 | Valid inventories with disjoint releases combine to a valid inventory: the final validation cannot fail |
| `InventoryMerge.PairsAreUnion` | tools/docs-version-sync/catalog_inventory.go:195-234 | By type and reference: the pairs of artifact key and source of the result are exactly those of the inputs |
| `InventoryMerge.UnionIff` | tools/docs-version-sync/catalog_inventory.go:195-234 | By whole artifacts: the pairs of artifact and source of the result are exactly those of the inputs exactly when no two input artifacts share type and reference but differ in a field |
| `InventoryMerge.UnionWithoutAt` | tools/docs-version-sync/catalog_inventory.go:195-234 | They are whenever no chart version holds `@` |
| `InventoryWitnesses.AtSignLosesChart` | tools/docs-version-sync/catalog_inventory.go:195-234 | Valid inventories that both gates accept and whose merge is not the union: charts `r/n` at `1@2` and `r/n@1` at `2` |
| `InventoryMerge.CombinedIsUnique` | tools/docs-version-sync/catalog_inventory.go:229-240 | The result does not depend on the order in which the table is walked |
| `InventoryMergeRun.Merge` | tools/docs-version-sync/catalog_inventory.go:166-244 | The merge succeeds exactly when all inventories are there and valid, name no release twice and pass the gate; it returns the one combined inventory and never fails on its own result |
| `InventoryMergeRun.ThreeStacks` | tools/docs-version-sync/catalog_inventory.go:166-184 | The inputs are the self-managed, compute-plane and observability inventories, in this order |
| `InventoryMergeRun.AddArtifacts` | tools/docs-version-sync/catalog_inventory.go:195-227 | The artifact loop of one stack passes exactly when the gate does, and leaves the table of all artifacts so far |
| `InventoryMergeRun.AddReleases` | tools/docs-version-sync/catalog_inventory.go:187-194 | The release loop passes exactly when no lookup key occurs twice |
| `InventoryMergeRun.CompareFiles` | tools/docs-version-sync/inventory_compare.go:42-100 | The comparison's loop accepts exactly when every file is valid and every artifact passes against all before |
| `InventoryGates.OwnerGateIsPairwise` | tools/docs-version-sync/catalog_inventory.go:195-214 | Tracking only the first owner of an identity decides as comparing every pair does |
| `InventoryGates.GateMeans` | tools/docs-version-sync/catalog_inventory.go:195-214 | The gate accepts exactly when any two artifacts of one type and name have one reference, or are two tags of one image repository in one stack |
| `InventoryGates.CompareGateIsPairwise` | tools/docs-version-sync/inventory_compare.go:80-100 | The comparison gate decides the same pairwise condition, once every source names its plane in full |
| `InventoryGates.CompareGateMeans` | tools/docs-version-sync/inventory_compare.go:80-131 | For any valid artifacts: the comparison accepts exactly when every source is of a known plane and any two of one type and name have one reference or are two tags of one image repository that one plane alone uses |
| `InventoryGates.GatesAgree` | tools/docs-version-sync/inventory_compare.go:80-246 | For valid inventories of distinct stacks, in any file order, the comparison accepts exactly when the merge does and every source plane is plain |
| `InventoryGates.OwnedStacks` | tools/docs-version-sync/inventory_compare.go:106-131 | In a valid inventory of one plane an artifact belongs to exactly that plane's stack, or its sources are not plain and it is refused |
| `InventoryGates.SlashedPlaneIsFound` | tools/docs-version-sync/resolved_inventory.go:592-594 | A source with the slash moved into its plane finds its release, and its plane is unknown to the comparison |
| `InventoryWitnesses.SlashedPlaneSplitsGates` | tools/docs-version-sync/inventory_compare.go:80-131 | Inventories with such a source that are valid, that the merge accepts and that the comparison refuses |
| `CatalogIds.SearchShrinks` | tools/docs-version-sync/catalog_inventory.go:700-706 | Each used candidate leaves fewer to meet, so the ordinal search ends on every input |
| `CatalogIds.FindFree` | tools/docs-version-sync/catalog_inventory.go:699-706 | The search loop gives the first candidate that is not in use |
| `CatalogIds.AssignKeeps` | tools/docs-version-sync/catalog_inventory.go:676-710 | Every preset ID and every other field is kept, and each missing ID becomes a non-empty one |
| `CatalogIds.AssignedIs` | tools/docs-version-sync/catalog_inventory.go:676-710 | An artifact with an ID or a name of its own stays; any other gets the first of name-type, with the version if both are shared, and its numbered forms that no preset ID, no single name and no ID given before has |
| `CatalogIds.KeysDistinctIff` | tools/docs-version-sync/catalog_inventory.go:676-710 | All catalog keys end up distinct exactly when preset IDs differ from one another and from the names of single unlabelled artifacts |
| `CatalogIds.AssignIds` | tools/docs-version-sync/catalog_inventory.go:676-710 | The three loops over the slice, in place, give that assignment |
| `Publications.Catalog.RetainCurrent` | tools/docs-version-sync/catalog_inventory.go:552-570 | Exactly the publications whose identity is current, not from upstream and in a public registry stay, in order |
| `Publications.RetainedIff` | tools/docs-version-sync/catalog_inventory.go:552-570 | A publication is retained exactly when the last artifact of its identity is not from upstream and its registry is defined and public |
| `Publications.RetainInOrder` | tools/docs-version-sync/catalog_inventory.go:552-570 | Each publication is retained or dropped by itself, in its place |
| `Publications.Catalog.MarkUnpublished` | tools/docs-version-sync/catalog.go:1018-1026 | The keys of the unpublished artifacts are appended |
| `Publications.MarksInOrder` | tools/docs-version-sync/catalog.go:1018-1026 | Each artifact is marked or not by itself, in its place |
| `Publications.Catalog.Reconcile` | tools/docs-version-sync/catalog.go:1028-1048 | The pending list becomes the sorted set of keys of unpublished artifacts that some marker names by key or by name |
| `Publications.ConfirmedIff` | tools/docs-version-sync/catalog.go:1028-1048 | A key stays pending exactly when it is that of an artifact neither published nor from upstream and a marker is its key or its name |
| `Publications.Catalog.Refresh` | tools/docs-version-sync/catalog_inventory.go:129-131 | The three steps leave retained publications and, as pending list, the sorted key set of the unpublished artifacts |
| `Publications.RefreshedIsStable` | tools/docs-version-sync/catalog.go:1018-1048 | Running the three steps again changes nothing |
| `Publications.ExactlyOneState` | tools/docs-version-sync/catalog.go:812-819 | Every artifact with a key and an identity of its own is exactly one of upstream, published, pending |
| `SemVer.NumericByValue` | tools/chart-version-bumper/bumplevel.go:164-170 | Comparison after trimming zeros is comparison by value, for digit strings of any length |
| `SemVer.ComparePrereleaseLoop` | tools/chart-version-bumper/bumplevel.go:123-151 | The loop over identifiers gives the first difference, then the length |
| `SemVerText.ParseIff` | tools/chart-version-bumper/bumplevel.go:12-17 | The parser gives exactly the parts a text `[v]X.Y.Z[-PRE][+BUILD]` is printed from |
| `SemVerText.TextKey` | tools/chart-version-bumper/bumplevel.go:86-121 | The place of a version, what it wraps included, is by the values of the parts it is printed from |
| `SemVerText.CompareTexts` | tools/chart-version-bumper/bumplevel.go:86-109 | Any two texts compare exactly when both are printed versions, white space around them aside, and then by the order of what they are printed from |
| `SemVer.CompareByKey` | tools/chart-version-bumper/bumplevel.go:86-109 | The recursion gives a result exactly on parseable versions, inner ones included, and it is the order of nested keys |
| `SemVer.VersionsTotallyPreordered` | tools/chart-version-bumper/bumplevel.go:86-109 | On all versions with nested wrappers the comparison is a total preorder whose ties are equal keys |
| `SemVer.SectionElevenPrecedence` | tools/chart-version-bumper/bumplevel.go:86-151 | Without wrappers it is the precedence of section 11 of SemVer 2.0.0, stated on its own |
| `SemVerText.PrecedenceOfTexts` | tools/chart-version-bumper/bumplevel.go:86-151 | The same on printed versions: numbers by value first, a pre-release below its release, identifiers one by one |
| `SemVerText.NumbersDecide` | tools/chart-version-bumper/bumplevel.go:92-96 | The numbers decide first, for wrappers too |
| `SemVerText.WrappersOfTexts` | tools/chart-version-bumper/bumplevel.go:97-121 | On printed versions of one core a wrapper is above all else, and two wrappers compare as what they wrap |
| `SemVer.WrapperPrecedence` | tools/chart-version-bumper/bumplevel.go:98-121 | On one core a wrapper sorts above everything else, and two wrappers by what they wrap |
| `SemVer.LevelMeansUpgrade` | tools/chart-version-bumper/bumplevel.go:25-47 | A reported level means a strict upgrade; an upgrade without a level stays on its core or does not fit in 64 bits |
| `SemVerText.LevelOfTexts` | tools/chart-version-bumper/bumplevel.go:25-47 | On printed versions: the level names the first number that rises, and there is one exactly when a number does before any falls and all fit in 64 bits |
| `SemVer.HigherLevelIs` | tools/chart-version-bumper/bumplevel.go:50-56 | Major is above minor above patch above none |
| `ChartText.ParsePrinted` | tools/chart-version-bumper/chart.go:65-71 | A printed line parses to the parts it was printed from |
| `ChartText.PrintParsed` | tools/chart-version-bumper/chart.go:65-71 | What a line parses into prints back as the line |
| `ChartText.RewriteReadsBack` | tools/chart-version-bumper/chart.go:585-590 | A rewritten value reads the new version exactly unless it fuses; a tidy one never does and stays tidy |
| `ChartText.UntidyFuses` | tools/chart-version-bumper/chart.go:65-71 | A value that is not tidy is followed by a quote, and fuses now exactly if by one |
| `ChartText.TidyIff` | tools/chart-version-bumper/chart.go:65-71 | A value is tidy exactly when no number of rewrites spoils it; any other is spoilt first at the rewrite that takes its last quote |
| `ChartText.LastsOneLess` | tools/chart-version-bumper/chart.go:585-590 | One rewrite reads back exactly if the value lasts one, and the new value lasts one rewrite less |
| `ValuesPath.PopIsChain` | tools/chart-version-bumper/chart.go:132-134 | Popping the stack to an indent leaves exactly the recursively defined ancestor chain |
| `ValuesPath.FindOwner` | tools/chart-version-bumper/chart.go:125-155 | The one-pass scan with its stack finds the first line whose full ancestor path is the requested one |
| `ValuesPath.ResolveValuesPath` | tools/chart-version-bumper/chart.go:119-155 | Resolution returns that line and its value, or says that there is none or that it has no scalar |
| `ValuesPath.FirstOwnerIsFirst` | tools/chart-version-bumper/chart.go:119-155 | That line has the requested path and no earlier one does |
| `ValuesPath.AboveIsNearest` | tools/chart-version-bumper/chart.go:96-103 | The parent is the nearest earlier key line with a smaller indent |
| `ValuesPath.FindImageTags` | tools/chart-version-bumper/chart.go:88-109 | The backward scans find exactly the valued tag lines whose parent is an image key |
| `ValuesPath.ImageTagPath` | tools/chart-version-bumper/chart.go:88-155 | The backward scan and the stack have one notion of parent: image tags are the valued lines whose full path ends in image.tag |
| `ValuesPath.PathsApart` | tools/chart-version-bumper/chart.go:119-155 | Different paths never resolve to one line |
| `ValuesEdit.PathsMove` | tools/chart-version-bumper/chart.go:424-435 | For any list of paths that resolve, repeated or not, the edit is done and each line is rewritten as often as a path lands on it |
| `ValuesEdit.RewritesRead` | tools/chart-version-bumper/chart.go:424-435 | A line rewritten several times keeps its frame and reads the version back exactly unless that number of rewrites spoils it |
| `ValuesEdit.TidyPathsMove` | tools/chart-version-bumper/chart.go:424-435 | On tidy lines, for any list of paths, every line a path lands on reads the new version and every other line is the same |
| `ValuesEdit.DistinctPathsMove` | tools/chart-version-bumper/chart.go:424-435 | With no path twice, each line is rewritten once and no other changes |
| `ValuesEdit.PathsReadBackIff` | tools/chart-version-bumper/chart.go:424-435 | All paths, repeated or not, read the new version afterwards exactly when no line is spoilt by as many rewrites as paths land on it |
| `ValuesEdit.LinesLastNext` | tools/chart-version-bumper/chart.go:424-435 | The lines last one edit more than the edited ones, exactly if this edit reads back |
| `ValuesEdit.FusedLines` | tools/chart-version-bumper/chart.go:65-71 | The family of lines for which a rewrite reads something else |
| `ValuesEdit.EditBuffer` | tools/chart-version-bumper/chart.go:424-440 | The loop over a buffer's paths, each resolved in what the ones before left, gives the edited file |
| `ValuesEdit.FileMoves` | tools/chart-version-bumper/chart.go:424-440 | The written file, split again, reads the new version at every path and is tidy for the next edit |
| `AppVersion.ReplaceReadsBack` | tools/chart-version-bumper/chart.go:450-470 | The first appVersion match of the whole text stays first after the replacement, across line breaks, and reads the new version exactly unless it fuses |
| `AppVersion.ReplaceMeans` | tools/chart-version-bumper/chart.go:450-470 | The replacement changes the value of the first match and nothing else of the text |
| `AppLines.FindReads` | tools/chart-version-bumper/chart.go:46-46 | The match over the whole text, across line breaks, is what a reading line by line gives |
| `AppLines.AppFileMoves` | tools/chart-version-bumper/chart.go:411-473 | In a Chart.yaml edited as a values file, appVersion reads the new version exactly when the path `appVersion` is declared, lands on an unindented line and reads it |
| `AppLines.IndentedTakesPath` | tools/chart-version-bumper/chart.go:125-155 | An indented `appVersion` at the top of the file takes the path away from the one that is read |
| `FileCommit.Disk.Commit` | tools/chart-version-bumper/chart.go:524-541 | For any pattern of failing or torn writes: success leaves every update, an error leaves every file outside the reported ones at its original, and unlisted files are never touched |
| `FileCommit.Disk.Restore` | tools/chart-version-bumper/chart.go:527-534 | The rollback reports every listed file that is not back at its original |
| `FileCommit.OverlayLands` | tools/chart-version-bumper/chart.go:524-541 | With each file listed once, each ends as its update |
| `Charts.PlanDeclaredIff` | tools/chart-version-bumper/chart.go:326-396 | Planning moves a target exactly when all declared places and the owned appVersion hold one version that is not floating |
| `Charts.PlanDeclaredFails` | tools/chart-version-bumper/chart.go:326-396 | Planning skips exactly without a needed Chart.yaml, and fails exactly without valid declarations, when a file cannot be read before a path does not resolve, or when all places agree and the owned Chart.yaml cannot be read |
| `Charts.DeclaredMovesIff` | tools/chart-version-bumper/chart.go:326-473 | Planning again after a move of any planned target reports the new version exactly when no rewritten line is spoilt and the owned appVersion follows, and the target lasts one move less then |
| `Charts.TidyMovesIff` | tools/chart-version-bumper/chart.go:411-473 | Of a planned target with tidy lines, planning again reports the new version exactly when appVersion is not owned, or Chart.yaml is not declared, or the path `appVersion` is declared in it at an unindented line |
| `Charts.DeclaredMoves` | tools/chart-version-bumper/chart.go:411-473 | A planned target with tidy lines, applied: every declared path in every file reads the new version, other lines and files are untouched, the lines stay tidy, and planning again reports the version where appVersion can follow |
| `Charts.DeclaredCanApply` | tools/chart-version-bumper/chart.go:411-473 | What is planned can always be prepared |
| `Charts.DeclaredChartLosesAppVersion` | tools/chart-version-bumper/chart.go:444-473 | With Chart.yaml among the declared files the result is as if appVersion were not owned |
| `Charts.PathsInHolds` | tools/chart-version-bumper/chart.go:480-493 | The paths applied to a file are exactly those of all its declarations |
| `ChartRun.GroupSpecs` | tools/chart-version-bumper/chart.go:480-493 | One group for each declared file with all its declarations in order: no declaration is lost |
| `ChartRun.PlanForValuesPaths` | tools/chart-version-bumper/chart.go:326-396 | The loops over declarations and values give the plan, the first trouble deciding |
| `ChartRun.AllUpdates` | tools/chart-version-bumper/chart.go:411-473 | Everything is prepared before the first write, exactly when every file and appVersion can be, and the updates written in order are the edit |
| `ChartRun.ApplyValuesPaths` | tools/chart-version-bumper/chart.go:411-473 | Applied leaves the edit, rejected changes nothing, and a failed commit leaves every file outside the reported ones as it was |
| `ChartRun.Apply` | tools/chart-version-bumper/chart.go:266-320 | Success leaves both files moved; a failure leaves only Chart.yaml in doubt, or Chart.yaml written and only values.yaml in doubt; no third file is ever touched |
| `ChartRun.Run` | tools/chart-version-bumper/main.go:128-198 | Whatever the disk does, a run without an error leaves the files, the exit code and the level of the step-by-step run; one with an error has done every chart before the one it ended at and touched nothing but files of that one beyond it; nothing is written without the write flag |
| `ChartRun.ExitCodeMeans` | tools/chart-version-bumper/main.go:60-67 | The code is 1 exactly when a chart stops the run, 3 exactly when none does and one is refused, and 0 otherwise |
| `ChartRun.LevelIsLargestStep` | tools/chart-version-bumper/main.go:166-196 | The reported level is the highest of all steps taken |
| `ChartRun.HighestIsOne` | tools/chart-version-bumper/bumplevel.go:50-56 | The highest level bounds every step and is one of them |
| `ChartRun.CleanFailureIff` | tools/chart-version-bumper/main.go:60-67 | A failing run leaves all files as they were exactly when the first chart that is not passive on them is the failing one; otherwise that chart has been written, and its pin is the artifact exactly if the chart lasts a move |
| `ChartRun.FailsCleanly` | tools/chart-version-bumper/main.go:60-67 | For any charts: if the first that is not passive stops the run, no file has changed |
| `ChartRun.FailingIsError` | tools/chart-version-bumper/main.go:142-183 | For an artifact that can be pinned only a planning error stops a run; a planned chart can always be prepared |
| `SingleImage.OneTagMoves` | tools/chart-version-bumper/chart.go:296-320 | A file with one image tag has that one tag after the rewrite and all other lines as before; the tag reads the new version exactly unless it fuses, and then no inline image appears |
| `SingleImage.PlanSingleIff` | tools/chart-version-bumper/chart.go:184-262 | Each plan by the files alone: skipped, failing, moving with the one tag whose path ends in image.tag and which holds the appVersion, moving without one, or refused |
| `SingleImage.RetaggedNotInline` | tools/chart-version-bumper/chart.go:64-64 | Rewriting a tag line that does not fuse makes no line an inline image |
| `SingleImage.RetaggedReads` | tools/chart-version-bumper/chart.go:296-320 | A rewritten tag line keeps its frame and reads the new version exactly unless the scalar that the rewrite sees fuses |
| `SingleImage.SingleMovesIff` | tools/chart-version-bumper/chart.go:184-320 | A planned single-image chart, applied: at most one values line and no other file changes, and planning again reports the new version with the same action exactly when the chart lasts a move; it lasts one less then |
| `SingleImage.LastsOneMove` | tools/chart-version-bumper/chart.go:184-320 | It lasts a move exactly when neither the appVersion scalar nor the tag scalar that moves along fuses |
| `SingleImage.HalfAppliedIsRefused` | tools/chart-version-bumper/chart.go:292-320 | With only Chart.yaml written, and not fused, planning refuses the chart |
| `PinLoop.ProcessMovesIff` | tools/chart-version-bumper/main.go:148-185 | One run reports the winner of pin and release as pin, with the same action, exactly when the target lasts its move, if there is one |
| `PinLoop.PinReportedIff` | tools/chart-version-bumper/main.go:130-186 | Every run of a sequence reports the expected pin exactly when the target lasts as many moves as releases win |
| `PinLoop.PinIsMaximum` | tools/chart-version-bumper/main.go:130-186 | After any sequence of releases of a service, with an artifact format or without, the release that the pin stands for is the maximum of the initial one and all of them, and no run refuses on the way; a pin that does not match the format stays |
| `PinLoop.RenderedIsIssuedIff` | tools/chart-version-bumper/artifact.go:65-143 | A rendered release counts in that maximum exactly when its separator does not occur too early in the artifact |
| `PinLoop.UnrecoveredStays` | tools/chart-version-bumper/main.go:156-161 | A pin that does not match the format is refused for every release and never moves |
| `PinLoop.OrderOfReleasesDoesNotMatter` | tools/chart-version-bumper/main.go:156-172 | Two orders of the same releases end in pins that stand for releases of the same precedence |
| `ArtifactVersion.ValidatedFormat` | tools/chart-version-bumper/artifact.go:93-117 | A declaration that validates is a format with each placeholder in its place only, with the upstream value exactly if a source is given, and with no other placeholder unless it is nested |
| `ArtifactVersion.ValidatesIff` | tools/chart-version-bumper/artifact.go:93-117 | A format with its placeholders in their places and not nested validates exactly when no other placeholder opens in it and its source is given exactly when it is used |
| `ArtifactVersion.NestedIsAccepted` | tools/chart-version-bumper/artifact.go:93-106 | `${up${release}stream}` validates without a source |
| `ArtifactVersion.RenderFills` | tools/chart-version-bumper/artifact.go:88-90 | The two substitutions fill in the placeholders of every validated format unless the release text makes a placeholder of its own, whatever the upstream value |
| `ArtifactVersion.RoundTripIff` | tools/chart-version-bumper/artifact.go:123-137 | For any format and texts the release comes back from its artifact exactly when it is one line and the separator does not occur before its place |
| `ArtifactVersion.RenderedRoundTripIff` | tools/chart-version-bumper/artifact.go:65-137 | The same for a parsed release and the artifact as rendered, for every validated format |
| `ArtifactVersion.EmptySeparator` | tools/chart-version-bumper/artifact.go:123-137 | An empty separator works exactly for a first part of one character |
| `ArtifactVersion.RecoveredRendersIff` | tools/chart-version-bumper/artifact.go:65-137 | What is recovered from an artifact renders, with some upstream value, to that artifact: always with the upstream value first, without one exactly when the artifact holds no `${upstream}`, and with the release first exactly when the second substitution finds its place or misses onto a text that ends as the artifact does |
| `ArtifactVersion.RecoveredVersionRenders` | tools/chart-version-bumper/artifact.go:65-137 | Whatever is recovered and parses as a version renders to that artifact |
| `ArtifactVersion.PlaceholderTagIsLost` | tools/chart-version-bumper/artifact.go:88-137 | Under `${release}` the artifact `${upstream}` is recovered as it is and renders to nothing |
| `MarkedBlocks.FindMarkedBlock` | tools/docs-version-sync/render.go:378-405 | The loop over the syntaxes with its duplicate checks finds the block that the search defines |
| `MarkedBlocks.FoundIsLocated` | tools/docs-version-sync/render.go:378-405 | What is found is the one block: the parts around and inside it hold no begin tag, and they print the content |
| `MarkedBlocks.LocatedIsFound` | tools/docs-version-sync/render.go:378-405 | Parts that hold no other begin tag are found where they were put |
| `MarkedBlocks.ReplaceKeepsAround` | tools/docs-version-sync/render.go:354-370 | The text before and after the block is kept, also when a legacy marker is upgraded |
| `MarkedBlocks.BlockMeans` | tools/docs-version-sync/render.go:354-423 | A call succeeds exactly when the content has one block of the marker, by the texts of its tags, and gives the content with the new text between two line breaks on either side, a legacy tag brought up to date and all else as it was |
| `MarkedBlocks.BlockIsIdempotent` | tools/docs-version-sync/render.go:354-370 | A second call returns the same content |
| `MarkedBlocks.BlocksCommute` | tools/docs-version-sync/render.go:354-423 | Two markers with blocks that do not overlap can be replaced in either order |

## Left out

- git, HTTP, helm, helmfile and fern calls, environment variables and clocks: their answers are parameters (a commit's catalog, a product's manifest, one verdict for the remote and reference checks of an entry, a reply for each request, an outcome for each write).
- JSON, YAML, tar, gzip and SHA-256: the model starts from parsed values; digests are compared as texts.
- Go's regular expressions: the few shapes are small parsers on the text.
- `ValidateCatalog` beyond what a transition and the registry read, and `validateUmbrellaManifest`: whether a manifest carries the evidence for promotion is a field of the publisher's inputs.
- PublisherRun.ListAssets: like PublisherRun.FindReleaseByTag, a listing sees one state of the server; pages that change between two requests of one listing are not modelled.
- `stackSourceRelease` validation: whether an inventory's source record is valid is a field of the record.
- InventoryRun.Validate: the duplicate check on type and reference is subsumed by the strict order and not repeated; maps that the code keys by two texts joined with NUL are keyed by the pair.
- InventoryMergeRun.CompareFiles: states the verdict of the loop, not the set of artifacts it collects or the report rendered from it.
- `ChartFiles` and `declaredValuesSpecs` path handling: a target names its files; that a declared file is relative to the chart is not modelled.
- Reading the upstream version from the source tree, and whether `source_pattern` compiles: parameters.
- PinLoop.PinIsMaximum: like ChartRun.CleanFailureIff, for artifacts without quotes, blanks, `#`, backslashes, colons and floating names, which every parsed release without a format is; the releases of a sequence share one format.
- ChartRun.CleanFailureIff: for charts after the first active one that do not write its files; the half that a clean prefix keeps the files (ChartRun.FailsCleanly) holds for any charts.
- `%q`: a version with a quote, a backslash, a blank, `#` or a character outside printable ASCII is not rewritten in the model; every release that parses is free of them.
- MarkedBlocks.BlockIsIdempotent: like MarkedBlocks.BlocksCommute and MarkedBlocks.BlockMeans, for markers without brackets and line breaks and rendered text without tags, as all markers of the catalogs are.
- File modes, messages, and the order of two error reports where the verdict is the same.
- `resolved_inventory_publish.go`, documentation rendering, `tools/collect-dependencies`, `tools/ci-health`, `tools/changelog-site`, `tools/chart-service-edge`, `tools/stack-pin-resolver`: mostly external calls and presentation.
