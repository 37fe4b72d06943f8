# HWS in Dafny

HWS is a workspace daemon for a GNOME desktop. Providers report what applications show; the daemon
merges the reports into application surfaces, publishes snapshots of them, and projects them to panel
cards. It also keeps a hierarchy of workspaces, reconciles workspace definitions with the running
desktop, and asks a shell extension to launch, place and close windows.

This project models the state-heavy parts of that system and proves what they promise. Each module
follows one source file or one group of files that work together:

| Module | Part of the system |
|---|---|
| `Layout` | the Activity Strip solver: which cards are shown, how wide, which overflow |
| `Registry`, `Identity`, `Merging`, `Aggregation`, `AggregatedSurface`, `Determinism` | the provider registry: ingesting reports, resolving identities, merging windows, aggregating surfaces, what the result holds, and when it is deterministic |
| `Surface` | application surfaces, their normal form and their snapshots |
| `Panel`, `Hub` | projection to panel cards, and concurrent refreshes that publish them |
| `Dsl` | the panel language's parser |
| `Hierarchy`, `HomeGrid` | the context tree, as the daemon builds it and as the shell rebuilds it |
| `Workspace`, `Reconcile`, `FakeDesktop`, `Lifecycle` | workspace definitions, reconciliation, the in-memory desktop, the lifecycle rules |
| `Placement`, `ShellDesktop`, `ShellOutcomes` | placing windows, the adapter that ensures and closes them through the shell, and what its operations come to |
| `Broker`, `ShellAction` | the request/response protocol with the shell, and the form of its messages |
| `Wrappers`, `Text`, `Sorting` | optional values, strings and their order, sorting |

Code that updates things step by step is a method or a class with the same branches, proved against a
specification; what is promised is then proved about the specification. Concurrent protocols (`Broker`,
`Hub`) are state machines over their atomic steps, and their theorems hold in every interleaving.

## What the proofs found

- A refresh that another refresh overtakes can take the surface generation and the shown panel spec back
  and replace a newer observation by an older one (`Hub.OvertakenRefreshGoesBack`). When each of the three
  happens is exact (`Hub.GenerationLoweredExactly`, `Hub.SpecLoweredExactly`,
  `Hub.ObservationGoesBackExactly`), and none of them happens to a refresh since whose beginning nothing was
  published. The panel revision still identifies the panel (`Hub.PanelRevisionIdentifiesPanel`).
- Evidence that HWS launched an application is kept by workspace and resource, not by application. So a
  later revision of a definition that names another application for the same resource lets HWS close
  windows it did not open. `ShellDesktop.ConsistentRunsCloseOnlyLaunchedApps` and
  `ShellDesktop.InconsistentRunsCanCloseOthers` say exactly for which sequences of operations this can
  happen.
- A placement on monitor 0 or workspace 0 never reaches the window: the zero is left out of the message
  and the shell refuses it (`ShellAction.ShellAcceptsAllButZero`, `ShellAction.PlacementsOnZeroAreLost`). On
  a desktop whose only monitor has index 0, the primary role resolves and is still refused
  (`ShellAction.OnlyMonitorIsLost`).
- If an activity error keeps the event's assignments and setting an equal status is not a change, a
  workspace can stay preparing for good (`Lifecycle.CanBeStuck`); `Lifecycle.LeftTransient` gives the
  exact condition.
- Views whose attention is not one of the three named values may tie. The order of views, and the revision
  of a snapshot, is canonical exactly when no two different attentions in a window have one rank
  (`Surface.ViewOrderIsCanonicalExactly`, `Surface.SnapshotIsCanonicalExactly`); with named values it always
  is.
- Two patches without a window id that meet an application with at most one window land in the same
  window, and only the views of the second survive (`Merging.AnonymousPatchesCollapse`).
- A completion that the broker accepts need not be consumed (`Broker.AcceptedNeedNotBeConsumed`).
- Two extension snapshots of one provider can tie in the sort and yet have one target
  (`Determinism.TiesArise`). Aggregation is deterministic, whatever the snapshots report, exactly when no two
  tied snapshots count for one application (`Determinism.DeterministicExactly`).
- The id of an urgent card of the Activity Strip can overflow exactly when a card that is not urgent carries
  it too (`Layout.OverflowsExactly`).

## Model

| member | source | states |
|---|---|---|
| `Layout.Solve` | internal/panel/layout.go:30-115 | for any cards the result is the degraded row, what the removal stage leaves of it, and its sort for display; with distinct card ids it is the first state that fits in one fixed chain of degradations |
| `Layout.CompactUntilFits` | internal/panel/layout.go:72-83 | the first loop walks the chain through its compact stage and stops at the first state that fits |
| `Layout.MicroUntilFits` | internal/panel/layout.go:84-91 | the second loop does the same through the micro stage |
| `Layout.RemoveUntilFits` | internal/panel/layout.go:92-109 | the third loop computes the removal stage for any ids; with distinct ids it walks the rest of the chain, and the overflow is the removed prefix of the collapse order |
| `Layout.FullRow` | internal/panel/layout.go:45-53 | the first row is the chain's first state, every card at full density |
| `Layout.NormalizeWidths` | internal/panel/layout.go:117-131 | a minimum that is not positive becomes 48, a preferred width is raised to the minimum and a maximum to the preferred width if it is below, and positive widths in order are kept |
| `Layout.RemoveById` | internal/panel/layout.go:101-108 | the first element with the id leaves the row and the id goes to the overflow; without such an element nothing changes |
| `Layout.ComputeUsed` | internal/panel/layout.go:132-141 | the accumulated width of a row with its gaps |
| `Layout.ChainNeverWidens` | internal/panel/layout.go:72-109 | no step of the chain makes the row wider |
| `Layout.StopIsThreshold` | internal/panel/layout.go:72-109 | a state of the chain fits exactly when it is at or after the one returned |
| `Layout.WiderNeverDegrades` | internal/panel/layout.go:54-115 | more available width never lowers a card's density and never adds an overflowed card |
| `Layout.LayoutConserves` | internal/panel/layout.go:54-115 | visible cards and overflow partition the input |
| `Layout.UrgentNeverOverflows` | internal/panel/layout.go:94-100 | with distinct ids an urgent card is never in the overflow |
| `Layout.OverflowRules` | internal/panel/layout.go:84-114 | overflow only when every visible card is micro; an overfull row holds only urgent cards at minimum width |
| `Layout.OverflowFollowsCollapseOrder` | internal/panel/layout.go:94-109 | the overflow is a prefix of the collapse order |
| `Layout.OverflowIsShortest` | internal/panel/layout.go:94-109 | no shorter prefix would have made the rest fit |
| `Layout.FinalSortIsIdentity` | internal/panel/layout.go:110-113 | the final sort to display order changes nothing: every chain state already is in that order |
| `Layout.IdsAreConserved` | internal/panel/layout.go:92-114 | for any cards, also with shared ids, every id is shown and overflowed together exactly as often as cards carry it, and each overflowed id is carried by a card that is not urgent |
| `Layout.OverflowsExactly` | internal/panel/layout.go:94-109 | some width and gap let an id overflow exactly when a card that is not urgent carries it, so the id of an urgent card can overflow exactly when it is shared with such a card |
| `Layout.FirstToGiveWay` | internal/panel/layout.go:54-109 | a card that is not urgent gives way before an urgent one, and of two alike the one of lower priority, then of smaller id: if the other overflows so does it, and while both are shown its density is no higher |
| `Layout.ShownAsItFits` | internal/panel/layout.go:45-91 | every placement is a card at the width of its density (preferred, half way, minimum), and no card is at full density while another is micro |
| `Layout.OneStepLessIsTooWide` | internal/panel/layout.go:72-109 | when a card is degraded or dropped, the row with one card one density higher, or with the last dropped card back, is too wide |
| `Layout.RowIsByPriority` | internal/panel/layout.go:38-43 | the row is displayed by priority, highest first, then by id |
| `Layout.UsedGrows` | internal/panel/layout.go:132-141 | each further card adds its width, and a gap unless it is the first |
| `Layout.FiguresAreTheRows` | internal/panel/layout.go:30-36 | used width and overfull are those of the row returned; negative widths and gaps count as zero |
| `Text.LeqIsLexicographic` | internal/panel/layout.go:42-42 | the order on strings: a prefix comes first, otherwise the first difference decides |
| `Text.TrimMeaning` | internal/providers/registry.go:66-70 | trimming leaves a slice of the string and drops only spaces |
| `Surface.ApplyPatch` | internal/surface/model.go:122-163 | each reported field replaces the current one and each absent one is kept; a reported progress is clamped to 0..1; source, confidence and time are recorded |
| `Surface.PatchesCompose` | internal/surface/model.go:122-163 | two patches in a row are one patch, in which each field is the second report if there is one and else the first |
| `Surface.Normalize` | internal/surface/model.go:222-270 | the in-place sorting of views and windows computes the normal form |
| `Surface.NormalizeIdempotent` | internal/surface/model.go:222-270 | normalising a normalised surface changes nothing |
| `Surface.NormalizedCanonical` | internal/surface/model.go:222-270 | surfaces that differ only in the order of windows and views and in heartbeat fields have normal forms with the same content |
| `Surface.NormalizedOrder` | internal/surface/model.go:252-270 | normalising changes only the order, and no window comes before an earlier one: focused, more recent, native, smaller id |
| `Surface.ViewsComeInOrder` | internal/surface/model.go:222-251 | no view comes before an earlier one: active, higher attention, pinned, dirty, more recent, smaller id |
| `Surface.AttentionRanks` | internal/surface/model.go:293-302 | urgent outranks wanted, which outranks normal and every unnamed value |
| `Surface.NormalizedWindows` | internal/surface/model.go:222-270 | the normalised windows are the given ones, each with its views sorted |
| `Surface.NamedAttentionNeverClashes` | internal/surface/model.go:224-250 | the view comparison ties only equal views when attention is one of the three named values |
| `Surface.ViewOrderIsCanonicalExactly` | internal/surface/model.go:224-250 | for views with distinct ids, all input orders sort to one list exactly when no two different attentions have one rank |
| `Surface.CloneAndNormalize` | internal/surface/snapshot.go:95-111 | the loop that clones, normalises and sorts computes the canonical surfaces |
| `Surface.NewSnapshot` | internal/surface/snapshot.go:36-52 | surfaces and providers are the canonical ones, the revision is that of the snapshot's own content, and the generation grows by one exactly when it changes |
| `Surface.RevisionMeaning` | internal/surface/snapshot.go:163-191 | two snapshots have one revision exactly when they agree on everything but reported revisions and the time of the last update |
| `Surface.CanonicalOrder` | internal/surface/snapshot.go:95-161 | surfaces come by application, providers by id and kind, capabilities by name and once each |
| `Surface.SurfacesCanonical` | internal/surface/snapshot.go:95-111 | canonical surfaces have the same content for every order of surfaces, windows and views |
| `Surface.HealthCanonical` | internal/surface/snapshot.go:137-161 | canonical provider health has the same content for every order of providers and capabilities |
| `Surface.CapabilitiesCanonical` | internal/surface/snapshot.go:137-161 | sorted and compacted capabilities depend only on the set of names |
| `Surface.SnapshotIsCanonical` | internal/surface/snapshot.go:36-52 | revision and generation do not depend on input order or on heartbeat-only changes |
| `Surface.SnapshotIsCanonicalExactly` | internal/surface/snapshot.go:36-52 | the revision is one for every order of surfaces, windows and views exactly when no window holds two views whose different attentions have one rank |
| `Surface.GenerationCountsChanges` | internal/surface/snapshot.go:36-52 | along a sequential chain the generation is the number of semantic changes |
| `Registry.NormalizeHints` | internal/providers/registry.go:82-96 | the loop over identity hints computes the trimmed hints, each once up to case |
| `Registry.CleanHintsKeepsAll` | internal/providers/registry.go:82-96 | every hint that is not blank survives up to case |
| `Registry.CleanHintsAreFirsts` | internal/providers/registry.go:82-96 | the hints kept are the first spelling of each, trimmed, in their order |
| `Registry.NormalizedIsClean` | internal/providers/registry.go:65-98 | an accepted snapshot has the trimmed provider, which is not empty, an application, a time, positive lifetime and confidence, and trimmed hints without repeats up to case |
| `Registry.AcceptedExactly` | internal/providers/registry.go:65-76 | a snapshot is accepted exactly when provider, application and time are given, and otherwise the first of them that is missing is reported |
| `Registry.NormalizedFields` | internal/providers/registry.go:65-98 | a given lifetime and confidence are kept, five seconds and medium are the defaults, and nothing but provider, lifetime, confidence and hints changes |
| `Registry.ProviderRegistry.Ingest` | internal/providers/registry.go:100-114 | accepted exactly when the snapshot normalises and no stored entry of its key has a higher revision; it is then stored under its key and nothing else changes, and a rejected snapshot changes nothing |
| `Registry.IngestIsExact` | internal/providers/registry.go:100-114 | the same key by key, with the error that a rejected snapshot gives |
| `Registry.ProviderRegistry.ReplaceProvider` | internal/providers/registry.go:119-160 | all of a provider's entries are replaced, or nothing changes |
| `Registry.ProviderRegistry.Drop` | internal/providers/registry.go:162-170 | exactly the provider's entries go |
| `Registry.BuildBatch` | internal/providers/registry.go:125-142 | the batch is built and rejected as a whole on the first bad, foreign or repeated entry |
| `Registry.AnyOutdated` | internal/providers/registry.go:146-150 | in any iteration order, true exactly when some stored entry is newer than its replacement |
| `Registry.ProviderRegistry.PutAll` | internal/providers/registry.go:156-158 | the batch is stored over the map, in any order |
| `Registry.ReplacementIsExact` | internal/providers/registry.go:119-160 | after a successful replacement the provider's entries are exactly the normalised batch, and other providers' entries are as before |
| `Registry.BatchMeaning` | internal/providers/registry.go:125-142 | a batch is accepted exactly when all entries are of the provider and normalise and no application comes twice, and holds exactly the normalised entries |
| `Registry.ReplacementAcceptedExactly` | internal/providers/registry.go:119-150 | a replacement is accepted exactly when its batch is and no entry has a lower revision than the stored one |
| `Registry.OpKeepsInv` | internal/providers/registry.go:100-170 | every operation keeps all entries normalised and stored under their own provider and application |
| `Registry.RevisionsNeverDrop` | internal/providers/registry.go:100-170 | in one operation a key disappears or its revision does not go down |
| `Registry.RevisionsMonotone` | internal/providers/registry.go:100-170 | along every run a key's revision never decreases while the key stays present |
| `Identity.AddAllKeys` | internal/providers/registry.go:342-349 | the keys of one snapshot are added in any order with one result |
| `Identity.BuildIndex` | internal/providers/registry.go:336-352 | the index loop, with the keys of a snapshot in any order, computes the fold |
| `Identity.IndexMeaning` | internal/providers/registry.go:336-352 | a key maps to an application exactly when every fresh native snapshot that carries it is that application |
| `Identity.IndexOrderIndependent` | internal/providers/registry.go:336-352 | the index is the same for every order of the snapshots |
| `Identity.AmbiguityIsFinal` | internal/providers/registry.go:342-349 | an ambiguous key stays ambiguous as more snapshots are folded in |
| `Identity.Resolve` | internal/providers/registry.go:354-368 | a snapshot is retargeted exactly when its unambiguous keys name one application |
| `Identity.ResolvesExactly` | internal/providers/registry.go:336-368 | a snapshot resolves to an application exactly when one of its keys is carried by fresh native snapshots of that application alone and none by those of another one alone |
| `Identity.SpellingsMeet` | internal/providers/registry.go:370-404 | a name, its desktop file, a path or an application reference to it, in any case, share the key of its stem |
| `Identity.SnapKeysMeaning` | internal/providers/registry.go:370-386 | the keys of a snapshot are those of its application id, its desktop id and its hints |
| `Merging.MergeOne` | internal/providers/registry.go:406-464 | one round of the merge loop patches its target window and no other |
| `Merging.KeepForeign` | internal/providers/registry.go:449-455 | the in-place filter keeps exactly the other providers' views, in order |
| `Merging.MergeWindows` | internal/providers/registry.go:406-464 | the merge loop is the fold of its rounds |
| `Merging.PatchViews` | internal/providers/registry.go:449-462 | a patch keeps the window's foreign views in order and replaces the provider's own |
| `Merging.MergeKeepsForeignViews` | internal/providers/registry.go:406-464 | foreign views stay in order; the provider's views in a window are those of its last patch applied there |
| `Merging.AnonymousPatchesCollapse` | internal/providers/registry.go:406-464 | anonymous patches to an application with at most one window all land in one window, and only the last one's views survive |
| `Merging.MergeSnapshot` | internal/providers/registry.go:298-319 | what a snapshot does to its surface: names, status, windows, capabilities |
| `AggregatedSurface.PatchMeaning` | internal/providers/registry.go:406-448 | a patch goes to the first window of its id, without an id to the only window, else to a new one; a title is taken if reported, the state if authoritative; no other window changes |
| `AggregatedSurface.StampedMeaning` | internal/providers/registry.go:456-462 | a patch's views come in as they are, under its provider and by default its window |
| `AggregatedSurface.ForeignViewsStay` | internal/providers/registry.go:449-455 | a snapshot leaves the views of every other provider in every window in place and in order |
| `AggregatedSurface.ViewsAreOfLastPatches` | internal/providers/registry.go:406-464 | over any snapshots, each provider has in every window exactly the views of its last patch there |
| `AggregatedSurface.LastOrMeaning` | internal/providers/registry.go:301-306 | the value kept of a field like the icon is the last one reported that is not empty |
| `AggregatedSurface.FirstOrMeaning` | internal/providers/registry.go:298-300 | the name is the one the surface has, or else the first one reported that is not empty |
| `AggregatedSurface.LastRevisionMeaning` | internal/providers/registry.go:317-317 | the revision kept of a provider is that of its last snapshot |
| `Merging.GrantAll` | internal/providers/registry.go:314-316 | exactly the listed capabilities are granted in addition |
| `Merging.LaterMergeWins` | internal/providers/registry.go:298-319 | of two merges into one application the later one decides the reported summary, so they do not commute |
| `Aggregation.LocateBase` | internal/providers/registry.go:236-242 | for any base list, also with repeated ids, the map gives the last position of each application |
| `Aggregation.ListValues` | internal/providers/registry.go:245-248 | the stored snapshots are listed once each, in some order |
| `Aggregation.FindTarget` | internal/providers/registry.go:274-279 | only a snapshot that is not native is retargeted, and only on a unique identity |
| `Aggregation.NormalizeEach` | internal/providers/registry.go:321-323 | every surface is replaced by its normal form |
| `Aggregation.Apply` | internal/providers/registry.go:235-325 | for any base list the result is the merge, into the last surface of each application, of the fresh snapshots that target it in some sorted order, every surface normalised |
| `Aggregation.MergeNext` | internal/providers/registry.go:270-320 | one round of the main loop changes the surface of its target and no other |
| `AggregatedSurface.AbsorbedHolds` | internal/providers/registry.go:298-319 | after any snapshots a surface holds: the name as above, the last icon and desktop id, all capabilities listed, the last revision of each provider, of each status field the last report, and the windows as patched one by one |
| `AggregatedSurface.FoundedBy` | internal/providers/registry.go:281-297 | without a surface, snapshots are dropped up to the first that may create one, which starts an empty one under its names |
| `AggregatedSurface.AggregatedHolds` | internal/providers/registry.go:235-325 | for every application the surface that Apply returns is its last base surface or a new one with all that its snapshots report, in normal order, and there is one exactly when the base has one or a snapshot may create it |
| `AggregatedSurface.AggregatedViews` | internal/providers/registry.go:406-464 | in its windows each provider has exactly the views of its last patch there |
| `AggregatedSurface.OrderIsByRank` | internal/providers/registry.go:249-268 | snapshots are merged native first, then by priority, confidence and provider, so a higher one has the last word |
| `AggregatedSurface.RelevantMeaning` | internal/providers/registry.go:229-231 | a snapshot counts for an application when it is fresh, at most a second ahead and no older than its lifetime, and resolves to it |
| `AggregatedSurface.TargetMeaning` | internal/providers/registry.go:275-279 | a native snapshot targets the application it names, another one the application it resolves to or, if there is none, the one it names |
| `Determinism.CountedAgree` | internal/providers/registry.go:244-271 | two sorted orders with harmless ties give each application the same counted snapshots in the same order |
| `Determinism.AggregationIsDeterministic` | internal/providers/registry.go:244-325 | Apply and then NewSnapshot give one snapshot for every map order and every breaking of ties, if no two tied snapshots count for one application |
| `Determinism.DeterministicExactly` | internal/providers/registry.go:244-325 | ties are harmless exactly when every store that differs only in reported status has one outcome: whenever two tied snapshots count for one application, some choice of their statuses makes the revision depend on the order |
| `Determinism.DroppedDoNotCount` | internal/providers/registry.go:280-296 | a snapshot whose application is neither in the base nor created before it changes nothing, so only the counted ones matter |
| `Determinism.LastOfTheTwoIsHeard` | internal/providers/registry.go:298-319 | of two tied snapshots that count for one application, the one that comes last decides the summary |
| `Determinism.TiesArise` | internal/providers/registry.go:244-271 | a store of three valid reports, two of one provider whose hints name one application, has such a tie |
| `Panel.ProjectedSegments` | internal/panel/project.go:142-173 | segments are the views when there are any, otherwise the windows, and the count is that of the views |
| `Panel.ActiveView` | internal/surface/model.go:281-291 | the nested loops return the first active view over all windows |
| `Panel.ProjectWithSpec` | internal/panel/project.go:66-131 | the loops over groups and surfaces compute the projection |
| `Panel.CardMeaning` | internal/panel/project.go:66-131 | one card per surface in order: the segments are the first of its views in window order, or of its windows, as many as may be visible, and the rest is counted; every field is the one of the surface or config it stands for |
| `Panel.RenderMeaning` | internal/panel/project.go:85-94 | the render settings shown are those of the spec |
| `Panel.TitleMeaning` | internal/panel/project.go:107-119 | the title is that of the first active view, else of the first focused window, else of the first window, else the name |
| `Panel.ConfigMeaning` | internal/panel/project.go:66-82 | the config is that of the first group with one, or the default |
| `Panel.ViewsInWindowOrder` | internal/panel/project.go:142-146 | the views of a surface are those of its windows, window by window |
| `Panel.ProjectionReadsContentOnly` | internal/panel/project.go:66-173 | surfaces with equal semantic content have equal cards and render configuration |
| `Hub.Manager.Apply` | internal/panel/dsl/manager.go:17-30 | a compiled spec becomes current with the next revision and clears the last error; one that fails leaves the last good one and records its error |
| `Hub.Manager.Current` | internal/panel/dsl/manager.go:31-35 | the current spec is the one its revision names, or the default before the first |
| `Hub.SameContentSameView` | internal/surface/snapshot.go:163-191 | equal semantic revisions mean equal content and so equal projections |
| `Hub.RefreshAlone` | internal/daemon/hub.go:119-155 | an undisturbed refresh publishes the snapshot of what was aggregated over the one before, projected with the current spec at its own time, under the next panel revision exactly when content or spec changed or nothing was published |
| `Hub.PublishedIsProjection` | internal/daemon/hub.go:138-146 | in every interleaving what is published is the projection of its content under the spec of its revision |
| `Hub.StepKeepsInv` | internal/daemon/hub.go:119-155 | every atomic step of any refresh or spec change keeps the publication history in order |
| `Hub.PanelRevisionIdentifiesPanel` | internal/daemon/hub.go:119-155 | in every interleaving the panel revision never decreases, and equal revisions have equal cards and render configuration |
| `Hub.PanelRevisionIsExact` | internal/daemon/hub.go:138-146 | the panel revision is the number of published changes of content or spec revision |
| `Hub.GenerationLoweredExactly` | internal/daemon/hub.go:124-146 | in every reachable state a commit publishes the generation at the point where its refresh read, plus one if the content differs from there, and lowers the generation exactly when that is below the last one published |
| `Hub.GenerationWhenNotOvertaken` | internal/daemon/hub.go:124-146 | a refresh that no commit overtook raises the generation exactly when the content changes |
| `Hub.SpecLoweredExactly` | internal/daemon/hub.go:127-146 | a commit lowers the shown spec revision exactly when a spec was applied after its own read of the spec and before that of the last published refresh |
| `Hub.SpecWhenNotOvertaken` | internal/daemon/hub.go:127-146 | a refresh that no commit overtook never lowers the shown spec revision |
| `Hub.ObservationGoesBackExactly` | internal/daemon/hub.go:119-146 | while the clock advances, a commit replaces an observation by an older one exactly when its refresh began before the published one |
| `Hub.ObservationWhenFirstSinceBegin` | internal/daemon/hub.go:119-146 | a refresh since whose beginning nothing was published brings a newer observation |
| `Hub.OvertakenRefreshGoesBack` | internal/daemon/hub.go:124-146 | a reachable state whose next commit lowers the generation and the shown spec revision and replaces a newer observation by an older one, while the panel revision grows |
| `Dsl.Parser.Next` | internal/panel/dsl/parser.go:55-61 | returns the token at the cursor and advances by one; it is called only before the end of the list |
| `Dsl.Parser.ParseOneValue` | internal/panel/dsl/parser.go:148-185 | the value method follows the specification and leaves the cursor where it says |
| `Dsl.Parser.Header` | internal/panel/dsl/parser.go:69-80 | the label loop and the opening brace follow the specification |
| `Dsl.Parser.BlockBody` | internal/panel/dsl/parser.go:114-147 | the body loop of nested blocks follows the specification |
| `Dsl.Parser.ParseOneBlock` | internal/panel/dsl/parser.go:69-113 | the inlined body loop agrees with that of nested blocks |
| `Dsl.Parse` | internal/panel/dsl/parser.go:38-53 | the parser terminates on every token list whose only end marker is last and returns the specified result |
| `Dsl.TermParses` | internal/panel/dsl/parser.go:148-185 | the printing of a value, with optional commas, parses to its meaning |
| `Dsl.BodyParses` | internal/panel/dsl/parser.go:114-147 | the printing of a body of any nesting depth parses to its meaning |
| `Dsl.BlockParses` | internal/panel/dsl/parser.go:69-113 | the printing of a block parses to its meaning |
| `Dsl.BodyMeaning` | internal/panel/dsl/parser.go:114-147 | of attributes of one name the last counts, and child blocks keep their order |
| `Dsl.BodyOf` | internal/panel/dsl/parser.go:114-147 | whatever a body parse accepts is the printing of some body with that meaning |
| `Dsl.DocumentOf` | internal/panel/dsl/parser.go:38-53 | whatever the parser accepts is the printing of some document with that meaning |
| `Dsl.ParserIsExact` | internal/panel/dsl/parser.go:38-185 | the parser accepts exactly the printed documents and returns their meaning |
| `Dsl.PrintingIsTokenized` | internal/panel/dsl/parser.go:38-53 | every printed document ends with its only end marker |
| `Dsl.RoundTrip` | internal/panel/dsl/parser.go:38-185 | parsing the printing of any list of blocks of any depth returns that list, when the reading of numbers undoes the writing of those that occur in it |
| `Dsl.RoundTripOfNumbers` | internal/panel/dsl/parser.go:153-160 | so it does with the reading of whole numbers that the parser uses, for every list whose whole numbers fit 64 bits |
| `Text.AtoiReadsItoa` | internal/panel/dsl/parser.go:158-159 | reading a written whole number of 64 bits gives it back |
| `Hierarchy.NewTree` | internal/domain/hierarchy.go:36-103 | succeeds exactly on valid hierarchies, the tree holds the nodes and sorted child lists, and an error is a real defect |
| `Hierarchy.TreeNodes` | internal/domain/hierarchy.go:46-66 | the tree holds exactly the input nodes as they are, with kind category where there is none, under the one node without a parent |
| `Hierarchy.ChildrenInOrder` | internal/domain/hierarchy.go:87-100 | siblings are listed by order, then title, then id |
| `Hierarchy.Collect` | internal/domain/hierarchy.go:46-69 | the first loop fills the node map or names a blank, repeated or second root entry |
| `Hierarchy.LinkChildren` | internal/domain/hierarchy.go:71-79 | in any map order, every node is listed once under its parent, or a missing parent is named |
| `Hierarchy.ValidatePathToRoot` | internal/domain/hierarchy.go:105-123 | the walk with its growing set stops within the number of nodes, at the root or at a repetition on a cycle |
| `Hierarchy.ValidateAll` | internal/domain/hierarchy.go:81-85 | in any map order, all nodes reach the root, or a cycle or second root is reported |
| `Hierarchy.SortChildren` | internal/domain/hierarchy.go:87-100 | each child list becomes sorted and stays a permutation |
| `Hierarchy.Path` | internal/domain/hierarchy.go:143-160 | the parent chain from the root to the node, or an error for an unknown id |
| `Hierarchy.TrailUnique` | internal/domain/hierarchy.go:105-123 | a node has one chain to a root |
| `Hierarchy.TrailBound` | internal/domain/hierarchy.go:105-123 | no chain is longer than the number of nodes |
| `Hierarchy.TrailMeansNoCycle` | internal/domain/hierarchy.go:105-123 | when every node has a chain to a root there is no cycle |
| `Hierarchy.DiagnosisRefutes` | internal/domain/hierarchy.go:36-103 | an input with a diagnosed defect is not valid |
| `Hierarchy.TreeIsUnique` | internal/domain/hierarchy.go:36-103 | the tree does not depend on the order in which Go iterates the maps |
| `Hierarchy.RootChainUnique` | internal/domain/hierarchy.go:143-160 | the repeat-free parent chain from the root to a node is unique |
| `HomeGrid.BuildTreeModel` | shell-extension/homeGridModel.js:17-93 | accepts exactly the payloads whose nodes form a tree under the declared root, and lists every node's children once each, in the locale's order |
| `HomeGrid.ListsComeInOrder` | shell-extension/homeGridModel.js:11-15 | siblings are listed by order, then by title and id as the locale compares them |
| `HomeGrid.ReadExactly` | shell-extension/homeGridModel.js:26-41 | a node is readable exactly when id and title are non-empty strings; every other field is read or gets its default |
| `HomeGrid.ReadAll` | shell-extension/homeGridModel.js:26-41 | the first loop reads all nodes or rejects an unreadable or repeated one |
| `HomeGrid.AttachChildren` | shell-extension/homeGridModel.js:49-58 | the second loop attaches each node but the root to its parent or finds it missing |
| `HomeGrid.SortLists` | shell-extension/homeGridModel.js:59-60 | every list keeps its nodes and is in the order of the comparison |
| `HomeGrid.ReachesRoot` | shell-extension/homeGridModel.js:65-84 | the bounded validation walk is exact |
| `HomeGrid.AllReachRoot` | shell-extension/homeGridModel.js:65-84 | the validation accepts exactly the maps in which every node has a chain to the root |
| `HomeGrid.BuildFrom` | shell-extension/homeGridModel.js:43-92 | from the nodes read, a model is built exactly when they are a tree under the declared root |
| `HomeGrid.SanitizePath` | shell-extension/homeGridModel.js:99-118 | the loop computes the specified prefix of the input |
| `HomeGrid.SanitizeIsLongest` | shell-extension/homeGridModel.js:99-118 | on any input the result is the longest real root chain that the input spells |
| `HomeGrid.SanitizeFixesRootChains` | shell-extension/homeGridModel.js:99-118 | a real root chain is left alone |
| `HomeGrid.SanitizeIdempotent` | shell-extension/homeGridModel.js:99-118 | sanitizing twice is sanitizing once |
| `HomeGrid.DepthLimitIsHarmless` | shell-extension/homeGridModel.js:99-118 | the depth limit never cuts a real chain short |
| `HomeGrid.SelectionIsRootChain` | shell-extension/homeGridModel.js:120-127 | selecting in a row gives the root chain to the chosen child, or the sanitized path if it is none |
| `HomeGrid.RowsForPath` | shell-extension/homeGridModel.js:129-144 | the loop over the path computes the sanitized path and its rows |
| `HomeGrid.RowsShowPath` | shell-extension/homeGridModel.js:129-144 | each row offers exactly a path node's children and marks the path's next node |
| `HomeGrid.PathToNode` | shell-extension/homeGridModel.js:146-163 | the unique root chain of a known node and nothing for an unknown one; neither the repeat check nor the limit fires |
| `HomeGrid.ShellAcceptsDaemonTrees` | shell-extension/homeGridModel.js:17-93 | every hierarchy the daemon accepts is accepted by the shell, with the same nodes and root |
| `HomeGrid.ReloadsReachTheShell` | internal/contexttree/manager.go:227-304 | a document the daemon compiles never makes a snapshot that the shell rejects |
| `HomeGrid.PathsAgree` | internal/domain/hierarchy.go:143-160 | the daemon's path and the shell's path to a node name the same nodes, and sanitizing keeps it |
| `HomeGrid.ChildrenAgree` | shell-extension/homeGridModel.js:11-15 | when the locale compares the titles and ids of a node's children as the daemon does, the shell lists them in the daemon's order |
| `Workspace.Validate` | internal/domain/workspace.go:87-130 | accepts exactly the valid definitions, and what it complains about is a real defect |
| `Workspace.ResourceProblem` | internal/domain/workspace.go:103-128 | no problem is found exactly when ownership, kind and placement are valid |
| `Workspace.ValidExactly` | internal/domain/workspace.go:87-130 | a definition is valid exactly when it has none of the defects that the messages describe, and a reported defect is one it has |
| `Reconcile.BuildReconcilePlan` | internal/domain/reconcile.go:21-38 | the loop over the sorted resources computes the plan |
| `Reconcile.EvaluateReconcile` | internal/domain/reconcile.go:49-74 | the counting loop computes the evaluation |
| `Reconcile.PlanMeaning` | internal/domain/reconcile.go:21-38 | the plan starts exactly the resources neither reached nor external, by id, and names the external ones not reached |
| `Reconcile.EvaluationMeaning` | internal/domain/reconcile.go:49-74 | the evaluation counts required and optional resources and those reached, and lists the others by id |
| `Reconcile.PlanCoversMissing` | internal/domain/reconcile.go:21-74 | the plan acts on or waits for exactly what the evaluation of the same observation reports missing |
| `Reconcile.ResourceOrderIsIrrelevant` | internal/domain/reconcile.go:21-74 | plan and evaluation do not depend on the order of the definition's resources |
| `Reconcile.StatusMeaning` | internal/application/reconcile/reconciler.go:23-41 | active, degraded and failed mean all, some and none of the required resources reached; without ensure failures there is a failure code exactly when not active |
| `FakeDesktop.Desktop.FailEnsure` | internal/adapters/fake/desktop.go:29-33 | sets one resource's failure budget and nothing else |
| `FakeDesktop.Desktop.FailObserve` | internal/adapters/fake/desktop.go:35-39 | makes observing fail or work, and nothing else |
| `FakeDesktop.Desktop.Seed` | internal/adapters/fake/desktop.go:47-51 | puts one observation into one workspace and nothing else |
| `FakeDesktop.Desktop.EnsureWorkspace` | internal/adapters/fake/desktop.go:101-108 | a missing workspace gets an empty resource map, an existing one is kept |
| `FakeDesktop.Desktop.Observe` | internal/adapters/fake/desktop.go:53-68 | a copy of the workspace's resources, or nothing when observing fails |
| `FakeDesktop.Desktop.Ensure` | internal/adapters/fake/desktop.go:70-89 | an attempt is counted, then the failure budget is used up by one or the resource is started |
| `FakeDesktop.Desktop.Close` | internal/adapters/fake/desktop.go:91-99 | removes a resource only if the definition and the observation say managed |
| `FakeDesktop.ReconcileOnce` | internal/application/reconcile/reconciler.go:51-82 | observe, ensure the plan, observe, evaluate: the new desktop state, the result and the failures |
| `FakeDesktop.RoundView` | internal/application/reconcile/reconciler.go:60-73 | one reconcile attempts exactly the resources that are not reached and may be started, once each |
| `FakeDesktop.EnsuredExactlyBudgetPlusOne` | internal/adapters/fake/desktop.go:70-89 | a resource with failure budget b is ensured exactly b + 1 times however many reconciles run, and is reached from the (b + 1)-st on |
| `FakeDesktop.ActiveExactlyAfterBudget` | internal/application/reconcile/reconciler.go:51-82 | with k the largest budget, the n-th reconcile reports active exactly when no required external resource is missing and n >= k + 1 |
| `FakeDesktop.CloseManaged` | internal/application/reconcile/reconciler.go:84-107 | the closing loop's effect on the desktop |
| `FakeDesktop.CloseIsExact` | internal/application/reconcile/reconciler.go:84-107 | closing removes exactly what is managed by the definition and was observed present and managed, and touches nothing else |
| `FakeDesktop.OtherWorkspacesUntouched` | internal/adapters/fake/desktop.go:53-108 | reconciling a workspace leaves the resources of every other one alone |
| `Lifecycle.SettlesAtOnce` | internal/orchestration/workspace/model.go:151-193 | the rules on status changes fire at most once in a row |
| `Lifecycle.AtMostTwoRules` | internal/orchestration/workspace/model.go:143-193 | an event takes at most two rules, and fails only if the desktop could not be observed |
| `Lifecycle.ActivateLeadsTo` | internal/orchestration/workspace/model.go:143-158 | activating a workspace at rest leads to active, degraded or failed by the required resources reached, with their counts and a failure code, or to failed without a definition |
| `Lifecycle.ResumeLeadsTo` | internal/orchestration/workspace/model.go:159-177 | recover and resume do so for the workspace already named |
| `Lifecycle.CloseLeadsTo` | internal/orchestration/workspace/model.go:178-193 | suspending only makes it inactive; closing ends inactive, or degraded with the first failure, and keeps the counts |
| `Lifecycle.ErrorLeaves` | internal/orchestration/workspace/engine.go:62-149 | activate and resume are refused with an empty name or key; an error comes exactly when the desktop cannot be observed for a known definition, and leaves what the event set, or undoes it |
| `Lifecycle.LeftTransient` | internal/orchestration/workspace/model.go:143-193 | an event without error leaves preparing, recovering or closing exactly when the status already was the requested one and equal values do not count as changes |
| `Lifecycle.NeverLeftTransient` | internal/orchestration/workspace/model.go:143-193 | while no activity fails, or with rollback, no state between events is preparing, recovering or closing |
| `Lifecycle.CanBeStuck` | internal/orchestration/workspace/model.go:143-177 | without rollback and with equal values ignored, one error can leave a workspace preparing through any number of Activate and Resume events |
| `Lifecycle.OnChangeOk` | internal/orchestration/workspace/engine.go:62-91 | an activity's output has 0 <= reached <= total, and active means all reached in a definition found in the store |
| `Lifecycle.ReachableOk` | internal/orchestration/workspace/engine.go:61-119 | in every reachable state 0 <= reached <= total; active implies reached = total, a non-blank workspace id and a revision that was resolved |
| `Placement.ValidateTopology` | internal/providers/gnomeshell/protocol.go:124-155 | accepts exactly the valid topologies |
| `Placement.TopologyExactly` | internal/providers/gnomeshell/protocol.go:124-155 | valid are a named revision, sound monitors under distinct references, a single primary one, and a primary reference that names a monitor |
| `Placement.ResolveMonitor` | internal/adapters/shelldesktop/placement.go:61-96 | the scans in index order find the specified monitor |
| `Placement.MonitorForIsLowest` | internal/adapters/shelldesktop/placement.go:61-96 | the monitor found has the lowest index of those that fit the role; none is found exactly when none fits or the role is malformed; the primary role always finds one |
| `Placement.RoleMeaning` | internal/adapters/shelldesktop/placement.go:61-96 | which monitors each role names: primary ones, all others, those of an index or a reference; a written index is never malformed |
| `Placement.Round` | internal/adapters/shelldesktop/placement.go:31-36 | rounding goes to the nearest integer, and halves go away from zero |
| `Placement.PlaceRect` | internal/adapters/shelldesktop/placement.go:27-51 | the stepwise adjustment of the rectangle computes the placed one |
| `Placement.PlacedIsClose` | internal/adapters/shelldesktop/placement.go:27-51 | inside the work area, at least 1 by 1, left and top within half a pixel and right and bottom within a pixel and a half of exact |
| `Placement.PlacedFailsExactly` | internal/adapters/shelldesktop/placement.go:43-51 | placing fails exactly when the left or top edge rounds to the far edge, so never above half a pixel of exact width and height |
| `Placement.PlacedKeepsSides` | internal/adapters/shelldesktop/placement.go:27-51 | a side is within half a pixel of its exact length, or 1 if that is less than half a pixel, unless it ends at the edge of the area, where it may be shorter |
| `Placement.ResolvePlacement` | internal/adapters/shelldesktop/placement.go:16-59 | the resolved placement or the first error |
| `Placement.ResolvedOnLowest` | internal/adapters/shelldesktop/placement.go:16-59 | a resolved placement names the monitor of least index that plays the role, its placed rectangle, the workspace asked for and the topology it was resolved in |
| `Placement.ResolveFailsExactly` | internal/adapters/shelldesktop/placement.go:16-26 | the first three errors come exactly without an intent, with an invalid topology, and when the role is malformed or no monitor plays it |
| `Placement.ResolvedIsFaithful` | internal/adapters/shelldesktop/placement.go:98-117 | the target lies in the work area of a fitting monitor; a window put there is recognised, and a recognised window is within 2.5 and 5.5 pixels of exact, on that monitor and workspace |
| `Placement.RecognisedExactly` | internal/adapters/shelldesktop/placement.go:98-117 | a window is recognised exactly when monitor, workspace and topology are the same and each of the four numbers is off by at most 2 |
| `ShellDesktop.Desktop.Observe` | internal/adapters/shelldesktop/desktop.go:50-120 | which resources are seen, whether ready, and as managed only on evidence |
| `ShellDesktop.Desktop.Ensure` | internal/adapters/shelldesktop/desktop.go:122-154 | the requests issued, the evidence recorded and the observation or error returned |
| `ShellDesktop.EnsuredIsReady` | internal/adapters/shelldesktop/desktop.go:122-154 | what an ensure returns is present and ready |
| `ShellDesktop.Desktop.EnsurePlacement` | internal/adapters/shelldesktop/desktop.go:156-192 | a placement is requested exactly when it resolves, a window is there and it is not in place; it succeeds when the window was or then is seen in place |
| `ShellDesktop.Desktop.PollReady` | internal/adapters/shelldesktop/desktop.go:209-229 | the poll ends at the first ready observation, a changed topology or the end of its context |
| `ShellDesktop.Desktop.PollPresent` | internal/adapters/shelldesktop/desktop.go:194-207 | true exactly when some view before the context ends shows the application with a window |
| `ShellDesktop.Desktop.PollAbsent` | internal/adapters/shelldesktop/desktop.go:276-304 | true exactly when there is nothing to wait for or some view shows none of the windows |
| `ShellDesktop.Desktop.Close` | internal/adapters/shelldesktop/desktop.go:239-274 | the close requests up to the first that is not accepted, the result, and the evidence dropped only on convergence; what convergence means is in `ShellOutcomes.CloseSucceedsExactly` |
| `ShellDesktop.ReconcileOnce` | internal/application/reconcile/reconciler.go:51-82 | one reconcile through the shell: the step on evidence and history, the final evaluation and the failed ensures in order |
| `ShellDesktop.CloseManaged` | internal/application/reconcile/reconciler.go:84-107 | one close through the shell: the step on evidence and history and the failed closes in order |
| `ShellOutcomes.ObservationMeaning` | internal/adapters/shelldesktop/desktop.go:50-120 | a resource is observed exactly when it is a desktop application and the view shows one under its id; it is ready when in place or, without a placement, with a window, and managed only on evidence |
| `ShellOutcomes.AnchorMeaning` | internal/adapters/shelldesktop/placement.go:119-132 | the window to place is the one of least id of the first application under the id |
| `ShellOutcomes.WaitMeaning` | internal/adapters/shelldesktop/desktop.go:209-229 | a wait returns the observation of the first view that shows the resource ready, if the topology was the expected one up to it |
| `ShellOutcomes.EnsureSucceedsExactly` | internal/adapters/shelldesktop/desktop.go:122-154 | an ensure succeeds exactly when the reply is a success, a view shows the application with a window, a placement is met and a view ends the wait, whose observation it returns |
| `ShellOutcomes.PlacementMetExactly` | internal/adapters/shelldesktop/desktop.go:156-192 | a placement is met exactly when the window is in place or the shell accepts and a view then ends the wait under the same topology |
| `ShellOutcomes.PlacementRequestedExactly` | internal/adapters/shelldesktop/desktop.go:156-183 | the anchor window is asked to be placed exactly when the application was seen after a success and the window is out of place |
| `ShellOutcomes.EnsureLeaves` | internal/adapters/shelldesktop/desktop.go:122-141 | an ensure leaves evidence exactly for a managed desktop application that the shell reports as launched |
| `ShellOutcomes.CloseSucceedsExactly` | internal/adapters/shelldesktop/desktop.go:239-304 | a close that goes ahead succeeds and drops the evidence exactly when every request is a success and there are no windows or some later view shows none of them; the requests go out in order up to the first that is no success |
| `ShellOutcomes.OtherClosesDoNothing` | internal/adapters/shelldesktop/desktop.go:239-254 | any other close does nothing, and is an error only for other kinds of resources and unreadable window lists |
| `ShellOutcomes.CompletesExactly` | internal/adapters/shelldesktop/desktop.go:269-274 | a close operation completes a resource exactly when it is managed on evidence and all windows of its application, as viewed, are seen to close |
| `ShellOutcomes.CompletedInRun` | internal/adapters/shelldesktop/desktop.go:269-274 | in every run a completed close comes from such a close operation |
| `ShellOutcomes.EnsureFailuresMeaning` | internal/application/reconcile/reconciler.go:60-75 | a reconcile reports "ensure_failed" for exactly the planned resources whose ensure, after those before it, returns no observation |
| `ShellOutcomes.CloseFailuresMeaning` | internal/application/reconcile/reconciler.go:93-107 | a close reports "close_failed" for exactly the managed resources observed as present whose close is not a success |
| `ShellDesktop.EvidenceMeaning` | internal/adapters/shelldesktop/desktop.go:306-321 | there is evidence for a resource exactly when it was launched and no close of it has completed since |
| `ShellDesktop.EvidenceGoesOnlyOnConvergence` | internal/adapters/shelldesktop/desktop.go:239-274 | a close drops a resource's evidence exactly when it converges, and never another's |
| `ShellDesktop.StepKeepsInv` | internal/adapters/shelldesktop/desktop.go:122-274 | every operation keeps the managed map equal to the evidence and every close request justified |
| `ShellDesktop.ClosesOnlyWhatItLaunched` | internal/adapters/shelldesktop/desktop.go:61-87 | in every run, whatever the shell does, a close request follows a managed ensure of that resource that succeeded and changed something, with no completed close in between |
| `ShellDesktop.ConsistentRunsCloseOnlyLaunchedApps` | internal/adapters/shelldesktop/desktop.go:141-143 | if no close uses a definition that manages a resource as another application than an earlier reconcile did, every close request is for the application id, as the definition names it, of an earlier launch of that resource |
| `ShellDesktop.InconsistentRunsCanCloseOthers` | internal/adapters/shelldesktop/desktop.go:239-274 | otherwise there is a shell for which a close request carries another application id, as the definition names it |
| `ShellDesktop.ClosesWindowsItSaw` | internal/adapters/shelldesktop/desktop.go:61-87 | each close request of a close is for a window of the surface that the look-up by the application id found in its view |
| `ShellDesktop.TwoRevisionsClash` | internal/adapters/shelldesktop/desktop.go:46-48 | two revisions that name different applications for one resource are such a case |
| `Broker.StepKeepsInv` | internal/shellaction/broker.go:75-141 | every atomic step keeps the pending map, the channels and the late senders consistent |
| `Broker.RegisteredExactly` | internal/shellaction/broker.go:78-99 | a request is registered exactly when it is valid, an emitter is set and no call in flight has its id |
| `Broker.LookedUpExactly` | internal/shellaction/broker.go:122-134 | a completion of schema 1 with an id finds the channel of the call in flight with that id; any other is refused |
| `Broker.SentExactly` | internal/shellaction/broker.go:135-140 | a result is taken exactly when the channel holds none |
| `Broker.AnsweredCall` | internal/shellaction/broker.go:75-141 | from every reachable state a valid request that is answered while it waits returns the answer and leaves nothing pending |
| `Broker.UnansweredCall` | internal/shellaction/broker.go:112-117 | one that is not answered ends as timed out or cancelled and leaves nothing pending |
| `Broker.PendingIsExact` | internal/shellaction/broker.go:94-104 | pending holds exactly the requests in flight, each with its own channel, and is empty when all have ended |
| `Broker.ConsumedIsFirstAccepted` | internal/shellaction/broker.go:112-141 | a request consumes at most one result, the first one accepted for it, and it carries its id |
| `Broker.OutcomeIsFinal` | internal/shellaction/broker.go:112-119 | a call's outcome never changes |
| `Broker.CleanupIsLocal` | internal/shellaction/broker.go:100-104 | deferred cleanup never removes another request's entry |
| `Broker.DuplicateIsRefused` | internal/shellaction/broker.go:94-97 | a request whose id is in flight is refused and changes nothing |
| `Broker.LateCompletionIsRejected` | internal/shellaction/broker.go:129-134 | a completion for an id that is not in flight finds no channel |
| `Broker.AcceptedNeedNotBeConsumed` | internal/shellaction/broker.go:129-140 | a completion can be accepted whose request has already timed out |
| `ShellAction.ShellAcceptsAllButZero` | shell-extension/shellActionModel.js:35-75 | of the requests the broker sends, the shell refuses exactly the placements on monitor 0 or workspace 0 |
| `ShellAction.AcceptedActionIsTheRequest` | shell-extension/shellActionModel.js:35-75 | an accepted action has the request's fields, trimmed |
| `ShellAction.PlacementsOnZeroAreLost` | internal/adapters/shelldesktop/desktop.go:173-183 | a resolved placement makes a request the broker sends, and the shell refuses it exactly on monitor 0 or workspace 0 |
| `ShellAction.OnlyMonitorIsLost` | internal/adapters/shelldesktop/placement.go:16-59 | on a topology whose only monitor has index 0, the primary role resolves and the shell refuses the request |

## Left out

- D-Bus services and clients, the GJS widgets, the browser bridge and extensions, the provider socket
  server and the CLI: input, output and user interface plumbing.
- The rule engine behind the lifecycle, its store, retries, timeouts and replay by idempotency key are
  foreign code. `Lifecycle` states what it takes for granted and leaves two points open as parameters.
- JSON text, files and polling of modification times. Messages and documents are values; only what JSON
  drops from a shell request is modelled (`ShellAction`).
- SHA-256 and FNV hashing: a semantic revision is an injective function of the semantic content.
- The lexer of the panel language: the parser works on tokens. Reading whole numbers is modelled
  (`Dsl.RoundTripOfNumbers`); reading a decimal is a parameter.
- Locale-dependent comparison of strings in the shell is a parameter; search and its scoring are not
  modelled.
- Status normalisers, MPRIS, LauncherEntry and AT-SPI collectors, and provider health flags: shallow.
- Integers are unbounded, strings are sequences of characters without Unicode normalisation, case folding
  covers ASCII letters, and trimming covers space, tab, newline and carriage return.
- Floating point is modelled by real numbers in placements and progress values.
- Wall-clock time is an integer passed in. A polling loop is given the list of views it sees before its
  context ends.
- Composite string keys are pairs. The workspace store is a map from id and revision; the file catalog
  joins the two with `@` and is injective only for ids without it.
- Command arguments, working directories, reason codes and reported placements of resources, and error
  texts, which decide nothing modelled here.
- A shell adapter built without a surface reader or an action broker. A window's workspace id is
  modelled by the number it stands for.
- Surfaces, windows, snapshots and trees are values: updating a receiver in place, and what a clone shares
  with its original, are not captured.
- `DiffSnapshots`, `Clone` and the getters: they would only add easy members.
- Layout.Solve: cards with one priority and one id keep the order in which they come, and so do equal
  elements of the last sort, while the library sort leaves their order open. The cards of the strip have the
  distinct ids of their applications.
- Hub.Manager.Apply: compiling the source text is a parameter, which gives a spec or an error.
- Dsl.Parse: error messages are told apart only by what was expected.
- Placement.ResolveMonitor: monitors with equal indices are taken in the order in which the topology lists
  them, while the library sort leaves their order open.
