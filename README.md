# Build-track progression, resume sections and header status — a Dafny model

This project models the logic inside the resume builder's React views.

- **Stage registry and lookups** (`registry.dfy`, module `Registry`). This covers the eight ordered build-track stages, with their ids and routes. It also covers the two searches that resolve a stage: the stage page's `findIndex` with `path.includes(stepId)`, and the header's exact route match.
- **Progression engine** (`progression.dfy`, module `Progression`). The persisted artifact store is a `map<nat, string>`. Key `k` stands for the storage key `rb_step_{k}_artifact`, and the page for stage index `i` uses key `i + 1`. The module defines:
  - the gating rule: the first stage is always open, and stage `i > 0` opens only when key `i` holds a non-empty artifact;
  - the upload action, the "It Worked"/"Error" status actions and the "Next Step" target;
  - the proof page's completion fold, which alone enables the final submission.

  The stage page is a class `StagePage`. Its fields are the store, which persists, and the view state: the resolved stage index, the artifact the view mirrors and the status, which are not persisted. Its methods are the page's handlers.
- **Resume sections** (`resume.dfy`, module `Resume`). This covers the editor's data shape, its starting state with one blank item per section, and the three list operations: positional field change, append a template, and remove-at-index guarded so a section never becomes empty.
- **Header status** (`header.dfy`, module `Header`). This covers the current-stage lookup with its `"??"`/`"Proof"` fallback, and the status tag classifier.

"Present" means what JavaScript truthiness means for a storage read: the key exists and its value is not the empty string.

The code raises no range or lookup error. An unknown stage id redirects to the first stage, and every index the handlers use comes from the lookup, so it is always in range.

## Model

| member | source | states |
|---|---|---|
| Registry.Slug | src/App.jsx:228 | the route parameter of stage i is its route with the "/rb/" prefix removed |
| Registry.IncludesAt | src/App.jsx:47 | an occurrence of the id anywhere in a route makes `includes` true |
| Registry.IncludesWitness | src/App.jsx:47 | when `includes` is true there is a position where the id occurs |
| Registry.FindIndex | src/App.jsx:47 | `findIndex`: -1 iff no element matches; otherwise a matching index with no match before it |
| Registry.FindIndexIs | src/components/Layout.jsx:18 | a matching index with no earlier match is the one `findIndex` returns |
| Registry.IndexOfStepId | src/App.jsx:47 | the stage page's lookup gives the first stage whose route contains the id, or -1 when none does |
| Registry.SlugResolves | src/App.jsx:47 | at each stage's own route the substring lookup finds that stage and no earlier one |
| Registry.DigitResolves | src/App.jsx:47 | a parameter holding only a stage's digit also resolves to that stage |
| Registry.IdsDistinct | src/App.jsx:7-16 | stage ids are pairwise distinct |
| Registry.PathsDistinct | src/App.jsx:7-16 | stage routes are pairwise distinct |
| Progression.KeyOf | src/App.jsx:50 | the key is 0 exactly for the unresolved index -1, a key no stage writes; every stage's key lies in 1..8 |
| Progression.Render | src/App.jsx:74-88 | an unknown id redirects to the first stage's route; stage i > 0 without an artifact at key i is refused with a button to stage i - 1 labelled, as written, with stage i's id; otherwise the stage is shown |
| Progression.RefusedScreenMislabelled | src/App.jsx:84 | every refused screen's back label differs from the id of the stage its button opens; stage "03" over an empty store reads "03" and leads to stage "02" |
| Progression.BackLabel | src/App.jsx:84 | the refused screen's back button names the stage it opens, i - 1, and no other stage |
| Progression.BackLabelAsWrittenMismatch | src/App.jsx:84 | the label as written (the refused stage's own id) never names the stage the button opens |
| Progression.FirstStageAlwaysShown | src/App.jsx:76-88 | the first stage's route shows the stage whatever the store holds |
| Progression.GateAtRoute | src/App.jsx:76-88 | at stage i > 0 the page is shown iff key i holds an artifact, and key i is the one stage i - 1 writes |
| Progression.EntryStatus | src/App.jsx:51-57 | on entering a stage the status is success iff its artifact is present, idle otherwise, and never error |
| Progression.Uploaded | src/App.jsx:59-61 | an upload sets the stage's key to the artifact and leaves every other key as it was |
| Progression.UploadOpensNext | src/App.jsx:59-64 | an upload at stage i opens stage i + 1 and changes the access of no other stage |
| Progression.UploadIdempotent | src/App.jsx:59-61 | recording the same artifact twice leaves the store as recording it once |
| Progression.NextTarget | src/App.jsx:66-72 | Next goes to stage i + 1 below the last stage, and to the proof page exactly at the last stage |
| Progression.NavPath | src/App.jsx:68-70 | a stage target navigates to that stage's route, "/rb/" plus its slug; the route is "/rb/proof" exactly for the proof target |
| Progression.NextLandsOnFollowing | src/App.jsx:66-72 | following Next from stage i lands on stage i + 1's route, which the stage's artifact has opened |
| Progression.StageCompletion | src/App.jsx:128 | the proof page has one completion flag per stage, set iff that stage's key holds an artifact |
| Progression.EveryIff | src/App.jsx:129 | `every` is true iff each flag is true |
| Progression.AllCompletedIff | src/App.jsx:128-129 | all completed iff every key 1..8 holds a non-empty artifact |
| Progression.MissingStageBlocksSubmission | src/App.jsx:146 | removing any single stage's artifact disables the final submission |
| Progression.UploadKeepsPrefix | src/App.jsx:59-64 | an upload from an opened stage keeps the stored artifacts a prefix of the track |
| Progression.PrefixBelow | src/App.jsx:76-88 | in a store reached through the gate, an artifact at key k implies artifacts at every key 1..k |
| Progression.CompleteIffLast | src/App.jsx:128-129 | in such a store the track is complete iff the last stage has its artifact |
| Progression.UploadRunFromEmpty | src/App.jsx:59-64 | uploading stages in order from an empty store happens only on opened stages and fills exactly keys 1..n |
| Progression.FullRunCompletes | src/App.jsx:128-146 | a fresh store opens stage 0 and no other stage; uploading through all eight stages enables submission, and seven do not |
| Progression.StagePage.constructor | src/App.jsx:44-52 | mounting resolves the stage, loads its artifact from the store and derives the status from it |
| Progression.StagePage.Enter | src/App.jsx:54-57 | a change of route parameter re-resolves the stage, reloads the artifact and resets the status, leaving the store unchanged |
| Progression.StagePage.Upload | src/App.jsx:59-64 | an upload writes only the stage's key, mirrors the artifact in the view, sets success, opens the next stage and keeps artifacts a prefix |
| Progression.StagePage.SetStatus | src/App.jsx:117-118 | "It Worked" and "Error" change the status only, never the artifact or the store |
| Progression.StagePage.Next | src/App.jsx:121 | on a shown stage, Next is offered iff the view holds an artifact, and then goes to the next target, which is open |
| Progression.SubmitEnabled | src/App.jsx:146 | submission is enabled iff all eight stage keys hold an artifact |
| Resume.WithItems | src/App.jsx:169 | replacing one section changes that section only and keeps the other sections and all scalar fields |
| Resume.InitialStateNonEmpty | src/App.jsx:19-27 | every section of the starting data has exactly one item |
| Resume.FilterOutIndex | src/App.jsx:172 | filtering out position `index` drops exactly that item when it is in range, and otherwise keeps the list |
| Resume.RemoveAt | src/App.jsx:172 | removal leaves a one-item list alone; on a longer list it drops exactly item `index`, or nothing when `index` is out of range; it never empties a non-empty list |
| Resume.RemoveAtOrder | src/App.jsx:172 | the items that remain keep their relative order |
| Resume.Append | src/App.jsx:171 | appending keeps the existing items and puts the template last |
| Resume.AppendThenRemove | src/App.jsx:171-172 | removing the item just appended gives back the list in its order |
| Resume.AddItem | src/App.jsx:171 | Add puts one copy of the template at the end of its section and leaves everything else unchanged |
| Resume.RemoveItem | src/App.jsx:172 | Remove applies the guarded removal to its section and leaves everything else unchanged |
| Resume.HandleListChange | src/App.jsx:166-170 | a field change sets only `field` of item `index` in its section; other fields, items, sections and scalars stay as they were |
| Resume.EditsKeepSectionsNonEmpty | src/App.jsx:171-172 | Add and Remove keep every section non-empty |
| Resume.AddThenRemoveRestores | src/App.jsx:171-172 | adding an item and then removing it restores the data exactly |
| Header.CurrentStepIndex | src/components/Layout.jsx:18 | the header's index is -1 iff the location is no stage route, and otherwise a stage whose route equals it |
| Header.CurrentStepIndexAtRoute | src/components/Layout.jsx:18 | at a stage's route the header's index is that stage |
| Header.CurrentStep | src/components/Layout.jsx:19 | the caption shows the matched stage's id and title, or "??"/"Proof" when nothing matches |
| Header.GetStatus | src/components/Layout.jsx:22-27 | "/rb/proof" gives "Proof Phase"/"status"; the class is "warning" iff the location is a stage route; "Not Started" iff it is neither |
| Registry.ProofPathIsNoStep | src/components/Layout.jsx:23 | the proof route is not a stage route, so the proof test shadows no stage |
| Header.StatusOnStage | src/components/Layout.jsx:24-25 | the last stage's route gives "Finalizing", and every other stage route gives "In Progress" |
| Header.LooseRouteDisagrees | src/components/Layout.jsx:18-26 | a route like "/rb/8" shows a stage page, yet the header reports "Not Started" with caption "??" |

## Left out

- Rendering, styles, icons, and the view-only components `Home`, `ResumePreview`, `AppProof` and `FooterChecklist`. They hold no logic.
- Router machinery. Navigation targets are returned values (`Screen`, `Nav`). The routing rule that "/rb/proof" goes to the proof page rather than to the "/rb/:stepId" stage page is not modelled.
- The browser's shared storage as a global. It is a field of `StagePage`, and only the artifact keys are modelled. The `resume_build_data` entry and its JSON persistence are foreign serialisation.
- The artifact text built from the clock. An upload takes any non-empty string.
- Clipboard copy and opening the external builder site. These are foreign side effects.
- React state scheduling. Each handler is one atomic step. The field change and Remove's length guard read the render-time data, while Add and Remove's filter use the previous state; the model treats the two as the same.
- The field change's shallow copy. It shares item objects with the previous state, so it also mutates the old item in place. Items are values in the model, so this aliasing is not captured.
- "Load Sample Data" and restoring resume data from storage both replace the whole data. The non-empty-sections invariant is proved only for the editor's own operations, starting from the initial state.
- Races between several tabs writing the same storage. This is concurrency.
- Stage titles and prompts, and the layout's duplicate stage list. The layout's list has the same ids and routes as the registry, so one registry serves both. The layout's short titles appear only in the header caption.
- Progression.StagePage.Upload: it requires the page to show the stage's workspace, because the upload button exists only there.
- Progression.StagePage.Next: it requires the page to show the stage's workspace, because the Next button exists only there.

## Findings

| source | as written | input that shows it | evidently intended | confidence | as-written member | corrected member |
|---|---|---|---|---|---|---|
| src/App.jsx:84 | the refused screen's button reads "Back to Step {id of the refused stage}" but navigates to the previous stage | opening stage "03" (index 2) with no artifact at key 2: the button says "Back to Step 03" and goes to "/rb/02-market" | the label names the stage it opens, "02" | medium, not executed | Progression.Render | Progression.BackLabel |
