# Read Frog page-translation overlay, modelled in Dafny

Read Frog is a browser extension that translates web pages in place. Its
page-translation core does three things:

- It walks the page and labels elements as paragraphs, blocks or inline nodes.
- It picks the units to translate: a whole paragraph, or a run of adjacent
  inline nodes.
- For each unit it places a translation wrapper next to the original text.
  The wrapper holds a spinner, then the translation or an error box.

Two generations of this engine exist:

- The older engine, in `src/utils/host/translate.ts`, keeps a wrapper it
  finds again.
- The newer engine, in `src/utils/host/translate/node-manipulation.ts`,
  replaces a wrapper it finds again. It also translates runs of inline nodes
  as one unit and injects its stylesheet into frames.

Two smaller pieces are modelled as well:

- The reading mode (`src/hooks/read/read.tsx`). It packs an article's
  paragraphs into batches of at most 1500 characters and retries every
  language-model call up to three times.
- The configuration migration from schema 7 to schema 8. It installs the
  default translation prompt.

The model is organised as follows:

- `dom.dfy` (module `Dom`) holds the page tree.
  - A node is a value. Its `id` stands for the identity of the DOM object.
  - A node is located by a path of steps into light or shadow children.
  - The classification filters (`isDontWalkIntoElement`, `isInlineTransNode`
    and the others) are opaque function fields of a `Policy`.
- `traversal.dfy` (module `Traversal`) models the walker and the resolver.
  - The walker labels elements and the resolver picks the units to translate.
  - Both are methods with loops, proved equal to recursive specification
    functions.
  - Lemmas state what those functions mean.
- `overlay.dfy` (module `Overlay`) holds the edits both engines share:
  - where a wrapper goes;
  - what a filled wrapper holds;
  - the sweep that removes every wrapper.
- `translate.dfy` (module `Translate`) and `node_manipulation.dfy` (module
  `NodeManipulation`) model the two engines.
  - Each engine is a class. Its state is the page, the set of nodes in
    flight and an id allocator for the nodes it creates.
  - `translateNode` has one `await`, so it is split into two methods:
    - a `Start` method, for everything before the `await`;
    - a `Finish` method, which takes the outcome of the translation call.
- `read.dfy` (module `Read`) models the batching loop, the retry loops and the
  checks of the two reading-mode mutations.
- `migration.dfy` (module `Migration`) models `migrate` on a JSON value. It
  models JavaScript's object spread as the JavaScript language defines it.

## Model

| member | source | states |
|---|---|---|
| Traversal.ExtractPlainIsTextContent | src/utils/host/dom/traversal.ts:80-97 | on a subtree with no do-not-walk and no non-HTML element, the extracted text is exactly the DOM text content |
| Traversal.ExtractIgnoresSilentChild | src/utils/host/dom/traversal.ts:85-95 | a do-not-walk element child or a non-HTML child adds nothing to the extracted text |
| Traversal.ExtractChildrenAppend | src/utils/host/dom/traversal.ts:89-96 | the reduce over child nodes distributes over concatenation of the child list |
| Traversal.LabelStampsWalk | src/utils/host/dom/traversal.ts:109-161 | the element the walk starts from carries the walk id, and so does every element it goes on into, through light children and (for a host it enters) shadow children, down to where it stops |
| Traversal.LabelKidsMeaning | src/utils/host/dom/traversal.ts:140-161 | the child loop labels each child in turn; "has inline child" holds iff some child is non-blank text or reports shallow-inline; "has block child" iff some child reports block |
| Traversal.LabelKidsDone | src/utils/host/dom/traversal.ts:143-161 | the child loop keeps every child, in place, with each element child labelled |
| Traversal.LabelKidsInline | src/utils/host/dom/traversal.ts:143-161 | the "has inline child" flag ends up set iff some child is non-blank text or reports shallow-inline |
| Traversal.LabelKidsBlock | src/utils/host/dom/traversal.ts:151-156 | the "has block child" flag ends up set iff some child reports block |
| Traversal.LabelShadowMeaning | src/utils/host/dom/traversal.ts:127-134 | with range `all`, each shadow child is labelled in turn |
| Traversal.WalkedMeaning | src/utils/host/dom/traversal.ts:109-165 | the element the shallow filters see keeps identity and attributes apart from the walk id and the paragraph mark, has its children and (with a shadow root) shadow children labelled, and is a paragraph iff it was one or a child gave inline evidence |
| Traversal.LabelMeaning | src/utils/host/dom/traversal.ts:105-177 | labelling keeps identity, tag and classes; an early stop (do-not-walk, ignored or invalid tag, shadow host outside range `all`) only stamps the walk id; otherwise: paragraph iff an inline child; block role iff a block child or a shallow block element; inline role iff not block and a shallow inline element; the block mark ends up set iff it was set or the element reports a block, the inline mark likewise, and every other attribute but the walk id and the paragraph mark is unchanged |
| Traversal.WalkAndLabelElement | src/utils/host/dom/traversal.ts:105-177 | the loop-based walker returns exactly the labelled element and role of the specification `Label` |
| Traversal.WalkShadowChildren | src/utils/host/dom/traversal.ts:127-134 | the loop over shadow children returns the labelled shadow children of `LabelShadow` |
| Traversal.WalkChildren | src/utils/host/dom/traversal.ts:140-161 | the loop over children returns the labelled children and both flags of `LabelKids` |
| Traversal.PiecesMeaning | src/utils/host/dom/traversal.ts:209-231 | the scan over a paragraph's children covers the considered children in order, as runs of inline nodes and single barriers, never two runs side by side, and the open run holds only inline nodes |
| Traversal.FlushOk | src/utils/host/dom/traversal.ts:223-226 | closing a run keeps every piece well formed and keeps runs apart |
| Traversal.ResolveMeaning | src/utils/host/dom/traversal.ts:207-237 | including the final flush of lines 233-236, the pieces cover exactly the considered children in order, each well formed, with no two runs adjacent |
| Traversal.TranslateWalkedElement | src/utils/host/dom/traversal.ts:185-253 | the loop-based resolver dispatches exactly the units of the specification `Units`, in order |
| Traversal.TranslateParagraphChildren | src/utils/host/dom/traversal.ts:209-236 | the grouping loop dispatches exactly the units of the pieces `Resolve` cuts the children into: one run call per group, the recursion's units per element barrier |
| Traversal.TranslateKids | src/utils/host/dom/traversal.ts:240-251 | the recursion over each child element (and, separately, each shadow child element) dispatches the units of `KidUnits`, in order |
| Traversal.UnitsOk | src/utils/host/dom/traversal.ts:191-206 | every dispatched single unit is a paragraph of this walk with no block child; every dispatched run is a non-empty list of inline nodes with text |
| Traversal.UnwrapPathMeaning | src/utils/host/dom/traversal.ts:255-274 | the descent follows only-HTML-child links (always the first child node) and stops at the first node that is not an element with exactly one child node that is an element |
| Traversal.DeepestAt | src/utils/host/dom/traversal.ts:255-274 | the descent's path leads to the node the loop stops at |
| Traversal.UnwrapReplace | src/utils/host/dom/traversal.ts:255-274 | putting at the end of the descent an element that has no only HTML child leaves the descent unchanged |
| Traversal.UnwrapDeepestOnlyChild | src/utils/host/dom/traversal.ts:255-274 | the loop returns the descent path and the node at its end |
| Traversal.FindNearestBlockNode | src/utils/host/dom/traversal.ts:66-78 | the climb from the hit node passes only through shallow-inline HTML elements; a result is an ancestor-or-self that is not one; no result means the climb left the document or a shadow tree |
| Overlay.SlotAfter | src/utils/host/translate.ts:104-107 | `insertBefore(x, node.nextSibling)` has a slot iff the node has a parent, and that slot is right after the node |
| Overlay.FirstChildWith | src/utils/host/translate.ts:146 | `:scope > .notranslate` finds the first direct child with the class, or none when no child has it |
| Overlay.NewWrapper | src/utils/host/translate.ts:95-99 | a fresh wrapper carries both wrapper classes and holds exactly one fresh spinner |
| Overlay.WrapperSlot | src/utils/host/translate.ts:100-108 | an element target receives the wrapper as its last child; any other target receives it right after itself, or nowhere without a parent |
| Overlay.Fill | src/utils/host/translate.ts:151-182 | an inline-layout target gets a two-space span and an inline content span holding the translation; a block target gets a line break and a block content span; anything else gets nothing; the content is underlined iff links are underlined and the target is an `A` |
| Overlay.ErrorBox | src/utils/host/translate/node-manipulation.ts:336-345 | a failure appends one fresh container of class `read-frog-error-wrapper` |
| Overlay.SweepLeavesNoWrapper | src/utils/host/translate.ts:48-66 | after removing all wrappers, none is left in the light tree or in any open shadow tree |
| Overlay.SweepKeepsWrapperFree | src/utils/host/translate.ts:48-66 | a page without wrappers is unchanged by the removal |
| Overlay.SweepIdempotent | src/utils/host/translate.ts:48-66 | removing all wrappers twice is the same as once |
| Overlay.SweepCounts | src/utils/host/translate.ts:48-66 | the removal deletes exactly the nodes inside the wrappers it removes (`Swept`) and adds none, so a node outside every wrapper keeps its count |
| Overlay.TargetOf | src/utils/host/translate.ts:80-81 | an element is translated at its deepest only-child, any other node at itself; a node no longer on the page has no target |
| Overlay.LocateTarget | src/utils/host/translate.ts:80-81 | locating the node and unwrapping an element's only children gives exactly the target of `TargetOf` |
| Overlay.AppendTo | src/utils/host/translate.ts:125-129 | appending to the wrapper adds the nodes as its last children, and leaves the page unchanged when the wrapper has left it |
| Overlay.AppendChildFound | src/utils/host/translate.ts:95-101 | a wrapper appended as last child of an element with no wrapper child is the first child carrying the wrapper class |
| Overlay.PlacementKeepsTarget | src/utils/host/translate.ts:80-108 | placing the wrapper (inside an element target that has a child, or right after any other target) does not move the target: looking the node up again gives the same target path |
| Overlay.AppendKeepsDescent | src/utils/host/translate.ts:80-101 | appending to the element the descent stops at, when it already has a child, keeps the node and its descent as they were |
| Overlay.InsertThenRemove | src/utils/host/translate/node-manipulation.ts:177-183 | inserting a node at a slot and then removing it gives back the page |
| Translate.FindExistedWrapper | src/utils/host/translate.ts:136-149 | a text node's wrapper is its next sibling when that is a notranslate element; an element's is its first notranslate child; any other node has none |
| Translate.Translator.constructor | src/utils/host/translate.ts:73-78 | a fresh engine has no node in flight |
| Translate.Translator.TranslateNodeStart | src/utils/host/translate.ts:73-133 | a node in flight is turned away without edits, and the `finally` block takes it out of the registry; otherwise the call goes on as `Admit` |
| Translate.Translator.TranslateNodeStartGuarded | src/utils/host/translate.ts:76-77 | with the intended guard, a node in flight is turned away and the registry is left as it was |
| Translate.Translator.Admit | src/utils/host/translate.ts:78-108 | past the guard: an existing wrapper is kept (or removed when toggling) and the call ends; empty text ends it; otherwise a wrapper with a spinner is placed; the node stays registered exactly while the call is pending |
| Translate.Translator.RepeatWhilePending | src/utils/host/translate.ts:76-133 | three calls for one node while the first is pending, the third toggling: the second is turned away, the node leaves the registry, and the third removes the placeholder the first call is still to fill |
| Translate.Translator.RepeatWhilePendingGuarded | src/utils/host/translate.ts:76-77 | the same calls with the intended guard: the second and third are turned away, the node stays registered and the placeholder stays on the page |
| Translate.FirstPlacement | src/utils/host/translate.ts:83-108 | a first call for a node whose target has text and no wrapper puts up one placeholder with a fresh id |
| Translate.PlacementFoundAgain | src/utils/host/translate.ts:80-90 | the first call's wrapper is what a later call for the node finds, and removing it gives back the earlier page |
| Translate.Translator.PlaceWrapper | src/utils/host/translate.ts:83-108 | the synchronous part on a located target, as the `Placed` relation |
| Translate.Translator.TranslateNodeFinish | src/utils/host/translate.ts:110-133 | the node is deregistered and the spinner is gone; a failure removes the wrapper; an empty translation leaves the wrapper empty; otherwise the filled content is appended, with links underlined |
| Translate.Translator.AppendToWrapper | src/utils/host/translate.ts:125-129 | the filled content is appended to the wrapper with fresh ids, and a spinner already gone stays gone |
| Translate.Translator.RemoveAllTranslatedWrapperNodes | src/utils/host/translate.ts:48-66 | the page becomes its sweep and the engine state stays valid |
| Translate.PlacedWrapperIsFound | src/utils/host/translate.ts:80-108 | in a page without duplicate ids, after a wrapper is placed for a node, looking the node up again gives the same target, and the wrapper is the one the next pass finds, so a repeat keeps it and a toggling pass removes exactly it, giving back the earlier page |
| Translate.Lower | src/utils/host/translate.ts:189 | definition used by `ShouldAutoEnable`: lower-casing keeps the length and maps each character on its own |
| Translate.Includes | src/utils/host/translate.ts:189 | `includes` holds iff the pattern occurs at some position |
| Translate.SomePatternIn | src/utils/host/translate.ts:189 | `some` over the first k patterns holds iff one of them occurs |
| Translate.ShouldAutoEnable | src/utils/host/translate.ts:184-190 | auto-enable iff patterns are configured and one of them occurs in the URL, ignoring ASCII case |
| NodeManipulation.FindExistedWrapper | src/utils/host/translate/node-manipulation.ts:280-293 | for a text node or an element marked as a run's end, the wrapper is the next sibling when that is a notranslate element; for another element, its first notranslate child; otherwise none |
| NodeManipulation.JoinedTextEmpty | src/utils/host/translate/node-manipulation.ts:244-246 | a run's joined text is empty iff the run has no node, or one node with no text |
| NodeManipulation.Translator.constructor | src/utils/host/translate/node-manipulation.ts:164-169 | a fresh engine has nothing in flight and has styled no frame |
| NodeManipulation.Translator.EnsureStylesInjected | src/utils/host/translate/node-manipulation.ts:39-112 | the main document and an already-styled document are left alone; another document is marked styled, and a style element is appended only when it has a head or root element |
| NodeManipulation.Translator.TranslateNodeStart | src/utils/host/translate/node-manipulation.ts:164-220 | a node in flight is turned away without edits, and the `finally` block takes it out of the registry; otherwise the call goes on as `Admit` |
| NodeManipulation.Translator.TranslateNodeStartGuarded | src/utils/host/translate/node-manipulation.ts:167-168 | with the intended guard, a node in flight is turned away and the registry is left as it was |
| NodeManipulation.Translator.Admit | src/utils/host/translate/node-manipulation.ts:169-205 | past the guard: styles are ensured; an existing wrapper is removed, and toggling stops there; empty text ends the call; otherwise a wrapper with a spinner is placed; the node stays registered exactly while the call is pending |
| NodeManipulation.Translator.RepeatWhilePending | src/utils/host/translate/node-manipulation.ts:164-220 | three calls for one node while the first is pending: the second is turned away and the node leaves the registry, so the third removes the first call's placeholder and puts up a second one; two translations are in flight and the first wrapper is off the page |
| NodeManipulation.Translator.RepeatWhilePendingGuarded | src/utils/host/translate/node-manipulation.ts:167-168 | the same calls with the intended guard: the second and third are turned away, the node stays registered and the placeholder stays on the page |
| NodeManipulation.FirstPlacement | src/utils/host/translate/node-manipulation.ts:185-205 | a first call for a node whose target has text and no wrapper puts up one placeholder with a fresh id |
| NodeManipulation.PlacementFoundAgain | src/utils/host/translate/node-manipulation.ts:172-183 | the first call's wrapper is what a later call for the node finds, and removing it gives back the earlier page |
| NodeManipulation.WrapperCounted | src/utils/host/translate/node-manipulation.ts:189-204 | a placed wrapper is the only node with its id, and ids it does not use stay absent |
| NodeManipulation.SecondPlacement | src/utils/host/translate/node-manipulation.ts:177-205 | a call past the guard while the first is pending removes the first wrapper and puts up a second placeholder with new ids |
| NodeManipulation.Translator.NodeOnPage | src/utils/host/translate/node-manipulation.ts:174-205 | the part after registration; a call that ends here deregisters the node |
| NodeManipulation.Translator.Refresh | src/utils/host/translate/node-manipulation.ts:177-205 | the remove-then-place step on a located target, as the `Refreshed` relation |
| NodeManipulation.Translator.Place | src/utils/host/translate/node-manipulation.ts:185-205 | empty text changes nothing; otherwise a fresh wrapper with a spinner goes to the slot (nowhere without a parent) and the call is pending on that text |
| NodeManipulation.Translator.Register | src/utils/host/translate/node-manipulation.ts:229 | every node of the run joins the in-flight set |
| NodeManipulation.Translator.Deregister | src/utils/host/translate/node-manipulation.ts:275-277 | every node of the run leaves the in-flight set |
| NodeManipulation.Translator.TranslateRunStart | src/utils/host/translate/node-manipulation.ts:223-277 | a run whose nodes are all in flight is turned away without edits, and the `finally` block takes all of them out of the registry; otherwise the call goes on as `AdmitRun` |
| NodeManipulation.Translator.TranslateRunStartGuarded | src/utils/host/translate/node-manipulation.ts:226-228 | with the intended guard, a run wholly in flight is turned away and the registry is left as it was |
| NodeManipulation.Translator.AdmitRun | src/utils/host/translate/node-manipulation.ts:229-259 | past the guard: all nodes are registered, styles are ensured for the last node, its wrapper is removed (toggling stops), the space-joined text decides whether to continue, and a wrapper with a spinner goes right after the last node; the nodes stay registered exactly while the call is pending |
| NodeManipulation.Translator.RunOnPage | src/utils/host/translate/node-manipulation.ts:236-259 | the part after registration; a call that ends here deregisters the whole run |
| NodeManipulation.Translator.RunRefresh | src/utils/host/translate/node-manipulation.ts:236-259 | the remove-then-place step of a run, as the `RunRefreshed` relation |
| NodeManipulation.Translator.TranslateFinish | src/utils/host/translate/node-manipulation.ts:207-220 | the nodes are deregistered and the spinner is gone; a failure appends an error box to the kept wrapper; an empty translation leaves the wrapper empty; otherwise the filled content is appended without link underlining |
| NodeManipulation.Translator.AppendToWrapper | src/utils/host/translate/node-manipulation.ts:323-324 | appending fresh nodes keeps ids unique and keeps a removed spinner removed |
| NodeManipulation.Translator.RemoveAllTranslatedWrapperNodes | src/utils/host/translate/node-manipulation.ts:135-157 | the page becomes its sweep and the engine state stays valid |
| NodeManipulation.RemoveKeepsTargetIfAny | src/utils/host/translate/node-manipulation.ts:177-183 | removing the found wrapper leaves the target in place |
| NodeManipulation.PlacedWrapperIsFound | src/utils/host/translate/node-manipulation.ts:172-205 | in a page without duplicate ids, for a text target or an element without the run-end mark, after a wrapper is placed, looking the node up again gives the same target, the wrapper is the one the next pass finds and removes, and removing it gives back the earlier page |
| NodeManipulation.RunWrapperFoundIff | src/utils/host/translate/node-manipulation.ts:256-259 | a run's wrapper, placed after its last node, is found again iff that node is text or carries the run-end mark; when found, removing it gives back the earlier page; since nothing in this core sets the mark, a run ending in an element gets a second wrapper on the next pass |
| Read.BatchesFlatten | src/hooks/read/read.tsx:217-234 | the batches laid end to end are exactly the paragraphs, in order |
| Read.BatchesBounded | src/hooks/read/read.tsx:217-234 | every batch is a single over-long paragraph or sums to at most 1500 characters |
| Read.LongParagraphAlone | src/hooks/read/read.tsx:225-226 | an over-long paragraph is always alone in its batch |
| Read.PackOutput | src/hooks/read/read.tsx:219-231 | after k steps, the pushed batches followed by the pending list are exactly the first k paragraphs |
| Read.PackKeeps | src/hooks/read/read.tsx:219-231 | after every step, pushed batches are bounded and pending stays within 1500 characters |
| Read.EmptyBatchIff | src/hooks/read/read.tsx:220-226 | the loop as written emits an empty batch iff an over-long paragraph arrives while nothing is pending |
| Read.StepEmptyBatch | src/hooks/read/read.tsx:220-226 | one step of the loop adds an empty batch iff the paragraph is over-long and nothing is pending |
| Read.LeadingLongParagraph | src/hooks/read/read.tsx:220-226 | a lone over-long paragraph yields an empty batch followed by itself |
| Read.FixedBatchesNonEmpty | src/hooks/read/read.tsx:217-234 | with the empty push skipped, no batch is empty, and the batches still cover the paragraphs in order within the bound |
| Read.FixedIsNonEmpty | src/hooks/read/read.tsx:217-234 | the corrected batches are the written batches with only the empty ones removed |
| Read.PackParagraphs | src/hooks/read/read.tsx:217-234 | the loop as written computes `Batches` |
| Read.PackParagraphsFixed | src/hooks/read/read.tsx:217-234 | the corrected loop computes `FixedBatches` |
| Read.PrepareExplanation | src/hooks/read/read.tsx:200-239 | no paragraphs or no analysis is an error; otherwise the batches are exactly the as-written loop's `Batches` (an empty batch included), cover the paragraphs in order, each within the bound, and the progress starts at 0 of their count |
| Read.Retry | src/hooks/read/read.tsx:152-189 | there are 1 to 3 attempts; the result is the last attempt's reply; every earlier attempt failed; a failure means all 3 failed |
| Read.RetrySucceedsIff | src/hooks/read/read.tsx:152-189 | a retried call succeeds iff one of the first 3 attempts succeeds, and then it returns the first success |
| Read.ExplainBatch | src/hooks/read/read.tsx:152-189 | the batch's reply is the retried reply, and only a success advances the completed count by one |
| Read.StoredLanguage | src/hooks/read/read.tsx:80-85 | definition used by `AnalyzeContent`: an undetermined language `und` is stored as `cmn`; any other is stored as detected |
| Read.AnalyzeContent | src/hooks/read/read.tsx:37-102 | an article without paragraphs fails with "No content available for summary generation"; otherwise the retried answer is returned and its language stored, or the last error is raised |
| Migration.Spread | apps/extension/src/utils/config/migration-scripts/v007-to-v008.ts:8-14 | definition used by `Migrate`: spreading an object copies its fields; spreading undefined, null, a boolean or a number copies nothing |
| Migration.DecimalInjective | apps/extension/src/utils/config/migration-scripts/v007-to-v008.ts:9-11 | distinct array or string indices give distinct property names |
| Migration.DefaultTranslatePrompt | apps/extension/src/utils/constants/prompt.ts:11-15 | definition used by `Migrate`: the default prompt has exactly the keys id, name and prompt; id and name are both the app-prefixed default id; prompt is the line prompt |
| Migration.Migrate | apps/extension/src/utils/config/migration-scripts/v007-to-v008.ts:3-15 | a null configuration throws; otherwise `translate.prompts` is exactly the default prompt, every other top-level and `translate` property is copied unchanged, and only `translate` and `prompts` are added |
| Migration.MigrateIdempotent | apps/extension/src/utils/config/migration-scripts/v007-to-v008.ts:3-15 | migrating an already migrated configuration changes nothing |

## Left out

- Translation calls, storage reads and writes, and language-model requests are
  inputs.
  - An engine's `Finish` method takes the outcome of `translateText` as a
    parameter.
  - The reading mode takes the reply to the i-th attempt as a function of `i`.
  - Storage errors ("No provider config", "Incomplete language settings",
    "No target language or model selected") are not modelled.
- `sendInBatchesWithFixedDelay` and the concurrency of the explanation calls
  are not part of this model. `Read.ExplainBatch` covers one batch.
- Interleaving between pending translations is not modelled. Each `Start`
  and `Finish` is one atomic step. The resolver dispatches units from the
  labelled tree as it stood when the scan began, so the synchronous edits of
  units dispatched earlier in the same scan are not reflected.
- The event-driven callers are not modelled as composed operations:
  `translatePage`, `hideOrShowPageTranslation` and
  `hideOrShowNodeTranslation`. Their parts are modelled.
- Hit-testing (`findElementAt`) is not modelled. `FindNearestBlockNode` starts
  from a given path.
- `smashTruncationStyle` only changes inline styles and is not modelled.
- The stylesheet text that `ensureStylesInjected` writes is not modelled. A
  document is an opaque id, and whether it has a head is a parameter.
- The React rendering of the error component is not modelled, nor its cleanup
  on removal. The error box is an empty container with its class.
- `unwrapDeepestOnlyHTMLChild`, which the newer engine calls, is not part of
  this model. It is taken to behave like `unwrapDeepestOnlyChild`.
- The classification filters are not part of this model and are opaque
  functions of the node:
  - `isDontWalkIntoElement`;
  - `isShallowBlockHTMLElement`;
  - `isShallowInlineHTMLElement`;
  - `isInlineTransNode`;
  - `isBlockTransNode`.
- The tag sets are policy fields.
- The class-name constants are an enumeration, not their string values.
- A node that has left the page is not followed. The engine treats it as
  having no target and makes no edit. An append to a detached wrapper leaves
  the page unchanged.
- Text lengths count `char` values, not UTF-16 code units as JavaScript's
  `length` does.
- Translate.Lower: maps only ASCII letters, while `toLowerCase` also folds other scripts.
- JSON property order is not modelled: an object is a map.
- `APP_NAME` comes from a file that is not part of this model. The migration
  takes it as a parameter.
- An `undefined` old configuration is not distinguished from other
  non-object values. Only `null` is modelled as the throwing case.
- NodeManipulation.PlacedWrapperIsFound: covers text targets and elements
  without the run-end mark. For an element that carries the mark, the
  newer engine looks for the wrapper after the element but places it inside.
  That case is left to `RunWrapperFoundIff`, which describes runs.
- The run-end attribute (`CONSECUTIVE_INLINE_END_ATTRIBUTE`) is read at
  `src/utils/host/translate/node-manipulation.ts:281` but set nowhere in the
  modelled files. It is a plain node attribute in the model, so
  `RunWrapperFoundIff` describes what happens when it is absent, not an
  intended behaviour.
- The legacy engine keeps a wrapper it finds again unless toggling. The newer
  engine removes it and translates again. Both follow the code.

## Findings

| source | as written | input that shows it | evidently intended | confidence | as-written member | corrected member |
|---|---|---|---|---|---|---|
| src/utils/host/translate.ts:76-77 | the duplicate guard returns inside `try`, so the `finally` at lines 131-133 deletes the node from `translatingNodes` even though another call for it is still pending | call `translateNode(n)`, then twice more before it settles, the third with `toggle` true: the second is turned away but unregisters `n`, so the third passes the guard and removes the wrapper the first call is still to fill | a call turned away leaves the registry as it was | not executed | Translate.Translator.RepeatWhilePending | Translate.Translator.RepeatWhilePendingGuarded |
| src/utils/host/translate/node-manipulation.ts:167-168 | the duplicate guard returns inside `try`, so the `finally` at lines 218-220 deletes the node from `translatingNodes`; the run guard at lines 226-228 does the same through lines 275-277 | call `translateNode(n)`, then twice more before it settles: the second is turned away but unregisters `n`, so the third removes the first call's placeholder and starts a second translation of `n` | a call turned away leaves the registry as it was | not executed | NodeManipulation.Translator.RepeatWhilePending | NodeManipulation.Translator.RepeatWhilePendingGuarded |
| src/hooks/read/read.tsx:220-226 | the pending batch is pushed whenever the next paragraph would overflow it, even when nothing is pending; an over-long paragraph then also pushes itself | paragraphs `[p]` with `p` longer than 1500 characters give batches `[[], [p]]`, so an empty batch is sent to the model and counted in the progress total | push the pending batch only when it is non-empty | not executed | Read.EmptyBatchIff | Read.FixedIsNonEmpty |
