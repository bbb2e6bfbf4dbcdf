# luxe-inspections inspection tree, in Dafny

A model of the core of the luxe-inspections editor: a property inspection is a
tree of sections, each with checklist items, photos and subsections, and the
editor changes it through a set of handlers.

- **Types** (`types.dfy`): the entities of `src/types/index.ts`.
  - `ChecklistItem`, `PhotoItem`, `Subsection`, `Section` and `Inspection` are datatypes.
  - A subsection's own list of subsections is optional, so it is an `Option`.
- **Lists** (`lists.dfy`): the list operations the handlers are built from.
  - `Filter` models `filter` and `IndexOf` models `findIndex`.
  - `Moved` is the two-`splice` move used by every drag reorder.
  - `Reorder` performs that move in place on an array.
- **Mutations** (`mutations.dfy`): the pure handlers of `src/App.tsx`.
  - They toggle, add, remove and rename items, sections, subsections and photos, and copy gallery photos.
  - Each one maps the current inspection to the next one.
- **DroppableIds** (`droppable_ids.dfy`): the drop-area names.
  - The components build them by joining parts with `-`.
  - The drag handler takes them apart with `split('-')`.
- **DragDrop** (`drag_drop.dfy`): the decision the drag-end handler makes from a drop report.
  - `Classify` picks the action and `Apply` carries it out.
- **Progress** (`progress.dfy`): the sidebar's completion percentage.
  - The `CalculateProgress` method keeps the source's loop.
  - It is proved equal to the `Progress` function.
- **AppState** (`app.dfy`): the application state, as a class `App`.
  - The handlers that do more than compute a new inspection are its methods.
  - They are: loading the gallery (`LoadGallery`), toggling the sidebar (`ToggleSidebar`), selecting a section (`SelectSection`), the selection-aware add and remove section, the add-photo copies, and the drag-end handler (`DragEnd`).
  - `DragEnd` hands its cases to `DropGalleryPhoto`, `DropItem` and `DropSubsectionItem`, and reorders the sections itself with `Lists.Reorder`.

Ids come from `uuidv4()` and the suffix of a copied photo's id comes from
`Date.now()`. The model takes both as parameters: `newId` and `nonce`.

A drop-area name decodes back to its parts only when the ids in it contain no
`-`. The lemmas that state a decode round trip therefore require dash-free
ids. Other lemmas state what happens with ids that do contain a dash, as the
generated ones do: the drop is misread and changes nothing.

## Model

| member | source | states |
|---|---|---|
| Lists.Filter | src/App.tsx:383 | `filter` never lengthens the list |
| Lists.FilterSpec | src/App.tsx:383 | the result keeps exactly the elements that pass the test, in their original order (a subsequence), and keeps the whole list when all pass |
| Lists.FilterCounts | src/App.tsx:383 | a passing element occurs in the result exactly as often as in the list; a failing one does not occur |
| Lists.FilterAppend | src/App.tsx:383 | filtering distributes over concatenation |
| Lists.FilterDropsAppended | src/App.tsx:383 | filtering out an appended element that fails the test, when every earlier element passes, gives back the list |
| Lists.FilterDropsOne | src/App.tsx:383 | when only the element at k fails the test, filtering removes exactly that position |
| Lists.FilterIdempotent | src/App.tsx:383 | filtering twice by the same test equals filtering once |
| Lists.IndexOf | src/App.tsx:234 | `findIndex`: the first index whose element passes, or none when no element passes |
| Lists.IndexOfFirst | src/App.tsx:234 | a passing index with no passing index before it is what `findIndex` returns |
| Lists.Dest | src/App.tsx:219 | the insertion point of `splice(to, 0, x)` after the removal: `to`, clamped to the end of the shortened list |
| Lists.Moved | src/App.tsx:217-219 | the move keeps the length, and the taken element sits at the clamped destination |
| Lists.MovedAt | src/App.tsx:217-219 | element by element: elements between the source and the destination shift one place toward the source; all others stay |
| Lists.MovedFromIndices | src/App.tsx:217-219 | a list of the same length that agrees with the element-by-element description of a move at every index is the move |
| Lists.MovedIsPermutation | src/App.tsx:217-219 | a move is a permutation (same multiset) |
| Lists.MovedInPlace | src/App.tsx:217-219 | moving an element to its own index changes nothing |
| Lists.MovedBack | src/App.tsx:217-219 | moving the element back from its destination to its old index restores the list |
| Lists.MovedExamples | src/App.tsx:217-219 | [a,b,c] with 0→2 gives [b,c,a]; with 2→0 gives [c,a,b] |
| Lists.Reorder | src/App.tsx:241-243 | the in-place array splice-out/splice-in computes exactly `Moved` |
| Mutations.ToggleIn | src/App.tsx:304-308 | flips `checked` on exactly the items with the id; nothing else about any item changes |
| Mutations.RenameIn | src/App.tsx:425-427 | replaces the text of exactly the items with the id; nothing else changes |
| Mutations.WithoutItem | src/App.tsx:448 | no item with the id remains; every other item is kept in order and as often as it occurred; a list without the id is returned unchanged |
| Mutations.WithoutPhoto | src/App.tsx:338 | no photo with the id remains; every other photo is kept in order and as often as it occurred; a list without the id is returned unchanged |
| Mutations.WithoutSubsection | src/App.tsx:485 | no subsection with the id remains; every other subsection is kept in order and as often as it occurred; a list without the id is returned unchanged |
| Mutations.ToggleInTwice | src/App.tsx:304-308 | toggling a list twice with the same id restores it |
| Mutations.ToggleInAbsent | src/App.tsx:304-308 | a list without the id is left as it is by the toggle |
| Mutations.RenameInAbsent | src/App.tsx:425-427 | a list without the id is left as it is by the rename |
| Mutations.ToggleInSubsections | src/App.tsx:318-325 | only the items of each first-level subsection change; title, photos and nested subsections are kept |
| Mutations.RenameInSubsections | src/App.tsx:429-434 | only the items of each first-level subsection are renamed; everything else is kept |
| Mutations.WithoutItemInSubsections | src/App.tsx:450-453 | only the items of each first-level subsection lose the item; everything else is kept |
| Mutations.WithoutItemInSubsectionsAbsent | src/App.tsx:450-453 | subsections none of whose items carry the id are left as they are |
| Mutations.ToggleItem | src/App.tsx:299-311 | toggles matching direct items of every section; subsection items, photos, titles and the inspection's other fields are unchanged |
| Mutations.ToggleItemTwice | src/App.tsx:299-311 | toggling the same item twice restores the inspection |
| Mutations.ToggleItemAbsent | src/App.tsx:299-311 | an id found among no section's direct items leaves the inspection unchanged, even when a subsection item carries it |
| Mutations.ToggleSubsectionItem | src/App.tsx:313-328 | flips only matching items of first-level subsections; direct items, photos, titles and nested subsections are unchanged |
| Mutations.ToggleSubsectionItemTwice | src/App.tsx:313-328 | toggling the same subsection item twice restores the inspection |
| Mutations.ToggleSubsectionItemAbsent | src/App.tsx:313-328 | an id carried by no first-level subsection item leaves the inspection unchanged, even when a direct item carries it |
| Mutations.RemoveSectionPhoto | src/App.tsx:331-343 | removes the photo from the sections with the id only; every other field and section is unchanged |
| Mutations.RemoveSubsectionPhoto | src/App.tsx:345-360 | removes the photo from first-level subsections with the id, in any section; nothing else changes |
| Mutations.RemoveSectionPhotoIdempotent | src/App.tsx:331-343 | removing a section photo twice equals removing it once |
| Mutations.RemoveSubsectionPhotoIdempotent | src/App.tsx:345-360 | removing a subsection photo twice equals removing it once |
| Mutations.RemoveSubsectionPhotoAbsent | src/App.tsx:345-360 | a photo id carried by no photo of a first-level subsection with the target id leaves the inspection unchanged |
| Mutations.AddSection | src/App.tsx:362-374 | one section is appended, earlier sections are unchanged, and the new last section has the fresh id, the default title and empty items, photos and subsections |
| Mutations.WithoutSection | src/App.tsx:383 | no section with the id remains; every other section is kept in order and as often as it occurred; a list without the id is returned unchanged |
| Mutations.RemoveSection | src/App.tsx:380-385 | no section with the id remains; every other section is kept in order and as often as it occurred; an absent id changes nothing; the other inspection fields are kept |
| Mutations.RemoveSectionAt | src/App.tsx:380-385 | with a unique id at position k, removal is exactly deletion at k |
| Mutations.AddThenRemoveSection | src/App.tsx:362-385 | removing a section just added under a fresh id restores the inspection |
| Mutations.UpdateSectionTitle | src/App.tsx:392-399 | only the titles of sections with the id change |
| Mutations.UpdateSectionTitleIdempotent | src/App.tsx:392-399 | writing the same title twice equals writing it once |
| Mutations.AddItem | src/App.tsx:401-416 | appends one unchecked item with the fresh id and the default text to the sections with the id; others are unchanged |
| Mutations.UpdateItem | src/App.tsx:418-439 | renames the item among direct items and first-level subsection items of the sections with the id only |
| Mutations.UpdateItemIdempotent | src/App.tsx:418-439 | writing the same text twice equals writing it once |
| Mutations.UpdateItemAbsent | src/App.tsx:418-439 | an id carried by no direct or first-level subsection item of the target sections leaves the inspection unchanged |
| Mutations.RemoveItem | src/App.tsx:441-458 | removes the item from direct and first-level subsection items of the sections with the id only |
| Mutations.RemoveItemLeavesNoCopy | src/App.tsx:441-458 | afterwards neither the section's items nor any of its first-level subsections' items carry the id |
| Mutations.RemoveItemAbsent | src/App.tsx:441-458 | an id carried by no direct or first-level subsection item of the target sections leaves the inspection unchanged |
| Mutations.AddThenRemoveItem | src/App.tsx:401-458 | removing an item just added under a fresh id restores the inspection |
| Mutations.SubsectionItemEditsDropped | src/components/Section.tsx:150-155 | a subsection id passed to the add, update or remove item handlers matches no section, so all three leave the inspection unchanged |
| Mutations.AddSubsection | src/App.tsx:460-476 | appends one empty subsection, with no nested list, to the sections with the id only |
| Mutations.RemoveSubsection | src/App.tsx:478-490 | drops the subsection from the sections with the id only, keeping sibling order |
| Mutations.AddThenRemoveSubsection | src/App.tsx:460-490 | removing a subsection just added under a fresh id restores the inspection |
| Mutations.RetitleIn | src/App.tsx:499-501 | renames exactly the subsections with the id; nothing else changes |
| Mutations.UpdateSubsectionTitle | src/App.tsx:492-506 | renames the subsection inside the sections with the id only |
| Mutations.UpdateSubsectionTitleIdempotent | src/App.tsx:492-506 | writing the same subsection title twice equals writing it once |
| Mutations.AddPhotoToSection | src/App.tsx:94-131 | of any two sections at least one is unchanged; a section's photos can only grow at the end; every other field is unchanged |
| Mutations.PhotoCopy | src/App.tsx:110-114 | a copy keeps the url, extends the original id with `-<nonce>`, and always has a non-empty caption: the original's when it has one |
| Mutations.AddPhotoToSectionAppendsCopy | src/App.tsx:94-131 | with the photo and the section found (first matches), exactly that section gains one photo: id `<photoId>-<nonce>`, the gallery url, and the caption or 'Foto sin título' |
| Mutations.AddPhotoToSectionMissing | src/App.tsx:96-107 | a photo missing from the gallery, or a missing section, leaves the inspection unchanged |
| Mutations.RemoveSectionPhotoAbsent | src/App.tsx:331-343 | removing a photo id no target section holds changes nothing |
| Mutations.AddThenRemoveSectionPhoto | src/App.tsx:94-343 | removing the copy (its id fresh in the target) restores the inspection from before the drop |
| Mutations.AddPhotoToSubsection | src/App.tsx:133-182 | of any two sections at least one is unchanged, and within a section of any two subsections at least one is unchanged; only subsection photos change, and only by growing at the end; counts are kept |
| Mutations.AddPhotoToSubsectionAppendsCopy | src/App.tsx:133-182 | with photo, section and subsection found, exactly that subsection gains the copy; its siblings and all other sections are unchanged |
| Mutations.AddPhotoToSubsectionMissing | src/App.tsx:135-152 | a missing photo, no section with the id, or no subsection with the id in the first section carrying the id leaves the inspection unchanged; later sections with the same id are not searched |
| DroppableIds.Split | src/App.tsx:203 | `split('-')` always yields at least one piece, and no piece contains `-` |
| DroppableIds.JoinSplit | src/App.tsx:203 | joining the pieces with `-` gives back the original string |
| DroppableIds.SplitJoin | src/App.tsx:203 | splitting a join of dash-free pieces gives back the pieces |
| DroppableIds.SplitAppend | src/App.tsx:203 | splitting two strings joined by `-` gives the pieces of the first followed by the pieces of the second |
| DroppableIds.Part | src/App.tsx:203 | array destructuring: the k-th piece, or none past the end |
| DroppableIds.SectionPhotoArea | src/components/Section.tsx:101 | the handler's split of a section photo area is `section` followed by the section id's own pieces |
| DroppableIds.SubsectionPhotoArea | src/components/Subsection.tsx:85 | the handler's split of a subsection photo area is `subsection`, then the subsection id's own pieces, then the section id's own pieces, for any ids |
| DroppableIds.DecodePhotoArea | src/App.tsx:203-211 | reads the first piece as `section` or `subsection`; a subsection target needs a non-empty third piece |
| DroppableIds.DecodedIdsAreDashFree | src/App.tsx:203 | every id the decoder yields is dash-free |
| DroppableIds.DecodeSectionPhotoArea | src/components/Section.tsx:101 | `section-<S>` decodes to section S when S is dash-free |
| DroppableIds.DecodeSubsectionPhotoArea | src/components/Subsection.tsx:85 | `subsection-<X>-<S>` decodes to subsection X of section S when both are dash-free; an empty S reads as no target |
| DroppableIds.DashedSectionIdMisread | src/App.tsx:203-206 | a section id containing `-` decodes to a different, dash-free id |
| DroppableIds.DashedSubsectionIdMisread | src/App.tsx:203-211 | a subsection id containing `-` never decodes back to that subsection of that section |
| DroppableIds.BareIdHasNoKind | src/components/Section.tsx:76 | a bare dash-free id is one piece, with no second piece naming `items` or `photos` |
| DragDrop.ClassifyGalleryDrop | src/App.tsx:201-211 | a gallery drop copies the dragged photo, into a section or a subsection, or does nothing |
| DragDrop.ClassifyItemDrop | src/App.tsx:228-258 | a move needs source and destination areas with the same section id and the same kind; `items` gives an item move and `photos` a photo move, in the first section with that id, between the drag's own indices; conversely such a drop on an existing section always moves |
| DragDrop.ClassifySubsectionItemDrop | src/App.tsx:261-296 | a move needs source and destination areas with the same section id, subsection id and kind; `items` gives an item move and `photos` a photo move, in the first subsection with the second piece's id inside the first section with the first piece's id, between the drag's own indices |
| DragDrop.SubsectionItemDropMoves | src/App.tsx:261-296 | conversely, matching areas naming `items` or `photos`, a section first at i and a subsection first at k inside it classify as exactly the move of that subsection's items or photos between the drag's indices |
| DragDrop.Classify | src/App.tsx:184-297 | no destination, or a drop where the drag began, is ignored; a photo drag that does not start in the gallery is ignored; any other action comes from the four handled drag types |
| DragDrop.Apply | src/App.tsx:184-297 | an action changes only `sections` and keeps their count; ignoring changes nothing |
| DragDrop.DragEndOutcome | src/App.tsx:184-297 | the handler changes only the sections, never their number; no destination, a drop onto the source, an unknown drag type, or a photo not dragged from the gallery leaves the inspection unchanged |
| DragDrop.DropNowhereChangesNothing | src/App.tsx:187-194 | a drop with no destination, or with the source's area and index, leaves the inspection unchanged |
| DragDrop.SectionDropReorders | src/App.tsx:216-225 | a section drag permutes the sections, and the dragged section lands at the clamped destination |
| DragDrop.ItemMovePermutes | src/App.tsx:237-251 | an item or photo move permutes that section's list and leaves everything else unchanged |
| DragDrop.SubsectionMovePermutes | src/App.tsx:275-289 | a move inside a subsection permutes its list and leaves every other subsection and section unchanged |
| DragDrop.GalleryDropOnSection | src/App.tsx:199-207 | a gallery photo dropped on `section-<S>` (S dash-free) is exactly the add-photo-to-section handler for S |
| DragDrop.GalleryDropOnSubsection | src/App.tsx:199-211 | a gallery photo dropped on `subsection-<X>-<S>` (dash-free, S non-empty) is exactly the add-photo-to-subsection handler |
| DragDrop.DashedIdsDropNoPhoto | src/App.tsx:199-211 | when every section id contains `-`, every photo drop leaves the inspection unchanged |
| DragDrop.ItemDragsAsWiredAreIgnored | src/App.tsx:228-296 | item and subsection-item drags from a bare dash-free area, or with only dashed section ids, do nothing |
| Progress.SubsectionItems | src/components/Sidebar.tsx:29-32 | every item of every given subsection is among the collected items |
| Progress.CountedItems | src/components/Sidebar.tsx:26-31 | the counted items start with the section's own items, are exactly those when there are no subsections, and include every item of every first-level subsection |
| Progress.CheckedCount | src/components/Sidebar.tsx:27 | the checked count never exceeds the list's length |
| Progress.CheckedCountAppend | src/components/Sidebar.tsx:27-31 | checked counts add up over concatenated lists |
| Progress.CheckedCountExtremes | src/components/Sidebar.tsx:27 | all checked counts every item; none checked counts zero |
| Progress.RoundedPercent | src/components/Sidebar.tsx:34 | the result is within 0..100; 0 for an empty total; otherwise the nearest integer to 100·checked/total, halves up, with 0 and 100 at the extremes |
| Progress.Progress | src/components/Sidebar.tsx:25-35 | the percentage lies within 0..100 and is 0 when nothing is counted |
| Progress.CalculateProgress | src/components/Sidebar.tsx:25-35 | the loop over first-level subsections (keeping checked ≤ total) computes exactly `Progress`, at most 100 |
| Progress.AllCheckedIsComplete | src/components/Sidebar.tsx:26-34 | all counted items checked, with at least one, gives 100 |
| Progress.NoneCheckedIsZero | src/components/Sidebar.tsx:26-34 | no counted item checked gives 0 |
| Progress.ProgressExample | src/components/Sidebar.tsx:26-34 | 3 own items with 2 checked plus one subsection with 2 unchecked gives 40 |
| Progress.SubsectionTotalsAgree | src/components/Sidebar.tsx:29-32 | subsection lists with the same item counts contribute the same totals |
| Progress.SameTotalsSameProgress | src/components/Sidebar.tsx:25-35 | progress depends only on the per-list item and checked counts |
| Progress.OnlyItemsCount | src/components/Sidebar.tsx:29-32 | titles, ids, photos and nested subsections do not affect progress |
| Progress.MovedKeepsCheckedCount | src/components/Sidebar.tsx:27 | moving an item within a list keeps the checked count |
| Progress.ReorderKeepsProgress | src/App.tsx:237-243 | reordering a section's items, or a subsection's items, keeps the section's progress |
| AppState.App.constructor | src/App.tsx:12-16 | starts with the given inspection, no selection, the sidebar closed and an empty gallery |
| AppState.App.SelectedSection | src/App.tsx:78-82 | the selected section is the first section of the inspection carrying the selected id; none when nothing is selected or the id is absent |
| AppState.App.LoadGallery | src/App.tsx:22 | the gallery becomes the loaded photos; nothing else changes |
| AppState.App.ToggleSidebar | src/App.tsx:84-86 | the sidebar's visibility flips; nothing else changes |
| AppState.App.SelectSection | src/App.tsx:88-91 | the id becomes the selection and the sidebar closes |
| AppState.App.AddSection | src/App.tsx:362-378 | the inspection gains the new section and the new id becomes the selection; with a fresh id, the selected section is the new last section |
| AppState.App.RemoveSection | src/App.tsx:380-390 | the selection is cleared exactly when it equalled the removed id; the selected section never carries the removed id |
| AppState.App.AddPhotoToSection | src/App.tsx:94-131 | the copy-then-assign-by-index handler computes exactly `Mutations.AddPhotoToSection`; selection and gallery are unchanged |
| AppState.App.AddPhotoToSubsection | src/App.tsx:133-182 | the copy-then-assign-by-index handler computes exactly `Mutations.AddPhotoToSubsection`; selection and gallery are unchanged |
| AppState.App.DropItem | src/App.tsx:228-258 | the in-place reorder of an item drag computes exactly the classified action |
| AppState.App.DropSubsectionItem | src/App.tsx:261-296 | the in-place reorder of a subsection-item drag computes exactly the classified action |
| AppState.App.DropGalleryPhoto | src/App.tsx:199-212 | a gallery photo drop computes exactly the classified copy into a section or subsection; selection and gallery are unchanged |
| AppState.App.DragEnd | src/App.tsx:184-297 | the handler leaves exactly `DragEndOutcome` as the inspection; selection, sidebar and gallery are unchanged |

## Left out

- Nested subsections below the first level are never reached. `handleToggleItem` toggles a section's direct items only (src/App.tsx:299-311). `handleToggleSubsectionItem` (src/App.tsx:313-328) and `calculateProgress` (src/components/Sidebar.tsx:25-35) reach the items of first-level subsections only. The model does the same.
- No drop area is declared with type `subsection-item`. No item list's area is named `<id>-items` or `<id>-photos` either. The item reorder branches are therefore unreachable as wired. The model keeps them, and `DragDrop.ItemDragsAsWiredAreIgnored` states why they do nothing.
- A drag reorder assigns into section objects that the previous state also references (src/App.tsx:244, 250, 282, 288). The model has value semantics and does not capture this aliasing.
- The add-photo and drag handlers read the state captured at render time, while the other handlers use functional updates. A sequential model sees no difference, so none is modelled.
- `Progress.RoundedPercent`: `Math.round` over the floating-point `checked / total * 100` is modelled as exact rational rounding with halves up. Floating-point error near exact halves is not modelled.
- `uuidv4()` and `Date.now()` are inputs, `newId` and `nonce`; generating them is not modelled.
- `Lists.Reorder`: the library guarantees that a drag's source index names something that was rendered, so this is a precondition (`SourceFits`). Splicing out of range is not modelled.
- Loading and saving the inspection, and fetching gallery photos, are asynchronous I/O behind a one-second debounce (src/App.tsx:19-75, src/lib/supabase.ts). They are not part of this model, except that the loaded photos reach the state through `App.LoadGallery`.
- `isLoading`, console logging and all rendering are left out.
- The gallery's caption sort uses regular expressions and locale-dependent comparison. It is presentation ordering and is left out.
- create-table.js is a one-off database setup script and is not part of this model.
