/** The edit handlers of the inspection editor. Each one takes the current
    inspection and returns a new one; a lookup that finds nothing leaves the
    inspection as it was. Searches go at most one level into the subsections:
    nested subsections are carried over untouched. */
module Mutations {
  import opened Types
  import opened Lists

  const NewSectionTitle: string := "Nueva sección"
  const NewItemText: string := "Nuevo elemento"
  const NewSubsectionTitle: string := "Nueva subsección"
  const UntitledCaption: string := "Foto sin título"

  // ---------------------------------------------------------------------------
  // Item lists

  /** Flips `checked` on every item whose id matches. */
  function ToggleIn(items: seq<ChecklistItem>, itemId: string): (r: seq<ChecklistItem>)
    ensures |r| == |items|
    ensures forall j :: 0 <= j < |r| ==> r[j].(checked := items[j].checked) == items[j]
    ensures forall j :: 0 <= j < |r| ==> r[j].checked == (items[j].checked != (items[j].id == itemId))
  {
    seq(|items|, j requires 0 <= j < |items| =>
      if items[j].id == itemId then items[j].(checked := !items[j].checked) else items[j])
  }

  /** Replaces the text of every item whose id matches. */
  function RenameIn(items: seq<ChecklistItem>, itemId: string, newText: string): (r: seq<ChecklistItem>)
    ensures |r| == |items|
    ensures forall j :: 0 <= j < |r| ==> r[j].(text := items[j].text) == items[j]
    ensures forall j :: 0 <= j < |r| ==> r[j].text == if items[j].id == itemId then newText else items[j].text
  {
    seq(|items|, j requires 0 <= j < |items| =>
      if items[j].id == itemId then items[j].(text := newText) else items[j])
  }

  /** Drops every item whose id matches, keeping the others in order. */
  function WithoutItem(items: seq<ChecklistItem>, itemId: string): (r: seq<ChecklistItem>)
    ensures NoItemWithId(r, itemId)
    ensures IsSubsequence(r, items)
    ensures forall j :: 0 <= j < |items| && items[j].id != itemId ==> items[j] in r
    ensures NoItemWithId(items, itemId) ==> r == items
    ensures forall x: ChecklistItem :: x.id != itemId ==> multiset(r)[x] == multiset(items)[x]
  {
    var r := Filter(items, ItemNotId(itemId));
    FilterSpec(items, ItemNotId(itemId));
    assert forall x: ChecklistItem :: x.id != itemId ==> multiset(r)[x] == multiset(items)[x] by {
      FilterCounts(items, ItemNotId(itemId));
    }
    assert forall j :: 0 <= j < |r| ==> r[j] in r;
    r
  }

  /** Drops every photo whose id matches, keeping the others in order. */
  function WithoutPhoto(photos: seq<PhotoItem>, photoId: string): (r: seq<PhotoItem>)
    ensures NoPhotoWithId(r, photoId)
    ensures IsSubsequence(r, photos)
    ensures forall j :: 0 <= j < |photos| && photos[j].id != photoId ==> photos[j] in r
    ensures NoPhotoWithId(photos, photoId) ==> r == photos
    ensures forall x: PhotoItem :: x.id != photoId ==> multiset(r)[x] == multiset(photos)[x]
  {
    var r := Filter(photos, PhotoNotId(photoId));
    FilterSpec(photos, PhotoNotId(photoId));
    assert forall x: PhotoItem :: x.id != photoId ==> multiset(r)[x] == multiset(photos)[x] by {
      FilterCounts(photos, PhotoNotId(photoId));
    }
    assert forall j :: 0 <= j < |r| ==> r[j] in r;
    r
  }

  /** Drops every subsection whose id matches, keeping the others in order. */
  function WithoutSubsection(subs: seq<Subsection>, subsectionId: string): (r: seq<Subsection>)
    ensures NoSubsectionWithId(r, subsectionId)
    ensures IsSubsequence(r, subs)
    ensures forall k :: 0 <= k < |subs| && subs[k].id != subsectionId ==> subs[k] in r
    ensures NoSubsectionWithId(subs, subsectionId) ==> r == subs
    ensures forall x: Subsection :: x.id != subsectionId ==> multiset(r)[x] == multiset(subs)[x]
  {
    var r := Filter(subs, SubsectionNotId(subsectionId));
    FilterSpec(subs, SubsectionNotId(subsectionId));
    assert forall x: Subsection :: x.id != subsectionId ==> multiset(r)[x] == multiset(subs)[x] by {
      FilterCounts(subs, SubsectionNotId(subsectionId));
    }
    assert forall k :: 0 <= k < |r| ==> r[k] in r;
    r
  }

  /** Toggling the same id twice restores the list. */
  lemma ToggleInTwice(items: seq<ChecklistItem>, itemId: string)
    ensures ToggleIn(ToggleIn(items, itemId), itemId) == items
  {
    var once := ToggleIn(items, itemId);
    var twice := ToggleIn(once, itemId);
    forall j | 0 <= j < |items| ensures twice[j] == items[j] {
      assert once[j].id == items[j].id;
    }
  }

  /** A list without the id is left as it is by the toggle. */
  lemma ToggleInAbsent(items: seq<ChecklistItem>, itemId: string)
    requires NoItemWithId(items, itemId)
    ensures ToggleIn(items, itemId) == items
  {
    assert forall j :: 0 <= j < |items| ==> ToggleIn(items, itemId)[j] == items[j];
  }

  /** A list without the id is left as it is by the rename. */
  lemma RenameInAbsent(items: seq<ChecklistItem>, itemId: string, newText: string)
    requires NoItemWithId(items, itemId)
    ensures RenameIn(items, itemId, newText) == items
  {
    assert forall j :: 0 <= j < |items| ==> RenameIn(items, itemId, newText)[j] == items[j];
  }

  // ---------------------------------------------------------------------------
  // First-level subsection lists: only their own `items` change; the spread
  // keeps title, photos and nested subsections.

  function ToggleInSubsections(subs: seq<Subsection>, itemId: string): (r: seq<Subsection>)
    ensures |r| == |subs|
    ensures forall k :: 0 <= k < |r| ==>
      r[k].(items := subs[k].items) == subs[k] && r[k].items == ToggleIn(subs[k].items, itemId)
  {
    seq(|subs|, k requires 0 <= k < |subs| => subs[k].(items := ToggleIn(subs[k].items, itemId)))
  }

  function RenameInSubsections(subs: seq<Subsection>, itemId: string, newText: string): (r: seq<Subsection>)
    ensures |r| == |subs|
    ensures forall k :: 0 <= k < |r| ==>
      r[k].(items := subs[k].items) == subs[k] && r[k].items == RenameIn(subs[k].items, itemId, newText)
  {
    seq(|subs|, k requires 0 <= k < |subs| => subs[k].(items := RenameIn(subs[k].items, itemId, newText)))
  }

  function WithoutItemInSubsections(subs: seq<Subsection>, itemId: string): (r: seq<Subsection>)
    ensures |r| == |subs|
    ensures forall k :: 0 <= k < |r| ==>
      r[k].(items := subs[k].items) == subs[k] && r[k].items == WithoutItem(subs[k].items, itemId)
  {
    seq(|subs|, k requires 0 <= k < |subs| => subs[k].(items := WithoutItem(subs[k].items, itemId)))
  }

  /** Subsections none of whose items carry the id are left as they are by the removal. */
  lemma WithoutItemInSubsectionsAbsent(subs: seq<Subsection>, itemId: string)
    requires forall k :: 0 <= k < |subs| ==> NoItemWithId(subs[k].items, itemId)
    ensures WithoutItemInSubsections(subs, itemId) == subs
  {
    var r := WithoutItemInSubsections(subs, itemId);
    forall k | 0 <= k < |subs| ensures r[k] == subs[k] {
    }
  }

  // ---------------------------------------------------------------------------
  // Toggle handlers

  /** Toggles matching items among every section's direct items; subsection
      items, photos, titles and the other inspection fields do not change. */
  function ToggleItem(insp: Inspection, itemId: string): (r: Inspection)
    ensures r.(sections := insp.sections) == insp
    ensures |r.sections| == |insp.sections|
    ensures forall i :: 0 <= i < |r.sections| ==>
      r.sections[i].(items := insp.sections[i].items) == insp.sections[i]
      && r.sections[i].items == ToggleIn(insp.sections[i].items, itemId)
  {
    insp.(sections := seq(|insp.sections|, i requires 0 <= i < |insp.sections| =>
      insp.sections[i].(items := ToggleIn(insp.sections[i].items, itemId))))
  }

  /** Toggling the same item twice restores the inspection. */
  lemma ToggleItemTwice(insp: Inspection, itemId: string)
    ensures ToggleItem(ToggleItem(insp, itemId), itemId) == insp
  {
    var once := ToggleItem(insp, itemId);
    var twice := ToggleItem(once, itemId);
    forall i | 0 <= i < |insp.sections| ensures twice.sections[i] == insp.sections[i] {
      ToggleInTwice(insp.sections[i].items, itemId);
    }
  }

  /** An id found among no section's direct items leaves the inspection
      unchanged, even when a subsection item carries it. */
  lemma ToggleItemAbsent(insp: Inspection, itemId: string)
    requires forall i :: 0 <= i < |insp.sections| ==> NoItemWithId(insp.sections[i].items, itemId)
    ensures ToggleItem(insp, itemId) == insp
  {
    var r := ToggleItem(insp, itemId);
    forall i | 0 <= i < |insp.sections| ensures r.sections[i] == insp.sections[i] {
      ToggleInAbsent(insp.sections[i].items, itemId);
    }
  }

  /** Toggles matching items of every section's first-level subsections;
      direct items, photos, titles and nested subsections do not change. */
  function ToggleSubsectionItem(insp: Inspection, itemId: string): (r: Inspection)
    ensures r.(sections := insp.sections) == insp
    ensures |r.sections| == |insp.sections|
    ensures forall i :: 0 <= i < |r.sections| ==>
      r.sections[i].(subsections := insp.sections[i].subsections) == insp.sections[i]
      && r.sections[i].subsections == ToggleInSubsections(insp.sections[i].subsections, itemId)
  {
    insp.(sections := seq(|insp.sections|, i requires 0 <= i < |insp.sections| =>
      insp.sections[i].(subsections := ToggleInSubsections(insp.sections[i].subsections, itemId))))
  }

  /** Toggling the same subsection item twice restores the inspection. */
  lemma ToggleSubsectionItemTwice(insp: Inspection, itemId: string)
    ensures ToggleSubsectionItem(ToggleSubsectionItem(insp, itemId), itemId) == insp
  {
    var once := ToggleSubsectionItem(insp, itemId);
    var twice := ToggleSubsectionItem(once, itemId);
    forall i | 0 <= i < |insp.sections| ensures twice.sections[i] == insp.sections[i] {
      var subs := insp.sections[i].subsections;
      var subs2 := twice.sections[i].subsections;
      forall k | 0 <= k < |subs| ensures subs2[k] == subs[k] {
        ToggleInTwice(subs[k].items, itemId);
      }
    }
  }

  /** An id found among no first-level subsection's items leaves the
      inspection unchanged, even when a section's direct item carries it. */
  lemma ToggleSubsectionItemAbsent(insp: Inspection, itemId: string)
    requires forall i, k :: 0 <= i < |insp.sections| && 0 <= k < |insp.sections[i].subsections| ==>
      NoItemWithId(insp.sections[i].subsections[k].items, itemId)
    ensures ToggleSubsectionItem(insp, itemId) == insp
  {
    var r := ToggleSubsectionItem(insp, itemId);
    forall i | 0 <= i < |insp.sections| ensures r.sections[i] == insp.sections[i] {
      var subs := insp.sections[i].subsections;
      forall k | 0 <= k < |subs| ensures r.sections[i].subsections[k] == subs[k] {
        ToggleInAbsent(subs[k].items, itemId);
      }
    }
  }

  // ---------------------------------------------------------------------------
  // Photo removal

  /** Removes the photo from every section with the given id. */
  function RemoveSectionPhoto(insp: Inspection, sectionId: string, photoId: string): (r: Inspection)
    ensures r.(sections := insp.sections) == insp
    ensures |r.sections| == |insp.sections|
    ensures forall i :: 0 <= i < |r.sections| ==>
      r.sections[i].(photos := insp.sections[i].photos) == insp.sections[i]
      && r.sections[i].photos == if insp.sections[i].id == sectionId
                                 then WithoutPhoto(insp.sections[i].photos, photoId)
                                 else insp.sections[i].photos
  {
    insp.(sections := seq(|insp.sections|, i requires 0 <= i < |insp.sections| =>
      if insp.sections[i].id == sectionId
      then insp.sections[i].(photos := WithoutPhoto(insp.sections[i].photos, photoId))
      else insp.sections[i]))
  }

  /** Removes the photo from every first-level subsection with the given id,
      in whichever section it sits. */
  function RemoveSubsectionPhoto(insp: Inspection, subsectionId: string, photoId: string): (r: Inspection)
    ensures r.(sections := insp.sections) == insp
    ensures |r.sections| == |insp.sections|
    ensures forall i :: 0 <= i < |r.sections| ==>
      r.sections[i].(subsections := insp.sections[i].subsections) == insp.sections[i]
      && |r.sections[i].subsections| == |insp.sections[i].subsections|
    ensures forall i, k :: 0 <= i < |r.sections| && 0 <= k < |r.sections[i].subsections| ==>
      var sub := insp.sections[i].subsections[k];
      r.sections[i].subsections[k].(photos := sub.photos) == sub
      && r.sections[i].subsections[k].photos == if sub.id == subsectionId then WithoutPhoto(sub.photos, photoId) else sub.photos
  {
    insp.(sections := seq(|insp.sections|, i requires 0 <= i < |insp.sections| =>
      var subs := insp.sections[i].subsections;
      insp.sections[i].(subsections := seq(|subs|, k requires 0 <= k < |subs| =>
        if subs[k].id == subsectionId then subs[k].(photos := WithoutPhoto(subs[k].photos, photoId)) else subs[k]))))
  }

  /** Removing a photo twice is removing it once. */
  lemma RemoveSectionPhotoIdempotent(insp: Inspection, sectionId: string, photoId: string)
    ensures RemoveSectionPhoto(RemoveSectionPhoto(insp, sectionId, photoId), sectionId, photoId)
         == RemoveSectionPhoto(insp, sectionId, photoId)
  {
    var once := RemoveSectionPhoto(insp, sectionId, photoId);
    var twice := RemoveSectionPhoto(once, sectionId, photoId);
    forall i | 0 <= i < |once.sections| ensures twice.sections[i] == once.sections[i] {
    }
  }

  // ---------------------------------------------------------------------------
  // Sections

  /** Appends an empty section with the fresh id; earlier sections stay. */
  function AddSection(insp: Inspection, newId: string): (r: Inspection)
    ensures r.(sections := insp.sections) == insp
    ensures |r.sections| == |insp.sections| + 1
    ensures r.sections[..|insp.sections|] == insp.sections
    ensures r.sections[|insp.sections|].id == newId
    ensures r.sections[|insp.sections|].title == NewSectionTitle
    ensures r.sections[|insp.sections|].items == []
    ensures r.sections[|insp.sections|].photos == []
    ensures r.sections[|insp.sections|].subsections == []
  {
    insp.(sections := insp.sections + [Section(newId, NewSectionTitle, [], [], [])])
  }

  /** Drops every section whose id matches, keeping the others in order. */
  function WithoutSection(sections: seq<Section>, sectionId: string): (r: seq<Section>)
    ensures NoSectionWithId(r, sectionId)
    ensures IsSubsequence(r, sections)
    ensures forall i :: 0 <= i < |sections| && sections[i].id != sectionId ==> sections[i] in r
    ensures NoSectionWithId(sections, sectionId) ==> r == sections
    ensures forall x: Section :: x.id != sectionId ==> multiset(r)[x] == multiset(sections)[x]
  {
    var r := Filter(sections, SectionNotId(sectionId));
    FilterSpec(sections, SectionNotId(sectionId));
    assert forall x: Section :: x.id != sectionId ==> multiset(r)[x] == multiset(sections)[x] by {
      FilterCounts(sections, SectionNotId(sectionId));
    }
    assert forall i :: 0 <= i < |r| ==> r[i] in r;
    r
  }

  /** Drops every section with the id; the others keep their order and
      nothing else in the inspection changes. */
  function RemoveSection(insp: Inspection, sectionId: string): (r: Inspection)
    ensures r.(sections := insp.sections) == insp
    ensures NoSectionWithId(r.sections, sectionId)
    ensures IsSubsequence(r.sections, insp.sections)
    ensures forall i :: 0 <= i < |insp.sections| && insp.sections[i].id != sectionId ==> insp.sections[i] in r.sections
    ensures NoSectionWithId(insp.sections, sectionId) ==> r == insp
    ensures forall x: Section :: x.id != sectionId ==> multiset(r.sections)[x] == multiset(insp.sections)[x]
  {
    insp.(sections := WithoutSection(insp.sections, sectionId))
  }

  /** With unique section ids, removing the section at `k` is deleting index `k`. */
  lemma RemoveSectionAt(insp: Inspection, sectionId: string, k: nat)
    requires k < |insp.sections| && insp.sections[k].id == sectionId
    requires forall i :: 0 <= i < |insp.sections| && i != k ==> insp.sections[i].id != sectionId
    ensures RemoveSection(insp, sectionId).sections == insp.sections[..k] + insp.sections[k + 1..]
  {
    FilterDropsOne(insp.sections, SectionNotId(sectionId), k);
  }

  /** Removing a section just added under a fresh id gives back the inspection. */
  lemma AddThenRemoveSection(insp: Inspection, newId: string)
    requires NoSectionWithId(insp.sections, newId)
    ensures RemoveSection(AddSection(insp, newId), newId) == insp
  {
    var added := AddSection(insp, newId).sections;
    assert added == insp.sections + [added[|insp.sections|]];
    FilterDropsAppended(insp.sections, added[|insp.sections|], SectionNotId(newId));
  }

  /** Renames every section with the id. */
  function UpdateSectionTitle(insp: Inspection, sectionId: string, newTitle: string): (r: Inspection)
    ensures r.(sections := insp.sections) == insp
    ensures |r.sections| == |insp.sections|
    ensures forall i :: 0 <= i < |r.sections| ==>
      r.sections[i].(title := insp.sections[i].title) == insp.sections[i]
      && r.sections[i].title == if insp.sections[i].id == sectionId then newTitle else insp.sections[i].title
  {
    insp.(sections := seq(|insp.sections|, i requires 0 <= i < |insp.sections| =>
      if insp.sections[i].id == sectionId then insp.sections[i].(title := newTitle) else insp.sections[i]))
  }

  /** Setting a title twice is setting it once. */
  lemma UpdateSectionTitleIdempotent(insp: Inspection, sectionId: string, newTitle: string)
    ensures UpdateSectionTitle(UpdateSectionTitle(insp, sectionId, newTitle), sectionId, newTitle)
         == UpdateSectionTitle(insp, sectionId, newTitle)
  {
    var once := UpdateSectionTitle(insp, sectionId, newTitle);
    var twice := UpdateSectionTitle(once, sectionId, newTitle);
    forall i | 0 <= i < |once.sections| ensures twice.sections[i] == once.sections[i] {
    }
  }

  // ---------------------------------------------------------------------------
  // Items of a section (matched by section id only)

  /** Appends a fresh unchecked item to every section with the id. */
  function AddItem(insp: Inspection, sectionId: string, newId: string): (r: Inspection)
    ensures r.(sections := insp.sections) == insp
    ensures |r.sections| == |insp.sections|
    ensures forall i :: 0 <= i < |r.sections| ==>
      r.sections[i].(items := insp.sections[i].items) == insp.sections[i]
      && r.sections[i].items == if insp.sections[i].id == sectionId
                                then insp.sections[i].items + [ChecklistItem(newId, NewItemText, false)]
                                else insp.sections[i].items
  {
    insp.(sections := seq(|insp.sections|, i requires 0 <= i < |insp.sections| =>
      if insp.sections[i].id == sectionId
      then insp.sections[i].(items := insp.sections[i].items + [ChecklistItem(newId, NewItemText, false)])
      else insp.sections[i]))
  }

  /** Renames the item among the direct items and the first-level subsection
      items of every section with the id. */
  function UpdateItem(insp: Inspection, sectionId: string, itemId: string, newText: string): (r: Inspection)
    ensures r.(sections := insp.sections) == insp
    ensures |r.sections| == |insp.sections|
    ensures forall i :: 0 <= i < |r.sections| ==>
      var s := insp.sections[i];
      r.sections[i].(items := s.items, subsections := s.subsections) == s
      && r.sections[i].items == (if s.id == sectionId then RenameIn(s.items, itemId, newText) else s.items)
      && r.sections[i].subsections == (if s.id == sectionId then RenameInSubsections(s.subsections, itemId, newText) else s.subsections)
  {
    insp.(sections := seq(|insp.sections|, i requires 0 <= i < |insp.sections| =>
      var s := insp.sections[i];
      if s.id == sectionId
      then s.(items := RenameIn(s.items, itemId, newText),
              subsections := RenameInSubsections(s.subsections, itemId, newText))
      else s))
  }

  /** Removes the item from the direct items and from every first-level
      subsection's items of every section with the id. */
  function RemoveItem(insp: Inspection, sectionId: string, itemId: string): (r: Inspection)
    ensures r.(sections := insp.sections) == insp
    ensures |r.sections| == |insp.sections|
    ensures forall i :: 0 <= i < |r.sections| ==>
      var s := insp.sections[i];
      r.sections[i].(items := s.items, subsections := s.subsections) == s
      && r.sections[i].items == (if s.id == sectionId then WithoutItem(s.items, itemId) else s.items)
      && r.sections[i].subsections == (if s.id == sectionId then WithoutItemInSubsections(s.subsections, itemId) else s.subsections)
  {
    insp.(sections := seq(|insp.sections|, i requires 0 <= i < |insp.sections| =>
      var s := insp.sections[i];
      if s.id == sectionId
      then s.(items := WithoutItem(s.items, itemId),
              subsections := WithoutItemInSubsections(s.subsections, itemId))
      else s))
  }

  /** After removal no item with the id is left directly in a matching section
      or in one of its first-level subsections. */
  lemma RemoveItemLeavesNoCopy(insp: Inspection, sectionId: string, itemId: string, i: nat)
    requires i < |insp.sections| && insp.sections[i].id == sectionId
    ensures var s := RemoveItem(insp, sectionId, itemId).sections[i];
      NoItemWithId(s.items, itemId)
      && forall k :: 0 <= k < |s.subsections| ==> NoItemWithId(s.subsections[k].items, itemId)
  {
  }

  /** An id carried by no direct item and no first-level subsection item of
      the sections with the target id leaves the inspection unchanged. */
  lemma RemoveItemAbsent(insp: Inspection, sectionId: string, itemId: string)
    requires forall i :: 0 <= i < |insp.sections| && insp.sections[i].id == sectionId ==>
      NoItemWithId(insp.sections[i].items, itemId)
      && forall k :: 0 <= k < |insp.sections[i].subsections| ==> NoItemWithId(insp.sections[i].subsections[k].items, itemId)
    ensures RemoveItem(insp, sectionId, itemId) == insp
  {
    var r := RemoveItem(insp, sectionId, itemId);
    forall i | 0 <= i < |insp.sections| ensures r.sections[i] == insp.sections[i] {
      var s := insp.sections[i];
      if s.id == sectionId {
        WithoutItemInSubsectionsAbsent(s.subsections, itemId);
      }
    }
  }

  /** Removing an item just added under a fresh id gives back the inspection. */
  lemma AddThenRemoveItem(insp: Inspection, sectionId: string, newId: string)
    requires forall i :: 0 <= i < |insp.sections| && insp.sections[i].id == sectionId ==>
      NoItemWithId(insp.sections[i].items, newId)
      && forall k :: 0 <= k < |insp.sections[i].subsections| ==> NoItemWithId(insp.sections[i].subsections[k].items, newId)
    ensures RemoveItem(AddItem(insp, sectionId, newId), sectionId, newId) == insp
  {
    var added := AddItem(insp, sectionId, newId);
    var r := RemoveItem(added, sectionId, newId);
    forall i | 0 <= i < |insp.sections| ensures r.sections[i] == insp.sections[i] {
      var s := insp.sections[i];
      if s.id == sectionId {
        FilterDropsAppended(s.items, ChecklistItem(newId, NewItemText, false), ItemNotId(newId));
        WithoutItemInSubsectionsAbsent(s.subsections, newId);
      }
    }
  }

  /** The subsection component passes a subsection id to the section-item
      handlers; when no section has that id, adding, renaming and removing
      items all leave the inspection unchanged. */
  lemma SubsectionItemEditsDropped(insp: Inspection, subsectionId: string, newId: string, itemId: string, newText: string)
    requires NoSectionWithId(insp.sections, subsectionId)
    ensures AddItem(insp, subsectionId, newId) == insp
    ensures UpdateItem(insp, subsectionId, itemId, newText) == insp
    ensures RemoveItem(insp, subsectionId, itemId) == insp
  {
    assert AddItem(insp, subsectionId, newId).sections == insp.sections;
    assert UpdateItem(insp, subsectionId, itemId, newText).sections == insp.sections;
    assert RemoveItem(insp, subsectionId, itemId).sections == insp.sections;
  }

  // ---------------------------------------------------------------------------
  // Subsections of a section

  /** Appends a fresh, empty subsection (without a nested list) to every
      section with the id. */
  function AddSubsection(insp: Inspection, sectionId: string, newId: string): (r: Inspection)
    ensures r.(sections := insp.sections) == insp
    ensures |r.sections| == |insp.sections|
    ensures forall i :: 0 <= i < |r.sections| ==>
      r.sections[i].(subsections := insp.sections[i].subsections) == insp.sections[i]
      && r.sections[i].subsections == if insp.sections[i].id == sectionId
                                      then insp.sections[i].subsections + [Subsection(newId, NewSubsectionTitle, [], [], None)]
                                      else insp.sections[i].subsections
  {
    insp.(sections := seq(|insp.sections|, i requires 0 <= i < |insp.sections| =>
      if insp.sections[i].id == sectionId
      then insp.sections[i].(subsections := insp.sections[i].subsections + [Subsection(newId, NewSubsectionTitle, [], [], None)])
      else insp.sections[i]))
  }

  /** Drops the subsection from every section with the id; sibling
      subsections keep their order. */
  function RemoveSubsection(insp: Inspection, sectionId: string, subsectionId: string): (r: Inspection)
    ensures r.(sections := insp.sections) == insp
    ensures |r.sections| == |insp.sections|
    ensures forall i :: 0 <= i < |r.sections| ==>
      r.sections[i].(subsections := insp.sections[i].subsections) == insp.sections[i]
      && r.sections[i].subsections == if insp.sections[i].id == sectionId
                                      then WithoutSubsection(insp.sections[i].subsections, subsectionId)
                                      else insp.sections[i].subsections
  {
    insp.(sections := seq(|insp.sections|, i requires 0 <= i < |insp.sections| =>
      if insp.sections[i].id == sectionId
      then insp.sections[i].(subsections := WithoutSubsection(insp.sections[i].subsections, subsectionId))
      else insp.sections[i]))
  }

  /** Removing a subsection just added under a fresh id gives back the inspection. */
  lemma AddThenRemoveSubsection(insp: Inspection, sectionId: string, newId: string)
    requires forall i :: 0 <= i < |insp.sections| && insp.sections[i].id == sectionId ==>
      NoSubsectionWithId(insp.sections[i].subsections, newId)
    ensures RemoveSubsection(AddSubsection(insp, sectionId, newId), sectionId, newId) == insp
  {
    var added := AddSubsection(insp, sectionId, newId);
    var r := RemoveSubsection(added, sectionId, newId);
    forall i | 0 <= i < |insp.sections| ensures r.sections[i] == insp.sections[i] {
      var s := insp.sections[i];
      if s.id == sectionId {
        var sub := Subsection(newId, NewSubsectionTitle, [], [], None);
        FilterDropsAppended(s.subsections, sub, SubsectionNotId(newId));
        assert WithoutSubsection(s.subsections + [sub], newId) == s.subsections;
      }
    }
  }

  /** Renames every subsection of the list with the id. */
  function RetitleIn(subs: seq<Subsection>, subsectionId: string, newTitle: string): (r: seq<Subsection>)
    ensures |r| == |subs|
    ensures forall k :: 0 <= k < |r| ==>
      r[k].(title := subs[k].title) == subs[k]
      && r[k].title == if subs[k].id == subsectionId then newTitle else subs[k].title
  {
    seq(|subs|, k requires 0 <= k < |subs| =>
      if subs[k].id == subsectionId then subs[k].(title := newTitle) else subs[k])
  }

  /** Renames the subsection in every section with the id. */
  function UpdateSubsectionTitle(insp: Inspection, sectionId: string, subsectionId: string, newTitle: string): (r: Inspection)
    ensures r.(sections := insp.sections) == insp
    ensures |r.sections| == |insp.sections|
    ensures forall i :: 0 <= i < |r.sections| ==>
      r.sections[i].(subsections := insp.sections[i].subsections) == insp.sections[i]
      && r.sections[i].subsections == if insp.sections[i].id == sectionId
                                      then RetitleIn(insp.sections[i].subsections, subsectionId, newTitle)
                                      else insp.sections[i].subsections
  {
    insp.(sections := seq(|insp.sections|, i requires 0 <= i < |insp.sections| =>
      if insp.sections[i].id == sectionId
      then insp.sections[i].(subsections := RetitleIn(insp.sections[i].subsections, subsectionId, newTitle))
      else insp.sections[i]))
  }

  // ---------------------------------------------------------------------------
  // Copying a gallery photo into a section or subsection

  /** The copy of a gallery photo: id suffixed by `-` and a caller-supplied
      nonce, same url, and a placeholder caption when the original has none. */
  function PhotoCopy(photo: PhotoItem, nonce: string): (r: PhotoItem)
    ensures r.url == photo.url
    ensures |r.id| > |photo.id| && r.id[..|photo.id|] == photo.id && r.id[|photo.id|..] == "-" + nonce
    ensures r.caption != ""
    ensures photo.caption != "" ==> r.caption == photo.caption
  {
    PhotoItem(photo.id + "-" + nonce, photo.url, if photo.caption == "" then UntitledCaption else photo.caption)
  }

  /** Appends a copy of the first gallery photo with the id to the first
      section with the id; a missing photo or section changes nothing. */
  function AddPhotoToSection(insp: Inspection, gallery: seq<PhotoItem>, photoId: string, sectionId: string, nonce: string): (r: Inspection)
    ensures r.(sections := insp.sections) == insp
    ensures |r.sections| == |insp.sections|
    ensures forall i :: 0 <= i < |r.sections| ==>
      r.sections[i].(photos := insp.sections[i].photos) == insp.sections[i]
      && insp.sections[i].photos <= r.sections[i].photos
    ensures forall i, j :: 0 <= i < j < |r.sections| ==> r.sections[i] == insp.sections[i] || r.sections[j] == insp.sections[j]
  {
    match IndexOf(gallery, PhotoIdIs(photoId))
    case None => insp
    case Some(p) =>
      match IndexOf(insp.sections, SectionIdIs(sectionId))
      case None => insp
      case Some(i) =>
        var sec := insp.sections[i].(photos := insp.sections[i].photos + [PhotoCopy(gallery[p], nonce)]);
        UpdateChangesOne(insp.sections, i, sec);
        insp.(sections := insp.sections[i := sec])
  }

  /** When the gallery holds the photo (first at `p`) and the inspection the
      section (first at `i`), exactly that section gains one photo: the copy
      with id `<photoId>-<nonce>`, the gallery url and the caption or its placeholder. */
  lemma AddPhotoToSectionAppendsCopy(insp: Inspection, gallery: seq<PhotoItem>, photoId: string, sectionId: string, nonce: string, p: nat, i: nat)
    requires p < |gallery| && gallery[p].id == photoId && forall q :: 0 <= q < p ==> gallery[q].id != photoId
    requires i < |insp.sections| && insp.sections[i].id == sectionId
    requires forall j :: 0 <= j < i ==> insp.sections[j].id != sectionId
    ensures var r := AddPhotoToSection(insp, gallery, photoId, sectionId, nonce);
      && |r.sections| == |insp.sections|
      && (forall j :: 0 <= j < |insp.sections| && j != i ==> r.sections[j] == insp.sections[j])
      && r.sections[i].photos == insp.sections[i].photos + [PhotoItem(photoId + "-" + nonce, gallery[p].url,
           if gallery[p].caption == "" then UntitledCaption else gallery[p].caption)]
  {
    IndexOfFirst(gallery, PhotoIdIs(photoId), p);
    IndexOfFirst(insp.sections, SectionIdIs(sectionId), i);
  }

  /** A photo missing from the gallery, or a section missing from the
      inspection, leaves the inspection unchanged. */
  lemma AddPhotoToSectionMissing(insp: Inspection, gallery: seq<PhotoItem>, photoId: string, sectionId: string, nonce: string)
    requires NoPhotoWithId(gallery, photoId) || NoSectionWithId(insp.sections, sectionId)
    ensures AddPhotoToSection(insp, gallery, photoId, sectionId, nonce) == insp
  {
  }

  /** A photo id found in no section with the target id leaves the inspection unchanged. */
  lemma RemoveSectionPhotoAbsent(insp: Inspection, sectionId: string, photoId: string)
    requires forall i :: 0 <= i < |insp.sections| && insp.sections[i].id == sectionId ==>
      NoPhotoWithId(insp.sections[i].photos, photoId)
    ensures RemoveSectionPhoto(insp, sectionId, photoId) == insp
  {
    assert RemoveSectionPhoto(insp, sectionId, photoId).sections == insp.sections;
  }

  /** Removing the copy (its id fresh in the sections with the target id)
      gives back the inspection from before the drop. */
  lemma AddThenRemoveSectionPhoto(insp: Inspection, gallery: seq<PhotoItem>, photoId: string, sectionId: string, nonce: string)
    requires forall i :: 0 <= i < |insp.sections| && insp.sections[i].id == sectionId ==>
      NoPhotoWithId(insp.sections[i].photos, photoId + "-" + nonce)
    ensures RemoveSectionPhoto(AddPhotoToSection(insp, gallery, photoId, sectionId, nonce), sectionId, photoId + "-" + nonce) == insp
  {
    var copyId := photoId + "-" + nonce;
    var added := AddPhotoToSection(insp, gallery, photoId, sectionId, nonce);
    var g := IndexOf(gallery, PhotoIdIs(photoId));
    var s := IndexOf(insp.sections, SectionIdIs(sectionId));
    if g.None? || s.None? {
      RemoveSectionPhotoAbsent(insp, sectionId, copyId);
    } else {
      var i := s.value;
      var sec := insp.sections[i];
      var copy := PhotoCopy(gallery[g.value], nonce);
      assert added.sections == insp.sections[i := sec.(photos := sec.photos + [copy])];
      var r := RemoveSectionPhoto(added, sectionId, copyId);
      assert r.sections[i] == sec by {
        FilterDropsAppended(sec.photos, copy, PhotoNotId(copyId));
        assert WithoutPhoto(sec.photos + [copy], copyId) == sec.photos;
      }
      assert forall j :: 0 <= j < |insp.sections| && j != i ==> r.sections[j] == insp.sections[j];
      assert r.sections == insp.sections;
    }
  }

  /** Appends a copy of the first gallery photo with the id to the first
      subsection with the id inside the first section with the id. */
  function AddPhotoToSubsection(insp: Inspection, gallery: seq<PhotoItem>, photoId: string, sectionId: string, subsectionId: string, nonce: string): (r: Inspection)
    ensures r.(sections := insp.sections) == insp
    ensures |r.sections| == |insp.sections|
    ensures forall i :: 0 <= i < |r.sections| ==>
      r.sections[i].(subsections := insp.sections[i].subsections) == insp.sections[i]
      && |r.sections[i].subsections| == |insp.sections[i].subsections|
    ensures forall i, k :: 0 <= i < |r.sections| && 0 <= k < |r.sections[i].subsections| ==>
      r.sections[i].subsections[k].(photos := insp.sections[i].subsections[k].photos) == insp.sections[i].subsections[k]
      && insp.sections[i].subsections[k].photos <= r.sections[i].subsections[k].photos
    ensures forall i, j :: 0 <= i < j < |r.sections| ==> r.sections[i] == insp.sections[i] || r.sections[j] == insp.sections[j]
    ensures forall i, k, l :: 0 <= i < |r.sections| && 0 <= k < l < |r.sections[i].subsections| ==>
      r.sections[i].subsections[k] == insp.sections[i].subsections[k] || r.sections[i].subsections[l] == insp.sections[i].subsections[l]
  {
    match IndexOf(gallery, PhotoIdIs(photoId))
    case None => insp
    case Some(p) =>
      match IndexOf(insp.sections, SectionIdIs(sectionId))
      case None => insp
      case Some(i) =>
        var subs := insp.sections[i].subsections;
        match IndexOf(subs, SubsectionIdIs(subsectionId))
        case None => insp
        case Some(k) =>
          var sub := subs[k].(photos := subs[k].photos + [PhotoCopy(gallery[p], nonce)]);
          var sec := insp.sections[i].(subsections := subs[k := sub]);
          UpdateChangesOne(subs, k, sub);
          UpdateChangesOne(insp.sections, i, sec);
          insp.(sections := insp.sections[i := sec])
  }

  /** With the photo first at `p`, the section first at `i` and the
      subsection first at `k` inside it, exactly that subsection gains the copy. */
  lemma AddPhotoToSubsectionAppendsCopy(insp: Inspection, gallery: seq<PhotoItem>, photoId: string, sectionId: string, subsectionId: string, nonce: string, p: nat, i: nat, k: nat)
    requires p < |gallery| && gallery[p].id == photoId && forall q :: 0 <= q < p ==> gallery[q].id != photoId
    requires i < |insp.sections| && insp.sections[i].id == sectionId
    requires forall j :: 0 <= j < i ==> insp.sections[j].id != sectionId
    requires k < |insp.sections[i].subsections| && insp.sections[i].subsections[k].id == subsectionId
    requires forall j :: 0 <= j < k ==> insp.sections[i].subsections[j].id != subsectionId
    ensures var r := AddPhotoToSubsection(insp, gallery, photoId, sectionId, subsectionId, nonce);
      var subs := insp.sections[i].subsections;
      && |r.sections| == |insp.sections|
      && (forall j :: 0 <= j < |insp.sections| && j != i ==> r.sections[j] == insp.sections[j])
      && |r.sections[i].subsections| == |subs|
      && (forall j :: 0 <= j < |subs| && j != k ==> r.sections[i].subsections[j] == subs[j])
      && r.sections[i].subsections[k].(photos := subs[k].photos) == subs[k]
      && r.sections[i].subsections[k].photos == subs[k].photos + [PhotoItem(photoId + "-" + nonce, gallery[p].url,
           if gallery[p].caption == "" then UntitledCaption else gallery[p].caption)]
  {
    IndexOfFirst(gallery, PhotoIdIs(photoId), p);
    IndexOfFirst(insp.sections, SectionIdIs(sectionId), i);
    IndexOfFirst(insp.sections[i].subsections, SubsectionIdIs(subsectionId), k);
  }

  /** A photo missing from the gallery, no section with the target id, or no
      subsection with the id in the first section with the target id leaves
      the inspection unchanged: later sections with the same id are not
      searched. */
  lemma AddPhotoToSubsectionMissing(insp: Inspection, gallery: seq<PhotoItem>, photoId: string, sectionId: string, subsectionId: string, nonce: string)
    requires || NoPhotoWithId(gallery, photoId)
             || NoSectionWithId(insp.sections, sectionId)
             || exists i :: 0 <= i < |insp.sections| && insp.sections[i].id == sectionId
                  && (forall j :: 0 <= j < i ==> insp.sections[j].id != sectionId)
                  && NoSubsectionWithId(insp.sections[i].subsections, subsectionId)
    ensures AddPhotoToSubsection(insp, gallery, photoId, sectionId, subsectionId, nonce) == insp
  {
    if !NoPhotoWithId(gallery, photoId) && !NoSectionWithId(insp.sections, sectionId) {
      var i :| 0 <= i < |insp.sections| && insp.sections[i].id == sectionId
               && (forall j :: 0 <= j < i ==> insp.sections[j].id != sectionId)
               && NoSubsectionWithId(insp.sections[i].subsections, subsectionId);
      IndexOfFirst(insp.sections, SectionIdIs(sectionId), i);
    }
  }

  /** Removing a subsection photo twice is removing it once. */
  lemma RemoveSubsectionPhotoIdempotent(insp: Inspection, subsectionId: string, photoId: string)
    ensures RemoveSubsectionPhoto(RemoveSubsectionPhoto(insp, subsectionId, photoId), subsectionId, photoId)
         == RemoveSubsectionPhoto(insp, subsectionId, photoId)
  {
    var once := RemoveSubsectionPhoto(insp, subsectionId, photoId);
    var twice := RemoveSubsectionPhoto(once, subsectionId, photoId);
    forall i | 0 <= i < |once.sections| ensures twice.sections[i] == once.sections[i] {
      var subs := once.sections[i].subsections;
      forall k | 0 <= k < |subs| ensures twice.sections[i].subsections[k] == subs[k] {
      }
    }
  }

  /** A photo id carried by no photo of a first-level subsection with the
      target id leaves the inspection unchanged. */
  lemma RemoveSubsectionPhotoAbsent(insp: Inspection, subsectionId: string, photoId: string)
    requires forall i, k ::
      0 <= i < |insp.sections| && 0 <= k < |insp.sections[i].subsections| && insp.sections[i].subsections[k].id == subsectionId
      ==> NoPhotoWithId(insp.sections[i].subsections[k].photos, photoId)
    ensures RemoveSubsectionPhoto(insp, subsectionId, photoId) == insp
  {
    var r := RemoveSubsectionPhoto(insp, subsectionId, photoId);
    forall i | 0 <= i < |insp.sections| ensures r.sections[i] == insp.sections[i] {
      var subs := insp.sections[i].subsections;
      forall k | 0 <= k < |subs| ensures r.sections[i].subsections[k] == subs[k] {
      }
    }
  }

  /** Writing the same text twice is writing it once. */
  lemma UpdateItemIdempotent(insp: Inspection, sectionId: string, itemId: string, newText: string)
    ensures UpdateItem(UpdateItem(insp, sectionId, itemId, newText), sectionId, itemId, newText)
         == UpdateItem(insp, sectionId, itemId, newText)
  {
    var once := UpdateItem(insp, sectionId, itemId, newText);
    var twice := UpdateItem(once, sectionId, itemId, newText);
    forall i | 0 <= i < |once.sections| ensures twice.sections[i] == once.sections[i] {
      var s := once.sections[i];
      if s.id == sectionId {
        assert twice.sections[i].items == s.items;
        forall k | 0 <= k < |s.subsections| ensures twice.sections[i].subsections[k] == s.subsections[k] {
          assert twice.sections[i].subsections[k].items == s.subsections[k].items;
        }
      }
    }
  }

  /** An id carried by no direct item and no first-level subsection item of
      the sections with the target id leaves the inspection unchanged. */
  lemma UpdateItemAbsent(insp: Inspection, sectionId: string, itemId: string, newText: string)
    requires forall i :: 0 <= i < |insp.sections| && insp.sections[i].id == sectionId ==>
      NoItemWithId(insp.sections[i].items, itemId)
      && forall k :: 0 <= k < |insp.sections[i].subsections| ==> NoItemWithId(insp.sections[i].subsections[k].items, itemId)
    ensures UpdateItem(insp, sectionId, itemId, newText) == insp
  {
    var r := UpdateItem(insp, sectionId, itemId, newText);
    forall i | 0 <= i < |insp.sections| ensures r.sections[i] == insp.sections[i] {
      var s := insp.sections[i];
      if s.id == sectionId {
        RenameInAbsent(s.items, itemId, newText);
        forall k | 0 <= k < |s.subsections| ensures r.sections[i].subsections[k] == s.subsections[k] {
          RenameInAbsent(s.subsections[k].items, itemId, newText);
        }
      }
    }
  }

  /** Writing the same subsection title twice is writing it once. */
  lemma UpdateSubsectionTitleIdempotent(insp: Inspection, sectionId: string, subsectionId: string, newTitle: string)
    ensures UpdateSubsectionTitle(UpdateSubsectionTitle(insp, sectionId, subsectionId, newTitle), sectionId, subsectionId, newTitle)
         == UpdateSubsectionTitle(insp, sectionId, subsectionId, newTitle)
  {
    var once := UpdateSubsectionTitle(insp, sectionId, subsectionId, newTitle);
    var twice := UpdateSubsectionTitle(once, sectionId, subsectionId, newTitle);
    forall i | 0 <= i < |once.sections| ensures twice.sections[i] == once.sections[i] {
      var subs := once.sections[i].subsections;
      forall k | 0 <= k < |subs| ensures twice.sections[i].subsections[k] == subs[k] {
      }
    }
  }
}
