/** The drag-end dispatch: what a finished drag does to the inspection,
    decided from the drag's type, its source and destination drop areas and
    the id of the dragged thing. */
module DragDrop {
  import opened Types
  import opened Lists
  import opened DroppableIds
  import Mutations

  /** A drop area and a position in it. */
  datatype Location = Location(droppableId: string, index: nat)

  /** The drag library's report of a finished drag; no destination means the
      thing was dropped outside every drop area. */
  datatype DropResult = DropResult(dragType: string, source: Location, destination: Option<Location>, draggableId: string)

  /** What the handler decides to do; indices are positions in the current
      inspection, `from` and `to` the drag's source and destination indices. */
  datatype Action =
    | Ignore
    | CopyToSection(photoId: string, sectionId: string)
    | CopyToSubsection(photoId: string, sectionId: string, subsectionId: string)
    | MoveSection(from: nat, to: nat)
    | MoveSectionItem(section: nat, from: nat, to: nat)
    | MoveSectionPhoto(section: nat, from: nat, to: nat)
    | MoveSubsectionItem(section: nat, subsection: nat, from: nat, to: nat)
    | MoveSubsectionPhoto(section: nat, subsection: nat, from: nat, to: nat)

  /** The positions an action names exist in the inspection. */
  predicate Targets(insp: Inspection, a: Action) {
    match a
    case MoveSectionItem(i, _, _) => i < |insp.sections|
    case MoveSectionPhoto(i, _, _) => i < |insp.sections|
    case MoveSubsectionItem(i, k, _, _) => i < |insp.sections| && k < |insp.sections[i].subsections|
    case MoveSubsectionPhoto(i, k, _, _) => i < |insp.sections| && k < |insp.sections[i].subsections|
    case _ => true
  }

  /** The dragged thing is in its list: the drag library only reports source
      indices of things it rendered. */
  predicate SourceFits(insp: Inspection, a: Action) {
    Targets(insp, a) &&
    match a
    case MoveSection(f, _) => f < |insp.sections|
    case MoveSectionItem(i, f, _) => f < |insp.sections[i].items|
    case MoveSectionPhoto(i, f, _) => f < |insp.sections[i].photos|
    case MoveSubsectionItem(i, k, f, _) => f < |insp.sections[i].subsections[k].items|
    case MoveSubsectionPhoto(i, k, f, _) => f < |insp.sections[i].subsections[k].photos|
    case _ => true
  }

  /** A gallery photo dropped somewhere: the destination's first piece names
      a section or a subsection target. */
  function ClassifyGalleryDrop(photoId: string, dest: Location): (a: Action)
    ensures a.Ignore? || a.CopyToSection? || a.CopyToSubsection?
    ensures !a.Ignore? ==> a.photoId == photoId
  {
    match DecodePhotoArea(dest.droppableId)
    case SectionArea(Some(sectionId)) => CopyToSection(photoId, sectionId)
    case SubsectionArea(subsectionId, parentId) => CopyToSubsection(photoId, parentId, subsectionId)
    case _ => Ignore
  }

  /** An `item` drag: both areas read as `<sectionId>-<kind>`; only a drag
      inside one area kind of one existing section moves anything. */
  function ClassifyItemDrop(insp: Inspection, source: Location, dest: Location): (a: Action)
    ensures a.Ignore? || a.MoveSectionItem? || a.MoveSectionPhoto?
    ensures !a.Ignore? ==> Targets(insp, a) && a.from == source.index && a.to == dest.index
    ensures !a.Ignore? ==> insp.sections[a.section].id == Split(source.droppableId)[0]
    ensures !a.Ignore? ==> forall j :: 0 <= j < a.section ==> insp.sections[j].id != Split(source.droppableId)[0]
    ensures !a.Ignore? ==> Split(dest.droppableId)[0] == Split(source.droppableId)[0]
                           && Part(Split(dest.droppableId), 1) == Part(Split(source.droppableId), 1)
    ensures a.MoveSectionItem? ==> Part(Split(source.droppableId), 1) == Some("items")
    ensures a.MoveSectionPhoto? ==> Part(Split(source.droppableId), 1) == Some("photos")
    ensures var s, d := Split(source.droppableId), Split(dest.droppableId);
      (s[0] == d[0] && Part(s, 1) == Part(d, 1) && Part(s, 1) in {Some("items"), Some("photos")}
       && !NoSectionWithId(insp.sections, s[0])) ==> !a.Ignore?
  {
    var s := Split(source.droppableId);
    var d := Split(dest.droppableId);
    if s[0] == d[0] && Part(s, 1) == Part(d, 1) then
      match IndexOf(insp.sections, SectionIdIs(s[0]))
      case None => Ignore
      case Some(i) =>
        if Part(s, 1) == Some("items") then MoveSectionItem(i, source.index, dest.index)
        else if Part(s, 1) == Some("photos") then MoveSectionPhoto(i, source.index, dest.index)
        else Ignore
    else Ignore
  }

  /** A `subsection-item` drag: both areas read as
      `<sectionId>-<subsectionId>-<kind>`; only a drag inside one area kind of
      one existing subsection moves anything. */
  function ClassifySubsectionItemDrop(insp: Inspection, source: Location, dest: Location): (a: Action)
    ensures a.Ignore? || a.MoveSubsectionItem? || a.MoveSubsectionPhoto?
    ensures !a.Ignore? ==> Targets(insp, a) && a.from == source.index && a.to == dest.index
    ensures !a.Ignore? ==> insp.sections[a.section].id == Split(source.droppableId)[0]
    ensures !a.Ignore? ==> forall j :: 0 <= j < a.section ==> insp.sections[j].id != Split(source.droppableId)[0]
    ensures !a.Ignore? ==> Split(dest.droppableId)[0] == Split(source.droppableId)[0]
                           && Part(Split(dest.droppableId), 1) == Part(Split(source.droppableId), 1)
                           && Part(Split(dest.droppableId), 2) == Part(Split(source.droppableId), 2)
    ensures !a.Ignore? ==> Part(Split(source.droppableId), 1).Some?
                           && insp.sections[a.section].subsections[a.subsection].id == Part(Split(source.droppableId), 1).value
                           && forall j :: 0 <= j < a.subsection ==>
                                insp.sections[a.section].subsections[j].id != Part(Split(source.droppableId), 1).value
    ensures a.MoveSubsectionItem? ==> Part(Split(source.droppableId), 2) == Some("items")
    ensures a.MoveSubsectionPhoto? ==> Part(Split(source.droppableId), 2) == Some("photos")
  {
    var s := Split(source.droppableId);
    var d := Split(dest.droppableId);
    if s[0] == d[0] && Part(s, 1) == Part(d, 1) && Part(s, 2) == Part(d, 2) then
      match IndexOf(insp.sections, SectionIdIs(s[0]))
      case None => Ignore
      case Some(i) =>
        match Part(s, 1)
        case None => Ignore
        case Some(subsectionId) =>
          match IndexOf(insp.sections[i].subsections, SubsectionIdIs(subsectionId))
          case None => Ignore
          case Some(k) =>
            if Part(s, 2) == Some("items") then MoveSubsectionItem(i, k, source.index, dest.index)
            else if Part(s, 2) == Some("photos") then MoveSubsectionPhoto(i, k, source.index, dest.index)
            else Ignore
    else Ignore
  }

  /** The converse of the subsection classifier: a drag inside one area kind
      of one subsection, found first inside the first section with the id,
      moves exactly that subsection's items or photos. */
  lemma SubsectionItemDropMoves(insp: Inspection, source: Location, dest: Location, i: nat, k: nat)
    requires var s, d := Split(source.droppableId), Split(dest.droppableId);
      && s[0] == d[0] && Part(s, 1) == Part(d, 1) && Part(s, 2) == Part(d, 2)
      && Part(s, 1).Some? && Part(s, 2) in {Some("items"), Some("photos")}
      && i < |insp.sections| && insp.sections[i].id == s[0]
      && (forall j :: 0 <= j < i ==> insp.sections[j].id != s[0])
      && k < |insp.sections[i].subsections| && insp.sections[i].subsections[k].id == Part(s, 1).value
      && (forall j :: 0 <= j < k ==> insp.sections[i].subsections[j].id != Part(s, 1).value)
    ensures ClassifySubsectionItemDrop(insp, source, dest)
            == if Part(Split(source.droppableId), 2) == Some("items") then MoveSubsectionItem(i, k, source.index, dest.index)
               else MoveSubsectionPhoto(i, k, source.index, dest.index)
  {
    var s := Split(source.droppableId);
    IndexOfFirst(insp.sections, SectionIdIs(s[0]), i);
    IndexOfFirst(insp.sections[i].subsections, SubsectionIdIs(Part(s, 1).value), k);
  }

  /** The handler's decision: nothing without a destination or for a drop
      where the drag started; otherwise by the drag's type. */
  function Classify(insp: Inspection, ev: DropResult): (a: Action)
    ensures Targets(insp, a)
    ensures ev.destination.None? ==> a.Ignore?
    ensures ev.destination == Some(ev.source) ==> a.Ignore?
    ensures !a.Ignore? ==> ev.dragType in {"photo", "section", "item", "subsection-item"}
    ensures ev.dragType == "photo" && ev.source.droppableId != GalleryArea ==> a.Ignore?
  {
    match ev.destination
    case None => Ignore
    case Some(dest) =>
      if dest.droppableId == ev.source.droppableId && dest.index == ev.source.index then Ignore
      else if ev.dragType == "photo" then
        if ev.source.droppableId == GalleryArea then ClassifyGalleryDrop(ev.draggableId, dest) else Ignore
      else if ev.dragType == "section" then MoveSection(ev.source.index, dest.index)
      else if ev.dragType == "item" then ClassifyItemDrop(insp, ev.source, dest)
      else if ev.dragType == "subsection-item" then ClassifySubsectionItemDrop(insp, ev.source, dest)
      else Ignore
  }

  /** The new inspection an action produces; `nonce` is the timestamp that
      makes a copied photo's id. */
  function Apply(insp: Inspection, gallery: seq<PhotoItem>, a: Action, nonce: string): (r: Inspection)
    requires SourceFits(insp, a)
    ensures r.(sections := insp.sections) == insp
    ensures |r.sections| == |insp.sections|
    ensures a.Ignore? ==> r == insp
  {
    match a
    case Ignore => insp
    case CopyToSection(photoId, sectionId) =>
      Mutations.AddPhotoToSection(insp, gallery, photoId, sectionId, nonce)
    case CopyToSubsection(photoId, sectionId, subsectionId) =>
      Mutations.AddPhotoToSubsection(insp, gallery, photoId, sectionId, subsectionId, nonce)
    case MoveSection(f, t) =>
      insp.(sections := Moved(insp.sections, f, t))
    case MoveSectionItem(i, f, t) =>
      var sec := insp.sections[i];
      insp.(sections := insp.sections[i := sec.(items := Moved(sec.items, f, t))])
    case MoveSectionPhoto(i, f, t) =>
      var sec := insp.sections[i];
      insp.(sections := insp.sections[i := sec.(photos := Moved(sec.photos, f, t))])
    case MoveSubsectionItem(i, k, f, t) =>
      var sec := insp.sections[i];
      var sub := sec.subsections[k];
      insp.(sections := insp.sections[i := sec.(subsections := sec.subsections[k := sub.(items := Moved(sub.items, f, t))])])
    case MoveSubsectionPhoto(i, k, f, t) =>
      var sec := insp.sections[i];
      var sub := sec.subsections[k];
      insp.(sections := insp.sections[i := sec.(subsections := sec.subsections[k := sub.(photos := Moved(sub.photos, f, t))])])
  }

  /** What the drag-end handler leaves as the inspection. */
  function DragEndOutcome(insp: Inspection, gallery: seq<PhotoItem>, ev: DropResult, nonce: string): (r: Inspection)
    requires SourceFits(insp, Classify(insp, ev))
    ensures r.(sections := insp.sections) == insp
    ensures |r.sections| == |insp.sections|
    ensures ev.destination.None? || ev.destination == Some(ev.source) ==> r == insp
    ensures ev.dragType !in {"photo", "section", "item", "subsection-item"} ==> r == insp
    ensures ev.dragType == "photo" && ev.source.droppableId != GalleryArea ==> r == insp
  {
    Apply(insp, gallery, Classify(insp, ev), nonce)
  }

  // Properties of the dispatch.

  /** A drop outside every area, or back where the drag started, changes nothing. */
  lemma DropNowhereChangesNothing(insp: Inspection, gallery: seq<PhotoItem>, ev: DropResult, nonce: string)
    requires ev.destination.None? || ev.destination == Some(ev.source)
    ensures SourceFits(insp, Classify(insp, ev))
    ensures DragEndOutcome(insp, gallery, ev, nonce) == insp
  {
  }

  /** Every move keeps the moved list's contents: the sections as a whole,
      and inside them the list the action names, are rearranged, never
      gained or lost; the moved thing lands at the clamped destination. */
  lemma SectionDropReorders(insp: Inspection, gallery: seq<PhotoItem>, ev: DropResult, nonce: string)
    requires ev.dragType == "section" && ev.destination.Some?
    requires ev.destination != Some(ev.source)
    requires ev.source.index < |insp.sections|
    ensures SourceFits(insp, Classify(insp, ev))
    ensures var r := DragEndOutcome(insp, gallery, ev, nonce);
      && r.(sections := insp.sections) == insp
      && multiset(r.sections) == multiset(insp.sections)
      && r.sections[Dest(|insp.sections|, ev.destination.value.index)] == insp.sections[ev.source.index]
  {
    MovedIsPermutation(insp.sections, ev.source.index, ev.destination.value.index);
  }

  /** An item move inside one section permutes that section's items (or its
      photos) and leaves every other section as it was. */
  lemma ItemMovePermutes(insp: Inspection, gallery: seq<PhotoItem>, a: Action, nonce: string)
    requires a.MoveSectionItem? || a.MoveSectionPhoto?
    requires SourceFits(insp, a)
    ensures var r := Apply(insp, gallery, a, nonce);
      && (forall j :: 0 <= j < |insp.sections| && j != a.section ==> r.sections[j] == insp.sections[j])
      && (a.MoveSectionItem? ==>
            r.sections[a.section].(items := insp.sections[a.section].items) == insp.sections[a.section]
            && multiset(r.sections[a.section].items) == multiset(insp.sections[a.section].items))
      && (a.MoveSectionPhoto? ==>
            r.sections[a.section].(photos := insp.sections[a.section].photos) == insp.sections[a.section]
            && multiset(r.sections[a.section].photos) == multiset(insp.sections[a.section].photos))
  {
    var sec := insp.sections[a.section];
    if a.MoveSectionItem? {
      MovedIsPermutation(sec.items, a.from, a.to);
    } else {
      MovedIsPermutation(sec.photos, a.from, a.to);
    }
  }

  /** A move inside one subsection permutes that subsection's items (or its
      photos) and leaves every other subsection and section as it was. */
  lemma SubsectionMovePermutes(insp: Inspection, gallery: seq<PhotoItem>, a: Action, nonce: string)
    requires a.MoveSubsectionItem? || a.MoveSubsectionPhoto?
    requires SourceFits(insp, a)
    ensures var r := Apply(insp, gallery, a, nonce);
      var subs := insp.sections[a.section].subsections;
      && (forall j :: 0 <= j < |insp.sections| && j != a.section ==> r.sections[j] == insp.sections[j])
      && r.sections[a.section].(subsections := subs) == insp.sections[a.section]
      && |r.sections[a.section].subsections| == |subs|
      && (forall j :: 0 <= j < |subs| && j != a.subsection ==> r.sections[a.section].subsections[j] == subs[j])
      && (a.MoveSubsectionItem? ==>
            r.sections[a.section].subsections[a.subsection].(items := subs[a.subsection].items) == subs[a.subsection]
            && multiset(r.sections[a.section].subsections[a.subsection].items) == multiset(subs[a.subsection].items))
      && (a.MoveSubsectionPhoto? ==>
            r.sections[a.section].subsections[a.subsection].(photos := subs[a.subsection].photos) == subs[a.subsection]
            && multiset(r.sections[a.section].subsections[a.subsection].photos) == multiset(subs[a.subsection].photos))
  {
    var sec := insp.sections[a.section];
    var sub := sec.subsections[a.subsection];
    var r := Apply(insp, gallery, a, nonce);
    if a.MoveSubsectionItem? {
      MovedIsPermutation(sub.items, a.from, a.to);
      assert r.sections[a.section] == sec.(subsections := sec.subsections[a.subsection := sub.(items := Moved(sub.items, a.from, a.to))]);
    } else {
      MovedIsPermutation(sub.photos, a.from, a.to);
      assert r.sections[a.section] == sec.(subsections := sec.subsections[a.subsection := sub.(photos := Moved(sub.photos, a.from, a.to))]);
    }
  }

  /** A gallery photo dropped on the photo area of a section with a
      dash-free id is the add-photo-to-section handler for that section. */
  lemma GalleryDropOnSection(insp: Inspection, gallery: seq<PhotoItem>, ev: DropResult, nonce: string, sectionId: string)
    requires ev.dragType == "photo" && ev.source.droppableId == GalleryArea
    requires '-' !in sectionId
    requires ev.destination.Some? && ev.destination.value.droppableId == SectionPhotoArea(sectionId)
    ensures SourceFits(insp, Classify(insp, ev))
    ensures DragEndOutcome(insp, gallery, ev, nonce) == Mutations.AddPhotoToSection(insp, gallery, ev.draggableId, sectionId, nonce)
  {
    DecodeSectionPhotoArea(sectionId);
    assert ev.destination.value.droppableId != GalleryArea;
  }

  /** A gallery photo dropped on the photo area of a subsection, both ids
      dash-free and the section id non-empty, is the add-photo-to-subsection
      handler for that subsection of that section. */
  lemma GalleryDropOnSubsection(insp: Inspection, gallery: seq<PhotoItem>, ev: DropResult, nonce: string, subsectionId: string, sectionId: string)
    requires ev.dragType == "photo" && ev.source.droppableId == GalleryArea
    requires '-' !in subsectionId && '-' !in sectionId && sectionId != ""
    requires ev.destination.Some? && ev.destination.value.droppableId == SubsectionPhotoArea(subsectionId, sectionId)
    ensures SourceFits(insp, Classify(insp, ev))
    ensures DragEndOutcome(insp, gallery, ev, nonce)
         == Mutations.AddPhotoToSubsection(insp, gallery, ev.draggableId, sectionId, subsectionId, nonce)
  {
    DecodeSubsectionPhotoArea(subsectionId, sectionId);
    assert ev.destination.value.droppableId[..11] == "subsection-";
  }

  /** Section ids that contain a dash (as generated ids do) are never found
      from a drop area: every gallery drop then leaves the inspection as it was. */
  lemma DashedIdsDropNoPhoto(insp: Inspection, gallery: seq<PhotoItem>, ev: DropResult, nonce: string)
    requires forall i :: 0 <= i < |insp.sections| ==> '-' in insp.sections[i].id
    requires ev.dragType == "photo"
    ensures SourceFits(insp, Classify(insp, ev))
    ensures DragEndOutcome(insp, gallery, ev, nonce) == insp
  {
    var a := Classify(insp, ev);
    if a.CopyToSection? {
      DecodedIdsAreDashFree(ev.destination.value.droppableId);
      Mutations.AddPhotoToSectionMissing(insp, gallery, a.photoId, a.sectionId, nonce);
    } else if a.CopyToSubsection? {
      DecodedIdsAreDashFree(ev.destination.value.droppableId);
      Mutations.AddPhotoToSubsectionMissing(insp, gallery, a.photoId, a.sectionId, a.subsectionId, nonce);
    }
  }

  /** Item drags move nothing when the source area's id is one dash-free
      piece (the bare section or subsection id the item lists use) or when
      every section id contains a dash. */
  lemma ItemDragsAsWiredAreIgnored(insp: Inspection, ev: DropResult)
    requires ev.dragType == "item" || ev.dragType == "subsection-item"
    requires '-' !in ev.source.droppableId || forall i :: 0 <= i < |insp.sections| ==> '-' in insp.sections[i].id
    ensures Classify(insp, ev) == Ignore
  {
    if '-' !in ev.source.droppableId {
      BareIdHasNoKind(ev.source.droppableId);
    }
  }
}
