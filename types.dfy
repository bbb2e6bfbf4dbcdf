/** The inspection tree: checklist items and photos grouped into sections and
    (possibly nested) subsections, under one root inspection. */
module Types {

  datatype Option<+T> = None | Some(value: T)

  /** A yes/no task of the checklist. */
  datatype ChecklistItem = ChecklistItem(id: string, text: string, checked: bool)

  /** A reference to an externally hosted image plus its caption. */
  datatype PhotoItem = PhotoItem(id: string, url: string, caption: string)

  /** A subsection; its `subsections` field is optional in the source, and a
      subsection created by the editor has none (`None`), which is not the
      same value as an empty list. */
  datatype Subsection = Subsection(
    id: string,
    title: string,
    items: seq<ChecklistItem>,
    photos: seq<PhotoItem>,
    subsections: Option<seq<Subsection>>)

  /** A top-level section; unlike a subsection, its subsection list is always present. */
  datatype Section = Section(
    id: string,
    title: string,
    items: seq<ChecklistItem>,
    subsections: seq<Subsection>,
    photos: seq<PhotoItem>)

  /** The root aggregate; `lastUpdate` is an optional timestamp. */
  datatype Inspection = Inspection(
    id: string,
    title: string,
    date: string,
    property: string,
    sections: seq<Section>,
    completed: bool,
    lastUpdate: Option<int>)

  // Id tests, built once so that every use of one of them is the same term.

  function ItemNotId(id: string): ChecklistItem -> bool { (it: ChecklistItem) => it.id != id }
  function PhotoNotId(id: string): PhotoItem -> bool { (p: PhotoItem) => p.id != id }
  function PhotoIdIs(id: string): PhotoItem -> bool { (p: PhotoItem) => p.id == id }
  function SectionNotId(id: string): Section -> bool { (s: Section) => s.id != id }
  function SectionIdIs(id: string): Section -> bool { (s: Section) => s.id == id }
  function SubsectionNotId(id: string): Subsection -> bool { (s: Subsection) => s.id != id }
  function SubsectionIdIs(id: string): Subsection -> bool { (s: Subsection) => s.id == id }

  /** No item of the list carries the id. */
  predicate NoItemWithId(items: seq<ChecklistItem>, id: string) {
    forall j :: 0 <= j < |items| ==> items[j].id != id
  }

  /** No section of the list carries the id. */
  predicate NoSectionWithId(sections: seq<Section>, id: string) {
    forall i :: 0 <= i < |sections| ==> sections[i].id != id
  }

  /** No subsection of the list carries the id. */
  predicate NoSubsectionWithId(subsections: seq<Subsection>, id: string) {
    forall k :: 0 <= k < |subsections| ==> subsections[k].id != id
  }

  /** No photo of the list carries the id. */
  predicate NoPhotoWithId(photos: seq<PhotoItem>, id: string) {
    forall j :: 0 <= j < |photos| ==> photos[j].id != id
  }
}
