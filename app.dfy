/** The application's state and the handlers that replace it: the inspection
    being edited, the selected section, the sidebar's visibility and the
    gallery of photos that can be dropped into the inspection. */
module AppState {
  import opened Types
  import opened Lists
  import opened DroppableIds
  import opened DragDrop
  import Mutations

  class App {
    var inspection: Inspection
    /** The selected section's id; the empty string selects nothing. */
    var selectedSectionId: string
    var sidebarOpen: bool
    var galleryPhotos: seq<PhotoItem>

    /** The start state: the given inspection, nothing selected, the sidebar
        closed and an empty gallery until photos are loaded. */
    constructor (initial: Inspection)
      ensures inspection == initial
      ensures selectedSectionId == "" && !sidebarOpen && galleryPhotos == []
    {
      inspection := initial;
      selectedSectionId := "";
      sidebarOpen := false;
      galleryPhotos := [];
    }

    /** The section shown in the main area: the first section carrying the
        selected id, or none when nothing is selected or no section carries it. */
    function SelectedSection(): (r: Option<Section>)
      reads this
      ensures r.Some? ==> selectedSectionId != "" && r.value in inspection.sections && r.value.id == selectedSectionId
      ensures r.Some? ==> exists i :: 0 <= i < |inspection.sections| && r.value == inspection.sections[i]
                            && forall j :: 0 <= j < i ==> inspection.sections[j].id != selectedSectionId
      ensures r.None? ==> selectedSectionId == "" || NoSectionWithId(inspection.sections, selectedSectionId)
    {
      if selectedSectionId == "" then None
      else
        match IndexOf(inspection.sections, SectionIdIs(selectedSectionId))
        case None => None
        case Some(i) => Some(inspection.sections[i])
    }

    /** The gallery photos once they have been loaded. */
    method LoadGallery(photos: seq<PhotoItem>)
      modifies this
      ensures galleryPhotos == photos
      ensures inspection == old(inspection) && selectedSectionId == old(selectedSectionId) && sidebarOpen == old(sidebarOpen)
    {
      galleryPhotos := photos;
    }

    /** Opens or closes the sidebar. */
    method ToggleSidebar()
      modifies this
      ensures sidebarOpen == !old(sidebarOpen)
      ensures inspection == old(inspection) && selectedSectionId == old(selectedSectionId) && galleryPhotos == old(galleryPhotos)
    {
      sidebarOpen := !sidebarOpen;
    }

    /** Selects a section and closes the sidebar. */
    method SelectSection(sectionId: string)
      modifies this
      ensures selectedSectionId == sectionId && !sidebarOpen
      ensures inspection == old(inspection) && galleryPhotos == old(galleryPhotos)
    {
      selectedSectionId := sectionId;
      sidebarOpen := false;
    }

    /** Appends a new empty section with the given fresh id and selects it. */
    method AddSection(newId: string)
      modifies this
      ensures inspection == Mutations.AddSection(old(inspection), newId)
      ensures selectedSectionId == newId
      ensures sidebarOpen == old(sidebarOpen) && galleryPhotos == old(galleryPhotos)
      ensures newId != "" && NoSectionWithId(old(inspection).sections, newId) ==>
        SelectedSection() == Some(inspection.sections[|inspection.sections| - 1])
    {
      inspection := Mutations.AddSection(inspection, newId);
      selectedSectionId := newId;
      if newId != "" && NoSectionWithId(old(inspection).sections, newId) {
        IndexOfFirst(inspection.sections, SectionIdIs(newId), |inspection.sections| - 1);
      }
    }

    /** Removes every section with the id, and clears the selection when it
        was the removed id: the selection never names a removed section. */
    method RemoveSection(sectionId: string)
      modifies this
      ensures inspection == Mutations.RemoveSection(old(inspection), sectionId)
      ensures selectedSectionId == if old(selectedSectionId) == sectionId then "" else old(selectedSectionId)
      ensures sidebarOpen == old(sidebarOpen) && galleryPhotos == old(galleryPhotos)
      ensures SelectedSection().Some? ==> SelectedSection().value.id != sectionId
    {
      inspection := Mutations.RemoveSection(inspection, sectionId);
      if selectedSectionId == sectionId {
        selectedSectionId := "";
      }
    }

    /** Finds the gallery photo and the section, copies the photo and
        assigns the section with the copy appended back at its index. */
    method AddPhotoToSection(photoId: string, sectionId: string, nonce: string)
      modifies this
      ensures inspection == Mutations.AddPhotoToSection(old(inspection), galleryPhotos, photoId, sectionId, nonce)
      ensures selectedSectionId == old(selectedSectionId) && sidebarOpen == old(sidebarOpen) && galleryPhotos == old(galleryPhotos)
    {
      var p := IndexOf(galleryPhotos, PhotoIdIs(photoId));
      if p.None? {
        return;
      }
      var found := IndexOf(inspection.sections, SectionIdIs(sectionId));
      if found.None? {
        return;
      }
      var i := found.value;
      var newPhoto := Mutations.PhotoCopy(galleryPhotos[p.value], nonce);
      var sections := inspection.sections;
      sections := sections[i := sections[i].(photos := sections[i].photos + [newPhoto])];
      inspection := inspection.(sections := sections);
    }

    /** Finds the gallery photo, the section and the subsection inside it,
        copies the photo and assigns the subsection with the copy appended
        back at its index inside a copy of the section. */
    method AddPhotoToSubsection(photoId: string, sectionId: string, subsectionId: string, nonce: string)
      modifies this
      ensures inspection == Mutations.AddPhotoToSubsection(old(inspection), galleryPhotos, photoId, sectionId, subsectionId, nonce)
      ensures selectedSectionId == old(selectedSectionId) && sidebarOpen == old(sidebarOpen) && galleryPhotos == old(galleryPhotos)
    {
      var p := IndexOf(galleryPhotos, PhotoIdIs(photoId));
      if p.None? {
        return;
      }
      var found := IndexOf(inspection.sections, SectionIdIs(sectionId));
      if found.None? {
        return;
      }
      var i := found.value;
      var foundSub := IndexOf(inspection.sections[i].subsections, SubsectionIdIs(subsectionId));
      if foundSub.None? {
        return;
      }
      var k := foundSub.value;
      var newPhoto := Mutations.PhotoCopy(galleryPhotos[p.value], nonce);
      var sections := inspection.sections;
      var subsections := sections[i].subsections;
      subsections := subsections[k := subsections[k].(photos := subsections[k].photos + [newPhoto])];
      sections := sections[i := sections[i].(subsections := subsections)];
      inspection := inspection.(sections := sections);
    }

    /** Reorders inside one section's items or photos, as an `item` drag does. */
    method DropItem(source: Location, dest: Location)
      requires SourceFits(inspection, ClassifyItemDrop(inspection, source, dest))
      modifies this
      ensures inspection == Apply(old(inspection), galleryPhotos, ClassifyItemDrop(old(inspection), source, dest), "")
      ensures selectedSectionId == old(selectedSectionId) && sidebarOpen == old(sidebarOpen) && galleryPhotos == old(galleryPhotos)
    {
      var s := Split(source.droppableId);
      var d := Split(dest.droppableId);
      if s[0] == d[0] && Part(s, 1) == Part(d, 1) {
        var found := IndexOf(inspection.sections, SectionIdIs(s[0]));
        if found.None? {
          return;
        }
        var i := found.value;
        var sections := inspection.sections;
        if Part(s, 1) == Some("items") {
          var items := Reorder(sections[i].items, source.index, dest.index);
          sections := sections[i := sections[i].(items := items)];
        } else if Part(s, 1) == Some("photos") {
          var photos := Reorder(sections[i].photos, source.index, dest.index);
          sections := sections[i := sections[i].(photos := photos)];
        }
        inspection := inspection.(sections := sections);
      }
    }

    /** Reorders inside one subsection's items or photos, as a
        `subsection-item` drag does. */
    method DropSubsectionItem(source: Location, dest: Location)
      requires SourceFits(inspection, ClassifySubsectionItemDrop(inspection, source, dest))
      modifies this
      ensures inspection == Apply(old(inspection), galleryPhotos, ClassifySubsectionItemDrop(old(inspection), source, dest), "")
      ensures selectedSectionId == old(selectedSectionId) && sidebarOpen == old(sidebarOpen) && galleryPhotos == old(galleryPhotos)
    {
      var s := Split(source.droppableId);
      var d := Split(dest.droppableId);
      if s[0] == d[0] && Part(s, 1) == Part(d, 1) && Part(s, 2) == Part(d, 2) {
        var found := IndexOf(inspection.sections, SectionIdIs(s[0]));
        if found.None? || Part(s, 1).None? {
          return;
        }
        var i := found.value;
        var foundSub := IndexOf(inspection.sections[i].subsections, SubsectionIdIs(Part(s, 1).value));
        if foundSub.None? {
          return;
        }
        var k := foundSub.value;
        var sections := inspection.sections;
        var subsections := sections[i].subsections;
        if Part(s, 2) == Some("items") {
          var items := Reorder(subsections[k].items, source.index, dest.index);
          subsections := subsections[k := subsections[k].(items := items)];
        } else if Part(s, 2) == Some("photos") {
          var photos := Reorder(subsections[k].photos, source.index, dest.index);
          subsections := subsections[k := subsections[k].(photos := photos)];
        }
        sections := sections[i := sections[i].(subsections := subsections)];
        inspection := inspection.(sections := sections);
      }
    }

    /** A gallery photo dropped somewhere: copies it into the section or
        subsection the destination area names. */
    method DropGalleryPhoto(photoId: string, dest: Location, nonce: string)
      modifies this
      ensures inspection == Apply(old(inspection), galleryPhotos, ClassifyGalleryDrop(photoId, dest), nonce)
      ensures selectedSectionId == old(selectedSectionId) && sidebarOpen == old(sidebarOpen) && galleryPhotos == old(galleryPhotos)
    {
      match DecodePhotoArea(dest.droppableId)
      case SectionArea(Some(sectionId)) =>
        AddPhotoToSection(photoId, sectionId, nonce);
      case SubsectionArea(subsectionId, parentId) =>
        AddPhotoToSubsection(photoId, parentId, subsectionId, nonce);
      case _ =>
    }

    /** The drag-end handler: ignores drops outside every area and drops where
        the drag started, then acts by the drag's type. `nonce` is the
        timestamp a copied photo's id is made from. */
    method DragEnd(ev: DropResult, nonce: string)
      requires SourceFits(inspection, Classify(inspection, ev))
      modifies this
      ensures inspection == DragEndOutcome(old(inspection), galleryPhotos, ev, nonce)
      ensures selectedSectionId == old(selectedSectionId) && sidebarOpen == old(sidebarOpen) && galleryPhotos == old(galleryPhotos)
    {
      if ev.destination.None? {
        return;
      }
      var dest := ev.destination.value;
      if dest.droppableId == ev.source.droppableId && dest.index == ev.source.index {
        return;
      }
      if ev.dragType == "photo" {
        if ev.source.droppableId == GalleryArea {
          assert Classify(inspection, ev) == ClassifyGalleryDrop(ev.draggableId, dest);
          DropGalleryPhoto(ev.draggableId, dest, nonce);
        }
      } else if ev.dragType == "section" {
        assert Classify(inspection, ev) == MoveSection(ev.source.index, dest.index);
        var sections := Reorder(inspection.sections, ev.source.index, dest.index);
        inspection := inspection.(sections := sections);
      } else if ev.dragType == "item" {
        assert Classify(inspection, ev) == ClassifyItemDrop(inspection, ev.source, dest);
        DropItem(ev.source, dest);
      } else if ev.dragType == "subsection-item" {
        assert Classify(inspection, ev) == ClassifySubsectionItemDrop(inspection, ev.source, dest);
        DropSubsectionItem(ev.source, dest);
      }
    }
  }
}
