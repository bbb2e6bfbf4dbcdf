/** Drop-area identifiers. The components name their drop areas with strings
    built by joining parts with `-`, and the drag handler takes them apart with
    `split('-')`. Decoding gives back the parts only when no part contains a dash. */
module DroppableIds {
  import opened Types

  /** The read-only gallery's drop area. */
  const GalleryArea: string := "photo-gallery"

  /** `s.split('-')`: the dash-free pieces between dashes, in order; an empty
      string or adjacent dashes give empty pieces, and there is always one piece. */
  function Split(s: string): (parts: seq<string>)
    ensures |parts| >= 1
    ensures forall k :: 0 <= k < |parts| ==> '-' !in parts[k]
  {
    if s == [] then [""]
    else
      var rest := Split(s[1..]);
      if s[0] == '-' then [""] + rest
      else [[s[0]] + rest[0]] + rest[1..]
  }

  /** The pieces glued back together with `-` between them. */
  function Join(parts: seq<string>): string
    requires |parts| >= 1
  {
    if |parts| == 1 then parts[0] else parts[0] + "-" + Join(parts[1..])
  }

  /** Gluing the pieces of any string gives the string back. */
  lemma {:induction false} JoinSplit(s: string)
    ensures Join(Split(s)) == s
  {
    if s != [] {
      var rest := Split(s[1..]);
      JoinSplit(s[1..]);
      if s[0] == '-' {
        assert ([""] + rest)[1..] == rest;
      } else if |rest| > 1 {
        var parts := [[s[0]] + rest[0]] + rest[1..];
        assert parts[1..] == rest[1..];
        assert s == [s[0]] + s[1..];
      } else {
        assert s == [s[0]] + s[1..];
      }
    }
  }

  /** A dash-free string is a single piece. */
  lemma {:induction false} SplitDashFree(a: string)
    requires '-' !in a
    ensures Split(a) == [a]
  {
    if a != [] {
      assert '-' !in a[1..] by {
        assert forall c :: c in a[1..] ==> c in a;
      }
      SplitDashFree(a[1..]);
      assert a == [a[0]] + a[1..];
    }
  }

  /** A dash-free head followed by a dash splits off as the first piece. */
  lemma {:induction false} SplitAfterHead(a: string, b: string)
    requires '-' !in a
    ensures Split(a + "-" + b) == [a] + Split(b)
  {
    if a == [] {
      assert a + "-" + b == "-" + b;
      assert ("-" + b)[1..] == b;
    } else {
      assert '-' !in a[1..] by {
        assert forall c :: c in a[1..] ==> c in a;
      }
      SplitAfterHead(a[1..], b);
      assert (a + "-" + b)[1..] == a[1..] + "-" + b;
      assert a == [a[0]] + a[1..];
    }
  }

  /** Two strings joined by a dash split into the pieces of the first
      followed by the pieces of the second. */
  lemma {:induction false} SplitAppend(a: string, b: string)
    ensures Split(a + "-" + b) == Split(a) + Split(b)
  {
    var s := a + "-" + b;
    if a == [] {
      assert s == "-" + b && s[1..] == b;
    } else {
      assert s[0] == a[0] && s[1..] == a[1..] + "-" + b;
      SplitAppend(a[1..], b);
      var rest, front := Split(s[1..]), Split(a[1..]);
      assert rest == front + Split(b);
      if a[0] == '-' {
        assert Split(s) == [""] + rest;
      } else {
        assert Split(s) == [[a[0]] + rest[0]] + rest[1..];
        assert rest[1..] == front[1..] + Split(b);
      }
    }
  }

  /** A dash-free head and two strings joined by dashes split into the head
      followed by the pieces of each string. */
  lemma SplitHeadAppend(h: string, a: string, b: string)
    requires '-' !in h
    ensures Split(h + "-" + (a + "-" + b)) == [h] + Split(a) + Split(b)
  {
    SplitAfterHead(h, a + "-" + b);
    SplitAppend(a, b);
  }

  /** Splitting a join of dash-free pieces gives back the pieces. */
  lemma {:induction false} SplitJoin(parts: seq<string>)
    requires |parts| >= 1
    requires forall k :: 0 <= k < |parts| ==> '-' !in parts[k]
    ensures Split(Join(parts)) == parts
  {
    if |parts| == 1 {
      SplitDashFree(parts[0]);
    } else {
      SplitJoin(parts[1..]);
      SplitAfterHead(parts[0], Join(parts[1..]));
      assert parts == [parts[0]] + parts[1..];
    }
  }

  /** Piece `k`, or `None` where array destructuring yields `undefined`. */
  function Part(parts: seq<string>, k: nat): Option<string> {
    if k < |parts| then Some(parts[k]) else None
  }

  // Encoders used by the components.

  /** The photo area of a section: `section-<sectionId>`. */
  function SectionPhotoArea(sectionId: string): (r: string)
    ensures Split(r) == ["section"] + Split(sectionId)
  {
    SplitAfterHead("section", sectionId);
    assert "section-" + sectionId == "section" + "-" + sectionId;
    "section-" + sectionId
  }

  /** The photo area of a subsection: `subsection-<subsectionId>-<sectionId>`. */
  function SubsectionPhotoArea(subsectionId: string, sectionId: string): (r: string)
    ensures Split(r) == ["subsection"] + Split(subsectionId) + Split(sectionId)
  {
    var tail := subsectionId + "-" + sectionId;
    SplitHeadAppend("subsection", subsectionId, sectionId);
    assert "subsection-" + tail == "subsection" + "-" + tail;
    "subsection-" + tail
  }

  /** Where a gallery photo was dropped, as the drag handler reads it. */
  datatype PhotoArea =
    | SectionArea(sectionId: Option<string>)
    | SubsectionArea(subsectionId: string, parentId: string)
    | OtherArea

  /** The drag handler's reading of a destination: the first piece names the
      kind; a section target is the second piece (possibly absent); a
      subsection target needs a non-empty third piece, its section. */
  function DecodePhotoArea(droppableId: string): PhotoArea {
    var parts := Split(droppableId);
    if parts[0] == "section" then SectionArea(Part(parts, 1))
    else if parts[0] == "subsection" && |parts| >= 3 && parts[2] != "" then SubsectionArea(parts[1], parts[2])
    else OtherArea
  }

  /** Every id the decoder yields is dash-free. */
  lemma DecodedIdsAreDashFree(droppableId: string)
    ensures var a := DecodePhotoArea(droppableId);
      && (a.SectionArea? && a.sectionId.Some? ==> '-' !in a.sectionId.value)
      && (a.SubsectionArea? ==> '-' !in a.subsectionId && '-' !in a.parentId)
  {
  }

  /** A section photo area decodes to its section when the id is dash-free. */
  lemma DecodeSectionPhotoArea(sectionId: string)
    requires '-' !in sectionId
    ensures DecodePhotoArea(SectionPhotoArea(sectionId)) == SectionArea(Some(sectionId))
  {
    assert SectionPhotoArea(sectionId) == Join(["section", sectionId]);
    SplitJoin(["section", sectionId]);
  }

  /** A subsection photo area decodes to its subsection and section when both
      ids are dash-free; an empty section id reads as no target at all. */
  lemma DecodeSubsectionPhotoArea(subsectionId: string, sectionId: string)
    requires '-' !in subsectionId && '-' !in sectionId
    ensures DecodePhotoArea(SubsectionPhotoArea(subsectionId, sectionId))
         == if sectionId == "" then OtherArea else SubsectionArea(subsectionId, sectionId)
  {
    var parts := ["subsection", subsectionId, sectionId];
    assert parts[1..][1..] == [sectionId];
    assert Join(parts[1..]) == subsectionId + "-" + sectionId;
    assert SubsectionPhotoArea(subsectionId, sectionId) == Join(parts);
    SplitJoin(["subsection", subsectionId, sectionId]);
  }

  /** A section id with a dash is misread: the decoder yields the dash-free
      text before its first dash, which is not the id. */
  lemma DashedSectionIdMisread(sectionId: string)
    requires '-' in sectionId
    ensures var a := DecodePhotoArea(SectionPhotoArea(sectionId));
      a.SectionArea? && a.sectionId.Some? && a.sectionId.value != sectionId && '-' !in a.sectionId.value
  {
    SplitAfterHead("section", sectionId);
    assert "section-" + sectionId == "section" + "-" + sectionId;
    assert '-' !in Split(sectionId)[0];
  }

  /** A subsection id with a dash is never read back: whatever the decoder
      yields, it is not that subsection of that section. */
  lemma DashedSubsectionIdMisread(subsectionId: string, sectionId: string)
    requires '-' in subsectionId
    ensures DecodePhotoArea(SubsectionPhotoArea(subsectionId, sectionId)) != SubsectionArea(subsectionId, sectionId)
  {
    DecodedIdsAreDashFree(SubsectionPhotoArea(subsectionId, sectionId));
  }

  /** A bare dash-free id, as used for the item lists, is one piece: there is
      no second piece to name a list kind. */
  lemma BareIdHasNoKind(containerId: string)
    requires '-' !in containerId
    ensures Split(containerId) == [containerId]
    ensures Part(Split(containerId), 1) == None
  {
    SplitDashFree(containerId);
  }
}
