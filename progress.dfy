/** The completion percentage shown next to each section in the sidebar:
    the share of checked items among the section's own items and the items of
    its first-level subsections, rounded to the nearest whole percent. */
module Progress {
  import opened Types
  import opened Lists

  /** The item test of the count. */
  function IsChecked(): ChecklistItem -> bool { (it: ChecklistItem) => it.checked }

  /** How many items of the list are checked. */
  function CheckedCount(items: seq<ChecklistItem>): (n: nat)
    ensures n <= |items|
  {
    |Filter(items, IsChecked())|
  }

  /** Counting checked items adds up over concatenation. */
  lemma CheckedCountAppend(a: seq<ChecklistItem>, b: seq<ChecklistItem>)
    ensures CheckedCount(a + b) == CheckedCount(a) + CheckedCount(b)
  {
    FilterAppend(a, b, IsChecked());
  }

  /** A list whose items are all checked counts every item; one with none
      checked counts zero. */
  lemma CheckedCountExtremes(items: seq<ChecklistItem>)
    ensures (forall j :: 0 <= j < |items| ==> items[j].checked) ==> CheckedCount(items) == |items|
    ensures (forall j :: 0 <= j < |items| ==> !items[j].checked) ==> CheckedCount(items) == 0
  {
    var r := Filter(items, IsChecked());
    FilterSpec(items, IsChecked());
    if r != [] {
      assert r[0] in r;
    }
  }

  /** The items of the first-level subsections, subsection after subsection;
      deeper levels are not included. */
  function SubsectionItems(subs: seq<Subsection>): (r: seq<ChecklistItem>)
    ensures forall k, j :: 0 <= k < |subs| && 0 <= j < |subs[k].items| ==> subs[k].items[j] in r
  {
    if subs == [] then [] else SubsectionItems(subs[..|subs| - 1]) + subs[|subs| - 1].items
  }

  /** One more subsection adds its items at the end. */
  lemma SubsectionItemsStep(subs: seq<Subsection>, k: nat)
    requires k < |subs|
    ensures SubsectionItems(subs[..k + 1]) == SubsectionItems(subs[..k]) + subs[k].items
  {
    assert subs[..k + 1][..k] == subs[..k];
  }

  /** The items the percentage is taken over. */
  function CountedItems(section: Section): (r: seq<ChecklistItem>)
    ensures section.items <= r
    ensures section.subsections == [] ==> r == section.items
    ensures forall k, j :: 0 <= k < |section.subsections| && 0 <= j < |section.subsections[k].items| ==>
      section.subsections[k].items[j] in r
  {
    section.items + SubsectionItems(section.subsections)
  }

  /** Multiplying by a natural number keeps the order. */
  lemma {:induction false} MulMono(a: nat, b: nat, d: nat)
    ensures a <= b ==> a * d <= b * d
  {
    if a < b {
      MulMono(a, b - 1, d);
      assert b * d == (b - 1) * d + d;
    }
  }

  /** The quotient is the one integer whose multiples of `d` bracket `n`. */
  lemma DivUnique(n: nat, d: nat, q: nat)
    requires d > 0 && q * d <= n < q * d + d
    ensures n / d == q
  {
    var q' := n / d;
    assert q' * d <= n < q' * d + d;
    MulMono(q' + 1, q, d);
    MulMono(q + 1, q', d);
    assert (q' + 1) * d == q' * d + d;
    assert (q + 1) * d == q * d + d;
  }

  /** Nearest-integer rounding of `100 * checked / total` for a non-empty
      total: the quotient brackets the exact share and is at most 100. */
  lemma PercentBracket(checked: nat, total: nat)
    requires 0 < total && checked <= total
    ensures var q := (200 * checked + total) / (2 * total);
      && q * (2 * total) <= 200 * checked + total < q * (2 * total) + 2 * total
      && q <= 100
  {
    var n := 200 * checked + total;
    var d := 2 * total;
    var q := n / d;
    assert q * d <= n < q * d + d;
    MulMono(101, q, d);
    assert 101 * d == 202 * total;
  }

  /** `checked / total * 100` rounded to the nearest integer with halves
      rounded up, and 0 for an empty total. */
  function RoundedPercent(checked: nat, total: nat): (p: nat)
    requires checked <= total
    ensures p <= 100
    ensures total > 0 ==> p * (2 * total) <= 200 * checked + total < p * (2 * total) + 2 * total
    ensures checked == 0 ==> p == 0
    ensures total > 0 && checked == total ==> p == 100
  {
    if total == 0 then 0
    else
      PercentBracket(checked, total);
      if checked == 0 then
        assert 200 * checked + total == total;
        DivUnique(total, 2 * total, 0);
        (200 * checked + total) / (2 * total)
      else if checked == total then
        assert 200 * checked + total == 201 * total;
        DivUnique(201 * total, 2 * total, 100);
        (200 * checked + total) / (2 * total)
      else (200 * checked + total) / (2 * total)
  }

  /** The percentage of the section's counted items that are checked. */
  function Progress(section: Section): (p: nat)
    ensures p <= 100
    ensures |CountedItems(section)| == 0 ==> p == 0
  {
    var items := CountedItems(section);
    RoundedPercent(CheckedCount(items), |items|)
  }

  /** The sidebar's computation: start from the section's own items and add
      the totals of each first-level subsection in turn. */
  method CalculateProgress(section: Section) returns (p: nat)
    ensures p == Progress(section)
    ensures p <= 100
  {
    var total := |section.items|;
    var checked := CheckedCount(section.items);
    var k := 0;
    assert section.items + SubsectionItems(section.subsections[..0]) == section.items;
    while k < |section.subsections|
      invariant 0 <= k <= |section.subsections|
      invariant total == |section.items + SubsectionItems(section.subsections[..k])|
      invariant checked == CheckedCount(section.items + SubsectionItems(section.subsections[..k]))
      invariant checked <= total
    {
      var sub := section.subsections[k];
      ghost var before := section.items + SubsectionItems(section.subsections[..k]);
      SubsectionItemsStep(section.subsections, k);
      assert section.items + SubsectionItems(section.subsections[..k + 1]) == before + sub.items;
      CheckedCountAppend(before, sub.items);
      total := total + |sub.items|;
      checked := checked + CheckedCount(sub.items);
      k := k + 1;
    }
    assert section.subsections[..k] == section.subsections;
    p := RoundedPercent(checked, total);
  }

  /** A section with at least one counted item, all of them checked, is at 100. */
  lemma AllCheckedIsComplete(section: Section)
    requires |CountedItems(section)| > 0
    requires forall j :: 0 <= j < |CountedItems(section)| ==> CountedItems(section)[j].checked
    ensures Progress(section) == 100
  {
    CheckedCountExtremes(CountedItems(section));
  }

  /** A section with no counted item checked is at 0. */
  lemma NoneCheckedIsZero(section: Section)
    requires forall j :: 0 <= j < |CountedItems(section)| ==> !CountedItems(section)[j].checked
    ensures Progress(section) == 0
  {
    CheckedCountExtremes(CountedItems(section));
  }

  /** Three own items with two checked and one subsection with two unchecked
      items: 2 of 5 is 40 percent. */
  lemma ProgressExample(section: Section)
    requires |section.items| == 3 && section.items[0].checked && section.items[1].checked && !section.items[2].checked
    requires |section.subsections| == 1
    requires |section.subsections[0].items| == 2
    requires !section.subsections[0].items[0].checked && !section.subsections[0].items[1].checked
    ensures Progress(section) == 40
  {
    var own := section.items;
    var sub := section.subsections[0].items;
    SubsectionItemsStep(section.subsections, 0);
    assert section.subsections[..1] == section.subsections;
    assert CountedItems(section) == own + sub;
    CheckedCountAppend(own, sub);
    CheckedCountExtremes(sub);
    assert CheckedCount(own) == 2 by {
      assert own == [own[0], own[1]] + [own[2]];
      CheckedCountAppend([own[0], own[1]], [own[2]]);
      CheckedCountExtremes([own[0], own[1]]);
      CheckedCountExtremes([own[2]]);
    }
    assert RoundedPercent(2, 5) == 40;
  }

  /** Lists of subsections whose items agree list by list in length and in
      checked count contribute the same totals. */
  lemma {:induction false} SubsectionTotalsAgree(subs: seq<Subsection>, subs': seq<Subsection>)
    requires |subs| == |subs'|
    requires forall k :: 0 <= k < |subs| ==>
      |subs[k].items| == |subs'[k].items| && CheckedCount(subs[k].items) == CheckedCount(subs'[k].items)
    ensures |SubsectionItems(subs)| == |SubsectionItems(subs')|
    ensures CheckedCount(SubsectionItems(subs)) == CheckedCount(SubsectionItems(subs'))
  {
    if subs != [] {
      var n := |subs| - 1;
      SubsectionTotalsAgree(subs[..n], subs'[..n]);
      CheckedCountAppend(SubsectionItems(subs[..n]), subs[n].items);
      CheckedCountAppend(SubsectionItems(subs'[..n]), subs'[n].items);
    }
  }

  /** Progress depends only on how many items there are and how many are
      checked, list by list: sections that agree on those have equal progress. */
  lemma SameTotalsSameProgress(s: Section, s': Section)
    requires |s.items| == |s'.items| && CheckedCount(s.items) == CheckedCount(s'.items)
    requires |s.subsections| == |s'.subsections|
    requires forall k :: 0 <= k < |s.subsections| ==>
      |s.subsections[k].items| == |s'.subsections[k].items|
      && CheckedCount(s.subsections[k].items) == CheckedCount(s'.subsections[k].items)
    ensures Progress(s) == Progress(s')
  {
    SubsectionTotalsAgree(s.subsections, s'.subsections);
    CheckedCountAppend(s.items, SubsectionItems(s.subsections));
    CheckedCountAppend(s'.items, SubsectionItems(s'.subsections));
    assert |CountedItems(s)| == |CountedItems(s')|;
    assert CheckedCount(CountedItems(s)) == CheckedCount(CountedItems(s'));
  }

  /** Only items count: the section's title, id and photos, and a
      subsection's title, id, photos and nested subsections (the levels
      below the first) can change without changing the progress. */
  lemma OnlyItemsCount(section: Section, title: string, id: string, photos: seq<PhotoItem>,
                       k: nat, sub: Subsection)
    requires k < |section.subsections| && sub.items == section.subsections[k].items
    ensures var subs := section.subsections;
      Progress(section.(title := title, id := id, photos := photos, subsections := subs[k := sub])) == Progress(section)
  {
    var subs := section.subsections;
    SameTotalsSameProgress(section.(title := title, id := id, photos := photos, subsections := subs[k := sub]), section);
  }

  /** Moving a thing within a list keeps the number of checked items. */
  lemma MovedKeepsCheckedCount(items: seq<ChecklistItem>, from: nat, to: nat)
    requires from < |items|
    ensures CheckedCount(Moved(items, from, to)) == CheckedCount(items)
  {
    var x := items[from];
    var rest := items[..from] + items[from + 1..];
    var at := Dest(|items|, to);
    assert items == items[..from] + [x] + items[from + 1..];
    CheckedCountAppend(items[..from] + [x], items[from + 1..]);
    CheckedCountAppend(items[..from], [x]);
    CheckedCountAppend(items[..from], items[from + 1..]);
    assert rest == rest[..at] + rest[at..];
    CheckedCountAppend(rest[..at], rest[at..]);
    CheckedCountAppend(rest[..at] + [x], rest[at..]);
    CheckedCountAppend(rest[..at], [x]);
  }

  /** Reordering a section's items, or the items of one of its subsections,
      leaves its progress as it was. */
  lemma ReorderKeepsProgress(section: Section, k: nat, from: nat, to: nat)
    ensures from < |section.items| ==>
      Progress(section.(items := Moved(section.items, from, to))) == Progress(section)
    ensures k < |section.subsections| && from < |section.subsections[k].items| ==>
      var subs := section.subsections;
      Progress(section.(subsections := subs[k := subs[k].(items := Moved(subs[k].items, from, to))])) == Progress(section)
  {
    if from < |section.items| {
      MovedKeepsCheckedCount(section.items, from, to);
      SameTotalsSameProgress(section.(items := Moved(section.items, from, to)), section);
    }
    if k < |section.subsections| && from < |section.subsections[k].items| {
      var subs := section.subsections;
      MovedKeepsCheckedCount(subs[k].items, from, to);
      SameTotalsSameProgress(section.(subsections := subs[k := subs[k].(items := Moved(subs[k].items, from, to))]), section);
    }
  }
}
