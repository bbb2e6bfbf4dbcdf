/** List operations the handlers are built from: `filter` by a test,
    `findIndex`, and the splice-out/splice-in move used to reorder a list. */
module Lists {
  import opened Types

  /** `r` keeps some elements of `s`, in their original order. */
  ghost predicate IsSubsequence<T>(r: seq<T>, s: seq<T>)
    decreases |s|
  {
    r == [] || (s != [] && ((r[0] == s[0] && IsSubsequence(r[1..], s[1..])) || IsSubsequence(r, s[1..])))
  }

  /** `s.filter(keep)`: the elements that pass the test, in order. */
  function Filter<T>(s: seq<T>, keep: T -> bool): (r: seq<T>)
    ensures |r| <= |s|
  {
    if s == [] then []
    else if keep(s[0]) then [s[0]] + Filter(s[1..], keep)
    else Filter(s[1..], keep)
  }

  /** What filtering keeps: exactly the elements that pass, in their original
      order, and the whole list when every element passes. */
  lemma {:induction false} FilterSpec<T>(s: seq<T>, keep: T -> bool)
    ensures forall x :: x in Filter(s, keep) ==> x in s && keep(x)
    ensures forall i :: 0 <= i < |s| && keep(s[i]) ==> s[i] in Filter(s, keep)
    ensures IsSubsequence(Filter(s, keep), s)
    ensures (forall i :: 0 <= i < |s| ==> keep(s[i])) ==> Filter(s, keep) == s
  {
    if s != [] {
      var tail := Filter(s[1..], keep);
      FilterSpec(s[1..], keep);
      assert forall i :: 1 <= i < |s| ==> s[i] == s[1..][i - 1];
      if keep(s[0]) {
        assert ([s[0]] + tail)[1..] == tail;
      }
    }
  }

  /** Filtering keeps every passing element as often as it occurs in the
      list, and no failing one. */
  lemma {:induction false} FilterCounts<T>(s: seq<T>, keep: T -> bool)
    ensures forall x :: multiset(Filter(s, keep))[x] == if keep(x) then multiset(s)[x] else 0
  {
    if s != [] {
      var tail := Filter(s[1..], keep);
      FilterCounts(s[1..], keep);
      assert s == [s[0]] + s[1..];
      assert multiset(s) == multiset{s[0]} + multiset(s[1..]);
      assert multiset(Filter(s, keep)) == if keep(s[0]) then multiset{s[0]} + multiset(tail) else multiset(tail);
    }
  }

  /** Filtering distributes over concatenation. */
  lemma {:induction false} FilterAppend<T>(a: seq<T>, b: seq<T>, keep: T -> bool)
    ensures Filter(a + b, keep) == Filter(a, keep) + Filter(b, keep)
  {
    if a == [] {
      assert a + b == b;
    } else {
      assert (a + b)[1..] == a[1..] + b;
      FilterAppend(a[1..], b, keep);
    }
  }

  /** Filtering out an appended element that fails the test, from a list
      whose elements all pass it, gives back the list. */
  lemma FilterDropsAppended<T>(s: seq<T>, x: T, keep: T -> bool)
    requires forall j :: 0 <= j < |s| ==> keep(s[j])
    requires !keep(x)
    ensures Filter(s + [x], keep) == s
  {
    FilterAppend(s, [x], keep);
    FilterSpec(s, keep);
    assert [x][1..] == [];
  }

  /** When exactly the element at `k` fails the test, filtering is removal at `k`. */
  lemma {:induction false} FilterDropsOne<T>(s: seq<T>, keep: T -> bool, k: nat)
    requires k < |s| && !keep(s[k])
    requires forall j :: 0 <= j < |s| && j != k ==> keep(s[j])
    ensures Filter(s, keep) == s[..k] + s[k + 1..]
  {
    var tail := s[1..];
    if k == 0 {
      forall i | 0 <= i < |tail| ensures keep(tail[i]) {
        assert tail[i] == s[i + 1];
      }
      FilterSpec(tail, keep);
    } else {
      forall j | 0 <= j < |tail| && j != k - 1 ensures keep(tail[j]) {
        assert tail[j] == s[j + 1];
      }
      FilterDropsOne(tail, keep, k - 1);
      assert s[..k] + s[k + 1..] == [s[0]] + (tail[..k - 1] + tail[k..]);
    }
  }

  /** Filtering twice by the same test is filtering once. */
  lemma FilterIdempotent<T>(s: seq<T>, keep: T -> bool)
    ensures Filter(Filter(s, keep), keep) == Filter(s, keep)
  {
    var r := Filter(s, keep);
    FilterSpec(s, keep);
    FilterSpec(r, keep);
    assert forall i :: 0 <= i < |r| ==> r[i] in r;
  }

  /** Writing one index back into a copy of the list (`copy[i] = x`) changes
      no other index, so of any two indices at least one keeps its element. */
  lemma UpdateChangesOne<T>(s: seq<T>, i: nat, x: T)
    requires i < |s|
    ensures |s[i := x]| == |s|
    ensures forall j :: 0 <= j < |s| && j != i ==> s[i := x][j] == s[j]
    ensures forall j, l :: 0 <= j < l < |s| ==> s[i := x][j] == s[j] || s[i := x][l] == s[l]
  {
  }

  /** `s.findIndex(p)`, with -1 as `None`: the first index whose element passes `p`. */
  function IndexOf<T>(s: seq<T>, p: T -> bool): (r: Option<nat>)
    ensures r.Some? ==> r.value < |s| && p(s[r.value]) && forall j :: 0 <= j < r.value ==> !p(s[j])
    ensures r.None? ==> forall j :: 0 <= j < |s| ==> !p(s[j])
  {
    if s == [] then None
    else if p(s[0]) then Some(0)
    else
      match IndexOf(s[1..], p)
      case None =>
        assert forall j :: 1 <= j < |s| ==> s[j] == s[1..][j - 1];
        None
      case Some(i) =>
        assert forall j :: 1 <= j <= i ==> s[j] == s[1..][j - 1];
        Some(i + 1)
  }

  /** An index whose element passes `p` with none before it passing is what `IndexOf` finds. */
  lemma IndexOfFirst<T>(s: seq<T>, p: T -> bool, i: nat)
    requires i < |s| && p(s[i])
    requires forall j :: 0 <= j < i ==> !p(s[j])
    ensures IndexOf(s, p) == Some(i)
  {
  }

  /** Where `splice(to, 0, x)` inserts into the list shortened by one: a start
      index past the end is clamped to the end. */
  function Dest(n: nat, to: nat): (at: nat)
    requires n > 0
    ensures at < n && (at == to || (to >= n - 1 && at == n - 1))
  {
    if to < n - 1 then to else n - 1
  }

  /** `splice(from, 1)` then `splice(to, 0, moved)`: the element at `from` is
      taken out and put back at position `to` (clamped), shifting the ones between. */
  function Moved<T>(s: seq<T>, from: nat, to: nat): (r: seq<T>)
    requires from < |s|
    ensures |r| == |s|
    ensures r[Dest(|s|, to)] == s[from]
  {
    var rest := s[..from] + s[from + 1..];
    var at := Dest(|s|, to);
    rest[..at] + [s[from]] + rest[at..]
  }

  /** Element by element: the moved element sits at the destination, the ones
      it passed over shift by one towards its old place, the rest stay. */
  function MovedElem<T>(s: seq<T>, from: nat, to: nat, k: nat): T
    requires from < |s| && k < |s|
  {
    var at := Dest(|s|, to);
    if k == at then s[from]
    else if from <= k < at then s[k + 1]
    else if at < k <= from then s[k - 1]
    else s[k]
  }

  /** The move agrees with its element-by-element description. */
  lemma MovedAt<T>(s: seq<T>, from: nat, to: nat, k: nat)
    requires from < |s| && k < |s|
    ensures Moved(s, from, to)[k] == MovedElem(s, from, to, k)
  {
    var rest := s[..from] + s[from + 1..];
    assert forall j :: 0 <= j < |rest| ==> rest[j] == if j < from then s[j] else s[j + 1];
  }

  /** A list that agrees with the element-by-element description of a move is that move. */
  lemma MovedFromIndices<T>(s: seq<T>, from: nat, to: nat, r: seq<T>)
    requires from < |s| && |r| == |s|
    requires forall k :: 0 <= k < |s| ==> r[k] == MovedElem(s, from, to, k)
    ensures r == Moved(s, from, to)
  {
    forall k | 0 <= k < |s| ensures r[k] == Moved(s, from, to)[k] {
      MovedAt(s, from, to, k);
    }
  }

  /** A move is a permutation. */
  lemma MovedIsPermutation<T>(s: seq<T>, from: nat, to: nat)
    requires from < |s|
    ensures multiset(Moved(s, from, to)) == multiset(s)
  {
    var rest := s[..from] + s[from + 1..];
    var at := Dest(|s|, to);
    assert s == s[..from] + [s[from]] + s[from + 1..];
    assert multiset(s) == multiset(rest) + multiset{s[from]};
    assert rest == rest[..at] + rest[at..];
    assert multiset(rest) == multiset(rest[..at]) + multiset(rest[at..]);
    assert Moved(s, from, to) == rest[..at] + [s[from]] + rest[at..];
  }

  /** Dropping an element where it was taken from changes nothing. */
  lemma MovedInPlace<T>(s: seq<T>, i: nat)
    requires i < |s|
    ensures Moved(s, i, i) == s
  {
    forall k | 0 <= k < |s| ensures Moved(s, i, i)[k] == s[k] {
      MovedAt(s, i, i, k);
    }
  }

  /** Moving the element back from its destination to its old index undoes the move. */
  lemma MovedBack<T>(s: seq<T>, from: nat, to: nat)
    requires from < |s|
    ensures Moved(Moved(s, from, to), Dest(|s|, to), from) == s
  {
    var m := Moved(s, from, to);
    var at := Dest(|s|, to);
    assert Dest(|s|, from) == from;
    forall k | 0 <= k < |s| ensures Moved(m, at, from)[k] == s[k] {
      MovedAt(m, at, from, k);
      if k == from {
      } else if at <= k < from {
        MovedAt(s, from, to, k + 1);
      } else if from < k <= at {
        MovedAt(s, from, to, k - 1);
      } else {
        MovedAt(s, from, to, k);
      }
    }
  }

  /** The two reorderings of a three-element list given as examples of the move. */
  lemma MovedExamples<T>(a: T, b: T, c: T)
    ensures Moved([a, b, c], 0, 2) == [b, c, a]
    ensures Moved([a, b, c], 2, 0) == [c, a, b]
  {
    assert [a, b, c][..0] + [a, b, c][1..] == [b, c];
    assert [a, b, c][..2] + [a, b, c][3..] == [a, b];
  }

  /** Moves the elements at `lo + 1 .. hi` one place down, over `a[lo]`;
      `a[hi]` keeps its value and the rest of the array stays. `s` is the
      array's contents before the shift. */
  method ShiftDown<T>(a: array<T>, lo: nat, hi: nat, ghost s: seq<T>)
    requires lo <= hi < a.Length == |s|
    requires forall j :: 0 <= j < a.Length ==> a[j] == s[j]
    modifies a
    ensures forall j :: lo <= j < hi ==> a[j] == s[j + 1]
    ensures forall j :: 0 <= j < a.Length && !(lo <= j < hi) ==> a[j] == s[j]
  {
    var k := lo;
    while k < hi
      invariant lo <= k <= hi
      invariant forall j :: lo <= j < k ==> a[j] == s[j + 1]
      invariant forall j :: 0 <= j < a.Length && !(lo <= j < k) ==> a[j] == s[j]
    {
      a[k] := a[k + 1];
      k := k + 1;
    }
  }

  /** Moves the elements at `lo .. hi - 1` one place up, over `a[hi]`;
      `a[lo]` keeps its value and the rest of the array stays. `s` is the
      array's contents before the shift. */
  method ShiftUp<T>(a: array<T>, lo: nat, hi: nat, ghost s: seq<T>)
    requires lo <= hi < a.Length == |s|
    requires forall j :: 0 <= j < a.Length ==> a[j] == s[j]
    modifies a
    ensures forall j :: lo < j <= hi ==> a[j] == s[j - 1]
    ensures forall j :: 0 <= j < a.Length && !(lo < j <= hi) ==> a[j] == s[j]
  {
    var k := hi;
    while k > lo
      invariant lo <= k <= hi
      invariant forall j :: k < j <= hi ==> a[j] == s[j - 1]
      invariant forall j :: 0 <= j < a.Length && !(k < j <= hi) ==> a[j] == s[j]
    {
      a[k] := a[k - 1];
      k := k - 1;
    }
  }

  /** The reorder of the drag handler: copy the list into an array (`Array.from`),
      take the element out and put it back at the destination, shifting the
      elements in between one place in the array. */
  method Reorder<T>(s: seq<T>, from: nat, to: nat) returns (r: seq<T>)
    requires from < |s|
    ensures r == Moved(s, from, to)
  {
    var a := new T[|s|](i requires 0 <= i < |s| => s[i]);
    var moved := a[from];
    var at := Dest(|s|, to);
    if from <= at {
      ShiftDown(a, from, at, s);
    } else {
      ShiftUp(a, at, from, s);
    }
    a[at] := moved;
    r := a[..];
    forall k | 0 <= k < |s| ensures r[k] == MovedElem(s, from, to, k) {
    }
    MovedFromIndices(s, from, to, r);
  }
}
