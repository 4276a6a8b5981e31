/** Accumulated damage of a window: a list of rectangles in which overlapping or touching ones are
    merged, or the whole window. */
module WindowDamage {
  import opened Rectangles

  datatype Damage = Damage(areas: seq<Rectangle>, full: bool)
  {
    predicate HasDamage() { full || areas != [] }

    /** Damage after adding that of `other`. */
    function Plus(other: Damage): Damage {
      if full then this
      else if other.full then Damage([], true)
      else Damage(MergeAll(areas, other.areas), false)
    }

    /** What the listed areas, or the full flag, damage. */
    predicate Covers(x: int, y: int) {
      full || exists a :: a in areas && a.HasCell(x, y)
    }
  }

  const NO_DAMAGE := Damage([], false)

  /** There is damage exactly when some cell is damaged. */
  lemma HasDamageIff(d: Damage)
    requires forall a | a in d.areas :: a.Positive()
    ensures d.HasDamage() <==> exists x, y :: d.Covers(x, y)
  {
    if d.full {
      assert d.Covers(0, 0);
    } else if d.areas != [] {
      assert d.areas[0] in d.areas && d.areas[0].HasCell(d.areas[0].left, d.areas[0].bottom);
      assert d.Covers(d.areas[0].left, d.areas[0].bottom);
    }
  }

  // ----- One pass over the list

  /** The rectangle that has swallowed every area it touched on its way along the list. */
  function Combined(areas: seq<Rectangle>, r: Rectangle): Rectangle {
    if areas == [] then r
    else Combined(areas[1..], if areas[0].OverlapOrTouching(r) then r.Extend(areas[0]) else r)
  }

  /** The areas it left in place. */
  function Kept(areas: seq<Rectangle>, r: Rectangle): seq<Rectangle> {
    if areas == [] then []
    else if areas[0].OverlapOrTouching(r) then Kept(areas[1..], r.Extend(areas[0]))
    else [areas[0]] + Kept(areas[1..], r)
  }

  function Merge(areas: seq<Rectangle>, r: Rectangle): seq<Rectangle> {
    Kept(areas, r) + [Combined(areas, r)]
  }

  function MergeAll(areas: seq<Rectangle>, rects: seq<Rectangle>): seq<Rectangle> {
    if rects == [] then areas else Merge(MergeAll(areas, rects[..|rects| - 1]), rects[|rects| - 1])
  }

  /** A pass of r over `before` that has come to position `at`. */
  ghost predicate Passing(areas: seq<Rectangle>, at: nat, combined: Rectangle, before: seq<Rectangle>, r: Rectangle)
    requires at <= |areas|
  {
    && areas[..at] + Kept(areas[at..], combined) == Kept(before, r)
    && Combined(areas[at..], combined) == Combined(before, r)
  }

  lemma PassStarts(areas: seq<Rectangle>, r: Rectangle)
    ensures Passing(areas, 0, r, areas, r)
  {
  }

  lemma PassNext(areas: seq<Rectangle>, at: nat, combined: Rectangle, before: seq<Rectangle>, r: Rectangle)
    requires at < |areas| && Passing(areas, at, combined, before, r)
    ensures var without := areas[..at] + areas[at + 1..];
            if areas[at].OverlapOrTouching(combined) then Passing(without, at, combined.Extend(areas[at]), before, r)
            else Passing(areas, at + 1, combined, before, r)
  {
    var without := areas[..at] + areas[at + 1..];
    assert areas[at..][0] == areas[at] && areas[at..][1..] == areas[at + 1..] == without[at..];
    assert without[..at] == areas[..at] && areas[..at + 1] == areas[..at] + [areas[at]];
  }

  lemma PassEnds(areas: seq<Rectangle>, combined: Rectangle, before: seq<Rectangle>, r: Rectangle)
    requires Passing(areas, |areas|, combined, before, r)
    ensures areas + [combined] == Merge(before, r)
  {
    assert areas[..|areas|] == areas && areas[|areas|..] == [];
  }

  // ----- Bounding boxes

  /** b is the least rectangle around the members of m. */
  ghost predicate IsBoundingBox(b: Rectangle, m: multiset<Rectangle>) {
    && (forall r | r in m :: b.Contains(r))
    && (exists r :: r in m && r.left == b.left)
    && (exists r :: r in m && r.right == b.right)
    && (exists r :: r in m && r.top == b.top)
    && (exists r :: r in m && r.bottom == b.bottom)
  }

  /** Whatever holds the members holds their bounding box. */
  lemma BoundingBoxLeast(b: Rectangle, m: multiset<Rectangle>, c: Rectangle)
    requires IsBoundingBox(b, m) && forall r | r in m :: c.Contains(r)
    ensures c.Contains(b)
  {
  }

  lemma ExtendBounds(a: Rectangle, m: multiset<Rectangle>, b: Rectangle, n: multiset<Rectangle>)
    requires IsBoundingBox(a, m) && IsBoundingBox(b, n)
    ensures IsBoundingBox(a.Extend(b), m + n)
  {
  }

  // ----- The partition behind the list

  function Sum(classes: seq<multiset<Rectangle>>): multiset<Rectangle> {
    if classes == [] then multiset{} else classes[0] + Sum(classes[1..])
  }

  /** The listed areas are the bounding boxes of a partition of `added` into `classes`. */
  ghost predicate Partition(added: multiset<Rectangle>, areas: seq<Rectangle>, classes: seq<multiset<Rectangle>>) {
    && |classes| == |areas|
    && (forall i | 0 <= i < |areas| :: IsBoundingBox(areas[i], classes[i]))
    && Sum(classes) == added
  }

  ghost predicate Partitioned(added: multiset<Rectangle>, areas: seq<Rectangle>) {
    exists classes :: Partition(added, areas, classes)
  }

  lemma {:induction false} SumConcat(a: seq<multiset<Rectangle>>, b: seq<multiset<Rectangle>>)
    ensures Sum(a + b) == Sum(a) + Sum(b)
  {
    if a == [] {
      assert a + b == b;
    } else {
      assert (a + b)[1..] == a[1..] + b;
      SumConcat(a[1..], b);
    }
  }

  /** One pass splits the classes into those kept and the one that swallowed the rest. */
  lemma {:induction false} PassPartition(areas: seq<Rectangle>, classes: seq<multiset<Rectangle>>,
                                         r: Rectangle, m: multiset<Rectangle>)
    returns (kept: seq<multiset<Rectangle>>, combined: multiset<Rectangle>)
    requires Partition(Sum(classes), areas, classes) && IsBoundingBox(r, m)
    ensures Partition(Sum(kept), Kept(areas, r), kept) && IsBoundingBox(Combined(areas, r), combined)
    ensures Sum(kept) + combined == Sum(classes) + m
  {
    if areas == [] {
      kept, combined := [], m;
    } else if areas[0].OverlapOrTouching(r) {
      ExtendBounds(r, m, areas[0], classes[0]);
      kept, combined := PassPartition(areas[1..], classes[1..], r.Extend(areas[0]), m + classes[0]);
      assert Sum(classes) + m == Sum(classes[1..]) + (m + classes[0]);
    } else {
      var rest;
      rest, combined := PassPartition(areas[1..], classes[1..], r, m);
      kept := [classes[0]] + rest;
      assert kept[1..] == rest;
      assert Sum(kept) + combined == classes[0] + (Sum(rest) + combined);
    }
  }

  lemma PartitionAppend(added: multiset<Rectangle>, areas: seq<Rectangle>, classes: seq<multiset<Rectangle>>,
                        r: Rectangle, m: multiset<Rectangle>)
    requires Partition(added, areas, classes) && IsBoundingBox(r, m)
    ensures Partition(added + m, areas + [r], classes + [m])
  {
    hide IsBoundingBox;
    SumConcat(classes, [m]);
    assert Sum([m]) == m;
  }

  lemma MergePartition(added: multiset<Rectangle>, areas: seq<Rectangle>, r: Rectangle)
    requires Partitioned(added, areas)
    ensures Partitioned(added + multiset{r}, Merge(areas, r))
  {
    assert IsBoundingBox(r, multiset{r}) by { assert r in multiset{r}; }
    hide IsBoundingBox;
    var classes :| Partition(added, areas, classes);
    var kept, combined := PassPartition(areas, classes, r, multiset{r});
    PartitionAppend(Sum(kept), Kept(areas, r), kept, Combined(areas, r), combined);
  }

  lemma {:induction false} MergeAllPartition(added: multiset<Rectangle>, areas: seq<Rectangle>, rects: seq<Rectangle>)
    requires Partitioned(added, areas)
    ensures Partitioned(added + multiset(rects), MergeAll(areas, rects))
  {
    if rects != [] {
      var init, r := rects[..|rects| - 1], rects[|rects| - 1];
      MergeAllPartition(added, areas, init);
      MergePartition(added + multiset(init), MergeAll(areas, init), r);
      assert rects == init + [r];
      assert added + multiset(rects) == added + multiset(init) + multiset{r};
    } else {
      assert added + multiset(rects) == added;
    }
  }

  // ----- Runs of additions

  /** The damage after a run of additions since the last reset. */
  function Accumulated(run: seq<Damage>): Damage {
    if run == [] then NO_DAMAGE else Accumulated(run[..|run| - 1]).Plus(run[|run| - 1])
  }

  /** All rectangles listed by the additions of a run. */
  function Added(run: seq<Damage>): multiset<Rectangle> {
    if run == [] then multiset{} else Added(run[..|run| - 1]) + multiset(run[|run| - 1].areas)
  }

  /** Over any run, either the whole window was reported damaged, or the list holds exactly the
      bounding boxes of a partition of everything added. */
  lemma {:induction false} AccumulatedPartition(run: seq<Damage>)
    ensures Accumulated(run).full <==> exists d :: d in run && d.full
    ensures !Accumulated(run).full ==> Partitioned(Added(run), Accumulated(run).areas)
    ensures Accumulated(run).full ==> Accumulated(run).areas == []
  {
    if run == [] {
      assert Partition(multiset{}, [], []);
    } else {
      var init, d := run[..|run| - 1], run[|run| - 1];
      AccumulatedPartition(init);
      assert run == init + [d];
      if !Accumulated(run).full {
        MergeAllPartition(Added(init), Accumulated(init).areas, d.areas);
      }
    }
  }

  lemma {:induction false} SumMember(classes: seq<multiset<Rectangle>>, r: Rectangle) returns (i: nat)
    requires r in Sum(classes)
    ensures i < |classes| && r in classes[i]
  {
    if r in classes[0] {
      i := 0;
    } else {
      i := SumMember(classes[1..], r);
      i := i + 1;
    }
  }

  lemma PartitionCovers(added: multiset<Rectangle>, areas: seq<Rectangle>, r: Rectangle, x: int, y: int)
    requires Partitioned(added, areas) && r in added && r.HasCell(x, y)
    ensures Damage(areas, false).Covers(x, y)
  {
    var classes :| Partition(added, areas, classes);
    var i := SumMember(classes, r);
    assert areas[i].Contains(r) && areas[i] in areas;
  }

  /** No damaged cell is ever lost. */
  lemma NoCellLost(run: seq<Damage>, d: Damage, x: int, y: int)
    requires d in run && d.Covers(x, y)
    ensures Accumulated(run).Covers(x, y)
  {
    AccumulatedPartition(run);
    if !Accumulated(run).full {
      var r :| r in d.areas && r.HasCell(x, y);
      AddedMember(run, d, r);
      PartitionCovers(Added(run), Accumulated(run).areas, r, x, y);
    }
  }

  lemma {:induction false} ListIsPartitioned(areas: seq<Rectangle>)
    ensures Partitioned(multiset(areas), areas)
  {
    if areas == [] {
      assert Partition(multiset{}, [], []);
    } else {
      ListIsPartitioned(areas[1..]);
      var rest :| Partition(multiset(areas[1..]), areas[1..], rest);
      assert areas == [areas[0]] + areas[1..];
      PartitionCons(multiset(areas[1..]), areas[1..], rest, areas[0]);
    }
  }

  lemma PartitionCons(added: multiset<Rectangle>, areas: seq<Rectangle>, classes: seq<multiset<Rectangle>>,
                      r: Rectangle)
    requires Partition(added, areas, classes)
    ensures Partition(multiset{r} + added, [r] + areas, [multiset{r}] + classes)
  {
  }

  /** Adding damage to whatever is listed forgets neither side. */
  lemma PlusKeeps(s: Damage, d: Damage, x: int, y: int)
    requires s.Covers(x, y) || d.Covers(x, y)
    ensures s.Plus(d).Covers(x, y)
  {
    if !s.full && !d.full {
      ListIsPartitioned(s.areas);
      MergeAllPartition(multiset(s.areas), s.areas, d.areas);
      var r :| (r in s.areas || r in d.areas) && r.HasCell(x, y);
      PartitionCovers(multiset(s.areas) + multiset(d.areas), MergeAll(s.areas, d.areas), r, x, y);
    }
  }

  lemma {:induction false} AddedMember(run: seq<Damage>, d: Damage, r: Rectangle)
    requires d in run && r in d.areas
    ensures r in Added(run)
  {
    var init := run[..|run| - 1];
    assert run == init + [run[|run| - 1]];
    if d == run[|run| - 1] {
    } else {
      AddedMember(init, d, r);
    }
  }

  // ----- When a pass leaves areas that touch

  /** No two listed areas overlap or touch. */
  ghost predicate Separated(areas: seq<Rectangle>) {
    forall i, j | 0 <= i < j < |areas| :: !areas[i].OverlapOrTouching(areas[j])
  }

  /** The rectangle that the i-th area meets on the way along the list. */
  function Arriving(areas: seq<Rectangle>, i: nat, r: Rectangle): Rectangle
    requires i <= |areas|
  {
    Combined(areas[..i], r)
  }

  lemma ArrivingNext(areas: seq<Rectangle>, i: nat, r: Rectangle)
    requires 0 < i <= |areas|
    ensures Arriving(areas, i, r) ==
            Arriving(areas[1..], i - 1, if areas[0].OverlapOrTouching(r) then r.Extend(areas[0]) else r)
  {
    assert areas[..i][1..] == areas[1..][..i - 1];
  }

  /** Just those areas are kept that do not touch the rectangle when it arrives. */
  lemma {:induction false} KeptMembers(areas: seq<Rectangle>, r: Rectangle, a: Rectangle)
    ensures a in Kept(areas, r) <==>
            exists i :: 0 <= i < |areas| && areas[i] == a && !a.OverlapOrTouching(Arriving(areas, i, r))
  {
    if areas == [] {
    } else {
      var next := if areas[0].OverlapOrTouching(r) then r.Extend(areas[0]) else r;
      KeptMembers(areas[1..], next, a);
      assert Arriving(areas, 0, r) == r;
      forall i | 0 < i < |areas|
        ensures Arriving(areas, i, r) == Arriving(areas[1..], i - 1, next) && areas[i] == areas[1..][i - 1]
      {
        ArrivingNext(areas, i, r);
      }
      if i :| 0 <= i < |areas[1..]| && areas[1..][i] == a && !a.OverlapOrTouching(Arriving(areas[1..], i, next)) {
        assert areas[i + 1] == a && !a.OverlapOrTouching(Arriving(areas, i + 1, r));
      }
    }
  }

  lemma {:induction false} KeptSeparated(areas: seq<Rectangle>, r: Rectangle)
    requires Separated(areas)
    ensures Separated(Kept(areas, r)) && forall a | a in Kept(areas, r) :: a in areas
  {
    if areas == [] {
    } else {
      KeptSeparated(areas[1..], if areas[0].OverlapOrTouching(r) then r.Extend(areas[0]) else r);
      forall a | a in areas[1..]
        ensures !areas[0].OverlapOrTouching(a)
      {
        var i :| 0 <= i < |areas[1..]| && areas[1..][i] == a;
        assert areas[i + 1] == a;
      }
    }
  }

  predicate AllOrdered(areas: seq<Rectangle>) {
    forall a | a in areas :: a.Ordered()
  }

  lemma {:induction false} ArrivingOrdered(areas: seq<Rectangle>, i: nat, r: Rectangle)
    requires AllOrdered(areas) && r.Ordered() && i <= |areas|
    ensures Arriving(areas, i, r).Ordered()
    decreases i
  {
    if i == 0 {
    } else {
      ArrivingNext(areas, i, r);
      ArrivingOrdered(areas[1..], i - 1, if areas[0].OverlapOrTouching(r) then r.Extend(areas[0]) else r);
    }
  }

  /** The area has no point in common with the rectangle that meets it. */
  ghost predicate ApartOnArrival(areas: seq<Rectangle>, r: Rectangle, a: Rectangle) {
    exists i :: 0 <= i < |areas| && areas[i] == a && !SharePoint(a, Arriving(areas, i, r))
  }

  /** Just such areas are kept. */
  lemma KeptApart(areas: seq<Rectangle>, r: Rectangle, a: Rectangle)
    requires AllOrdered(areas) && r.Ordered()
    ensures a in Kept(areas, r) <==> ApartOnArrival(areas, r, a)
  {
    hide Arriving, SharePoint;
    KeptMembers(areas, r, a);
    forall i | 0 <= i < |areas|
      ensures areas[i].OverlapOrTouching(Arriving(areas, i, r)) <==> SharePoint(areas[i], Arriving(areas, i, r))
    {
      ArrivingOrdered(areas, i, r);
      TouchIffSharePoint(areas[i], Arriving(areas, i, r));
    }
  }

  /** After a pass just those areas are still listed, before the grown rectangle. */
  ghost predicate LeavesApart(before: seq<Rectangle>, r: Rectangle, after: seq<Rectangle>) {
    && after != []
    && forall a :: a in after[..|after| - 1] <==> ApartOnArrival(before, r, a)
  }

  lemma MergeLeavesApart(areas: seq<Rectangle>, r: Rectangle)
    requires AllOrdered(areas) && r.Ordered()
    ensures LeavesApart(areas, r, Merge(areas, r))
  {
    hide Kept, Combined, AllOrdered, ApartOnArrival;
    forall a
      ensures a in Kept(areas, r) <==> ApartOnArrival(areas, r, a)
    {
      KeptApart(areas, r, a);
    }
    assert Merge(areas, r)[..|Merge(areas, r)| - 1] == Kept(areas, r);
  }

  /** A pass over separate areas leaves separate areas exactly when the box never grows into an area that it
      had already passed. */
  lemma MergeSeparatedIff(areas: seq<Rectangle>, r: Rectangle)
    requires Separated(areas)
    ensures Separated(Merge(areas, r)) <==>
            forall i | 0 <= i < |areas| && areas[i].OverlapOrTouching(Combined(areas, r)) ::
              areas[i].OverlapOrTouching(Arriving(areas, i, r))
  {
    var kept, box := Kept(areas, r), Combined(areas, r);
    KeptSeparated(areas, r);
    forall i | 0 <= i < |areas|
      ensures !areas[i].OverlapOrTouching(Arriving(areas, i, r)) ==> areas[i] in kept
    {
      KeptMembers(areas, r, areas[i]);
    }
    forall k | 0 <= k < |kept|
      ensures exists i :: 0 <= i < |areas| && areas[i] == kept[k] && !kept[k].OverlapOrTouching(Arriving(areas, i, r))
    {
      KeptMembers(areas, r, kept[k]);
    }
    SeparatedAppend(kept, box);
  }

  lemma SeparatedAppend(areas: seq<Rectangle>, r: Rectangle)
    requires Separated(areas)
    ensures Separated(areas + [r]) <==> forall a | a in areas :: !a.OverlapOrTouching(r)
  {
    var all := areas + [r];
    if Separated(all) {
      forall a | a in areas
        ensures !a.OverlapOrTouching(r)
      {
        var i :| 0 <= i < |areas| && areas[i] == a;
        assert all[i] == a && all[|areas|] == r;
      }
    }
  }

  /** So one pass may leave areas that touch: here the box grows at the second area, when the first was
      already passed. */
  lemma PassLeavesTouchingAreas()
    ensures var a, b, r := At(0, 0, 10, 15), At(5, 20, 20, 5), At(20, 12, 10, 10);
            var grown := At(5, 12, 25, 13);
            Separated([a, b]) && Merge([a, b], r) == [a, grown] && !Separated(Merge([a, b], r))
  {
    var a, b, r := At(0, 0, 10, 15), At(5, 20, 20, 5), At(20, 12, 10, 10);
    assert [a, b][1..] == [b] && [b][1..] == [];
    assert Kept([b], r) == [];
    assert Kept([a, b], r) == [a];
    assert Combined([b], r) == At(5, 12, 25, 13);
    assert Combined([a, b], r) == At(5, 12, 25, 13);
    assert a.OverlapOrTouching(Merge([a, b], r)[1]) && Merge([a, b], r)[0] == a;
  }

  // ----- The class

  /** `WebXWindowDamage`: the list is merged and erased in place. */
  class WindowDamage {
    const window: nat
    var areas: seq<Rectangle>
    var full: bool

    constructor (window: nat)
      ensures this.window == window && State() == NO_DAMAGE
    {
      this.window, areas, full := window, [], false;
    }

    constructor OfArea(window: nat, area: Rectangle, full: bool)
      ensures this.window == window && State() == Damage([area], full)
    {
      this.window, areas, this.full := window, [area], full;
    }

    function State(): Damage
      reads this
    {
      Damage(areas, full)
    }

    /** `addDamageRecange`. */
    method AddRectangle(r: Rectangle)
      modifies this
      ensures full == old(full)
      ensures areas == if full then old(areas) else Merge(old(areas), r)
      ensures !full && AllOrdered(old(areas)) && r.Ordered() ==>
                LeavesApart(old(areas), r, areas)
    {
      if full {
        return;
      }
      hide Passing, Merge, AllOrdered, LeavesApart;
      var combined := r;
      var at := 0;
      PassStarts(areas, r);
      while at != |areas|
        invariant 0 <= at <= |areas| && full == old(full) && Passing(areas, at, combined, old(areas), r)
        decreases |areas| - at
      {
        PassNext(areas, at, combined, old(areas), r);
        var existing := areas[at];
        if existing.OverlapOrTouching(combined) {
          combined := combined.Extend(existing);
          areas := areas[..at] + areas[at + 1..];
        } else {
          at := at + 1;
        }
      }
      PassEnds(areas, combined, old(areas), r);
      areas := areas + [combined];
      if AllOrdered(old(areas)) && r.Ordered() {
        MergeLeavesApart(old(areas), r);
      }
    }

    /** `operator+=`.  Adding damage to itself is defined only where the list is not gone through: else the
        loop would erase from it. */
    method Add(other: WindowDamage)
      requires other != this || full || areas == []
      modifies this
      ensures State() == old(State()).Plus(old(other.State()))
    {
      hide AllOrdered, LeavesApart, Merge;
      if full {
      } else if other.full {
        areas := [];
        full := true;
      } else {
        for k := 0 to |other.areas|
          invariant other != this || k == |other.areas| == 0
          invariant !full && !other.full && areas == MergeAll(old(areas), other.areas[..k])
          invariant other.areas == old(other.areas)
        {
          assert other.areas[..k + 1][..k] == other.areas[..k];
          AddRectangle(other.areas[k]);
        }
        assert other.areas[..|other.areas|] == other.areas;
      }
    }

    method Reset()
      modifies this
      ensures State() == NO_DAMAGE
    {
      areas, full := [], false;
    }

    /** The one-argument `isFullWindow`. */
    method IsFullWindow(width: int, height: int) returns (r: bool)
      ensures r <==> full || exists a :: areas == [a] && a.Width() == width && a.Height() == height
    {
      if full {
        return true;
      }
      if |areas| != 1 {
        return false;
      }
      assert areas == [areas[0]];
      r := areas[0].Width() == width && areas[0].Height() == height;
    }

    /** `getDamagedArea`. */
    method DamagedArea() returns (area: int)
      ensures area == TotalArea(areas)
    {
      area := 0;
      for k := 0 to |areas|
        invariant area == TotalArea(areas[..k])
      {
        assert areas[..k + 1][..k] == areas[..k];
        area := area + areas[k].Area();
      }
      assert areas[..|areas|] == areas;
    }
  }

  function TotalArea(areas: seq<Rectangle>): int {
    if areas == [] then 0 else TotalArea(areas[..|areas| - 1]) + areas[|areas| - 1].Area()
  }

  /** Areas count each for itself, however the list is cut. */
  lemma {:induction false} TotalAreaConcat(a: seq<Rectangle>, b: seq<Rectangle>)
    ensures TotalArea(a + b) == TotalArea(a) + TotalArea(b)
    ensures |b| == 1 ==> TotalArea(b) == (b[0].right - b[0].left) * (b[0].top - b[0].bottom)
  {
    if b == [] {
      assert a + b == a;
    } else {
      assert (a + b)[..|a + b| - 1] == a + b[..|b| - 1];
      TotalAreaConcat(a, b[..|b| - 1]);
    }
  }
}
