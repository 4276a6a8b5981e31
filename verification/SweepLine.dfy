/** `OverlapCalc` itself: the sweep over the sorted edges, proved against the geometry. */
module SweepLine {
  import opened Rectangles
  import opened WindowCoverage
  import opened CoverageGeometry
  import Sequences

  datatype Coverage = Coverage(coverage: real, mouseOver: bool)

  // ----- The state between two events

  /** The sorted events of positive clips that lie within the window. */
  ghost predicate Setting(base: Rectangle, cs: seq<Clip>, sorted: seq<Event>) {
    && AllValid(cs)
    && (forall c | c in cs :: base.left <= c.left && c.right <= base.right)
    && IsArrangement(Events(cs), sorted)
  }

  ghost function Previous(base: Rectangle, sorted: seq<Event>, i: nat): int
    requires i <= |sorted|
  {
    if i == 0 then base.left else sorted[i - 1].x
  }

  /** How often v was entered and not yet left after i events. */
  ghost function Net(base: Rectangle, sorted: seq<Event>, i: nat, v: Interval): int
    requires i <= |sorted|
  {
    Count(sorted[..i], v, true, base.right) - Count(sorted[..i], v, false, base.right)
  }

  ghost predicate Tracks(base: Rectangle, sorted: seq<Event>, i: nat, active: seq<Interval>)
    requires i <= |sorted|
  {
    Sorted(active) && forall v :: multiset(active)[v] == Net(base, sorted, i, v)
  }

  lemma {:induction false} EventsMembers(cs: seq<Clip>, e: Event)
    ensures e in Events(cs) <==> exists c :: c in cs && (e == Enter(c) || e == Leave(c))
  {
    if cs == [] {
    } else {
      EventsMembers(cs[..|cs| - 1], e);
      assert cs == cs[..|cs| - 1] + [cs[|cs| - 1]];
    }
  }

  lemma SortedMembers(base: Rectangle, cs: seq<Clip>, sorted: seq<Event>, e: Event)
    requires Setting(base, cs, sorted)
    ensures e in sorted <==> exists c :: c in cs && (e == Enter(c) || e == Leave(c))
    ensures e in sorted ==> base.left <= e.x <= base.right
  {
    EventsMembers(cs, e);
    assert e in sorted <==> e in multiset(sorted);
    assert e in Events(cs) <==> e in multiset(Events(cs));
    if e in sorted {
      var c :| c in cs && (e == Enter(c) || e == Leave(c));
      assert c.Valid();
    }
  }

  lemma WithinWindow(base: Rectangle, cs: seq<Clip>, sorted: seq<Event>)
    requires Setting(base, cs, sorted)
    ensures SortedByX(sorted) && multiset(Events(cs)) == multiset(sorted)
    ensures forall e | e in sorted :: base.left <= e.x <= base.right
  {
    forall e | e in sorted
      ensures base.left <= e.x <= base.right
    {
      SortedMembers(base, cs, sorted, e);
    }
  }

  /** Where the events split at x = limit, exactly the clips that cover column `limit` are open. */
  lemma NetAt(base: Rectangle, cs: seq<Clip>, sorted: seq<Event>, i: nat, v: Interval, limit: int)
    requires Setting(base, cs, sorted) && i <= |sorted| && limit <= base.right
    requires forall e | e in sorted[..i] :: e.x <= limit
    requires forall e | e in sorted[i..] :: e.x > limit
    ensures Net(base, sorted, i, v) == LeftEdges(cs, v, limit) - RightEdges(cs, v, limit)
  {
    WithinWindow(base, cs, sorted);
    CountPrefix(sorted, i, v, true, limit, base.right);
    CountPrefix(sorted, i, v, false, limit, base.right);
    CountPermuted(Events(cs), sorted, v, true, limit);
    CountPermuted(Events(cs), sorted, v, false, limit);
    CountEvents(cs, v, limit);
  }

  lemma SplitAt(sorted: seq<Event>, i: nat, limit: int)
    requires SortedByX(sorted) && i <= |sorted|
    requires i > 0 ==> sorted[i - 1].x <= limit
    requires i < |sorted| ==> limit < sorted[i].x
    ensures forall e | e in sorted[..i] :: e.x <= limit
    ensures forall e | e in sorted[i..] :: e.x > limit
  {
  }

  /** Between two events the active intervals are those of every column there. */
  lemma StripActive(base: Rectangle, cs: seq<Clip>, sorted: seq<Event>, i: nat, active: seq<Interval>, x: int)
    requires Setting(base, cs, sorted) && i <= |sorted| && Tracks(base, sorted, i, active)
    requires Previous(base, sorted, i) <= x <= base.right && (i < |sorted| ==> x < sorted[i].x)
    ensures active == ActiveAt(cs, x)
  {
    SplitAt(sorted, i, x);
    forall v
      ensures multiset(active)[v] == multiset(ActiveAt(cs, x))[v]
    {
      NetAt(base, cs, sorted, i, v, x);
      ActiveCount(cs, x, v);
    }
    ActiveSorted(cs, x);
    SortedUnique(active, ActiveAt(cs, x));
  }

  /** A leaving edge always finds its interval, in whatever order equal edges were sorted. */
  lemma LeaveFindsInterval(base: Rectangle, cs: seq<Clip>, sorted: seq<Event>, i: nat)
    requires Setting(base, cs, sorted) && i < |sorted| && !sorted[i].entering
    ensures Net(base, sorted, i, sorted[i].interval) >= 1
  {
    var e := sorted[i];
    var v, x := e.interval, e.x;
    forall e' | e' in sorted
      ensures e'.x <= base.right
    {
      SortedMembers(base, cs, sorted, e');
    }
    assert sorted[..i + 1] == sorted[..i] + [e];
    CountConcat(sorted[..i], [e], v, false, base.right);
    assert [e][..0] == [];
    CountPrefix(sorted, i + 1, v, false, x, base.right);
    CountPrefix(sorted, i, v, true, x - 1, base.right);
    CountPermuted(Events(cs), sorted, v, true, x - 1);
    CountPermuted(Events(cs), sorted, v, false, x);
    CountEvents(cs, v, x - 1);
    CountEvents(cs, v, x);
    EdgesOrdered(cs, v, x);
  }

  lemma NetNext(base: Rectangle, cs: seq<Clip>, sorted: seq<Event>, i: nat, v: Interval)
    requires Setting(base, cs, sorted) && i < |sorted|
    ensures var e := sorted[i];
            Net(base, sorted, i + 1, v) ==
            Net(base, sorted, i, v) + if v != e.interval then 0 else if e.entering then 1 else -1
  {
    var e := sorted[i];
    SortedMembers(base, cs, sorted, e);
    assert sorted[..i + 1] == sorted[..i] + [e] && [e][..0] == [];
    CountConcat(sorted[..i], [e], v, true, base.right);
    CountConcat(sorted[..i], [e], v, false, base.right);
  }

  lemma EnterTracks(base: Rectangle, cs: seq<Clip>, sorted: seq<Event>, i: nat, active: seq<Interval>)
    requires Setting(base, cs, sorted) && i < |sorted| && Tracks(base, sorted, i, active) && sorted[i].entering
    ensures Tracks(base, sorted, i + 1, Insert(active, sorted[i].interval))
  {
    hide Net, Setting;
    InsertContents(active, sorted[i].interval);
    InsertSorted(active, sorted[i].interval);
    forall v
      ensures multiset(Insert(active, sorted[i].interval))[v] == Net(base, sorted, i + 1, v)
    {
      NetNext(base, cs, sorted, i, v);
    }
  }

  lemma LeaveTracks(base: Rectangle, cs: seq<Clip>, sorted: seq<Event>, i: nat, active: seq<Interval>)
    requires Setting(base, cs, sorted) && i < |sorted| && Tracks(base, sorted, i, active) && !sorted[i].entering
    ensures sorted[i].interval in active
    ensures Tracks(base, sorted, i + 1, Erase(active, sorted[i].interval))
  {
    hide Net, Setting;
    LeaveFindsInterval(base, cs, sorted, i);
    assert sorted[i].interval in multiset(active);
    EraseContents(active, sorted[i].interval);
    EraseSorted(active, sorted[i].interval);
    forall v
      ensures multiset(Erase(active, sorted[i].interval))[v] == Net(base, sorted, i + 1, v)
    {
      NetNext(base, cs, sorted, i, v);
    }
  }

  // ----- The area

  lemma {:induction false} StripArea(cs: seq<Clip>, start: int, from: int, end: int, height: int)
    requires start <= from <= end
    requires forall x | from <= x < end :: Height(ActiveAt(cs, x), 0) == height
    ensures SweptArea(cs, start, end) == SweptArea(cs, start, from) + height * (end - from)
    decreases end - from
  {
    hide Height, ActiveAt;
    if from == end {
    } else {
      StripArea(cs, start, from, end - 1, height);
      assert height * (end - from) == height * (end - 1 - from) + height;
    }
  }

  // ----- The mouse

  /** The closed interval of heights the sweep tests. */
  predicate Touches(v: Interval, y: int) { v.y1 <= y <= v.y2 }

  /** The sweep's test of one strip, over the ordered active intervals. */
  function Seen(s: seq<Interval>, lastY: int, mouseY: int): bool {
    s != [] &&
    ((s[0].y2 >= mouseY && Max(lastY, s[0].y1) <= mouseY) || Seen(s[1..], Max(lastY, s[0].y2), mouseY))
  }

  /** Nested intervals do not mislead the test. */
  lemma {:induction false} SeenIffTouched(s: seq<Interval>, lastY: int, mouseY: int)
    requires Sorted(s)
    ensures Seen(s, lastY, mouseY) <==> lastY <= mouseY && exists v :: v in s && Touches(v, mouseY)
  {
    if s == [] {
    } else {
      SeenIffTouched(s[1..], Max(lastY, s[0].y2), mouseY);
      assert s == [s[0]] + s[1..];
      if lastY <= mouseY && exists v :: v in s && Touches(v, mouseY) {
        var v :| v in s && Touches(v, mouseY);
        SortedFirst(s, v);
        if s[0].y2 < mouseY {
          assert v in s[1..];
        }
      } else if Seen(s, lastY, mouseY) {
        assert s[0] in s;
      }
    }
  }

  /** Step i of the sweep covers the mouse column with an active interval at the mouse's height. */
  ghost predicate Hits(base: Rectangle, sorted: seq<Event>, i: nat, mouseX: int, mouseY: int)
    requires i < |sorted|
  {
    && Previous(base, sorted, i) <= mouseX <= sorted[i].x
    && exists v :: Net(base, sorted, i, v) >= 1 && Touches(v, mouseY)
  }

  ghost predicate SomeHit(base: Rectangle, sorted: seq<Event>, end: nat, mouseX: int, mouseY: int)
    requires end <= |sorted|
  {
    exists i :: 0 <= i < end && Hits(base, sorted, i, mouseX, mouseY)
  }

  /** The closed clip contains the mouse. */
  predicate ClipHasMouse(c: Clip, mouseX: int, mouseY: int) {
    c.left <= mouseX <= c.right && Touches(c.interval, mouseY)
  }

  lemma StepSplits(base: Rectangle, sorted: seq<Event>, i: nat)
    requires SortedByX(sorted) && i < |sorted|
    ensures forall e | e in sorted[..i] :: e.x <= Previous(base, sorted, i)
    ensures forall e | e in sorted[i..] :: e.x > sorted[i].x - 1
  {
  }

  /** An interval active at a step was entered before the step and not left before it. */
  lemma OpenAcross(base: Rectangle, cs: seq<Clip>, sorted: seq<Event>, i: nat, v: Interval)
    requires Setting(base, cs, sorted) && i < |sorted| && Net(base, sorted, i, v) >= 1
    requires base.left <= base.right
    ensures LeftEdges(cs, v, Previous(base, sorted, i)) > RightEdges(cs, v, sorted[i].x - 1)
  {
    hide Setting, Events, SortedByX, Count, LeftEdges, RightEdges;
    var p, x := Previous(base, sorted, i), sorted[i].x;
    WithinWindow(base, cs, sorted);
    StepSplits(base, sorted, i);
    CountPrefix(sorted, i, v, true, p, base.right);
    CountPrefix(sorted, i, v, false, x - 1, base.right);
    CountPermuted(Events(cs), sorted, v, true, p);
    CountPermuted(Events(cs), sorted, v, false, x - 1);
    CountEvents(cs, v, p);
    CountEvents(cs, v, x - 1);
  }

  lemma HitHasClip(base: Rectangle, cs: seq<Clip>, sorted: seq<Event>, i: nat, mouseX: int, mouseY: int)
    requires Setting(base, cs, sorted) && i < |sorted| && Hits(base, sorted, i, mouseX, mouseY)
    ensures exists c :: c in cs && ClipHasMouse(c, mouseX, mouseY)
  {
    var v :| Net(base, sorted, i, v) >= 1 && Touches(v, mouseY);
    SortedMembers(base, cs, sorted, sorted[i]);
    OpenAcross(base, cs, sorted, i, v);
    EdgeWitness(cs, v, Previous(base, sorted, i), sorted[i].x - 1);
    var c :| c in cs && c.interval == v && c.left <= Previous(base, sorted, i) && c.right > sorted[i].x - 1;
    assert ClipHasMouse(c, mouseX, mouseY);
  }

  lemma FirstBeyond(sorted: seq<Event>, limit: int) returns (k: nat)
    requires exists e :: e in sorted && e.x > limit
    ensures k < |sorted| && sorted[k].x > limit
    ensures k > 0 ==> sorted[k - 1].x <= limit
  {
    k := 0;
    while sorted[k].x <= limit
      invariant k < |sorted|
      invariant forall j | 0 <= j < k :: sorted[j].x <= limit
      invariant exists e :: e in sorted && e.x > limit
      decreases |sorted| - k
    {
      k := k + 1;
    }
  }

  lemma ClipIsHit(base: Rectangle, cs: seq<Clip>, sorted: seq<Event>, c: Clip, mouseX: int, mouseY: int)
    requires Setting(base, cs, sorted) && c in cs && ClipHasMouse(c, mouseX, mouseY)
    ensures SomeHit(base, sorted, |sorted|, mouseX, mouseY)
  {
    // a column of the clip next to the mouse
    var x := if mouseX < c.right then mouseX else mouseX - 1;
    assert c.Valid() && c.Covers(x);
    SortedMembers(base, cs, sorted, Leave(c));
    assert Leave(c) in sorted && Leave(c).x > x;
    var k := FirstBeyond(sorted, x);
    SplitAt(sorted, k, x);
    NetAt(base, cs, sorted, k, c.interval, x);
    ActiveCount(cs, x, c.interval);
    ActiveMember(cs, x, c.interval);
    assert c.interval in multiset(ActiveAt(cs, x));
    assert Net(base, sorted, k, c.interval) >= 1;
    assert Hits(base, sorted, k, mouseX, mouseY);
  }

  lemma HitsIffClip(base: Rectangle, cs: seq<Clip>, sorted: seq<Event>, mouseX: int, mouseY: int)
    requires Setting(base, cs, sorted)
    ensures SomeHit(base, sorted, |sorted|, mouseX, mouseY) <==> exists c :: c in cs && ClipHasMouse(c, mouseX, mouseY)
  {
    if SomeHit(base, sorted, |sorted|, mouseX, mouseY) {
      var i :| 0 <= i < |sorted| && Hits(base, sorted, i, mouseX, mouseY);
      HitHasClip(base, cs, sorted, i, mouseX, mouseY);
    }
    if c :| c in cs && ClipHasMouse(c, mouseX, mouseY) {
      ClipIsHit(base, cs, sorted, c, mouseX, mouseY);
    }
  }

  lemma SeenIsHit(base: Rectangle, sorted: seq<Event>, i: nat, active: seq<Interval>, mouseX: int, mouseY: int)
    requires i < |sorted| && Tracks(base, sorted, i, active)
    ensures Previous(base, sorted, i) <= mouseX <= sorted[i].x && Seen(active, 0, mouseY)
            <==> mouseY >= 0 && Hits(base, sorted, i, mouseX, mouseY)
  {
    hide Net;
    SeenIffTouched(active, 0, mouseY);
    assert forall v :: v in active <==> v in multiset(active);
  }

  // ----- The calculation

  method CollectEvents(base: Rectangle, rects: seq<Rectangle>) returns (events: seq<Event>)
    ensures events == Events(Clips(base, rects))
  {
    events := [];
    for k := 0 to |rects|
      invariant events == Events(Clips(base, rects[..k]))
    {
      assert rects[..k + 1][..k] == rects[..k];
      var rect := rects[k];
      if base.Overlap(rect) {
        ghost var cs := Clips(base, rects[..k]);
        assert (cs + [ClipTo(base, rect)])[..|cs|] == cs;
        var y1, y2 := Max(rect.bottom, base.bottom), Min(rect.top, base.top);
        events := events + [Event(Max(rect.left, base.left), Interval(y1, y2), true),
                            Event(Min(rect.right, base.right), Interval(y1, y2), false)];
      }
    }
    assert rects[..|rects|] == rects;
  }

  lemma EventPlaced(sorted: seq<Event>, at: nat, e: Event)
    requires SortedByX(sorted) && at <= |sorted| && (forall j | 0 <= j < at :: sorted[j].x <= e.x)
    requires at < |sorted| ==> e.x < sorted[at].x
    ensures SortedByX(sorted[..at] + [e] + sorted[at..])
  {
  }

  method InsertEvent(sorted: seq<Event>, e: Event) returns (r: seq<Event>)
    requires SortedByX(sorted)
    ensures SortedByX(r) && multiset(r) == multiset(sorted) + multiset{e}
  {
    hide SortedByX;
    var at := 0;
    while at < |sorted| && sorted[at].x <= e.x
      invariant 0 <= at <= |sorted|
      invariant forall j | 0 <= j < at :: sorted[j].x <= e.x
    {
      at := at + 1;
    }
    EventPlaced(sorted, at, e);
    Sequences.InsertedMultiset(sorted, at, e);
    r := sorted[..at] + [e] + sorted[at..];
  }

  /** Sorts by x alone; callers learn nothing about the order of equal x. */
  method SortEvents(events: seq<Event>) returns (sorted: seq<Event>)
    ensures IsArrangement(events, sorted)
  {
    sorted := [];
    for k := 0 to |events|
      invariant IsArrangement(events[..k], sorted)
    {
      assert events[..k + 1] == events[..k] + [events[k]];
      sorted := InsertEvent(sorted, events[k]);
    }
    assert events[..|events|] == events;
  }

  /** The loop over the active intervals of one strip. */
  method SweepStrip(active: seq<Interval>, prevX: int, currentX: int, mouseX: int, mouseY: int, mouseBefore: bool)
    returns (coveredHeight: int, mouseOver: bool)
    ensures coveredHeight == Height(active, 0)
    ensures Sorted(active) && Proper(active) ==>
              coveredHeight == |UnionFrom(active, 0)| - Missed(active, 0, |active|)
    ensures mouseOver == (mouseBefore && !(prevX <= mouseX <= currentX && Seen(active, 0, mouseY)))
  {
    coveredHeight, mouseOver := 0, mouseBefore;
    var lastY := 0;
    for j := 0 to |active|
      invariant coveredHeight + Height(active[j..], lastY) == Height(active, 0)
      invariant (mouseOver && !(prevX <= mouseX <= currentX && Seen(active[j..], lastY, mouseY)))
                == (mouseBefore && !(prevX <= mouseX <= currentX && Seen(active, 0, mouseY)))
    {
      var y1, y2 := active[j].y1, active[j].y2;
      var lowerY := if lastY < y1 then y1 else lastY;
      coveredHeight := coveredHeight + (y2 - lowerY);
      if currentX >= mouseX && prevX <= mouseX && y2 >= mouseY && lowerY <= mouseY {
        mouseOver := false;
      }
      assert active[j..][1..] == active[j + 1..];
      lastY := Max(lastY, y2);
    }
    if Sorted(active) && Proper(active) {
      HeightShortfall(active, 0);
    }
  }

  /** The loop over the sorted events. */
  method Sweep(base: Rectangle, ghost cs: seq<Clip>, sorted: seq<Event>, mouseX: int, mouseY: int)
    returns (coveredArea: int, mouseOver: bool)
    requires base.Positive() && Setting(base, cs, sorted)
    ensures coveredArea == SweptArea(cs, base.left, base.right)
    ensures mouseOver <==>
            && base.HasPoint(mouseX, mouseY)
            && !(mouseY >= 0 && SomeHit(base, sorted, |sorted|, mouseX, mouseY))
  {
    hide Setting, Tracks, Hits, Height, SweptArea, Seen, SomeHit;
    var prevX := base.left;
    coveredArea := 0;
    var active: seq<Interval> := [];
    mouseOver := base.right >= mouseX && base.left <= mouseX && base.top >= mouseY && base.bottom <= mouseY;
    ghost var inside := mouseOver;
    StartSweep(base, cs, sorted, mouseX, mouseY);
    for i := 0 to |sorted|
      invariant Tracks(base, sorted, i, active) && prevX == Previous(base, sorted, i)
      invariant coveredArea == SweptArea(cs, base.left, prevX)
      invariant mouseOver == (inside && !(mouseY >= 0 && SomeHit(base, sorted, i, mouseX, mouseY)))
    {
      var event := sorted[i];
      var currentX := event.x;
      var coveredHeight;
      coveredHeight, mouseOver := SweepStrip(active, prevX, currentX, mouseX, mouseY, mouseOver);
      SeenIsHit(base, sorted, i, active, mouseX, mouseY);
      SomeHitNext(base, sorted, i, mouseX, mouseY);
      StripAdds(base, cs, sorted, i, active);
      coveredArea := coveredArea + coveredHeight * (currentX - prevX);
      prevX := currentX;
      if event.entering {
        EnterTracks(base, cs, sorted, i, active);
        active := Insert(active, event.interval);
      } else {
        LeaveTracks(base, cs, sorted, i, active);
        active := Erase(active, event.interval);
      }
    }
    LastStrip(base, cs, sorted);
  }

  /** The mouse is in the closed window. */
  predicate MouseInside(base: Rectangle, mouseX: int, mouseY: int) { base.HasPoint(mouseX, mouseY) }

  /** The mouse is in a closed rectangle that overlaps the window. */
  ghost predicate Hidden(base: Rectangle, rects: seq<Rectangle>, mouseX: int, mouseY: int) {
    exists o :: o in rects && base.Overlap(o) && o.HasPoint(mouseX, mouseY)
  }

  /** `OverlapCalc`, for a window that has an area and covering rectangles that have a width.  The mouse is found
      rightly unless it is below y = 0 and hidden there: the gaps of a column are searched from 0 upwards. */
  method OverlapCalc(base: Rectangle, rects: seq<Rectangle>, mouseX: int, mouseY: int) returns (r: Coverage)
    requires base.Positive() && AllWide(rects)
    ensures r.coverage == SweptArea(Clips(base, rects), base.left, base.right) as real / base.Area() as real
    ensures r.coverage ==
            (|CoveredCells(base, rects)| - Shortfall(base, rects, base.right)) as real / base.Area() as real
    ensures r.coverage <= |CoveredCells(base, rects)| as real / base.Area() as real <= 1.0
    ensures r.coverage == |CoveredCells(base, rects)| as real / base.Area() as real <==> AreaExact(base, rects)
    ensures r.mouseOver <==> MouseInside(base, mouseX, mouseY) && (mouseY < 0 || !Hidden(base, rects, mouseX, mouseY))
    ensures (r.mouseOver <==> MouseInside(base, mouseX, mouseY) && !Hidden(base, rects, mouseX, mouseY)) <==>
            !(mouseY < 0 && MouseInside(base, mouseX, mouseY) && Hidden(base, rects, mouseX, mouseY))
  {
    hide Clips, ClipTo, SweptArea, CoveredCells, Shortfall, AreaExact, ClipHasMouse, SomeHit, Events, IsArrangement;
    ghost var cs := Clips(base, rects);
    ClipsValid(base, rects);
    var events := CollectEvents(base, rects);
    var sorted := SortEvents(events);
    var coveredArea, mouseOver := Sweep(base, cs, sorted, mouseX, mouseY);
    HitsIffClip(base, cs, sorted, mouseX, mouseY);
    if MouseInside(base, mouseX, mouseY) {
      ClipsHaveMouse(base, rects, mouseX, mouseY);
    }
    SweptAreaAgainstCells(base, rects);
    RatioAgainst(coveredArea, |CoveredCells(base, rects)|, base.Area());
    r := Coverage(coveredArea as real / base.Area() as real, mouseOver);
  }

  lemma InputBelowZero(base: Rectangle)
    requires base == At(0, -10, 10, 20)
    ensures base.Positive() && AllWide([base]) && MouseInside(base, 5, -5) && Hidden(base, [base], 5, -5)
  {
    assert base in [base] && base.Overlap(base) && base.HasPoint(5, -5);
  }

  /** An input for which the test of the mouse is wrong: a mouse below y = 0, on a window that is wholly
      covered by another, is reported as visible. */
  method HiddenBelowZero() returns (r: Coverage)
    ensures var base := At(0, -10, 10, 20);
            MouseInside(base, 5, -5) && Hidden(base, [base], 5, -5) && r.mouseOver
  {
    hide *;
    var base := At(0, -10, 10, 20);
    InputBelowZero(base);
    r := OverlapCalc(base, [base], 5, -5);
  }

  lemma StartSweep(base: Rectangle, cs: seq<Clip>, sorted: seq<Event>, mouseX: int, mouseY: int)
    ensures Tracks(base, sorted, 0, []) && SweptArea(cs, base.left, base.left) == 0
    ensures !SomeHit(base, sorted, 0, mouseX, mouseY)
  {
  }

  lemma SomeHitNext(base: Rectangle, sorted: seq<Event>, i: nat, mouseX: int, mouseY: int)
    requires i < |sorted|
    ensures SomeHit(base, sorted, i + 1, mouseX, mouseY) <==>
            SomeHit(base, sorted, i, mouseX, mouseY) || Hits(base, sorted, i, mouseX, mouseY)
  {
  }

  /** The product added for one event is the swept area of its strip. */
  lemma StripAdds(base: Rectangle, cs: seq<Clip>, sorted: seq<Event>, i: nat, active: seq<Interval>)
    requires Setting(base, cs, sorted) && i < |sorted| && Tracks(base, sorted, i, active)
    ensures var p, x := Previous(base, sorted, i), sorted[i].x;
            SweptArea(cs, base.left, x) == SweptArea(cs, base.left, p) + Height(active, 0) * (x - p)
  {
    var p, end := Previous(base, sorted, i), sorted[i].x;
    SortedMembers(base, cs, sorted, sorted[i]);
    if i > 0 {
      SortedMembers(base, cs, sorted, sorted[i - 1]);
    }
    forall x | p <= x < end
      ensures Height(ActiveAt(cs, x), 0) == Height(active, 0)
    {
      StripActive(base, cs, sorted, i, active, x);
    }
    StripArea(cs, base.left, p, end, Height(active, 0));
  }

  /** Beyond the last event nothing is covered. */
  lemma LastStrip(base: Rectangle, cs: seq<Clip>, sorted: seq<Event>)
    requires base.Positive() && Setting(base, cs, sorted)
    ensures SweptArea(cs, base.left, base.right) == SweptArea(cs, base.left, Previous(base, sorted, |sorted|))
  {
    var p := Previous(base, sorted, |sorted|);
    if |sorted| > 0 {
      SortedMembers(base, cs, sorted, sorted[|sorted| - 1]);
    }
    forall x | p <= x < base.right
      ensures Height(ActiveAt(cs, x), 0) == 0
    {
      if ActiveAt(cs, x) != [] {
        var v := ActiveAt(cs, x)[0];
        ActiveMember(cs, x, v);
        var c :| c in cs && c.Covers(x) && c.interval == v;
        SortedMembers(base, cs, sorted, Leave(c));
      }
    }
    StripArea(cs, base.left, p, base.right, 0);
  }

  lemma ClipsHaveMouse(base: Rectangle, rects: seq<Rectangle>, mouseX: int, mouseY: int)
    requires MouseInside(base, mouseX, mouseY)
    ensures (exists c :: c in Clips(base, rects) && ClipHasMouse(c, mouseX, mouseY)) <==>
            Hidden(base, rects, mouseX, mouseY)
  {
    hide Clips;
    if c :| c in Clips(base, rects) && ClipHasMouse(c, mouseX, mouseY) {
      ClipsMembers(base, rects, c);
    }
    if o :| o in rects && base.Overlap(o) && o.HasPoint(mouseX, mouseY) {
      ClipsMembers(base, rects, ClipTo(base, o));
      assert ClipHasMouse(ClipTo(base, o), mouseX, mouseY);
    }
  }

  lemma RatioAgainst(area: int, cells: int, total: int)
    requires area <= cells <= total && total > 0
    ensures area as real / total as real <= cells as real / total as real <= 1.0
    ensures area as real / total as real == cells as real / total as real <==> area == cells
  {
  }

  lemma ClipsAppend(base: Rectangle, rects: seq<Rectangle>, r: Rectangle)
    requires base.Overlap(r)
    ensures Clips(base, rects + [r]) == Clips(base, rects) + [ClipTo(base, r)]
  {
  }

  lemma ActiveAppend(cs: seq<Clip>, c: Clip, x: int)
    requires c.Covers(x)
    ensures ActiveAt(cs + [c], x) == Insert(ActiveAt(cs, x), c.interval)
  {
  }

  /** Where windows nest strictly the area is too small, and may even be negative: here the window
      is fully covered, and the sweep reports -4 of its 10 cells. */
  lemma NestedWindowsUndercount()
    ensures var base, rects := At(0, 0, 1, 10), [At(0, 0, 1, 10), At(0, 1, 1, 1), At(0, 3, 1, 1)];
            !AreaExact(base, rects) && SweptArea(Clips(base, rects), 0, 1) == -4
  {
    var base, r0, r1, r2 := At(0, 0, 1, 10), At(0, 0, 1, 10), At(0, 1, 1, 1), At(0, 3, 1, 1);
    var c0, c1, c2 := ClipTo(base, r0), ClipTo(base, r1), ClipTo(base, r2);
    ClipsAppend(base, [], r0);
    ClipsAppend(base, [r0], r1);
    ClipsAppend(base, [r0, r1], r2);
    assert [r0] + [r1] == [r0, r1] && [r0, r1] + [r2] == [r0, r1, r2];
    assert [] + [r0] == [r0] && Clips(base, [r0]) == [] + [c0] == [c0];
    ActiveAppend([], c0, 0);
    ActiveAppend([c0], c1, 0);
    ActiveAppend([c0, c1], c2, 0);
    assert [] + [c0] == [c0] && [c0] + [c1] == [c0, c1] && [c0, c1] + [c2] == [c0, c1, c2];
    ThreeHeights();
    assert !PairExact(c0, c1) && r0 in [r0, r1, r2] && r1 in [r0, r1, r2];
  }

  lemma ThreeHeights()
    ensures var a, b, c := Interval(0, 10), Interval(1, 2), Interval(3, 4);
            Insert([a], b) == [a, b] && Insert([a, b], c) == [a, b, c] && Height([a, b, c], 0) == -4
  {
    var a, b, c := Interval(0, 10), Interval(1, 2), Interval(3, 4);
    assert [a, b][1..] == [b] && [a, b, c][1..] == [b, c] && [b, c][1..] == [c] && [c][1..] == [];
    assert Insert([b], c) == [b] + Insert([], c) == [b, c];
    assert Height([c], 10) == -6;
    assert Height([b, c], 10) == -14;
  }
}
