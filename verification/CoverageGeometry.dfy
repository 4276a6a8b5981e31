/** What the sweep's height formula measures: the covered cells of one column, and how far it falls
    short of them. */
module CoverageGeometry {
  import opened Rectangles
  import opened WindowCoverage

  /** The height the sweep adds up over the ordered active intervals. */
  function Height(s: seq<Interval>, lastY: int): int {
    if s == [] then 0
    else
      var lowerY := if lastY < s[0].y1 then s[0].y1 else lastY;
      (s[0].y2 - lowerY) + Height(s[1..], Max(lastY, s[0].y2))
  }

  predicate Holds(v: Interval, y: int) { v.y1 <= y < v.y2 }

  predicate Proper(s: seq<Interval>) {
    forall v | v in s :: v.y1 <= v.y2
  }

  /** The cells of a column that the intervals cover, from `lastY` up. */
  function UnionFrom(s: seq<Interval>, lastY: int): set<int> {
    if s == [] then {} else Span(Max(lastY, s[0].y1), s[0].y2) + UnionFrom(s[1..], Max(lastY, s[0].y2))
  }

  predicate Between(low: int, y: int, high: int) { low <= y < high }

  function Span(low: int, high: int): set<int> {
    set y | low <= y < high && Between(low, y, high)
  }

  lemma {:induction false} SpanSize(low: int, high: int)
    ensures |Span(low, high)| == Max(0, high - low)
    decreases high - low
  {
    if low < high {
      SpanSize(low, high - 1);
      assert Span(low, high) == Span(low, high - 1) + {high - 1};
    } else {
      assert Span(low, high) == {};
    }
  }

  lemma {:induction false} UnionFromMembers(s: seq<Interval>, lastY: int)
    requires Sorted(s)
    ensures forall y :: y in UnionFrom(s, lastY) <==> y >= lastY && exists v :: v in s && Holds(v, y)
  {
    if s == [] {
    } else {
      UnionFromMembers(s[1..], Max(lastY, s[0].y2));
      assert s == [s[0]] + s[1..];
      forall y
        ensures y in UnionFrom(s, lastY) <==> y >= lastY && exists v :: v in s && Holds(v, y)
      {
        if y in Span(Max(lastY, s[0].y1), s[0].y2) {
          assert s[0] in s && Holds(s[0], y);
        } else if y >= lastY && exists v :: v in s && Holds(v, y) {
          var v :| v in s && Holds(v, y);
          assert v in s[1..];
        }
      }
    }
  }

  /** No interval ends below one that came before it. */
  predicate Ascending(s: seq<Interval>, lastY: int) {
    s == [] || (s[0].y2 >= lastY && Ascending(s[1..], s[0].y2))
  }

  /** The formula never counts more than the union, and all of it exactly when no interval ends
      below an earlier one. */
  lemma {:induction false} HeightAgainstUnion(s: seq<Interval>, lastY: int)
    requires Sorted(s) && Proper(s)
    ensures Height(s, lastY) <= |UnionFrom(s, lastY)|
    ensures Height(s, lastY) == |UnionFrom(s, lastY)| <==> Ascending(s, lastY)
  {
    if s == [] {
    } else {
      var lower, next := Max(lastY, s[0].y1), Max(lastY, s[0].y2);
      HeightAgainstUnion(s[1..], next);
      UnionFromMembers(s[1..], next);
      SpanSize(lower, s[0].y2);
      assert Span(lower, s[0].y2) !! UnionFrom(s[1..], next);
    }
  }

  /** The highest of `floor` and of the ends of the first k intervals. */
  function Highest(s: seq<Interval>, floor: int, k: nat): (m: int)
    requires k <= |s|
    ensures m >= floor && forall i | 0 <= i < k :: m >= s[i].y2
    ensures m == floor || exists i :: 0 <= i < k && s[i].y2 == m
  {
    if k == 0 then floor else Max(Highest(s, floor, k - 1), s[k - 1].y2)
  }

  /** How far the first n intervals, each by itself, end below the highest earlier end. */
  function Missed(s: seq<Interval>, floor: int, n: nat): nat
    requires n <= |s|
  {
    if n == 0 then 0 else Missed(s, floor, n - 1) + Max(0, Highest(s, floor, n - 1) - s[n - 1].y2)
  }

  lemma {:induction false} HighestNext(s: seq<Interval>, floor: int, k: nat)
    requires k < |s|
    ensures Highest(s, floor, k + 1) == Highest(s[1..], Max(floor, s[0].y2), k)
  {
    if k > 0 {
      HighestNext(s, floor, k - 1);
    }
  }

  lemma HighestNone(s: seq<Interval>, floor: int)
    ensures Highest(s, floor, 0) == floor
  {
  }

  lemma {:induction false} MissedNext(s: seq<Interval>, floor: int, n: nat)
    requires n < |s|
    ensures Missed(s, floor, n + 1) == Max(0, floor - s[0].y2) + Missed(s[1..], Max(floor, s[0].y2), n)
  {
    HighestNone(s, floor);
    hide Highest;
    if n > 0 {
      MissedNext(s, floor, n - 1);
      HighestNext(s, floor, n - 1);
      assert s[n] == s[1..][n - 1];
    }
  }

  /** How many cells of the union the formula misses: for each interval as many as it ends below the highest
      earlier end. */
  lemma {:induction false} HeightShortfall(s: seq<Interval>, floor: int)
    requires Sorted(s) && Proper(s)
    ensures |UnionFrom(s, floor)| == Height(s, floor) + Missed(s, floor, |s|)
  {
    if s == [] {
    } else {
      var lower, next := Max(floor, s[0].y1), Max(floor, s[0].y2);
      HeightShortfall(s[1..], next);
      MissedNext(s, floor, |s| - 1);
      UnionFromMembers(s[1..], next);
      SpanSize(lower, s[0].y2);
      assert Span(lower, s[0].y2) !! UnionFrom(s[1..], next);
    }
  }

  predicate StrictlyNests(a: Interval, b: Interval) {
    a.y1 < b.y1 && b.y2 < a.y2
  }

  predicate Nested(s: seq<Interval>) {
    exists a, b :: a in s && b in s && StrictlyNests(a, b)
  }

  lemma {:induction false} AscendingIffNotNested(s: seq<Interval>, lastY: int)
    requires Sorted(s)
    ensures Ascending(s, lastY) <==> !Nested(s) && forall v | v in s :: v.y2 >= lastY
  {
    if s == [] {
    } else {
      AscendingIffNotNested(s[1..], s[0].y2);
      assert s == [s[0]] + s[1..];
      if Ascending(s, lastY) {
        forall a, b | a in s && b in s
          ensures !StrictlyNests(a, b)
        {
          if a in s[1..] && b in s[1..] {
            assert !Nested(s[1..]);
          }
        }
      }
      if !Nested(s) && forall v | v in s :: v.y2 >= lastY {
        forall v | v in s[1..]
          ensures v.y2 >= s[0].y2
        {
          assert Before(s[0], v) && !StrictlyNests(s[0], v);
        }
        assert forall v | v in s[1..] :: v in s;
      }
    }
  }

  // ----- Columns

  predicate Covered(rects: seq<Rectangle>, x: int, y: int) {
    exists r :: r in rects && r.HasCell(x, y)
  }

  /** The cells of the window that some rectangle covers. */
  function CoveredCells(base: Rectangle, rects: seq<Rectangle>): set<(int, int)> {
    set x: int, y: int | base.left <= x < base.right && base.bottom <= y < base.top && Covered(rects, x, y) :: (x, y)
  }

  function ColumnCells(base: Rectangle, rects: seq<Rectangle>, x: int): set<int> {
    set y: int | base.bottom <= y < base.top && Covered(rects, x, y)
  }

  predicate AllWide(rects: seq<Rectangle>) {
    forall r | r in rects :: r.Wide()
  }

  lemma {:induction false} ClipsMembers(base: Rectangle, rects: seq<Rectangle>, c: Clip)
    ensures c in Clips(base, rects) <==> exists r :: r in rects && base.Overlap(r) && c == ClipTo(base, r)
  {
    if rects == [] {
    } else {
      ClipsMembers(base, rects[..|rects| - 1], c);
      assert rects == rects[..|rects| - 1] + [rects[|rects| - 1]];
    }
  }

  lemma ClipsValid(base: Rectangle, rects: seq<Rectangle>)
    requires base.Positive() && AllWide(rects)
    ensures AllValid(Clips(base, rects))
    ensures forall c | c in Clips(base, rects) :: base.left <= c.left && c.right <= base.right
    ensures forall c | c in Clips(base, rects) :: base.bottom <= c.interval.y1 && c.interval.y2 <= base.top
  {
    forall c | c in Clips(base, rects)
      ensures c.Valid() && base.left <= c.left && c.right <= base.right
      ensures base.bottom <= c.interval.y1 && c.interval.y2 <= base.top
    {
      ClipsMembers(base, rects, c);
    }
  }

  lemma ColumnIsUnion(base: Rectangle, rects: seq<Rectangle>, x: int, y: int)
    requires base.Positive() && AllWide(rects) && base.left <= x < base.right
    ensures y in ColumnCells(base, rects, x) <==> exists v :: v in ActiveAt(Clips(base, rects), x) && Holds(v, y)
  {
    var cs := Clips(base, rects);
    if y in ColumnCells(base, rects, x) {
      var r :| r in rects && r.HasCell(x, y);
      var c := ClipTo(base, r);
      ClipsMembers(base, rects, c);
      ActiveMember(cs, x, c.interval);
      assert c in cs && c.Covers(x);
      assert Holds(c.interval, y);
    }
    if exists v :: v in ActiveAt(cs, x) && Holds(v, y) {
      var v :| v in ActiveAt(cs, x) && Holds(v, y);
      ActiveMember(cs, x, v);
      var c :| c in cs && c.Covers(x) && c.interval == v;
      ClipsMembers(base, rects, c);
      var r :| r in rects && base.Overlap(r) && c == ClipTo(base, r);
      assert r.HasCell(x, y);
    }
  }

  /** The column's height is exact. */
  predicate ColumnExact(s: seq<Interval>) {
    !Nested(s) && forall v | v in s :: v.y1 >= 0
  }

  lemma SubsetSize<T>(a: set<T>, b: set<T>)
    requires a <= b
    ensures |a| <= |b|
    ensures |a| == |b| ==> a == b
  {
    assert |b| == |a| + |b - a| by { assert b == a + (b - a); }
  }

  lemma ActiveProper(cs: seq<Clip>, x: int)
    requires AllValid(cs)
    ensures Proper(ActiveAt(cs, x))
  {
    forall v | v in ActiveAt(cs, x)
      ensures v.y1 <= v.y2
    {
      ActiveMember(cs, x, v);
    }
  }

  /** Counting starts at y = 0: what lies below is missed. */
  lemma CountedOfColumn(s: seq<Interval>, column: set<int>)
    requires Sorted(s) && forall y :: y in column <==> exists v :: v in s && Holds(v, y)
    ensures UnionFrom(s, 0) <= column
    ensures (forall v | v in s :: v.y1 >= 0) ==> UnionFrom(s, 0) == column
    ensures UnionFrom(s, 0) == column ==> forall v | v in s && v.y1 < v.y2 :: v.y1 >= 0
  {
    UnionFromMembers(s, 0);
    hide Sorted, UnionFrom;
    if UnionFrom(s, 0) == column {
      forall v | v in s && v.y1 < v.y2
        ensures v.y1 >= 0
      {
        assert Holds(v, v.y1);
        assert v.y1 in UnionFrom(s, 0);
      }
    }
  }

  lemma ColumnOfActive(base: Rectangle, rects: seq<Rectangle>, x: int)
    requires base.Positive() && AllWide(rects) && base.left <= x < base.right
    ensures var s := ActiveAt(Clips(base, rects), x);
            && Sorted(s) && Proper(s)
            && forall y :: y in ColumnCells(base, rects, x) <==> exists v :: v in s && Holds(v, y)
  {
    ClipsValid(base, rects);
    ActiveSorted(Clips(base, rects), x);
    ActiveProper(Clips(base, rects), x);
    forall y
      ensures y in ColumnCells(base, rects, x) <==> exists v :: v in ActiveAt(Clips(base, rects), x) && Holds(v, y)
    {
      ColumnIsUnion(base, rects, x, y);
    }
  }

  lemma ColumnHeight(base: Rectangle, rects: seq<Rectangle>, x: int)
    requires base.Positive() && AllWide(rects) && base.left <= x < base.right
    ensures var s := ActiveAt(Clips(base, rects), x);
            Height(s, 0) <= |ColumnCells(base, rects, x)| &&
            (Height(s, 0) == |ColumnCells(base, rects, x)| <==> ColumnExact(s))
  {
    hide *;
    ColumnOfActive(base, rects, x);
    HeightAgainstColumn(ActiveAt(Clips(base, rects), x), ColumnCells(base, rects, x));
  }

  function BelowZero(column: set<int>): set<int> { set y | y in column && y < 0 }

  /** The cells of a column that the formula misses: those below y = 0, and those that nesting costs. */
  function ColumnShortfall(base: Rectangle, rects: seq<Rectangle>, x: int): nat {
    var s := ActiveAt(Clips(base, rects), x);
    |BelowZero(ColumnCells(base, rects, x))| + Missed(s, 0, |s|)
  }

  lemma ShortfallOfColumn(s: seq<Interval>, column: set<int>)
    requires Sorted(s) && Proper(s) && forall y :: y in column <==> exists v :: v in s && Holds(v, y)
    ensures |column| == Height(s, 0) + |BelowZero(column)| + Missed(s, 0, |s|)
  {
    HeightShortfall(s, 0);
    UnionFromMembers(s, 0);
    hide Sorted, Height, UnionFrom, Missed, Holds;
    assert column == UnionFrom(s, 0) + BelowZero(column) && UnionFrom(s, 0) !! BelowZero(column);
  }

  lemma ColumnMissed(base: Rectangle, rects: seq<Rectangle>, x: int)
    requires base.Positive() && AllWide(rects) && base.left <= x < base.right
    ensures |ColumnCells(base, rects, x)| ==
            Height(ActiveAt(Clips(base, rects), x), 0) + ColumnShortfall(base, rects, x)
  {
    hide Clips, ColumnCells, ActiveAt, Sorted, Proper, Holds, Height, BelowZero, Missed;
    ColumnOfActive(base, rects, x);
    ShortfallOfColumn(ActiveAt(Clips(base, rects), x), ColumnCells(base, rects, x));
  }

  lemma HeightAgainstColumn(s: seq<Interval>, column: set<int>)
    requires Sorted(s) && Proper(s) && forall y :: y in column <==> exists v :: v in s && Holds(v, y)
    ensures Height(s, 0) <= |column|
    ensures Height(s, 0) == |column| <==> ColumnExact(s)
  {
    hide Sorted, Height, UnionFrom, Nested, Ascending;
    CountedOfColumn(s, column);
    HeightAgainstUnion(s, 0);
    AscendingIffNotNested(s, 0);
    SubsetSize(UnionFrom(s, 0), column);
  }

  /** The area the sweep adds up over the columns from `from` to `to`. */
  function SweptArea(cs: seq<Clip>, from: int, end: int): int
    decreases end - from
  {
    if end <= from then 0 else SweptArea(cs, from, end - 1) + Height(ActiveAt(cs, end - 1), 0)
  }

  lemma {:induction false} CellsByColumn(base: Rectangle, rects: seq<Rectangle>, end: int)
    requires base.left <= end
    ensures var narrow, wide := base.(right := end), base.(right := end + 1);
            |CoveredCells(wide, rects)| == |CoveredCells(narrow, rects)| + |ColumnCells(base, rects, end)|
  {
    var narrow, wide := base.(right := end), base.(right := end + 1);
    var column := ColumnCells(base, rects, end);
    var stripe := Stripe(column, end);
    assert CoveredCells(wide, rects) == CoveredCells(narrow, rects) + stripe;
    assert CoveredCells(narrow, rects) !! stripe;
    StripeSize(column, end);
  }

  /** The cells of column x at the heights ys. */
  function Stripe<T>(ys: set<T>, x: int): set<(int, T)> { set y | y in ys :: (x, y) }

  lemma {:induction false} StripeSize<T>(ys: set<T>, x: int)
    ensures |Stripe(ys, x)| == |ys|
  {
    if ys == {} {
    } else {
      var y0 :| y0 in ys;
      StripeSize(ys - {y0}, x);
      assert Stripe(ys, x) == Stripe(ys - {y0}, x) + {(x, y0)};
    }
  }

  lemma {:induction false} SweptAreaUpTo(base: Rectangle, rects: seq<Rectangle>, end: int)
    requires base.Positive() && AllWide(rects) && base.left <= end <= base.right
    ensures var cells, cs := CoveredCells(base.(right := end), rects), Clips(base, rects);
            SweptArea(cs, base.left, end) <= |cells| &&
            (SweptArea(cs, base.left, end) == |cells| <==> ColumnsExact(base, rects, end))
    decreases end - base.left
  {
    hide ColumnCells, CoveredCells;
    if end == base.left {
      NoColumns(base.(right := end), rects);
    } else {
      SweptAreaUpTo(base, rects, end - 1);
      ColumnHeight(base, rects, end - 1);
      CellsByColumn(base, rects, end - 1);
    }
  }

  /** The cells up to a column that the swept area misses. */
  function Shortfall(base: Rectangle, rects: seq<Rectangle>, end: int): nat
    decreases end - base.left
  {
    if end <= base.left then 0 else Shortfall(base, rects, end - 1) + ColumnShortfall(base, rects, end - 1)
  }

  /** The swept area is the number of covered cells but for the shortfall. */
  lemma {:induction false} ShortfallUpTo(base: Rectangle, rects: seq<Rectangle>, end: int)
    requires base.Positive() && AllWide(rects) && base.left <= end <= base.right
    ensures |CoveredCells(base.(right := end), rects)| ==
            SweptArea(Clips(base, rects), base.left, end) + Shortfall(base, rects, end)
    decreases end - base.left
  {
    hide ColumnCells, CoveredCells, ColumnShortfall;
    if end == base.left {
      NoColumns(base.(right := end), rects);
    } else {
      ShortfallUpTo(base, rects, end - 1);
      ColumnMissed(base, rects, end - 1);
      CellsByColumn(base, rects, end - 1);
    }
  }

  /** c stays at y >= 0 and, where it shares a column with d, does not strictly nest it. */
  predicate PairExact(c: Clip, d: Clip) {
    c.interval.y1 >= 0 && (c.left < d.right && d.left < c.right ==> !StrictlyNests(c.interval, d.interval))
  }

  /** What the rectangles must satisfy for the area to be exact: inside the window none reaches
      below y = 0, and no two that share a column of it strictly nest there. */
  predicate AreaExact(base: Rectangle, rects: seq<Rectangle>) {
    forall r, s | r in rects && s in rects && base.Overlap(r) && base.Overlap(s) ::
      PairExact(ClipTo(base, r), ClipTo(base, s))
  }

  ghost predicate ColumnsExact(base: Rectangle, rects: seq<Rectangle>, end: int) {
    forall x | base.left <= x < end :: ColumnExact(ActiveAt(Clips(base, rects), x))
  }

  lemma AreaExactByColumn(base: Rectangle, rects: seq<Rectangle>)
    requires base.Positive() && AllWide(rects)
    ensures AreaExact(base, rects) <==> ColumnsExact(base, rects, base.right)
  {
    if AreaExact(base, rects) {
      forall x | base.left <= x < base.right
        ensures ColumnExact(ActiveAt(Clips(base, rects), x))
      {
        ExactColumn(base, rects, x);
      }
    }
    if ColumnsExact(base, rects, base.right) {
      forall r, s | r in rects && s in rects && base.Overlap(r) && base.Overlap(s)
        ensures PairExact(ClipTo(base, r), ClipTo(base, s))
      {
        SharedColumn(base, rects, r, r);
        SharedColumn(base, rects, r, s);
      }
    }
  }

  lemma ExactColumn(base: Rectangle, rects: seq<Rectangle>, x: int)
    requires base.Positive() && AllWide(rects) && AreaExact(base, rects)
    ensures ColumnExact(ActiveAt(Clips(base, rects), x))
  {
    var cs := Clips(base, rects);
    forall a, b | a in ActiveAt(cs, x) && b in ActiveAt(cs, x)
      ensures a.y1 >= 0 && !StrictlyNests(a, b)
    {
      ActiveMember(cs, x, a);
      ActiveMember(cs, x, b);
      var c :| c in cs && c.Covers(x) && c.interval == a;
      var d :| d in cs && d.Covers(x) && d.interval == b;
      ClipsMembers(base, rects, c);
      ClipsMembers(base, rects, d);
    }
  }

  /** Two clips that share columns are active together at the first one shared. */
  lemma SharedColumn(base: Rectangle, rects: seq<Rectangle>, r: Rectangle, s: Rectangle)
    requires base.Positive() && AllWide(rects)
    requires r in rects && s in rects && base.Overlap(r) && base.Overlap(s)
    requires ColumnsExact(base, rects, base.right)
    ensures var c, d := ClipTo(base, r), ClipTo(base, s);
            (c.left < d.right && d.left < c.right ==> PairExact(c, d)) && (r == s ==> c.interval.y1 >= 0)
  {
    var cs, c, d := Clips(base, rects), ClipTo(base, r), ClipTo(base, s);
    ClipsValid(base, rects);
    ClipsMembers(base, rects, c);
    ClipsMembers(base, rects, d);
    if c.left < d.right && d.left < c.right {
      var x := Max(c.left, d.left);
      ActiveMember(cs, x, c.interval);
      ActiveMember(cs, x, d.interval);
      assert c.Covers(x) && d.Covers(x);
      assert c.interval in ActiveAt(cs, x) && d.interval in ActiveAt(cs, x);
      assert ColumnExact(ActiveAt(cs, x));
    }
  }

  lemma AreaOf(base: Rectangle)
    ensures base.Area() == (base.right - base.left) * base.Height() && base.(right := base.right) == base
  {
  }

  /** The swept area is the number of covered cells less the shortfall.  It never exceeds that number, and
      equals it exactly under `AreaExact`. */
  lemma SweptAreaAgainstCells(base: Rectangle, rects: seq<Rectangle>)
    requires base.Positive() && AllWide(rects)
    ensures var area, cells := SweptArea(Clips(base, rects), base.left, base.right), |CoveredCells(base, rects)|;
            area <= cells <= base.Area() && (area == cells <==> AreaExact(base, rects))
            && area == cells - Shortfall(base, rects, base.right)
  {
    assert base.left <= base.right;
    hide *;
    AreaOf(base);
    SweptAreaUpTo(base, rects, base.right);
    ShortfallUpTo(base, rects, base.right);
    AreaExactByColumn(base, rects);
    CellsInWindow(base, rects, base.right);
  }

  lemma ColumnBound(base: Rectangle, rects: seq<Rectangle>, x: int)
    requires base.Positive()
    ensures |ColumnCells(base, rects, x)| <= base.Height()
  {
    SpanSize(base.bottom, base.top);
    SubsetSize(ColumnCells(base, rects, x), Span(base.bottom, base.top));
  }

  lemma NoColumns(base: Rectangle, rects: seq<Rectangle>)
    requires base.right == base.left
    ensures CoveredCells(base, rects) == {}
  {
  }

  lemma {:induction false} CellsInWindow(base: Rectangle, rects: seq<Rectangle>, end: int)
    requires base.Positive() && base.left <= end
    ensures |CoveredCells(base.(right := end), rects)| <= (end - base.left) * base.Height()
    decreases end - base.left
  {
    hide ColumnCells, CoveredCells;
    if end == base.left {
      NoColumns(base.(right := end), rects);
    } else {
      CellsInWindow(base, rects, end - 1);
      CellsByColumn(base, rects, end - 1);
      ColumnBound(base, rects, end - 1);
      OneMoreColumn(end - 1 - base.left, base.Height());
    }
  }

  lemma OneMoreColumn(columns: int, height: int)
    ensures (columns + 1) * height == columns * height + height
  {
  }
}
