/** The sweep-line calculation of how much of a window other windows cover, and of whether the
    mouse sees it. */
module WindowCoverage {
  import opened Rectangles
  import Sequences

  datatype Interval = Interval(y1: int, y2: int)

  datatype Event = Event(x: int, interval: Interval, entering: bool)

  /** A covering rectangle clipped to the window. */
  datatype Clip = Clip(left: int, right: int, interval: Interval)
  {
    predicate Valid() { left < right && interval.y1 <= interval.y2 }

    /** The clip covers the column of cells from x to x+1. */
    predicate Covers(x: int) { left <= x < right }
  }

  function ClipTo(base: Rectangle, r: Rectangle): Clip {
    Clip(Max(r.left, base.left), Min(r.right, base.right),
         Interval(Max(r.bottom, base.bottom), Min(r.top, base.top)))
  }

  /** The clips of the rectangles that overlap the window, in order. */
  function Clips(base: Rectangle, rects: seq<Rectangle>): seq<Clip> {
    if rects == [] then []
    else
      var rest := Clips(base, rects[..|rects| - 1]);
      var r := rects[|rects| - 1];
      if base.Overlap(r) then rest + [ClipTo(base, r)] else rest
  }

  // ----- The active intervals, kept in order

  predicate Before(a: Interval, b: Interval) {
    a.y1 < b.y1 || (a.y1 == b.y1 && a.y2 <= b.y2)
  }

  predicate Sorted(s: seq<Interval>) {
    s == [] || ((forall u | u in s[1..] :: Before(s[0], u)) && Sorted(s[1..]))
  }

  /** Insertion into an ordered multiset. */
  function Insert(s: seq<Interval>, v: Interval): seq<Interval> {
    if s == [] || Before(v, s[0]) then [v] + s else [s[0]] + Insert(s[1..], v)
  }

  /** Erasure of one occurrence. */
  function Erase(s: seq<Interval>, v: Interval): seq<Interval>
    requires v in s
  {
    if s[0] == v then s[1..] else [s[0]] + Erase(s[1..], v)
  }

  lemma {:induction false} InsertContents(s: seq<Interval>, v: Interval)
    ensures multiset(Insert(s, v)) == multiset(s)[v := multiset(s)[v] + 1]
  {
    if s == [] {
    } else {
      assert s == [s[0]] + s[1..];
      InsertContents(s[1..], v);
    }
  }

  lemma {:induction false} InsertSorted(s: seq<Interval>, v: Interval)
    requires Sorted(s)
    ensures Sorted(Insert(s, v))
  {
    if s == [] || Before(v, s[0]) {
      assert ([v] + s)[1..] == s;
      assert s != [] ==> s == [s[0]] + s[1..];
    } else {
      InsertSorted(s[1..], v);
      InsertContents(s[1..], v);
      var t := Insert(s[1..], v);
      assert ([s[0]] + t)[1..] == t;
      forall u | u in t
        ensures Before(s[0], u)
      {
        assert u in multiset(t);
      }
    }
  }

  lemma {:induction false} EraseContents(s: seq<Interval>, v: Interval)
    requires v in s
    ensures multiset(Erase(s, v)) == multiset(s)[v := multiset(s)[v] - 1]
  {
    assert s == [s[0]] + s[1..];
    if s[0] == v {
    } else {
      EraseContents(s[1..], v);
    }
  }

  lemma {:induction false} EraseSorted(s: seq<Interval>, v: Interval)
    requires v in s && Sorted(s)
    ensures Sorted(Erase(s, v))
  {
    if s[0] == v {
    } else {
      EraseSorted(s[1..], v);
      EraseContents(s[1..], v);
      var t := Erase(s[1..], v);
      assert ([s[0]] + t)[1..] == t;
      forall u | u in t
        ensures Before(s[0], u)
      {
        assert u in multiset(t);
      }
    }
  }

  lemma SortedFirst(s: seq<Interval>, v: Interval)
    requires Sorted(s) && v in s
    ensures Before(s[0], v)
  {
  }

  lemma {:induction false} SortedUnique(s: seq<Interval>, t: seq<Interval>)
    requires Sorted(s) && Sorted(t) && multiset(s) == multiset(t)
    ensures s == t
  {
    if s == [] {
      assert |multiset(t)| == 0;
    } else {
      assert |multiset(s)| == |multiset(t)|;
      assert s[0] in multiset(t) && t[0] in multiset(s);
      SortedFirst(s, t[0]);
      SortedFirst(t, s[0]);
      assert s == [s[0]] + s[1..] && t == [s[0]] + t[1..];
      assert multiset(s[1..]) == multiset(s) - multiset{s[0]};
      assert multiset(t[1..]) == multiset(t) - multiset{s[0]};
      SortedUnique(s[1..], t[1..]);
    }
  }

  // ----- Events

  function Enter(c: Clip): Event { Event(c.left, c.interval, true) }

  function Leave(c: Clip): Event { Event(c.right, c.interval, false) }

  function Events(cs: seq<Clip>): seq<Event> {
    if cs == [] then [] else Events(cs[..|cs| - 1]) + [Enter(cs[|cs| - 1]), Leave(cs[|cs| - 1])]
  }

  predicate SortedByX(es: seq<Event>) {
    forall i, j | 0 <= i < j < |es| :: es[i].x <= es[j].x
  }

  predicate IsArrangement(es: seq<Event>, sorted: seq<Event>) {
    multiset(es) == multiset(sorted) && SortedByX(sorted)
  }

  /** How many events of `es` of one kind carry interval v and have x at most `limit`. */
  function Count(es: seq<Event>, v: Interval, entering: bool, limit: int): nat {
    if es == [] then 0
    else
      var e := es[|es| - 1];
      Count(es[..|es| - 1], v, entering, limit)
        + if e.interval == v && e.entering == entering && e.x <= limit then 1 else 0
  }

  /** How many clips with interval v have their left (right) edge at most at `limit`. */
  function LeftEdges(cs: seq<Clip>, v: Interval, limit: int): nat {
    if cs == [] then 0
    else LeftEdges(cs[..|cs| - 1], v, limit) + if cs[|cs| - 1].interval == v && cs[|cs| - 1].left <= limit then 1 else 0
  }

  function RightEdges(cs: seq<Clip>, v: Interval, limit: int): nat {
    if cs == [] then 0
    else
      var last := cs[|cs| - 1];
      RightEdges(cs[..|cs| - 1], v, limit) + if last.interval == v && last.right <= limit then 1 else 0
  }

  lemma {:induction false} CountEvents(cs: seq<Clip>, v: Interval, limit: int)
    ensures Count(Events(cs), v, true, limit) == LeftEdges(cs, v, limit)
    ensures Count(Events(cs), v, false, limit) == RightEdges(cs, v, limit)
  {
    if cs == [] {
    } else {
      var init, c := cs[..|cs| - 1], cs[|cs| - 1];
      CountEvents(init, v, limit);
      assert Events(cs)[..|Events(cs)| - 1] == Events(init) + [Enter(c)];
      assert (Events(init) + [Enter(c)])[..|Events(init)|] == Events(init);
    }
  }

  lemma {:induction false} CountConcat(a: seq<Event>, b: seq<Event>, v: Interval, entering: bool, limit: int)
    ensures Count(a + b, v, entering, limit) == Count(a, v, entering, limit) + Count(b, v, entering, limit)
    decreases |b|
  {
    if b == [] {
      assert a + b == a;
    } else {
      assert (a + b)[..|a + b| - 1] == a + b[..|b| - 1];
      CountConcat(a, b[..|b| - 1], v, entering, limit);
    }
  }

  /** Counting does not depend on the order. */
  lemma CountNothing(es: seq<Event>, v: Interval, entering: bool, limit: int)
    requires multiset(es) == multiset([])
    ensures Count(es, v, entering, limit) == 0
  {
    assert |multiset(es)| == |es|;
  }

  /** Any element can be counted first. */
  lemma CountWithout(es: seq<Event>, k: nat, v: Interval, entering: bool, limit: int)
    requires k < |es|
    ensures Count(es, v, entering, limit) ==
            Count(es[..k] + es[k + 1..], v, entering, limit) + Count([es[k]], v, entering, limit)
  {
    hide *;
    Sequences.Without(es, k);
    CountConcat(es[..k] + [es[k]], es[k + 1..], v, entering, limit);
    CountConcat(es[..k], [es[k]], v, entering, limit);
    CountConcat(es[..k], es[k + 1..], v, entering, limit);
  }

  lemma {:induction false} CountPermuted(a: seq<Event>, b: seq<Event>, v: Interval, entering: bool, limit: int)
    requires multiset(a) == multiset(b)
    ensures Count(a, v, entering, limit) == Count(b, v, entering, limit)
    decreases |a|
  {
    hide *;
    if a == [] {
      CountNothing(a, v, entering, limit);
      CountNothing(b, v, entering, limit);
    } else {
      var n := |a| - 1;
      Sequences.FrontAndLast(a);
      var k := Sequences.IndexOf(b, a[n]);
      Sequences.Without(b, k);
      Sequences.MultisetCancel(multiset(a[..n]), multiset(b[..k] + b[k + 1..]), a[n]);
      CountPermuted(a[..n], b[..k] + b[k + 1..], v, entering, limit);
      CountConcat(a[..n], [a[n]], v, entering, limit);
      CountWithout(b, k, v, entering, limit);
    }
  }

  lemma {:induction false} CountAbove(es: seq<Event>, v: Interval, entering: bool, limit: int)
    requires forall e | e in es :: e.x > limit
    ensures Count(es, v, entering, limit) == 0
  {
    if es == [] {
    } else {
      CountAbove(es[..|es| - 1], v, entering, limit);
    }
  }

  lemma {:induction false} CountMonotone(es: seq<Event>, v: Interval, entering: bool, low: int, high: int)
    requires low <= high
    ensures Count(es, v, entering, low) <= Count(es, v, entering, high)
    ensures (forall e | e in es :: e.x <= low) ==> Count(es, v, entering, low) == Count(es, v, entering, high)
  {
    if es == [] {
    } else {
      CountMonotone(es[..|es| - 1], v, entering, low, high);
    }
  }

  /** Events processed so far against all events up to x = limit. */
  lemma CountPrefix(sorted: seq<Event>, i: nat, v: Interval, entering: bool, limit: int, all: int)
    requires i <= |sorted| && limit <= all
    requires forall e | e in sorted :: e.x <= all
    ensures (forall e | e in sorted[..i] :: e.x <= limit) ==>
              Count(sorted[..i], v, entering, all) <= Count(sorted, v, entering, limit)
    ensures (forall e | e in sorted[i..] :: e.x > limit) ==>
              Count(sorted, v, entering, limit) <= Count(sorted[..i], v, entering, all)
  {
    assert sorted[..i] + sorted[i..] == sorted;
    CountConcat(sorted[..i], sorted[i..], v, entering, limit);
    CountMonotone(sorted[..i], v, entering, limit, all);
    if forall e | e in sorted[i..] :: e.x > limit {
      CountAbove(sorted[i..], v, entering, limit);
    }
  }

  // ----- Which intervals are active

  /** The intervals of the clips that cover column x, in order. */
  function ActiveAt(cs: seq<Clip>, x: int): seq<Interval> {
    if cs == [] then []
    else
      var rest := ActiveAt(cs[..|cs| - 1], x);
      if cs[|cs| - 1].Covers(x) then Insert(rest, cs[|cs| - 1].interval) else rest
  }

  predicate AllValid(cs: seq<Clip>) {
    forall c | c in cs :: c.Valid()
  }

  lemma {:induction false} ActiveSorted(cs: seq<Clip>, x: int)
    ensures Sorted(ActiveAt(cs, x))
  {
    if cs == [] {
    } else {
      ActiveSorted(cs[..|cs| - 1], x);
      InsertSorted(ActiveAt(cs[..|cs| - 1], x), cs[|cs| - 1].interval);
    }
  }

  lemma {:induction false} ActiveCount(cs: seq<Clip>, x: int, v: Interval)
    requires AllValid(cs)
    ensures multiset(ActiveAt(cs, x))[v] == LeftEdges(cs, v, x) - RightEdges(cs, v, x)
  {
    if cs == [] {
    } else {
      assert cs[|cs| - 1].Valid();
      ActiveCount(cs[..|cs| - 1], x, v);
      InsertContents(ActiveAt(cs[..|cs| - 1], x), cs[|cs| - 1].interval);
    }
  }

  lemma InsertMember(s: seq<Interval>, v: Interval, w: Interval)
    ensures w in Insert(s, v) <==> w == v || w in s
  {
    InsertContents(s, v);
    assert w in Insert(s, v) <==> w in multiset(Insert(s, v));
    assert w in s <==> w in multiset(s);
  }

  lemma ActiveLast(cs: seq<Clip>, x: int)
    requires cs != []
    ensures var rest, last := ActiveAt(cs[..|cs| - 1], x), cs[|cs| - 1];
            ActiveAt(cs, x) == if last.Covers(x) then Insert(rest, last.interval) else rest
  {
  }

  lemma {:induction false} ActiveMember(cs: seq<Clip>, x: int, v: Interval)
    ensures v in ActiveAt(cs, x) <==> exists c :: c in cs && c.Covers(x) && c.interval == v
  {
    if cs == [] {
    } else {
      hide *;
      var init, last := cs[..|cs| - 1], cs[|cs| - 1];
      Sequences.FrontAndLast(cs);
      ActiveMember(init, x, v);
      ActiveLast(cs, x);
      InsertMember(ActiveAt(init, x), last.interval, v);
    }
  }

  /** Every right edge lies beyond its own left edge. */
  lemma {:induction false} EdgesOrdered(cs: seq<Clip>, v: Interval, x: int)
    requires AllValid(cs)
    ensures RightEdges(cs, v, x) <= LeftEdges(cs, v, x - 1)
  {
    if cs == [] {
    } else {
      assert cs[|cs| - 1].Valid();
      EdgesOrdered(cs[..|cs| - 1], v, x);
    }
  }

  lemma {:induction false} EdgeWitness(cs: seq<Clip>, v: Interval, a: int, b: int)
    requires LeftEdges(cs, v, a) > RightEdges(cs, v, b)
    ensures exists c :: c in cs && c.interval == v && c.left <= a && c.right > b
  {
    var last := cs[|cs| - 1];
    if !(last.interval == v && last.left <= a && last.right > b) {
      EdgeWitness(cs[..|cs| - 1], v, a, b);
      var c :| c in cs[..|cs| - 1] && c.interval == v && c.left <= a && c.right > b;
      assert c in cs;
    }
  }
}
