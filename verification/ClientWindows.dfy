/** The windows of a client group: which exist, what damage each still has to deliver, and how
    often images may be sent. */
module ClientWindows {
  import opened WindowDamage
  import opened Qualities
  import opened Clocks
  import opened ClientIndices

  datatype Visibility = Visibility(window: nat, width: int, height: int, shapeMaskChecksum: bv32)

  datatype Status = FullWindow | SubWindow | Ignored

  /** What the update handler answers. */
  datatype Outcome = Failed | Transferred(status: Status, rgbChecksum: bv32, alphaChecksum: bv32)

  /** An image sent at `time` under a quality whose update time is `updateTimeUs`. */
  datatype Transfer = Transfer(time: int, updateTimeUs: int)

  /** Every transfer comes more than its own update time after the one before it. */
  ghost predicate Spaced(transfers: seq<Transfer>) {
    && (forall k | 0 <= k < |transfers| :: transfers[k].updateTimeUs > 0)
    && forall k | 1 <= k < |transfers| :: transfers[k].time - transfers[k - 1].time > transfers[k].updateTimeUs
  }

  ghost predicate EndsBy(transfers: seq<Transfer>, time: int) {
    transfers != [] ==> transfers[|transfers| - 1].time <= time
  }

  lemma SpacedNext(transfers: seq<Transfer>, t: Transfer, time: int)
    requires Spaced(transfers) && EndsBy(transfers, time) && t.time - time > t.updateTimeUs > 0
    ensures Spaced(transfers + [t]) && EndsBy(transfers + [t], t.time)
  {
  }

  /** So any two transfers are more than the later one's update time apart. */
  lemma {:induction false} AnyTwoSpaced(transfers: seq<Transfer>, i: nat, j: nat)
    requires Spaced(transfers) && i < j < |transfers|
    ensures transfers[j].time - transfers[i].time > transfers[j].updateTimeUs
    decreases j
  {
    if i == j - 1 {
    } else {
      AnyTwoSpaced(transfers, i, j - 1);
      assert transfers[j - 1].updateTimeUs > 0;
    }
  }

  /** The damage covers everything that was added. */
  ghost predicate Keeps(damage: Damage, added: seq<Damage>) {
    forall d, x, y | d in added && d.Covers(x, y) :: damage.Covers(x, y)
  }

  class ClientWindow {
    const window: nat
    var damage: Damage
    var quality: int
    var width: int
    var height: int
    var imageRefreshTime: int
    var rgbChecksum: bv32
    var alphaChecksum: bv32
    var shapeMaskChecksum: bv32
    var lastSentShapeMaskChecksum: bv32

    /** Damage added since the last reset. */
    ghost var pending: seq<Damage>
    /** Every image sent of the window, whichever objects stood for it before. */
    ghost var transfers: seq<Transfer>

    ghost predicate Valid()
      reads this
    {
      && IsIndex(quality)
      && Keeps(damage, pending)
      && Spaced(transfers) && EndsBy(transfers, imageRefreshTime)
    }

    constructor FromVisibility(v: Visibility, quality: int, now: int, ghost earlier: seq<Transfer>)
      requires IsIndex(quality) && Spaced(earlier) && EndsBy(earlier, now)
      ensures Valid() && window == v.window && this.quality == quality && width == v.width && height == v.height
      ensures shapeMaskChecksum == lastSentShapeMaskChecksum == v.shapeMaskChecksum
      ensures damage == NO_DAMAGE && pending == [] && transfers == earlier && imageRefreshTime == now
      ensures rgbChecksum == alphaChecksum == 0
    {
      window, damage, this.quality, width, height := v.window, NO_DAMAGE, quality, v.width, v.height;
      imageRefreshTime, rgbChecksum, alphaChecksum := now, 0, 0;
      shapeMaskChecksum, lastSentShapeMaskChecksum := v.shapeMaskChecksum, v.shapeMaskChecksum;
      pending, transfers := [], earlier;
    }

    constructor FromDamage(window: nat, d: Damage, quality: int, now: int, ghost earlier: seq<Transfer>)
      requires IsIndex(quality) && Spaced(earlier) && EndsBy(earlier, now)
      ensures Valid() && this.window == window && this.quality == quality
      ensures damage == d && pending == [d] && transfers == earlier && imageRefreshTime == now
      ensures shapeMaskChecksum == lastSentShapeMaskChecksum == 0 && rgbChecksum == alphaChecksum == 0
      ensures width == height == 0
    {
      this.window, damage, this.quality, width, height := window, d, quality, 0, 0;
      imageRefreshTime, rgbChecksum, alphaChecksum := now, 0, 0;
      shapeMaskChecksum, lastSentShapeMaskChecksum := 0, 0;
      pending, transfers := [d], earlier;
    }

    method AddDamage(d: Damage)
      requires Valid()
      modifies this`damage, this`pending
      ensures Valid()
      ensures damage == old(damage).Plus(d) && pending == old(pending) + [d]
    {
      forall e, x, y | e in pending + [d] && e.Covers(x, y)
        ensures damage.Plus(d).Covers(x, y)
      {
        PlusKeeps(damage, d, x, y);
      }
      damage := damage.Plus(d);
      pending := pending + [d];
    }

    method ResetDamage()
      requires Valid()
      modifies this`damage, this`pending
      ensures Valid() && damage == NO_DAMAGE && pending == []
    {
      damage := NO_DAMAGE;
      pending := [];
    }

    predicate ShapeRequiresUpdate()
      reads this
    {
      lastSentShapeMaskChecksum != shapeMaskChecksum
    }

    predicate RequiresRefresh(reference: int)
      reads this
    {
      imageRefreshTime < reference
    }

    /** `setSize`, `setCoverage` and `setShapeMaskChecksum`.  A new coverage lets the quality
        handler choose another quality. */
    method Update(v: Visibility)
      requires Valid()
      modifies this`width, this`height, this`shapeMaskChecksum, this`quality
      ensures Valid() && width == v.width && height == v.height && shapeMaskChecksum == v.shapeMaskChecksum
    {
      width, height := v.width, v.height;
      Requalify();
      shapeMaskChecksum := v.shapeMaskChecksum;
    }

    /** Whatever quality the quality handler computes. */
    method Requalify()
      requires Valid()
      modifies this`quality
      ensures Valid()
    {
      var q :| IsIndex(q);
      quality := q;
    }

    /** `onImageTransfer`, called with the update time the refresh test used. */
    method OnImageTransfer(status: Status, rgb: bv32, alpha: bv32, timestamp: int, ghost updateTimeUs: int)
      requires Valid() && timestamp - imageRefreshTime > updateTimeUs > 0
      modifies this`rgbChecksum, this`alphaChecksum, this`imageRefreshTime, this`quality, this`transfers
      ensures Valid()
      ensures imageRefreshTime == if status == Ignored then old(imageRefreshTime) else timestamp
      ensures rgbChecksum == if status == FullWindow then rgb else old(rgbChecksum)
      ensures alphaChecksum == if status == FullWindow then alpha else old(alphaChecksum)
      ensures transfers ==
              if status == Ignored then old(transfers) else old(transfers) + [Transfer(timestamp, updateTimeUs)]
    {
      hide Spaced, Keeps, EndsBy;
      ghost var imageRefreshTimeBefore := imageRefreshTime;
      if status == FullWindow {
        rgbChecksum, alphaChecksum, imageRefreshTime := rgb, alpha, timestamp;
      } else if status == SubWindow {
        imageRefreshTime := timestamp;
      }
      if status != Ignored {
        SpacedNext(transfers, Transfer(timestamp, updateTimeUs), imageRefreshTimeBefore);
        transfers := transfers + [Transfer(timestamp, updateTimeUs)];
        Requalify();
      }
    }
  }

  /** One call of the update handler. */
  datatype Call = Call(window: nat, clientIndexMask: Mask, damage: Damage)

  ghost predicate DistinctIds(windows: seq<ClientWindow>) {
    forall i, j | 0 <= i < j < |windows| :: windows[i].window != windows[j].window
  }

  ghost predicate HasId(windows: seq<ClientWindow>, id: nat) {
    exists w :: w in windows && w.window == id
  }

  ghost predicate Shows(visible: seq<Visibility>, id: nat) {
    exists v :: v in visible && v.window == id
  }

  /** The k-th entry is the first, or the last, of its window. */
  ghost predicate FirstEntry(visible: seq<Visibility>, k: int) {
    0 <= k < |visible| && forall j | 0 <= j < k :: visible[j].window != visible[k].window
  }

  ghost predicate LastEntry(visible: seq<Visibility>, k: int) {
    0 <= k < |visible| && forall j | k < j < |visible| :: visible[j].window != visible[k].window
  }

  /** Every window in the list has a first and a last entry. */
  lemma {:induction false} EntriesExist(visible: seq<Visibility>, id: nat) returns (first: nat, last: nat)
    requires Shows(visible, id)
    ensures FirstEntry(visible, first) && LastEntry(visible, last)
    ensures visible[first].window == visible[last].window == id
  {
    var n := |visible| - 1;
    if Shows(visible[..n], id) {
      first, last := EntriesExist(visible[..n], id);
      last := if visible[n].window == id then n else last;
    } else {
      first, last := n, n;
      assert forall j | 0 <= j < n :: visible[j] in visible[..n];
    }
  }

  /** What a window takes from its entries in the visibility list. */
  datatype Face = Face(width: int, height: int, shapeMaskChecksum: bv32, lastSent: bv32, quality: int)

  ghost function FaceOf(w: ClientWindow): Face
    reads w`width, w`height, w`shapeMaskChecksum, w`lastSentShapeMaskChecksum, w`quality
  {
    Face(w.width, w.height, w.shapeMaskChecksum, w.lastSentShapeMaskChecksum, w.quality)
  }

  /** The window has the size and the shape of an entry. */
  ghost predicate Fits(f: Face, v: Visibility) {
    f.width == v.width && f.height == v.height && f.shapeMaskChecksum == v.shapeMaskChecksum
  }

  /** A window shows the last of its entries.  A new one was created for the first, and has the quality of
      its group as long as that is the only one. */
  ghost predicate Shown(f: Face, id: nat, isNew: bool, quality: int, visible: seq<Visibility>) {
    forall k | 0 <= k < |visible| && visible[k].window == id ::
      && (LastEntry(visible, k) ==> Fits(f, visible[k]))
      && (isNew && FirstEntry(visible, k) ==> f.lastSent == visible[k].shapeMaskChecksum)
      && (isNew && FirstEntry(visible, k) && LastEntry(visible, k) ==> f.quality == quality)
  }

  /** The window has the size and the shape of its last entry. */
  ghost predicate TakesLast(w: ClientWindow, visible: seq<Visibility>)
    reads w`width, w`height, w`shapeMaskChecksum
  {
    forall k | LastEntry(visible, k) && visible[k].window == w.window ::
      && w.width == visible[k].width && w.height == visible[k].height
      && w.shapeMaskChecksum == visible[k].shapeMaskChecksum
  }

  /** The shape last sent of a new window is the one of its first entry. */
  ghost predicate CreatedFor(w: ClientWindow, visible: seq<Visibility>)
    reads w`lastSentShapeMaskChecksum
  {
    forall k | FirstEntry(visible, k) && visible[k].window == w.window ::
      w.lastSentShapeMaskChecksum == visible[k].shapeMaskChecksum
  }

  lemma ShownTakes(w: ClientWindow, isNew: bool, quality: int, visible: seq<Visibility>)
    requires Shown(FaceOf(w), w.window, isNew, quality, visible)
    ensures TakesLast(w, visible) && (isNew ==> CreatedFor(w, visible))
  {
  }

  /** A window is due once its last entry has another shape than the one last sent. */
  lemma ReshapedIsDue(w: ClientWindow, visible: seq<Visibility>, k: int)
    requires TakesLast(w, visible) && LastEntry(visible, k) && visible[k].window == w.window
    requires visible[k].shapeMaskChecksum != w.lastSentShapeMaskChecksum
    ensures DeliveryOf(w).Due()
  {
  }

  lemma ListsExactly(windows: seq<ClientWindow>, visible: seq<Visibility>)
    requires forall w | w in windows :: Shows(visible, w.window)
    requires forall v | v in visible :: HasId(windows, v.window)
    ensures forall id :: HasId(windows, id) <==> Shows(visible, id)
  {
  }

  lemma ShownNone(windows: seq<ClientWindow>, quality: int)
    ensures forall w | w in windows :: Shown(FaceOf(w), w.window, false, quality, [])
  {
  }

  lemma ShownOther(f: Face, id: nat, isNew: bool, quality: int, visible: seq<Visibility>, v: Visibility)
    requires Shown(f, id, isNew, quality, visible) && v.window != id
    ensures Shown(f, id, isNew, quality, visible + [v])
  {
    var all := visible + [v];
    forall k | 0 <= k < |all| && all[k].window == id
      ensures LastEntry(all, k) ==> LastEntry(visible, k)
      ensures FirstEntry(all, k) ==> FirstEntry(visible, k)
    {
      assert forall j | 0 <= j < |visible| :: all[j] == visible[j];
    }
  }

  /** A window already listed shows its next entry. */
  lemma ShownAgain(f: Face, g: Face, isNew: bool, quality: int, visible: seq<Visibility>, v: Visibility)
    requires Shown(f, v.window, isNew, quality, visible) && Fits(g, v) && g.lastSent == f.lastSent
    requires isNew ==> Shows(visible, v.window)
    ensures Shown(g, v.window, isNew, quality, visible + [v])
  {
    var all, n := visible + [v], |visible|;
    assert all[n] == v && forall j | 0 <= j < n :: all[j] == visible[j];
    if isNew {
      var j :| 0 <= j < n && visible[j].window == v.window;
      assert all[j].window == v.window;
    }
    forall k | 0 <= k < |all| && all[k].window == v.window
      ensures k < n ==> !LastEntry(all, k) && (FirstEntry(all, k) ==> FirstEntry(visible, k))
      ensures k == n && isNew ==> !FirstEntry(all, k)
    {
      assert all[n].window == v.window;
    }
  }

  /** And a new one its first. */
  lemma ShownFirst(f: Face, quality: int, visible: seq<Visibility>, v: Visibility)
    requires !Shows(visible, v.window) && Fits(f, v) && f.lastSent == v.shapeMaskChecksum && f.quality == quality
    ensures Shown(f, v.window, true, quality, visible + [v])
  {
    assert forall k | 0 <= k < |visible| :: (visible + [v])[k] == visible[k] && visible[k] in visible;
  }

  /** The history tells what has been sent of each window, all of it by `latest`. */
  ghost predicate Recorded(windows: seq<ClientWindow>, history: map<nat, seq<Transfer>>, latest: int)
    reads windows`transfers, windows`imageRefreshTime
  {
    Kept(history, latest) && forall i | 0 <= i < |windows| :: RecordFits(RecordOf(windows[i]), history, latest)
  }

  ghost predicate Kept(history: map<nat, seq<Transfer>>, latest: int) {
    forall id | id in history :: Spaced(history[id]) && EndsBy(history[id], latest)
  }

  /** What has been sent of a window, and when it was last refreshed. */
  datatype Record = Record(window: nat, transfers: seq<Transfer>, refreshed: int)

  ghost function RecordOf(w: ClientWindow): Record
    reads w`transfers, w`imageRefreshTime
  {
    Record(w.window, w.transfers, w.imageRefreshTime)
  }

  ghost predicate RecordFits(r: Record, history: map<nat, seq<Transfer>>, latest: int) {
    r.window in history && history[r.window] == r.transfers && r.refreshed <= latest
  }

  ghost function SentOf(history: map<nat, seq<Transfer>>, id: nat): seq<Transfer> {
    if id in history then history[id] else []
  }

  lemma RecordedFor(windows: seq<ClientWindow>, history: map<nat, seq<Transfer>>, latest: int, now: int, id: nat)
    requires Recorded(windows, history, latest) && latest <= now
    ensures Recorded(windows, history, now) && Spaced(SentOf(history, id)) && EndsBy(SentOf(history, id), now)
  {
  }

  lemma RecordedWith(windows: seq<ClientWindow>, history: map<nat, seq<Transfer>>, now: int, w: ClientWindow)
    requires Recorded(windows, history, now) && w.imageRefreshTime <= now && w.transfers == SentOf(history, w.window)
    ensures Recorded(windows + [w], history[w.window := w.transfers], now)
    ensures forall id :: SentOf(history[w.window := w.transfers], id) == SentOf(history, id)
  {
  }

  lemma RecordedPart(windows: seq<ClientWindow>, kept: seq<ClientWindow>, history: map<nat, seq<Transfer>>, latest: int)
    requires Recorded(windows, history, latest) && forall i | 0 <= i < |kept| :: kept[i] in windows
    ensures Recorded(kept, history, latest)
  {
  }

  ghost predicate AllFit(records: seq<Record>, history: map<nat, seq<Transfer>>, latest: int) {
    Kept(history, latest) && forall i | 0 <= i < |records| :: RecordFits(records[i], history, latest)
  }

  ghost function Records(windows: seq<ClientWindow>): (s: seq<Record>)
    reads windows
    ensures |s| == |windows| && forall i | 0 <= i < |windows| :: s[i] == RecordOf(windows[i])
  {
    seq(|windows|, i requires 0 <= i < |windows| reads windows => RecordOf(windows[i]))
  }

  lemma RecordedIffAllFit(windows: seq<ClientWindow>, records: seq<Record>,
                          history: map<nat, seq<Transfer>>, latest: int)
    requires |records| == |windows| && forall i | 0 <= i < |windows| :: records[i] == RecordOf(windows[i])
    ensures Recorded(windows, history, latest) <==> AllFit(records, history, latest)
  {
  }

  /** One window was served, and maybe sent. */
  lemma RecordedServed(records: seq<Record>, history: map<nat, seq<Transfer>>, latest: int, now: int, i: nat, r: Record)
    requires AllFit(records, history, latest) && latest <= now && i < |records|
    requires forall j, k | 0 <= j < k < |records| :: records[j].window != records[k].window
    requires r.window == records[i].window && records[i].transfers <= r.transfers
    requires r.refreshed == records[i].refreshed || r.refreshed <= now
    requires Spaced(r.transfers) && EndsBy(r.transfers, r.refreshed)
    ensures AllFit(records[i := r], history[r.window := r.transfers], now)
    ensures forall id :: SentOf(history, id) <= SentOf(history[r.window := r.transfers], id)
  {
  }

  // ----- One pass over the windows

  /** What a window has to deliver and has delivered. */
  datatype Delivery = Delivery(damage: Damage, pending: seq<Damage>, newShape: bool, quality: int,
                               imageRefreshTime: int, transfers: seq<Transfer>)
  {
    predicate Due() { damage.HasDamage() || newShape }
  }

  ghost function DeliveryOf(w: ClientWindow): Delivery
    reads w
  {
    Delivery(w.damage, w.pending, w.ShapeRequiresUpdate(), w.quality, w.imageRefreshTime, w.transfers)
  }

  ghost function DeliveriesOf(windows: seq<ClientWindow>): (s: seq<Delivery>)
    reads windows
    ensures |s| == |windows|
    ensures forall i | 0 <= i < |windows| :: s[i] == DeliveryOf(windows[i])
  {
    seq(|windows|, i requires 0 <= i < |windows| reads windows => DeliveryOf(windows[i]))
  }

  /** What a window keeps through an update of the visibility list. */
  datatype Carried = Carried(damage: Damage, pending: seq<Damage>, imageRefreshTime: int, transfers: seq<Transfer>,
                             rgbChecksum: bv32, alphaChecksum: bv32, lastSent: bv32)

  ghost function CarriedOf(w: ClientWindow): Carried
    reads w`damage, w`pending, w`imageRefreshTime, w`transfers
    reads w`rgbChecksum, w`alphaChecksum, w`lastSentShapeMaskChecksum
  {
    Carried(w.damage, w.pending, w.imageRefreshTime, w.transfers,
            w.rgbChecksum, w.alphaChecksum, w.lastSentShapeMaskChecksum)
  }

  lemma DeliveryDamage(w: ClientWindow)
    ensures DeliveryOf(w).damage == w.damage
  {
  }

  /** The handler sent an image. */
  predicate Sent(outcome: Outcome) {
    outcome.Transferred? && outcome.status != Ignored
  }

  /** What a handler pass that started at `start` did with a window: all its damage was handed
      over and reset, or none of it was touched, and then only because the window was not due. */
  ghost predicate Handled(before: Delivery, after: Delivery, outcome: Outcome, called: bool, start: int) {
    && IsIndex(before.quality)
    && (if called && Sent(outcome) then
          && after.transfers == before.transfers + [Transfer(after.imageRefreshTime, UpdateTimeUs(before.quality))]
          && after.imageRefreshTime - before.imageRefreshTime > UpdateTimeUs(before.quality)
        else
          after.transfers == before.transfers && after.imageRefreshTime == before.imageRefreshTime)
    && if called then
         before.Due() && after.damage == NO_DAMAGE && after.pending == [] && !after.newShape
       else
         && after == before
         && !(before.Due() && before.imageRefreshTime < start - UpdateTimeUs(before.quality))
  }

  lemma HandledSince(before: Delivery, after: Delivery, outcome: Outcome, called: bool, earlier: int, start: int)
    requires Handled(before, after, outcome, called, start) && earlier <= start
    ensures Handled(before, after, outcome, called, earlier)
  {
  }

  ghost predicate Blank(w: ClientWindow)
    reads w`damage, w`pending, w`rgbChecksum, w`alphaChecksum
  {
    w.damage == NO_DAMAGE && w.pending == [] && w.rgbChecksum == w.alphaChecksum == 0
  }

  lemma ServedSpaced(w: ClientWindow)
    requires w.Valid()
    ensures Spaced(w.transfers) && EndsBy(w.transfers, w.imageRefreshTime)
  {
  }

  function Ids(windows: seq<ClientWindow>): (ids: seq<nat>)
    ensures |ids| == |windows|
  {
    seq(|windows|, i requires 0 <= i < |windows| => windows[i].window)
  }

  /** The handler calls of a pass, in order: each with the window's whole damage. */
  ghost function CallsMade(ids: seq<nat>, mask: Mask, before: seq<Delivery>, called: seq<bool>): seq<Call>
    requires |ids| == |before| == |called|
  {
    if ids == [] then []
    else
      var n := |ids| - 1;
      var calls := CallsMade(ids[..n], mask, before[..n], called[..n]);
      if called[n] then calls + [Call(ids[n], mask, before[n].damage)] else calls
  }

  lemma NoCalls(ids: seq<nat>, mask: Mask, before: seq<Delivery>)
    requires |ids| == |before|
    ensures CallsMade(ids[..0], mask, before[..0], []) == []
  {
  }

  lemma NextCall(ids: seq<nat>, mask: Mask, before: seq<Delivery>, called: seq<bool>, now: bool, i: nat)
    requires i < |ids| == |before| && |called| == i
    ensures CallsMade(ids[..i + 1], mask, before[..i + 1], called + [now]) ==
            CallsMade(ids[..i], mask, before[..i], called) + if now then [Call(ids[i], mask, before[i].damage)] else []
  {
    assert ids[..i + 1][..i] == ids[..i] && before[..i + 1][..i] == before[..i] && (called + [now])[..i] == called;
  }

  function CountTrue(marks: seq<bool>): nat {
    if marks == [] then 0 else CountTrue(marks[..|marks| - 1]) + if marks[|marks| - 1] then 1 else 0
  }

  /** One call for each window handed over, in the order of the windows, with the mask and all of its damage. */
  lemma {:induction false} CallOf(ids: seq<nat>, mask: Mask, before: seq<Delivery>, called: seq<bool>, i: nat)
    requires i < |ids| == |before| == |called| && called[i]
    ensures |CallsMade(ids, mask, before, called)| == CountTrue(called) > CountTrue(called[..i])
    ensures CallsMade(ids, mask, before, called)[CountTrue(called[..i])] == Call(ids[i], mask, before[i].damage)
    decreases |ids|
  {
    var n := |ids| - 1;
    CallsCounted(ids[..n], mask, before[..n], called[..n]);
    if i < n {
      CallOf(ids[..n], mask, before[..n], called[..n], i);
      assert called[..n][..i] == called[..i];
    }
  }

  lemma {:induction false} CallsCounted(ids: seq<nat>, mask: Mask, before: seq<Delivery>, called: seq<bool>)
    requires |ids| == |before| == |called|
    ensures |CallsMade(ids, mask, before, called)| == CountTrue(called)
    decreases |ids|
  {
    if ids == [] {
    } else {
      var n := |ids| - 1;
      CallsCounted(ids[..n], mask, before[..n], called[..n]);
    }
  }

  /** A window is due as long as a cell of its damage has not been handed over. */
  lemma PendingIsDue(w: ClientWindow, d: Damage, x: int, y: int)
    requires w.Valid() && d in w.pending && d.Covers(x, y)
    ensures DeliveryOf(w).Due()
  {
    assert w.damage.Covers(x, y);
  }

  /** The body of the handler loop for one window. */
  method Serve(w: ClientWindow, outcome: Outcome, clock: Clock) returns (called: bool)
    requires w.Valid()
    modifies w, clock`last
    ensures w.Valid() && old(clock.last) <= clock.last
    ensures called ==> old(w.imageRefreshTime) < clock.last - UpdateTimeUs(old(w.quality))
    ensures old(w.transfers) <= w.transfers
    ensures w.imageRefreshTime == old(w.imageRefreshTime) || w.imageRefreshTime <= clock.last
    ensures Handled(old(DeliveryOf(w)), DeliveryOf(w), outcome, called, old(clock.last))
    ensures called && outcome.Transferred? && outcome.status == FullWindow ==>
              w.rgbChecksum == outcome.rgbChecksum && w.alphaChecksum == outcome.alphaChecksum
  {
    hide Spaced, Keeps, EndsBy;
    called := false;
    var updateTimeUs := UpdateTimeUs(w.quality);
    var now := clock.Now();
    var reference := now - updateTimeUs;
    if (w.damage.HasDamage() || w.ShapeRequiresUpdate()) && w.RequiresRefresh(reference) {
      called := true;
      var timestamp := clock.Now();
      if outcome.Transferred? {
        w.OnImageTransfer(outcome.status, outcome.rgbChecksum, outcome.alphaChecksum, timestamp, updateTimeUs);
      }
      w.ResetDamage();
      w.lastSentShapeMaskChecksum := w.shapeMaskChecksum;
    }
  }

  /** The windows of a `WebXClientGroup`. */
  class GroupWindows {
    const quality: int
    var windows: seq<ClientWindow>

    /** The images sent of each window so far, and a time by which all had been. */
    ghost var history: map<nat, seq<Transfer>>
    ghost var latest: int

    ghost predicate Valid()
      reads this, windows
    {
      && IsIndex(quality) && DistinctIds(windows) && (forall w | w in windows :: w.Valid())
      && Recorded(windows, history, latest)
    }

    ghost function Sent(id: nat): seq<Transfer>
      reads this
    {
      SentOf(history, id)
    }

    /** Two images of a window are more than the update time of the later one apart, also if the window
        disappeared in between. */
    lemma AnyTwoSent(id: nat, i: nat, j: nat)
      requires Valid() && i < j < |Sent(id)|
      ensures Sent(id)[j].time - Sent(id)[i].time > Sent(id)[j].updateTimeUs
    {
      AnyTwoSpaced(Sent(id), i, j);
    }

    constructor (quality: int)
      requires IsIndex(quality)
      ensures Valid() && windows == [] && this.quality == quality && history == map[] && latest == 0
    {
      this.quality, windows, history, latest := quality, [], map[], 0;
    }

    method Find(id: nat) returns (k: nat)
      ensures k <= |windows| && (k < |windows| ==> windows[k].window == id)
      ensures k == |windows| ==> !HasId(windows, id)
    {
      k := 0;
      while k < |windows| && windows[k].window != id
        invariant 0 <= k <= |windows|
        invariant forall j | 0 <= j < k :: windows[j].window != id
      {
        k := k + 1;
      }
    }

    /** Damage reaches exactly its window, which is created if need be. */
    method AddWindowDamage(id: nat, d: Damage, clock: Clock)
      requires Valid() && latest <= clock.last
      modifies this`windows, this`history, this`latest, windows`damage, windows`pending, clock`last
      ensures Valid() && old(clock.last) <= latest == clock.last && old(windows) <= windows && HasId(windows, id)
      ensures forall other :: Sent(other) == old(Sent(other))
      ensures forall w | w in windows ::
                if w in old(windows) then
                  if w.window == id then w.pending == old(w.pending) + [d] && w.damage == old(w.damage).Plus(d)
                  else w.pending == old(w.pending) && w.damage == old(w.damage)
                else
                  && fresh(w) && w.window == id && w.pending == [d] && w.damage == d
                  && w.quality == quality && old(clock.last) <= w.imageRefreshTime <= clock.last
                  && w.shapeMaskChecksum == w.lastSentShapeMaskChecksum == 0
    {
      hide ClientWindow.Valid, Recorded;
      var k := Find(id);
      if k == |windows| {
        var now := clock.Now();
        RecordedFor(windows, history, latest, now, id);
        var w := new ClientWindow.FromDamage(id, d, quality, now, Sent(id));
        Record(w, now);
      } else {
        RecordedFor(windows, history, latest, clock.last, id);
        latest := clock.last;
        windows[k].AddDamage(d);
      }
    }

    /** A new window is listed. */
    method Record(w: ClientWindow, ghost now: int)
      requires IsIndex(quality) && DistinctIds(windows) && !HasId(windows, w.window)
      requires forall v | v in windows :: v.Valid()
      requires Recorded(windows, history, now)
      requires w.Valid() && w.imageRefreshTime <= now && w.transfers == Sent(w.window) && EndsBy(w.transfers, now)
      modifies this`windows, this`history, this`latest
      ensures Valid() && latest == now && windows == old(windows) + [w]
      ensures forall id :: Sent(id) == old(Sent(id))
    {
      hide ClientWindow.Valid, Recorded;
      RecordedWith(windows, history, now, w);
      assert forall i | 0 <= i < |windows| :: windows[i] in windows;
      windows, history, latest := windows + [w], history[w.window := w.transfers], now;
    }

    method RemoveInvisible(visible: seq<Visibility>)
      requires Valid()
      modifies this`windows
      ensures Valid()
      ensures forall w :: w in windows <==> w in old(windows) && Shows(visible, w.window)
      ensures forall i | 0 <= i < |windows| :: windows[i] in old(windows)
    {
      hide ClientWindow.Valid, Recorded;
      var kept: seq<ClientWindow> := [];
      for i := 0 to |windows|
        invariant DistinctIds(kept) && forall j | 0 <= j < |kept| :: kept[j] in windows
        invariant forall w :: w in kept <==> w in windows[..i] && Shows(visible, w.window)
      {
        if exists v :: v in visible && v.window == windows[i].window {
          kept := kept + [windows[i]];
        }
      }
      RecordedPart(windows, kept, history, latest);
      windows := kept;
    }

    /** One entry of the visibility list: the window takes size and shape from it, or is created with the
        quality of the group. */
    method Show(v: Visibility, clock: Clock)
      requires Valid() && latest <= clock.last
      modifies this`windows, this`history, this`latest, clock`last
      modifies windows`width, windows`height, windows`shapeMaskChecksum, windows`quality
      ensures Valid() && old(clock.last) <= latest == clock.last && old(windows) <= windows && HasId(windows, v.window)
      ensures forall id :: Sent(id) == old(Sent(id))
      ensures forall w | w in windows && w.window == v.window :: Fits(FaceOf(w), v)
      ensures forall w | w in old(windows) && w.window != v.window :: FaceOf(w) == old(FaceOf(w))
      ensures forall w | w in windows ::
                || w in old(windows)
                || (fresh(w) && Blank(w) && w.window == v.window && !old(HasId(windows, v.window))
                    && w.lastSentShapeMaskChecksum == v.shapeMaskChecksum && w.quality == quality
                    && old(clock.last) <= w.imageRefreshTime <= clock.last)
    {
      hide ClientWindow.Valid, Recorded;
      var at := Find(v.window);
      if at == |windows| {
        var now := clock.Now();
        RecordedFor(windows, history, latest, now, v.window);
        var w := new ClientWindow.FromVisibility(v, quality, now, Sent(v.window));
        Record(w, now);
        assert w in windows;
      } else {
        RecordedFor(windows, history, latest, clock.last, v.window);
        latest := clock.last;
        windows[at].Update(v);
        assert windows[at] in windows;
      }
    }

    method RequalifyAll()
      requires Valid()
      modifies windows`quality
      ensures Valid()
    {
      hide ClientWindow.Valid, Recorded;
      for i := 0 to |windows|
        invariant Valid()
      {
        windows[i].Requalify();
      }
    }

    /** The loop over the visibility list. */
    method ShowAll(visible: seq<Visibility>, clock: Clock)
      requires Valid() && latest <= clock.last && forall w | w in windows :: Shows(visible, w.window)
      modifies this`windows, this`history, this`latest, clock`last
      modifies windows`width, windows`height, windows`shapeMaskChecksum, windows`quality
      ensures Valid() && old(clock.last) <= clock.last && latest <= clock.last && old(windows) <= windows
      ensures forall id :: Sent(id) == old(Sent(id))
      ensures forall id :: HasId(windows, id) <==> Shows(visible, id)
      ensures forall w | w in windows :: Shown(FaceOf(w), w.window, w !in old(windows), quality, visible)
      ensures forall w | w in windows ::
                || w in old(windows)
                || (fresh(w) && Blank(w) && old(clock.last) <= w.imageRefreshTime <= clock.last)
      ensures forall i | 0 <= i < |windows| :: windows[i] in old(windows) || fresh(windows[i])
    {
      hide ClientWindow.Valid, Recorded, SentOf, Blank, Shown, FaceOf, Fits, HasId, Shows;
      ShownNone(windows, quality);
      for k := 0 to |visible|
        invariant Valid() && old(clock.last) <= clock.last && latest <= clock.last && old(windows) <= windows
        invariant forall i | 0 <= i < |windows| :: windows[i] in old(windows) || fresh(windows[i])
        invariant forall id :: Sent(id) == old(Sent(id))
        invariant forall w | w in windows :: Shows(visible, w.window)
        invariant forall v | v in visible[..k] :: HasId(windows, v.window)
        invariant forall w | w in windows ::
                    || w in old(windows)
                    || (fresh(w) && Blank(w) && old(clock.last) <= w.imageRefreshTime <= clock.last
                        && Shows(visible[..k], w.window))
        invariant forall w | w in windows :: Shown(FaceOf(w), w.window, w !in old(windows), quality, visible[..k])
      {
        ShowNext(visible, k, old(windows), clock);
      }
      assert visible[..|visible|] == visible;
      ListsExactly(windows, visible);
    }

    /** One pass of that loop. */
    method ShowNext(visible: seq<Visibility>, k: nat, ghost before: seq<ClientWindow>, clock: Clock)
      requires Valid() && latest <= clock.last && k < |visible|
      requires forall w | w in windows ::
                 && Shown(FaceOf(w), w.window, w !in before, quality, visible[..k])
                 && (w !in before ==> Shows(visible[..k], w.window))
      requires forall v | v in visible[..k] :: HasId(windows, v.window)
      requires forall w | w in before :: w in windows
      modifies this`windows, this`history, this`latest, clock`last
      modifies windows`width, windows`height, windows`shapeMaskChecksum, windows`quality
      ensures Valid() && old(clock.last) <= latest == clock.last && old(windows) <= windows
      ensures forall id :: Sent(id) == old(Sent(id))
      ensures forall v | v in visible[..k + 1] :: HasId(windows, v.window)
      ensures forall w | w in windows ::
                || w in old(windows)
                || (fresh(w) && Blank(w) && Shows(visible, w.window)
                    && old(clock.last) <= w.imageRefreshTime <= clock.last)
      ensures forall w | w in windows ::
                && Shown(FaceOf(w), w.window, w !in before, quality, visible[..k + 1])
                && (w !in before ==> Shows(visible[..k + 1], w.window))
    {
      hide ClientWindow.Valid, Recorded, SentOf, Blank, Shown, Fits;
      var v := visible[k];
      ghost var faces := map w | w in windows :: FaceOf(w);
      Show(v, clock);
      assert visible[..k + 1] == visible[..k] + [v] && v in visible;
      forall w | w in windows
        ensures Shown(FaceOf(w), w.window, w !in before, quality, visible[..k + 1])
      {
        if w !in faces {
          ShownFirst(FaceOf(w), quality, visible[..k], v);
        } else if w.window == v.window {
          ShownAgain(faces[w], FaceOf(w), w !in before, quality, visible[..k], v);
        } else {
          ShownOther(FaceOf(w), w.window, w !in before, quality, visible[..k], v);
        }
      }
    }

    /** After an update exactly the visible windows exist, each with the size and the shape of its last entry.
        Windows that stay keep all they have to deliver and to compare with; so those whose shape is another
        than the one last sent are due.  New ones have nothing to deliver, unless their entries differ. */
    method UpdateVisibleWindows(visible: seq<Visibility>, clock: Clock)
      requires Valid() && latest <= clock.last
      modifies this`windows, this`history, this`latest, clock`last
      modifies windows`width, windows`height, windows`shapeMaskChecksum, windows`quality
      ensures Valid() && old(clock.last) <= clock.last && latest <= clock.last
      ensures forall id :: Sent(id) == old(Sent(id))
      ensures forall id :: HasId(windows, id) <==> Shows(visible, id)
      ensures forall w | w in old(windows) :: w in windows <==> Shows(visible, w.window)
      ensures forall w | w in windows :: TakesLast(w, visible)
      ensures forall w | w in windows && w in old(windows) :: CarriedOf(w) == old(CarriedOf(w))
      ensures forall w | w in windows ::
                || w in old(windows)
                || (fresh(w) && Blank(w) && CreatedFor(w, visible)
                    && old(clock.last) <= w.imageRefreshTime <= clock.last)
    {
      hide ClientWindow.Valid, Recorded, SentOf, Shown, FaceOf, TakesLast, CreatedFor, Blank, HasId, Shows;
      RemoveInvisible(visible);
      ghost var kept := windows;
      ShowAll(visible, clock);
      forall w | w in windows
        ensures TakesLast(w, visible) && (w !in kept ==> CreatedFor(w, visible))
      {
        ShownTakes(w, w !in kept, quality, visible);
      }
      RequalifyAll();
    }

    /** One pass of the update handler over the windows, for the clients of a mask; `outcomes[i]` is what it
        answers for window i if it is called.  A window is handed over exactly when it has something to show
        and was last refreshed long enough ago; it is then handed all of its damage, which is
        reset whatever the answer. */
    method HandleGraphicalUpdates(clientIndexMask: Mask, outcomes: seq<Outcome>, clock: Clock)
      returns (calls: seq<Call>, ghost called: seq<bool>)
      requires Valid() && |outcomes| == |windows| && latest <= clock.last
      modifies this`history, this`latest, windows, clock`last
      ensures Valid() && old(clock.last) <= latest == clock.last
      ensures forall id :: old(Sent(id)) <= Sent(id)
      ensures |called| == |windows|
      ensures forall i | 0 <= i < |windows| ::
                Handled(old(DeliveriesOf(windows))[i], DeliveryOf(windows[i]), outcomes[i], called[i], old(clock.last))
      ensures calls == CallsMade(Ids(windows), clientIndexMask, old(DeliveriesOf(windows)), called)
    {
      hide ClientWindow.Valid, Handled, DeliveryOf, CallsMade, Recorded, SentOf;
      calls, called := [], [];
      ghost var before, ids := DeliveriesOf(windows), Ids(windows);
      NoCalls(ids, clientIndexMask, before);
      RecordedFor(windows, history, latest, clock.last, 0);
      latest := clock.last;
      for i := 0 to |windows|
        invariant Valid() && old(clock.last) <= latest == clock.last && |called| == i
        invariant forall id :: old(Sent(id)) <= Sent(id)
        invariant calls == CallsMade(ids[..i], clientIndexMask, before[..i], called)
        invariant forall j | i <= j < |windows| :: unchanged(windows[j])
        invariant forall j | 0 <= j < i ::
                    Handled(before[j], DeliveryOf(windows[j]), outcomes[j], called[j], old(clock.last))
      {
        var w := windows[i];
        var damage := w.damage;
        ghost var start := clock.last;
        assert DeliveryOf(w) == before[i] && damage == before[i].damage by { DeliveryDamage(w); }
        var now := ServeAndRecord(w, i, outcomes[i], clock);
        HandledSince(before[i], DeliveryOf(w), outcomes[i], now, old(clock.last), start);
        NextCall(ids, clientIndexMask, before, called, now, i);
        called := called + [now];
        if now {
          calls := calls + [Call(w.window, clientIndexMask, damage)];
        }
      }
      assert ids[..|windows|] == ids && before[..|windows|] == before;
    }

    /** One window is served, and what is sent of it put on record. */
    method ServeAndRecord(w: ClientWindow, ghost i: nat, outcome: Outcome, clock: Clock) returns (called: bool)
      requires Valid() && i < |windows| && w == windows[i] && latest <= clock.last
      modifies this`history, this`latest, w, clock`last
      ensures Valid() && old(clock.last) <= latest == clock.last
      ensures forall id :: old(Sent(id)) <= Sent(id)
      ensures Handled(old(DeliveryOf(w)), DeliveryOf(w), outcome, called, old(clock.last))
    {
      hide ClientWindow.Valid, Handled, DeliveryOf, Recorded, AllFit;
      ghost var records := Records(windows);
      RecordedIffAllFit(windows, records, history, latest);
      called := Serve(w, outcome, clock);
      ServedSpaced(w);
      RecordedServed(records, history, latest, clock.last, i, RecordOf(w));
      RecordedIffAllFit(windows, records[i := RecordOf(w)], history[w.window := w.transfers], clock.last);
      history := history[w.window := w.transfers];
      latest := clock.last;
    }
  }
}
