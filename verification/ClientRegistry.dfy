/** The registry of clients and quality groups.  Every public operation runs under one lock and is
    one atomic step here. */
module ClientRegistry {
  import opened ClientIndices
  import opened Words
  import opened Clients
  import opened ClientGroups
  import opened Clocks
  import opened Qualities
  import opened Results

  datatype Message =
    | PingMessage(index: Mask)
    | DisconnectMessage(index: Mask)
    | QualityMessage(index: Mask, quality: int)

  /** The clients assigned to a quality. */
  ghost function ClassOf(assignment: map<Client, int>, quality: int): set<Client> {
    set c | c in assignment && assignment[c] == quality
  }

  ghost predicate HasQuality(groups: seq<ClientGroup>, quality: int) {
    exists i :: 0 <= i < |groups| && groups[i].quality == quality
  }

  ghost predicate DistinctQualities(groups: seq<ClientGroup>) {
    forall i, j | 0 <= i < j < |groups| :: groups[i].quality != groups[j].quality
  }

  /** Groups of distinct qualities that hold each client of the assignment in the group of its
      quality, and nothing else. */
  ghost predicate Classes(groups: seq<ClientGroup>, assignment: map<Client, int>)
    reads groups
  {
    && DistinctQualities(groups)
    && (forall i | 0 <= i < |groups| ::
          groups[i].Valid() && Members(groups[i].clients) == ClassOf(assignment, groups[i].quality))
    && (forall c | c in assignment :: HasQuality(groups, assignment[c]))
  }

  ghost predicate NonEmpty(groups: seq<ClientGroup>)
    reads groups
  {
    forall i | 0 <= i < |groups| :: groups[i].clients != []
  }

  /** The table of groups: one for each quality in use, none empty, every client in exactly one. */
  ghost predicate Table(groups: seq<ClientGroup>, assignment: map<Client, int>)
    reads groups
  {
    Classes(groups, assignment) && NonEmpty(groups)
  }

  /** An empty group can be dropped. */
  lemma ClassesWithout(groups: seq<ClientGroup>, k: nat, assignment: map<Client, int>)
    requires Classes(groups, assignment) && k < |groups| && groups[k].clients == []
    requires forall i | 0 <= i < |groups| && i != k :: groups[i].clients != []
    ensures Table(groups[..k] + groups[k + 1..], assignment)
  {
    hide ClientGroup.Valid;
    var rest := groups[..k] + groups[k + 1..];
    assert forall i | 0 <= i < |rest| :: rest[i] == groups[if i < k then i else i + 1];
    forall c | c in assignment
      ensures HasQuality(rest, assignment[c])
    {
      var i :| 0 <= i < |groups| && groups[i].quality == assignment[c];
      assert c in ClassOf(assignment, groups[i].quality);
      assert rest[if i < k then i else i - 1].quality == assignment[c];
    }
  }

  lemma ClassWithout(assignment: map<Client, int>, c: Client, quality: int)
    ensures ClassOf(assignment - {c}, quality) == ClassOf(assignment, quality) - {c}
  {
  }

  lemma MemberIds(groups: seq<ClientGroup>, assignment: map<Client, int>, k: nat, c: Client)
    requires Classes(groups, assignment) && k < |groups|
    requires forall d | d in assignment :: d == c || d.id != c.id
    requires exists d :: d in groups[k].clients && d.id == c.id
    ensures c in assignment && assignment[c] == groups[k].quality
    ensures OthersThan(groups[k].clients, c.id) == ClassOf(assignment, groups[k].quality) - {c}
  {
    assert forall d :: d in groups[k].clients <==> d in Members(groups[k].clients);
  }

  lemma MembersAssigned(groups: seq<ClientGroup>, assignment: map<Client, int>, k: nat)
    requires Classes(groups, assignment) && k < |groups|
    ensures groups[k].Valid() && forall i | 0 <= i < |groups[k].clients| :: groups[k].clients[i] in assignment
  {
    assert forall i | 0 <= i < |groups[k].clients| :: groups[k].clients[i] in Members(groups[k].clients);
  }

  lemma GroupMask(g: ClientGroup, c: Client)
    requires g.Valid() && OneBit(c.index)
    requires forall i | 0 <= i < |g.clients| && g.clients[i] != c :: Disjoint(g.clients[i].index, c.index)
    ensures !Disjoint(g.mask, c.index) <==> c in g.clients
  {
    hide OrAll, OneBit, Disjoint;
    if c in g.clients {
      var i :| 0 <= i < |g.clients| && g.clients[i] == c;
      assert Indices(g.clients)[i] == c.index;
      MemberMeetsAll(Indices(g.clients), i);
    } else {
      OrAllDisjoint(Indices(g.clients), c.index);
    }
  }

  lemma AssignedIsMember(groups: seq<ClientGroup>, assignment: map<Client, int>, c: Client)
    requires Classes(groups, assignment) && c in assignment
    ensures exists i :: 0 <= i < |groups| && groups[i].quality == assignment[c] && c in groups[i].clients
  {
  }

  lemma ClassesWith(groups: seq<ClientGroup>, assignment: map<Client, int>, g: ClientGroup)
    requires Classes(groups, assignment) && !HasQuality(groups, g.quality) && g.Valid() && g.clients == []
    ensures Classes(groups + [g], assignment)
  {
    hide ClientGroup.Valid;
    var all := groups + [g];
    assert ClassOf(assignment, g.quality) == {} == Members([]);
    forall c | c in assignment
      ensures HasQuality(all, assignment[c])
    {
      var i :| 0 <= i < |groups| && groups[i].quality == assignment[c];
      assert all[i].quality == assignment[c];
    }
  }

  lemma ClassWith(assignment: map<Client, int>, c: Client, own: int, quality: int)
    requires c !in assignment
    ensures ClassOf(assignment[c := own], quality) ==
            if quality == own then ClassOf(assignment, quality) + {c} else ClassOf(assignment, quality)
  {
  }

  lemma MembersAppend(clients: seq<Client>, c: Client)
    ensures Members(clients + [c]) == Members(clients) + {c}
  {
  }

  lemma LowestFreeBit(index: Mask, mask: Mask)
    requires LowestFree(index, mask)
    ensures OneBit(index) && Disjoint(index, mask)
  {
  }

  /** No client is served better than its own limit, nor that better than the runtime maximum. */
  ghost predicate Bounded(assignment: map<Client, int>, runtimeMax: int)
    reads assignment.Keys`maxQuality
  {
    forall c | c in assignment :: 1 <= assignment[c] <= c.maxQuality <= runtimeMax
  }

  /** Every client has the registry's timeout. */
  ghost predicate Timed(assignment: map<Client, int>, timeoutUs: int) {
    forall c | c in assignment :: c.pingResponseTimeoutUs == timeoutUs
  }

  /** The registered clients have distinct ids and indices, the mask holds just their indices and
      the leaked ones, and each has a quality. */
  ghost predicate Listed(clients: seq<Client>, assignment: map<Client, int>, mask: Mask, leaked: Mask) {
    && DistinctClients(clients)
    && MaskHolds(mask, Indices(clients), leaked)
    && Members(clients) == assignment.Keys
  }

  lemma ListedAdd(clients: seq<Client>, assignment: map<Client, int>, mask: Mask, leaked: Mask, c: Client, quality: int)
    requires Listed(clients, assignment, mask, leaked) && (forall d | d in clients :: d.id != c.id)
    requires OneBit(c.index) && Disjoint(c.index, mask)
    ensures Listed(clients + [c], assignment[c := quality], Or(mask, c.index), leaked)
    ensures c !in assignment && forall d | d in assignment :: d.id != c.id && Disjoint(d.index, c.index)
  {
    hide Disjoint, Or, OneBit, MaskHolds;
    MaskAdd(mask, Indices(clients), leaked, c.index);
    IndicesAppend(clients, c);
    MembersAppend(clients, c);
    forall d | d in assignment
      ensures d.id != c.id && Disjoint(d.index, c.index)
    {
      var i :| 0 <= i < |clients| && clients[i] == d;
      assert Indices(clients)[i] == d.index;
    }
  }

  lemma BoundedWith(assignment: map<Client, int>, c: Client, quality: int, runtimeMax: int)
    requires Bounded(assignment, runtimeMax) && 1 <= quality <= c.maxQuality <= runtimeMax
    ensures Bounded(assignment[c := quality], runtimeMax)
  {
  }

  /** Between operations every client waits, either to be pinged or for its pong. */
  ghost predicate Settled(clients: seq<Client>)
    reads clients`pingStatus, clients`pingSentTime, clients`pings
  {
    forall i | 0 <= i < |clients| ::
      clients[i].Valid() && (clients[i].pingStatus == WaitingToPing || clients[i].pingStatus == WaitingForPong)
  }

  lemma SettledWith(clients: seq<Client>, c: Client)
    requires Settled(clients) && c.Valid() && c.pingStatus == WaitingToPing
    ensures Settled(clients + [c])
  {
  }

  lemma SettledWithout(clients: seq<Client>, k: nat)
    requires k < |clients|
    ensures Settled(clients) ==> Settled(Removed(clients, k))
  {
    hide Client.Valid;
    assert forall i | 0 <= i < |Removed(clients, k)| :: Removed(clients, k)[i] == clients[if i < k then i else i + 1];
  }

  lemma ListedRemove(clients: seq<Client>, assignment: map<Client, int>, mask: Mask, leaked: Mask, k: nat)
    requires Listed(clients, assignment, mask, leaked) && k < |clients|
    ensures Listed(Removed(clients, k), assignment - {clients[k]}, Without(mask, clients[k].index), leaked)
    ensures Members(Removed(clients, k)) == Members(clients) - {clients[k]}
    ensures forall d | d in assignment :: d == clients[k] || d.id != clients[k].id
    ensures forall j | 0 <= j < |clients| && clients[j].id == clients[k].id :: j == k
  {
    hide Without, MaskHolds;
    MaskRemove(mask, Indices(clients), leaked, k);
    RemovedMembers(clients, k);
    assert Indices(Removed(clients, k)) == Indices(clients)[..k] + Indices(clients)[k + 1..];
  }

  lemma BoundedOwn(assignment: map<Client, int>, c: Client, runtimeMax: int)
    requires Bounded(assignment, runtimeMax) && c in assignment
    ensures 1 <= assignment[c] <= c.maxQuality <= runtimeMax
  {
  }

  lemma BoundedWithout(assignment: map<Client, int>, c: Client, runtimeMax: int)
    requires Bounded(assignment, runtimeMax)
    ensures Bounded(assignment - {c}, runtimeMax)
  {
  }

  lemma ListedOthers(clients: seq<Client>, assignment: map<Client, int>, mask: Mask, leaked: Mask, c: Client)
    requires Listed(clients, assignment, mask, leaked) && c in assignment
    ensures OneBit(c.index)
    ensures forall d | d in assignment && d != c :: d.id != c.id && Disjoint(d.index, c.index)
  {
    hide Disjoint, OneBit;
    var i :| 0 <= i < |clients| && clients[i] == c;
    assert Indices(clients)[i] == c.index;
    forall d | d in assignment && d != c
      ensures d.id != c.id && Disjoint(d.index, c.index)
    {
      var j :| 0 <= j < |clients| && clients[j] == d;
      assert Indices(clients)[j] == d.index;
      DisjointComm(d.index, c.index);
    }
  }

  lemma ListedMove(clients: seq<Client>, assignment: map<Client, int>, mask: Mask, leaked: Mask,
                   c: Client, quality: int)
    requires Listed(clients, assignment, mask, leaked) && c in assignment
    ensures Listed(clients, assignment[c := quality], mask, leaked)
  {
  }

  lemma MovedMap(assignment: map<Client, int>, c: Client, quality: int)
    requires c in assignment
    ensures (assignment - {c})[c := quality] == assignment[c := quality]
    ensures assignment[c] == quality ==> assignment[c := quality] == assignment
  {
  }

  /** The group found for a registered client is the one of its quality. */
  lemma GroupOfClient(groups: seq<ClientGroup>, assignment: map<Client, int>, k: nat, c: Client)
    requires Table(groups, assignment) && c in assignment && k <= |groups|
    requires forall d | d in assignment && d != c :: d.id != c.id
    requires k < |groups| ==> exists d :: d in groups[k].clients && d.id == c.id
    requires k == |groups| ==> forall i, d | 0 <= i < |groups| && d in groups[i].clients :: d.id != c.id
    ensures k < |groups| && groups[k].quality == assignment[c]
  {
    if k < |groups| {
      MemberIds(groups, assignment, k, c);
    } else {
      AssignedIsMember(groups, assignment, c);
      assert false;
    }
  }

  lemma ListedClient(clients: seq<Client>, assignment: map<Client, int>, mask: Mask, leaked: Mask, k: nat)
    requires Listed(clients, assignment, mask, leaked) && k < |clients|
    ensures clients[k] in assignment
    ensures forall c | c in clients && c.id == clients[k].id :: c == clients[k]
    ensures forall i | 0 <= i < |clients| && clients[i].id == clients[k].id :: i == k
  {
    hide MaskHolds;
    assert clients[k] in Members(clients);
  }

  lemma ListedDistinct(clients: seq<Client>, assignment: map<Client, int>, mask: Mask, leaked: Mask)
    requires Listed(clients, assignment, mask, leaked)
    ensures DistinctClients(clients)
  {
  }

  lemma NoClients(mask: Mask, runtimeMax: int)
    ensures Listed([], map[], mask, mask) && Table([], map[]) && Bounded(map[], runtimeMax) && Settled([])
  {
    MaskLeak(mask);
  }

  // ----- Pings and moves

  /** A client is dropped only when it has not answered a ping for the timeout, and always when it had
      not by the time of the call. */
  ghost predicate Overdue(timeoutUs: int, isDropped: bool, before: PingStatus, ping: int, from: int, until: int) {
    && (isDropped ==> before == WaitingForPong && until - ping > timeoutUs)
    && (before == WaitingForPong && from - ping > timeoutUs ==> isDropped)
  }

  /** A client is pinged only when its last pong is old enough, and always when it was by the time of
      the call. */
  ghost predicate Due(c: Client, isPinged: bool, before: PingStatus, from: int, until: int)
    reads c`pongReceivedTime
  {
    && (isPinged ==> before == WaitingToPing && until - c.pongReceivedTime > PING_WAIT_INTERVAL_US)
    && (before == WaitingToPing && from - c.pongReceivedTime > PING_WAIT_INTERVAL_US ==> isPinged)
  }

  /** Exactly a client that required a ping was sent one. */
  ghost predicate Pinged(c: Client, before: PingStatus, pings: seq<PingEvent>, from: int, until: int)
    reads c`pingStatus, c`pings, c`pingSentTime
  {
    if before == RequiresPing then
      && c.pingStatus == WaitingForPong && c.pings == pings + [PingSent(c.pingSentTime)]
      && from <= c.pingSentTime <= until
    else
      c.pingStatus == before && c.pings == pings
  }

  /** The suggested change of quality for a measured bitrate ratio. */
  function Delta(ratio: real): int {
    if ratio >= 0.8 then -1 else if ratio < 0.2 then 1 else 0
  }

  function Clamped(index: int, max: int): int {
    if index < 1 then 1 else if index > max then max else index
  }

  /** The quality that verification leaves a client with. */
  function Verified(id: nat, max: int, quality: int, ratios: map<nat, real>, runtimeMax: int): (r: int)
    ensures 1 <= quality <= max <= runtimeMax <= MAX_QUALITY_INDEX ==> 1 <= r <= max && -1 <= r - quality <= 1
  {
    if id !in ratios then quality else ForIndex(Clamped(quality + Delta(ratios[id]), max), runtimeMax)
  }

  /** A high ratio costs a level down to 1, a low one earns a level up to the client's own limit, and any
      other, or none, changes nothing. */
  predicate FollowsRatio(before: int, after: int, max: int, id: nat, ratios: map<nat, real>) {
    && (id in ratios && ratios[id] >= 0.8 ==> after == if before > 1 then before - 1 else 1)
    && (id in ratios && ratios[id] < 0.2 ==> after == if before < max then before + 1 else max)
    && (id !in ratios || 0.2 <= ratios[id] < 0.8 ==> after == before)
  }

  lemma VerifiedFollows(id: nat, max: int, quality: int, ratios: map<nat, real>, runtimeMax: int)
    requires 1 <= quality <= max <= runtimeMax <= MAX_QUALITY_INDEX
    ensures FollowsRatio(quality, Verified(id, max, quality, ratios, runtimeMax), max, id, ratios)
  {
  }

  /** From the same quality and limit, a higher ratio never ends in a higher quality. */
  lemma HigherRatioNoBetter(id: nat, max: int, quality: int, low: map<nat, real>, high: map<nat, real>, runtimeMax: int)
    requires 1 <= quality <= max <= runtimeMax <= MAX_QUALITY_INDEX
    requires id in low && id in high && low[id] <= high[id]
    ensures Verified(id, max, quality, high, runtimeMax) <= Verified(id, max, quality, low, runtimeMax)
  {
    hide Verified;
    VerifiedFollows(id, max, quality, low, runtimeMax);
    VerifiedFollows(id, max, quality, high, runtimeMax);
  }

  /** The messages that tell the clients that moved of their new quality. */
  function Moves(clients: seq<Client>, before: map<Client, int>, after: map<Client, int>): seq<Message>
    requires forall i | 0 <= i < |clients| :: clients[i] in before && clients[i] in after
  {
    if clients == [] then []
    else
      var front, c := clients[..|clients| - 1], clients[|clients| - 1];
      Moves(front, before, after) + if after[c] == before[c] then [] else [QualityMessage(c.index, after[c])]
  }

  lemma {:induction false} MovesAgree(clients: seq<Client>, before: map<Client, int>,
                                      after: map<Client, int>, later: map<Client, int>)
    requires forall i | 0 <= i < |clients| :: clients[i] in before && clients[i] in after && clients[i] in later
    requires forall i | 0 <= i < |clients| :: after[clients[i]] == later[clients[i]]
    ensures Moves(clients, before, after) == Moves(clients, before, later)
  {
    if clients == [] {
    } else {
      MovesAgree(clients[..|clients| - 1], before, after, later);
    }
  }

  lemma MovesNext(clients: seq<Client>, k: nat, before: map<Client, int>, after: map<Client, int>, quality: int)
    requires k < |clients| && forall i | 0 <= i < |clients| :: clients[i] in before && clients[i] in after
    requires forall i, j | 0 <= i < j < |clients| :: clients[i] != clients[j]
    ensures Moves(clients[..k + 1], before, after[clients[k] := quality]) ==
            Moves(clients[..k], before, after)
            + if quality == before[clients[k]] then [] else [QualityMessage(clients[k].index, quality)]
  {
    assert clients[..k + 1][..k] == clients[..k];
    MovesAgree(clients[..k], before, after, after[clients[k] := quality]);
  }

  /** A verification pass that is through with the first k clients. */
  ghost predicate Progress(clients: seq<Client>, k: nat, before: map<Client, int>, after: map<Client, int>,
                           sentBefore: seq<Message>, sent: seq<Message>, ratios: map<nat, real>, runtimeMax: int)
    reads clients`maxQuality
  {
    && k <= |clients| && after.Keys == before.Keys
    && (forall i | 0 <= i < |clients| :: clients[i] in before && clients[i] in after)
    && sent == sentBefore + Moves(clients[..k], before, after)
    && (forall i | 0 <= i < |clients| ::
          var c := clients[i];
          after[c] == if i < k then Verified(c.id, c.maxQuality, before[c], ratios, runtimeMax) else before[c])
  }

  lemma ProgressNone(clients: seq<Client>, before: map<Client, int>, sent: seq<Message>,
                     ratios: map<nat, real>, runtimeMax: int)
    requires forall i | 0 <= i < |clients| :: clients[i] in before
    ensures Progress(clients, 0, before, before, sent, sent, ratios, runtimeMax)
  {
  }

  lemma ProgressNext(clients: seq<Client>, k: nat, before: map<Client, int>, after: map<Client, int>,
                     sentBefore: seq<Message>, sent: seq<Message>, ratios: map<nat, real>, runtimeMax: int)
    requires k < |clients| && (forall i, j | 0 <= i < j < |clients| :: clients[i] != clients[j])
    requires Progress(clients, k, before, after, sentBefore, sent, ratios, runtimeMax)
    ensures clients[k] in after
    ensures var c := clients[k];
            var quality := Verified(c.id, c.maxQuality, after[c], ratios, runtimeMax);
            var told := if quality == after[c] then [] else [QualityMessage(c.index, quality)];
            Progress(clients, k + 1, before, after[c := quality], sentBefore, sent + told, ratios, runtimeMax)
  {
    hide Verified, Moves;
    MovesNext(clients, k, before, after,
              Verified(clients[k].id, clients[k].maxQuality, before[clients[k]], ratios, runtimeMax));
  }

  lemma ProgressAll(clients: seq<Client>, before: map<Client, int>, after: map<Client, int>,
                    sentBefore: seq<Message>, sent: seq<Message>, ratios: map<nat, real>, runtimeMax: int)
    requires Progress(clients, |clients|, before, after, sentBefore, sent, ratios, runtimeMax)
    ensures after.Keys == before.Keys && (forall i | 0 <= i < |clients| :: clients[i] in before && clients[i] in after)
    ensures sent == sentBefore + Moves(clients, before, after)
    ensures forall c | c in clients :: after[c] == Verified(c.id, c.maxQuality, before[c], ratios, runtimeMax)
  {
    hide Verified, Moves;
    assert clients[..|clients|] == clients;
  }

  /** A status pass that ran between `from` and `until` changed the status only for a reason that
      held by its end, and missed none that held at its start. */
  ghost predicate Updated(before: PingStatus, after: PingStatus, pong: int, ping: int, timeoutUs: int,
                          from: int, until: int)
  {
    && (after == before
        || (before == WaitingToPing && after == RequiresPing && until - pong > PING_WAIT_INTERVAL_US)
        || (before == WaitingForPong && after == PongTimeout && until - ping > timeoutUs))
    && (before == WaitingToPing && from - pong > PING_WAIT_INTERVAL_US ==> after == RequiresPing)
    && (before == WaitingForPong && from - ping > timeoutUs ==> after == PongTimeout)
  }

  ghost predicate StatusUpdated(c: Client, before: PingStatus, from: int, until: int)
    reads c
  {
    Updated(before, c.pingStatus, c.pongReceivedTime, c.pingSentTime, c.pingResponseTimeoutUs, from, until)
  }

  ghost function Statuses(clients: seq<Client>): (s: seq<PingStatus>)
    reads clients`pingStatus
    ensures |s| == |clients| && forall i | 0 <= i < |clients| :: s[i] == clients[i].pingStatus
  {
    if clients == [] then [] else Statuses(clients[..|clients| - 1]) + [clients[|clients| - 1].pingStatus]
  }

  ghost function Histories(clients: seq<Client>): (s: seq<seq<PingEvent>>)
    reads clients`pings
    ensures |s| == |clients| && forall i | 0 <= i < |clients| :: s[i] == clients[i].pings
  {
    if clients == [] then [] else Histories(clients[..|clients| - 1]) + [clients[|clients| - 1].pings]
  }

  /** The clients of one status, in order. */
  ghost function WithStatus(clients: seq<Client>, statuses: seq<PingStatus>, status: PingStatus): seq<Client>
    requires |statuses| == |clients|
  {
    if clients == [] then []
    else
      var n := |clients| - 1;
      WithStatus(clients[..n], statuses[..n], status) + if statuses[n] == status then [clients[n]] else []
  }

  lemma {:induction false} InWithStatus(clients: seq<Client>, statuses: seq<PingStatus>, status: PingStatus, c: Client)
    requires |statuses| == |clients|
    ensures c in WithStatus(clients, statuses, status) <==>
            exists i | 0 <= i < |clients| :: clients[i] == c && statuses[i] == status
  {
    if clients == [] {
    } else {
      var n := |clients| - 1;
      var rest := WithStatus(clients[..n], statuses[..n], status);
      InWithStatus(clients[..n], statuses[..n], status, c);
      assert WithStatus(clients, statuses, status) == rest + if statuses[n] == status then [clients[n]] else [];
      hide WithStatus;
      if c in rest {
        var i :| 0 <= i < n && clients[..n][i] == c && statuses[..n][i] == status;
        assert clients[i] == c && statuses[i] == status;
      }
      if i :| 0 <= i < n && clients[i] == c && statuses[i] == status {
        assert clients[..n][i] == c && statuses[..n][i] == status;
      }
    }
  }

  lemma DistinctMore(clients: seq<Client>, c: Client)
    requires DistinctClients(clients) && forall d | d in clients :: d.id != c.id
    ensures DistinctClients(clients + [c])
  {
  }

  lemma {:induction false} WithStatusDistinct(clients: seq<Client>, statuses: seq<PingStatus>, status: PingStatus)
    requires DistinctClients(clients) && |statuses| == |clients|
    ensures DistinctClients(WithStatus(clients, statuses, status))
  {
    if clients == [] {
    } else {
      var n := |clients| - 1;
      var rest := WithStatus(clients[..n], statuses[..n], status);
      WithStatusDistinct(clients[..n], statuses[..n], status);
      forall c | c in rest
        ensures c.id != clients[n].id
      {
        InWithStatus(clients[..n], statuses[..n], status, c);
      }
      DistinctMore(rest, clients[n]);
    }
  }

  lemma WithStatusMembers(clients: seq<Client>, statuses: seq<PingStatus>, status: PingStatus)
    requires DistinctClients(clients) && |statuses| == |clients|
    ensures DistinctClients(WithStatus(clients, statuses, status))
    ensures forall i | 0 <= i < |WithStatus(clients, statuses, status)| ::
              WithStatus(clients, statuses, status)[i] in clients
    ensures forall i | 0 <= i < |clients| ::
              clients[i] in WithStatus(clients, statuses, status) <==> statuses[i] == status
  {
    WithStatusDistinct(clients, statuses, status);
    hide WithStatus;
    forall i | 0 <= i < |WithStatus(clients, statuses, status)|
      ensures WithStatus(clients, statuses, status)[i] in clients
    {
      InWithStatus(clients, statuses, status, WithStatus(clients, statuses, status)[i]);
    }
    forall i | 0 <= i < |clients|
      ensures clients[i] in WithStatus(clients, statuses, status) <==> statuses[i] == status
    {
      InWithStatus(clients, statuses, status, clients[i]);
    }
  }

  lemma PingsNext(clients: seq<Client>, statuses: seq<PingStatus>, k: nat)
    requires |statuses| == |clients| && k < |clients|
    ensures Pings(WithStatus(clients[..k + 1], statuses[..k + 1], RequiresPing)) ==
            Pings(WithStatus(clients[..k], statuses[..k], RequiresPing))
            + if statuses[k] == RequiresPing then [PingMessage(clients[k].index)] else []
  {
    assert clients[..k + 1][..k] == clients[..k] && statuses[..k + 1][..k] == statuses[..k];
  }

  /** Pings have been sent to the first k clients as needed. */
  ghost predicate PingsThrough(clients: seq<Client>, k: int, statuses: seq<PingStatus>,
                               histories: seq<seq<PingEvent>>, from: int, until: int)
    requires |statuses| == |histories| == |clients|
    reads clients`pingStatus, clients`pings, clients`pingSentTime
  {
    forall i | 0 <= i < |clients| ::
      && clients[i].Valid() && statuses[i] != PongTimeout
      && if i < k then Pinged(clients[i], statuses[i], histories[i], from, until)
         else clients[i].pingStatus == statuses[i] && clients[i].pings == histories[i]
  }

  lemma PingsStart(clients: seq<Client>, from: int)
    requires forall i | 0 <= i < |clients| :: clients[i].Valid() && clients[i].pingStatus != PongTimeout
    ensures PingsThrough(clients, 0, Statuses(clients), Histories(clients), from, from)
    ensures Pings(WithStatus(clients[..0], Statuses(clients)[..0], RequiresPing)) == []
  {
  }

  lemma PingsEnd(clients: seq<Client>, statuses: seq<PingStatus>, histories: seq<seq<PingEvent>>,
                 from: int, until: int)
    requires |statuses| == |histories| == |clients|
    requires PingsThrough(clients, |clients|, statuses, histories, from, until)
    ensures Settled(clients)
    ensures forall i | 0 <= i < |clients| :: Pinged(clients[i], statuses[i], histories[i], from, until)
  {
  }

  function Disconnects(clients: seq<Client>): seq<Message> {
    seq(|clients|, i requires 0 <= i < |clients| => DisconnectMessage(clients[i].index))
  }

  function Pings(clients: seq<Client>): seq<Message> {
    seq(|clients|, i requires 0 <= i < |clients| => PingMessage(clients[i].index))
  }

  class ClientRegistry {
    const runtimeMax: int
    const pingResponseTimeoutUs: int
    var clients: seq<Client>
    var groups: seq<ClientGroup>
    var clientIndexMask: Mask
    var sent: seq<Message>

    /** The quality each client is served with. */
    ghost var assignment: map<Client, int>
    /** Indices of clients dropped by `disconnectAll`, which the mask never gives back. */
    ghost var leaked: Mask

    /** The registered clients, their indices, their groups and their quality limits. */
    ghost predicate Core()
      reads this, assignment.Keys, groups
    {
      && 1 <= runtimeMax <= MAX_QUALITY_INDEX
      && Listed(clients, assignment, clientIndexMask, leaked)
      && Table(groups, assignment)
      && Bounded(assignment, runtimeMax)
      && Timed(assignment, pingResponseTimeoutUs)
    }

    ghost predicate Valid()
      reads this, clients, assignment.Keys, groups
    {
      Core() && Settled(clients)
    }

    constructor (runtimeMax: int, pingResponseTimeoutUs: int)
      requires 1 <= runtimeMax <= MAX_QUALITY_INDEX
      ensures Valid() && clients == [] && groups == [] && leaked == 0 && sent == []
      ensures this.runtimeMax == runtimeMax && this.pingResponseTimeoutUs == pingResponseTimeoutUs
    {
      this.runtimeMax, this.pingResponseTimeoutUs := runtimeMax, pingResponseTimeoutUs;
      clients, groups, clientIndexMask, sent, assignment, leaked := [], [], 0, [], map[], 0;
      new;
      MaskLeak(0);
    }

    // ----- Groups

    method FindGroupWithClient(id: nat) returns (k: nat)
      ensures k <= |groups|
      ensures k < |groups| ==> exists c :: c in groups[k].clients && c.id == id
      ensures k == |groups| ==> forall i, c | 0 <= i < |groups| && c in groups[i].clients :: c.id != id
    {
      k := 0;
      while k < |groups|
        invariant 0 <= k <= |groups|
        invariant forall j, c | 0 <= j < k && c in groups[j].clients :: c.id != id
      {
        var at := groups[k].Find(id);
        if at < |groups[k].clients| {
          assert groups[k].clients[at] in groups[k].clients;
          return;
        }
        k := k + 1;
      }
    }

    /** The client leaves its group, which may be left empty. */
    method TakeOut(g: ClientGroup, ghost k: nat, c: Client)
      requires Table(groups, assignment) && k < |groups| && g == groups[k]
      requires forall d | d in assignment :: d == c || d.id != c.id
      requires exists d :: d in groups[k].clients && d.id == c.id
      modifies this`assignment, g`clients, g`mask
      ensures Classes(groups, assignment) && assignment == old(assignment) - {c}
      ensures forall i | 0 <= i < |groups| && i != k :: groups[i].clients != []
    {
      hide ClientGroup.Valid;
      MemberIds(groups, assignment, k, c);
      g.RemoveClient(c.id);
      assignment := assignment - {c};
      forall i | 0 <= i < |groups|
        ensures groups[i].Valid() && Members(groups[i].clients) == ClassOf(assignment, groups[i].quality)
      {
        ClassWithout(old(assignment), c, groups[i].quality);
        assert i != k ==> groups[i] != groups[k];
      }
    }

    /** `removeClientFromGroups`: the client leaves its group, and an empty group is removed. */
    method RemoveFromGroups(c: Client)
      requires Table(groups, assignment) && (forall d | d in assignment :: d == c || d.id != c.id)
      modifies this`groups, this`assignment, groups`clients, groups`mask
      ensures Table(groups, assignment) && assignment == old(assignment) - {c}
      ensures forall i | 0 <= i < |groups| :: groups[i] in old(groups)
    {
      hide Classes;
      var k := FindGroupWithClient(c.id);
      if k < |groups| {
        TakeOut(groups[k], k, c);
        if groups[k].HasClients() {
          ClassesWithout(groups, k, assignment);
          groups := groups[..k] + groups[k + 1..];
        }
      } else if c in assignment {
        AssignedIsMember(groups, assignment, c);
        assert false;
      } else {
        assert assignment - {c} == assignment;
      }
    }

    /** `getOrCreateGroupByQuality`. */
    method GetOrCreateGroup(quality: int) returns (k: nat)
      requires Table(groups, assignment) && IsIndex(quality)
      modifies this`groups
      ensures Classes(groups, assignment)
      ensures k < |groups| && groups[k].quality == quality
      ensures forall i | 0 <= i < |groups| && i != k :: groups[i].clients != []
      ensures groups == old(groups) || (groups == old(groups) + [groups[k]] && fresh(groups[k]))
    {
      hide Classes;
      k := 0;
      while k < |groups|
        invariant 0 <= k <= |groups|
        invariant forall j | 0 <= j < k :: groups[j].quality != quality
      {
        if groups[k].quality == quality {
          return;
        }
        k := k + 1;
      }
      var g := new ClientGroup(quality);
      ClassesWith(groups, assignment, g);
      groups := groups + [g];
    }

    /** The client enters the group of a quality, which is created if need be. */
    method AddToGroup(c: Client, quality: int)
      requires Table(groups, assignment) && c !in assignment && OneBit(c.index) && IsIndex(quality)
      requires forall d | d in assignment :: d.id != c.id && Disjoint(d.index, c.index)
      modifies this`groups, this`assignment, groups`clients, groups`mask
      ensures Table(groups, assignment) && assignment == old(assignment)[c := quality]
      ensures forall i | 0 <= i < |groups| :: groups[i] in old(groups) || fresh(groups[i])
    {
      hide OneBit, Disjoint;
      var k := GetOrCreateGroup(quality);
      PutIn(groups[k], k, c);
    }

    method PutIn(g: ClientGroup, ghost k: nat, c: Client)
      requires Classes(groups, assignment) && c !in assignment && OneBit(c.index) && k < |groups| && g == groups[k]
      requires forall i | 0 <= i < |groups| && i != k :: groups[i].clients != []
      requires forall d | d in assignment :: d.id != c.id && Disjoint(d.index, c.index)
      modifies this`assignment, g`clients, g`mask
      ensures Table(groups, assignment) && assignment == old(assignment)[c := g.quality]
    {
      hide ClientGroup.Valid, OneBit, Disjoint;
      assert forall d | d in g.clients :: d in Members(g.clients) && d in assignment;
      OrAllDisjoint(Indices(g.clients), c.index);
      ghost var before := g.clients;
      g.AddClient(c);
      MembersAppend(before, c);
      assignment := assignment[c := g.quality];
      forall i | 0 <= i < |groups|
        ensures groups[i].Valid() && Members(groups[i].clients) == ClassOf(assignment, groups[i].quality)
      {
        ClassWith(old(assignment), c, g.quality, groups[i].quality);
        assert i != k ==> groups[i] != g;
      }
      assert HasQuality(groups, g.quality);
      assert g.clients != [];
      assert NonEmpty(groups);
    }

    // ----- Public operations

    method Find(id: nat) returns (k: nat)
      ensures k <= |clients| && (k < |clients| ==> clients[k].id == id)
      ensures k == |clients| ==> forall c | c in clients :: c.id != id
    {
      k := 0;
      while k < |clients| && clients[k].id != id
        invariant 0 <= k <= |clients|
        invariant forall j | 0 <= j < k :: clients[j].id != id
      {
        k := k + 1;
      }
    }

    /** `addClient`, given the random id it draws until one is unused.  It fails exactly when the mask
        is full; otherwise the new client has the lowest free index and joins the default group. */
    method AddClient(id: nat, clock: Clock) returns (r: Result<Client>)
      requires Valid() && forall c | c in clients :: c.id != id
      modifies this`clients, this`groups, this`clientIndexMask, this`assignment, groups`clients, groups`mask, clock`last
      ensures Valid()
      ensures r.Err? <==> old(clientIndexMask) == FULL_MASK
      ensures r.Err? ==> unchanged(this)
      ensures r.Ok? ==>
                && fresh(r.value) && r.value.id == id && r.value.pings == [] && r.value.pingStatus == WaitingToPing
                && r.value.maxQuality == runtimeMax && r.value.pingResponseTimeoutUs == pingResponseTimeoutUs
                && old(clock.last) <= r.value.pongReceivedTime <= clock.last
                && LowestFree(r.value.index, old(clientIndexMask))
                && clients == old(clients) + [r.value] && assignment == old(assignment)[r.value := runtimeMax]
                && clientIndexMask == Or(old(clientIndexMask), r.value.index)
      ensures forall i | 0 <= i < |groups| :: groups[i] in old(groups) || fresh(groups[i])
    {
      hide LowestFree, Disjoint, Or, OneBit, Core, Settled;
      if clientIndexMask == FULL_MASK {
        r := Err("no client indices available");
      } else {
        var index := FindFreeIndex(clientIndexMask);
        LowestFreeBit(index, clientIndexMask);
        var c := NewClient(id, index, clock);
        Enroll(c);
        r := Ok(c);
      }
    }

    method NewClient(id: nat, index: Mask, clock: Clock) returns (c: Client)
      requires Valid()
      modifies clock`last
      ensures Core() && fresh(c) && Settled(clients + [c])
      ensures c.id == id && c.index == index && c.pings == [] && c.maxQuality == runtimeMax
      ensures c.pingStatus == WaitingToPing && c.pingResponseTimeoutUs == pingResponseTimeoutUs
      ensures old(clock.last) <= c.pongReceivedTime <= clock.last
    {
      hide Listed, Table, Bounded, Settled;
      c := new Client(id, index, runtimeMax, pingResponseTimeoutUs, clock);
      SettledWith(clients, c);
    }

    /** The new client is listed, its index is taken, and it joins the default group. */
    method Enroll(c: Client)
      requires Core() && (forall d | d in clients :: d.id != c.id)
      requires OneBit(c.index) && Disjoint(c.index, clientIndexMask) && c.maxQuality == runtimeMax
      requires c.pingResponseTimeoutUs == pingResponseTimeoutUs
      modifies this`clients, this`groups, this`clientIndexMask, this`assignment, groups`clients, groups`mask
      ensures Core() && clients == old(clients) + [c]
      ensures clientIndexMask == Or(old(clientIndexMask), c.index)
      ensures assignment == old(assignment)[c := runtimeMax]
      ensures forall i | 0 <= i < |groups| :: groups[i] in old(groups) || fresh(groups[i])
    {
      hide Disjoint, Or, OneBit, Table, Listed, Bounded;
      ListedAdd(clients, assignment, clientIndexMask, leaked, c, runtimeMax);
      BoundedWith(assignment, c, runtimeMax, runtimeMax);
      AddToGroup(c, runtimeMax);
      clients := clients + [c];
      clientIndexMask := Or(clientIndexMask, c.index);
    }

    /** `removeClient`.  An unknown id changes nothing. */
    method RemoveClient(id: nat) returns (known: bool)
      requires Core()
      modifies this`clients, this`groups, this`clientIndexMask, this`assignment, groups`clients, groups`mask
      ensures Core() && (old(Settled(clients)) ==> Settled(clients))
      ensures forall i | 0 <= i < |groups| :: groups[i] in old(groups)
      ensures if k :| 0 <= k < |old(clients)| && old(clients)[k].id == id then
                && known && clients == Removed(old(clients), k)
                && assignment == old(assignment) - {old(clients)[k]}
                && clientIndexMask == Without(old(clientIndexMask), old(clients)[k].index)
              else
                !known && unchanged(this)
    {
      hide Listed, Table, Bounded, Settled, Without, Removed;
      var k := Find(id);
      known := k < |clients|;
      if known {
        var c := clients[k];
        ListedRemove(clients, assignment, clientIndexMask, leaked, k);
        BoundedWithout(assignment, c, runtimeMax);
        SettledWithout(clients, k);
        clients := Removed(clients, k);
        clientIndexMask := Without(clientIndexMask, c.index);
        RemoveFromGroups(c);
      }
    }

    /** `setClientQuality`: the client moves to the group of `quality`, and is told. */
    method SetClientQuality(c: Client, quality: int)
      requires 1 <= runtimeMax <= MAX_QUALITY_INDEX && Listed(clients, assignment, clientIndexMask, leaked)
      requires Table(groups, assignment) && c in assignment && Bounded(assignment - {c}, runtimeMax)
      requires Timed(assignment, pingResponseTimeoutUs)
      requires 1 <= quality <= c.maxQuality <= runtimeMax
      modifies this`groups, this`assignment, this`sent, groups`clients, groups`mask
      ensures Core() && assignment == old(assignment)[c := quality]
      ensures sent == old(sent) + [QualityMessage(c.index, quality)]
      ensures forall i | 0 <= i < |groups| :: groups[i] in old(groups) || fresh(groups[i])
    {
      hide Listed, Table, Bounded, OneBit, Disjoint;
      ListedOthers(clients, assignment, clientIndexMask, leaked, c);
      var k := FindGroupWithClient(c.id);
      GroupOfClient(groups, assignment, k, c);
      if groups[k].quality != quality {
        RemoveFromGroups(c);
        AddToGroup(c, quality);
      }
      BoundedWith(old(assignment) - {c}, c, quality, runtimeMax);
      MovedMap(old(assignment), c, quality);
      ListedMove(clients, old(assignment), clientIndexMask, leaked, c, quality);
      sent := sent + [QualityMessage(c.index, quality)];
    }

    /** Moves a client to the group of a quality, unless it is there. */
    method MoveClient(c: Client, quality: int)
      requires 1 <= runtimeMax <= MAX_QUALITY_INDEX && Listed(clients, assignment, clientIndexMask, leaked)
      requires Table(groups, assignment) && c in assignment && Bounded(assignment - {c}, runtimeMax)
      requires Timed(assignment, pingResponseTimeoutUs)
      requires 1 <= quality <= c.maxQuality <= runtimeMax
      modifies this`groups, this`assignment, this`sent, groups`clients, groups`mask
      ensures Core() && assignment == old(assignment)[c := quality]
      ensures sent == if old(assignment)[c] == quality then old(sent)
                      else old(sent) + [QualityMessage(c.index, quality)]
    {
      hide Listed, Table, Bounded;
      ListedOthers(clients, assignment, clientIndexMask, leaked, c);
      var at := FindGroupWithClient(c.id);
      GroupOfClient(groups, assignment, at, c);
      if groups[at].quality != quality {
        SetClientQuality(c, quality);
      } else {
        MovedMap(assignment, c, quality);
        BoundedWith(assignment - {c}, c, quality, runtimeMax);
      }
    }

    /** `setClientMaxQuality`, with a quality obtained from its index.  An unknown id changes nothing. */
    method SetClientMaxQuality(id: nat, quality: int)
      requires Valid() && 1 <= quality <= runtimeMax
      modifies this`groups, this`assignment, this`sent, groups`clients, groups`mask, clients`maxQuality
      ensures Valid()
      ensures forall c | c in clients :: c.maxQuality == if c.id == id then quality else old(c.maxQuality)
      ensures if k :| 0 <= k < |clients| && clients[k].id == id then
                && assignment == old(assignment)[clients[k] := quality]
                && sent == if old(assignment)[clients[k]] == quality then old(sent)
                           else old(sent) + [QualityMessage(clients[k].index, quality)]
              else
                assignment == old(assignment) && sent == old(sent)
    {
      hide Listed, Table, Settled, Bounded;
      var k := Find(id);
      if k < |clients| {
        var c := clients[k];
        ListedClient(clients, assignment, clientIndexMask, leaked, k);
        BoundedWithout(assignment, c, runtimeMax);
        c.maxQuality := quality;
        MoveClient(c, quality);
      }
    }

    method OnPongReceived(id: nat, clock: Clock)
      requires Valid()
      modifies clients`pingStatus, clients`pongReceivedTime, clients`pings, clock`last
      ensures Valid() && old(clock.last) <= clock.last
      ensures forall c | c in clients ::
                if c.id == id then
                  && c.pingStatus == WaitingToPing && c.pongReceivedTime == clock.last
                  && c.pings == old(c.pings) + [PongReceived(clock.last)]
                else
                  && c.pingStatus == old(c.pingStatus) && c.pongReceivedTime == old(c.pongReceivedTime)
                  && c.pings == old(c.pings)
    {
      hide Listed, Table, Bounded, Client.Valid;
      var k := Find(id);
      if k < |clients| {
        ListedClient(clients, assignment, clientIndexMask, leaked, k);
        clients[k].OnPongReceived(clock);
      }
    }

    /** `performQualityVerification`, given the bitrate ratio measured for each client that has one.  The
        group of every client is found, each client moves by at most one level, and exactly the clients
        that move are told. */
    method PerformQualityVerification(ratios: map<nat, real>)
      requires Valid()
      modifies this`groups, this`assignment, this`sent, groups`clients, groups`mask
      ensures Valid() && assignment.Keys == old(assignment.Keys)
      ensures sent == old(sent) + Moves(clients, old(assignment), assignment)
      ensures forall c | c in assignment ::
                && assignment[c] == Verified(c.id, c.maxQuality, old(assignment)[c], ratios, runtimeMax)
                && FollowsRatio(old(assignment)[c], assignment[c], c.maxQuality, c.id, ratios)
                && -1 <= assignment[c] - old(assignment)[c] <= 1
    {
      hide Core, Settled, Verified, FollowsRatio, Moves, Progress;
      VerifiedBounds(ratios);
      ProgressNone(clients, assignment, sent, ratios, runtimeMax);
      for k := 0 to |clients|
        invariant Core() && Progress(clients, k, old(assignment), assignment, old(sent), sent, ratios, runtimeMax)
        invariant forall i | 0 <= i < |groups| :: groups[i] in old(groups) || fresh(groups[i])
      {
        ProgressNext(clients, k, old(assignment), assignment, old(sent), sent, ratios, runtimeMax);
        VerifyQuality(clients[k], ratios);
      }
      ProgressAll(clients, old(assignment), assignment, old(sent), sent, ratios, runtimeMax);
    }

    lemma VerifiedBounds(ratios: map<nat, real>)
      requires Core()
      ensures forall i | 0 <= i < |clients| :: clients[i] in assignment
      ensures forall i, j | 0 <= i < j < |clients| :: clients[i] != clients[j]
      ensures forall c | c in assignment ::
                var after := Verified(c.id, c.maxQuality, assignment[c], ratios, runtimeMax);
                && c in clients && -1 <= after - assignment[c] <= 1
                && FollowsRatio(assignment[c], after, c.maxQuality, c.id, ratios)
    {
      hide Verified, FollowsRatio, Table, MaskHolds;
      forall c | c in assignment
        ensures var after := Verified(c.id, c.maxQuality, assignment[c], ratios, runtimeMax);
                FollowsRatio(assignment[c], after, c.maxQuality, c.id, ratios)
      {
        VerifiedFollows(c.id, c.maxQuality, assignment[c], ratios, runtimeMax);
      }
    }

    /** One pass of the loop of `performQualityVerification`. */
    method VerifyQuality(c: Client, ratios: map<nat, real>)
      requires Core() && c in assignment
      modifies this`groups, this`assignment, this`sent, groups`clients, groups`mask
      ensures Core()
      ensures assignment == old(assignment)[c := Verified(c.id, c.maxQuality, old(assignment)[c], ratios, runtimeMax)]
      ensures FollowsRatio(old(assignment)[c], assignment[c], c.maxQuality, c.id, ratios)
      ensures sent == old(sent) + if assignment[c] == old(assignment)[c] then []
                                  else [QualityMessage(c.index, assignment[c])]
      ensures forall i | 0 <= i < |groups| :: groups[i] in old(groups) || fresh(groups[i])
    {
      hide Listed, Table, Bounded, ForIndex, Clamped, Delta, FollowsRatio;
      BoundedOwn(assignment, c, runtimeMax);
      VerifiedFollows(c.id, c.maxQuality, assignment[c], ratios, runtimeMax);
      ListedOthers(clients, assignment, clientIndexMask, leaked, c);
      var k := FindGroupWithClient(c.id);
      GroupOfClient(groups, assignment, k, c);
      var quality := groups[k].quality;
      if c.id in ratios {
        var index := quality + Delta(ratios[c.id]);
        var newQuality := ForIndex(Clamped(index, c.maxQuality), runtimeMax);
        assert newQuality == Verified(c.id, c.maxQuality, quality, ratios, runtimeMax);
        if newQuality != quality {
          BoundedWithout(assignment, c, runtimeMax);
          SetClientQuality(c, newQuality);
        }
      }
    }

    /** Clears clients and groups, but not the mask: the dropped indices are lost. */
    method DisconnectAll()
      requires Valid()
      modifies this`clients, this`groups, this`sent, this`assignment, this`leaked
      ensures Valid() && clients == [] && groups == []
      ensures sent == old(sent) + Disconnects(old(clients)) && leaked == clientIndexMask
    {
      hide Listed, Table, Bounded, Settled;
      for i := 0 to |clients|
        invariant clients == old(clients) && sent == old(sent) + Disconnects(clients[..i])
      {
        assert clients[..i + 1] == clients[..i] + [clients[i]];
        sent := sent + [DisconnectMessage(clients[i].index)];
      }
      assert clients[..|clients|] == clients;
      clients, groups, assignment := [], [], map[];
      leaked := clientIndexMask;
      NoClients(clientIndexMask, runtimeMax);
    }

    // ----- What the indices are for

    /** Clients are refused exactly when the clients and the indices lost by `disconnectAll` are 64 in all. */
    lemma FullAtSixtyFour()
      requires Valid()
      ensures clientIndexMask == FULL_MASK <==> |clients| + PopCount(leaked, 64) == 64
    {
      hide PopCount;
      MaskCount(clientIndexMask, Indices(clients), leaked);
      FullIffAllSet(clientIndexMask);
    }

    /** A message for the complement of a client's index reaches every registered client but that one. */
    lemma ComplementReachesOthers(sender: nat, i: nat)
      requires Valid() && sender < |clients| && i < |clients|
      ensures clients[i].index & !clients[sender].index != 0 <==> i != sender
    {
      ComplementAddressesOthers(Indices(clients), sender, i);
    }

    /** The mask of a group, which goes with every image it sends, reaches just the members of the group. */
    lemma GroupMaskReachesMembers(k: nat, c: Client)
      requires Valid() && k < |groups| && c in assignment
      ensures !Disjoint(groups[k].mask, c.index) <==> c in groups[k].clients
    {
      ListedOthers(clients, assignment, clientIndexMask, leaked, c);
      MembersAssigned(groups, assignment, k);
      hide *;
      GroupMask(groups[k], c);
    }

    // ----- Pings

    lemma MembersTimed()
      requires Core()
      ensures forall i | 0 <= i < |clients| :: clients[i].pingResponseTimeoutUs == pingResponseTimeoutUs
    {
      assert forall i | 0 <= i < |clients| :: clients[i] in Members(clients);
    }

    method UpdateStatuses(clock: Clock)
      requires forall i | 0 <= i < |clients| :: clients[i].Valid()
      requires DistinctClients(clients)
      modifies clients`pingStatus, clock`last
      ensures old(clock.last) <= clock.last
      ensures forall i | 0 <= i < |clients| :: clients[i].Valid()
      ensures forall i | 0 <= i < |clients| ::
                StatusUpdated(clients[i], old(clients[i].pingStatus), old(clock.last), clock.last)
    {
      hide Client.Valid;
      for k := 0 to |clients|
        invariant old(clock.last) <= clock.last
        invariant forall i | 0 <= i < |clients| :: clients[i].Valid()
        invariant forall i | 0 <= i < k ::
                    StatusUpdated(clients[i], old(clients[i].pingStatus), old(clock.last), clock.last)
        invariant forall i | k <= i < |clients| :: clients[i].pingStatus == old(clients[i].pingStatus)
      {
        clients[k].UpdatePingStatus(clock);
      }
    }

    /** The clients whose pong is overdue, as `copy_if` collects them. */
    method CollectTimeouts() returns (late: seq<Client>)
      ensures late == WithStatus(clients, Statuses(clients), PongTimeout)
    {
      late := [];
      ghost var statuses := Statuses(clients);
      for i := 0 to |clients|
        invariant late == WithStatus(clients[..i], statuses[..i], PongTimeout)
      {
        assert clients[..i + 1][..i] == clients[..i] && statuses[..i + 1][..i] == statuses[..i];
        if clients[i].pingStatus == PongTimeout {
          late := late + [clients[i]];
        }
      }
      assert clients[..|clients|] == clients && statuses[..|clients|] == statuses;
    }

    method Drop(c: Client)
      requires Core() && c in clients
      modifies this`clients, this`groups, this`clientIndexMask, this`assignment, this`sent, groups`clients, groups`mask
      ensures Core() && sent == old(sent) + [DisconnectMessage(c.index)]
      ensures Members(clients) == Members(old(clients)) - {c} && assignment == old(assignment) - {c}
      ensures forall i | 0 <= i < |groups| :: groups[i] in old(groups)
    {
      hide Listed, Table, Bounded, Removed, Without;
      ghost var k :| 0 <= k < |clients| && clients[k] == c;
      ListedClient(clients, assignment, clientIndexMask, leaked, k);
      ListedRemove(clients, assignment, clientIndexMask, leaked, k);
      sent := sent + [DisconnectMessage(c.index)];
      var known := RemoveClient(c.id);
    }

    /** Each late client is told so and removed. */
    method DropAll(late: seq<Client>)
      requires Core() && DistinctClients(late) && (forall c | c in late :: c in clients)
      modifies this`clients, this`groups, this`clientIndexMask, this`assignment, this`sent, groups`clients, groups`mask
      ensures Core() && sent == old(sent) + Disconnects(late)
      ensures Members(clients) == Members(old(clients)) - Members(late)
      ensures assignment == old(assignment) - Members(late)
      ensures forall i | 0 <= i < |groups| :: groups[i] in old(groups)
    {
      hide Core;
      for j := 0 to |late|
        invariant Core() && sent == old(sent) + Disconnects(late[..j])
        invariant Members(clients) == Members(old(clients)) - Members(late[..j])
        invariant assignment == old(assignment) - Members(late[..j])
        invariant forall i | 0 <= i < |groups| :: groups[i] in old(groups)
      {
        assert late[..j + 1] == late[..j] + [late[j]];
        MembersAppend(late[..j], late[j]);
        Drop(late[j]);
      }
      assert late[..|late|] == late;
    }

    /** Every client that requires a ping gets one. */
    method SendPings(clock: Clock)
      requires DistinctClients(clients)
      requires forall i | 0 <= i < |clients| :: clients[i].Valid() && clients[i].pingStatus != PongTimeout
      modifies this`sent, clients`pingStatus, clients`pingSentTime, clients`pings, clock`last
      ensures Settled(clients) && old(clock.last) <= clock.last
      ensures sent == old(sent) + Pings(WithStatus(clients, old(Statuses(clients)), RequiresPing))
      ensures forall i | 0 <= i < |clients| ::
                Pinged(clients[i], old(clients[i].pingStatus), old(clients[i].pings), old(clock.last), clock.last)
    {
      hide PingsThrough, Pings, WithStatus, Statuses, Histories, Settled, Pinged, Client.Valid;
      ghost var statuses, histories := Statuses(clients), Histories(clients);
      PingsStart(clients, clock.last);
      for k := 0 to |clients|
        invariant old(clock.last) <= clock.last
        invariant PingsThrough(clients, k, statuses, histories, old(clock.last), clock.last)
        invariant sent == old(sent) + Pings(WithStatus(clients[..k], statuses[..k], RequiresPing))
      {
        PingsNext(clients, statuses, k);
        SendPing(clients[k], clock, k, statuses, histories, old(clock.last));
      }
      PingsEnd(clients, statuses, histories, old(clock.last), clock.last);
      assert clients[..|clients|] == clients && statuses[..|clients|] == statuses;
    }

    /** One pass of the loop that sends pings. */
    method SendPing(c: Client, clock: Clock, ghost k: nat,
                    ghost statuses: seq<PingStatus>, ghost histories: seq<seq<PingEvent>>, ghost from: int)
      requires k < |clients| && c == clients[k] && DistinctClients(clients)
      requires |statuses| == |histories| == |clients| && from <= clock.last
      requires PingsThrough(clients, k, statuses, histories, from, clock.last)
      modifies this`sent, c`pingStatus, c`pingSentTime, c`pings, clock`last
      ensures old(clock.last) <= clock.last && PingsThrough(clients, k + 1, statuses, histories, from, clock.last)
      ensures sent == old(sent) + if statuses[k] == RequiresPing then [PingMessage(c.index)] else []
    {
      hide Client.Valid;
      if c.pingStatus == RequiresPing {
        sent := sent + [PingMessage(c.index)];
        c.OnPingSent(clock);
      }
    }

    /** Statuses are updated, and the clients that timed out collected. */
    method FindLate(clock: Clock) returns (late: seq<Client>)
      requires Valid()
      modifies clients`pingStatus, clock`last
      ensures Core() && old(clock.last) <= clock.last
      ensures DistinctClients(late) && forall i | 0 <= i < |late| :: late[i] in clients
      ensures forall c | c in clients ::
                && c.Valid() && (c in late <==> c.pingStatus == PongTimeout)
                && (old(c.pingStatus) == WaitingToPing || old(c.pingStatus) == WaitingForPong)
                && StatusUpdated(c, old(c.pingStatus), old(clock.last), clock.last)
    {
      hide Listed, Table, Bounded, Timed, Client.Valid, Updated, WithStatus, Statuses;
      ListedDistinct(clients, assignment, clientIndexMask, leaked);
      UpdateStatuses(clock);
      late := CollectTimeouts();
      WithStatusMembers(clients, Statuses(clients), PongTimeout);
    }

    /** The first half of `handleClientPings`: statuses are updated and late clients dropped. */
    method DropTimeouts(clock: Clock) returns (dropped: seq<Client>)
      requires Valid()
      modifies this`clients, this`groups, this`clientIndexMask, this`assignment, this`sent
      modifies groups`clients, groups`mask, clients`pingStatus, clock`last
      ensures Core() && old(clock.last) <= clock.last && sent == old(sent) + Disconnects(dropped)
      ensures DistinctClients(dropped) && Members(dropped) <= Members(old(clients))
      ensures Members(clients) == Members(old(clients)) - Members(dropped)
      ensures assignment == old(assignment) - Members(dropped)
      ensures forall i | 0 <= i < |clients| :: clients[i] in old(clients) && clients[i] !in dropped
      ensures forall c | c in old(clients) ::
                && c.Valid() && c.pingResponseTimeoutUs == pingResponseTimeoutUs
                && (c in dropped <==> c.pingStatus == PongTimeout)
                && (old(c.pingStatus) == WaitingToPing || old(c.pingStatus) == WaitingForPong)
                && StatusUpdated(c, old(c.pingStatus), old(clock.last), clock.last)
    {
      hide Core, Settled, Client.Valid, StatusUpdated;
      MembersTimed();
      dropped := FindLate(clock);
      DropAll(dropped);
      assert forall i | 0 <= i < |clients| :: clients[i] in Members(clients);
    }

    /** The second half: the clients that require a ping get one. */
    method PingDue(clock: Clock) returns (ghost pinged: seq<Client>)
      requires Core() && forall c | c in clients :: c.Valid() && c.pingStatus != PongTimeout
      modifies this`sent, clients`pingStatus, clients`pingSentTime, clients`pings, clock`last
      ensures Valid() && old(clock.last) <= clock.last && sent == old(sent) + Pings(pinged)
      ensures DistinctClients(pinged) && Members(pinged) <= Members(clients)
      ensures forall c | c in clients ::
                && (c in pinged <==> old(c.pingStatus) == RequiresPing)
                && Pinged(c, old(c.pingStatus), old(c.pings), old(clock.last), clock.last)
    {
      hide Listed, Table, Bounded, Client.Valid, WithStatus, Statuses, Pings;
      ListedDistinct(clients, assignment, clientIndexMask, leaked);
      WithStatusMembers(clients, Statuses(clients), RequiresPing);
      pinged := WithStatus(clients, Statuses(clients), RequiresPing);
      assert forall i | 0 <= i < |pinged| :: pinged[i] in Members(clients);
      SendPings(clock);
    }

    /** `handleClientPings`.  The dropped clients are those whose ping went unanswered past the timeout;
        each gets one disconnect message and leaves the list, the groups and the mask.  The pinged
        clients are those whose last pong is old enough. */
    method HandleClientPings(clock: Clock) returns (dropped: seq<Client>, ghost pinged: seq<Client>)
      requires Valid()
      modifies this`clients, this`groups, this`clientIndexMask, this`assignment, this`sent
      modifies groups`clients, groups`mask
      modifies clients`pingStatus, clients`pingSentTime, clients`pings, clock`last
      ensures Valid() && old(clock.last) <= clock.last
      ensures sent == old(sent) + Disconnects(dropped) + Pings(pinged)
      ensures DistinctClients(dropped) && DistinctClients(pinged)
      ensures Members(dropped) <= Members(old(clients)) && Members(pinged) <= Members(clients)
      ensures Members(clients) == Members(old(clients)) - Members(dropped)
      ensures assignment == old(assignment) - Members(dropped)
      ensures forall c | c in old(clients) ::
                Overdue(pingResponseTimeoutUs, c in dropped, old(c.pingStatus), old(c.pingSentTime),
                        old(clock.last), clock.last)
      ensures forall c | c in clients ::
                && Due(c, c in pinged, old(c.pingStatus), old(clock.last), clock.last)
                && (if c in pinged then
                      && c.pingStatus == WaitingForPong && c.pings == old(c.pings) + [PingSent(c.pingSentTime)]
                      && old(clock.last) <= c.pingSentTime <= clock.last
                    else
                      c.pingStatus == old(c.pingStatus) && c.pings == old(c.pings))
    {
      hide Listed, Table, Bounded, Timed, Client.Valid, Settled;
      dropped := DropTimeouts(clock);
      pinged := PingDue(clock);
    }
  }

  /** A client that just joined is not dropped, and not pinged within the interval. */
  method JoinThenPing(r: ClientRegistry, id: nat, clock: Clock)
    returns (added: Result<Client>, ghost pinged: seq<Client>)
    requires r.Valid() && forall c | c in r.clients :: c.id != id
    modifies r`clients, r`groups, r`clientIndexMask, r`assignment, r`sent, r.groups`clients, r.groups`mask
    modifies r.clients`pingStatus, r.clients`pingSentTime, r.clients`pings, clock`last
    ensures r.Valid() && (added.Err? <==> old(r.clientIndexMask) == FULL_MASK)
    ensures added.Ok? ==>
              && added.value in r.clients && added.value.id == id
              && (added.value in pinged ==> clock.last - old(clock.last) > PING_WAIT_INTERVAL_US)
  {
    hide ClientRegistry.Valid, LowestFree, Disjoint, Or;
    added := r.AddClient(id, clock);
    assert added.Ok? ==> added.value in r.clients;
    var dropped;
    dropped, pinged := r.HandleClientPings(clock);
    if added.Ok? {
      assert added.value in Members(r.clients);
    }
  }

  /** All indices can be lost: after 64 clients and one `disconnectAll` a registry without clients refuses
      every client. */
  method LoseAllIndices(runtimeMax: int, pingResponseTimeoutUs: int, clock: Clock) returns (r: ClientRegistry)
    requires IsIndex(runtimeMax)
    modifies clock`last
    ensures fresh(r) && r.Valid() && r.clients == [] && r.clientIndexMask == FULL_MASK
  {
    hide ClientRegistry.Valid, LowestFree, Disjoint, Or, PopCount;
    r := new ClientRegistry(runtimeMax, pingResponseTimeoutUs);
    NothingLeaked();
    for id := 0 to 64
      invariant fresh(r) && r.Valid() && |r.clients| == id && r.leaked == 0
      invariant forall i | 0 <= i < |r.groups| :: fresh(r.groups[i])
      invariant forall c | c in r.clients :: c.id < id
    {
      r.FullAtSixtyFour();
      var added := r.AddClient(id, clock);
    }
    r.FullAtSixtyFour();
    r.DisconnectAll();
  }

  lemma NothingLeaked()
    ensures PopCount(0, 64) == 0
  {
    PopCountZero(64);
  }
}
