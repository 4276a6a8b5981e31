/** A group of clients of one quality. */
module ClientGroups {
  import opened ClientIndices
  import opened Words
  import opened Clients
  import opened ClientWindows
  import opened Clocks
  import opened Qualities

  function Indices(clients: seq<Client>): (s: seq<Mask>)
    ensures |s| == |clients|
    ensures forall i | 0 <= i < |clients| :: s[i] == clients[i].index
  {
    seq(|clients|, i requires 0 <= i < |clients| => clients[i].index)
  }

  ghost predicate DistinctClients(clients: seq<Client>) {
    forall i, j | 0 <= i < j < |clients| :: clients[i].id != clients[j].id
  }

  function Members(clients: seq<Client>): (m: set<Client>)
    ensures forall c | c in m :: c in clients
    ensures forall c | c in clients :: c in m
  {
    set c | c in clients
  }

  function OthersThan(clients: seq<Client>, id: nat): set<Client> { set c | c in clients && c.id != id }

  /** The list without its k-th client. */
  function Removed(clients: seq<Client>, k: nat): seq<Client>
    requires k < |clients|
  {
    clients[..k] + clients[k + 1..]
  }

  lemma RemovedMembers(clients: seq<Client>, k: nat)
    requires DistinctClients(clients) && k < |clients|
    ensures DistinctClients(Removed(clients, k))
    ensures Members(Removed(clients, k)) == Members(clients) - {clients[k]}
  {
  }

  lemma RemovedMask(clients: seq<Client>, k: nat)
    requires Proper(Indices(clients)) && k < |clients|
    ensures Proper(Indices(Removed(clients, k)))
    ensures OrAll(Indices(Removed(clients, k))) == Without(OrAll(Indices(clients)), clients[k].index)
  {
    hide OneBit, Disjoint, Without;
    assert Indices(Removed(clients, k)) == Indices(clients)[..k] + Indices(clients)[k + 1..];
    OrAllRemove(Indices(clients), k);
  }

  lemma IndicesAppend(clients: seq<Client>, c: Client)
    ensures Indices(clients + [c]) == Indices(clients) + [c.index]
    ensures OrAll(Indices(clients + [c])) == Or(OrAll(Indices(clients)), c.index)
  {
  }

  class ClientGroup {
    const quality: int
    const windows: GroupWindows
    var clients: seq<Client>
    var mask: Mask

    /** The mask is the or of the members' indices. */
    ghost predicate Valid()
      reads this
    {
      && windows.quality == quality
      && DistinctClients(clients) && Proper(Indices(clients)) && mask == OrAll(Indices(clients))
    }

    constructor (quality: int)
      requires IsIndex(quality)
      ensures Valid() && clients == [] && this.quality == quality
      ensures fresh(windows) && windows.Valid() && windows.windows == []
    {
      windows := new GroupWindows(quality);
      this.quality, clients, mask := quality, [], 0;
    }

    /** `handleWindowGraphicalUpdates`: every call of the handler is for just the members of the group. */
    method HandleWindowGraphicalUpdates(outcomes: seq<Outcome>, clock: Clock)
      returns (calls: seq<Call>, ghost called: seq<bool>)
      requires Valid() && windows.Valid() && |outcomes| == |windows.windows| && windows.latest <= clock.last
      modifies windows`history, windows`latest, windows.windows, clock`last
      ensures windows.Valid() && old(clock.last) <= windows.latest == clock.last
      ensures |called| == |windows.windows|
      ensures calls == CallsMade(Ids(windows.windows), OrAll(Indices(clients)),
                                 old(DeliveriesOf(windows.windows)), called)
      ensures forall i | 0 <= i < |windows.windows| ::
                Handled(old(DeliveriesOf(windows.windows))[i], DeliveryOf(windows.windows[i]), outcomes[i],
                        called[i], old(clock.last))
    {
      calls, called := windows.HandleGraphicalUpdates(mask, outcomes, clock);
    }

    /** Finds a client by id; the result is |clients| if there is none. */
    method Find(id: nat) returns (k: nat)
      ensures k <= |clients| && (k < |clients| ==> clients[k].id == id)
      ensures k == |clients| ==> forall c | c in clients :: c.id != id
    {
      k := 0;
      while k < |clients| && clients[k].id != id
        invariant 0 <= k <= |clients|
        invariant forall j | 0 <= j < k :: clients[j].id != id
      {
        k := k + 1;
      }
    }

    method AddClient(c: Client)
      requires Valid() && (forall d | d in clients :: d == c || d.id != c.id)
      requires c !in clients ==> OneBit(c.index) && Disjoint(OrAll(Indices(clients)), c.index)
      modifies this`clients, this`mask
      ensures Valid() && clients == if c in old(clients) then old(clients) else old(clients) + [c]
    {
      hide OneBit, Disjoint, Or;
      var k := Find(c.id);
      if k == |clients| {
        IndicesAppend(clients, c);
        OrAllDisjoint(Indices(clients), c.index);
        OrDef(mask, c.index);
        clients := clients + [c];
        mask := mask | c.index;
      }
    }

    method RemoveClient(id: nat)
      requires Valid()
      modifies this`clients, this`mask
      ensures Valid()
      ensures if k :| 0 <= k < |old(clients)| && old(clients)[k].id == id
              then clients == Removed(old(clients), k)
              else clients == old(clients)
      ensures Members(clients) == OthersThan(old(clients), id)
    {
      var k := Find(id);
      if k < |clients| {
        assert OthersThan(clients, id) == Members(clients) - {clients[k]};
        hide OneBit, Disjoint, Without, OrAll, Proper, Removed, Indices, Members;
        RemovedMembers(clients, k);
        RemovedMask(clients, k);
        WithoutDef(mask, clients[k].index);
        mask := mask & !clients[k].index;
        clients := Removed(clients, k);
      }
    }

    /** True for an EMPTY group, whatever the name says. */
    predicate HasClients()
      reads this
    {
      clients == []
    }
  }
}
