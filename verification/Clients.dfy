/** A connected client: its one-bit index, its quality limit and its ping protocol. */
module Clients {
  import opened ClientIndices
  import opened Clocks

  datatype PingStatus = WaitingToPing | RequiresPing | WaitingForPong | PongTimeout

  datatype PingEvent = PingSent(time: int) | PongReceived(time: int)

  /** PING_WAIT_INTERVAL_MS, in microseconds. */
  const PING_WAIT_INTERVAL_US := 1000000

  /** The status after an update, given the times since the last pong and the last ping. */
  function NextStatus(status: PingStatus, sincePong: int, sincePing: int, timeoutUs: int): PingStatus {
    if status == WaitingToPing && sincePong > PING_WAIT_INTERVAL_US then RequiresPing
    else if status == WaitingForPong && sincePing > timeoutUs then PongTimeout
    else status
  }

  ghost predicate PongBetween(pings: seq<PingEvent>, i: int, j: int)
    requires 0 <= i < j < |pings|
  {
    exists k :: i < k < j && pings[k].PongReceived?
  }

  /** Between any two pings there is a pong. */
  ghost predicate Alternates(pings: seq<PingEvent>) {
    forall i, j | 0 <= i < j < |pings| && pings[i].PingSent? && pings[j].PingSent? :: PongBetween(pings, i, j)
  }

  lemma PongStays(pings: seq<PingEvent>, e: PingEvent, i: int, j: int)
    requires 0 <= i < j < |pings| && PongBetween(pings, i, j)
    ensures PongBetween(pings + [e], i, j)
  {
    var k :| i < k < j && pings[k].PongReceived?;
    assert (pings + [e])[k] == pings[k];
  }

  lemma PongLast(pings: seq<PingEvent>, e: PingEvent, i: int)
    requires 0 <= i < |pings| && pings[i].PingSent? && pings[|pings| - 1].PongReceived?
    ensures PongBetween(pings + [e], i, |pings|)
  {
    var n := |pings| - 1;
    assert (pings + [e])[n] == pings[n];
  }

  lemma AlternatesNext(pings: seq<PingEvent>, e: PingEvent)
    requires Alternates(pings)
    requires e.PingSent? && pings != [] ==> pings[|pings| - 1].PongReceived?
    ensures Alternates(pings + [e])
  {
    hide PongBetween;
    var after := pings + [e];
    forall i, j | 0 <= i < j < |after| && after[i].PingSent? && after[j].PingSent?
      ensures PongBetween(after, i, j)
    {
      if j < |pings| {
        PongStays(pings, e, i, j);
      } else {
        PongLast(pings, e, i);
      }
    }
  }

  class Client {
    const id: nat
    const index: Mask
    const pingResponseTimeoutUs: int
    var maxQuality: int
    var pingStatus: PingStatus
    var pingSentTime: int
    var pongReceivedTime: int

    /** Everything exchanged with the client so far. */
    ghost var pings: seq<PingEvent>

    ghost predicate Valid()
      reads this`pingStatus, this`pingSentTime, this`pings
    {
      && Alternates(pings)
      && (if pingStatus == WaitingForPong || pingStatus == PongTimeout then
            pings != [] && pings[|pings| - 1] == PingSent(pingSentTime)
          else
            pings != [] ==> pings[|pings| - 1].PongReceived?)
    }

    constructor (id: nat, index: Mask, maxQuality: int, pingResponseTimeoutUs: int, clock: Clock)
      modifies clock`last
      ensures Valid() && this.id == id && this.index == index && this.maxQuality == maxQuality
      ensures this.pingResponseTimeoutUs == pingResponseTimeoutUs
      ensures pingStatus == WaitingToPing && pings == []
      ensures old(clock.last) <= pingSentTime <= pongReceivedTime <= clock.last
    {
      this.id, this.index, this.maxQuality := id, index, maxQuality;
      this.pingResponseTimeoutUs := pingResponseTimeoutUs;
      pingStatus, pings := WaitingToPing, [];
      new;
      pingSentTime := clock.Now();
      pongReceivedTime := clock.Now();
    }

    method UpdatePingStatus(clock: Clock)
      requires Valid()
      modifies this`pingStatus, clock`last
      ensures Valid() && old(clock.last) <= clock.last
      ensures pingStatus == NextStatus(old(pingStatus), clock.last - pongReceivedTime, clock.last - pingSentTime,
                                       pingResponseTimeoutUs)
    {
      var now := clock.Now();
      if pingStatus == WaitingToPing {
        pingStatus := if now - pongReceivedTime > PING_WAIT_INTERVAL_US then RequiresPing else WaitingToPing;
      } else if pingStatus == WaitingForPong {
        pingStatus := if now - pingSentTime > pingResponseTimeoutUs then PongTimeout else WaitingForPong;
      }
    }

    /** Called for clients that require a ping. */
    method OnPingSent(clock: Clock)
      requires Valid() && pingStatus == RequiresPing
      modifies this`pingStatus, this`pingSentTime, this`pings, clock`last
      ensures Valid() && old(clock.last) <= clock.last
      ensures pingStatus == WaitingForPong && pings == old(pings) + [PingSent(clock.last)]
    {
      pingSentTime := clock.Now();
      pingStatus := WaitingForPong;
      AlternatesNext(pings, PingSent(pingSentTime));
      pings := pings + [PingSent(pingSentTime)];
    }

    /** A pong may arrive at any time. */
    method OnPongReceived(clock: Clock)
      requires Valid()
      modifies this`pingStatus, this`pongReceivedTime, this`pings, clock`last
      ensures Valid() && old(clock.last) <= clock.last
      ensures pingStatus == WaitingToPing && pongReceivedTime == clock.last
      ensures pings == old(pings) + [PongReceived(clock.last)]
    {
      pongReceivedTime := clock.Now();
      pingStatus := WaitingToPing;
      AlternatesNext(pings, PongReceived(pongReceivedTime));
      pings := pings + [PongReceived(pongReceivedTime)];
    }
  }
}
