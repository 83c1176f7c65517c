/**
 Per-address limits: a sliding log of accepted connections, a packet counter that restarts every whole second,
 and a collector that drops counters nobody has used for a minute. Times are nanoseconds since the limiter
 was created.
*/
module RateLimiter {
  import opened Common

  type Addr = nat

  const SECOND: nat := 1_000_000_000
  const WINDOW: nat := 60
  const MAX_CONNECTIONS: nat := 5
  const MAX_PACKETS: nat := 20

  function Secs(t: nat): nat {
    t / SECOND
  }

  datatype Counter = Counter(count: nat, last: nat)

  datatype State = State(connections: map<Addr, seq<nat>>, packets: map<Addr, Counter>)

  const EMPTY: State := State(map[], map[])

  datatype Event =
    | Connect(addr: Addr, now: nat)
    | Packet(addr: Addr, now: nat)
    | Disconnect(addr: Addr, now: nat)
    | CleanupStale(now: nat)

  /** The entries of a log that are less than a minute old. */
  function Recent(log: seq<nat>, now: nat): seq<nat> {
    if log == [] then []
    else if Secs(SaturatingSub(now, log[0])) < WINDOW then [log[0]] + Recent(log[1..], now)
    else Recent(log[1..], now)
  }

  function Log(s: State, addr: Addr): seq<nat> {
    if addr in s.connections then s.connections[addr] else []
  }

  /** The counter a packet is charged to: the address's own, or a new one, restarted in a new second. */
  function Charged(s: State, addr: Addr, now: nat): Counter {
    if addr in s.packets && Secs(now) - s.packets[addr].last < 1 then s.packets[addr] else Counter(0, Secs(now))
  }

  function Kept(packets: map<Addr, Counter>, now: nat): map<Addr, Counter> {
    map a | a in packets && Secs(now) - packets[a].last < WINDOW :: packets[a]
  }

  /** One call on the limiter: the state after it, and its answer (true for the collectors). */
  function Step(s: State, e: Event): (State, bool) {
    match e
    case Connect(addr, now) =>
      var log := Recent(Log(s, addr), now);
      if |log| >= MAX_CONNECTIONS then (s.(connections := s.connections[addr := log]), false)
      else (s.(connections := s.connections[addr := log + [now]]), true)
    case Packet(addr, now) =>
      var c := Charged(s, addr, now);
      (s.(packets := s.packets[addr := c.(count := c.count + 1)]), c.count < MAX_PACKETS)
    case Disconnect(addr, _) =>
      (s.(packets := s.packets - {addr}), true)
    case CleanupStale(now) =>
      (s.(packets := Kept(s.packets, now)), true)
  }

  function After(events: seq<Event>): State {
    if events == [] then EMPTY else Step(After(events[..|events| - 1]), events[|events| - 1]).0
  }

  /** The answer to the last call of a run. */
  function Answer(events: seq<Event>): bool
    requires events != []
  {
    Step(After(events[..|events| - 1]), events[|events| - 1]).1
  }

  ghost predicate Monotone(events: seq<Event>) {
    forall i, j :: 0 <= i < j < |events| ==> events[i].now <= events[j].now
  }

  function Clock(events: seq<Event>): nat {
    if events == [] then 0 else events[|events| - 1].now
  }

  lemma PrefixMonotone(events: seq<Event>, e: Event)
    requires Monotone(events + [e])
    ensures Monotone(events) && Clock(events) <= e.now && (events + [e])[..|events|] == events
  {
    var run := events + [e];
    assert run[..|events|] == events;
    assert forall i :: 0 <= i < |events| ==> events[i] == run[i];
    if events != [] {
      assert run[|events| - 1].now <= run[|events|].now;
    }
  }

  // ----- connections -----

  /** When connections of an address were accepted, over a whole run. */
  function Accepted(events: seq<Event>, addr: Addr): seq<nat> {
    if events == [] then []
    else
      var n := |events| - 1;
      Accepted(events[..n], addr)
        + if events[n].Connect? && events[n].addr == addr && Answer(events) then [events[n].now] else []
  }

  ghost predicate Ascending(log: seq<nat>) {
    forall i, j :: 0 <= i < j < |log| ==> log[i] <= log[j]
  }

  /** In an ascending log the recent entries are its tail, and those before it are a minute old. */
  lemma {:induction false} RecentIsTail(log: seq<nat>, now: nat) returns (n: nat)
    requires Ascending(log) && forall i :: 0 <= i < |log| ==> log[i] <= now
    ensures n <= |log| && Recent(log, now) == log[n..]
    ensures forall i :: 0 <= i < n ==> now - log[i] >= WINDOW * SECOND
    ensures forall i :: n <= i < |log| ==> now - log[i] < WINDOW * SECOND
  {
    if log == [] {
      n := 0;
    } else {
      var m := RecentIsTail(log[1..], now);
      if Secs(now - log[0]) < WINDOW {
        assert forall i :: 0 < i < |log| ==> now - log[i] <= now - log[0];
        assert |log| > 1 ==> log[1..][0] == log[1];
        assert m == 0;
        assert [log[0]] + log[1..] == log;
        n := 0;
      } else {
        n := m + 1;
      }
    }
  }

  /** A log is the tail of all acceptances that follows the ones already a minute old. */
  ghost predicate TailOf(all: seq<nat>, log: seq<nat>, clock: nat, dropped: nat) {
    && dropped <= |all| && log == all[dropped..] && |log| <= MAX_CONNECTIONS
    && Ascending(all) && (forall i :: 0 <= i < |all| ==> all[i] <= clock)
    && (forall i :: 0 <= i < dropped ==> clock - all[i] >= WINDOW * SECOND)
    && (forall i :: 0 <= i && i + MAX_CONNECTIONS < |all| ==> all[i + MAX_CONNECTIONS] - all[i] >= WINDOW * SECOND)
  }

  ghost predicate LogIsTail(events: seq<Event>, addr: Addr, dropped: nat) {
    TailOf(Accepted(events, addr), Log(After(events), addr), Clock(events), dropped)
  }

  lemma Purge(all: seq<nat>, log: seq<nat>, clock: nat, d: nat, now: nat) returns (dropped: nat)
    requires TailOf(all, log, clock, d) && clock <= now
    ensures TailOf(all, Recent(log, now), now, dropped)
  {
    var cut := RecentIsTail(log, now);
    dropped := d + cut;
    assert forall i :: d <= i < dropped ==> all[i] == log[i - d];
  }

  lemma Push(all: seq<nat>, log: seq<nat>, now: nat, dropped: nat)
    requires TailOf(all, log, now, dropped) && |log| < MAX_CONNECTIONS
    ensures TailOf(all + [now], log + [now], now, dropped)
  {
  }

  lemma OtherEventKeepsLog(s: State, e: Event, addr: Addr)
    requires !(e.Connect? && e.addr == addr)
    ensures Log(Step(s, e).0, addr) == Log(s, addr)
  {
  }

  lemma LaterClockKeepsTail(all: seq<nat>, log: seq<nat>, clock: nat, dropped: nat, now: nat)
    requires TailOf(all, log, clock, dropped) && clock <= now
    ensures TailOf(all, log, now, dropped)
  {
  }

  lemma OtherEventKeepsTail(events: seq<Event>, addr: Addr, e: Event, dropped: nat)
    requires LogIsTail(events, addr, dropped) && Clock(events) <= e.now
    requires !(e.Connect? && e.addr == addr)
    ensures LogIsTail(events + [e], addr, dropped)
  {
    assert (events + [e])[..|events|] == events;
    var all := Accepted(events, addr);
    assert all + [] == all;
    OtherEventKeepsLog(After(events), e, addr);
    LaterClockKeepsTail(all, Log(After(events), addr), Clock(events), dropped, e.now);
  }

  lemma ConnectKeepsTail(events: seq<Event>, addr: Addr, now: nat, d: nat) returns (dropped: nat)
    requires LogIsTail(events, addr, d) && Clock(events) <= now
    ensures LogIsTail(events + [Connect(addr, now)], addr, dropped)
  {
    var run := events + [Connect(addr, now)];
    assert run[..|events|] == events;
    var all, log := Accepted(events, addr), Log(After(events), addr);
    dropped := Purge(all, log, Clock(events), d, now);
    if Answer(run) {
      Push(all, Recent(log, now), now, dropped);
    } else {
      assert all + [] == all;
    }
  }

  lemma {:induction false} LogInvariant(events: seq<Event>, addr: Addr) returns (dropped: nat)
    requires Monotone(events)
    ensures LogIsTail(events, addr, dropped)
    decreases |events|
  {
    if events == [] {
      dropped := 0;
    } else {
      var n := |events| - 1;
      var before, e := events[..n], events[n];
      dropped := LogInvariant(before, addr);
      assert events == before + [e] && Clock(before) <= e.now;
      if e.Connect? && e.addr == addr {
        dropped := ConnectKeepsTail(before, addr, e.now, dropped);
      } else {
        OtherEventKeepsTail(before, addr, e, dropped);
      }
    }
  }

  /** Any six accepted connections of an address span at least a minute. */
  lemma SixConnectionsSpanAMinute(events: seq<Event>, addr: Addr, i: nat, j: nat)
    requires Monotone(events) && i + MAX_CONNECTIONS <= j < |Accepted(events, addr)|
    ensures Accepted(events, addr)[j] - Accepted(events, addr)[i] >= WINDOW * SECOND
  {
    var dropped := LogInvariant(events, addr);
    var all := Accepted(events, addr);
    assert all[j - MAX_CONNECTIONS + MAX_CONNECTIONS] - all[j - MAX_CONNECTIONS] >= WINDOW * SECOND;
  }

  /** A connection is refused exactly when the fifth-last acceptance is less than a minute old. */
  lemma RefusalExact(events: seq<Event>, addr: Addr, now: nat)
    requires Monotone(events + [Connect(addr, now)])
    ensures
      var all := Accepted(events, addr);
      !Answer(events + [Connect(addr, now)]) <==>
        |all| >= MAX_CONNECTIONS && now - all[|all| - MAX_CONNECTIONS] < WINDOW * SECOND
  {
    PrefixMonotone(events, Connect(addr, now));
    var d := LogInvariant(events, addr);
    RecentFull(Accepted(events, addr), Log(After(events), addr), Clock(events), d, now);
  }

  lemma RecentFull(all: seq<nat>, log: seq<nat>, clock: nat, d: nat, now: nat)
    requires TailOf(all, log, clock, d) && clock <= now
    ensures |Recent(log, now)| >= MAX_CONNECTIONS <==>
      |all| >= MAX_CONNECTIONS && now - all[|all| - MAX_CONNECTIONS] < WINDOW * SECOND
  {
    var cut := RecentIsTail(log, now);
    assert forall i :: d <= i < |all| ==> all[i] == log[i - d];
  }

  // ----- packets -----

  function AcceptedIn(events: seq<Event>, addr: Addr, sec: nat): nat {
    if events == [] then 0
    else
      var n := |events| - 1;
      AcceptedIn(events[..n], addr, sec)
        + if events[n].Packet? && events[n].addr == addr && Secs(events[n].now) == sec && Answer(events) then 1 else 0
  }

  function DisconnectsIn(events: seq<Event>, addr: Addr, sec: nat): nat {
    if events == [] then 0
    else
      var n := |events| - 1;
      DisconnectsIn(events[..n], addr, sec)
        + if events[n].Disconnect? && events[n].addr == addr && Secs(events[n].now) == sec then 1 else 0
  }

  /** What the counter of an address says about the second it counts. */
  function CountIn(s: State, addr: Addr, sec: nat): nat {
    if addr in s.packets && s.packets[addr].last == sec then Min(s.packets[addr].count, MAX_PACKETS) else 0
  }

  lemma {:induction false} PacketInvariant(events: seq<Event>, addr: Addr, sec: nat)
    requires Monotone(events)
    ensures
      var s := After(events);
      && (addr in s.packets ==> s.packets[addr].last <= Secs(Clock(events)))
      && AcceptedIn(events, addr, sec) <= MAX_PACKETS * (1 + DisconnectsIn(events, addr, sec))
      && (sec >= Secs(Clock(events)) ==>
            CountIn(s, addr, sec) <= AcceptedIn(events, addr, sec)
              <= MAX_PACKETS * DisconnectsIn(events, addr, sec) + CountIn(s, addr, sec))
    decreases |events|
  {
    if events != [] {
      var n := |events| - 1;
      PacketInvariant(events[..n], addr, sec);
      SecsMonotone(Clock(events[..n]), events[n].now);
    }
  }

  lemma SecsMonotone(a: nat, b: nat)
    ensures a <= b ==> Secs(a) <= Secs(b)
  {
  }

  /** How many packets of a second an address has offered since it was last disconnected. */
  function Offered(events: seq<Event>, addr: Addr, sec: nat): nat {
    if events == [] then 0
    else
      var before, e := Offered(events[..|events| - 1], addr, sec), events[|events| - 1];
      if e.Packet? && e.addr == addr && Secs(e.now) == sec then before + 1
      else if e.Disconnect? && e.addr == addr then 0
      else before
  }

  /** What the stretches between disconnects, up to the last of them, were allowed: 20 of the packets each offered. */
  function Settled(events: seq<Event>, addr: Addr, sec: nat): nat {
    if events == [] then 0
    else
      var front, e := events[..|events| - 1], events[|events| - 1];
      Settled(front, addr, sec)
        + if e.Disconnect? && e.addr == addr then Min(MAX_PACKETS, Offered(front, addr, sec)) else 0
  }

  /** Up to the second in question, the counter holds what was offered in it. */
  ghost predicate CounterHolds(s: State, addr: Addr, sec: nat, offered: nat) {
    offered == if addr in s.packets && s.packets[addr].last == sec then s.packets[addr].count else 0
  }

  lemma StepOffers(events: seq<Event>, e: Event, addr: Addr, sec: nat)
    requires Secs(Clock(events)) <= Secs(e.now)
    requires addr in After(events).packets ==> After(events).packets[addr].last <= Secs(Clock(events))
    requires sec >= Secs(Clock(events)) ==> CounterHolds(After(events), addr, sec, Offered(events, addr, sec))
    ensures sec >= Secs(e.now) ==> CounterHolds(After(events + [e]), addr, sec, Offered(events + [e], addr, sec))
    ensures addr in After(events + [e]).packets ==> After(events + [e]).packets[addr].last <= Secs(e.now)
    ensures e.Packet? && e.addr == addr && Secs(e.now) == sec ==>
      (Answer(events + [e]) <==> Offered(events, addr, sec) < MAX_PACKETS)
  {
    assert (events + [e])[..|events|] == events;
  }

  lemma {:induction false} PacketCount(events: seq<Event>, addr: Addr, sec: nat)
    requires Monotone(events)
    ensures
      var s := After(events);
      && (addr in s.packets ==> s.packets[addr].last <= Secs(Clock(events)))
      && (sec >= Secs(Clock(events)) ==> CounterHolds(s, addr, sec, Offered(events, addr, sec)))
      && AcceptedIn(events, addr, sec) == Settled(events, addr, sec) + Min(MAX_PACKETS, Offered(events, addr, sec))
    decreases |events|
  {
    if events != [] {
      var n := |events| - 1;
      var front := events[..n];
      PacketCount(front, addr, sec);
      SecsMonotone(Clock(front), events[n].now);
      assert events == front + [events[n]];
      hide After, Answer, Secs, CounterHolds;
      StepOffers(front, events[n], addr, sec);
    }
  }

  /** In each whole second the packets accepted from an address are exactly the first 20 of each stretch between its
      disconnects; so no more than 20, plus 20 for each disconnect in that second. */
  lemma PacketsPerSecond(events: seq<Event>, addr: Addr, sec: nat)
    requires Monotone(events)
    ensures AcceptedIn(events, addr, sec) == Settled(events, addr, sec) + Min(MAX_PACKETS, Offered(events, addr, sec))
    ensures AcceptedIn(events, addr, sec) <= MAX_PACKETS * (1 + DisconnectsIn(events, addr, sec))
  {
    PacketInvariant(events, addr, sec);
    PacketCount(events, addr, sec);
  }

  /** A packet is refused exactly when 20 were offered in the same second since the last disconnect. */
  lemma PacketRefusal(events: seq<Event>, addr: Addr, now: nat)
    requires Monotone(events + [Packet(addr, now)])
    ensures !Answer(events + [Packet(addr, now)]) <==> Offered(events, addr, Secs(now)) >= MAX_PACKETS
    ensures !Answer(events + [Packet(addr, now)]) ==> AcceptedIn(events, addr, Secs(now)) >= MAX_PACKETS
  {
    PrefixMonotone(events, Packet(addr, now));
    PacketCount(events, addr, Secs(now));
    SecsMonotone(Clock(events), now);
    StepOffers(events, Packet(addr, now), addr, Secs(now));
  }

  /** After a disconnect the next packet is accepted, however many were before it in the same second. */
  lemma DisconnectRestarts(events: seq<Event>, addr: Addr, now: nat)
    ensures Answer(events + [Disconnect(addr, now)] + [Packet(addr, now)])
  {
    var dropped := events + [Disconnect(addr, now)];
    assert dropped[..|events|] == events;
    assert (dropped + [Packet(addr, now)])[..|dropped|] == dropped;
  }

  // ----- the collector is invisible -----

  function WithoutCleanup(events: seq<Event>): seq<Event> {
    if events == [] then []
    else
      var n := |events| - 1;
      WithoutCleanup(events[..n]) + if events[n].CleanupStale? then [] else [events[n]]
  }

  /** The answers of a run, the collector's calls left out. */
  function Answers(events: seq<Event>): seq<bool> {
    if events == [] then []
    else
      var n := |events| - 1;
      Answers(events[..n]) + if events[n].CleanupStale? then [] else [Answer(events)]
  }

  /** `swept` is `kept` without some counters that are a minute out of date. */
  ghost predicate Simulates(swept: State, kept: State, now: nat) {
    && swept.connections == kept.connections
    && (forall a :: a in swept.packets ==> a in kept.packets && swept.packets[a] == kept.packets[a])
    && (forall a :: a in kept.packets && a !in swept.packets ==> Secs(now) - kept.packets[a].last >= WINDOW)
  }

  lemma StepSimulates(swept: State, kept: State, e: Event, before: nat)
    requires Simulates(swept, kept, before) && before <= e.now
    ensures e.CleanupStale? ==> Simulates(Step(swept, e).0, kept, e.now)
    ensures !e.CleanupStale? ==>
      Simulates(Step(swept, e).0, Step(kept, e).0, e.now) && Step(swept, e).1 == Step(kept, e).1
  {
    SecsMonotone(before, e.now);
  }

  /** Calling the collector anywhere, any number of times, changes no other answer. */
  lemma {:induction false} CleanupInvisible(events: seq<Event>)
    requires Monotone(events)
    ensures Answers(events) == Answers(WithoutCleanup(events))
    ensures Simulates(After(events), After(WithoutCleanup(events)), Clock(events))
    decreases |events|
  {
    if events != [] {
      var n := |events| - 1;
      var rest := WithoutCleanup(events[..n]);
      CleanupInvisible(events[..n]);
      StepSimulates(After(events[..n]), After(rest), events[n], Clock(events[..n]));
      if !events[n].CleanupStale? {
        assert (rest + [events[n]])[..|rest|] == rest;
      } else {
        assert rest + [] == rest;
      }
      NoCleanupLeft(events[..n]);
    }
  }

  lemma {:induction false} NoCleanupLeft(events: seq<Event>)
    ensures forall i :: 0 <= i < |WithoutCleanup(events)| ==> !WithoutCleanup(events)[i].CleanupStale?
    decreases |events|
  {
    if events != [] {
      NoCleanupLeft(events[..|events| - 1]);
    }
  }

  // ----- what the collector leaves -----

  /** The second of the last packet of an address, none when it was disconnected after it. */
  function LastSecond(events: seq<Event>, addr: Addr): Option<nat> {
    if events == [] then None
    else
      var before, e := LastSecond(events[..|events| - 1], addr), events[|events| - 1];
      if e.Packet? && e.addr == addr then Some(Secs(e.now))
      else if e.Disconnect? && e.addr == addr then None
      else before
  }

  lemma {:induction false} CountersKnown(events: seq<Event>, addr: Addr)
    requires Monotone(events)
    ensures
      var s, last := After(events), LastSecond(events, addr);
      && (addr in s.packets ==> last == Some(s.packets[addr].last) && last.value <= Secs(Clock(events)))
      && (addr !in s.packets && last.Some? ==> Secs(Clock(events)) - last.value >= WINDOW)
    decreases |events|
  {
    if events != [] {
      var n := |events| - 1;
      CountersKnown(events[..n], addr);
      SecsMonotone(Clock(events[..n]), events[n].now);
    }
  }

  /** Right after a collection exactly the addresses with a packet in the last minute, and no disconnect since,
      have a counter. */
  lemma CollectedExactly(events: seq<Event>, addr: Addr, now: nat)
    requires Monotone(events + [CleanupStale(now)])
    ensures addr in After(events + [CleanupStale(now)]).packets <==>
      LastSecond(events, addr).Some? && Secs(now) - LastSecond(events, addr).value < WINDOW
  {
    PrefixMonotone(events, CleanupStale(now));
    CountersKnown(events, addr);
    SecsMonotone(Clock(events), now);
  }

  // ----- the limiter object -----

  /** One more entry of the log looked at. */
  lemma RecentStep(log: seq<nat>, now: nat, i: nat, recent: seq<nat>)
    requires i < |log|
    ensures recent + Recent(log[i..], now) ==
      (if Secs(SaturatingSub(now, log[i])) < WINDOW then recent + [log[i]] else recent) + Recent(log[i + 1..], now)
  {
    assert log[i..][0] == log[i] && log[i..][1..] == log[i + 1..];
  }

  class Limiter {
    var connections: map<Addr, seq<nat>>
    var packets: map<Addr, Counter>

    constructor ()
      ensures Abstract() == EMPTY
    {
      connections, packets := map[], map[];
    }

    ghost function Abstract(): State
      reads this
    {
      State(connections, packets)
    }

    method CheckConnection(addr: Addr, now: nat) returns (allowed: bool)
      modifies this`connections
      ensures (Abstract(), allowed) == Step(old(Abstract()), Connect(addr, now))
    {
      var log := if addr in connections then connections[addr] else [];
      var recent: seq<nat> := [];
      for i := 0 to |log|
        invariant Recent(log, now) == recent + Recent(log[i..], now)
        invariant Abstract() == old(Abstract())
      {
        RecentStep(log, now, i, recent);
        if Secs(SaturatingSub(now, log[i])) < WINDOW {
          recent := recent + [log[i]];
        }
      }
      assert log[|log|..] == [] && recent + [] == recent;
      if |recent| >= MAX_CONNECTIONS {
        connections := connections[addr := recent];
        return false;
      }
      connections := connections[addr := recent + [now]];
      return true;
    }

    /** The clock never runs backwards. */
    method CheckPacket(addr: Addr, now: nat) returns (allowed: bool)
      requires forall a :: a in packets ==> packets[a].last <= Secs(now)
      modifies this`packets
      ensures (Abstract(), allowed) == Step(old(Abstract()), Packet(addr, now))
    {
      var entry := if addr in packets then packets[addr] else Counter(0, Secs(now));
      if Secs(now) - entry.last >= 1 {
        entry := entry.(last := Secs(now));
        entry := entry.(count := 0);
      }
      var current := entry.count;
      packets := packets[addr := entry.(count := current + 1)];
      allowed := current < MAX_PACKETS;
    }

    method CleanupConnection(addr: Addr, ghost now: nat)
      modifies this`packets
      ensures Abstract() == Step(old(Abstract()), Disconnect(addr, now)).0
    {
      packets := packets - {addr};
    }

    method CleanupStaleEntries(now: nat)
      requires forall a :: a in packets ==> packets[a].last <= Secs(now)
      modifies this`packets
      ensures Abstract() == Step(old(Abstract()), CleanupStale(now)).0
    {
      packets := map a | a in packets && Secs(now) - packets[a].last < WINDOW :: packets[a];
    }
  }
}
