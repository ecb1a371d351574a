/** The ping-pong protocol over UDP sockets (`no-bypass/main.c`).

    The client's sender thread numbers its pings 1, 2, ... and stamps each with
    its own clock; the server stamps arrival and departure with its clock and
    sends the payload back; the client's receive loop stamps the return and
    records the payload.  The network may lose, reorder and duplicate: whatever
    was ever sent may arrive at any time, any number of times, or never.  Both
    clocks run at the same rate from unrelated origins and wrap at 64 bits. */
module PingPong {
  import opened Numbers
  import opened Payload

  /** A payload, and the true instants at which it has been stamped so far. */
  datatype Packet = Packet(payload: Payload, instants: seq<int>)

  datatype State = State(
    iters: nat,
    clientOrigin: int,        // client clock = true time + origin, wrapped
    serverOrigin: int,
    now: int,                 // true time, in nanoseconds
    nextId: nat,              // sender thread
    senderStopped: bool,
    pings: seq<Packet>,       // every ping sent
    held: seq<Packet>,        // the ping the server is working on, if any
    serverLast: nat,          // last_idx of start_server
    serverStopped: bool,
    pongs: seq<Packet>,       // every pong sent
    clientLast: nat,          // last_idx of start_client, a 32-bit counter
    recorded: seq<Packet>)    // what the client handed to its persistence agent

  function Init(iters: nat, clientOrigin: int, serverOrigin: int): State {
    State(iters, clientOrigin, serverOrigin, 0, 1, false, [], [], 0, false, [], 0, [])
  }

  datatype Action =
    | Tick(d: nat)
    | SendPing
    | SendPingFails
    | ServerReceive(k: nat)   // some ping arrives, for the first time or again
    | ServerReply
    | ServerReplyFails
    | ClientReceive(k: nat)   // some pong arrives, for the first time or again

  function ClientClock(s: State): nat { (s.now + s.clientOrigin) % TWO_TO_64 }
  function ServerClock(s: State): nat { (s.now + s.serverOrigin) % TWO_TO_64 }

  function Stamped(p: Packet, i: nat, reading: nat, now: int): Packet
    requires |p.payload.ts| == 4 && i < 4
  {
    Packet(p.payload.(ts := p.payload.ts[i := reading]), p.instants + [now])
  }

  predicate WellFormed(s: State) {
    && (forall k :: 0 <= k < |s.pings| ==> |s.pings[k].payload.ts| == 4)
    && (forall k :: 0 <= k < |s.held| ==> |s.held[k].payload.ts| == 4)
    && (forall k :: 0 <= k < |s.pongs| ==> |s.pongs[k].payload.ts| == 4)
    && (forall k :: 0 <= k < |s.recorded| ==> |s.recorded[k].payload.ts| == 4)
  }

  function Step(s: State, a: Action): (s': State)
    requires WellFormed(s)
    ensures WellFormed(s')
  {
    match a
    case Tick(d) => s.(now := s.now + d)
    case SendPing =>
      if s.nextId <= s.iters && !s.senderStopped then
        s.(pings := s.pings + [Stamped(Packet(NewPayload(s.nextId), []), 0, ClientClock(s), s.now)],
           nextId := s.nextId + 1)
      else s
    case SendPingFails => s.(senderStopped := true)
    case ServerReceive(k) =>
      if k < |s.pings| && s.held == [] && s.serverLast < s.iters && !s.serverStopped then
        s.(held := [Stamped(s.pings[k], 1, ServerClock(s), s.now)],
           serverLast := Max(s.serverLast, s.pings[k].payload.id))
      else s
    case ServerReply =>
      if s.held != [] && !s.serverStopped then
        s.(pongs := s.pongs + [Stamped(s.held[0], 2, ServerClock(s), s.now)], held := [])
      else s
    case ServerReplyFails => s.(serverStopped := true)
    case ClientReceive(k) =>
      if k < |s.pongs| && s.clientLast < s.iters then
        s.(recorded := s.recorded + [Stamped(s.pongs[k], 3, ClientClock(s), s.now)],
           clientLast := Max(s.clientLast, s.pongs[k].payload.id) % TWO_TO_32)
      else s
  }

  function Run(s: State, schedule: seq<Action>): (s': State)
    requires WellFormed(s)
    ensures WellFormed(s')
    decreases |schedule|
  {
    if schedule == [] then s
    else Step(Run(s, schedule[..|schedule| - 1]), schedule[|schedule| - 1])
  }

  // ---------------------------------------------------------------- invariant

  /** Stamp i of a packet, as its origin clock showed it at the instant recorded. */
  predicate StampedBy(p: Packet, i: nat, origin: int)
    requires |p.payload.ts| == 4 && i < 4
  {
    i < |p.instants| && p.payload.ts[i] == (p.instants[i] + origin) % TWO_TO_64
  }

  /** A packet after its first n stamps: it stems from the ping with its id, and its stamps
      were taken in order, none in the future. */
  predicate Genuine(s: State, p: Packet, n: nat)
    requires |p.payload.ts| == 4 && 1 <= n <= 4
  {
    && |p.instants| == n
    && 1 <= p.payload.id <= |s.pings|
    && |s.pings[p.payload.id - 1].instants| == 1
    && p.instants[0] == s.pings[p.payload.id - 1].instants[0]
    && (forall i, j :: 0 <= i < j < n ==> p.instants[i] <= p.instants[j])
    && p.instants[n - 1] <= s.now
    && StampedBy(p, 0, s.clientOrigin)
    && (n > 1 ==> StampedBy(p, 1, s.serverOrigin))
    && (n > 2 ==> StampedBy(p, 2, s.serverOrigin))
    && (n > 3 ==> StampedBy(p, 3, s.clientOrigin))
  }

  ghost predicate Pings(s: State)
    requires WellFormed(s)
  {
    && |s.pings| == s.nextId - 1 <= s.iters
    && forall k :: 0 <= k < |s.pings| ==>
         && s.pings[k].payload.id == k + 1
         && |s.pings[k].instants| == 1
         && s.pings[k].instants[0] <= s.now
         && StampedBy(s.pings[k], 0, s.clientOrigin)
  }

  ghost predicate Inv(s: State) {
    && WellFormed(s)
    && s.nextId >= 1
    && Pings(s)
    && (forall k :: 0 <= k < |s.held| ==> Genuine(s, s.held[k], 2))
    && (forall k :: 0 <= k < |s.pongs| ==> Genuine(s, s.pongs[k], 3))
    && (forall k :: 0 <= k < |s.recorded| ==> Genuine(s, s.recorded[k], 4))
  }

  /** Later, and after more pings, a genuine packet is still genuine. */
  lemma GenuineStays(s: State, s': State, p: Packet, n: nat)
    requires WellFormed(s) && Pings(s) && WellFormed(s') && Pings(s')
    requires s.pings <= s'.pings && s.now <= s'.now
    requires s'.clientOrigin == s.clientOrigin && s'.serverOrigin == s.serverOrigin
    requires |p.payload.ts| == 4 && 1 <= n <= 4 && Genuine(s, p, n)
    ensures Genuine(s', p, n)
  {
  }

  lemma StepKeepsPings(s: State, a: Action)
    requires Inv(s)
    ensures Step(s, a).nextId >= 1 && Pings(Step(s, a)) && s.pings <= Step(s, a).pings
  {
  }

  /** The clock that takes stamp i. */
  function Origin(s: State, i: nat): int { if i == 0 || i == 3 then s.clientOrigin else s.serverOrigin }

  lemma StampKeepsGenuine(s: State, p: Packet, n: nat)
    requires |p.payload.ts| == 4 && 1 <= n < 4 && Genuine(s, p, n)
    ensures Genuine(s, Stamped(p, n, (s.now + Origin(s, n)) % TWO_TO_64, s.now), n + 1)
  {
    var reading := (s.now + Origin(s, n)) % TWO_TO_64;
    var q := Stamped(p, n, reading, s.now);
    forall i, j | 0 <= i < j < n + 1
      ensures q.instants[i] <= q.instants[j]
    {
      assert p.instants[i] <= p.instants[n - 1];
    }
    OlderStampsStay(p, n, reading, s.now, 0, s.clientOrigin);
    OlderStampsStay(p, n, reading, s.now, 1, s.serverOrigin);
    OlderStampsStay(p, n, reading, s.now, 2, s.serverOrigin);
  }

  lemma OlderStampsStay(p: Packet, n: nat, reading: nat, now: int, i: nat, origin: int)
    requires |p.payload.ts| == 4 && 1 <= n < 4 && |p.instants| == n && i < 4
    ensures i < n && StampedBy(p, i, origin) ==> StampedBy(Stamped(p, n, reading, now), i, origin)
  {
  }

  lemma PingIsGenuine(s: State, k: nat)
    requires WellFormed(s) && Pings(s) && k < |s.pings|
    ensures Genuine(s, s.pings[k], 1)
  {
  }

  /** What was genuine before a step is so after it. */
  lemma StepKeepsGenuine(s: State, a: Action, p: Packet, n: nat)
    requires Inv(s) && |p.payload.ts| == 4 && 1 <= n <= 4 && Genuine(s, p, n)
    ensures Genuine(Step(s, a), p, n)
  {
    StepKeepsPings(s, a);
    StepKeepsClocks(s, a);
    GenuineStays(s, Step(s, a), p, n);
  }

  lemma StepKeepsClocks(s: State, a: Action)
    requires WellFormed(s)
    ensures var s' := Step(s, a);
      && s.now <= s'.now && s'.iters == s.iters
      && s'.clientOrigin == s.clientOrigin && s'.serverOrigin == s.serverOrigin
  {
  }

  lemma HeldIsGenuine(s: State, a: Action, k: nat)
    requires Inv(s) && k < |Step(s, a).held|
    ensures Genuine(s, Step(s, a).held[k], 2)
  {
    if Step(s, a).held != s.held {
      PingIsGenuine(s, a.k);
      StampKeepsGenuine(s, s.pings[a.k], 1);
    }
  }

  lemma PongIsGenuine(s: State, a: Action, k: nat)
    requires Inv(s) && k < |Step(s, a).pongs|
    ensures Genuine(s, Step(s, a).pongs[k], 3)
  {
    if k == |s.pongs| {
      StampKeepsGenuine(s, s.held[0], 2);
    }
  }

  lemma RecordIsGenuine(s: State, a: Action, k: nat)
    requires Inv(s) && k < |Step(s, a).recorded|
    ensures Genuine(s, Step(s, a).recorded[k], 4)
  {
    if k == |s.recorded| {
      StampKeepsGenuine(s, s.pongs[a.k], 3);
    }
  }

  lemma HeldKept(s: State, a: Action)
    requires Inv(s)
    ensures var s' := Step(s, a); forall k :: 0 <= k < |s'.held| ==> Genuine(s', s'.held[k], 2)
  {
    var s' := Step(s, a);
    forall k | 0 <= k < |s'.held|
      ensures Genuine(s', s'.held[k], 2)
    {
      HeldIsGenuine(s, a, k);
      StepKeepsGenuine(s, a, s'.held[k], 2);
    }
  }

  lemma PongsKept(s: State, a: Action)
    requires Inv(s)
    ensures var s' := Step(s, a); forall k :: 0 <= k < |s'.pongs| ==> Genuine(s', s'.pongs[k], 3)
  {
    var s' := Step(s, a);
    forall k | 0 <= k < |s'.pongs|
      ensures Genuine(s', s'.pongs[k], 3)
    {
      PongIsGenuine(s, a, k);
      StepKeepsGenuine(s, a, s'.pongs[k], 3);
    }
  }

  lemma RecordedKept(s: State, a: Action)
    requires Inv(s)
    ensures var s' := Step(s, a); forall k :: 0 <= k < |s'.recorded| ==> Genuine(s', s'.recorded[k], 4)
  {
    var s' := Step(s, a);
    forall k | 0 <= k < |s'.recorded|
      ensures Genuine(s', s'.recorded[k], 4)
    {
      RecordIsGenuine(s, a, k);
      StepKeepsGenuine(s, a, s'.recorded[k], 4);
    }
  }

  lemma StepKeepsInv(s: State, a: Action)
    requires Inv(s)
    ensures Inv(Step(s, a))
  {
    StepKeepsPings(s, a);
    HeldKept(s, a);
    PongsKept(s, a);
    RecordedKept(s, a);
  }

  lemma {:induction false} RunKeepsInv(s: State, schedule: seq<Action>)
    requires Inv(s)
    ensures Inv(Run(s, schedule))
    decreases |schedule|
  {
    if schedule != [] {
      var n := |schedule| - 1;
      RunKeepsInv(s, schedule[..n]);
      StepKeepsInv(Run(s, schedule[..n]), schedule[n]);
    }
  }

  lemma {:induction false} RunKeepsParameters(s: State, schedule: seq<Action>)
    requires WellFormed(s)
    ensures var s' := Run(s, schedule);
      s'.iters == s.iters && s'.clientOrigin == s.clientOrigin && s'.serverOrigin == s.serverOrigin
    decreases |schedule|
  {
    if schedule != [] {
      var n := |schedule| - 1;
      RunKeepsParameters(s, schedule[..n]);
      StepKeepsClocks(Run(s, schedule[..n]), schedule[n]);
    }
  }

  // ------------------------------------------------------------ main theorems

  /** True time from the client's send stamp to the server's receive stamp. */
  function ForwardDelay(p: Packet): int
    requires |p.instants| == 4
  {
    p.instants[1] - p.instants[0]
  }

  /** True time from the server's send stamp to the client's receive stamp. */
  function ReturnDelay(p: Packet): int
    requires |p.instants| == 4
  {
    p.instants[3] - p.instants[2]
  }

  /** The clock origins cancel: the wrapping latency is half the true time on the network. */
  lemma LatencyCancelsClocks(s: State, p: Packet)
    requires |p.payload.ts| == 4 && Genuine(s, p, 4)
    ensures ForwardDelay(p) >= 0 && ReturnDelay(p) >= 0
    ensures ComputeLatency(p.payload) == (ForwardDelay(p) + ReturnDelay(p)) % TWO_TO_64 / 2
  {
    var t := p.instants;
    var c, v := s.clientOrigin, s.serverOrigin;
    Sub64OfWrapped(t[3] + c, t[0] + c);
    Sub64OfWrapped(t[2] + v, t[1] + v);
    Sub64OfWrapped(t[3] - t[0], t[2] - t[1]);
    assert (t[3] - t[0]) - (t[2] - t[1]) == ForwardDelay(p) + ReturnDelay(p);
  }

  /** A recorded payload keeps the id and the send stamp of one real ping, and its latency is
      half the sum of its forward and return delays. */
  predicate TrueRecord(s: State, r: Packet) {
    && |r.payload.ts| == 4 && |r.instants| == 4
    && 1 <= r.payload.id <= |s.pings| <= s.iters
    && SamePing(r, s.pings[r.payload.id - 1])
    && var network := ForwardDelay(r) + ReturnDelay(r);
    && ForwardDelay(r) >= 0 && ReturnDelay(r) >= 0
    && ComputeLatency(r.payload) == network % TWO_TO_64 / 2
    && (network < TWO_TO_64 ==> ComputeLatency(r.payload) == network / 2)
  }

  predicate SamePing(r: Packet, ping: Packet)
    requires |r.payload.ts| == 4 && |r.instants| == 4
  {
    && |ping.payload.ts| == 4 && |ping.instants| == 1
    && r.payload.id == ping.payload.id
    && r.payload.ts[0] == ping.payload.ts[0]
    && r.instants[0] == ping.instants[0]
  }

  lemma GenuineIsTrue(s: State, r: Packet)
    requires WellFormed(s) && Pings(s) && |r.payload.ts| == 4 && Genuine(s, r, 4)
    ensures TrueRecord(s, r)
  {
    LatencyCancelsClocks(s, r);
  }

  /** In every run, on any such network and for any clock origins, every recorded payload is a
      true record. */
  lemma {:induction false} EveryRecordIsTrue(iters: nat, clientOrigin: int, serverOrigin: int, schedule: seq<Action>)
    ensures var s := Run(Init(iters, clientOrigin, serverOrigin), schedule);
      s.iters == iters && forall k :: 0 <= k < |s.recorded| ==> TrueRecord(s, s.recorded[k])
  {
    var s := Run(Init(iters, clientOrigin, serverOrigin), schedule);
    RunKeepsInv(Init(iters, clientOrigin, serverOrigin), schedule);
    RunKeepsParameters(Init(iters, clientOrigin, serverOrigin), schedule);
    forall k | 0 <= k < |s.recorded|
      ensures TrueRecord(s, s.recorded[k])
    {
      GenuineIsTrue(s, s.recorded[k]);
    }
  }

  /** The largest recorded id, zero if there is none. */
  function TopId(ps: seq<Packet>): nat {
    if ps == [] then 0 else Max(TopId(ps[..|ps| - 1]), ps[|ps| - 1].payload.id)
  }

  lemma {:induction false} TopIdIsTop(ps: seq<Packet>, n: nat)
    requires forall k :: 0 <= k < |ps| ==> ps[k].payload.id <= n
    ensures TopId(ps) <= n
    ensures n > 0 ==> (TopId(ps) == n <==> exists k :: 0 <= k < |ps| && ps[k].payload.id == n)
  {
    if ps != [] {
      var rest := ps[..|ps| - 1];
      TopIdIsTop(rest, n);
      if TopId(ps) == n && n > 0 && ps[|ps| - 1].payload.id != n {
        var k :| 0 <= k < |rest| && rest[k].payload.id == n;
        assert ps[k].payload.id == n;
      }
    }
  }

  lemma TopIdOfOneMore(ps: seq<Packet>, p: Packet)
    ensures TopId(ps + [p]) == Max(TopId(ps), p.payload.id)
  {
    assert (ps + [p])[..|ps|] == ps;
  }

  lemma ReceiveKeepsCounter(s: State, k: nat)
    requires WellFormed(s) && k < |s.pongs| && s.pongs[k].payload.id <= s.iters
    requires s.clientLast == TopId(s.recorded) < s.iters < TWO_TO_32
    ensures var s' := Step(s, ClientReceive(k)); s'.clientLast == TopId(s'.recorded) <= s'.iters
  {
    var p := Stamped(s.pongs[k], 3, ClientClock(s), s.now);
    TopIdOfOneMore(s.recorded, p);
    assert Max(s.clientLast, p.payload.id) % TWO_TO_32 == Max(s.clientLast, p.payload.id);
  }

  lemma StepKeepsCounter(s: State, a: Action)
    requires Inv(s) && s.iters < TWO_TO_32 && s.clientLast == TopId(s.recorded) <= s.iters
    ensures var s' := Step(s, a); s'.clientLast == TopId(s'.recorded) <= s'.iters
  {
    if a.ClientReceive? && a.k < |s.pongs| && s.clientLast < s.iters {
      assert Genuine(s, s.pongs[a.k], 3);
      ReceiveKeepsCounter(s, a.k);
    }
  }

  lemma {:induction false} ClientLastIsTopId(s: State, schedule: seq<Action>)
    requires Inv(s) && s.iters < TWO_TO_32 && s.clientLast == TopId(s.recorded) <= s.iters
    ensures var s' := Run(s, schedule); s'.clientLast == TopId(s'.recorded) <= s'.iters
    decreases |schedule|
  {
    if schedule != [] {
      var n := |schedule| - 1;
      ClientLastIsTopId(s, schedule[..n]);
      RunKeepsInv(s, schedule[..n]);
      RunKeepsParameters(s, schedule[..n]);
      StepKeepsCounter(Run(s, schedule[..n]), schedule[n]);
    }
  }

  /** With fewer than 2^32 iterations, the client's receive loop ends exactly when the last
      ping has come back; from 2^32 iterations on, its 32-bit counter never gets there. */
  lemma {:induction false} ClientLoopEndsExactlyWhen(iters: nat, clientOrigin: int, serverOrigin: int, schedule: seq<Action>)
    requires iters > 0
    ensures var s := Run(Init(iters, clientOrigin, serverOrigin), schedule);
      s.clientLast >= iters <==>
        iters < TWO_TO_32 && exists k :: 0 <= k < |s.recorded| && s.recorded[k].payload.id == iters
  {
    var init := Init(iters, clientOrigin, serverOrigin);
    var s := Run(init, schedule);
    RunKeepsInv(init, schedule);
    RunKeepsParameters(init, schedule);
    CounterIs32Bit(init, schedule);
    if iters < TWO_TO_32 {
      ClientLastIsTopId(init, schedule);
      forall k | 0 <= k < |s.recorded|
        ensures s.recorded[k].payload.id <= iters
      {
        assert Genuine(s, s.recorded[k], 4);
      }
      TopIdIsTop(s.recorded, iters);
    }
  }

  /** What the server has taken in: what it has answered, and what it is working on. */
  function Served(s: State): seq<Packet> { s.pongs + s.held }

  lemma StepKeepsServerLast(s: State, a: Action)
    requires WellFormed(s) && |s.held| <= 1 && s.serverLast == TopId(Served(s))
    ensures var s' := Step(s, a); |s'.held| <= 1 && s'.serverLast == TopId(Served(s'))
  {
    var s' := Step(s, a);
    if a.ServerReceive? && s' != s {
      assert Served(s) == s.pongs;
      TopIdOfOneMore(s.pongs, s'.held[0]);
    } else if a.ServerReply? && s' != s {
      var p := s'.pongs[|s.pongs|];
      assert Served(s) == s.pongs + [s.held[0]] && Served(s') == s.pongs + [p];
      TopIdOfOneMore(s.pongs, s.held[0]);
      TopIdOfOneMore(s.pongs, p);
    }
  }

  lemma {:induction false} ServerLastIsTopId(s: State, schedule: seq<Action>)
    requires WellFormed(s) && |s.held| <= 1 && s.serverLast == TopId(Served(s))
    ensures var s' := Run(s, schedule); |s'.held| <= 1 && s'.serverLast == TopId(Served(s'))
    decreases |schedule|
  {
    if schedule != [] {
      var n := |schedule| - 1;
      ServerLastIsTopId(s, schedule[..n]);
      StepKeepsServerLast(Run(s, schedule[..n]), schedule[n]);
    }
  }

  /** The server's loop ends exactly when the last ping has been taken in. */
  lemma {:induction false} ServerLoopEndsExactlyWhen(iters: nat, clientOrigin: int, serverOrigin: int, schedule: seq<Action>)
    requires iters > 0
    ensures var s := Run(Init(iters, clientOrigin, serverOrigin), schedule);
      s.serverLast >= iters <==> exists k :: 0 <= k < |Served(s)| && Served(s)[k].payload.id == iters
  {
    var init := Init(iters, clientOrigin, serverOrigin);
    var s := Run(init, schedule);
    RunKeepsInv(init, schedule);
    RunKeepsParameters(init, schedule);
    ServerLastIsTopId(init, schedule);
    forall k | 0 <= k < |Served(s)|
      ensures Served(s)[k].payload.id <= iters
    {
      if k < |s.pongs| {
        assert Genuine(s, s.pongs[k], 3);
      } else {
        assert Genuine(s, s.held[k - |s.pongs|], 2);
      }
    }
    TopIdIsTop(Served(s), iters);
  }

  lemma {:induction false} CounterIs32Bit(s: State, schedule: seq<Action>)
    requires WellFormed(s) && s.clientLast < TWO_TO_32
    ensures Run(s, schedule).clientLast < TWO_TO_32
    decreases |schedule|
  {
    if schedule != [] {
      CounterIs32Bit(s, schedule[..|schedule| - 1]);
    }
  }

  // ------------------------------------------------------------- one turn each

  predicate ByServer(a: Action) { a.ServerReceive? || a.ServerReply? || a.ServerReplyFails? }

  lemma {:induction false} RunConcat(s: State, p: seq<Action>, q: seq<Action>)
    requires WellFormed(s)
    ensures Run(s, p + q) == Run(Run(s, p), q)
    decreases |q|
  {
    if q == [] {
      assert p + q == p;
    } else {
      var n := |q| - 1;
      RunConcat(s, p, q[..n]);
      assert (p + q)[..|p + q| - 1] == p + q[..n];
    }
  }

  lemma RunSnoc(s: State, p: seq<Action>, a: Action)
    requires WellFormed(s)
    ensures Run(s, p + [a]) == Step(Run(s, p), a)
  {
    assert (p + [a])[..|p|] == p;
  }

  /** What only the server changes. */
  predicate SameServer(s: State, t: State) {
    && t.held == s.held && t.pongs == s.pongs && t.serverLast == s.serverLast && t.serverStopped == s.serverStopped
    && t.iters == s.iters && t.serverOrigin == s.serverOrigin
  }

  lemma StepLeavesServer(s: State, a: Action)
    requires WellFormed(s) && !ByServer(a)
    ensures SameServer(s, Step(s, a))
  {
  }

  lemma {:induction false} OthersLeaveServer(s: State, others: seq<Action>)
    requires WellFormed(s) && forall a :: a in others ==> !ByServer(a)
    ensures SameServer(s, Run(s, others))
    decreases |others|
  {
    if others != [] {
      var n := |others| - 1;
      OthersLeaveServer(s, others[..n]);
      StepLeavesServer(Run(s, others[..n]), others[n]);
    }
  }

  /** The answer to a ping: the payload as it arrived, with the server's two stamps. */
  function Reply(ping: Payload, arrived: nat, left: nat): (r: Payload)
    requires |ping.ts| == 4
    ensures |r.ts| == 4
  {
    Payload(ping.id, [ping.ts[0], arrived, left, ping.ts[3]], ping.magic)
  }

  /** From s to t the server has sent this reply and nothing else. */
  predicate Answered(s: State, t: State, reply: Payload) {
    && |t.pongs| == |s.pongs| + 1 && t.pongs[..|s.pongs|] == s.pongs && t.pongs[|s.pongs|].payload == reply
    && t.held == [] && t.serverLast == Max(s.serverLast, reply.id)
    && t.serverStopped == s.serverStopped && t.iters == s.iters
  }

  /** Every ping that arrives while the server is in its loop is answered, whatever the others do
      meanwhile: late and repeated ones too. */
  lemma ServerAnswers(s: State, k: nat, others: seq<Action>)
    requires WellFormed(s) && s.held == [] && s.serverLast < s.iters && !s.serverStopped && k < |s.pings|
    requires forall a :: a in others ==> !ByServer(a)
    ensures var u := Run(Step(s, ServerReceive(k)), others);
      && Answered(s, Step(u, ServerReply), Reply(s.pings[k].payload, ServerClock(s), ServerClock(u)))
      && Step(u, ServerReply).pongs[|s.pongs|].instants == s.pings[k].instants + [s.now, u.now]
  {
    OthersLeaveServer(Step(s, ServerReceive(k)), others);
  }

  /** From s to t the client has recorded this and nothing else. */
  predicate Recorded(s: State, t: State, record: Payload) {
    && |t.recorded| == |s.recorded| + 1 && t.recorded[..|s.recorded|] == s.recorded
    && t.recorded[|s.recorded|].payload == record
    && t.clientLast == Max(s.clientLast, record.id) % TWO_TO_32 && t.iters == s.iters
  }

  /** Every pong that arrives while the client is in its loop is recorded. */
  lemma ClientRecords(s: State, k: nat)
    requires WellFormed(s) && k < |s.pongs| && s.clientLast < s.iters
    ensures Recorded(s, Step(s, ClientReceive(k)), Record(s.pongs[k].payload, ClientClock(s)))
    ensures Step(s, ClientReceive(k)).recorded[|s.recorded|].instants == s.pongs[k].instants + [s.now]
  {
  }

  /** What is recorded of a pong: the payload as it arrived, with the client's second stamp. */
  function Record(pong: Payload, arrived: nat): (r: Payload)
    requires |pong.ts| == 4
  {
    Payload(pong.id, [pong.ts[0], pong.ts[1], pong.ts[2], arrived], pong.magic)
  }

  /** The sender thread sends the next ping until all are sent or one fails. */
  lemma SenderSends(s: State)
    requires WellFormed(s) && 1 <= s.nextId <= s.iters && !s.senderStopped
    ensures var t := Step(s, SendPing); var ping := t.pings[|s.pings|];
      && |t.pings| == |s.pings| + 1 && t.pings[..|s.pings|] == s.pings
      && ping.payload == Payload(s.nextId, [ClientClock(s), 0, 0, 0], PINGPONG_MAGIC)
      && ping.instants == [s.now]
      && t.nextId == s.nextId + 1
  {
  }

  // -------------------------------------------------------- the loops, as runs

  /** What happens between two accesses of a loop to the network or the clock. */
  type Between = nat -> seq<Action>

  /** n turns of the server's loop; picks[k] is the ping that its k-th receive returns. */
  function ServerCall(n: nat, picks: seq<nat>, others: Between): seq<Action>
    requires n <= |picks|
  {
    if n == 0 then []
    else
      var k := n - 1;
      ServerCall(k, picks, others) + others(2 * k) + [ServerReceive(picks[k])] + (others(2 * k + 1) + [ServerReply])
  }

  /** The states in turn k of that loop: when its receive returns, and when it replies. */
  function AtReceive(s: State, picks: seq<nat>, others: Between, k: nat): (t: State)
    requires WellFormed(s) && k < |picks|
    ensures WellFormed(t)
  {
    Run(Run(s, ServerCall(k, picks, others)), others(2 * k))
  }

  function AtReply(s: State, picks: seq<nat>, others: Between, k: nat): (t: State)
    requires WellFormed(s) && k < |picks|
    ensures WellFormed(t)
  {
    Run(Step(AtReceive(s, picks, others, k), ServerReceive(picks[k])), others(2 * k + 1))
  }

  lemma ServerCallExtends(s: State, picks: seq<nat>, others: Between, k: nat)
    requires WellFormed(s) && k < |picks|
    ensures Run(s, ServerCall(k + 1, picks, others)) == Step(AtReply(s, picks, others, k), ServerReply)
  {
    var p := ServerCall(k, picks, others);
    RunConcat(s, p, others(2 * k));
    RunSnoc(s, p + others(2 * k), ServerReceive(picks[k]));
    var t := Step(AtReceive(s, picks, others, k), ServerReceive(picks[k]));
    RunSnoc(t, others(2 * k + 1), ServerReply);
    RunConcat(s, p + others(2 * k) + [ServerReceive(picks[k])], others(2 * k + 1) + [ServerReply]);
  }

  /** The datagrams and the clock readings of the loop are those of the run. */
  ghost predicate ServerSees(s: State, picks: seq<nat>, others: Between, arrivals: seq<Payload>, clock: nat -> nat)
    requires WellFormed(s)
  {
    |arrivals| == |picks| && forall k :: 0 <= k < |picks| ==> ServerSeesAt(s, picks, others, arrivals, clock, k)
  }

  predicate ServerSeesAt(s: State, picks: seq<nat>, others: Between, arrivals: seq<Payload>, clock: nat -> nat, k: nat)
    requires WellFormed(s) && k < |picks| == |arrivals|
  {
    var t := AtReceive(s, picks, others, k);
    && picks[k] < |t.pings| && arrivals[k] == t.pings[picks[k]].payload
    && clock(2 * k) == ServerClock(t) && clock(2 * k + 1) == ServerClock(AtReply(s, picks, others, k))
  }

  /** last_idx of `start_server` after these datagrams. */
  function ServerCounter(ps: seq<Payload>): nat {
    if ps == [] then 0 else Max(ServerCounter(ps[..|ps| - 1]), ps[|ps| - 1].id)
  }

  /** last_idx of `start_client`, in 32 bits. */
  function ClientCounter(ps: seq<Payload>): nat {
    if ps == [] then 0 else Max(ClientCounter(ps[..|ps| - 1]), ps[|ps| - 1].id) % TWO_TO_32
  }

  /** The loops go on for n turns. */
  predicate ServerGoesOn(arrivals: seq<Payload>, iters: nat, n: nat)
    requires n <= |arrivals|
  {
    forall k :: 0 <= k < n ==> ServerCounter(arrivals[..k]) < iters
  }

  predicate ClientGoesOn(arrivals: seq<Payload>, iters: nat, n: nat)
    requires n <= |arrivals|
  {
    forall k :: 0 <= k < n ==> ClientCounter(arrivals[..k]) < iters
  }

  function Payloads(ps: seq<Packet>): seq<Payload> {
    if ps == [] then [] else Payloads(ps[..|ps| - 1]) + [ps[|ps| - 1].payload]
  }

  /** What the server's loop sends in its first n turns. */
  function Replies(arrivals: seq<Payload>, clock: nat -> nat, n: nat): (r: seq<Payload>)
    requires AllStamped(arrivals) && n <= |arrivals|
    ensures |r| == n
  {
    if n == 0 then []
    else
      var k := n - 1;
      Replies(arrivals, clock, k) + [Reply(arrivals[k], clock(2 * k), clock(2 * k + 1))]
  }

  lemma RepliesOfOneMore(arrivals: seq<Payload>, clock: nat -> nat, k: nat)
    requires AllStamped(arrivals) && k < |arrivals|
    ensures Replies(arrivals, clock, k + 1)
         == Replies(arrivals, clock, k) + [Reply(arrivals[k], clock(2 * k), clock(2 * k + 1))]
  {
  }

  lemma {:induction false} ReplyAt(arrivals: seq<Payload>, clock: nat -> nat, n: nat, k: nat)
    requires AllStamped(arrivals) && k < n <= |arrivals|
    ensures Replies(arrivals, clock, n)[k] == Reply(arrivals[k], clock(2 * k), clock(2 * k + 1))
  {
    var most := Replies(arrivals, clock, n - 1);
    RepliesOfOneMore(arrivals, clock, n - 1);
    if k < n - 1 {
      ReplyAt(arrivals, clock, n - 1, k);
      assert Replies(arrivals, clock, n)[k] == most[k];
    } else {
      assert |most| == k;
    }
  }

  /** The server is between two turns of its loop, with these replies sent since s. */
  predicate ServerAt(s: State, t: State, replies: seq<Payload>, last: nat) {
    && t.held == [] && !t.serverStopped && t.iters == s.iters && t.serverLast == last
    && Payloads(t.pongs) == Payloads(s.pongs) + replies
  }

  lemma PayloadsOfOneMore(before: seq<Packet>, after: seq<Packet>)
    requires |after| == |before| + 1 && after[..|before|] == before
    ensures Payloads(after) == Payloads(before) + [after[|before|].payload]
  {
  }

  /** Turn k of the server's loop. */
  lemma ServerTurn(s: State, picks: seq<nat>, others: Between, arrivals: seq<Payload>, clock: nat -> nat, k: nat, r: State)
    returns (v: State)
    requires WellFormed(s) && AllStamped(arrivals) && k < |picks| == |arrivals|
    requires forall i, a :: a in others(i) ==> !ByServer(a)
    requires ServerSeesAt(s, picks, others, arrivals, clock, k)
    requires r == Run(s, ServerCall(k, picks, others)) && r.held == [] && r.serverLast < r.iters && !r.serverStopped
    ensures v == Run(s, ServerCall(k + 1, picks, others))
    ensures ServerAt(r, v, [Reply(arrivals[k], clock(2 * k), clock(2 * k + 1))], Max(r.serverLast, arrivals[k].id))
  {
    var t := AtReceive(s, picks, others, k);
    OthersLeaveServer(r, others(2 * k));
    ServerAnswers(t, picks[k], others(2 * k + 1));
    ServerCallExtends(s, picks, others, k);
    v := Run(s, ServerCall(k + 1, picks, others));
    PayloadsOfOneMore(t.pongs, v.pongs);
  }

  lemma ServerMovesOn(s: State, r: State, v: State, replies: seq<Payload>, more: seq<Payload>, last: nat)
    requires Payloads(r.pongs) == Payloads(s.pongs) + replies && r.iters == s.iters && ServerAt(r, v, more, last)
    ensures ServerAt(s, v, replies + more, last)
  {
    assert Payloads(s.pongs) + replies + more == Payloads(s.pongs) + (replies + more);
  }

  lemma CountersOfOneMore(arrivals: seq<Payload>, k: nat)
    requires k < |arrivals|
    ensures ServerCounter(arrivals[..k + 1]) == Max(ServerCounter(arrivals[..k]), arrivals[k].id)
    ensures ClientCounter(arrivals[..k + 1]) == Max(ClientCounter(arrivals[..k]), arrivals[k].id) % TWO_TO_32
  {
    assert arrivals[..k + 1][..k] == arrivals[..k];
  }

  /** The server's loop is a run of the protocol: its replies are the pongs sent, its counter is
      the server's. */
  lemma ServerLoopIsRun(s: State, picks: seq<nat>, others: Between, arrivals: seq<Payload>, clock: nat -> nat, n: nat)
    returns (t: State)
    requires WellFormed(s) && s.held == [] && !s.serverStopped && s.serverLast == 0
    requires AllStamped(arrivals) && ServerSees(s, picks, others, arrivals, clock) && n <= |picks|
    requires forall i, a :: a in others(i) ==> !ByServer(a)
    requires ServerGoesOn(arrivals, s.iters, n)
    ensures t == Run(s, ServerCall(n, picks, others))
    ensures ServerAt(s, t, Replies(arrivals, clock, n), ServerCounter(arrivals[..n]))
  {
    t := s;
    assert Payloads(s.pongs) + [] == Payloads(s.pongs);
    for k := 0 to n
      invariant t == Run(s, ServerCall(k, picks, others))
      invariant ServerAt(s, t, Replies(arrivals, clock, k), ServerCounter(arrivals[..k]))
    {
      var r := t;
      assert ServerCounter(arrivals[..k]) < s.iters;
      t := ServerTurn(s, picks, others, arrivals, clock, k, r);
      ServerAtNext(s, r, t, arrivals, clock, k);
    }
  }

  lemma ServerAtNext(s: State, r: State, t: State, arrivals: seq<Payload>, clock: nat -> nat, k: nat)
    requires AllStamped(arrivals) && k < |arrivals|
    requires ServerAt(s, r, Replies(arrivals, clock, k), ServerCounter(arrivals[..k]))
    requires ServerAt(r, t, [Reply(arrivals[k], clock(2 * k), clock(2 * k + 1))], Max(r.serverLast, arrivals[k].id))
    ensures ServerAt(s, t, Replies(arrivals, clock, k + 1), ServerCounter(arrivals[..k + 1]))
  {
    CountersOfOneMore(arrivals, k);
    RepliesOfOneMore(arrivals, clock, k);
    ServerMovesOn(s, r, t, Replies(arrivals, clock, k), [Reply(arrivals[k], clock(2 * k), clock(2 * k + 1))],
                  ServerCounter(arrivals[..k + 1]));
  }

  // The client.

  lemma StepLeavesClient(s: State, a: Action)
    requires WellFormed(s) && !a.ClientReceive?
    ensures var t := Step(s, a); t.recorded == s.recorded && t.clientLast == s.clientLast && t.iters == s.iters
  {
  }

  lemma {:induction false} OthersLeaveClient(s: State, others: seq<Action>)
    requires WellFormed(s) && forall a :: a in others ==> !a.ClientReceive?
    ensures var t := Run(s, others); t.recorded == s.recorded && t.clientLast == s.clientLast && t.iters == s.iters
    decreases |others|
  {
    if others != [] {
      var n := |others| - 1;
      OthersLeaveClient(s, others[..n]);
      StepLeavesClient(Run(s, others[..n]), others[n]);
    }
  }

  /** n turns of the client's loop; picks[k] is the pong that its k-th receive returns. */
  function ClientCall(n: nat, picks: seq<nat>, others: Between): seq<Action>
    requires n <= |picks|
  {
    if n == 0 then [] else ClientCall(n - 1, picks, others) + others(n - 1) + [ClientReceive(picks[n - 1])]
  }

  function AtRecord(s: State, picks: seq<nat>, others: Between, k: nat): (t: State)
    requires WellFormed(s) && k < |picks|
    ensures WellFormed(t)
  {
    Run(Run(s, ClientCall(k, picks, others)), others(k))
  }

  lemma ClientCallExtends(s: State, picks: seq<nat>, others: Between, k: nat)
    requires WellFormed(s) && k < |picks|
    ensures Run(s, ClientCall(k + 1, picks, others)) == Step(AtRecord(s, picks, others, k), ClientReceive(picks[k]))
  {
    RunConcat(s, ClientCall(k, picks, others), others(k));
    RunSnoc(s, ClientCall(k, picks, others) + others(k), ClientReceive(picks[k]));
  }

  ghost predicate ClientSees(s: State, picks: seq<nat>, others: Between, arrivals: seq<Payload>, clock: nat -> nat)
    requires WellFormed(s)
  {
    |arrivals| == |picks| && forall k :: 0 <= k < |picks| ==> ClientSeesAt(s, picks, others, arrivals, clock, k)
  }

  predicate ClientSeesAt(s: State, picks: seq<nat>, others: Between, arrivals: seq<Payload>, clock: nat -> nat, k: nat)
    requires WellFormed(s) && k < |picks| == |arrivals|
  {
    var t := AtRecord(s, picks, others, k);
    picks[k] < |t.pongs| && arrivals[k] == t.pongs[picks[k]].payload && clock(k) == ClientClock(t)
  }

  /** What the client's loop records in its first n turns. */
  function Records(arrivals: seq<Payload>, clock: nat -> nat, n: nat): (r: seq<Payload>)
    requires AllStamped(arrivals) && n <= |arrivals|
    ensures |r| == n
  {
    if n == 0 then [] else Records(arrivals, clock, n - 1) + [Record(arrivals[n - 1], clock(n - 1))]
  }

  predicate ClientAt(s: State, t: State, records: seq<Payload>, last: nat) {
    && t.iters == s.iters && t.clientLast == last
    && Payloads(t.recorded) == Payloads(s.recorded) + records
  }

  /** Turn k of the client's loop. */
  lemma ClientTurn(s: State, picks: seq<nat>, others: Between, arrivals: seq<Payload>, clock: nat -> nat, k: nat, r: State)
    returns (t: State, v: State)
    requires WellFormed(s) && AllStamped(arrivals) && k < |picks| == |arrivals|
    requires forall i, a :: a in others(i) ==> !a.ClientReceive?
    requires ClientSeesAt(s, picks, others, arrivals, clock, k)
    requires r == Run(s, ClientCall(k, picks, others)) && r.clientLast < r.iters
    ensures v == Run(s, ClientCall(k + 1, picks, others))
    ensures t.recorded == r.recorded && t.clientLast == r.clientLast && t.iters == r.iters
    ensures Recorded(t, v, Record(arrivals[k], clock(k)))
  {
    t := AtRecord(s, picks, others, k);
    OthersLeaveClient(r, others(k));
    ClientRecords(t, picks[k]);
    ClientCallExtends(s, picks, others, k);
    v := Run(s, ClientCall(k + 1, picks, others));
  }

  lemma ClientMovesOn(s: State, r: State, t: State, v: State, records: seq<Payload>, last: nat, record: Payload)
    requires ClientAt(s, r, records, last) && Recorded(t, v, record)
    requires t.recorded == r.recorded && t.clientLast == r.clientLast && t.iters == r.iters
    ensures ClientAt(s, v, records + [record], Max(last, record.id) % TWO_TO_32)
  {
    PayloadsOfOneMore(t.recorded, v.recorded);
    assert Payloads(s.recorded) + records + [record] == Payloads(s.recorded) + (records + [record]);
  }

  /** So is the client's loop: it records what the run records. */
  lemma {:induction false} ClientLoopIsRun(s: State, picks: seq<nat>, others: Between, arrivals: seq<Payload>, clock: nat -> nat, n: nat)
    returns (t: State)
    requires WellFormed(s) && s.clientLast == 0
    requires AllStamped(arrivals) && ClientSees(s, picks, others, arrivals, clock) && n <= |picks|
    requires forall i, a :: a in others(i) ==> !a.ClientReceive?
    requires ClientGoesOn(arrivals, s.iters, n)
    ensures t == Run(s, ClientCall(n, picks, others))
    ensures ClientAt(s, t, Records(arrivals, clock, n), ClientCounter(arrivals[..n]))
    decreases n
  {
    if n == 0 {
      t := s;
      assert Payloads(s.recorded) + [] == Payloads(s.recorded);
    } else {
      var k := n - 1;
      var r := ClientLoopIsRun(s, picks, others, arrivals, clock, k);
      assert ClientCounter(arrivals[..k]) < s.iters;
      var u;
      u, t := ClientTurn(s, picks, others, arrivals, clock, k, r);
      ClientMovesOn(s, r, u, t, Records(arrivals, clock, k), ClientCounter(arrivals[..k]), Record(arrivals[k], clock(k)));
      CountersOfOneMore(arrivals, k);
    }
  }

  // When the loops stop.

  predicate IdsUpTo(ps: seq<Payload>, n: nat) {
    forall k :: 0 <= k < |ps| ==> ps[k].id <= n
  }

  lemma {:induction false} ServerCounterBelow(ps: seq<Payload>, n: nat)
    ensures ServerCounter(ps) < n <==> n > 0 && forall k :: 0 <= k < |ps| ==> ps[k].id < n
  {
    if ps != [] {
      ServerCounterBelow(ps[..|ps| - 1], n);
    }
  }

  lemma StampedTwice(p: Payload, arrived: nat, left: nat)
    requires |p.ts| == 4
    ensures p.(ts := p.ts[1 := arrived][2 := left]) == Reply(p, arrived, left)
  {
  }

  lemma StampedLast(p: Payload, arrived: nat)
    requires |p.ts| == 4
    ensures p.(ts := p.ts[3 := arrived]) == Record(p, arrived)
  {
  }

  lemma ServerGoesOnMore(arrivals: seq<Payload>, iters: nat, k: nat)
    requires k < |arrivals| && ServerGoesOn(arrivals, iters, k) && ServerCounter(arrivals[..k]) < iters
    ensures ServerGoesOn(arrivals, iters, k + 1)
    ensures ServerCounter(arrivals[..k + 1]) == Max(ServerCounter(arrivals[..k]), arrivals[k].id)
  {
    CountersOfOneMore(arrivals, k);
  }

  lemma ClientGoesOnMore(arrivals: seq<Payload>, iters: nat, k: nat)
    requires k < |arrivals| && ClientGoesOn(arrivals, iters, k) && ClientCounter(arrivals[..k]) < iters
    ensures ClientGoesOn(arrivals, iters, k + 1)
    ensures ClientCounter(arrivals[..k + 1]) == Max(ClientCounter(arrivals[..k]), arrivals[k].id) % TWO_TO_32
  {
    CountersOfOneMore(arrivals, k);
  }

  lemma ServerStops(arrivals: seq<Payload>, iters: nat, m: nat)
    requires m <= |arrivals| && ServerGoesOn(arrivals, iters, m)
    ensures forall k :: 0 <= k < m - 1 ==> arrivals[k].id < iters
    ensures ServerCounter(arrivals[..m]) >= iters ==> iters == 0 || (m > 0 && arrivals[m - 1].id >= iters)
  {
    if m > 0 {
      ServerCounterBelow(arrivals[..m - 1], iters);
      CountersOfOneMore(arrivals, m - 1);
    }
  }

  /** Below 2^32, and with no larger ids than iters, 32 bits are enough. */
  lemma {:induction false} CountersAgree(ps: seq<Payload>, iters: nat)
    requires iters < TWO_TO_32 && IdsUpTo(ps, iters)
    ensures ClientCounter(ps) == ServerCounter(ps) <= iters
  {
    if ps != [] {
      CountersAgree(ps[..|ps| - 1], iters);
    }
  }

  lemma ClientStops(arrivals: seq<Payload>, iters: nat, m: nat)
    requires m <= |arrivals| && ClientGoesOn(arrivals, iters, m)
    ensures iters >= TWO_TO_32 ==> ClientCounter(arrivals[..m]) < iters
    ensures IdsUpTo(arrivals, iters) && iters < TWO_TO_32 ==> forall k :: 0 <= k < m - 1 ==> arrivals[k].id < iters
    ensures IdsUpTo(arrivals, iters) && ClientCounter(arrivals[..m]) >= iters ==>
      iters == 0 || (m > 0 && arrivals[m - 1].id == iters)
  {
    if IdsUpTo(arrivals, iters) && iters < TWO_TO_32 {
      CountersAgree(arrivals[..m], iters);
      if m > 0 {
        CountersAgree(arrivals[..m - 1], iters);
        ServerCounterBelow(arrivals[..m - 1], iters);
        CountersOfOneMore(arrivals, m - 1);
      }
    }
  }

  // ------------------------------------------------------- the code, in place

  /** The receive loop of `start_server` over the datagrams that arrive; `clock(j)` is its j-th
      clock reading.  It answers every datagram, stamped on arrival and departure, up to and
      including the first whose id reaches iters. */
  method StartServer(iters: nat, arrivals: seq<Payload>, clock: nat -> nat) returns (replies: seq<Payload>)
    requires AllStamped(arrivals)
    ensures |replies| <= |arrivals|
    ensures replies == Replies(arrivals, clock, |replies|)
    ensures ServerGoesOn(arrivals, iters, |replies|)
    ensures |replies| < |arrivals| ==> ServerCounter(arrivals[..|replies|]) >= iters
    ensures forall k :: 0 <= k < |replies| - 1 ==> arrivals[k].id < iters
    ensures |replies| < |arrivals| ==> iters == 0 || (replies != [] && arrivals[|replies| - 1].id >= iters)
  {
    replies := [];
    var lastIdx: nat := 0;
    while lastIdx < iters && |replies| < |arrivals|
      invariant |replies| <= |arrivals|
      invariant replies == Replies(arrivals, clock, |replies|)
      invariant lastIdx == ServerCounter(arrivals[..|replies|]) && ServerGoesOn(arrivals, iters, |replies|)
      decreases |arrivals| - |replies|
    {
      var k := |replies|;
      var payload := arrivals[k];
      payload := payload.(ts := payload.ts[1 := clock(2 * k)]);
      lastIdx := Max(lastIdx, payload.id);
      payload := payload.(ts := payload.ts[2 := clock(2 * k + 1)]);
      StampedTwice(arrivals[k], clock(2 * k), clock(2 * k + 1));
      RepliesOfOneMore(arrivals, clock, k);
      ServerGoesOnMore(arrivals, iters, k);
      replies := replies + [payload];
    }
    ServerStops(arrivals, iters, |replies|);
  }

  /** The receive loop of `start_client`.  When only its own pings come back, it records every
      datagram up to and including the first whose id is iters; from 2^32 iterations on it
      records whatever comes, without end. */
  method StartClient(iters: nat, arrivals: seq<Payload>, clock: nat -> nat) returns (recorded: seq<Payload>)
    requires AllStamped(arrivals)
    ensures |recorded| <= |arrivals|
    ensures recorded == Records(arrivals, clock, |recorded|)
    ensures ClientGoesOn(arrivals, iters, |recorded|)
    ensures |recorded| < |arrivals| ==> ClientCounter(arrivals[..|recorded|]) >= iters
    ensures iters >= TWO_TO_32 ==> |recorded| == |arrivals|
    ensures IdsUpTo(arrivals, iters) && iters < TWO_TO_32 ==>
      forall k :: 0 <= k < |recorded| - 1 ==> arrivals[k].id < iters
    ensures IdsUpTo(arrivals, iters) && |recorded| < |arrivals| ==>
      iters == 0 || (recorded != [] && arrivals[|recorded| - 1].id == iters)
  {
    recorded := [];
    var lastIdx: nat := 0;
    while lastIdx < iters && |recorded| < |arrivals|
      invariant |recorded| <= |arrivals|
      invariant recorded == Records(arrivals, clock, |recorded|)
      invariant lastIdx == ClientCounter(arrivals[..|recorded|]) && ClientGoesOn(arrivals, iters, |recorded|)
      decreases |arrivals| - |recorded|
    {
      var k := |recorded|;
      var payload := arrivals[k];
      payload := payload.(ts := payload.ts[3 := clock(k)]);
      StampedLast(arrivals[k], clock(k));
      ClientGoesOnMore(arrivals, iters, k);
      recorded := recorded + [payload];
      lastIdx := Max(lastIdx, payload.id) % TWO_TO_32;
    }
    ClientStops(arrivals, iters, |recorded|);
  }
}
