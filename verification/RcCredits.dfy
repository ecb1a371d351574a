/** Receive credits of the RDMA RC mode (`rdma/rc_pingpong.c`).

    `available_recv` is meant to count the receives the adapter may still fill.
    Each handled receive completion takes one away; when one is left, the handler
    posts as many as are missing.  The adapter may refuse to take all of them,
    which ends the run.  One send at a time may be outstanding. */
module RcCredits {

  import opened Numbers

  const RECEIVE_DEPTH: nat := 500
  const MAX_SEND_WR: nat := 1

  datatype State = State(
    availableRecv: int,
    posted: nat,            // receives posted and not yet completed
    recvCompleted: nat,     // receive completions in the completion queue
    sendsPosted: nat,
    sendsCompleted: nat,    // send completions in the completion queue
    stopped: bool)          // the handler returned an error

  /** After `available_recv = pp_post_recv (ctx, RECEIVE_DEPTH)` has posted them all. */
  const INITIAL: State := State(RECEIVE_DEPTH, RECEIVE_DEPTH, 0, 0, 0, false)

  datatype Action =
    | RecvCompletes
    | SendCompletes
    | HandleSend
    | HandleRecv(reply: bool, taken: nat)   // the server replies; the adapter takes `taken` more receives
    | ClientSend

  /** A send is posted only if the send queue has room; a refusal is ignored. */
  function PostSend(s: State): State {
    if s.sendsPosted + s.sendsCompleted < MAX_SEND_WR then s.(sendsPosted := s.sendsPosted + 1) else s
  }

  /** Post n receives, of which the adapter takes at most `taken`. */
  function Refill(s: State, n: nat, taken: nat): State {
    var i := Min(n, taken);
    s.(posted := s.posted + i,
       availableRecv := s.availableRecv + i,
       stopped := s.availableRecv + i < RECEIVE_DEPTH)
  }

  function Step(s: State, a: Action): State {
    if s.stopped then s
    else
      match a
      case RecvCompletes =>
        if s.posted > 0 then s.(posted := s.posted - 1, recvCompleted := s.recvCompleted + 1) else s
      case SendCompletes =>
        if s.sendsPosted > 0 then s.(sendsPosted := s.sendsPosted - 1, sendsCompleted := s.sendsCompleted + 1) else s
      case HandleSend =>
        if s.sendsCompleted > 0 then s.(sendsCompleted := s.sendsCompleted - 1) else s
      case HandleRecv(reply, taken) =>
        if s.recvCompleted == 0 then s
        else
          var s1 := s.(recvCompleted := s.recvCompleted - 1, availableRecv := s.availableRecv - 1);
          var s2 := if reply then PostSend(s1) else s1;
          if s2.availableRecv <= 1
          then Refill(s2, RECEIVE_DEPTH - s2.availableRecv, taken) else s2
      case ClientSend => PostSend(s)
  }

  function Run(s: State, schedule: seq<Action>): State {
    if schedule == [] then s
    else Step(Run(s, schedule[..|schedule| - 1]), schedule[|schedule| - 1])
  }

  /** The credits are exactly the receives posted or completed and not yet handled. */
  predicate Inv(s: State) {
    && s.availableRecv == s.posted + s.recvCompleted
    && (!s.stopped ==> 2 <= s.availableRecv)
    && s.availableRecv <= RECEIVE_DEPTH
    && s.sendsPosted + s.sendsCompleted <= MAX_SEND_WR
  }

  lemma {:induction false} RunKeepsInv(s: State, schedule: seq<Action>)
    requires Inv(s)
    ensures Inv(Run(s, schedule))
    decreases |schedule|
  {
    if schedule != [] {
      RunKeepsInv(s, schedule[..|schedule| - 1]);
    }
  }

  /** In every run the credits are exact and between handler calls at least two, so posted
      receives never exceed max_recv_wr and a completion queue of RECEIVE_DEPTH + 1 entries
      never overflows. */
  lemma {:induction false} CreditsAreExact(schedule: seq<Action>)
    ensures var s := Run(INITIAL, schedule);
      && s.availableRecv == s.posted + s.recvCompleted
      && (!s.stopped ==> 2 <= s.availableRecv <= RECEIVE_DEPTH)
      && s.posted <= RECEIVE_DEPTH
      && s.recvCompleted + s.sendsCompleted <= RECEIVE_DEPTH + 1
  {
    RunKeepsInv(INITIAL, schedule);
  }

  /** The adapter takes every receive it is offered. */
  predicate TakesAll(a: Action) {
    a.HandleRecv? ==> a.taken >= RECEIVE_DEPTH
  }

  /** What handling one receive completion comes to: with more than two credits, one credit
      less; with two, as many receives posted as the adapter takes of the 499 that are then
      missing, and an error exactly if it does not take them all. */
  predicate Handled(s: State, t: State, taken: nat) {
    && t.recvCompleted == s.recvCompleted - 1
    && (s.availableRecv > 2 ==>
          t.posted == s.posted && t.availableRecv == s.availableRecv - 1 && !t.stopped)
    && (s.availableRecv == 2 ==>
          && t.posted == s.posted + Min(499, taken)
          && t.availableRecv == 1 + Min(499, taken)
          && (t.stopped <==> taken < 499)
          && (!t.stopped ==> t.availableRecv == RECEIVE_DEPTH))
  }

  /** A reply goes out exactly if the send queue has room for it. */
  predicate Replied(s: State, t: State, reply: bool) {
    && t.sendsCompleted == s.sendsCompleted
    && t.sendsPosted == s.sendsPosted + if reply && s.sendsPosted + s.sendsCompleted == 0 then 1 else 0
  }

  lemma HandlingComesTo(s: State, reply: bool, taken: nat)
    requires Inv(s) && !s.stopped && s.recvCompleted > 0
    ensures var t := Step(s, HandleRecv(reply, taken));
      Handled(s, t, taken) && Replied(s, t, reply)
  {
  }

  lemma StepGoesOn(s: State, a: Action)
    requires Inv(s) && !s.stopped && TakesAll(a)
    ensures !Step(s, a).stopped
  {
    if a.HandleRecv? && s.recvCompleted > 0 {
      HandlingComesTo(s, a.reply, a.taken);
    }
  }

  /** If the adapter takes every receive it is offered, no run ever ends in an error. */
  lemma {:induction false} NeverStopsWhenAllAreTaken(schedule: seq<Action>)
    requires forall a :: a in schedule ==> TakesAll(a)
    ensures !Run(INITIAL, schedule).stopped
    decreases |schedule|
  {
    if schedule != [] {
      var n := |schedule| - 1;
      NeverStopsWhenAllAreTaken(schedule[..n]);
      RunKeepsInv(INITIAL, schedule[..n]);
      StepGoesOn(Run(INITIAL, schedule[..n]), schedule[n]);
    }
  }

  /** How many receive completions have been handled in a run. */
  function HandledIn(schedule: seq<Action>): nat {
    if schedule == [] then 0
    else
      var n := |schedule| - 1;
      var s := Run(INITIAL, schedule[..n]);
      HandledIn(schedule[..n]) + if schedule[n].HandleRecv? && s.recvCompleted > 0 && !s.stopped then 1 else 0
  }

  lemma NextInRound(h: nat)
    ensures (h + 1) % 499 == if h % 499 == 498 then 0 else h % 499 + 1
  {
  }

  /** Credits after h handled completions: down from 500 to 2, and up again. */
  predicate InRound(s: State, h: nat) {
    s.availableRecv == RECEIVE_DEPTH - h % 499
  }

  lemma HandlingGoesRound(s: State, a: Action, h: nat)
    requires Inv(s) && !s.stopped && InRound(s, h)
    requires a.HandleRecv? && TakesAll(a) && s.recvCompleted > 0
    ensures InRound(Step(s, a), h + 1)
  {
    HandlingComesTo(s, a.reply, a.taken);
    NextInRound(h);
  }

  /** If the adapter takes every receive it is offered, the credits are a function of the
      number of completions handled. */
  lemma {:induction false} CreditsGoRound(schedule: seq<Action>)
    requires forall a :: a in schedule ==> TakesAll(a)
    ensures InRound(Run(INITIAL, schedule), HandledIn(schedule))
    decreases |schedule|
  {
    if schedule != [] {
      var n := |schedule| - 1;
      var s := Run(INITIAL, schedule[..n]);
      CreditsGoRound(schedule[..n]);
      NeverStopsWhenAllAreTaken(schedule[..n]);
      RunKeepsInv(INITIAL, schedule[..n]);
      if schedule[n].HandleRecv? && s.recvCompleted > 0 {
        HandlingGoesRound(s, schedule[n], HandledIn(schedule[..n]));
      } else {
        OthersKeepCredits(s, schedule[n]);
      }
    }
  }

  lemma OthersKeepCredits(s: State, a: Action)
    requires !(a.HandleRecv? && s.recvCompleted > 0)
    ensures Step(s, a).availableRecv == s.availableRecv
  {
  }

  lemma RunSnoc(p: seq<Action>, a: Action)
    ensures Run(INITIAL, p + [a]) == Step(Run(INITIAL, p), a)
    ensures var s := Run(INITIAL, p);
      HandledIn(p + [a]) == HandledIn(p) + if a.HandleRecv? && s.recvCompleted > 0 && !s.stopped then 1 else 0
  {
    assert (p + [a])[..|p|] == p;
  }

  lemma OneTurn(s: State)
    requires Inv(s) && !s.stopped && s.recvCompleted == 0
    ensures var t := Step(s, RecvCompletes);
      t.recvCompleted == 1 && !t.stopped && Step(t, HandleRecv(false, 500)).recvCompleted == 0
  {
  }

  lemma AllTakenSnoc(p: seq<Action>, a: Action)
    requires (forall b :: b in p ==> TakesAll(b)) && TakesAll(a)
    ensures forall b :: b in p + [a] ==> TakesAll(b)
  {
  }

  /** One more receive is completed and handled. */
  lemma OneMoreHandled(p: seq<Action>) returns (q: seq<Action>)
    requires (forall a :: a in p ==> TakesAll(a)) && Run(INITIAL, p).recvCompleted == 0
    ensures (forall a :: a in q ==> TakesAll(a)) && Run(INITIAL, q).recvCompleted == 0
    ensures HandledIn(q) == HandledIn(p) + 1
  {
    var s := Run(INITIAL, p);
    NeverStopsWhenAllAreTaken(p);
    RunKeepsInv(INITIAL, p);
    OneTurn(s);
    var c := p + [RecvCompletes];
    RunSnoc(p, RecvCompletes);
    AllTakenSnoc(p, RecvCompletes);
    q := HandledNext(c, Step(s, RecvCompletes));
  }

  lemma HandledNext(c: seq<Action>, t: State) returns (q: seq<Action>)
    requires (forall a :: a in c ==> TakesAll(a)) && t == Run(INITIAL, c)
    requires t.recvCompleted == 1 && !t.stopped && Step(t, HandleRecv(false, 500)).recvCompleted == 0
    ensures (forall a :: a in q ==> TakesAll(a)) && Run(INITIAL, q).recvCompleted == 0
    ensures HandledIn(q) == HandledIn(c) + 1
  {
    RunSnoc(c, HandleRecv(false, 500));
    AllTakenSnoc(c, HandleRecv(false, 500));
    q := c + [HandleRecv(false, 500)];
  }

  /** There is no end to it: any number of receives can be handled. */
  lemma {:induction false} AnyNumberCanBeHandled(n: nat) returns (schedule: seq<Action>)
    ensures HandledIn(schedule) == n && !Run(INITIAL, schedule).stopped
  {
    schedule := [];
    for i := 0 to n
      invariant (forall a :: a in schedule ==> TakesAll(a)) && Run(INITIAL, schedule).recvCompleted == 0
      invariant HandledIn(schedule) == i
    {
      schedule := OneMoreHandled(schedule);
    }
    NeverStopsWhenAllAreTaken(schedule);
  }

  /** One if the adapter takes a send in this step: it does if none is outstanding. */
  function TakesSend(s: State, a: Action): nat {
    if !s.stopped && s.sendsPosted + s.sendsCompleted == 0
       && (a.ClientSend? || (a.HandleRecv? && a.reply && s.recvCompleted > 0))
    then 1 else 0
  }

  /** One if the completion of a send is handled in this step. */
  function HandlesSend(s: State, a: Action): nat {
    if !s.stopped && a.HandleSend? && s.sendsCompleted > 0 then 1 else 0
  }

  lemma StepCountsSends(s: State, a: Action)
    requires s.sendsPosted + s.sendsCompleted <= 1
    ensures var t := Step(s, a);
      && t.sendsPosted + t.sendsCompleted <= 1
      && t.sendsPosted + t.sendsCompleted + HandlesSend(s, a) == s.sendsPosted + s.sendsCompleted + TakesSend(s, a)
  {
  }

  /** How many sends were taken and how many of their completions handled in a run. */
  function SendsIn(schedule: seq<Action>): nat {
    if schedule == [] then 0
    else
      var n := |schedule| - 1;
      SendsIn(schedule[..n]) + TakesSend(Run(INITIAL, schedule[..n]), schedule[n])
  }

  function SendsHandledIn(schedule: seq<Action>): nat {
    if schedule == [] then 0
    else
      var n := |schedule| - 1;
      SendsHandledIn(schedule[..n]) + HandlesSend(Run(INITIAL, schedule[..n]), schedule[n])
  }

  /** Every send taken is outstanding, completed or handled, and only one is not handled. */
  lemma {:induction false} SendsAreExact(schedule: seq<Action>)
    ensures var s := Run(INITIAL, schedule);
      && SendsIn(schedule) == SendsHandledIn(schedule) + s.sendsPosted + s.sendsCompleted
      && s.sendsPosted + s.sendsCompleted <= 1
    decreases |schedule|
  {
    if schedule != [] {
      var n := |schedule| - 1;
      SendsAreExact(schedule[..n]);
      StepCountsSends(Run(INITIAL, schedule[..n]), schedule[n]);
    }
  }

  // ------------------------------------------------------- the code, in place

  class Context {
    var availableRecv: int
    var posted: nat
    var recvCompleted: nat
    var sendsPosted: nat
    var sendsCompleted: nat
    var stopped: bool

    ghost function View(): State
      reads this
    {
      State(availableRecv, posted, recvCompleted, sendsPosted, sendsCompleted, stopped)
    }

    constructor ()
      ensures View() == INITIAL
    {
      posted, recvCompleted, sendsPosted, sendsCompleted, stopped := 0, 0, 0, 0, false;
      availableRecv := 0;
      new;
      availableRecv := PpPostRecv(RECEIVE_DEPTH, RECEIVE_DEPTH);
    }

    /** The loop of `pp_post_recv`: stops at the first receive the adapter does not take. */
    method PpPostRecv(n: nat, taken: nat) returns (i: nat)
      modifies this`posted
      ensures i == Min(n, taken) && posted == old(posted) + i
    {
      i := 0;
      while i < n
        invariant i <= n && i <= taken
        invariant posted == old(posted) + i
      {
        if i == taken {
          break;
        }
        posted := posted + 1;
        i := i + 1;
      }
    }

    method PpPostSend() returns (status: int)
      modifies this`sendsPosted
      ensures status == 0 <==> old(sendsPosted + sendsCompleted) < MAX_SEND_WR
      ensures View() == PostSend(old(View()))
    {
      if sendsPosted + sendsCompleted >= MAX_SEND_WR {
        return 1;
      }
      sendsPosted := sendsPosted + 1;
      return 0;
    }

    /** `parse_single_wc` on a receive completion. */
    method ParseRecvWc(reply: bool, taken: nat) returns (status: int)
      requires Inv(View()) && !stopped && recvCompleted > 0
      modifies this
      ensures Handled(old(View()), View(), taken) && Replied(old(View()), View(), reply)
      ensures old(availableRecv) > 2 ==> status == 0
      ensures old(availableRecv) == 2 ==> status == if taken >= 499 then 0 else 1
      ensures View() == Step(old(View()), HandleRecv(reply, taken))
      ensures status == if stopped then 1 else 0
      ensures Inv(View())
    {
      recvCompleted := recvCompleted - 1;
      if reply {
        var ignored := PpPostSend();
      }
      availableRecv := availableRecv - 1;
      if availableRecv <= 1 {
        var i := PpPostRecv(RECEIVE_DEPTH - availableRecv, taken);
        availableRecv := availableRecv + i;
        if availableRecv < RECEIVE_DEPTH {
          stopped := true;
          return 1;
        }
      }
      return 0;
    }
  }
}
