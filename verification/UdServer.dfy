/** The server side of the RDMA UD ping-pong.

    Each of 128 queue indices owns one buffer and goes round a cycle: receive
    posted, receive completed, send posted (from the same buffer), send completed,
    receive posted again.  One thread polls the completion queue; the adapter
    completes posted work in any order, at any time between two completions
    handled by the thread.  Posting work succeeds. */
module UdServer {
  import Bitset
  import opened Numbers

  const QUEUE_SIZE: nat := 128

  // Work request ids: [0, QUEUE_SIZE) for sends, [QUEUE_SIZE, 2*QUEUE_SIZE) for receives.
  const PINGPONG_RECV_WRID: nat := QUEUE_SIZE

  /** The fields of the payload that travel; the clock readings are the server's. */
  datatype Message = Message(id: nat, ts0: nat, ts1: nat, ts2: nat)

  datatype State = State(
    pending: set<nat>,           // the bits set in pending_send
    buffers: seq<Message>,       // recv_bufs
    recvPosted: set<nat>,        // queue indices with a posted receive
    sendPosted: set<nat>,        // queue indices with a posted send
    cq: seq<nat>,                // completion queue, wr_ids
    polled: seq<nat>,            // wc[], polled and not yet parsed
    landed: seq<seq<Message>>,   // history, by index: the pings that landed
    posted: seq<seq<Message>>,   // history, by index: the replies as posted
    sent: seq<seq<Message>>)     // history, by index: what went out

  function Init(buffers: seq<Message>): State
    requires |buffers| == QUEUE_SIZE
  {
    State({}, buffers, FirstIndices(|buffers|), {}, [], [], NoHistory(), NoHistory(), NoHistory())
  }

  function NoHistory(): seq<seq<Message>> { seq(QUEUE_SIZE, _ => []) }

  /** One more message on index i. */
  function Recorded(history: seq<seq<Message>>, i: nat, m: Message): seq<seq<Message>>
    requires i < |history|
  {
    history[i := history[i] + [m]]
  }

  /** {0, 1, ... n-1} */
  function FirstIndices(n: nat): (r: set<nat>)
    ensures |r| == n
    ensures forall i: nat :: i in r <==> i < n
  {
    if n == 0 then {} else FirstIndices(n - 1) + {n - 1}
  }

  datatype Action =
    | RecvCompletes(i: nat, m: Message)      // adapter: a ping lands in buffer i
    | SendCompletes(i: nat)                  // adapter: buffer i has been sent
    | PollCq(n: nat)                         // ibv_poll_cq
    | ParseWc(ts1: nat, ts2: nat)            // parse_single_wc on the next polled completion

  predicate WellFormed(s: State) {
    |s.buffers| == |s.landed| == |s.posted| == |s.sent| == QUEUE_SIZE
  }

  /** A send completion: the bit is cleared and the buffer offered for receiving again. */
  function HandleSend(s: State, i: nat): State
    requires WellFormed(s) && i < QUEUE_SIZE && s.polled != []
  {
    s.(polled := s.polled[1..],
       pending := s.pending - {i},
       recvPosted := s.recvPosted + {i})
  }

  /** A receive completion: unless the busy wait on the bit goes on, the buffer is stamped and sent back. */
  function HandleRecv(s: State, i: nat, ts1: nat, ts2: nat): State
    requires WellFormed(s) && i < QUEUE_SIZE && s.polled != []
  {
    if i in s.pending then s
    else
      var reply := s.buffers[i].(ts1 := ts1, ts2 := ts2);
      s.(polled := s.polled[1..],
         buffers := s.buffers[i := reply],
         pending := s.pending + {i},
         sendPosted := s.sendPosted + {i},
         posted := Recorded(s.posted, i, reply))
  }

  function Step(s: State, a: Action): (s': State)
    requires WellFormed(s)
    ensures WellFormed(s')
  {
    match a
    case RecvCompletes(i, m) =>
      if i in s.recvPosted && i < QUEUE_SIZE then
        s.(recvPosted := s.recvPosted - {i}, buffers := s.buffers[i := m], cq := s.cq + [PINGPONG_RECV_WRID + i],
           landed := Recorded(s.landed, i, m))
      else s
    case SendCompletes(i) =>
      if i in s.sendPosted && i < QUEUE_SIZE then
        s.(sendPosted := s.sendPosted - {i}, cq := s.cq + [i], sent := Recorded(s.sent, i, s.buffers[i]))
      else s
    case PollCq(n) =>
      var k := Min(Min(n, 2), |s.cq|);
      if s.polled == [] then s.(polled := s.cq[..k], cq := s.cq[k..]) else s
    case ParseWc(ts1, ts2) =>
      if s.polled == [] || s.polled[0] >= PINGPONG_RECV_WRID + QUEUE_SIZE then s
      else if s.polled[0] < QUEUE_SIZE then HandleSend(s, s.polled[0])
      else HandleRecv(s, s.polled[0] - PINGPONG_RECV_WRID, ts1, ts2)
  }

  function Run(s: State, schedule: seq<Action>): (s': State)
    requires WellFormed(s)
    ensures WellFormed(s')
    decreases |schedule|
  {
    if schedule == [] then s
    else Step(Run(s, schedule[..|schedule| - 1]), schedule[|schedule| - 1])
  }

  // ---------------------------------------------------------------- invariant

  /** Completions not yet handled, in the order in which they will be. */
  function Unhandled(s: State): seq<nat> { s.polled + s.cq }

  predicate RecvPosted(s: State, i: nat) { i in s.recvPosted }
  predicate RecvCompleted(s: State, i: nat) { PINGPONG_RECV_WRID + i in Unhandled(s) }
  predicate SendPosted(s: State, i: nat) { i in s.sendPosted }
  predicate SendCompleted(s: State, i: nat) { i in Unhandled(s) }

  /** The reply carries the id and the send time of the ping. */
  predicate Answers(reply: Message, ping: Message) { reply.id == ping.id && reply.ts0 == ping.ts0 }

  function AsNat(b: bool): nat { if b then 1 else 0 }

  /** Index i is in exactly one stage of its cycle, and its bit says which half. */
  predicate InOneStage(s: State, i: nat)
    requires WellFormed(s) && i < QUEUE_SIZE
  {
    && AsNat(RecvPosted(s, i)) + AsNat(RecvCompleted(s, i)) + AsNat(SendPosted(s, i)) + AsNat(SendCompleted(s, i)) == 1
    && (i in s.pending <==> SendPosted(s, i) || SendCompleted(s, i))
    && HistoryFits(s, i)
  }

  /** Each ping on index i is answered once, in order, and the buffer holds the ping or the
      reply that is under way. */
  predicate HistoryFits(s: State, i: nat)
    requires WellFormed(s) && i < QUEUE_SIZE
  {
    var n := |s.sent[i]|;
    && s.sent[i] <= s.posted[i]
    && (forall k :: 0 <= k < |s.posted[i]| ==> k < |s.landed[i]| && Answers(s.posted[i][k], s.landed[i][k]))
    && |s.posted[i]| == (if SendPosted(s, i) then n + 1 else n)
    && |s.landed[i]| == (if SendPosted(s, i) || RecvCompleted(s, i) then n + 1 else n)
    && (RecvCompleted(s, i) ==> s.buffers[i] == s.landed[i][n])
    && (SendPosted(s, i) ==> s.buffers[i] == s.posted[i][n])
  }

  predicate Distinct(q: seq<nat>) {
    forall j, k :: 0 <= j < k < |q| ==> q[j] != q[k]
  }

  ghost predicate Inv(s: State) {
    && WellFormed(s)
    && (forall i: nat :: i < QUEUE_SIZE ==> InOneStage(s, i))
    && (forall i :: i in s.recvPosted ==> i < QUEUE_SIZE)
    && (forall i :: i in s.sendPosted ==> i < QUEUE_SIZE)
    && (forall k :: 0 <= k < |Unhandled(s)| ==> Unhandled(s)[k] < PINGPONG_RECV_WRID + QUEUE_SIZE)
    && Distinct(Unhandled(s))
    && |s.recvPosted| + |s.sendPosted| + |s.cq| + |s.polled| == QUEUE_SIZE
  }

  lemma InitInv(buffers: seq<Message>)
    requires |buffers| == QUEUE_SIZE
    ensures Inv(Init(buffers))
  {
    var s := Init(buffers);
    forall i: nat | i < QUEUE_SIZE
      ensures InOneStage(s, i)
    {
    }
  }

  lemma RecvCompletesKeepsInv(s: State, i: nat, m: Message)
    requires Inv(s)
    ensures Inv(Step(s, RecvCompletes(i, m)))
  {
    var s' := Step(s, RecvCompletes(i, m));
    if i in s.recvPosted {
      assert InOneStage(s, i);
      assert Unhandled(s') == Unhandled(s) + [PINGPONG_RECV_WRID + i];
      forall j: nat | j < QUEUE_SIZE
        ensures InOneStage(s', j)
      {
        assert InOneStage(s, j);
      }
    }
  }

  lemma SendCompletesKeepsInv(s: State, i: nat)
    requires Inv(s)
    ensures Inv(Step(s, SendCompletes(i)))
  {
    var s' := Step(s, SendCompletes(i));
    if i in s.sendPosted {
      assert InOneStage(s, i);
      assert Unhandled(s') == Unhandled(s) + [i];
      forall j: nat | j < QUEUE_SIZE
        ensures InOneStage(s', j)
      {
        assert InOneStage(s, j);
      }
    }
  }

  lemma PollKeepsInv(s: State, n: nat)
    requires Inv(s)
    ensures Inv(Step(s, PollCq(n)))
  {
    var s' := Step(s, PollCq(n));
    assert Unhandled(s') == Unhandled(s);
    forall i: nat | i < QUEUE_SIZE
      ensures InOneStage(s', i)
    {
      assert InOneStage(s, i);
    }
  }

  lemma HandleSendKeepsInv(s: State)
    requires Inv(s) && s.polled != [] && s.polled[0] < QUEUE_SIZE
    ensures Inv(HandleSend(s, s.polled[0]))
  {
    var i := s.polled[0];
    var s' := HandleSend(s, i);
    assert i == Unhandled(s)[0];
    assert InOneStage(s, i);
    HandledIsGone(s, s');
    forall j: nat | j < QUEUE_SIZE
      ensures InOneStage(s', j)
    {
      assert InOneStage(s, j);
    }
  }

  /** A receive completion finds its bit clear, so the busy wait ends at once. */
  lemma RecvFindsBitClear(s: State)
    requires Inv(s) && s.polled != [] && s.polled[0] >= PINGPONG_RECV_WRID
    ensures s.polled[0] < PINGPONG_RECV_WRID + QUEUE_SIZE
    ensures s.polled[0] - PINGPONG_RECV_WRID !in s.pending
  {
    var w := s.polled[0];
    assert w == Unhandled(s)[0];
    assert InOneStage(s, w - PINGPONG_RECV_WRID);
  }

  /** Nothing about index j differs. */
  predicate SameIndex(s: State, t: State, j: nat)
    requires WellFormed(s) && WellFormed(t) && j < QUEUE_SIZE
  {
    && RecvPosted(t, j) == RecvPosted(s, j) && RecvCompleted(t, j) == RecvCompleted(s, j)
    && SendPosted(t, j) == SendPosted(s, j) && SendCompleted(t, j) == SendCompleted(s, j)
    && (j in t.pending <==> j in s.pending) && t.buffers[j] == s.buffers[j]
    && t.landed[j] == s.landed[j] && t.posted[j] == s.posted[j] && t.sent[j] == s.sent[j]
  }

  lemma SameIndexSameStage(s: State, t: State, j: nat)
    requires WellFormed(s) && WellFormed(t) && j < QUEUE_SIZE && InOneStage(s, j) && SameIndex(s, t, j)
    ensures InOneStage(t, j)
  {
  }

  lemma ReplyMovesItsIndex(s: State, t: State, i: nat, ts1: nat, ts2: nat)
    requires WellFormed(s) && s.polled != [] && i < QUEUE_SIZE && i !in s.pending
    requires InOneStage(s, i) && RecvCompleted(s, i)
    requires t == HandleRecv(s, i, ts1, ts2)
    requires !RecvCompleted(t, i) && !SendCompleted(t, i)
    ensures InOneStage(t, i)
  {
  }

  lemma HandleRecvMovesOneIndex(s: State, ts1: nat, ts2: nat, j: nat)
    requires Inv(s) && s.polled != [] && PINGPONG_RECV_WRID <= s.polled[0] < PINGPONG_RECV_WRID + QUEUE_SIZE
    requires j < QUEUE_SIZE
    ensures InOneStage(HandleRecv(s, s.polled[0] - PINGPONG_RECV_WRID, ts1, ts2), j)
  {
    var i := s.polled[0] - PINGPONG_RECV_WRID;
    var t := HandleRecv(s, i, ts1, ts2);
    RecvFindsBitClear(s);
    HandledIsGone(s, t);
    assert s.polled[0] == Unhandled(s)[0];
    assert InOneStage(s, j);
    if j == i {
      ReplyMovesItsIndex(s, t, i, ts1, ts2);
    } else {
      SameIndexSameStage(s, t, j);
    }
  }

  lemma HandleRecvKeepsInv(s: State, ts1: nat, ts2: nat)
    requires Inv(s) && s.polled != [] && PINGPONG_RECV_WRID <= s.polled[0] < PINGPONG_RECV_WRID + QUEUE_SIZE
    ensures Inv(HandleRecv(s, s.polled[0] - PINGPONG_RECV_WRID, ts1, ts2))
  {
    var i := s.polled[0] - PINGPONG_RECV_WRID;
    var s' := HandleRecv(s, i, ts1, ts2);
    RecvFindsBitClear(s);
    HandledIsGone(s, s');
    assert i !in s.sendPosted by {
      assert s.polled[0] == Unhandled(s)[0];
      assert InOneStage(s, i);
    }
    forall j: nat | j < QUEUE_SIZE
      ensures InOneStage(s', j)
    {
      HandleRecvMovesOneIndex(s, ts1, ts2, j);
    }
  }

  /** Taking the first completion off leaves the others, still without repetition. */
  lemma HandledIsGone(s: State, s': State)
    requires Inv(s) && s.polled != []
    requires s'.polled == s.polled[1..] && s'.cq == s.cq
    ensures forall w :: w in Unhandled(s') <==> w in Unhandled(s) && w != s.polled[0]
    ensures forall k :: 0 <= k < |Unhandled(s')| ==> Unhandled(s')[k] < PINGPONG_RECV_WRID + QUEUE_SIZE
    ensures Distinct(Unhandled(s'))
  {
    assert Unhandled(s') == Unhandled(s)[1..];
    TailOfDistinct(Unhandled(s));
  }

  lemma TailOfDistinct(q: seq<nat>)
    requires q != [] && Distinct(q)
    ensures Distinct(q[1..])
    ensures forall w :: w in q[1..] <==> w in q && w != q[0]
  {
    forall w
      ensures w in q[1..] <==> w in q && w != q[0]
    {
      if w in q && w != q[0] {
        var k :| 0 <= k < |q| && q[k] == w;
        assert q[1..][k - 1] == w;
      }
    }
  }

  lemma ParseKeepsInv(s: State, ts1: nat, ts2: nat)
    requires Inv(s)
    ensures Inv(Step(s, ParseWc(ts1, ts2)))
  {
    if s.polled != [] {
      if s.polled[0] < QUEUE_SIZE {
        HandleSendKeepsInv(s);
      } else {
        RecvFindsBitClear(s);
        HandleRecvKeepsInv(s, ts1, ts2);
      }
    }
  }

  lemma {:induction false} RunKeepsInv(s: State, schedule: seq<Action>)
    requires Inv(s)
    ensures Inv(Run(s, schedule))
    decreases |schedule|
  {
    if schedule != [] {
      var n := |schedule| - 1;
      var a := schedule[n];
      RunKeepsInv(s, schedule[..n]);
      match a
      case RecvCompletes(i, m) => RecvCompletesKeepsInv(Run(s, schedule[..n]), i, m);
      case SendCompletes(i) => SendCompletesKeepsInv(Run(s, schedule[..n]), i);
      case PollCq(k) => PollKeepsInv(Run(s, schedule[..n]), k);
      case ParseWc(ts1, ts2) => ParseKeepsInv(Run(s, schedule[..n]), ts1, ts2);
    }
  }

  /** The next completion is a known one and is handled: a send completion clears its bit and
      re-posts the receive; a receive completion finds its bit clear, stamps the ping where it
      lies and posts it as a send. */
  predicate GetsThrough(s: State, ts1: nat, ts2: nat)
    requires WellFormed(s) && s.polled != []
  {
    var w, t := s.polled[0], Step(s, ParseWc(ts1, ts2));
    && t.polled == s.polled[1..] && t.cq == s.cq
    && w < PINGPONG_RECV_WRID + QUEUE_SIZE
    && (w < QUEUE_SIZE ==> w !in t.pending && w in t.recvPosted && t.buffers == s.buffers)
    && (w >= PINGPONG_RECV_WRID ==>
          var i := w - PINGPONG_RECV_WRID;
          && i !in s.pending && i in t.pending && i in t.sendPosted
          && t.buffers[i] == Message(s.buffers[i].id, s.buffers[i].ts0, ts1, ts2))
  }

  lemma ParseGetsThrough(s: State, ts1: nat, ts2: nat)
    requires Inv(s) && s.polled != []
    ensures GetsThrough(s, ts1, ts2)
  {
    assert s.polled[0] == Unhandled(s)[0];
    if s.polled[0] >= PINGPONG_RECV_WRID {
      RecvFindsBitClear(s);
    }
  }

  lemma {:induction false} ReachableInv(buffers: seq<Message>, schedule: seq<Action>)
    requires |buffers| == QUEUE_SIZE
    ensures Inv(Run(Init(buffers), schedule))
  {
    InitInv(buffers);
    RunKeepsInv(Init(buffers), schedule);
  }

  // ------------------------------------------------------------ main theorems

  /** In every run every queue index is in exactly one stage of its cycle, and its pending
      bit is set exactly from the posting of its send to the handling of the completion. */
  lemma {:induction false} EveryIndexInOneStage(buffers: seq<Message>, schedule: seq<Action>, i: nat)
    requires |buffers| == QUEUE_SIZE && i < QUEUE_SIZE
    ensures var s := Run(Init(buffers), schedule);
      && AsNat(RecvPosted(s, i)) + AsNat(RecvCompleted(s, i)) + AsNat(SendPosted(s, i)) + AsNat(SendCompleted(s, i)) == 1
      && (i in s.pending <==> SendPosted(s, i) || SendCompleted(s, i))
  {
    ReachableInv(buffers, schedule);
    assert InOneStage(Run(Init(buffers), schedule), i);
  }

  /** Handling a completion always gets through: the wr_id is a known one and, for a
      receive, the busy wait on the pending bit does not spin. */
  lemma {:induction false} ParseNeverSpins(buffers: seq<Message>, schedule: seq<Action>, ts1: nat, ts2: nat)
    requires |buffers| == QUEUE_SIZE
    requires Run(Init(buffers), schedule).polled != []
    ensures GetsThrough(Run(Init(buffers), schedule), ts1, ts2)
  {
    ReachableInv(buffers, schedule);
    ParseGetsThrough(Run(Init(buffers), schedule), ts1, ts2);
  }

  /** A completion queue of QUEUE_SIZE entries, and send and receive queues of QUEUE_SIZE
      entries, never overflow: all the work there is amounts to QUEUE_SIZE. */
  lemma {:induction false} QueuesNeverOverflow(buffers: seq<Message>, schedule: seq<Action>)
    requires |buffers| == QUEUE_SIZE
    ensures var s := Run(Init(buffers), schedule);
      |s.recvPosted| + |s.sendPosted| + |s.cq| + |s.polled| == QUEUE_SIZE
  {
    ReachableInv(buffers, schedule);
  }

  /** On index i the packets sent are the replies as they were posted, in order, so no buffer
      changed under a posted send; reply k carries the id and the send time of the k-th ping
      that landed there; and at most one ping is still unanswered. */
  predicate AnsweredInOrder(s: State, i: nat)
    requires WellFormed(s) && i < QUEUE_SIZE
  {
    && s.sent[i] <= s.posted[i]
    && |s.sent[i]| <= |s.posted[i]| <= |s.landed[i]| <= |s.sent[i]| + 1
    && (forall k :: 0 <= k < |s.posted[i]| ==> Answers(s.posted[i][k], s.landed[i][k]))
    && (RecvPosted(s, i) || SendCompleted(s, i) ==> |s.sent[i]| == |s.landed[i]|)
    && (SendPosted(s, i) ==> s.posted[i] == s.sent[i] + [s.buffers[i]])
  }

  lemma InvAnswersInOrder(s: State, i: nat)
    requires Inv(s) && i < QUEUE_SIZE
    ensures AnsweredInOrder(s, i)
  {
    assert InOneStage(s, i);
  }

  /** In every run, each ping is answered at most once, in order, and none is skipped. */
  lemma {:induction false} PongsAnswerTheirPings(buffers: seq<Message>, schedule: seq<Action>, i: nat)
    requires |buffers| == QUEUE_SIZE && i < QUEUE_SIZE
    ensures AnsweredInOrder(Run(Init(buffers), schedule), i)
  {
    ReachableInv(buffers, schedule);
    InvAnswersInOrder(Run(Init(buffers), schedule), i);
  }

  // Progress.

  /** A ping lands on index i, with nothing else to be handled, and is taken off the queue. */
  lemma PingIsPolled(s: State, i: nat, m: Message)
    requires WellFormed(s) && i < QUEUE_SIZE && i in s.recvPosted && s.cq == [] && s.polled == []
    ensures var t := Step(Step(s, RecvCompletes(i, m)), PollCq(2));
      t == s.(recvPosted := s.recvPosted - {i}, buffers := s.buffers[i := m], polled := [PINGPONG_RECV_WRID + i],
              landed := s.landed[i := s.landed[i] + [m]])
  {
  }

  /** The reply on index i goes out, with nothing else to be handled, and its completion is taken
      off the queue. */
  lemma ReplyIsPolled(s: State, i: nat)
    requires WellFormed(s) && i < QUEUE_SIZE && i in s.sendPosted && s.cq == [] && s.polled == []
    ensures var t := Step(Step(s, SendCompletes(i)), PollCq(2));
      t == s.(sendPosted := s.sendPosted - {i}, polled := [i], sent := s.sent[i := s.sent[i] + [s.buffers[i]]])
  {
  }

  /** The ping just taken off the queue is answered. */
  lemma PingIsAnswered(s: State, i: nat, ts1: nat, ts2: nat)
    requires WellFormed(s) && i < QUEUE_SIZE && i !in s.pending && s.polled == [PINGPONG_RECV_WRID + i]
    ensures var reply := Message(s.buffers[i].id, s.buffers[i].ts0, ts1, ts2);
      Step(s, ParseWc(ts1, ts2)) == s.(polled := [], buffers := s.buffers[i := reply], pending := s.pending + {i},
                                       sendPosted := s.sendPosted + {i}, posted := s.posted[i := s.posted[i] + [reply]])
  {
  }

  /** The completion just taken off the queue is handled. */
  lemma ReplyIsFinished(s: State, i: nat, ts1: nat, ts2: nat)
    requires WellFormed(s) && i < QUEUE_SIZE && s.polled == [i]
    ensures Step(s, ParseWc(ts1, ts2)) == s.(polled := [], pending := s.pending - {i}, recvPosted := s.recvPosted + {i})
  {
  }

  /** One time round: a ping that lands on an index with a posted receive is answered, stamped, and
      the receive posted again. */
  lemma RoundTrip(s: State, i: nat, m: Message, ts1: nat, ts2: nat)
    requires Inv(s) && i < QUEUE_SIZE && i in s.recvPosted && s.cq == [] && s.polled == []
    ensures var received := Step(Step(s, RecvCompletes(i, m)), PollCq(2));
      var replied := Step(received, ParseWc(ts1, ts2));
      var t := Step(Step(Step(replied, SendCompletes(i)), PollCq(2)), ParseWc(ts1, ts2));
      && i in t.recvPosted && i !in t.pending && t.cq == [] && t.polled == []
      && t.landed[i] == s.landed[i] + [m]
      && t.sent[i] == s.sent[i] + [Message(m.id, m.ts0, ts1, ts2)]
  {
    PingIsPolled(s, i, m);
    var received := Step(Step(s, RecvCompletes(i, m)), PollCq(2));
    assert i !in s.pending by {
      assert InOneStage(s, i);
    }
    PingIsAnswered(received, i, ts1, ts2);
    var replied := Step(received, ParseWc(ts1, ts2));
    ReplyIsPolled(replied, i);
    ReplyIsFinished(Step(Step(replied, SendCompletes(i)), PollCq(2)), i, ts1, ts2);
  }

  // ------------------------------------------------------- the code, in place

  /** `struct pingpong_context` and the adapter's queues. */
  class Context {
    const pending: array<bv8>
    const buffers: array<Message>
    var recvPosted: set<nat>
    var sendPosted: set<nat>
    var cq: seq<nat>
    var polled: seq<nat>
    ghost var landed: seq<seq<Message>>
    ghost var posted: seq<seq<Message>>
    ghost var sent: seq<seq<Message>>

    /** The bytes of pending_send, read as the set of bits they stand for. */
    ghost function View(): State
      requires pending.Length == Bitset.Slots(QUEUE_SIZE)
      reads this, pending, buffers
    {
      State(Bitset.Members(pending[..], QUEUE_SIZE), buffers[..], recvPosted, sendPosted, cq, polled,
            landed, posted, sent)
    }

    ghost predicate Valid()
      reads this, pending, buffers
    {
      pending.Length == Bitset.Slots(QUEUE_SIZE) && Inv(View())
    }

    /** `pp_init_context` and the loop that posts a receive on every index. */
    constructor (initial: seq<Message>)
      requires |initial| == QUEUE_SIZE
      ensures fresh(pending) && fresh(buffers)
      ensures pending.Length == Bitset.Slots(QUEUE_SIZE) && View() == Init(initial)
    {
      pending := new bv8[Bitset.Slots(QUEUE_SIZE)];
      buffers := new Message[QUEUE_SIZE];
      recvPosted, sendPosted, cq, polled := {}, {}, [], [];
      landed, posted, sent := NoHistory(), NoHistory(), NoHistory();
      new;
      Bitset.Init(pending, QUEUE_SIZE);
      FillBuffers(initial);
      PostAllReceives(buffers.Length);
    }

    method FillBuffers(initial: seq<Message>)
      requires buffers.Length == |initial|
      modifies buffers
      ensures buffers[..] == initial
    {
      for i := 0 to |initial|
        invariant buffers[..i] == initial[..i]
      {
        buffers[i] := initial[i];
      }
    }

    method PostAllReceives(n: nat)
      requires recvPosted == {}
      modifies this`recvPosted
      ensures recvPosted == FirstIndices(n)
    {
      for i := 0 to n
        invariant recvPosted == FirstIndices(i)
      {
        PostRecv(i);
      }
    }

    method PostRecv(i: nat)
      modifies this`recvPosted
      ensures recvPosted == old(recvPosted) + {i}
    {
      recvPosted := recvPosted + {i};
    }

    method PostSend(i: nat)
      requires pending.Length == Bitset.Slots(QUEUE_SIZE)
      requires i < QUEUE_SIZE && i < |posted| && i < buffers.Length
      modifies this`sendPosted, this`posted, pending
      ensures Bitset.Members(pending[..], QUEUE_SIZE) == Bitset.Members(old(pending[..]), QUEUE_SIZE) + {i}
      ensures sendPosted == old(sendPosted) + {i}
      ensures posted == Recorded(old(posted), i, buffers[i])
    {
      Bitset.Set(pending, QUEUE_SIZE, i);
      sendPosted := sendPosted + {i};
      posted := Recorded(posted, i, buffers[i]);
    }

    /** The branch of `parse_single_wc` for a send completion. */
    method FinishSend()
      requires pending.Length == Bitset.Slots(QUEUE_SIZE) && WellFormed(View())
      requires polled != [] && polled[0] < QUEUE_SIZE
      modifies this`polled, this`recvPosted, pending
      ensures pending.Length == Bitset.Slots(QUEUE_SIZE) && View() == HandleSend(old(View()), old(polled)[0])
    {
      var i := polled[0];
      polled := polled[1..];
      Bitset.Clear(pending, QUEUE_SIZE, i);
      PostRecv(i);
    }

    /** The branch for a receive completion, its busy wait found over at once. */
    method ReplyTo(i: nat, ts1: nat, ts2: nat)
      requires pending.Length == Bitset.Slots(QUEUE_SIZE) && WellFormed(View())
      requires polled != [] && i < QUEUE_SIZE && i !in View().pending
      modifies this`polled, this`sendPosted, this`posted, pending, buffers
      ensures pending.Length == Bitset.Slots(QUEUE_SIZE) && View() == HandleRecv(old(View()), i, ts1, ts2)
    {
      var busy := Bitset.IsSet(pending, QUEUE_SIZE, i);
      assert !busy;
      polled := polled[1..];
      buffers[i] := buffers[i].(ts1 := ts1, ts2 := ts2);
      PostSend(i);
    }

    /** `parse_single_wc` on the next polled completion: it always succeeds. */
    method ParseSingleWc(ts1: nat, ts2: nat) returns (status: int)
      requires Valid() && polled != []
      modifies this, pending, buffers
      ensures status == 0
      ensures pending.Length == Bitset.Slots(QUEUE_SIZE) && View() == Step(old(View()), ParseWc(ts1, ts2))
      ensures Valid()
    {
      ghost var before := View();
      ParseGetsThrough(before, ts1, ts2);
      // The branch for an unknown wr_id is never taken.
      assert polled[0] < PINGPONG_RECV_WRID + QUEUE_SIZE;
      if polled[0] < QUEUE_SIZE {
        FinishSend();
      } else {
        ReplyTo(polled[0] - PINGPONG_RECV_WRID, ts1, ts2);
      }
      assert View() == Step(before, ParseWc(ts1, ts2));
      ParseKeepsInv(before, ts1, ts2);
      return 0;
    }
  }
}
