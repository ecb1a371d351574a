/** The client side of the RDMA UD ping-pong: two threads and one send buffer.

    The sender thread waits until bit 0 of `pending_send` is clear, writes the
    next ping into the only send buffer, sets the bit and posts the send.  The
    completion thread clears the bit when the send completion arrives.  Setting
    and clearing are each a load and a store of the same byte, and the adapter
    reads the buffer word by word while the send is posted.  Every interleaving
    of these accesses is a schedule; memory is sequentially consistent. */
module UdClient {

  import opened PayloadWords

  datatype Sender =
    | Waiting
    | Writing(ping: Payload, written: set<nat>)
    | Setting(ping: Payload, loaded: bv8)
    | Posting(ping: Payload)

  datatype Completer =
    | Polling
    | Clearing
    | Storing(loaded: bv8)

  datatype Adapter =
    | Quiet
    | Sending(read: set<nat>)
    | Done                       // a send completion is in the completion queue

  datatype State = State(
    bits: bv8,                   // the byte of pending_send that holds bit 0
    buffer: Payload,             // send_buf
    dma: Payload,                // what the adapter has read so far
    sender: Sender,
    completer: Completer,
    adapter: Adapter,
    posted: seq<Payload>,        // history: pings posted
    wire: seq<Payload>)          // history: pings sent

  function Init(buffer: Payload, dma: Payload): State {
    State(0, buffer, dma, Waiting, Polling, Quiet, [], [])
  }

  datatype Action =
    // pp_send_single_packet and pp_post_send
    | TestBit(ping: Payload)
    | WriteWord(w: nat)
    | LoadForSet
    | StoreSet
    | PostSend
    // parse_single_wc on a send completion
    | PollSend
    | LoadForClear
    | StoreClear
    // the adapter
    | ReadWord(w: nat)
    | CompleteSend

  predicate BitSet(bits: bv8) { bits & 1 != 0 }

  function Step(s: State, a: Action): State {
    match a
    case TestBit(ping) =>
      if s.sender.Waiting? && !BitSet(s.bits) then s.(sender := Writing(ping, {})) else s
    case WriteWord(w) =>
      if s.sender.Writing? && w < PAYLOAD_WORDS && w !in s.sender.written then
        s.(buffer := s.buffer[w := s.sender.ping[w]], sender := Writing(s.sender.ping, s.sender.written + {w}))
      else s
    case LoadForSet =>
      if s.sender.Writing? && AllBelow(PAYLOAD_WORDS, s.sender.written) then
        s.(sender := Setting(s.sender.ping, s.bits))
      else s
    case StoreSet =>
      if s.sender.Setting? then s.(bits := s.sender.loaded | 1, sender := Posting(s.sender.ping)) else s
    case PostSend =>
      if s.sender.Posting? then
        s.(sender := Waiting, adapter := Sending({}), posted := s.posted + [s.sender.ping])
      else s
    case PollSend =>
      if s.completer.Polling? && s.adapter.Done? then s.(completer := Clearing, adapter := Quiet) else s
    case LoadForClear =>
      if s.completer.Clearing? then s.(completer := Storing(s.bits)) else s
    case StoreClear =>
      if s.completer.Storing? then s.(bits := s.completer.loaded & !1, completer := Polling) else s
    case ReadWord(w) =>
      if s.adapter.Sending? && w < PAYLOAD_WORDS && w !in s.adapter.read then
        s.(dma := s.dma[w := s.buffer[w]], adapter := Sending(s.adapter.read + {w}))
      else s
    case CompleteSend =>
      if s.adapter.Sending? && AllBelow(PAYLOAD_WORDS, s.adapter.read) then
        s.(adapter := Done, wire := s.wire + [s.dma])
      else s
  }

  function Run(s: State, schedule: seq<Action>): State {
    if schedule == [] then s
    else Step(Run(s, schedule[..|schedule| - 1]), schedule[|schedule| - 1])
  }

  // ---------------------------------------------------------------- invariant

  /** A send is posted, or its completion is not yet handled to the last store. */
  predicate Outstanding(s: State) {
    !s.adapter.Quiet? || !s.completer.Polling?
  }

  ghost predicate Inv(s: State) {
    // the bit, and nothing else in the byte
    && s.bits == (if s.sender.Posting? || Outstanding(s) then 1 else 0)
    // one at a time: the sender touches buffer and bit only when nothing is outstanding
    && (!s.sender.Waiting? ==> !Outstanding(s))
    && (!s.adapter.Quiet? ==> s.completer.Polling?)
    // nobody's loaded byte has been overtaken
    && (s.sender.Setting? ==> s.sender.loaded == s.bits)
    && (s.completer.Storing? ==> s.completer.loaded == s.bits)
    // the buffer
    && (s.sender.Writing? ==>
          forall w :: 0 <= w < PAYLOAD_WORDS && w in s.sender.written ==> s.buffer[w] == s.sender.ping[w])
    && (s.sender.Setting? || s.sender.Posting? ==> s.buffer == s.sender.ping)
    && (s.adapter.Sending? ==>
          && |s.posted| == |s.wire| + 1
          && s.buffer == s.posted[|s.wire|]
          && forall w :: 0 <= w < PAYLOAD_WORDS && w in s.adapter.read ==> s.dma[w] == s.buffer[w])
    && (!s.adapter.Sending? ==> s.posted == s.wire)
    && s.wire <= s.posted
  }

  lemma StepKeepsInv(s: State, a: Action)
    requires Inv(s)
    ensures Inv(Step(s, a))
  {
    var s' := Step(s, a);
    if s' != s {
      match a
      case LoadForSet => assert s.buffer == s.sender.ping;
      case PostSend => assert s'.posted[..|s.posted|] == s.posted;
      case CompleteSend => assert s.dma == s.buffer; assert s'.wire == s.posted;
      case _ =>
    }
  }

  lemma {:induction false} RunKeepsInv(s: State, schedule: seq<Action>)
    requires Inv(s)
    ensures Inv(Run(s, schedule))
    decreases |schedule|
  {
    if schedule != [] {
      var n := |schedule| - 1;
      RunKeepsInv(s, schedule[..n]);
      StepKeepsInv(Run(s, schedule[..n]), schedule[n]);
    }
  }

  // ------------------------------------------------------------ main theorems

  /** The send buffer is never written while a send that uses it is outstanding. */
  lemma {:induction false} BufferIsNeverWrittenUnderASend(buffer: Payload, dma: Payload, schedule: seq<Action>, a: Action)
    ensures var s := Run(Init(buffer, dma), schedule);
      Outstanding(s) ==> Step(s, a).buffer == s.buffer
  {
    RunKeepsInv(Init(buffer, dma), schedule);
  }

  /** No set and no clear of bit 0 is lost: each store writes over the very byte its load
      saw, and the bit is set exactly from the set before a post to the clear after its
      completion. */
  lemma {:induction false} NoBitUpdateIsLost(buffer: Payload, dma: Payload, schedule: seq<Action>)
    ensures var s := Run(Init(buffer, dma), schedule);
      && (BitSet(s.bits) <==> s.sender.Posting? || Outstanding(s))
      && (s.sender.Setting? ==> s.sender.loaded == s.bits)
      && (s.completer.Storing? ==> s.completer.loaded == s.bits)
  {
    RunKeepsInv(Init(buffer, dma), schedule);
  }

  /** At most one ping is in flight, and the pings that went out are the pings that were
      posted, whole and in order. */
  lemma {:induction false} PingsGoOutWholeAndInOrder(buffer: Payload, dma: Payload, schedule: seq<Action>)
    ensures var s := Run(Init(buffer, dma), schedule);
      && s.wire <= s.posted
      && |s.wire| <= |s.posted| <= |s.wire| + 1
  {
    RunKeepsInv(Init(buffer, dma), schedule);
  }

  // Progress.

  lemma RunSnoc(s: State, p: seq<Action>, a: Action)
    ensures Run(s, p + [a]) == Step(Run(s, p), a)
  {
    assert (p + [a])[..|p|] == p;
  }

  /** What the adapter and the completion thread leave to the sender. */
  predicate SameSender(s: State, t: State) {
    t.sender == s.sender && t.posted == s.posted && t.buffer == s.buffer
  }

  lemma ReadOneMore(t: State, w: nat)
    requires Inv(t) && w < PAYLOAD_WORDS && t.adapter.Sending? && AllBelow(w, t.adapter.read)
    ensures var u := Step(t, ReadWord(w));
      Inv(u) && SameSender(t, u) && u.adapter.Sending? && AllBelow(w + 1, u.adapter.read)
  {
    StepKeepsInv(t, ReadWord(w));
  }

  /** The adapter can read the rest of the buffer. */
  lemma AdapterCanRead(s: State) returns (t: State, schedule: seq<Action>)
    requires Inv(s) && s.adapter.Sending?
    ensures t == Run(s, schedule) && Inv(t) && SameSender(s, t)
    ensures t.adapter.Sending? && AllBelow(PAYLOAD_WORDS, t.adapter.read)
  {
    t, schedule := s, [];
    for w := 0 to PAYLOAD_WORDS
      invariant t == Run(s, schedule) && Inv(t) && SameSender(s, t)
      invariant t.adapter.Sending? && AllBelow(w, t.adapter.read)
    {
      RunSnoc(s, schedule, ReadWord(w));
      ReadOneMore(t, w);
      t, schedule := Step(t, ReadWord(w)), schedule + [ReadWord(w)];
    }
  }

  lemma {:induction false} RunConcat(s: State, p: seq<Action>, q: seq<Action>)
    ensures Run(s, p + q) == Run(Run(s, p), q)
    decreases |q|
  {
    if q == [] {
      assert p + q == p;
    } else {
      var n := |q| - 1;
      RunConcat(s, p, q[..n]);
      assert (p + q)[..|p + q| - 1] == p + q[..n];
    }
  }

  lemma RunCons(s: State, a: Action, q: seq<Action>)
    ensures Run(s, [a] + q) == Run(Step(s, a), q)
  {
    RunSnoc(s, [], a);
    assert [] + [a] == [a];
    RunConcat(s, [a], q);
  }

  /** Every send posted is on the wire and the bit is clear. */
  predicate AllSent(t: State) { !BitSet(t.bits) && t.wire == t.posted }

  lemma StoreClears(s: State)
    requires Inv(s) && s.completer.Storing?
    ensures SameSender(s, Step(s, StoreClear)) && AllSent(Step(s, StoreClear))
  {
    StepKeepsInv(s, StoreClear);
  }

  /** With its completion unhandled, the send is on the wire and the bit can come clear. */
  lemma {:induction false} CompletionCanBeHandled(s: State) returns (schedule: seq<Action>)
    requires Inv(s) && Outstanding(s) && !s.adapter.Sending?
    ensures SameSender(s, Run(s, schedule)) && AllSent(Run(s, schedule))
    decreases if s.completer.Polling? then 2 else if s.completer.Clearing? then 1 else 0
  {
    match s.completer
    case Polling =>
      StepKeepsInv(s, PollSend);
      var rest := CompletionCanBeHandled(Step(s, PollSend));
      RunCons(s, PollSend, rest);
      schedule := [PollSend] + rest;
    case Clearing =>
      StepKeepsInv(s, LoadForClear);
      var rest := CompletionCanBeHandled(Step(s, LoadForClear));
      RunCons(s, LoadForClear, rest);
      schedule := [LoadForClear] + rest;
    case Storing(loaded) =>
      StoreClears(s);
      RunCons(s, StoreClear, []);
      assert [StoreClear] + [] == [StoreClear];
      schedule := [StoreClear];
  }

  /** A send under way can be read out, completed and handled. */
  lemma SendCanComplete(s: State) returns (schedule: seq<Action>)
    requires Inv(s) && Outstanding(s)
    ensures SameSender(s, Run(s, schedule)) && AllSent(Run(s, schedule))
  {
    if s.adapter.Sending? {
      var t, p := AdapterCanRead(s);
      StepKeepsInv(t, CompleteSend);
      var q := CompletionCanBeHandled(Step(t, CompleteSend));
      RunCons(t, CompleteSend, q);
      RunConcat(s, p, [CompleteSend] + q);
      schedule := p + ([CompleteSend] + q);
    } else {
      schedule := CompletionCanBeHandled(s);
    }
  }

  /** The busy wait can always come to its end: from every reachable state with a send
      outstanding the adapter and the completion thread can finish it, whole, and clear the bit
      without the sender moving. */
  lemma EverySendCanComplete(buffer: Payload, dma: Payload, before: seq<Action>) returns (schedule: seq<Action>)
    requires Outstanding(Run(Init(buffer, dma), before))
    ensures var s, t := Run(Init(buffer, dma), before), Run(Init(buffer, dma), before + schedule);
      SameSender(s, t) && !BitSet(t.bits) && t.wire == t.posted == s.posted
  {
    RunKeepsInv(Init(buffer, dma), before);
    schedule := SendCanComplete(Run(Init(buffer, dma), before));
    RunConcat(Init(buffer, dma), before, schedule);
  }

  // ------------------------------------------------------- the code, in place

  predicate BySender(a: Action) {
    a.TestBit? || a.WriteWord? || a.LoadForSet? || a.StoreSet? || a.PostSend?
  }

  /** The shared byte and the send buffer, changed in place, with both threads and the adapter. */
  class SendPath {
    var bits: bv8
    const buffer: array<Word>
    var dma: Payload
    var sender: Sender
    var completer: Completer
    var adapter: Adapter
    ghost var posted: seq<Payload>
    ghost var wire: seq<Payload>

    ghost function View(): State
      requires buffer.Length == PAYLOAD_WORDS
      reads this, buffer
    {
      State(bits, buffer[..], dma, sender, completer, adapter, posted, wire)
    }

    ghost predicate Valid()
      reads this, buffer
    {
      buffer.Length == PAYLOAD_WORDS && Inv(View())
    }

    constructor (dma: Payload)
      ensures Valid() && fresh(buffer)
      ensures View() == Init(buffer[..], dma)
    {
      bits := 0;
      buffer := new Word[PAYLOAD_WORDS];
      this.dma := dma;
      sender, completer, adapter := Waiting, Polling, Quiet;
      posted, wire := [], [];
    }

    method SenderAction(a: Action)
      requires Valid() && BySender(a)
      modifies this`bits, this`sender, this`adapter, this`posted, buffer
      ensures View() == Step(old(View()), a)
      ensures Valid()
    {
      StepKeepsInv(View(), a);
      match a
      case TestBit(ping) =>
        if sender.Waiting? && bits & 1 == 0 {
          sender := Writing(ping, {});
        }
      case WriteWord(w) =>
        if sender.Writing? && w < PAYLOAD_WORDS && w !in sender.written {
          buffer[w] := sender.ping[w];
          sender := Writing(sender.ping, sender.written + {w});
        }
      case LoadForSet =>
        if sender.Writing? && AllBelow(PAYLOAD_WORDS, sender.written) {
          sender := Setting(sender.ping, bits);
        }
      case StoreSet =>
        if sender.Setting? {
          bits := sender.loaded | 1;
          sender := Posting(sender.ping);
        }
      case PostSend =>
        if sender.Posting? {
          adapter := Sending({});
          posted := posted + [sender.ping];
          sender := Waiting;
        }
    }

    method CompleterAction(a: Action)
      requires Valid() && (a.PollSend? || a.LoadForClear? || a.StoreClear?)
      modifies this`bits, this`completer, this`adapter
      ensures View() == Step(old(View()), a)
      ensures Valid()
    {
      StepKeepsInv(View(), a);
      match a
      case PollSend =>
        if completer.Polling? && adapter.Done? {
          completer, adapter := Clearing, Quiet;
        }
      case LoadForClear =>
        if completer.Clearing? {
          completer := Storing(bits);
        }
      case StoreClear =>
        if completer.Storing? {
          bits := completer.loaded & !1;
          completer := Polling;
        }
    }

    method AdapterAction(a: Action)
      requires Valid() && (a.ReadWord? || a.CompleteSend?)
      modifies this`dma, this`adapter, this`wire
      ensures View() == Step(old(View()), a)
      ensures Valid()
    {
      StepKeepsInv(View(), a);
      match a
      case ReadWord(w) =>
        if adapter.Sending? && w < PAYLOAD_WORDS && w !in adapter.read {
          dma := dma[w := buffer[w]];
          adapter := Sending(adapter.read + {w});
        }
      case CompleteSend =>
        if adapter.Sending? && AllBelow(PAYLOAD_WORDS, adapter.read) {
          adapter := Done;
          wire := wire + [dma];
        }
    }

    method OtherAction(a: Action)
      requires Valid() && !BySender(a)
      modifies this`bits, this`dma, this`completer, this`adapter, this`wire
      ensures View() == Step(old(View()), a)
      ensures Valid()
    {
      if a.ReadWord? || a.CompleteSend? {
        AdapterAction(a);
      } else {
        CompleterAction(a);
      }
    }

    /** The completion thread and the adapter run for a while. */
    method LetOthersRun(schedule: seq<Action>)
      requires Valid()
      requires forall a :: a in schedule ==> !BySender(a)
      modifies this`bits, this`dma, this`completer, this`adapter, this`wire
      ensures Valid()
    {
      for i := 0 to |schedule|
        invariant Valid()
      {
        OtherAction(schedule[i]);
      }
    }

    /** `pp_send_single_packet`, with anything the others may do before each access: once
        the busy wait ends, exactly this ping is posted, from a buffer that holds it. */
    method SendSinglePacket(ping: Payload, patience: nat, meanwhile: nat -> seq<Action>) returns (sent: bool)
      requires Valid() && sender.Waiting?
      requires forall i, a :: a in meanwhile(i) ==> !BySender(a)
      modifies this, buffer
      ensures Valid() && sender.Waiting?
      ensures posted == old(posted) + if sent then [ping] else []
      ensures sent ==> buffer[..] == ping && adapter == Sending({})
      ensures !old(BitSet(bits)) && patience > 0 ==> sent
    {
      sent := AwaitBuffer(ping, patience, meanwhile);
      if sent {
        WriteBuffer(meanwhile);
        SetBitAndPost(meanwhile(PAYLOAD_WORDS), meanwhile(PAYLOAD_WORDS + 1));
      }
    }

    /** `pp_post_send`: the two accesses that set the bit, then the post. */
    method SetBitAndPost(betweenAccesses: seq<Action>, beforePost: seq<Action>)
      requires Valid() && sender.Writing? && AllBelow(PAYLOAD_WORDS, sender.written)
      requires forall a :: a in betweenAccesses ==> !BySender(a)
      requires forall a :: a in beforePost ==> !BySender(a)
      modifies this, buffer
      ensures Valid() && sender.Waiting?
      ensures posted == old(posted) + [old(sender).ping]
      ensures buffer[..] == old(sender).ping && adapter == Sending({})
    {
      SenderAction(LoadForSet);
      LetOthersRun(betweenAccesses);
      SenderAction(StoreSet);
      LetOthersRun(beforePost);
      SenderAction(PostSend);
    }

    method AwaitBuffer(ping: Payload, patience: nat, meanwhile: nat -> seq<Action>) returns (found: bool)
      requires Valid() && sender.Waiting?
      requires forall i, a :: a in meanwhile(i) ==> !BySender(a)
      modifies this, buffer
      ensures Valid() && posted == old(posted)
      ensures sender == if found then Writing(ping, {}) else Waiting
      ensures !old(BitSet(bits)) && patience > 0 ==> found
    {
      for turn := 0 to patience
        invariant Valid() && sender.Waiting? && posted == old(posted)
        invariant turn == 0 ==> bits == old(bits)
        invariant turn > 0 ==> old(BitSet(bits))
      {
        SenderAction(TestBit(ping));
        if sender.Writing? {
          return true;
        }
        LetOthersRun(meanwhile(turn));
      }
      return false;
    }

    method WriteBuffer(meanwhile: nat -> seq<Action>)
      requires Valid() && sender.Writing? && sender.written == {}
      requires forall i, a :: a in meanwhile(i) ==> !BySender(a)
      modifies this, buffer
      ensures Valid() && posted == old(posted)
      ensures sender.Writing? && sender.ping == old(sender).ping && AllBelow(PAYLOAD_WORDS, sender.written)
    {
      for w := 0 to PAYLOAD_WORDS
        invariant Valid() && posted == old(posted)
        invariant sender.Writing? && sender.ping == old(sender).ping
        invariant forall x: nat :: x in sender.written <==> x < w
      {
        SenderAction(WriteWord(w));
        LetOthersRun(meanwhile(w));
      }
    }
  }
}
