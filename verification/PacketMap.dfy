/** The map shared by the XDP program and the polling application.

    The XDP program (the producer) writes each admitted ping-pong payload into
    the next of 128 slots; the application (the consumer) polls the slots in the
    same order.  They share no head and no tail: a slot is full exactly when its
    last word holds the magic number.

    The model interleaves the two sides one 32-bit memory access at a time.
    Memory is sequentially consistent and there is one producer call at a time.
    A schedule is any sequence of actions; an action that is not enabled leaves
    the state unchanged, so a statement about every schedule is a statement
    about every interleaving. */
module PacketMap {

  import opened PayloadWords

  const PACKETS_MAP_SIZE: nat := 128

  /** The payload after the XDP program has cleared the last bit of its magic. */
  function Masked(p: Payload): Payload {
    p[MAGIC_WORD := p[MAGIC_WORD] & 0xFFFFFFFE]
  }

  /** Where the producer stands inside `add_packet_to_map`. */
  datatype Producer =
    | Idle
    | Indexed(key: nat, packet: Payload)
    | Rejecting(key: nat, packet: Payload)
    | Copying(key: nat, packet: Payload, copied: set<nat>)
    | Committing(key: nat, packet: Payload, loaded: Word)

  /** Where the consumer stands inside `poll_next_payload`. */
  datatype Consumer =
    | Polling
    | Reading(copied: set<nat>)
    | Zeroing(zeroed: set<nat>)
    | Returning

  /** A finished call of `add_packet_to_map`: its packet, and whether it went into the map. */
  datatype Handled = Handled(packet: Payload, kept: bool)

  /** Shared memory, both program counters, and the history of the run
      (`handled`, `accepted`, `delivered`), which no step reads. */
  datatype State = State(
    slots: seq<Payload>,
    index: nat,
    next: nat,
    dest: Payload,
    producer: Producer,
    consumer: Consumer,
    handled: seq<Handled>,
    accepted: seq<Payload>,
    delivered: seq<Payload>)

  function Init(dest: Payload): State {
    State(seq(PACKETS_MAP_SIZE, _ => ZEROED), 0, 0, dest, Idle, Polling, [], [], [])
  }

  datatype Action =
    | Receive(packet: Payload)   // a packet reaches the XDP program
    | CheckSlot                  // is there still a packet in the slot?
    | Rewind                     // yes: put the index back and drop
    | CopyWord(w: nat)           // no: copy one word of the masked packet
    | LoadMagic                  // the two halves of `magic |= 1`
    | StoreMagic
    | Poll                       // one turn of the busy wait
    | ReadWord(w: nat)           // one word of the memcpy
    | ZeroWord(w: nat)           // one word of the memset
    | Return                     // next_index + 1
    | UseBuffer(p: Payload)      // the caller works on its own copy

  function WriteWord(slots: seq<Payload>, k: nat, w: nat, v: Word): (r: seq<Payload>)
    requires k < |slots| && w < PAYLOAD_WORDS
    ensures |r| == |slots|
    ensures forall j, x :: 0 <= j < |slots| && 0 <= x < PAYLOAD_WORDS ==>
      r[j][x] == if j == k && x == w then v else slots[j][x]
  {
    slots[k := slots[k][w := v]]
  }

  predicate WellFormed(s: State) {
    && |s.slots| == PACKETS_MAP_SIZE
    && s.index < PACKETS_MAP_SIZE
    && s.next < PACKETS_MAP_SIZE
    && (!s.producer.Idle? ==> s.producer.key < PACKETS_MAP_SIZE)
  }

  function ProducerStep(s: State, a: Action): State
    requires WellFormed(s)
  {
    var p := s.producer;
    match a
    case Receive(packet) =>
      if p.Idle? && ValidPayload(packet) then
        s.(producer := Indexed(s.index, packet), index := (s.index + 1) % PACKETS_MAP_SIZE)
      else s
    case CheckSlot =>
      if !p.Indexed? then s
      else if ValidPayload(s.slots[p.key]) then s.(producer := Rejecting(p.key, p.packet))
      else s.(producer := Copying(p.key, p.packet, {}))
    case Rewind =>
      if p.Rejecting? then
        s.(producer := Idle, index := p.key, handled := s.handled + [Handled(p.packet, false)])
      else s
    case CopyWord(w) =>
      if p.Copying? && w < PAYLOAD_WORDS && w !in p.copied then
        s.(slots := WriteWord(s.slots, p.key, w, Masked(p.packet)[w]),
           producer := Copying(p.key, p.packet, p.copied + {w}))
      else s
    case LoadMagic =>
      if p.Copying? && AllBelow(PAYLOAD_WORDS, p.copied) then
        s.(producer := Committing(p.key, p.packet, s.slots[p.key][MAGIC_WORD]))
      else s
    case StoreMagic =>
      if p.Committing? then
        s.(slots := WriteWord(s.slots, p.key, MAGIC_WORD, p.loaded | 1),
           producer := Idle,
           handled := s.handled + [Handled(p.packet, true)],
           accepted := s.accepted + [p.packet])
      else s
    case _ => s
  }

  function ConsumerStep(s: State, a: Action): State
    requires WellFormed(s)
  {
    var c := s.consumer;
    match a
    case Poll =>
      if c.Polling? && ValidPayload(s.slots[s.next]) then s.(consumer := Reading({})) else s
    case UseBuffer(p) =>
      if c.Polling? then s.(dest := p) else s
    case ReadWord(w) =>
      if c.Reading? && w < PAYLOAD_WORDS && w !in c.copied then
        s.(dest := s.dest[w := s.slots[s.next][w]],
           consumer := if AllBelow(PAYLOAD_WORDS, c.copied + {w}) then Zeroing({}) else Reading(c.copied + {w}))
      else s
    case ZeroWord(w) =>
      // memset clears the magic, the last field, after every other word.
      if c.Zeroing? && w < PAYLOAD_WORDS && w !in c.zeroed && (w == MAGIC_WORD ==> AllBelow(MAGIC_WORD, c.zeroed)) then
        s.(slots := WriteWord(s.slots, s.next, w, 0),
           consumer := if w == MAGIC_WORD then Returning else Zeroing(c.zeroed + {w}))
      else s
    case Return =>
      if c.Returning? then
        s.(next := (s.next + 1) % PACKETS_MAP_SIZE,
           consumer := Polling,
           delivered := s.delivered + [s.dest])
      else s
    case _ => s
  }

  predicate ByProducer(a: Action) {
    a.Receive? || a.CheckSlot? || a.Rewind? || a.CopyWord? || a.LoadMagic? || a.StoreMagic?
  }

  function Step(s: State, a: Action): (s': State)
    requires WellFormed(s)
    ensures WellFormed(s')
  {
    if ByProducer(a) then ProducerStep(s, a) else ConsumerStep(s, a)
  }

  /** The state after the actions of `schedule`, from `s`. */
  function Run(s: State, schedule: seq<Action>): (s': State)
    requires WellFormed(s)
    ensures WellFormed(s')
    decreases |schedule|
  {
    if schedule == [] then s
    else Step(Run(s, schedule[..|schedule| - 1]), schedule[|schedule| - 1])
  }

  // ---------------------------------------------------------------- invariant

  /** How many packets have left the map: delivered, or zeroed and about to be. */
  function Freed(s: State): nat {
    |s.delivered| + if s.consumer.Returning? then 1 else 0
  }

  /** The one packet number in the window [f, f + 128) that belongs in slot k. */
  function PacketIn(f: nat, k: nat): (i: nat)
    requires k < PACKETS_MAP_SIZE
    ensures f <= i < f + PACKETS_MAP_SIZE
    ensures i % PACKETS_MAP_SIZE == k
  {
    f + (k - f) % PACKETS_MAP_SIZE
  }

  lemma PacketInUnique(f: nat, i: nat)
    requires f <= i < f + PACKETS_MAP_SIZE
    ensures PacketIn(f, i % PACKETS_MAP_SIZE) == i
  {
  }

  /** Freeing one packet moves only its own slot, to the far end of the window. */
  lemma PacketInShift(f: nat, k: nat)
    requires k < PACKETS_MAP_SIZE
    ensures PacketIn(f + 1, k) == if k == f % PACKETS_MAP_SIZE then f + PACKETS_MAP_SIZE else PacketIn(f, k)
  {
  }

  /** What word w of slot k must hold, from the history and the program counters alone. */
  function ExpectedWord(s: State, k: nat, w: nat): Word
    requires k < PACKETS_MAP_SIZE && w < PAYLOAD_WORDS
  {
    var i := PacketIn(Freed(s), k);
    if i < |s.accepted| then
      if i == |s.delivered| && s.consumer.Zeroing? && w in s.consumer.zeroed then 0
      else s.accepted[i][w]
    else if i == |s.accepted| && s.producer.Copying? && w in s.producer.copied then Masked(s.producer.packet)[w]
    else if i == |s.accepted| && s.producer.Committing? then Masked(s.producer.packet)[w]
    else 0
  }

  ghost predicate Memory(s: State)
    requires WellFormed(s)
  {
    forall k, w :: 0 <= k < PACKETS_MAP_SIZE && 0 <= w < PAYLOAD_WORDS ==>
      s.slots[k][w] == ExpectedWord(s, k, w)
  }

  ghost predicate ProducerInv(s: State) {
    && s.accepted == Kept(s.handled)
    && (forall i :: 0 <= i < |s.accepted| ==> ValidPayload(s.accepted[i]))
    && |s.accepted| <= Freed(s) + PACKETS_MAP_SIZE
    && s.index == (|s.accepted| + if s.producer.Idle? then 0 else 1) % PACKETS_MAP_SIZE
    && (!s.producer.Idle? ==>
          && s.producer.key == |s.accepted| % PACKETS_MAP_SIZE
          && ValidPayload(s.producer.packet))
    && (s.producer.Committing? ==> s.producer.loaded == PINGPONG_MAGIC & 0xFFFFFFFE)
    && (s.producer.Copying? || s.producer.Committing? ==> |s.accepted| < Freed(s) + PACKETS_MAP_SIZE)
  }

  ghost predicate ConsumerInv(s: State) {
    && s.delivered <= s.accepted
    && s.next == |s.delivered| % PACKETS_MAP_SIZE
    && (!s.consumer.Polling? ==> |s.delivered| < |s.accepted|)
    && (s.consumer.Reading? ==>
          forall w :: 0 <= w < PAYLOAD_WORDS && w in s.consumer.copied ==> s.dest[w] == s.accepted[|s.delivered|][w])
    && (s.consumer.Zeroing? ==>
          && MAGIC_WORD !in s.consumer.zeroed
          && s.dest == s.accepted[|s.delivered|])
    && (s.consumer.Returning? ==> s.dest == s.accepted[|s.delivered|])
  }

  /** The packets of the calls that did not drop theirs, in order. */
  function Kept(handled: seq<Handled>): seq<Payload> {
    if handled == [] then []
    else
      var last := handled[|handled| - 1];
      Kept(handled[..|handled| - 1]) + if last.kept then [last.packet] else []
  }

  ghost predicate Inv(s: State) {
    WellFormed(s) && ProducerInv(s) && ConsumerInv(s) && Memory(s)
  }

  lemma InitInv(dest: Payload)
    ensures Inv(Init(dest))
  {
  }

  /** In the invariant, a slot's magic is right exactly when it holds an unfreed packet. */
  lemma SlotFull(s: State, k: nat)
    requires Inv(s) && k < PACKETS_MAP_SIZE
    ensures ValidPayload(s.slots[k]) <==> PacketIn(Freed(s), k) < |s.accepted|
  {
    assert s.slots[k][MAGIC_WORD] == ExpectedWord(s, k, MAGIC_WORD);
  }

  /** Packet number n goes to a slot whose packet in the window [f, f + 128) is one of the
      first n exactly when those fill the window. */
  lemma WindowFull(f: nat, n: nat)
    requires n <= f + PACKETS_MAP_SIZE
    requires f <= n
    ensures PacketIn(f, n % PACKETS_MAP_SIZE) < n <==> n == f + PACKETS_MAP_SIZE
  {
    if n == f + PACKETS_MAP_SIZE {
      assert n % PACKETS_MAP_SIZE == f % PACKETS_MAP_SIZE;
      PacketInUnique(f, f);
    } else {
      PacketInUnique(f, n);
    }
  }

  lemma KeyFullExactlyAtCapacity(s: State)
    requires Inv(s) && s.producer.Indexed?
    ensures ValidPayload(s.slots[s.producer.key]) <==> |s.accepted| == Freed(s) + PACKETS_MAP_SIZE
  {
    SlotFull(s, s.producer.key);
    WindowFull(Freed(s), |s.accepted|);
  }

  lemma IndexWraps(n: nat)
    ensures (n % PACKETS_MAP_SIZE + 1) % PACKETS_MAP_SIZE == (n + 1) % PACKETS_MAP_SIZE
  {
  }

  lemma ReceiveKeepsInv(s: State, packet: Payload)
    requires Inv(s)
    ensures Inv(ProducerStep(s, Receive(packet)))
  {
    var s' := ProducerStep(s, Receive(packet));
    if s' != s {
      IndexWraps(|s.accepted|);
      MemoryCarriesOver(s, s');
    }
  }

  /** A step that writes no slot and moves no expectation keeps the memory in order. */
  lemma MemoryCarriesOver(s: State, s': State)
    requires WellFormed(s) && WellFormed(s') && Memory(s)
    requires s'.slots == s.slots
    requires forall k, w :: 0 <= k < PACKETS_MAP_SIZE && 0 <= w < PAYLOAD_WORDS ==>
      ExpectedWord(s', k, w) == ExpectedWord(s, k, w)
    ensures Memory(s')
  {
    forall k, w | 0 <= k < PACKETS_MAP_SIZE && 0 <= w < PAYLOAD_WORDS
      ensures s'.slots[k][w] == ExpectedWord(s', k, w)
    {
      assert ExpectedWord(s', k, w) == ExpectedWord(s, k, w);
    }
  }

  lemma CheckSlotKeepsInv(s: State)
    requires Inv(s)
    ensures Inv(ProducerStep(s, CheckSlot))
  {
    if s.producer.Indexed? {
      KeyFullExactlyAtCapacity(s);
      var s' := ProducerStep(s, CheckSlot);
      assert Freed(s') == Freed(s);
      MemoryCarriesOver(s, s');
    }
  }

  lemma RewindKeepsInv(s: State)
    requires Inv(s)
    ensures Inv(ProducerStep(s, Rewind))
  {
    MemoryCarriesOver(s, ProducerStep(s, Rewind));
  }

  /** The slot being filled belongs to packet number |accepted|, and to no other. */
  lemma KeySlot(s: State, k: nat)
    requires Inv(s) && (s.producer.Copying? || s.producer.Committing?)
    requires k < PACKETS_MAP_SIZE
    ensures PacketIn(Freed(s), k) == |s.accepted| <==> k == s.producer.key
  {
    if Freed(s) <= |s.accepted| {
      PacketInUnique(Freed(s), |s.accepted|);
    }
  }

  /** Copying a word changes what is expected of that word only. */
  lemma CopyWordExpected(s: State, w: nat, k: nat, x: nat)
    requires Inv(s) && ProducerStep(s, CopyWord(w)) != s
    requires k < PACKETS_MAP_SIZE && x < PAYLOAD_WORDS
    ensures ExpectedWord(ProducerStep(s, CopyWord(w)), k, x)
         == if k == s.producer.key && x == w then Masked(s.producer.packet)[w] else ExpectedWord(s, k, x)
  {
    KeySlot(s, k);
    assert Freed(ProducerStep(s, CopyWord(w))) == Freed(s);
  }

  lemma CopyWordKeepsInv(s: State, w: nat)
    requires Inv(s)
    ensures Inv(ProducerStep(s, CopyWord(w)))
  {
    var s' := ProducerStep(s, CopyWord(w));
    if s' != s {
      forall k, x | 0 <= k < PACKETS_MAP_SIZE && 0 <= x < PAYLOAD_WORDS
        ensures s'.slots[k][x] == ExpectedWord(s', k, x)
      {
        CopyWordExpected(s, w, k, x);
        assert s.slots[k][x] == ExpectedWord(s, k, x);
      }
    }
  }

  lemma LoadedMagic(s: State)
    requires Inv(s) && s.producer.Copying? && AllBelow(PAYLOAD_WORDS, s.producer.copied)
    ensures s.slots[s.producer.key][MAGIC_WORD] == PINGPONG_MAGIC & 0xFFFFFFFE
  {
    KeySlot(s, s.producer.key);
    assert s.slots[s.producer.key][MAGIC_WORD] == ExpectedWord(s, s.producer.key, MAGIC_WORD);
  }

  lemma LoadMagicKeepsExpectations(s: State, k: nat, w: nat)
    requires WellFormed(s) && s.producer.Copying? && AllBelow(PAYLOAD_WORDS, s.producer.copied)
    requires k < PACKETS_MAP_SIZE && w < PAYLOAD_WORDS
    ensures ExpectedWord(ProducerStep(s, LoadMagic), k, w) == ExpectedWord(s, k, w)
  {
    assert Freed(ProducerStep(s, LoadMagic)) == Freed(s);
    assert w in s.producer.copied;
  }

  lemma LoadMagicKeepsInv(s: State)
    requires Inv(s)
    ensures Inv(ProducerStep(s, LoadMagic))
  {
    if s.producer.Copying? && AllBelow(PAYLOAD_WORDS, s.producer.copied) {
      LoadedMagic(s);
      forall k, w | 0 <= k < PACKETS_MAP_SIZE && 0 <= w < PAYLOAD_WORDS
        ensures ExpectedWord(ProducerStep(s, LoadMagic), k, w) == ExpectedWord(s, k, w)
      {
        LoadMagicKeepsExpectations(s, k, w);
      }
      MemoryCarriesOver(s, ProducerStep(s, LoadMagic));
    }
  }

  lemma StoreMagicKeepsInv(s: State)
    requires Inv(s)
    ensures Inv(ProducerStep(s, StoreMagic))
  {
    var s' := ProducerStep(s, StoreMagic);
    if s' != s {
      forall k, x | 0 <= k < PACKETS_MAP_SIZE && 0 <= x < PAYLOAD_WORDS
        ensures s'.slots[k][x] == ExpectedWord(s', k, x)
      {
        KeySlot(s, k);
        assert s.slots[k][x] == ExpectedWord(s, k, x);
      }
    }
  }

  /** The slot the consumer looks at belongs to packet number |delivered|, until it is freed. */
  lemma NextSlot(s: State, k: nat)
    requires Inv(s) && !s.consumer.Returning?
    requires k < PACKETS_MAP_SIZE
    ensures PacketIn(Freed(s), k) == |s.delivered| <==> k == s.next
  {
    PacketInUnique(Freed(s), |s.delivered|);
  }

  lemma PollKeepsInv(s: State)
    requires Inv(s)
    ensures Inv(ConsumerStep(s, Poll))
  {
    if s.consumer.Polling? {
      NextSlot(s, s.next);
      SlotFull(s, s.next);
    }
    MemoryCarriesOver(s, ConsumerStep(s, Poll));
  }

  lemma ReadWordKeepsInv(s: State, w: nat)
    requires Inv(s)
    ensures Inv(ConsumerStep(s, ReadWord(w)))
  {
    var s' := ConsumerStep(s, ReadWord(w));
    if s' != s {
      NextSlot(s, s.next);
      var packet := s.accepted[|s.delivered|];
      assert s'.dest[w] == packet[w] by {
        assert s.slots[s.next][w] == ExpectedWord(s, s.next, w);
      }
      if AllBelow(PAYLOAD_WORDS, s.consumer.copied + {w}) {
        assert s'.dest == packet;
      }
      MemoryCarriesOver(s, s');
    }
  }

  /** Zeroing a word changes what is expected of that word only; zeroing the last one
      moves the window on. */
  lemma ZeroWordExpected(s: State, w: nat, k: nat, x: nat)
    requires Inv(s) && ConsumerStep(s, ZeroWord(w)) != s
    requires k < PACKETS_MAP_SIZE && x < PAYLOAD_WORDS
    ensures ExpectedWord(ConsumerStep(s, ZeroWord(w)), k, x)
         == if k == s.next && x == w then 0 else ExpectedWord(s, k, x)
  {
    NextSlot(s, k);
    if w == MAGIC_WORD {
      PacketInShift(Freed(s), k);
      assert x != MAGIC_WORD ==> x in s.consumer.zeroed;
    }
  }

  lemma ZeroWordKeepsInv(s: State, w: nat)
    requires Inv(s)
    ensures Inv(ConsumerStep(s, ZeroWord(w)))
  {
    var s' := ConsumerStep(s, ZeroWord(w));
    if s' != s {
      forall k, x | 0 <= k < PACKETS_MAP_SIZE && 0 <= x < PAYLOAD_WORDS
        ensures s'.slots[k][x] == ExpectedWord(s', k, x)
      {
        ZeroWordExpected(s, w, k, x);
        assert s.slots[k][x] == ExpectedWord(s, k, x);
      }
    }
  }

  lemma ReturnKeepsInv(s: State)
    requires Inv(s)
    ensures Inv(ConsumerStep(s, Return))
  {
    var s' := ConsumerStep(s, Return);
    if s' != s {
      assert s'.delivered == s.accepted[..|s'.delivered|];
      IndexWraps(|s.delivered|);
      assert Freed(s') == Freed(s);
      MemoryCarriesOver(s, s');
    }
  }

  lemma UseBufferKeepsInv(s: State, p: Payload)
    requires Inv(s)
    ensures Inv(ConsumerStep(s, UseBuffer(p)))
  {
    MemoryCarriesOver(s, ConsumerStep(s, UseBuffer(p)));
  }

  lemma StepKeepsInv(s: State, a: Action)
    requires Inv(s)
    ensures Inv(Step(s, a))
  {
    match a
    case Receive(packet) => ReceiveKeepsInv(s, packet);
    case CheckSlot => CheckSlotKeepsInv(s);
    case Rewind => RewindKeepsInv(s);
    case CopyWord(w) => CopyWordKeepsInv(s, w);
    case LoadMagic => LoadMagicKeepsInv(s);
    case StoreMagic => StoreMagicKeepsInv(s);
    case Poll => PollKeepsInv(s);
    case ReadWord(w) => ReadWordKeepsInv(s, w);
    case ZeroWord(w) => ZeroWordKeepsInv(s, w);
    case Return => ReturnKeepsInv(s);
    case UseBuffer(p) => UseBufferKeepsInv(s, p);
  }

  lemma {:induction false} RunKeepsInv(s: State, schedule: seq<Action>)
    requires Inv(s)
    ensures Inv(Run(s, schedule))
    decreases |schedule|
  {
    if schedule != [] {
      var n := |schedule| - 1;
      RunKeepsInv(s, schedule[..n]);
      StepKeepsInv(Run(s, schedule[..n]), schedule[n]);
    }
  }

  // ------------------------------------------------------------ main theorems

  /** After every interleaving: what the consumer got is a prefix of what the
      producer put in, word for word and in order; what the producer put in is
      every packet it did not drop; and both indices follow from those counts,
      however many packets were dropped. */
  lemma {:induction false} DeliveredIsPrefixOfAccepted(dest: Payload, schedule: seq<Action>)
    ensures var s := Run(Init(dest), schedule);
      && s.delivered <= s.accepted == Kept(s.handled)
      && s.next == |s.delivered| % PACKETS_MAP_SIZE
      && (s.producer.Idle? ==> s.index == |s.accepted| % PACKETS_MAP_SIZE)
      && (!s.producer.Idle? ==> s.producer.key == |s.accepted| % PACKETS_MAP_SIZE)
      && |s.accepted| <= Freed(s) + PACKETS_MAP_SIZE
  {
    InitInv(dest);
    RunKeepsInv(Init(dest), schedule);
  }

  /** A packet is rejected exactly when all 128 slots are occupied. */
  lemma {:induction false} DroppedExactlyWhenFull(dest: Payload, schedule: seq<Action>)
    requires Run(Init(dest), schedule).producer.Indexed?
    ensures var s := Run(Init(dest), schedule);
      && (Step(s, CheckSlot).producer.Rejecting? <==> |s.accepted| == Freed(s) + PACKETS_MAP_SIZE)
      && (Step(s, CheckSlot).producer.Rejecting? <==>
            forall k :: 0 <= k < PACKETS_MAP_SIZE ==> ValidPayload(s.slots[k]))
  {
    InitInv(dest);
    RunKeepsInv(Init(dest), schedule);
    AllFullExactlyAtCapacity(Run(Init(dest), schedule));
  }

  lemma AllFullExactlyAtCapacity(s: State)
    requires Inv(s) && s.producer.Indexed?
    ensures ValidPayload(s.slots[s.producer.key]) <==> |s.accepted| == Freed(s) + PACKETS_MAP_SIZE
    ensures ValidPayload(s.slots[s.producer.key]) <==>
      forall k :: 0 <= k < PACKETS_MAP_SIZE ==> ValidPayload(s.slots[k])
  {
    KeyFullExactlyAtCapacity(s);
    if ValidPayload(s.slots[s.producer.key]) {
      forall k | 0 <= k < PACKETS_MAP_SIZE
        ensures ValidPayload(s.slots[k])
      {
        SlotFull(s, k);
      }
    }
  }

  /** The busy wait ends exactly when some accepted packet is still to be delivered. */
  lemma {:induction false} BusyWaitEndsExactlyWhenUnread(dest: Payload, schedule: seq<Action>)
    requires Run(Init(dest), schedule).consumer.Polling?
    ensures var s := Run(Init(dest), schedule);
      ValidPayload(s.slots[s.next]) <==> |s.delivered| < |s.accepted|
  {
    var s := Run(Init(dest), schedule);
    InitInv(dest);
    RunKeepsInv(Init(dest), schedule);
    NextSlot(s, s.next);
    SlotFull(s, s.next);
  }

  /** The two sides are never inside the same slot: nothing is read while it is being
      written, and nothing newly written is zeroed. */
  lemma {:induction false} NeverInTheSameSlot(dest: Payload, schedule: seq<Action>)
    ensures var s := Run(Init(dest), schedule);
      (s.producer.Copying? || s.producer.Committing?) && (s.consumer.Reading? || s.consumer.Zeroing?)
      ==> s.producer.key != s.next
  {
    var s := Run(Init(dest), schedule);
    InitInv(dest);
    RunKeepsInv(Init(dest), schedule);
    if (s.producer.Copying? || s.producer.Committing?) && (s.consumer.Reading? || s.consumer.Zeroing?) {
      KeySlot(s, s.producer.key);
      NextSlot(s, s.next);
    }
  }

  // ------------------------------------------------------- the code, in place

  lemma ConsumerStepLeavesProducer(s: State, a: Action)
    requires WellFormed(s) && !ByProducer(a)
    ensures var s' := Step(s, a);
      s'.producer == s.producer && s'.index == s.index && s'.handled == s.handled && s'.accepted == s.accepted
  {
  }

  lemma {:induction false} ConsumerLeavesProducer(s: State, schedule: seq<Action>)
    requires WellFormed(s)
    requires forall a :: a in schedule ==> !ByProducer(a)
    ensures var s' := Run(s, schedule);
      s'.producer == s.producer && s'.index == s.index && s'.handled == s.handled && s'.accepted == s.accepted
    decreases |schedule|
  {
    if schedule != [] {
      var n := |schedule| - 1;
      ConsumerLeavesProducer(s, schedule[..n]);
      ConsumerStepLeavesProducer(Run(s, schedule[..n]), schedule[n]);
    }
  }

  lemma ProducerStepLeavesConsumer(s: State, a: Action)
    requires WellFormed(s) && ByProducer(a)
    ensures var s' := Step(s, a);
      s'.consumer == s.consumer && s'.next == s.next && s'.dest == s.dest && s'.delivered == s.delivered
  {
  }

  lemma {:induction false} ProducerLeavesConsumer(s: State, schedule: seq<Action>)
    requires WellFormed(s)
    requires forall a :: a in schedule ==> ByProducer(a)
    ensures var s' := Run(s, schedule);
      s'.consumer == s.consumer && s'.next == s.next && s'.dest == s.dest && s'.delivered == s.delivered
    decreases |schedule|
  {
    if schedule != [] {
      var n := |schedule| - 1;
      ProducerLeavesConsumer(s, schedule[..n]);
      ProducerStepLeavesConsumer(Run(s, schedule[..n]), schedule[n]);
    }
  }

  lemma StepFreesOrKeeps(s: State, a: Action)
    requires WellFormed(s)
    ensures Freed(s) <= Freed(Step(s, a))
  {
  }

  /** A freed packet stays freed. */
  lemma {:induction false} FreedGrows(s: State, schedule: seq<Action>)
    requires WellFormed(s)
    ensures Freed(s) <= Freed(Run(s, schedule))
    decreases |schedule|
  {
    if schedule != [] {
      var n := |schedule| - 1;
      FreedGrows(s, schedule[..n]);
      StepFreesOrKeeps(Run(s, schedule[..n]), schedule[n]);
    }
  }

  /** The mapped memory, the producer's index, the consumer's registers and the two
      program counters, changed in place one atomic action at a time. */
  class SharedMap {
    const slots: array<Payload>
    var index: nat
    var next: nat
    var dest: Payload
    var producer: Producer
    var consumer: Consumer
    ghost var handled: seq<Handled>
    ghost var accepted: seq<Payload>
    ghost var delivered: seq<Payload>
    ghost const start: Payload        // what the consumer's buffer held at first
    ghost var trace: seq<Action>      // every action so far

    ghost function View(): State
      reads this, slots
    {
      State(slots[..], index, next, dest, producer, consumer, handled, accepted, delivered)
    }

    ghost predicate Valid()
      reads this, slots
    {
      View() == Run(Init(start), trace)
    }

    constructor (dest: Payload)
      ensures fresh(slots)
      ensures View() == Init(dest)
      ensures Valid() && trace == []
    {
      slots := new Payload[PACKETS_MAP_SIZE](_ => ZEROED);
      index, next, this.dest := 0, 0, dest;
      producer, consumer := Idle, Polling;
      handled, accepted, delivered := [], [], [];
      start, trace := dest, [];
      new;
      assert slots[..] == Init(dest).slots;
    }

    method StoreWord(k: nat, w: nat, v: Word)
      requires k < slots.Length && w < PAYLOAD_WORDS
      modifies slots
      ensures slots[..] == WriteWord(old(slots[..]), k, w, v)
    {
      slots[k] := slots[k][w := v];
    }

    method ProducerAction(a: Action)
      requires WellFormed(View())
      modifies this, slots
      ensures trace == old(trace)
      ensures View() == ProducerStep(old(View()), a)
    {
      match producer
      case Idle =>
        if a.Receive? && ValidPayload(a.packet) {
          producer := Indexed(index, a.packet);
          index := (index + 1) % PACKETS_MAP_SIZE;
        }
      case Indexed(key, packet) =>
        if a.CheckSlot? {
          if ValidPayload(slots[key]) {
            producer := Rejecting(key, packet);
          } else {
            producer := Copying(key, packet, {});
          }
        }
      case Rejecting(key, packet) =>
        if a.Rewind? {
          index := key;
          producer := Idle;
          handled := handled + [Handled(packet, false)];
        }
      case Copying(key, packet, copied) =>
        if a.CopyWord? && a.w < PAYLOAD_WORDS && a.w !in copied {
          StoreWord(key, a.w, Masked(packet)[a.w]);
          producer := Copying(key, packet, copied + {a.w});
        } else if a.LoadMagic? && AllBelow(PAYLOAD_WORDS, copied) {
          producer := Committing(key, packet, slots[key][MAGIC_WORD]);
        }
      case Committing(key, packet, loaded) =>
        if a.StoreMagic? {
          StoreWord(key, MAGIC_WORD, loaded | 1);
          producer := Idle;
          handled := handled + [Handled(packet, true)];
          accepted := accepted + [packet];
        }
    }

    method ConsumerAction(a: Action)
      requires WellFormed(View())
      modifies this, slots
      ensures trace == old(trace)
      ensures View() == ConsumerStep(old(View()), a)
    {
      match consumer
      case Polling =>
        if a.Poll? && ValidPayload(slots[next]) {
          consumer := Reading({});
        } else if a.UseBuffer? {
          dest := a.p;
        }
      case Reading(copied) =>
        if a.ReadWord? && a.w < PAYLOAD_WORDS && a.w !in copied {
          dest := dest[a.w := slots[next][a.w]];
          consumer := if AllBelow(PAYLOAD_WORDS, copied + {a.w}) then Zeroing({}) else Reading(copied + {a.w});
        }
      case Zeroing(zeroed) =>
        if a.ZeroWord? && a.w < PAYLOAD_WORDS && a.w !in zeroed && (a.w == MAGIC_WORD ==> AllBelow(MAGIC_WORD, zeroed)) {
          StoreWord(next, a.w, 0);
          consumer := if a.w == MAGIC_WORD then Returning else Zeroing(zeroed + {a.w});
        }
      case Returning =>
        if a.Return? {
          next := (next + 1) % PACKETS_MAP_SIZE;
          consumer := Polling;
          delivered := delivered + [dest];
        }
    }

    method Perform(a: Action)
      requires Valid()
      modifies this, slots
      ensures Valid()
      ensures View() == Step(old(View()), a)
      ensures trace == old(trace) + [a]
      ensures Freed(old(View())) <= Freed(View())
    {
      StepFreesOrKeeps(View(), a);
      if ByProducer(a) {
        ProducerAction(a);
      } else {
        ConsumerAction(a);
      }
      trace := trace + [a];
      assert trace[..|trace| - 1] == old(trace);
    }

    /** Carry out any interleaving. */
    method Execute(schedule: seq<Action>)
      requires Valid()
      modifies this, slots
      ensures Valid()
      ensures View() == Run(old(View()), schedule)
    {
      for i := 0 to |schedule|
        invariant Valid()
        invariant View() == Run(old(View()), schedule[..i])
      {
        Perform(schedule[i]);
        assert schedule[..i + 1][..i] == schedule[..i];
      }
      assert schedule[..|schedule|] == schedule;
    }

    /** The consumer runs for a while. */
    method LetConsumerRun(schedule: seq<Action>)
      requires Valid()
      requires forall a :: a in schedule ==> !ByProducer(a)
      modifies this, slots
      ensures Valid()
      ensures producer == old(producer) && index == old(index)
      ensures handled == old(handled) && accepted == old(accepted)
      ensures Freed(old(View())) <= Freed(View())
    {
      ConsumerLeavesProducer(View(), schedule);
      FreedGrows(View(), schedule);
      Execute(schedule);
    }

    /** The producer runs for a while. */
    method LetProducerRun(schedule: seq<Action>)
      requires Valid()
      requires forall a :: a in schedule ==> ByProducer(a)
      modifies this, slots
      ensures Valid()
      ensures consumer == old(consumer) && next == old(next)
      ensures dest == old(dest) && delivered == old(delivered)
    {
      ProducerLeavesConsumer(View(), schedule);
      Execute(schedule);
    }

    /** Take the next index and look at its slot, which is full exactly when all 128 slots
        are: the packets accepted so far exceed those freed by the time of the check, some
        moment within the call, by 128. */
    method TakeIndex(packet: Payload, before: seq<Action>, after: seq<Action>) returns (full: bool, ghost freed: nat)
      requires Valid() && producer.Idle?
      requires ValidPayload(packet)
      requires forall a :: a in before + after ==> !ByProducer(a)
      modifies this, slots
      ensures Valid()
      ensures old(Freed(View())) <= freed <= Freed(View())
      ensures full <==> |accepted| == freed + PACKETS_MAP_SIZE
      ensures producer == if full then Rejecting(old(index), packet) else Copying(old(index), packet, {})
      ensures index == (old(index) + 1) % PACKETS_MAP_SIZE
      ensures handled == old(handled) && accepted == old(accepted)
    {
      assert forall a :: a in before ==> a in before + after;
      assert forall a :: a in after ==> a in before + after;
      AdvanceIndex(packet);
      LetConsumerRun(before);
      full, freed := LookAtSlot();
      LetConsumerRun(after);
    }

    method AdvanceIndex(packet: Payload)
      requires Valid() && producer.Idle? && ValidPayload(packet)
      modifies this, slots
      ensures Valid()
      ensures producer == Indexed(old(index), packet) && index == (old(index) + 1) % PACKETS_MAP_SIZE
      ensures handled == old(handled) && accepted == old(accepted)
      ensures Freed(old(View())) <= Freed(View())
    {
      Perform(Receive(packet));
    }

    method LookAtSlot() returns (full: bool, ghost freed: nat)
      requires Valid() && producer.Indexed?
      modifies this, slots
      ensures Valid()
      ensures old(Freed(View())) == freed <= Freed(View())
      ensures full <==> |accepted| == freed + PACKETS_MAP_SIZE
      ensures producer == if full then Rejecting(old(producer).key, old(producer).packet)
                          else Copying(old(producer).key, old(producer).packet, {})
      ensures index == old(index) && handled == old(handled) && accepted == old(accepted)
    {
      freed := Freed(View());
      DroppedExactlyWhenFull(start, trace);
      Perform(CheckSlot);
      full := producer.Rejecting?;
    }

    /** `*old_payload = *payload`, with anything the consumer may do after each word. */
    method CopyPacket(meanwhile: nat -> seq<Action>)
      requires Valid() && producer.Copying? && producer.copied == {}
      requires forall i, a :: a in meanwhile(i) ==> !ByProducer(a)
      modifies this, slots
      ensures Valid()
      ensures producer.Copying? && AllBelow(PAYLOAD_WORDS, producer.copied)
      ensures producer.key == old(producer).key && producer.packet == old(producer).packet
      ensures index == old(index) && handled == old(handled) && accepted == old(accepted)
      ensures Freed(old(View())) <= Freed(View())
    {
      for w := 0 to PAYLOAD_WORDS
        invariant Valid()
        invariant producer.Copying? && AllBelow(w, producer.copied)
        invariant forall x :: x in producer.copied ==> x < w
        invariant producer.key == old(producer).key && producer.packet == old(producer).packet
        invariant index == old(index) && handled == old(handled) && accepted == old(accepted)
        invariant Freed(old(View())) <= Freed(View())
      {
        CopyNext(w, meanwhile(w));
      }
    }

    method CopyNext(w: nat, after: seq<Action>)
      requires Valid() && w < PAYLOAD_WORDS
      requires producer.Copying? && AllBelow(w, producer.copied) && forall x :: x in producer.copied ==> x < w
      requires forall a :: a in after ==> !ByProducer(a)
      modifies this, slots
      ensures Valid()
      ensures producer.Copying? && AllBelow(w + 1, producer.copied) && forall x :: x in producer.copied ==> x < w + 1
      ensures producer.key == old(producer).key && producer.packet == old(producer).packet
      ensures index == old(index) && handled == old(handled) && accepted == old(accepted)
      ensures Freed(old(View())) <= Freed(View())
    {
      Perform(CopyWord(w));
      LetConsumerRun(after);
    }

    /** `magic |= 1`, with anything the consumer may do between its load and its store. */
    method Commit(meanwhile: seq<Action>)
      requires Valid() && producer.Copying? && AllBelow(PAYLOAD_WORDS, producer.copied)
      requires forall a :: a in meanwhile ==> !ByProducer(a)
      modifies this, slots
      ensures Valid() && producer.Idle?
      ensures index == old(index)
      ensures handled == old(handled) + [Handled(old(producer).packet, true)]
      ensures accepted == old(accepted) + [old(producer).packet]
      ensures Freed(old(View())) <= Freed(View())
    {
      Perform(LoadMagic);
      LetConsumerRun(meanwhile);
      Perform(StoreMagic);
    }

    /** One whole call, with anything the consumer may do before each access: the
        packet is either stored once and the index moved on by one, or dropped and
        the index left where it was.  It is dropped exactly when, at the check, 128 accepted
        packets were not yet freed; so never if fewer than 128 were when the call began. */
    method AddPacketToMap(packet: Payload, meanwhile: nat -> seq<Action>) returns (status: int, ghost freed: nat)
      requires Valid() && producer.Idle?
      requires ValidPayload(packet)
      requires forall i, a :: a in meanwhile(i) ==> !ByProducer(a)
      modifies this, slots
      ensures Valid() && producer.Idle?
      ensures status == 0 || status == -1
      ensures old(Freed(View())) <= freed <= Freed(View())
      ensures status == -1 <==> old(|accepted|) == freed + PACKETS_MAP_SIZE
      ensures old(|accepted| < Freed(View()) + PACKETS_MAP_SIZE) ==> status == 0
      ensures handled == old(handled) + [Handled(packet, status == 0)]
      ensures accepted == old(accepted) + if status == 0 then [packet] else []
      ensures index == if status == 0 then (old(index) + 1) % PACKETS_MAP_SIZE else old(index)
    {
      var full;
      full, freed := TakeIndex(packet, meanwhile(PAYLOAD_WORDS), meanwhile(PAYLOAD_WORDS + 1));
      if full {
        Perform(Rewind);
        return -1, freed;
      }
      CopyPacket(meanwhile);
      Commit(meanwhile(PAYLOAD_WORDS + 2));
      return 0, freed;
    }

    /** The busy wait, given up after `patience` turns. */
    method WaitForPayload(meanwhile: nat -> seq<Action>, patience: nat) returns (found: bool)
      requires Valid() && consumer.Polling?
      requires forall i, a :: a in meanwhile(i) ==> ByProducer(a)
      modifies this, slots
      ensures Valid()
      ensures consumer == if found then Reading({}) else Polling
      ensures old(|delivered| < |accepted|) && patience > 0 ==> found
      ensures next == old(next) && delivered == old(delivered)
    {
      BusyWaitEndsExactlyWhenUnread(start, trace);
      for turn := 0 to patience
        invariant Valid() && consumer.Polling?
        invariant turn == 0 ==> View() == old(View())
        invariant turn > 0 ==> !old(|delivered| < |accepted|)
        invariant next == old(next) && delivered == old(delivered)
      {
        Perform(Poll);
        LetProducerRun(meanwhile(turn));
        if consumer.Reading? {
          return true;
        }
      }
      return false;
    }

    /** The memcpy out of the slot. */
    method CopyOut(meanwhile: nat -> seq<Action>)
      requires Valid() && consumer == Reading({})
      requires forall i, a :: a in meanwhile(i) ==> ByProducer(a)
      modifies this, slots
      ensures Valid() && consumer == Zeroing({})
      ensures next == old(next) && delivered == old(delivered)
    {
      for w := 0 to PAYLOAD_WORDS
        invariant Valid()
        invariant w < PAYLOAD_WORDS ==> consumer.Reading? && AllBelow(w, consumer.copied)
        invariant w < PAYLOAD_WORDS ==> forall x :: x in consumer.copied ==> x < w
        invariant w == PAYLOAD_WORDS ==> consumer == Zeroing({})
        invariant next == old(next) && delivered == old(delivered)
      {
        ReadNext(w, meanwhile(w));
      }
    }

    method ReadNext(w: nat, after: seq<Action>)
      requires Valid() && w < PAYLOAD_WORDS
      requires consumer.Reading? && AllBelow(w, consumer.copied) && forall x :: x in consumer.copied ==> x < w
      requires forall a :: a in after ==> ByProducer(a)
      modifies this, slots
      ensures Valid()
      ensures w < MAGIC_WORD ==>
        consumer.Reading? && AllBelow(w + 1, consumer.copied) && forall x :: x in consumer.copied ==> x < w + 1
      ensures w == MAGIC_WORD ==> consumer == Zeroing({})
      ensures next == old(next) && delivered == old(delivered)
    {
      assert w < MAGIC_WORD ==> MAGIC_WORD !in consumer.copied + {w};
      Perform(ReadWord(w));
      LetProducerRun(after);
    }

    /** The memset of the slot. */
    method ZeroSlot(meanwhile: nat -> seq<Action>)
      requires Valid() && consumer == Zeroing({})
      requires forall i, a :: a in meanwhile(i) ==> ByProducer(a)
      modifies this, slots
      ensures Valid() && consumer == Returning
      ensures next == old(next) && delivered == old(delivered)
    {
      for w := 0 to PAYLOAD_WORDS
        invariant Valid()
        invariant w < PAYLOAD_WORDS ==> consumer.Zeroing? && AllBelow(w, consumer.zeroed)
        invariant w < PAYLOAD_WORDS ==> forall x :: x in consumer.zeroed ==> x < w
        invariant w == PAYLOAD_WORDS ==> consumer == Returning
        invariant next == old(next) && delivered == old(delivered)
      {
        ZeroNext(w, meanwhile(w));
      }
    }

    method ZeroNext(w: nat, after: seq<Action>)
      requires Valid() && w < PAYLOAD_WORDS
      requires consumer.Zeroing? && AllBelow(w, consumer.zeroed) && forall x :: x in consumer.zeroed ==> x < w
      requires forall a :: a in after ==> ByProducer(a)
      modifies this, slots
      ensures Valid()
      ensures w < MAGIC_WORD ==>
        consumer.Zeroing? && AllBelow(w + 1, consumer.zeroed) && forall x :: x in consumer.zeroed ==> x < w + 1
      ensures w == MAGIC_WORD ==> consumer == Returning
      ensures next == old(next) && delivered == old(delivered)
    {
      Perform(ZeroWord(w));
      LetProducerRun(after);
    }

    /** The end of the call: the index moves on and the buffer holds the oldest unread packet. */
    method HandOver()
      requires Valid() && consumer == Returning
      modifies this, slots
      ensures Valid() && consumer == Polling
      ensures old(|delivered|) < |accepted| && dest == accepted[old(|delivered|)]
      ensures delivered == old(delivered) + [dest]
      ensures next == (old(next) + 1) % PACKETS_MAP_SIZE
    {
      Perform(Return);
      DeliveredIsPrefixOfAccepted(start, trace);
    }

    /** What follows the busy wait. */
    method TakePayload(reading: nat -> seq<Action>, zeroing: nat -> seq<Action>)
      requires Valid() && consumer == Reading({})
      requires forall i, a :: a in reading(i) ==> ByProducer(a)
      requires forall i, a :: a in zeroing(i) ==> ByProducer(a)
      modifies this, slots
      ensures Valid() && consumer == Polling
      ensures old(|delivered|) < |accepted| && dest == accepted[old(|delivered|)]
      ensures delivered == old(delivered) + [dest]
      ensures next == (old(next) + 1) % PACKETS_MAP_SIZE
    {
      CopyOut(reading);
      ZeroSlot(zeroing);
      HandOver();
    }

    /** One whole call of the consumer, with anything the producer may do before each
        access: it returns the oldest unread packet and moves on by one slot. */
    method PollNextPayload(waiting: nat -> seq<Action>, reading: nat -> seq<Action>, zeroing: nat -> seq<Action>,
                           patience: nat)
      returns (found: bool)
      requires Valid() && consumer.Polling?
      requires forall i, a :: a in waiting(i) ==> ByProducer(a)
      requires forall i, a :: a in reading(i) ==> ByProducer(a)
      requires forall i, a :: a in zeroing(i) ==> ByProducer(a)
      modifies this, slots
      ensures Valid() && consumer.Polling?
      ensures old(|delivered| < |accepted|) && patience > 0 ==> found
      ensures found ==> old(|delivered|) < |accepted| && dest == accepted[old(|delivered|)]
      ensures delivered == old(delivered) + if found then [dest] else []
      ensures next == if found then (old(next) + 1) % PACKETS_MAP_SIZE else old(next)
    {
      found := WaitForPayload(waiting, patience);
      if found {
        TakePayload(reading, zeroing);
      }
    }
  }
}
