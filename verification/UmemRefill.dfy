/** When the refill of the fill ring draws INVALID_UMEM_FRAME.

    `handle_receive_packets` counts the free entries of the fill ring and takes that many
    frames off the free stack.  Nothing ties the two numbers together. */
module UmemRefill {

  import opened UmemFrames

  /** Fill entries that the refill under way has still to be given a frame for. */
  function Need(s: State): nat {
    match s.handler
    case Counted(stock) => stock
    case Filling(left) => left
    case _ => 0
  }

  predicate Refilling(s: State) {
    !s.invalid && (s.handler.Counted? || s.handler.Filling?)
  }

  /** The handler stands before the count, with the lock free for it to take. */
  predicate BeforeCount(s: State) {
    !s.invalid && s.handler.Peeked? && s.sender.Away?
  }

  /** There are free frames, but fewer than free fill entries. */
  predicate Short(s: State) {
    0 < |s.free| < s.ringSize - |s.fill|
  }

  /** Frames outside the free stack and the fill ring. */
  function Outside(s: State): int {
    NUM_FRAMES - |s.free| - |s.fill|
  }

  // ------------------------------------------------------ when a refill fails

  /** In every reachable state with packets peeked, the count exceeds the free frames exactly
      when some frame is free and more than NUM_FRAMES - ringSize are neither free nor in the
      fill ring. */
  lemma {:induction false} CountExceedsFreeExactlyWhen(ringSize: nat, schedule: seq<Action>)
    requires ringSize <= NUM_FRAMES
    requires Run(Init(ringSize), schedule).handler.Peeked?
    ensures var s := Run(Init(ringSize), schedule);
      && (NbFree(s, |s.free|) > |s.free| <==> Short(s))
      && (Short(s) <==> s.free != [] && Outside(s) > NUM_FRAMES - ringSize)
  {
    ReachableInv(ringSize, schedule);
    RingSizeIsFixed(Init(ringSize), schedule);
  }

  /** One step of anybody during a refill: what it needs beyond the free frames stays the
      same, and it ends well or badly accordingly. */
  lemma RefillStep(s: State, a: Action)
    requires Inv(s) && Refilling(s)
    ensures var t := Step(s, a);
      && (Refilling(t) ==> Need(t) - |t.free| == Need(s) - |s.free|)
      && (t.invalid ==> Need(s) > |s.free| && t.handler.Filling?)
      && (!t.invalid && !Refilling(t) ==> Need(s) <= |s.free|)
  {
  }

  /** `during` takes the refill from s to its end and no further. */
  predicate RunsRefillFrom(s: State, during: seq<Action>) {
    && (forall n :: 0 <= n < |during| ==> Refilling(Run(s, during[..n])))
    && !Refilling(Run(s, during))
  }

  /** Over every interleaving of a refill with the kernel: it draws INVALID_UMEM_FRAME if and
      only if it set out to stock more entries than there were free frames. */
  lemma {:induction false} RefillFailsExactlyWhenShort(s: State, schedule: seq<Action>)
    requires Inv(s) && Refilling(s)
    requires forall n :: 0 <= n < |schedule| ==> Refilling(Run(s, schedule[..n]))
    ensures var t := Run(s, schedule);
      && (Refilling(t) ==> Need(t) - |t.free| == Need(s) - |s.free|)
      && (!Refilling(t) ==> (t.invalid <==> Need(s) > |s.free|))
      && (t.invalid ==> t.handler.Filling?)
    decreases |schedule|
  {
    if schedule != [] {
      var n := |schedule| - 1;
      var rest := schedule[..n];
      forall m | 0 <= m < n
        ensures Refilling(Run(s, rest[..m]))
      {
        assert rest[..m] == schedule[..m];
      }
      RefillFailsExactlyWhenShort(s, rest);
      assert Refilling(Run(s, schedule[..n]));
      RunKeepsInv(s, rest);
      RefillStep(Run(s, rest), schedule[n]);
    }
  }

  lemma CountingStarts(s: State)
    requires Inv(s) && BeforeCount(s)
    ensures var t := Step(s, CountStock);
      && !t.invalid && t.free == s.free
      && Need(t) == NbFree(s, |s.free|)
      && (Refilling(t) <==> Need(t) > 0)
      && (Need(t) > |t.free| <==> Short(s))
  {
  }

  /** From the peek to the end of the refill, over every run before it and every interleaving
      with it: the refill draws INVALID_UMEM_FRAME if and only if, at the count, some frame
      was free but fewer than there were free fill entries. */
  lemma {:induction false} RefillDrawsInvalidExactlyWhen(ringSize: nat, before: seq<Action>, during: seq<Action>)
    requires ringSize <= NUM_FRAMES
    requires BeforeCount(Run(Init(ringSize), before))
    requires RunsRefillFrom(Step(Run(Init(ringSize), before), CountStock), during)
    ensures var s := Run(Init(ringSize), before);
      && (Run(Step(s, CountStock), during).invalid <==> Short(s))
      && (Short(s) ==> Run(Step(s, CountStock), during).handler.Filling?)
  {
    var s := Run(Init(ringSize), before);
    ReachableInv(ringSize, before);
    CountingStarts(s);
    StepKeepsInv(s, CountStock);
    var t := Step(s, CountStock);
    if during == [] {
      assert Run(t, during) == t;
    } else {
      assert Refilling(Run(t, during[..0]));
      RefillFailsExactlyWhenShort(t, during);
    }
  }

  // -------------------------------------------------------------- lost frames

  /** A frame is lost only by a reply that finds the TX ring full, one frame at a time. */
  lemma LostOnlyWhenTxFull(s: State, a: Action)
    ensures var t := Step(s, a);
      t.lost == s.lost
      || (a.ProcessAndSend? && |s.tx| >= s.ringSize && s.batch != [] && |t.lost| == |s.lost| + 1)
  {
  }

  /** So a run without replies, such as any run of the client, loses none. */
  lemma {:induction false} NothingLostWithoutReplies(s: State, schedule: seq<Action>)
    requires ProcessAndSend !in schedule
    ensures Run(s, schedule).lost == s.lost
    decreases |schedule|
  {
    if schedule != [] {
      var n := |schedule| - 1;
      NothingLostWithoutReplies(s, schedule[..n]);
      LostOnlyWhenTxFull(Run(s, schedule[..n]), schedule[n]);
    }
  }

  /** No run loses more than NUM_FRAMES - ringSize frames: the full TX ring holds the others. */
  lemma {:induction false} LostIsBounded(ringSize: nat, schedule: seq<Action>)
    requires ringSize <= NUM_FRAMES
    ensures |Run(Init(ringSize), schedule).lost| <= NUM_FRAMES - ringSize
    decreases |schedule|
  {
    if schedule != [] {
      var n := |schedule| - 1;
      LostIsBounded(ringSize, schedule[..n]);
      ReachableInv(ringSize, schedule[..n]);
      RingSizeIsFixed(Init(ringSize), schedule[..n]);
      LostOnlyWhenTxFull(Run(Init(ringSize), schedule[..n]), schedule[n]);
    }
  }

  /** Lost and peeked frames are missing from the refill: with more than NUM_FRAMES - ringSize
      of them and some frame free, every refill ends with INVALID_UMEM_FRAME. */
  lemma {:induction false} LostAndPeekedStarveTheRefill(ringSize: nat, before: seq<Action>, during: seq<Action>)
    requires ringSize <= NUM_FRAMES
    requires var s := Run(Init(ringSize), before);
      BeforeCount(s) && s.free != [] && |s.lost| + |s.batch| > NUM_FRAMES - ringSize
    requires RunsRefillFrom(Step(Run(Init(ringSize), before), CountStock), during)
    ensures Run(Step(Run(Init(ringSize), before), CountStock), during).invalid
  {
    RefillDrawsInvalidExactlyWhen(ringSize, before, during);
    ReachableInv(ringSize, before);
    RingSizeIsFixed(Init(ringSize), before);
  }

  // ------------------------------------------- which ring sizes can run short

  /** A refill has drawn INVALID_UMEM_FRAME.  (The sender draws it outside the lock's
      sections of the handler, so never while the handler is filling.) */
  predicate RefillFailed(s: State) {
    s.invalid && s.handler.Filling?
  }

  lemma RunThree(s: State, a: Action, b: Action, c: Action)
    ensures Run(s, [a, b, c]) == Step(Step(Step(s, a), b), c)
  {
    RunOne(s, a);
    assert [a, b, c][..2] == [a, b];
    assert [a, b][..1] == [a];
  }

  function Times(p: seq<Action>, n: nat): seq<Action> {
    if n == 0 then [] else Times(p, n - 1) + p
  }

  lemma TimesOnce(s: State, p: seq<Action>, n: nat)
    requires n > 0
    ensures Run(s, Times(p, n)) == Run(Run(s, Times(p, n - 1)), p)
  {
    RunConcat(s, Times(p, n - 1), p);
  }

  /** Between calls, nothing received, nothing left in the TX and completion rings. */
  predicate Quiet(s: State, free: nat, fill: nat, kernelRx: nat) {
    && !s.invalid && s.handler.Ready? && s.sender.Away? && s.reaped == 0 && s.tx == [] && s.completed == []
    && s.rx == [] && s.held == 0
    && |s.free| == free && |s.fill| == fill && |s.kernelRx| == kernelRx
  }

  /** The client sends a ping; the kernel transmits it but does not complete it yet. */
  const PING := [SendNew, Transmit, PeekCompletions(0)]

  lemma PingSent(s: State, free: nat, fill: nat)
    requires Quiet(s, free + 1, fill, 0) && s.ringSize > 0
    ensures var t := Step(s, SendNew);
      t == s.(free := t.free, tx := t.tx, outstandingTx := s.outstandingTx + 1, sender := Completing)
      && |t.free| == free && |t.tx| == 1
  {
  }

  lemma PingTransmitted(s: State)
    requires !s.invalid && |s.tx| == 1
    ensures var t := Step(s, Transmit); t == s.(tx := [], kernelTx := t.kernelTx)
  {
  }

  lemma NothingCompleted(s: State)
    requires !s.invalid && InCompleteTx(s) && s.reaped == 0
    ensures Step(s, PeekCompletions(0)) == LeaveCompleteTx(s)
  {
  }

  lemma OnePing(s: State, free: nat, fill: nat)
    requires Quiet(s, free + 1, fill, 0) && s.ringSize > 0
    ensures Quiet(Run(s, PING), free, fill, 0)
  {
    PingSent(s, free, fill);
    PingTransmitted(Step(s, SendNew));
    NothingCompleted(Step(Step(s, SendNew), Transmit));
    RunThree(s, SendNew, Transmit, PeekCompletions(0));
  }

  lemma {:induction false} Pings(s: State, n: nat, free: nat, fill: nat)
    requires Quiet(s, free + n, fill, 0) && s.ringSize > 0
    ensures Quiet(Run(s, Times(PING, n)), free, fill, 0)
    decreases n
  {
    if n > 0 {
      Pings(s, n - 1, free + 1, fill);
      RingSizeIsFixed(s, Times(PING, n - 1));
      OnePing(Run(s, Times(PING, n - 1)), free, fill);
      TimesOnce(s, PING, n);
    }
  }

  lemma TakeOne(s: State, free: nat, fill: nat, kernelRx: nat)
    requires Quiet(s, free, fill + 1, kernelRx)
    ensures Quiet(Step(s, TakeFill), free, fill, kernelRx + 1)
    ensures Step(s, TakeFill).outstandingTx == s.outstandingTx
  {
  }

  lemma {:induction false} KernelTakes(s: State, n: nat, free: nat, fill: nat)
    requires Quiet(s, free, fill + n, 0)
    ensures Quiet(Run(s, Times([TakeFill], n)), free, fill, n)
    decreases n
  {
    if n > 0 {
      var t := Run(s, Times([TakeFill], n - 1));
      KernelTakes(s, n - 1, free, fill + 1);
      TakeOne(t, free, fill, n - 1);
      RunOne(t, TakeFill);
      TimesOnce(s, [TakeFill], n);
    }
  }

  const RECEIVE := [Deliver(0), PeekRx(1)]

  /** One packet arrives and is peeked. */
  lemma ReceiveOne(s: State, free: nat, fill: nat, kernelRx: nat)
    requires Quiet(s, free, fill, kernelRx) && kernelRx > 0 && s.ringSize > 0
    ensures var t := Run(s, RECEIVE);
      && BeforeCount(t) && |t.free| == free && |t.fill| == fill && |t.kernelRx| == kernelRx - 1 && |t.batch| == 1
      && t == s.(handler := Peeked, kernelRx := t.kernelRx, batch := t.batch, held := 1)
  {
    Delivered(s);
    PeekedOne(Step(s, Deliver(0)));
    RunOne(s, Deliver(0));
    assert RECEIVE[..1] == [Deliver(0)];
  }

  lemma Delivered(s: State)
    requires !s.invalid && s.kernelRx != [] && s.rx == [] && s.held < s.ringSize
    ensures var t := Step(s, Deliver(0));
      t == s.(kernelRx := t.kernelRx, rx := [s.kernelRx[0]]) && |t.kernelRx| == |s.kernelRx| - 1
  {
  }

  lemma PeekedOne(s: State)
    requires !s.invalid && s.handler.Ready? && |s.rx| == 1
    ensures Step(s, PeekRx(1)) == s.(handler := Peeked, batch := s.rx, rx := [], held := 1)
  {
  }

  /** A run of the client to a short count, for any ring that leaves a frame on the stack: all
      frames but one are pinged away and the kernel holds the whole fill ring. */
  function ShortClientRun(ringSize: nat): seq<Action>
    requires ringSize < NUM_FRAMES
  {
    Times(PING, NUM_FRAMES - ringSize - 1) + Times([TakeFill], ringSize) + RECEIVE
  }

  lemma InitQuiet(ringSize: nat)
    requires ringSize <= NUM_FRAMES
    ensures Quiet(Init(ringSize), NUM_FRAMES - ringSize, ringSize, 0)
  {
  }

  lemma PingedAndTaken(s: State, pings: nat, taken: nat)
    requires Quiet(s, 1 + pings, taken, 0) && s.ringSize > 0
    ensures Quiet(Run(s, Times(PING, pings) + Times([TakeFill], taken)), 1, 0, taken)
  {
    Pings(s, pings, 1, taken);
    KernelTakes(Run(s, Times(PING, pings)), taken, 1, 0);
    RunConcat(s, Times(PING, pings), Times([TakeFill], taken));
  }

  lemma ClientRunsShort(ringSize: nat)
    requires 2 <= ringSize < NUM_FRAMES
    ensures var s := Run(Init(ringSize), ShortClientRun(ringSize));
      BeforeCount(s) && Short(s)
  {
    var init := Init(ringSize);
    var n := NUM_FRAMES - ringSize - 1;
    var p := Times(PING, n) + Times([TakeFill], ringSize);
    InitQuiet(ringSize);
    PingedAndTaken(init, n, ringSize);
    RingSizeIsFixed(init, p);
    ReceiveOne(Run(init, p), 1, 0, ringSize);
    RunConcat(init, p, RECEIVE);
  }

  /** The handling of one packet that finds the stack empty and is not answered. */
  const FREE_IT := [CountStock, ProcessAndFree, ReleaseRx]

  lemma CountedNone(s: State)
    requires Inv(s) && BeforeCount(s) && s.free == []
    ensures Step(s, CountStock) == s.(handler := Processing)
  {
  }

  lemma FreedOne(s: State)
    requires !s.invalid && s.handler.Processing? && |s.batch| == 1 && s.free == []
    ensures Step(s, ProcessAndFree) == s.(batch := [], free := s.batch)
  {
  }

  lemma Released(s: State)
    requires !s.invalid && s.handler.Processing? && s.batch == []
    ensures Step(s, ReleaseRx) == s.(held := 0, handler := Finishing)
  {
  }

  lemma FreeIt(s: State)
    requires Inv(s) && BeforeCount(s) && s.free == [] && |s.batch| == 1
    ensures Run(s, FREE_IT) == s.(batch := [], free := s.batch, held := 0, handler := Finishing)
  {
    CountedNone(s);
    FreedOne(Step(s, CountStock));
    Released(Step(Step(s, CountStock), ProcessAndFree));
    RunThree(s, CountStock, ProcessAndFree, ReleaseRx);
  }

  const FIRST_PACKET := [TakeFill] + RECEIVE
  const FIRST_CALL := FIRST_PACKET + FREE_IT + [PeekCompletions(0)]
  /** With all frames in the fill ring: one packet comes and is freed, then another comes. */
  const SHORT_FULL_RING_RUN := FIRST_CALL + [TakeFill] + RECEIVE

  lemma FirstPacket(s: State, fill: nat)
    requires Quiet(s, 0, fill + 1, 0) && s.ringSize > 0
    ensures var t := Run(s, FIRST_PACKET);
      && BeforeCount(t) && t.free == [] && |t.batch| == 1 && |t.fill| == fill
      && t.rx == [] && t.tx == [] && t.completed == [] && t.reaped == 0 && t.kernelRx == []
  {
    TakeOne(s, 0, fill, 0);
    StepKeepsRingSize(s, TakeFill);
    RunOne(s, TakeFill);
    ReceiveOne(Step(s, TakeFill), 0, fill, 1);
    RunConcat(s, [TakeFill], RECEIVE);
  }

  lemma FirstCall(ringSize: nat)
    requires ringSize == NUM_FRAMES
    ensures Quiet(Run(Init(ringSize), FIRST_CALL), 1, ringSize - 1, 0)
  {
    var init := Init(ringSize);
    InitQuiet(ringSize);
    FirstPacket(init, ringSize - 1);
    var s := Run(init, FIRST_PACKET);
    ReachableInv(ringSize, FIRST_PACKET);
    FreeIt(s);
    RunConcat(init, FIRST_PACKET, FREE_IT);
    var t := Run(s, FREE_IT);
    NothingCompleted(t);
    RunOne(t, PeekCompletions(0));
    RunConcat(init, FIRST_PACKET + FREE_IT, [PeekCompletions(0)]);
  }

  lemma FullRingRunsShort(ringSize: nat)
    requires ringSize == NUM_FRAMES
    ensures var s := Run(Init(ringSize), SHORT_FULL_RING_RUN);
      && BeforeCount(s) && Short(s)
      && s.free != [] && |s.lost| + |s.batch| > NUM_FRAMES - ringSize
  {
    var init := Init(ringSize);
    FirstCall(ringSize);
    var s := Run(init, FIRST_CALL);
    RingSizeIsFixed(init, FIRST_CALL);
    TakeOne(s, 1, ringSize - 2, 0);
    StepKeepsRingSize(s, TakeFill);
    RunOne(s, TakeFill);
    RunConcat(init, FIRST_CALL, [TakeFill]);
    ReceiveOne(Step(s, TakeFill), 1, ringSize - 2, 1);
    RunConcat(init, FIRST_CALL + [TakeFill], RECEIVE);
  }

  // ----------------------------------------------- from a short count onwards

  /** What the handler does next in a refill. */
  function NextOfRefill(s: State): Action
    requires Refilling(s)
  {
    if s.handler.Counted? then ReserveStock else if s.handler.left > 0 then StockOne else SubmitStock
  }

  /** An upper bound on what it still has to do. */
  function ToDo(s: State): nat {
    match s.handler
    case Counted(stock) => stock + 2
    case Filling(left) => left + 1
    case _ => 0
  }

  lemma RefillAdvances(s: State)
    requires Inv(s) && Refilling(s)
    ensures var t := Step(s, NextOfRefill(s)); Refilling(t) ==> ToDo(t) < ToDo(s)
  {
  }

  lemma OneMoreBefore(s: State, a: Action, rest: seq<Action>)
    requires Refilling(s) && RunsRefillFrom(Step(s, a), rest)
    ensures RunsRefillFrom(s, [a] + rest)
  {
    var during := [a] + rest;
    RunOne(s, a);
    forall n | 0 <= n < |during|
      ensures Refilling(Run(s, during[..n]))
    {
      if n == 0 {
        assert Run(s, during[..0]) == s;
      } else {
        assert during[..n] == [a] + rest[..n - 1];
        RunConcat(s, [a], rest[..n - 1]);
      }
    }
    RunConcat(s, [a], rest);
  }

  /** From every state in a refill the handler, left alone, comes to the end of it. */
  lemma {:induction false} RefillCanEnd(s: State) returns (during: seq<Action>)
    requires Inv(s)
    ensures RunsRefillFrom(s, during)
    decreases ToDo(s)
  {
    if Refilling(s) {
      var a := NextOfRefill(s);
      StepKeepsInv(s, a);
      RefillAdvances(s);
      var rest := [];
      if Refilling(Step(s, a)) {
        rest := RefillCanEnd(Step(s, a));
      }
      OneMoreBefore(s, a, rest);
      during := [a] + rest;
    } else {
      during := [];
    }
  }

  /** From every reachable short state the run can go on to a failed refill. */
  lemma ShortRefillFails(ringSize: nat, before: seq<Action>) returns (schedule: seq<Action>)
    requires ringSize <= NUM_FRAMES
    requires BeforeCount(Run(Init(ringSize), before)) && Short(Run(Init(ringSize), before))
    ensures RefillFailed(Run(Init(ringSize), schedule))
  {
    var s := Run(Init(ringSize), before);
    ReachableInv(ringSize, before);
    StepKeepsInv(s, CountStock);
    var during := RefillCanEnd(Step(s, CountStock));
    RefillDrawsInvalidExactlyWhen(ringSize, before, during);
    schedule := before + [CountStock] + during;
    RunOne(s, CountStock);
    RunConcat(Init(ringSize), before, [CountStock]);
    RunConcat(Init(ringSize), before + [CountStock], during);
  }

  /** Starving happens: a run with all frames in the fill ring at first comes to it. */
  lemma StarvingIsReachable(ringSize: nat) returns (before: seq<Action>, during: seq<Action>)
    requires ringSize == NUM_FRAMES
    ensures var s := Run(Init(ringSize), before);
      BeforeCount(s) && s.free != [] && |s.lost| + |s.batch| > NUM_FRAMES - ringSize
    ensures RunsRefillFrom(Step(Run(Init(ringSize), before), CountStock), during)
    ensures Run(Step(Run(Init(ringSize), before), CountStock), during).invalid
  {
    before := SHORT_FULL_RING_RUN;
    FullRingRunsShort(ringSize);
    ReachableInv(ringSize, before);
    StepKeepsInv(Run(Init(ringSize), before), CountStock);
    during := RefillCanEnd(Step(Run(Init(ringSize), before), CountStock));
    LostAndPeekedStarveTheRefill(ringSize, before, during);
  }

  /** With a fill ring of at most one entry a refill never needs more than is free. */
  lemma SmallRingStep(s: State, a: Action)
    requires Inv(s) && s.ringSize <= 1 && Need(s) <= |s.free| && !RefillFailed(s)
    ensures Need(Step(s, a)) <= |Step(s, a).free| && !RefillFailed(Step(s, a))
  {
    if Refilling(s) {
      RefillStep(s, a);
    }
  }

  lemma {:induction false} SmallRingNeverFails(ringSize: nat, schedule: seq<Action>)
    requires ringSize <= 1
    ensures var s := Run(Init(ringSize), schedule);
      Need(s) <= |s.free| && !RefillFailed(s)
    decreases |schedule|
  {
    if schedule != [] {
      var n := |schedule| - 1;
      SmallRingNeverFails(ringSize, schedule[..n]);
      ReachableInv(ringSize, schedule[..n]);
      RingSizeIsFixed(Init(ringSize), schedule[..n]);
      SmallRingStep(Run(Init(ringSize), schedule[..n]), schedule[n]);
    }
  }

  predicate FailsAfter(ringSize: nat, schedule: seq<Action>)
    requires ringSize <= NUM_FRAMES
  {
    RefillFailed(Run(Init(ringSize), schedule))
  }

  lemma SomeShortRun(ringSize: nat) returns (before: seq<Action>)
    requires 2 <= ringSize <= NUM_FRAMES
    ensures BeforeCount(Run(Init(ringSize), before)) && Short(Run(Init(ringSize), before))
  {
    if ringSize == NUM_FRAMES {
      FullRingRunsShort(ringSize);
      before := SHORT_FULL_RING_RUN;
    } else {
      ClientRunsShort(ringSize);
      before := ShortClientRun(ringSize);
    }
  }

  /** Some run's refill draws INVALID_UMEM_FRAME if and only if the rings have two entries or
      more; libxdp's default is 2048. */
  lemma {:induction false} SomeRefillFailsExactlyWhen(ringSize: nat)
    requires ringSize <= NUM_FRAMES
    ensures (exists schedule :: FailsAfter(ringSize, schedule)) <==> ringSize >= 2
  {
    if ringSize >= 2 {
      var before := SomeShortRun(ringSize);
      var schedule := ShortRefillFails(ringSize, before);
      assert FailsAfter(ringSize, schedule);
    } else {
      forall schedule: seq<Action>
        ensures !FailsAfter(ringSize, schedule)
      {
        SmallRingNeverFails(ringSize, schedule);
      }
    }
  }
}
