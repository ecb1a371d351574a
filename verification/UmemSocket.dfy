/** The AF_XDP socket of `xdp/pp_sock.c`, in place, over the rings and the kernel of
    `UmemFrames`. */
module UmemSocket {

  import opened Numbers
  import opened UmemFrames
  import opened UmemCalls

  /** The socket's own fields, changed in place, over the rings, the kernel and the
      program counters, which are `around`. */
  class XskSocket {
    const umemFrameAddr: array<nat>
    var umemFrameFree: nat
    var outstandingTx: nat
    var around: State

    /** Entries above the top of the stack hold INVALID_UMEM_FRAME. */
    ghost predicate StackShape()
      reads this, umemFrameAddr
    {
      && umemFrameAddr.Length == NUM_FRAMES
      && umemFrameFree <= NUM_FRAMES
      && forall i :: umemFrameFree <= i < NUM_FRAMES ==> umemFrameAddr[i] == INVALID_UMEM_FRAME
    }

    ghost function View(): State
      requires StackShape()
      reads this, umemFrameAddr
    {
      around.(free := umemFrameAddr[..umemFrameFree], outstandingTx := outstandingTx)
    }

    ghost predicate Valid()
      reads this, umemFrameAddr
    {
      StackShape() && Inv(View())
    }

    method AllocUmemFrame() returns (frame: nat)
      requires StackShape()
      modifies this`umemFrameFree, umemFrameAddr
      ensures StackShape()
      ensures old(umemFrameFree) == 0 ==> frame == INVALID_UMEM_FRAME && umemFrameFree == 0
      ensures old(umemFrameFree) > 0 ==>
        && umemFrameFree == old(umemFrameFree) - 1
        && frame == old(umemFrameAddr[umemFrameFree - 1])
        && umemFrameAddr[..umemFrameFree] == old(umemFrameAddr[..umemFrameFree - 1])
    {
      if umemFrameFree == 0 {
        return INVALID_UMEM_FRAME;
      }
      umemFrameFree := umemFrameFree - 1;
      frame := umemFrameAddr[umemFrameFree];
      umemFrameAddr[umemFrameFree] := INVALID_UMEM_FRAME;
    }

    method FreeUmemFrame(frame: Frame)
      requires StackShape() && umemFrameFree < NUM_FRAMES
      modifies this`umemFrameFree, umemFrameAddr
      ensures StackShape()
      ensures umemFrameAddr[..umemFrameFree] == old(umemFrameAddr[..umemFrameFree]) + [frame]
    {
      umemFrameAddr[umemFrameFree] := frame;
      umemFrameFree := umemFrameFree + 1;
    }

    /** Frames 0..4095 go on the stack, then one ring's worth moves to the fill ring. */
    constructor (ringSize: nat)
      requires ringSize <= NUM_FRAMES
      ensures fresh(umemFrameAddr)
      ensures umemFrameFree == NUM_FRAMES - ringSize && outstandingTx == 0
      ensures StackShape() && forall i :: 0 <= i < umemFrameFree ==> umemFrameAddr[i] == i
      ensures |around.fill| == ringSize && forall k :: 0 <= k < ringSize ==> around.fill[k] == NUM_FRAMES - 1 - k
      ensures View() == Init(ringSize)
      ensures Valid()
    {
      umemFrameAddr := new nat[NUM_FRAMES](i => i);
      umemFrameFree, outstandingTx := NUM_FRAMES, 0;
      around := Init(ringSize).(fill := []);
      new;
      AscendingIsIdentity(NUM_FRAMES);
      StuffFillRing(ringSize);
      InitInv(ringSize);
      AscendingIsIdentity(umemFrameFree);
      DescendingFromTheTop(NUM_FRAMES, ringSize);
    }

    method StuffFillRing(ringSize: nat)
      requires ringSize <= NUM_FRAMES
      requires StackShape() && umemFrameAddr[..umemFrameFree] == Ascending(NUM_FRAMES)
      requires around.fill == []
      modifies this`around, this`umemFrameFree, umemFrameAddr
      ensures StackShape() && umemFrameAddr[..umemFrameFree] == Ascending(NUM_FRAMES - ringSize)
      ensures around == old(around).(fill := Descending(NUM_FRAMES, ringSize))
    {
      for i := 0 to ringSize
        invariant StackShape() && umemFrameFree == NUM_FRAMES - i
        invariant umemFrameAddr[..umemFrameFree] == Ascending(umemFrameFree)
        invariant around == old(around).(fill := Descending(NUM_FRAMES, i))
      {
        AscendingIsIdentity(umemFrameFree);
        var frame := AllocUmemFrame();
        assert frame == NUM_FRAMES - (i + 1);
        assert Ascending(umemFrameFree + 1)[..umemFrameFree] == Ascending(umemFrameFree);
        around := around.(fill := around.fill + [frame]);
      }
    }

    method KernelMove(a: Action)
      requires Valid() && ByKernel(a)
      modifies this`around
      ensures SameApplication(old(around), around)
      ensures StackShape() && View() == Step(old(View()), a)
      ensures Valid()
    {
      StepKeepsInv(View(), a);
      KernelIgnoresSocket(around, a, umemFrameAddr[..umemFrameFree], outstandingTx);
      if !around.invalid {
        around := KernelStep(around, a);
      }
    }

    /** The kernel runs for a while. */
    method LetKernelRun(schedule: seq<Action>)
      requires Valid()
      requires forall a :: a in schedule ==> ByKernel(a)
      modifies this`around
      ensures SameApplication(old(around), around)
      ensures Valid() && View() == Run(old(View()), schedule)
    {
      for i := 0 to |schedule|
        invariant Valid() && View() == Run(old(View()), schedule[..i])
        invariant SameApplication(old(around), around)
      {
        assert schedule[..i + 1][..i] == schedule[..i];
        KernelMove(schedule[i]);
      }
      assert schedule[..|schedule|] == schedule;
    }

    /** Ring operations that leave the socket's own fields alone. */
    method RingOperation(a: Action)
      requires Valid() && !around.invalid
      requires a.PeekRx? || a.ReserveStock? || a.SubmitStock? || a.ReleaseRx?
      modifies this`around
      ensures around == HandlerStep(old(around), a)
      ensures StackShape() && View() == Step(old(View()), a)
      ensures Valid()
    {
      StepKeepsInv(View(), a);
      RingsIgnoreSocket(around, a, umemFrameAddr[..umemFrameFree], outstandingTx);
      assert View() == around.(free := umemFrameAddr[..umemFrameFree], outstandingTx := outstandingTx);
      around := HandlerStep(around, a);
    }

    method PeekBatch(n: nat) returns (rcvd: nat)
      requires Valid() && !around.invalid && around.handler.Ready?
      modifies this`around
      ensures rcvd == Min(Min(n, RX_BATCH_SIZE), old(|around.rx|))
      ensures around.handler == if rcvd > 0 then Peeked else Ready
      ensures rcvd > 0 ==>
        around == old(around).(handler := Peeked, batch := old(around.rx)[..rcvd], rx := old(around.rx)[rcvd..], held := rcvd)
      ensures Valid() && View() == Step(old(View()), PeekRx(n))
    {
      rcvd := Min(Min(n, RX_BATCH_SIZE), |around.rx|);
      RingOperation(PeekRx(n));
    }

    method ReleaseBatch()
      requires Valid() && !around.invalid && around.handler.Processing? && around.batch == []
      modifies this`around
      ensures around.handler == Finishing && around.sender == old(around.sender)
      ensures around.reaped == old(around.reaped) && !around.invalid
      ensures Valid() && View() == Step(old(View()), ReleaseRx)
    {
      RingOperation(ReleaseRx);
    }

    /** One turn of the loop that hands free frames to the fill ring. */
    method StockFrame()
      requires Valid() && !around.invalid && around.handler.Filling? && around.handler.left > 0
      modifies this`around, this`umemFrameFree, umemFrameAddr
      ensures around.invalid <==> old(umemFrameFree) == 0
      ensures !around.invalid ==> umemFrameFree == old(umemFrameFree) - 1
      ensures !around.invalid ==> around.handler == Filling(old(around.handler).left - 1)
      ensures around.sender == old(around.sender) && around.batch == old(around.batch)
      ensures StackShape() && View() == Step(old(View()), StockOne)
      ensures Valid()
    {
      StepKeepsInv(View(), StockOne);
      var empty := umemFrameFree == 0;
      var frame := AllocUmemFrame();
      if empty {
        around := around.(invalid := true);
      } else {
        around := around.(staged := around.staged + [frame], handler := Filling(around.handler.left - 1));
      }
    }

    method StockFrameAfter(kernel: seq<Action>)
      requires Valid() && !around.invalid && around.handler.Filling? && around.handler.left > 0
      requires forall a :: a in kernel ==> ByKernel(a)
      modifies this`around, this`umemFrameFree, umemFrameAddr
      ensures Valid() && View() == Step(Run(old(View()), kernel), StockOne)
    {
      LetKernelRun(kernel);
      StockFrame();
    }

    method CountFillEntries() returns (stock: nat)
      requires Valid() && !around.invalid && around.handler.Peeked? && around.sender.Away?
      modifies this`around
      ensures stock == NbFree(old(View()), umemFrameFree)
      ensures around.handler == if stock > 0 then Counted(stock) else Processing
      ensures around.sender == old(around.sender) && around.batch == old(around.batch) && !around.invalid
      ensures StackShape() && View() == Step(old(View()), CountStock)
      ensures Valid()
    {
      StepKeepsInv(View(), CountStock);
      stock := NbFree(around, umemFrameFree);
      around := around.(fillSeen := stock, handler := if stock > 0 then Counted(stock) else Processing);
    }

    /** The refill, from the count of free fill entries to the submit, with anything the
        kernel may do in between.  It draws INVALID_UMEM_FRAME exactly when some frame is
        free, but fewer than there are free fill entries. */
    method Refill(meanwhile: Meanwhile) returns (stock: nat)
      requires Valid() && !around.invalid && around.handler.Peeked? && around.sender.Away?
      requires KernelOnly(meanwhile)
      modifies this`around, this`umemFrameFree, umemFrameAddr
      ensures stock == if old(umemFrameFree) == 0 then 0 else old(around.ringSize - |around.fill|)
      ensures around.invalid <==> 0 < old(umemFrameFree) < old(around.ringSize - |around.fill|)
      ensures around.sender == old(around.sender) && around.batch == old(around.batch)
      ensures Valid() && View() == Run(old(View()), RefillCall(stock, old(umemFrameFree), meanwhile))
      ensures !around.invalid ==> Refilled(old(View()), View(), stock)
    {
      ghost var before := View();
      stock := RefillInSteps(meanwhile);
      if !around.invalid {
        RefillGives(before, View(), stock, |before.free|, meanwhile);
      }
    }

    method RefillInSteps(meanwhile: Meanwhile) returns (stock: nat)
      requires Valid() && !around.invalid && around.handler.Peeked? && around.sender.Away?
      requires KernelOnly(meanwhile)
      modifies this`around, this`umemFrameFree, umemFrameAddr
      ensures stock == if old(umemFrameFree) == 0 then 0 else old(around.ringSize - |around.fill|)
      ensures around.invalid <==> 0 < old(umemFrameFree) < old(around.ringSize - |around.fill|)
      ensures around.sender == old(around.sender) && around.batch == old(around.batch)
      ensures Valid() && View() == Run(old(View()), RefillCall(stock, old(umemFrameFree), meanwhile))
    {
      ghost var before, free := View(), umemFrameFree;
      stock := CountFillEntries();
      RefillCallInSteps(before, stock, free, meanwhile);
      if stock > 0 {
        StockFillRing(stock, meanwhile);
      }
    }

    method StockFillRing(stock: nat, meanwhile: Meanwhile)
      requires Valid() && !around.invalid && around.handler == Counted(stock)
      requires KernelOnly(meanwhile)
      modifies this`around, this`umemFrameFree, umemFrameAddr
      ensures around.invalid <==> stock > old(umemFrameFree)
      ensures around.sender == old(around.sender) && around.batch == old(around.batch)
      ensures Valid() && View() == Run(old(View()), StockingCall(stock, old(umemFrameFree), meanwhile))
    {
      ghost var before, free := View(), umemFrameFree;
      StockingCallInSteps(before, stock, free, meanwhile);
      ReserveEntriesAfter(meanwhile(BeforeReserve));
      var turns := FillReserved(stock, meanwhile);
      if !around.invalid {
        SubmitEntriesAfter(meanwhile(BeforeSubmit));
      }
    }

    /** The reserve takes all the entries counted, at the first attempt. */
    method ReserveEntriesAfter(kernel: seq<Action>)
      requires Valid() && !around.invalid && around.handler.Counted?
      requires forall a :: a in kernel ==> ByKernel(a)
      modifies this`around
      ensures around.handler == Filling(old(around.handler).stock)
      ensures around.sender == old(around.sender) && around.batch == old(around.batch) && !around.invalid
      ensures Valid() && View() == Run(old(View()), kernel + [ReserveStock])
    {
      ghost var before := View();
      LetKernelRun(kernel);
      RingOperation(ReserveStock);
      RunSnoc(before, kernel, ReserveStock);
    }

    method SubmitEntriesAfter(kernel: seq<Action>)
      requires Valid() && !around.invalid && around.handler == Filling(0)
      requires forall a :: a in kernel ==> ByKernel(a)
      modifies this`around
      ensures around.handler == Processing
      ensures around.sender == old(around.sender) && around.batch == old(around.batch) && !around.invalid
      ensures Valid() && View() == Run(old(View()), kernel + [SubmitStock])
    {
      ghost var before := View();
      LetKernelRun(kernel);
      RingOperation(SubmitStock);
      RunSnoc(before, kernel, SubmitStock);
    }

    method FillReserved(stock: nat, meanwhile: Meanwhile) returns (turns: nat)
      requires Valid() && !around.invalid && around.handler == Filling(stock)
      requires KernelOnly(meanwhile)
      modifies this`around, this`umemFrameFree, umemFrameAddr
      ensures turns == if old(umemFrameFree) < stock then old(umemFrameFree) + 1 else stock
      ensures around.invalid <==> old(umemFrameFree) < stock
      ensures !around.invalid ==> around.handler == Filling(0)
      ensures around.sender == old(around.sender) && around.batch == old(around.batch)
      ensures Valid() && View() == Run(old(View()), StockCall(turns, meanwhile))
    {
      ghost var before := View();
      turns := 0;
      while turns < stock && !around.invalid
        invariant Valid() && View() == Run(before, StockCall(turns, meanwhile))
        invariant StockedSoFar(before, View(), turns)
        decreases stock - turns
      {
        ghost var v := View();
        StockFrameAfter(meanwhile(BeforeStock(turns)));
        StockCallLast(before, turns + 1, meanwhile);
        StockedOnce(before, v, meanwhile(BeforeStock(turns)), turns);
        turns := turns + 1;
      }
    }

    /** A packet that is not sent back: its frame is free again. */
    method FreeProcessed()
      requires Valid() && !around.invalid && around.handler.Processing? && around.batch != []
      modifies this`around, this`umemFrameFree, umemFrameAddr
      ensures !around.invalid && |around.batch| == old(|around.batch|) - 1
      ensures around.handler == old(around.handler) && around.sender == old(around.sender)
      ensures StackShape() && View() == Step(old(View()), ProcessAndFree)
      ensures Valid()
    {
      StepKeepsInv(View(), ProcessAndFree);
      FreeUmemFrame(around.batch[0]);
      around := around.(batch := around.batch[1..]);
    }

    /** A packet that is sent back: its frame is queued, or lost if the TX ring is full. */
    method SendProcessed()
      requires Valid() && !around.invalid && around.handler.Processing? && around.batch != []
      modifies this`around, this`outstandingTx
      ensures !around.invalid && |around.batch| == old(|around.batch|) - 1
      ensures around.handler == old(around.handler) && around.sender == old(around.sender)
      ensures StackShape() && View() == Step(old(View()), ProcessAndSend)
      ensures Valid()
    {
      StepKeepsInv(View(), ProcessAndSend);
      var frame := around.batch[0];
      if |around.tx| < around.ringSize {
        around := around.(batch := around.batch[1..], tx := around.tx + [frame]);
        outstandingTx := outstandingTx + 1;
      } else {
        around := around.(batch := around.batch[1..], lost := around.lost + [frame]);
      }
    }

    /** What `process_packet` and its caller do to the frame. */
    method ProcessPacket(sendBack: bool)
      requires Valid() && !around.invalid && around.handler.Processing? && around.batch != []
      modifies this, umemFrameAddr
      ensures !around.invalid && |around.batch| == old(|around.batch|) - 1
      ensures around.handler == old(around.handler) && around.sender == old(around.sender)
      ensures StackShape() && View() == Step(old(View()), PacketAction(sendBack))
      ensures OnePacket(old(View()), View(), sendBack)
      ensures Valid()
    {
      PacketComesTo(View(), sendBack);
      if sendBack {
        SendProcessed();
      } else {
        FreeProcessed();
      }
    }

    method PeekCompleted(n: nat)
      requires Valid() && !around.invalid && InCompleteTx(around) && around.reaped == 0
      modifies this`around
      ensures around.reaped == if old(outstandingTx) == 0 then 0 else Min(n, old(|around.completed|))
      ensures around.reaped > 0 ==> around.handler == old(around.handler) && around.sender == old(around.sender)
      ensures around.reaped == 0 ==> Left(old(around), around)
      ensures |around.reaping| == around.reaped && around.batch == old(around.batch) && !around.invalid
      ensures InCompleteTx(around) <==> around.reaped > 0
      ensures StackShape() && View() == Step(old(View()), PeekCompletions(n))
      ensures Valid()
    {
      StepKeepsInv(View(), PeekCompletions(n));
      var k := Min(n, |around.completed|);
      if outstandingTx == 0 || k == 0 {
        around := LeaveCompleteTx(around);
      } else {
        around := around.(reaping := around.completed[..k], completed := around.completed[k..], reaped := k);
      }
    }

    method FreeCompleted()
      requires Valid() && !around.invalid && InCompleteTx(around) && around.reaping != []
      modifies this`around, this`umemFrameFree, umemFrameAddr
      ensures |around.reaping| == old(|around.reaping|) - 1 && around.reaped == old(around.reaped)
      ensures around.handler == old(around.handler) && around.sender == old(around.sender)
      ensures around.batch == old(around.batch) && !around.invalid
      ensures umemFrameFree == old(umemFrameFree) + 1
      ensures StackShape() && View() == Step(old(View()), FreeOne)
      ensures Valid()
    {
      StepKeepsInv(View(), FreeOne);
      FreeUmemFrame(around.reaping[0]);
      around := around.(reaping := around.reaping[1..]);
    }

    method ReleaseCompleted()
      requires Valid() && !around.invalid && InCompleteTx(around) && around.reaping == [] && around.reaped > 0
      modifies this`around, this`outstandingTx
      ensures outstandingTx == old(outstandingTx) - old(around.reaped)
      ensures !InCompleteTx(around) && around.batch == old(around.batch) && !around.invalid
      ensures Left(old(around), around)
      ensures StackShape() && View() == Step(old(View()), ReleaseCompletions)
      ensures Valid()
    {
      StepKeepsInv(View(), ReleaseCompletions);
      outstandingTx := SaturatingSub(outstandingTx, around.reaped);
      around := LeaveCompleteTx(around.(reaped := 0));
    }

    /** `complete_tx`, with anything the kernel may do in between: the completions it saw go
        back on the free stack, and outstanding_tx goes down by exactly their number. */
    method CompleteTx(n: nat, meanwhile: Meanwhile) returns (freed: nat)
      requires Valid() && !around.invalid && InCompleteTx(around) && around.reaped == 0
      requires KernelOnly(meanwhile)
      modifies this`around, this`umemFrameFree, this`outstandingTx, umemFrameAddr
      ensures !around.invalid && !InCompleteTx(around)
      ensures freed == if old(outstandingTx) == 0 then 0 else Min(n, old(|around.completed|))
      ensures Left(old(around), around)
      ensures umemFrameFree == old(umemFrameFree) + freed
      ensures outstandingTx == old(outstandingTx) - freed
      ensures Valid() && View() == Run(old(View()), CompleteCall(n, freed, meanwhile))
      ensures Completed(old(View()), View(), freed)
    {
      ghost var before := View();
      CompleteGives(before, n, meanwhile);
      PeekCompleted(n);
      freed := around.reaped;
      CompleteCallInSteps(before, n, freed, meanwhile);
      if freed > 0 {
        FreeReaped(meanwhile);
        LetKernelRun(meanwhile(BeforeReleaseCompletions));
        ReleaseCompleted();
      }
    }

    method FreeCompletedAfter(kernel: seq<Action>)
      requires Valid() && !around.invalid && InCompleteTx(around) && around.reaping != []
      requires forall a :: a in kernel ==> ByKernel(a)
      modifies this`around, this`umemFrameFree, umemFrameAddr
      ensures |around.reaping| == old(|around.reaping|) - 1 && around.reaped == old(around.reaped)
      ensures around.handler == old(around.handler) && around.sender == old(around.sender) && !around.invalid
      ensures umemFrameFree == old(umemFrameFree) + 1
      ensures Valid() && View() == Step(Run(old(View()), kernel), FreeOne)
    {
      LetKernelRun(kernel);
      FreeCompleted();
    }

    method FreeReaped(meanwhile: Meanwhile)
      requires Valid() && !around.invalid && InCompleteTx(around)
      requires KernelOnly(meanwhile)
      modifies this`around, this`umemFrameFree, umemFrameAddr
      ensures !around.invalid
      ensures around.reaping == [] && around.reaped == old(around.reaped)
      ensures around.sender == old(around.sender) && around.handler == old(around.handler)
      ensures umemFrameFree == old(umemFrameFree) + old(|around.reaping|)
      ensures Valid() && View() == Run(old(View()), FreeCall(old(|around.reaping|), meanwhile))
    {
      ghost var before := View();
      var n := |around.reaping|;
      for i := 0 to n
        invariant Valid() && View() == Run(before, FreeCall(i, meanwhile))
        invariant |around.reaping| == n - i && around.reaped == old(around.reaped) && !around.invalid
        invariant around.sender == old(around.sender) && around.handler == old(around.handler)
        invariant umemFrameFree == old(umemFrameFree) + i
      {
        FreeCompletedAfter(meanwhile(BeforeFree(i)));
        FreeCallLast(before, i + 1, meanwhile);
      }
    }

    /** The client's `xsk_send_packet`: no TX entry, or no free frame, or the frame on top of
        the stack is submitted and complete_tx done. */
    method SendPacket(n: nat, meanwhile: Meanwhile) returns (status: int, ghost submitted: State, freed: nat)
      requires Valid() && !around.invalid && !Locked(around)
      requires KernelOnly(meanwhile)
      modifies this, umemFrameAddr
      ensures status == if old(|around.tx| < around.ringSize) then 0 else -1
      ensures status == -1 ==> StackShape() && View() == old(View())
      ensures around.invalid <==> status == 0 && old(umemFrameFree) == 0
      ensures status == 0 && !around.invalid ==>
        && submitted == old(View()).(free := old(umemFrameAddr[..umemFrameFree - 1]),
                                     tx := old(around.tx) + [old(umemFrameAddr[umemFrameFree - 1])],
                                     outstandingTx := old(outstandingTx) + 1, sender := Completing)
        && StackShape()
        && View() == Run(submitted, meanwhile(BeforeCompleteTx) + CompleteCall(n, freed, meanwhile))
        && outstandingTx == old(outstandingTx) + 1 - freed
        && umemFrameFree == old(umemFrameFree) - 1 + freed
        && !Locked(around)
      ensures Valid()
    {
      freed := 0;
      submitted := View();
      if |around.tx| >= around.ringSize {
        return -1, submitted, freed;
      }
      SubmitNew();
      submitted := View();
      if !around.invalid {
        LetKernelRun(meanwhile(BeforeCompleteTx));
        freed := CompleteTx(n, meanwhile);
        RunConcat(submitted, meanwhile(BeforeCompleteTx), CompleteCall(n, freed, meanwhile));
      }
      return 0, submitted, freed;
    }

    method SubmitNew()
      requires Valid() && !around.invalid && !Locked(around) && |around.tx| < around.ringSize
      modifies this, umemFrameAddr
      ensures around.invalid <==> old(umemFrameFree) == 0
      ensures !around.invalid ==>
        && around == old(around).(tx := old(around.tx) + [old(umemFrameAddr[umemFrameFree - 1])], sender := Completing)
        && umemFrameFree == old(umemFrameFree) - 1
        && umemFrameAddr[..umemFrameFree] == old(umemFrameAddr[..umemFrameFree - 1])
        && outstandingTx == old(outstandingTx) + 1
      ensures around.handler == old(around.handler) && around.batch == old(around.batch)
      ensures StackShape() && View() == Step(old(View()), SendNew)
      ensures Valid()
    {
      StepKeepsInv(View(), SendNew);
      var empty := umemFrameFree == 0;
      var frame := AllocUmemFrame();
      if empty {
        around := around.(invalid := true);
      } else {
        around := around.(tx := around.tx + [frame], sender := Completing);
        outstandingTx := outstandingTx + 1;
      }
    }

    method ProcessPacketAfter(kernel: seq<Action>, sendBack: bool)
      requires Valid() && !around.invalid && around.handler.Processing? && around.batch != []
      requires forall a :: a in kernel ==> ByKernel(a)
      modifies this, umemFrameAddr
      ensures !around.invalid && |around.batch| == old(|around.batch|) - 1
      ensures around.handler == old(around.handler) && around.sender == old(around.sender)
      ensures Valid() && View() == Step(Run(old(View()), kernel), PacketAction(sendBack))
    {
      LetKernelRun(kernel);
      ProcessPacket(sendBack);
    }

    method ProcessBatch(sendBack: nat -> bool, meanwhile: Meanwhile)
      requires Valid() && !around.invalid && around.handler.Processing?
      requires KernelOnly(meanwhile)
      modifies this, umemFrameAddr
      ensures !around.invalid && around.handler.Processing? && around.batch == []
      ensures around.sender == old(around.sender)
      ensures Valid() && View() == Run(old(View()), ProcessCall(old(|around.batch|), sendBack, meanwhile))
    {
      ghost var before := View();
      var n := |around.batch|;
      for i := 0 to n
        invariant Valid() && View() == Run(before, ProcessCall(i, sendBack, meanwhile))
        invariant !around.invalid && around.handler.Processing?
        invariant |around.batch| == n - i
        invariant around.sender == old(around.sender)
      {
        ProcessPacketAfter(meanwhile(BeforeProcess(i)), sendBack(i));
        ProcessCallLast(before, i + 1, sendBack, meanwhile);
      }
    }

    /** One step of the sender thread, while the handler has not taken the lock. */
    method SenderMove(a: Action)
      requires Valid() && InCompletion(a) && (around.handler.Ready? || around.handler.Peeked?)
      modifies this, umemFrameAddr
      ensures around.handler == old(around.handler) && around.batch == old(around.batch)
      ensures Valid() && View() == Step(old(View()), a)
    {
      ghost var before := View();
      if around.invalid || !CompletionEnabled(around, a) {
        DisabledDoesNothing(before, a);
        return;
      }
      match a
      case SendNew => SubmitNew();
      case PeekCompletions(n) => PeekCompleted(n);
      case FreeOne => FreeCompleted();
      case ReleaseCompletions => ReleaseCompleted();
    }

    /** The kernel and the sender thread run for a while, and the handler does not. */
    method LetOthersRun(schedule: seq<Action>)
      requires Valid() && (around.handler.Ready? || around.handler.Peeked?)
      requires forall a :: a in schedule ==> ByKernel(a) || InCompletion(a)
      modifies this, umemFrameAddr
      ensures around.handler == old(around.handler) && around.batch == old(around.batch)
      ensures Valid() && View() == Run(old(View()), schedule)
    {
      for i := 0 to |schedule|
        invariant Valid() && View() == Run(old(View()), schedule[..i])
        invariant around.handler == old(around.handler) && around.batch == old(around.batch)
      {
        assert schedule[..i + 1][..i] == schedule[..i];
        if ByKernel(schedule[i]) {
          KernelMove(schedule[i]);
        } else {
          SenderMove(schedule[i]);
        }
      }
      assert schedule[..|schedule|] == schedule;
    }

    /** The handler from the lock to the unlock: refill, process the batch, release it,
        complete_tx. */
    method HandleLocked(seen: nat, sendBack: nat -> bool, meanwhile: Meanwhile)
      returns (stock: nat, freed: nat, ghost j: Journal, ghost fates: seq<Fate>)
      requires Valid() && !around.invalid && around.handler.Peeked? && around.sender.Away?
      requires KernelOnly(meanwhile)
      modifies this, umemFrameAddr
      ensures around.invalid <==> 0 < old(umemFrameFree) < old(around.ringSize - |around.fill|)
      ensures Valid()
      ensures View() == Run(old(View()),
        LockedCall(stock, old(umemFrameFree), old(|around.batch|), seen, freed, sendBack, meanwhile))
      ensures !around.invalid ==> CallComesTo(old(View()), View(), j, fates, sendBack) && |j.reaped| == freed
    {
      ghost var before := View();
      j, fates := NOTHING, [];
      stock, freed := HandleInSteps(seen, sendBack, meanwhile);
      if !around.invalid {
        ghost var n;
        n, j, fates := LockedCallComesTo(before, seen, sendBack, meanwhile);
      }
    }

    method HandleInSteps(seen: nat, sendBack: nat -> bool, meanwhile: Meanwhile) returns (stock: nat, freed: nat)
      requires Valid() && !around.invalid && around.handler.Peeked? && around.sender.Away?
      requires KernelOnly(meanwhile)
      modifies this, umemFrameAddr
      ensures around.invalid <==> 0 < old(umemFrameFree) < old(around.ringSize - |around.fill|)
      ensures !around.invalid ==> stock == StockOf(old(View()))
      ensures !around.invalid ==>
        freed == CompletionsSeen(BeforeComplete(old(View()), stock, old(umemFrameFree), old(|around.batch|), sendBack, meanwhile), seen)
      ensures Valid()
      ensures View() == Run(old(View()),
        LockedCall(stock, old(umemFrameFree), old(|around.batch|), seen, freed, sendBack, meanwhile))
    {
      ghost var before, free := View(), umemFrameFree;
      ghost var rcvd := |around.batch|;
      freed := 0;
      stock := Refill(meanwhile);
      if around.invalid {
        return;
      }
      ProcessBatch(sendBack, meanwhile);
      LetKernelRun(meanwhile(BeforeReleaseRx));
      ReleaseBatch();
      LetKernelRun(meanwhile(BeforeCompleteTx));
      assert View() == BeforeComplete(before, stock, free, rcvd, sendBack, meanwhile);
      freed := CompleteTx(seen, meanwhile);
      LockedCallInSteps(before, stock, free, rcvd, seen, freed, sendBack, meanwhile);
    }

    /** `handle_receive_packets`.  Between the peek and the lock, in `gap`, the kernel and the
        sender thread may do anything; whether the refill draws INVALID_UMEM_FRAME depends on
        the state `atCount` they leave.  The call gets no further if the sender still holds
        the lock then, or has itself drawn the invalid frame. */
    method HandleReceivePackets(n: nat, gap: seq<Action>, sendBack: nat -> bool, seen: nat, meanwhile: Meanwhile)
      returns (rcvd: nat, ghost atCount: State, ghost j: Journal, ghost fates: seq<Fate>)
      requires Valid() && !around.invalid && around.handler.Ready?
      requires forall a :: a in gap ==> ByKernel(a) || InCompletion(a)
      requires KernelOnly(meanwhile)
      modifies this, umemFrameAddr
      ensures Valid()
      ensures rcvd == Min(Min(n, RX_BATCH_SIZE), old(|around.rx|))
      ensures rcvd == 0 ==> View() == old(View())
      ensures rcvd > 0 ==> atCount == Run(Step(old(View()), PeekRx(n)), gap) && atCount.batch == old(around.rx)[..rcvd]
      ensures rcvd > 0 && (atCount.invalid || atCount.sender.Completing?) ==> View() == atCount
      ensures rcvd > 0 && !atCount.invalid && atCount.sender.Away? ==>
        && (around.invalid <==> 0 < |atCount.free| < atCount.ringSize - |atCount.fill|)
        && (!around.invalid ==> CallComesTo(atCount, View(), j, fates, sendBack))
        && exists stock, freed :: View() == Run(atCount, LockedCall(stock, |atCount.free|, rcvd, seen, freed, sendBack, meanwhile))
    {
      j, fates := NOTHING, [];
      rcvd := PeekBatch(n);
      if rcvd == 0 {
        return rcvd, View(), j, fates;
      }
      LetOthersRun(gap);
      atCount := View();
      if !around.invalid && around.sender.Away? {
        var stock, freed;
        stock, freed, j, fates := HandleLocked(seen, sendBack, meanwhile);
      }
    }
  }

  lemma DisabledDoesNothing(s: State, a: Action)
    requires InCompletion(a) && (s.invalid || !CompletionEnabled(s, a))
    ensures Step(s, a) == s
  {
  }

  lemma RingsIgnoreSocket(s: State, a: Action, free: seq<Frame>, outstandingTx: nat)
    requires !s.invalid
    requires a.PeekRx? || a.ReserveStock? || a.SubmitStock? || a.ReleaseRx?
    ensures Step(s.(free := free, outstandingTx := outstandingTx), a)
         == HandlerStep(s, a).(free := free, outstandingTx := outstandingTx)
  {
  }

  lemma KernelIgnoresSocket(s: State, a: Action, free: seq<Frame>, outstandingTx: nat)
    requires ByKernel(a)
    ensures Step(s.(free := free, outstandingTx := outstandingTx), a)
         == (if s.invalid then s else KernelStep(s, a)).(free := free, outstandingTx := outstandingTx)
    ensures s.invalid || SameApplication(s, KernelStep(s, a))
  {
  }

  lemma {:induction false} DescendingFromTheTop(top: nat, n: nat)
    requires n <= top
    ensures forall k :: 0 <= k < n ==> Descending(top, n)[k] == top - 1 - k
  {
    if n > 0 {
      DescendingFromTheTop(top, n - 1);
    }
  }

  lemma {:induction false} AscendingIsIdentity(n: nat)
    ensures forall i :: 0 <= i < n ==> Ascending(n)[i] == i
  {
    if n > 0 {
      AscendingIsIdentity(n - 1);
    }
  }
}
