/** The UMEM frames of the AF_XDP socket.

    4096 packet frames travel between the application's free stack, four rings
    shared with the kernel (fill, RX, TX, completion) and the kernel itself.
    A frame is named by its number, its address divided by FRAME_SIZE.

    The libxdp rings are bounded FIFOs of a given size.  The kernel moves frames
    from fill to RX and from TX to completion whenever it likes, between any two
    steps of the application.  On the client a spin lock keeps the sender thread
    and the receive handler apart; on the server there is only the handler. */
module UmemFrames {

  import opened Numbers

  const NUM_FRAMES: nat := 4096
  const RX_BATCH_SIZE: nat := 64
  const INVALID_UMEM_FRAME: nat := 0xFFFF_FFFF_FFFF_FFFF

  type Frame = nat

  /** Where the thread stands inside `handle_receive_packets`. */
  datatype Handler =
    | Ready                  // before the peek at the RX ring
    | Peeked                 // some packets peeked, lock not yet held
    | Counted(stock: nat)    // free fill entries counted, not yet reserved
    | Filling(left: nat)     // reserved entries still to be given a frame
    | Processing
    | Finishing              // inside complete_tx

  /** Where the client's sender thread stands inside `xsk_send_packet`. */
  datatype Sender = Away | Completing

  datatype State = State(
    ringSize: nat,
    handler: Handler,
    sender: Sender,
    free: seq<Frame>,        // umem_frame_addr[..umem_frame_free]
    staged: seq<Frame>,      // written into reserved fill entries, not submitted
    fill: seq<Frame>,
    kernelRx: seq<Frame>,
    rx: seq<Frame>,
    batch: seq<Frame>,       // peeked from RX, not yet processed
    held: nat,               // RX entries peeked and not yet released
    tx: seq<Frame>,
    kernelTx: seq<Frame>,
    completed: seq<Frame>,   // the completion ring
    reaping: seq<Frame>,     // peeked from the completion ring, not yet freed
    reaped: nat,             // completion entries peeked and not yet released
    lost: seq<Frame>,        // frames whose TX reserve failed
    outstandingTx: nat,
    fillSeen: nat,           // free fill entries by the cached consumer index
    invalid: bool)           // INVALID_UMEM_FRAME was handed out: the run is over

  datatype Action =
    // handle_receive_packets
    | PeekRx(n: nat)
    | CountStock
    | ReserveStock
    | StockOne
    | SubmitStock
    | ProcessAndFree
    | ProcessAndSend
    | ReleaseRx
    // complete_tx, by the handler or by the sender
    | PeekCompletions(n: nat)
    | FreeOne
    | ReleaseCompletions
    // the client's xsk_send_packet
    | SendNew
    // the kernel
    | TakeFill
    | Deliver(i: nat)
    | Transmit
    | Complete(i: nat)

  /** How often frame f occurs among the first n. */
  function CountFirst(s: seq<Frame>, n: nat, f: Frame): nat
    requires n <= |s|
  {
    if n == 0 then 0 else CountFirst(s, n - 1, f) + if s[n - 1] == f then 1 else 0
  }

  /** How often frame f occurs. */
  function Count(s: seq<Frame>, f: Frame): nat {
    CountFirst(s, |s|, f)
  }

  lemma {:induction false} CountFirstConcat(s: seq<Frame>, t: seq<Frame>, n: nat, f: Frame)
    requires n <= |s + t|
    ensures n <= |s| ==> CountFirst(s + t, n, f) == CountFirst(s, n, f)
    ensures n > |s| ==> CountFirst(s + t, n, f) == Count(s, f) + CountFirst(t, n - |s|, f)
  {
    if n > 0 {
      CountFirstConcat(s, t, n - 1, f);
    }
  }

  lemma CountConcat(s: seq<Frame>, t: seq<Frame>, f: Frame)
    ensures Count(s + t, f) == Count(s, f) + Count(t, f)
  {
    CountFirstConcat(s, t, |s + t|, f);
    CountFirstConcat(s, t, |s|, f);
  }

  lemma CountPush(s: seq<Frame>, x: Frame, f: Frame)
    ensures Count(s + [x], f) == Count(s, f) + if x == f then 1 else 0
  {
    CountConcat(s, [x], f);
    assert CountFirst([x], 1, f) == CountFirst([x], 0, f) + if x == f then 1 else 0;
  }

  lemma CountSplit(s: seq<Frame>, n: nat, f: Frame)
    requires n <= |s|
    ensures Count(s, f) == Count(s[..n], f) + Count(s[n..], f)
  {
    CountConcat(s[..n], s[n..], f);
    assert s == s[..n] + s[n..];
  }

  /** s without the frame at i. */
  function RemoveAt(s: seq<Frame>, i: nat): seq<Frame>
    requires i < |s|
  {
    s[..i] + s[i + 1..]
  }

  lemma CountRemoveAt(s: seq<Frame>, i: nat, f: Frame)
    requires i < |s|
    ensures Count(RemoveAt(s, i), f) == Count(s, f) - if s[i] == f then 1 else 0
  {
    CountSplit(s, i, f);
    CountSplit(s[i..], 1, f);
    assert s[i..][..1] == [] + [s[i]] && s[i..][1..] == s[i + 1..];
    CountPush([], s[i], f);
    CountConcat(s[..i], s[i + 1..], f);
  }

  /** Taking the frame at i from one place and putting it into another changes no count. */
  lemma MoveAt(from: seq<Frame>, i: nat, to: seq<Frame>, f: Frame)
    requires i < |from|
    ensures Count(RemoveAt(from, i), f) + Count(to + [from[i]], f) == Count(from, f) + Count(to, f)
    ensures i == 0 ==> RemoveAt(from, i) == from[1..]
    ensures i == |from| - 1 ==> RemoveAt(from, i) == from[..i]
  {
    CountRemoveAt(from, i, f);
    CountPush(to, from[i], f);
  }

  /** `xsk_prod_nb_free`: the cached count if it covers nb, a fresh one otherwise. */
  function NbFree(s: State, nb: nat): nat {
    if s.fillSeen >= nb then s.fillSeen else s.ringSize - Min(|s.fill|, s.ringSize)
  }

  predicate Locked(s: State) {
    s.sender.Completing? || (!s.handler.Ready? && !s.handler.Peeked?)
  }

  /** Only the thread inside complete_tx may reap. */
  predicate InCompleteTx(s: State) {
    s.sender.Completing? || s.handler.Finishing?
  }

  function LeaveCompleteTx(s: State): State {
    if s.sender.Completing? then s.(sender := Away) else s.(handler := Ready)
  }

  /** Whoever was inside complete_tx has left it. */
  predicate Left(s: State, t: State) {
    if s.sender.Completing? then t.sender.Away? && t.handler == s.handler
    else t.handler.Ready? && t.sender == s.sender
  }

  function HandlerStep(s: State, a: Action): State {
    match a
    case PeekRx(n) =>
      var k := Min(Min(n, RX_BATCH_SIZE), |s.rx|);
      if s.handler.Ready? && k > 0 then
        s.(handler := Peeked, batch := s.rx[..k], rx := s.rx[k..], held := k)
      else s
    case CountStock =>
      if s.handler.Peeked? && !Locked(s) then
        var stock := NbFree(s, |s.free|);
        s.(fillSeen := stock, handler := if stock > 0 then Counted(stock) else Processing)
      else s
    case ReserveStock =>
      if s.handler.Counted? then
        var seen := NbFree(s, s.handler.stock);
        // Too few entries: xsk_ring_prod__reserve returns 0 and the loop tries again.
        if seen < s.handler.stock then s.(fillSeen := seen)
        else s.(fillSeen := seen - s.handler.stock, handler := Filling(s.handler.stock))
      else s
    case StockOne =>
      if s.handler.Filling? && s.handler.left > 0 then
        if s.free == [] then s.(invalid := true)
        else
          var top := |s.free| - 1;
          s.(free := s.free[..top], staged := s.staged + [s.free[top]],
             handler := Filling(s.handler.left - 1))
      else s
    case SubmitStock =>
      if s.handler.Filling? && s.handler.left == 0 then
        s.(fill := s.fill + s.staged, staged := [], handler := Processing)
      else s
    case ProcessAndFree =>
      if s.handler.Processing? && s.batch != [] then
        s.(batch := s.batch[1..], free := s.free + [s.batch[0]])
      else s
    case ProcessAndSend =>
      if s.handler.Processing? && s.batch != [] then
        if |s.tx| < s.ringSize then
          s.(batch := s.batch[1..], tx := s.tx + [s.batch[0]], outstandingTx := s.outstandingTx + 1)
        else
          // The result of xsk_send_packet is ignored: nobody owns the frame any more.
          s.(batch := s.batch[1..], lost := s.lost + [s.batch[0]])
      else s
    case ReleaseRx =>
      if s.handler.Processing? && s.batch == [] then s.(held := 0, handler := Finishing) else s
    case _ => s
  }

  /** `outstanding_tx -= completed < outstanding_tx ? completed : outstanding_tx` */
  function SaturatingSub(a: nat, b: nat): nat { if b < a then a - b else 0 }

  function CompletionStep(s: State, a: Action): State {
    match a
    case PeekCompletions(n) =>
      var k := Min(n, |s.completed|);
      if InCompleteTx(s) && s.reaped == 0 then
        if s.outstandingTx == 0 || k == 0 then LeaveCompleteTx(s)
        else s.(reaping := s.completed[..k], completed := s.completed[k..], reaped := k)
      else s
    case FreeOne =>
      if InCompleteTx(s) && s.reaping != [] then
        s.(reaping := s.reaping[1..], free := s.free + [s.reaping[0]])
      else s
    case ReleaseCompletions =>
      if InCompleteTx(s) && s.reaping == [] && s.reaped > 0 then
        LeaveCompleteTx(s.(outstandingTx := SaturatingSub(s.outstandingTx, s.reaped), reaped := 0))
      else s
    case SendNew =>
      if Locked(s) || |s.tx| >= s.ringSize then s
      else if s.free == [] then s.(invalid := true)
      else
        var top := |s.free| - 1;
        s.(free := s.free[..top], tx := s.tx + [s.free[top]],
           outstandingTx := s.outstandingTx + 1, sender := Completing)
    case _ => s
  }

  /** Whether a step of complete_tx or of the sender does anything. */
  predicate CompletionEnabled(s: State, a: Action) {
    match a
    case PeekCompletions(n) => InCompleteTx(s) && s.reaped == 0
    case FreeOne => InCompleteTx(s) && s.reaping != []
    case ReleaseCompletions => InCompleteTx(s) && s.reaping == [] && s.reaped > 0
    case SendNew => !Locked(s) && |s.tx| < s.ringSize
    case _ => false
  }

  function KernelStep(s: State, a: Action): State {
    match a
    case TakeFill =>
      if s.fill != [] then s.(fill := s.fill[1..], kernelRx := s.kernelRx + [s.fill[0]]) else s
    case Deliver(i) =>
      if i < |s.kernelRx| && |s.rx| + s.held < s.ringSize then
        s.(kernelRx := RemoveAt(s.kernelRx, i), rx := s.rx + [s.kernelRx[i]])
      else s
    case Transmit =>
      if s.tx != [] then s.(tx := s.tx[1..], kernelTx := s.kernelTx + [s.tx[0]]) else s
    case Complete(i) =>
      if i < |s.kernelTx| && |s.completed| + s.reaped < s.ringSize then
        s.(kernelTx := RemoveAt(s.kernelTx, i), completed := s.completed + [s.kernelTx[i]])
      else s
    case _ => s
  }

  predicate ByKernel(a: Action) {
    a.TakeFill? || a.Deliver? || a.Transmit? || a.Complete?
  }

  predicate InCompletion(a: Action) {
    a.PeekCompletions? || a.FreeOne? || a.ReleaseCompletions? || a.SendNew?
  }

  function Step(s: State, a: Action): State {
    if s.invalid then s
    else if ByKernel(a) then KernelStep(s, a)
    else if InCompletion(a) then CompletionStep(s, a)
    else HandlerStep(s, a)
  }

  function Run(s: State, schedule: seq<Action>): State {
    if schedule == [] then s
    else Step(Run(s, schedule[..|schedule| - 1]), schedule[|schedule| - 1])
  }

  /** After `xsk_configure_socket`: frames NUM_FRAMES-1 down to NUM_FRAMES-ringSize fill the fill ring. */
  function Init(ringSize: nat): State
    requires ringSize <= NUM_FRAMES
  {
    State(ringSize, Ready, Away, Ascending(NUM_FRAMES - ringSize), [], Descending(NUM_FRAMES, ringSize),
          [], [], [], 0, [], [], [], [], 0, [], 0, 0, false)
  }

  /** 0, 1, ... n-1 */
  function Ascending(n: nat): (s: seq<Frame>)
    ensures |s| == n
  {
    if n == 0 then [] else Ascending(n - 1) + [n - 1]
  }

  /** top-1, top-2, ... top-n */
  function Descending(top: nat, n: nat): (s: seq<Frame>)
    requires n <= top
    ensures |s| == n
  {
    if n == 0 then [] else Descending(top, n - 1) + [top - n]
  }

  // ---------------------------------------------------------------- invariant

  /** How many places frame f is in. */
  function Places(s: State, f: Frame): nat {
    Count(s.free, f) + Count(s.staged, f) + Count(s.fill, f) + Count(s.kernelRx, f) +
    Count(s.rx, f) + Count(s.batch, f) + Count(s.tx, f) + Count(s.kernelTx, f) +
    Count(s.completed, f) + Count(s.reaping, f) + Count(s.lost, f)
  }

  /** The frames of all eleven places together. */
  function Total(s: State): nat {
    |s.free| + |s.staged| + |s.fill| + |s.kernelRx| + |s.rx| + |s.batch| +
    |s.tx| + |s.kernelTx| + |s.completed| + |s.reaping| + |s.lost|
  }

  /** Every frame is in exactly one place, and nothing else is anywhere. */
  ghost predicate Partitioned(s: State) {
    && Total(s) == NUM_FRAMES
    && forall f: Frame :: Places(s, f) == if f < NUM_FRAMES then 1 else 0
  }

  predicate Accounts(s: State) {
    && s.outstandingTx == |s.tx| + |s.kernelTx| + |s.completed| + s.reaped
    && |s.reaping| <= s.reaped
    && (s.reaped > 0 ==> InCompleteTx(s))
    && |s.tx| <= s.ringSize
    && |s.completed| + s.reaped <= s.ringSize
    && |s.rx| + s.held <= s.ringSize
    && |s.batch| <= s.held
    && (s.handler.Ready? || s.handler.Finishing? ==> s.held == 0)
    && (s.sender.Completing? ==> s.handler.Ready? || s.handler.Peeked?)
    && |s.fill| + |s.staged| + s.fillSeen + (if s.handler.Filling? then s.handler.left else 0) <= s.ringSize
    && (!s.handler.Filling? ==> s.staged == [])
    && (s.handler.Counted? ==> 0 < s.handler.stock == s.fillSeen)
    && (!s.handler.Counted? ==> s.fillSeen == 0)
  }

  ghost predicate Inv(s: State) {
    Partitioned(s) && Accounts(s)
  }

  lemma {:induction false} AscendingCounts(n: nat, f: Frame)
    ensures Count(Ascending(n), f) == if f < n then 1 else 0
  {
    if n > 0 {
      AscendingCounts(n - 1, f);
      CountPush(Ascending(n - 1), n - 1, f);
    }
  }

  lemma {:induction false} DescendingCounts(top: nat, n: nat, f: Frame)
    requires n <= top
    ensures Count(Descending(top, n), f) == if top - n <= f < top then 1 else 0
  {
    if n > 0 {
      DescendingCounts(top, n - 1, f);
      CountPush(Descending(top, n - 1), top - n, f);
    }
  }

  lemma InitInv(ringSize: nat)
    requires ringSize <= NUM_FRAMES
    ensures Inv(Init(ringSize))
  {
    forall f: Frame
      ensures Places(Init(ringSize), f) == if f < NUM_FRAMES then 1 else 0
    {
      AscendingCounts(NUM_FRAMES - ringSize, f);
      DescendingCounts(NUM_FRAMES, ringSize, f);
    }
  }

  lemma TakeFillConserves(s: State, f: Frame)
    ensures Places(KernelStep(s, TakeFill), f) == Places(s, f)
    ensures Total(KernelStep(s, TakeFill)) == Total(s)
  {
    if s.fill != [] {
      MoveAt(s.fill, 0, s.kernelRx, f);
    }
  }

  lemma DeliverConserves(s: State, i: nat, f: Frame)
    ensures Places(KernelStep(s, Deliver(i)), f) == Places(s, f)
    ensures Total(KernelStep(s, Deliver(i))) == Total(s)
  {
    if i < |s.kernelRx| {
      MoveAt(s.kernelRx, i, s.rx, f);
    }
  }

  lemma TransmitConserves(s: State, f: Frame)
    ensures Places(KernelStep(s, Transmit), f) == Places(s, f)
    ensures Total(KernelStep(s, Transmit)) == Total(s)
  {
    if s.tx != [] {
      MoveAt(s.tx, 0, s.kernelTx, f);
    }
  }

  lemma CompleteConserves(s: State, i: nat, f: Frame)
    ensures Places(KernelStep(s, Complete(i)), f) == Places(s, f)
    ensures Total(KernelStep(s, Complete(i))) == Total(s)
  {
    if i < |s.kernelTx| {
      MoveAt(s.kernelTx, i, s.completed, f);
    }
  }

  lemma KernelConserves(s: State, a: Action, f: Frame)
    ensures Places(KernelStep(s, a), f) == Places(s, f)
    ensures Total(KernelStep(s, a)) == Total(s)
  {
    match a
    case TakeFill => TakeFillConserves(s, f);
    case Deliver(i) => DeliverConserves(s, i, f);
    case Transmit => TransmitConserves(s, f);
    case Complete(i) => CompleteConserves(s, i, f);
    case _ =>
  }

  lemma PeekCompletionsConserves(s: State, n: nat, f: Frame)
    requires s.reaped == 0 ==> s.reaping == []
    ensures Places(CompletionStep(s, PeekCompletions(n)), f) == Places(s, f)
    ensures Total(CompletionStep(s, PeekCompletions(n))) == Total(s)
  {
    var k := Min(n, |s.completed|);
    if InCompleteTx(s) && s.reaped == 0 && s.outstandingTx != 0 && k != 0 {
      CountSplit(s.completed, k, f);
      assert CompletionStep(s, PeekCompletions(n))
          == s.(reaping := s.completed[..k], completed := s.completed[k..], reaped := k);
    }
  }

  lemma FreeOneConserves(s: State, f: Frame)
    ensures Places(CompletionStep(s, FreeOne), f) == Places(s, f)
    ensures Total(CompletionStep(s, FreeOne)) == Total(s)
  {
    if s.reaping != [] {
      MoveAt(s.reaping, 0, s.free, f);
    }
  }

  lemma SendNewConserves(s: State, f: Frame)
    ensures Places(CompletionStep(s, SendNew), f) == Places(s, f)
    ensures Total(CompletionStep(s, SendNew)) == Total(s)
  {
    if s.free != [] {
      MoveAt(s.free, |s.free| - 1, s.tx, f);
    }
  }

  lemma PeekRxConserves(s: State, n: nat, f: Frame)
    requires s.handler.Ready? ==> s.batch == []
    ensures Places(HandlerStep(s, PeekRx(n)), f) == Places(s, f)
    ensures Total(HandlerStep(s, PeekRx(n))) == Total(s)
  {
    CountSplit(s.rx, Min(Min(n, RX_BATCH_SIZE), |s.rx|), f);
  }

  lemma StockOneConserves(s: State, f: Frame)
    ensures Places(HandlerStep(s, StockOne), f) == Places(s, f)
    ensures Total(HandlerStep(s, StockOne)) == Total(s)
  {
    if s.free != [] {
      MoveAt(s.free, |s.free| - 1, s.staged, f);
    }
  }

  lemma SubmitStockConserves(s: State, f: Frame)
    ensures Places(HandlerStep(s, SubmitStock), f) == Places(s, f)
    ensures Total(HandlerStep(s, SubmitStock)) == Total(s)
  {
    CountConcat(s.fill, s.staged, f);
  }

  lemma ProcessAndFreeConserves(s: State, f: Frame)
    ensures Places(HandlerStep(s, ProcessAndFree), f) == Places(s, f)
    ensures Total(HandlerStep(s, ProcessAndFree)) == Total(s)
  {
    if s.batch != [] {
      MoveAt(s.batch, 0, s.free, f);
    }
  }

  lemma ProcessAndSendConserves(s: State, f: Frame)
    ensures Places(HandlerStep(s, ProcessAndSend), f) == Places(s, f)
    ensures Total(HandlerStep(s, ProcessAndSend)) == Total(s)
  {
    if s.batch != [] {
      MoveAt(s.batch, 0, if |s.tx| < s.ringSize then s.tx else s.lost, f);
    }
  }

  lemma CompletionConserves(s: State, a: Action, f: Frame)
    requires Accounts(s)
    ensures Places(CompletionStep(s, a), f) == Places(s, f)
    ensures Total(CompletionStep(s, a)) == Total(s)
  {
    match a
    case PeekCompletions(n) => PeekCompletionsConserves(s, n, f);
    case FreeOne => FreeOneConserves(s, f);
    case SendNew => SendNewConserves(s, f);
    case _ =>
  }

  lemma HandlerConserves(s: State, a: Action, f: Frame)
    requires Accounts(s)
    ensures Places(HandlerStep(s, a), f) == Places(s, f)
    ensures Total(HandlerStep(s, a)) == Total(s)
  {
    match a
    case PeekRx(n) => PeekRxConserves(s, n, f);
    case StockOne => StockOneConserves(s, f);
    case SubmitStock => SubmitStockConserves(s, f);
    case ProcessAndFree => ProcessAndFreeConserves(s, f);
    case ProcessAndSend => ProcessAndSendConserves(s, f);
    case _ =>
  }

  /** No step makes or destroys a frame. */
  lemma StepConserves(s: State, a: Action, f: Frame)
    requires Accounts(s)
    ensures Places(Step(s, a), f) == Places(s, f)
    ensures Total(Step(s, a)) == Total(s)
  {
    KernelConserves(s, a, f);
    CompletionConserves(s, a, f);
    HandlerConserves(s, a, f);
  }

  lemma HandlerKeepsAccounts(s: State, a: Action)
    requires Accounts(s)
    ensures Accounts(HandlerStep(s, a))
  {
  }

  lemma CompletionKeepsAccounts(s: State, a: Action)
    requires Accounts(s)
    ensures Accounts(CompletionStep(s, a))
  {
  }

  lemma KernelKeepsAccounts(s: State, a: Action)
    requires Accounts(s)
    ensures Accounts(KernelStep(s, a))
  {
  }

  lemma StepKeepsAccounts(s: State, a: Action)
    requires Accounts(s)
    ensures Accounts(Step(s, a))
  {
    HandlerKeepsAccounts(s, a);
    CompletionKeepsAccounts(s, a);
    KernelKeepsAccounts(s, a);
  }

  lemma StepKeepsInv(s: State, a: Action)
    requires Inv(s)
    ensures Inv(Step(s, a))
  {
    StepKeepsAccounts(s, a);
    forall f: Frame
      ensures Places(Step(s, a), f) == if f < NUM_FRAMES then 1 else 0
    {
      StepConserves(s, a, f);
    }
    StepConserves(s, a, 0);
  }

  lemma {:induction false} RunKeepsInv(s: State, schedule: seq<Action>)
    requires Inv(s)
    ensures Inv(Run(s, schedule))
    decreases |schedule|
  {
    if schedule != [] {
      var n := |schedule| - 1;
      RunKeepsInv(s, schedule[..n]);
      StepKeepsInv(Run(s, schedule[..n]), schedule[n]);
    }
  }

  lemma {:induction false} ReachableInv(ringSize: nat, schedule: seq<Action>)
    requires ringSize <= NUM_FRAMES
    ensures Inv(Run(Init(ringSize), schedule))
  {
    InitInv(ringSize);
    RunKeepsInv(Init(ringSize), schedule);
  }

  // ------------------------------------------------------------ main theorems

  /** In every run each of the 4096 frames is in exactly one of the eleven places,
      and no place holds anything else. */
  lemma {:induction false} EveryFrameInExactlyOnePlace(ringSize: nat, schedule: seq<Action>, f: Frame)
    requires ringSize <= NUM_FRAMES
    ensures Places(Run(Init(ringSize), schedule), f) == if f < NUM_FRAMES then 1 else 0
    ensures Total(Run(Init(ringSize), schedule)) == NUM_FRAMES
  {
    ReachableInv(ringSize, schedule);
  }

  /** outstanding_tx counts exactly the frames between their submission for TX and the
      release of their completion, so the saturating subtraction is a plain one. */
  lemma {:induction false} OutstandingTxIsExact(ringSize: nat, schedule: seq<Action>)
    requires ringSize <= NUM_FRAMES
    ensures var s := Run(Init(ringSize), schedule);
      && s.outstandingTx == |s.tx| + |s.kernelTx| + |s.completed| + s.reaped
      && SaturatingSub(s.outstandingTx, s.reaped) == s.outstandingTx - s.reaped
  {
    ReachableInv(ringSize, schedule);
  }

  /** Whenever a frame is about to be freed, `assert (umem_frame_free < NUM_FRAMES)` holds. */
  lemma {:induction false} FreeAssertionHolds(ringSize: nat, schedule: seq<Action>)
    requires ringSize <= NUM_FRAMES
    ensures var s := Run(Init(ringSize), schedule);
      s.batch != [] || s.reaping != [] ==> |s.free| < NUM_FRAMES
  {
    ReachableInv(ringSize, schedule);
  }

  /** The reserve after the count always succeeds: the retry loop is never entered. */
  lemma {:induction false} ReserveSucceedsAtOnce(ringSize: nat, schedule: seq<Action>)
    requires ringSize <= NUM_FRAMES
    requires var s := Run(Init(ringSize), schedule); s.handler.Counted? && !s.invalid
    ensures var s := Run(Init(ringSize), schedule);
      Step(s, ReserveStock).handler == Filling(s.handler.stock)
  {
    ReachableInv(ringSize, schedule);
  }

  lemma RunLast(s: State, schedule: seq<Action>)
    requires schedule != []
    ensures Run(s, schedule) == Step(Run(s, schedule[..|schedule| - 1]), schedule[|schedule| - 1])
  {
  }

  lemma {:induction false} RunConcat(s: State, p: seq<Action>, q: seq<Action>)
    ensures Run(s, p + q) == Run(Run(s, p), q)
    decreases |q|
  {
    var pq := p + q;
    if q == [] {
      assert pq == p;
    } else {
      var n := |q| - 1;
      RunConcat(s, p, q[..n]);
      assert pq[..|pq| - 1] == p + q[..n] && pq[|pq| - 1] == q[n];
      RunLast(s, pq);
      RunLast(Run(s, p), q);
    }
  }

  lemma RunOne(s: State, a: Action)
    ensures Run(s, [a]) == Step(s, a)
  {
    assert [a][..0] == [];
    assert Run(s, []) == s;
  }

  lemma RunSnoc(s: State, p: seq<Action>, a: Action)
    ensures Run(s, p + [a]) == Step(Run(s, p), a)
  {
    assert (p + [a])[..|p|] == p;
  }

  /** One more action of the handler or the sender, after the kernel has run for a while. */
  lemma RunExtends(s: State, p: seq<Action>, kernel: seq<Action>, a: Action)
    ensures Run(s, p + kernel + [a]) == Step(Run(Run(s, p), kernel), a)
  {
    RunConcat(s, p, kernel);
    RunSnoc(s, p + kernel, a);
  }

  lemma StepKeepsRingSize(s: State, a: Action)
    ensures Step(s, a).ringSize == s.ringSize
  {
  }

  lemma {:induction false} RingSizeIsFixed(s: State, schedule: seq<Action>)
    ensures Run(s, schedule).ringSize == s.ringSize
    decreases |schedule|
  {
    if schedule != [] {
      var n := |schedule| - 1;
      RingSizeIsFixed(s, schedule[..n]);
      StepKeepsRingSize(Run(s, schedule[..n]), schedule[n]);
    }
  }

  /** What the kernel never touches. */
  predicate SameApplication(s: State, t: State) {
    t == s.(fill := t.fill, kernelRx := t.kernelRx, rx := t.rx, tx := t.tx, kernelTx := t.kernelTx, completed := t.completed)
  }

  lemma {:induction false} KernelLeavesApplication(s: State, schedule: seq<Action>)
    requires forall a :: a in schedule ==> ByKernel(a)
    ensures SameApplication(s, Run(s, schedule))
    decreases |schedule|
  {
    if schedule != [] {
      KernelLeavesApplication(s, schedule[..|schedule| - 1]);
    }
  }
}
