/** The calls of the AF_XDP socket as schedules of `UmemFrames`, and what they come to.

    A call is the sequence of its own actions, with what the kernel does in between.  What it
    comes to is said in terms of frames: which go into which ring, in which order. */
module UmemCalls {

  import opened Numbers
  import opened UmemFrames

  /** Where in a call other participants may act. */
  datatype Moment =
    | BeforeReserve
    | BeforeStock(i: nat)
    | BeforeSubmit
    | BeforeProcess(i: nat)
    | BeforeReleaseRx
    | BeforeCompleteTx
    | BeforeFree(i: nat)
    | BeforeReleaseCompletions

  /** What the kernel does at each moment of a call. */
  type Meanwhile = Moment -> seq<Action>

  ghost predicate KernelOnly(meanwhile: Meanwhile) {
    forall m, a :: a in meanwhile(m) ==> ByKernel(a)
  }

  function StockCall(n: nat, meanwhile: Meanwhile): seq<Action> {
    if n == 0 then [] else StockCall(n - 1, meanwhile) + meanwhile(BeforeStock(n - 1)) + [StockOne]
  }

  /** From the reserve to the submit, after a count of `stock` with `free` frames on the
      stack. */
  function StockingCall(stock: nat, free: nat, meanwhile: Meanwhile): seq<Action> {
    var reserve := meanwhile(BeforeReserve) + [ReserveStock];
    if free < stock then reserve + StockCall(free + 1, meanwhile)
    else reserve + StockCall(stock, meanwhile) + (meanwhile(BeforeSubmit) + [SubmitStock])
  }

  function RefillCall(stock: nat, free: nat, meanwhile: Meanwhile): seq<Action> {
    if stock == 0 then [CountStock] else [CountStock] + StockingCall(stock, free, meanwhile)
  }

  function PacketAction(sendBack: bool): Action { if sendBack then ProcessAndSend else ProcessAndFree }

  function ProcessCall(n: nat, sendBack: nat -> bool, meanwhile: Meanwhile): seq<Action> {
    if n == 0 then []
    else
      ProcessCall(n - 1, sendBack, meanwhile) + meanwhile(BeforeProcess(n - 1))
      + [PacketAction(sendBack(n - 1))]
  }

  function FreeCall(n: nat, meanwhile: Meanwhile): seq<Action> {
    if n == 0 then [] else FreeCall(n - 1, meanwhile) + meanwhile(BeforeFree(n - 1)) + [FreeOne]
  }

  /** `complete_tx` that sees n completions at most and frees `freed` of them. */
  function CompleteCall(n: nat, freed: nat, meanwhile: Meanwhile): seq<Action> {
    if freed == 0 then [PeekCompletions(n)]
    else
      [PeekCompletions(n)] + FreeCall(freed, meanwhile) + meanwhile(BeforeReleaseCompletions) + [ReleaseCompletions]
  }

  /** The locked part of `handle_receive_packets` over a batch of rcvd packets. */
  function LockedCall(stock: nat, free: nat, rcvd: nat, seen: nat, freed: nat,
                      sendBack: nat -> bool, meanwhile: Meanwhile): seq<Action>
  {
    var refill := RefillCall(stock, free, meanwhile);
    if 0 < free < stock then refill
    else
      refill + (ProcessCall(rcvd, sendBack, meanwhile) + meanwhile(BeforeReleaseRx) + [ReleaseRx])
      + (meanwhile(BeforeCompleteTx) + CompleteCall(seen, freed, meanwhile))
  }

  // Calls one action at a time.

  lemma StockCallLast(t: State, n: nat, meanwhile: Meanwhile)
    requires n > 0
    ensures Run(t, StockCall(n, meanwhile))
         == Step(Run(Run(t, StockCall(n - 1, meanwhile)), meanwhile(BeforeStock(n - 1))), StockOne)
  {
    RunExtends(t, StockCall(n - 1, meanwhile), meanwhile(BeforeStock(n - 1)), StockOne);
  }

  lemma ProcessCallLast(t: State, n: nat, sendBack: nat -> bool, meanwhile: Meanwhile)
    requires n > 0
    ensures Run(t, ProcessCall(n, sendBack, meanwhile))
         == Step(Run(Run(t, ProcessCall(n - 1, sendBack, meanwhile)), meanwhile(BeforeProcess(n - 1))),
                 PacketAction(sendBack(n - 1)))
  {
    RunExtends(t, ProcessCall(n - 1, sendBack, meanwhile), meanwhile(BeforeProcess(n - 1)), PacketAction(sendBack(n - 1)));
  }

  lemma FreeCallLast(t: State, n: nat, meanwhile: Meanwhile)
    requires n > 0
    ensures Run(t, FreeCall(n, meanwhile)) == FreeAfter(Run(t, FreeCall(n - 1, meanwhile)), meanwhile(BeforeFree(n - 1)))
  {
    RunExtends(t, FreeCall(n - 1, meanwhile), meanwhile(BeforeFree(n - 1)), FreeOne);
  }

  lemma RunInThree(s: State, p: seq<Action>, q: seq<Action>, r: seq<Action>)
    ensures Run(s, p + q + r) == Run(Run(Run(s, p), q), r)
  {
    RunConcat(s, p, q);
    RunConcat(s, p + q, r);
  }

  lemma StockingCallInSteps(c: State, stock: nat, free: nat, meanwhile: Meanwhile)
    ensures var t := Run(c, meanwhile(BeforeReserve) + [ReserveStock]);
      Run(c, StockingCall(stock, free, meanwhile)) ==
        if free < stock then Run(t, StockCall(free + 1, meanwhile))
        else Run(Run(t, StockCall(stock, meanwhile)), meanwhile(BeforeSubmit) + [SubmitStock])
  {
    var reserve := meanwhile(BeforeReserve) + [ReserveStock];
    RunConcat(c, reserve, StockCall(free + 1, meanwhile));
    RunInThree(c, reserve, StockCall(stock, meanwhile), meanwhile(BeforeSubmit) + [SubmitStock]);
  }

  lemma RefillCallInSteps(s: State, stock: nat, free: nat, meanwhile: Meanwhile)
    ensures Run(s, RefillCall(stock, free, meanwhile))
         == if stock == 0 then Step(s, CountStock) else Run(Step(s, CountStock), StockingCall(stock, free, meanwhile))
  {
    RunOne(s, CountStock);
    RunConcat(s, [CountStock], StockingCall(stock, free, meanwhile));
  }

  lemma CompleteCallInSteps(s: State, n: nat, freed: nat, meanwhile: Meanwhile)
    ensures Run(s, CompleteCall(n, freed, meanwhile))
         == if freed == 0 then Step(s, PeekCompletions(n))
            else Step(Run(Run(Step(s, PeekCompletions(n)), FreeCall(freed, meanwhile)),
                          meanwhile(BeforeReleaseCompletions)), ReleaseCompletions)
  {
    RunOne(s, PeekCompletions(n));
    RunConcat(s, [PeekCompletions(n)], FreeCall(freed, meanwhile));
    RunExtends(s, [PeekCompletions(n)] + FreeCall(freed, meanwhile), meanwhile(BeforeReleaseCompletions), ReleaseCompletions);
  }

  /** Up to where complete_tx looks at the completion ring. */
  function BeforeComplete(s: State, stock: nat, free: nat, rcvd: nat, sendBack: nat -> bool, meanwhile: Meanwhile): State {
    var processed := Run(Run(s, RefillCall(stock, free, meanwhile)), ProcessCall(rcvd, sendBack, meanwhile));
    Run(Step(Run(processed, meanwhile(BeforeReleaseRx)), ReleaseRx), meanwhile(BeforeCompleteTx))
  }

  lemma LockedCallInSteps(s: State, stock: nat, free: nat, rcvd: nat, seen: nat, freed: nat,
                          sendBack: nat -> bool, meanwhile: Meanwhile)
    requires !(0 < free < stock)
    ensures Run(s, LockedCall(stock, free, rcvd, seen, freed, sendBack, meanwhile))
         == Run(BeforeComplete(s, stock, free, rcvd, sendBack, meanwhile), CompleteCall(seen, freed, meanwhile))
  {
    var t := Run(s, RefillCall(stock, free, meanwhile));
    var process := ProcessCall(rcvd, sendBack, meanwhile);
    RunExtends(t, process, meanwhile(BeforeReleaseRx), ReleaseRx);
    RunConcat(s, RefillCall(stock, free, meanwhile), process + meanwhile(BeforeReleaseRx) + [ReleaseRx]);
    var u := Run(t, process + meanwhile(BeforeReleaseRx) + [ReleaseRx]);
    RunConcat(u, meanwhile(BeforeCompleteTx), CompleteCall(seen, freed, meanwhile));
    RunConcat(s, RefillCall(stock, free, meanwhile) + (process + meanwhile(BeforeReleaseRx) + [ReleaseRx]),
              meanwhile(BeforeCompleteTx) + CompleteCall(seen, freed, meanwhile));
  }

  /** From s, with all its entries reserved, to t: turns of the loop that stocks them. */
  predicate StockedSoFar(s: State, t: State, turns: nat)
    requires s.handler.Filling?
  {
    && t.sender == s.sender && t.batch == s.batch && turns <= s.handler.left
    && if t.invalid then turns == |s.free| + 1
       else |t.free| == |s.free| - turns && t.handler == Filling(s.handler.left - turns)
  }

  lemma StockedOnce(s: State, t: State, kernel: seq<Action>, turns: nat)
    requires s.handler.Filling? && turns < s.handler.left
    requires StockedSoFar(s, t, turns) && !t.invalid
    requires forall a :: a in kernel ==> ByKernel(a)
    ensures StockedSoFar(s, Step(Run(t, kernel), StockOne), turns + 1)
  {
    KernelLeavesApplication(t, kernel);
  }
  // --------------------------------------------------------- what calls come to

  /** What becomes of a packet of the batch. */
  datatype Fate = Freed | Sent | Lost

  /** The frames that met a given fate, in order. */
  function Select(frames: seq<Frame>, fates: seq<Fate>, f: Fate): (r: seq<Frame>)
    requires |frames| == |fates|
    ensures |r| <= |frames|
  {
    if frames == [] then []
    else
      var n := |frames| - 1;
      Select(frames[..n], fates[..n], f) + if fates[n] == f then [frames[n]] else []
  }

  /** The n topmost frames of a stack, from the top. */
  function TopDown(s: seq<Frame>, n: nat): (r: seq<Frame>)
    requires n <= |s|
    ensures |r| == n
  {
    if n == 0 then [] else TopDown(s, n - 1) + [s[|s| - n]]
  }

  lemma {:induction false} TopDownAt(s: seq<Frame>, n: nat, k: nat)
    requires k < n <= |s|
    ensures TopDown(s, n)[k] == s[|s| - 1 - k]
  {
    if k < n - 1 {
      TopDownAt(s, n - 1, k);
    }
  }

  /** What has gone into the rings and come out of them, in order. */
  datatype Journal = Journal(
    stocked: seq<Frame>,       // into the fill ring, by the refill
    taken: seq<Frame>,         // out of it, by the kernel
    sent: seq<Frame>,          // into the TX ring, by replies
    transmitted: seq<Frame>,   // out of it, by the kernel
    reaped: seq<Frame>,        // out of the completion ring, by complete_tx
    lost: seq<Frame>)

  const NOTHING := Journal([], [], [], [], [], [])

  /** From s to t the rings are first in, first out, and j is what went through them. */
  predicate Journaled(s: State, t: State, j: Journal) {
    && s.fill + j.stocked == j.taken + t.fill + t.staged
    && s.tx + j.sent == j.transmitted + t.tx
    && s.completed <= j.reaped + t.completed
    && s.rx <= t.rx
    && t.lost == s.lost + j.lost
  }

  /** The same, but for what the kernel took. */
  predicate SameCall(j: Journal, k: Journal) {
    j.(taken := k.taken, transmitted := k.transmitted) == k
  }

  lemma KernelStepIsJournaled(s: State, t: State, j: Journal, a: Action) returns (k: Journal)
    requires Journaled(s, t, j) && ByKernel(a)
    ensures Journaled(s, KernelStep(t, a), k) && SameCall(j, k)
  {
    k := j;
    if a.TakeFill? && t.fill != [] {
      k := j.(taken := j.taken + [t.fill[0]]);
      assert j.taken + t.fill + t.staged == k.taken + t.fill[1..] + t.staged;
    } else if a.Transmit? && t.tx != [] {
      k := j.(transmitted := j.transmitted + [t.tx[0]]);
      assert j.transmitted + t.tx == k.transmitted + t.tx[1..];
    } else if a.Complete? {
      assert j.reaped + t.completed <= j.reaped + KernelStep(t, a).completed;
    }
  }

  lemma {:induction false} KernelIsJournaled(s: State, t: State, j: Journal, kernel: seq<Action>) returns (k: Journal)
    requires Journaled(s, t, j)
    requires forall a :: a in kernel ==> ByKernel(a)
    ensures Journaled(s, Run(t, kernel), k) && SameCall(j, k)
    ensures SameApplication(t, Run(t, kernel))
    decreases |kernel|
  {
    KernelLeavesApplication(t, kernel);
    k := j;
    if kernel != [] {
      var n := |kernel| - 1;
      k := KernelIsJournaled(s, t, j, kernel[..n]);
      var u := Run(t, kernel[..n]);
      if !u.invalid {
        k := KernelStepIsJournaled(s, u, k, kernel[n]);
      }
    }
  }

  lemma AppendToBoth(a: seq<Frame>, b: seq<Frame>, c: seq<Frame>, d: seq<Frame>, f: Frame)
    requires a + b == c + d
    ensures a + (b + [f]) == c + (d + [f])
  {
    assert a + (b + [f]) == (a + b) + [f];
    assert c + (d + [f]) == (c + d) + [f];
  }

  /** What the kernel does when it can: it takes the oldest frame of the fill ring and the oldest
      of the TX ring, and hands over frames in any order. */
  lemma KernelMovesFrames(s: State, i: nat)
    requires !s.invalid
    ensures s.fill != [] ==> Step(s, TakeFill) == s.(fill := s.fill[1..], kernelRx := s.kernelRx + [s.fill[0]])
    ensures s.tx != [] ==> Step(s, Transmit) == s.(tx := s.tx[1..], kernelTx := s.kernelTx + [s.tx[0]])
    ensures i < |s.kernelRx| && |s.rx| + s.held < s.ringSize ==>
      Step(s, Deliver(i)) == s.(kernelRx := s.kernelRx[..i] + s.kernelRx[i + 1..], rx := s.rx + [s.kernelRx[i]])
    ensures i < |s.kernelTx| && |s.completed| + s.reaped < s.ringSize ==>
      Step(s, Complete(i)) == s.(kernelTx := s.kernelTx[..i] + s.kernelTx[i + 1..], completed := s.completed + [s.kernelTx[i]])
  {
  }

  // The refill.

  lemma StockOneIsJournaled(s: State, t: State, j: Journal)
    requires Journaled(s, t, j) && !t.invalid
    requires t.handler.Filling? && t.handler.left > 0 && t.free != []
    ensures var top, u := t.free[|t.free| - 1], Step(t, StockOne);
      && Journaled(s, u, j.(stocked := j.stocked + [top]))
      && u == t.(free := t.free[..|t.free| - 1], staged := t.staged + [top], handler := Filling(t.handler.left - 1))
  {
    AppendToBoth(s.fill, j.stocked, j.taken + t.fill, t.staged, t.free[|t.free| - 1]);
  }

  lemma SubmitIsJournaled(s: State, t: State, j: Journal)
    requires Journaled(s, t, j) && !t.invalid && t.handler == Filling(0)
    ensures var u := Step(t, SubmitStock);
      Journaled(s, u, j) && u == t.(fill := t.fill + t.staged, staged := [], handler := Processing)
  {
  }

  /** What neither the kernel nor the refill changes. */
  predicate RefillKeeps(t: State, u: State) {
    u == t.(handler := u.handler, free := u.free, staged := u.staged, fillSeen := u.fillSeen, fill := u.fill,
            kernelRx := u.kernelRx, rx := u.rx, tx := u.tx, kernelTx := u.kernelTx, completed := u.completed)
  }

  /** After n turns of the loop that stocks the fill ring the n topmost frames are gone. */
  predicate StockedMore(t: State, u: State, n: nat)
    requires t.handler.Filling? && n <= t.handler.left && n <= |t.free|
  {
    u == t.(free := t.free[..|t.free| - n], handler := Filling(t.handler.left - n), staged := u.staged, fill := u.fill,
            kernelRx := u.kernelRx, rx := u.rx, tx := u.tx, kernelTx := u.kernelTx, completed := u.completed)
  }

  lemma StockedOneMore(t: State, u: State, v: State, n: nat)
    requires t.handler.Filling? && n < t.handler.left && n < |t.free|
    requires StockedMore(t, u, n) && StockedMore(u, v, 1)
    ensures StockedMore(t, v, n + 1)
  {
    assert t.free[..|t.free| - n][..|t.free| - n - 1] == t.free[..|t.free| - (n + 1)];
  }

  /** n turns of that loop: the n topmost frames go into the fill ring, from the top. */
  lemma {:induction false} StockCallComesTo(s: State, t: State, j: Journal, n: nat, meanwhile: Meanwhile)
    returns (u: State, k: Journal)
    requires Journaled(s, t, j) && KernelOnly(meanwhile)
    requires !t.invalid && t.handler.Filling? && n <= t.handler.left && n <= |t.free|
    ensures u == Run(t, StockCall(n, meanwhile))
    ensures Journaled(s, u, k) && StockedMore(t, u, n)
    ensures SameCall(j.(stocked := j.stocked + TopDown(t.free, n)), k)
    decreases n
  {
    if n == 0 {
      NoTurn(t, j);
      u, k := t, j;
    } else {
      var v, l := StockCallComesTo(s, t, j, n - 1, meanwhile);
      StockCallLast(t, n, meanwhile);
      u, k := OneTurnMore(s, t, j, n, v, l, meanwhile(BeforeStock(n - 1)));
    }
  }

  lemma NoTurn(t: State, j: Journal)
    requires t.handler.Filling?
    ensures StockedMore(t, t, 0)
    ensures SameCall(j.(stocked := j.stocked + TopDown(t.free, 0)), j)
  {
    assert t.free[..|t.free|] == t.free;
    assert j.stocked + [] == j.stocked;
  }

  lemma OneTurnMore(s: State, t: State, j: Journal, n: nat, v: State, l: Journal, kernel: seq<Action>)
    returns (u: State, k: Journal)
    requires t.handler.Filling? && 0 < n <= t.handler.left && n <= |t.free| && !t.invalid
    requires Journaled(s, v, l) && StockedMore(t, v, n - 1)
    requires SameCall(j.(stocked := j.stocked + TopDown(t.free, n - 1)), l)
    requires forall a :: a in kernel ==> ByKernel(a)
    ensures u == Step(Run(v, kernel), StockOne)
    ensures Journaled(s, u, k) && StockedMore(t, u, n)
    ensures SameCall(j.(stocked := j.stocked + TopDown(t.free, n)), k)
  {
    u, k := StockOnceMore(s, v, l, kernel);
    StockedOneMore(t, v, u, n - 1);
    JournalOneMore(t, v, j, l, k, n);
  }

  lemma StockOnceMore(s: State, u: State, j: Journal, kernel: seq<Action>) returns (v: State, k: Journal)
    requires Journaled(s, u, j) && !u.invalid && u.handler.Filling? && u.handler.left > 0 && u.free != []
    requires forall a :: a in kernel ==> ByKernel(a)
    ensures v == Step(Run(u, kernel), StockOne)
    ensures Journaled(s, v, k) && StockedMore(u, v, 1)
    ensures SameCall(j.(stocked := j.stocked + [u.free[|u.free| - 1]]), k)
  {
    k := KernelIsJournaled(s, u, j, kernel);
    StockOneIsJournaled(s, Run(u, kernel), k);
    k := k.(stocked := k.stocked + [u.free[|u.free| - 1]]);
    v := Step(Run(u, kernel), StockOne);
  }

  lemma JournalOneMore(t: State, v: State, j: Journal, l: Journal, k: Journal, n: nat)
    requires 0 < n <= |t.free| && v.free == t.free[..|t.free| - (n - 1)]
    requires SameCall(j.(stocked := j.stocked + TopDown(t.free, n - 1)), l)
    requires SameCall(l.(stocked := l.stocked + [v.free[|v.free| - 1]]), k)
    ensures SameCall(j.(stocked := j.stocked + TopDown(t.free, n)), k)
  {
    assert v.free[|v.free| - 1] == t.free[|t.free| - n];
    StockedTwice(j, l, k, TopDown(t.free, n - 1), [t.free[|t.free| - n]], TopDown(t.free, n));
  }

  lemma StockedTwice(j: Journal, l: Journal, k: Journal, first: seq<Frame>, more: seq<Frame>, all: seq<Frame>)
    requires SameCall(j.(stocked := j.stocked + first), l) && SameCall(l.(stocked := l.stocked + more), k)
    requires first + more == all
    ensures SameCall(j.(stocked := j.stocked + all), k)
  {
    assert j.stocked + first + more == j.stocked + all;
  }

  /** How many entries a refill counts: none if no frame is free. */
  function StockOf(s: State): int {
    if s.free == [] then 0 else s.ringSize - |s.fill|
  }

  /** With packets peeked and the lock free; the rest holds in every reachable such state. */
  predicate BeforeRefill(s: State) {
    && !s.invalid && s.handler.Peeked? && s.sender.Away?
    && s.fillSeen == 0 && s.staged == [] && |s.fill| <= s.ringSize
  }

  function AfterCount(s: State): State
    requires BeforeRefill(s)
  {
    s.(fillSeen := StockOf(s), handler := if StockOf(s) > 0 then Counted(StockOf(s)) else Processing)
  }

  lemma CountComesTo(s: State)
    requires BeforeRefill(s)
    ensures StockOf(s) >= 0
    ensures Step(s, CountStock) == AfterCount(s)
  {
  }

  lemma ReserveComesTo(t: State)
    requires !t.invalid && t.handler.Counted? && t.fillSeen == t.handler.stock
    ensures Step(t, ReserveStock) == t.(fillSeen := 0, handler := Filling(t.handler.stock))
  {
  }

  /** A refill for which there are enough frames: the topmost ones go into the fill ring. */
  predicate Refilled(s: State, t: State, stock: nat) {
    && stock <= |s.free|
    && RefillKeeps(s, t) && t.handler == Processing && t.staged == []
    && t.free == s.free[..|s.free| - stock]
  }

  predicate Reserved(s: State, t: State, stock: nat) {
    RefillKeeps(s, t) && t.handler == Filling(stock) && t.staged == [] && t.free == s.free
  }

  predicate Submitted(t: State, u: State) {
    RefillKeeps(t, u) && u.handler == Processing && u.staged == [] && u.free == t.free
  }

  lemma RefilledInSteps(s: State, t: State, u: State, v: State, stock: nat)
    requires stock <= |s.free| && Reserved(s, t, stock) && StockedMore(t, u, stock) && Submitted(u, v)
    ensures Refilled(s, v, stock)
  {
  }

  lemma JournalInSteps(i: Journal, j: Journal, k: Journal, frames: seq<Frame>)
    requires SameCall(NOTHING, i) && SameCall(i.(stocked := i.stocked + frames), j) && SameCall(j, k)
    ensures SameCall(NOTHING.(stocked := frames), k)
  {
    assert [] + frames == frames;
  }

  lemma ReserveCallComesTo(s: State, meanwhile: Meanwhile) returns (t: State, k: Journal)
    requires BeforeRefill(s) && KernelOnly(meanwhile) && 0 < StockOf(s)
    ensures t == Run(AfterCount(s), meanwhile(BeforeReserve) + [ReserveStock])
    ensures Journaled(s, t, k) && SameCall(NOTHING, k) && Reserved(s, t, StockOf(s))
  {
    var c := AfterCount(s);
    k := KernelIsJournaled(s, c, NOTHING, meanwhile(BeforeReserve));
    ReserveComesTo(Run(c, meanwhile(BeforeReserve)));
    RunSnoc(c, meanwhile(BeforeReserve), ReserveStock);
    t := Run(c, meanwhile(BeforeReserve) + [ReserveStock]);
  }

  lemma SubmitCallComesTo(s: State, t: State, j: Journal, meanwhile: Meanwhile) returns (u: State, k: Journal)
    requires Journaled(s, t, j) && KernelOnly(meanwhile) && !t.invalid && t.handler == Filling(0)
    ensures u == Run(t, meanwhile(BeforeSubmit) + [SubmitStock])
    ensures Journaled(s, u, k) && SameCall(j, k) && Submitted(t, u)
  {
    k := KernelIsJournaled(s, t, j, meanwhile(BeforeSubmit));
    SubmitIsJournaled(s, Run(t, meanwhile(BeforeSubmit)), k);
    RunSnoc(t, meanwhile(BeforeSubmit), SubmitStock);
    u := Run(t, meanwhile(BeforeSubmit) + [SubmitStock]);
  }

  lemma NothingToStock(s: State)
    requires BeforeRefill(s) && StockOf(s) == 0
    ensures Journaled(s, AfterCount(s), NOTHING) && Refilled(s, AfterCount(s), 0)
  {
  }

  /** From the reserve to the submit, with enough frames: the topmost ones, from the top, go
      into the fill ring. */
  lemma StockAndSubmitComesTo(s: State, t: State, i: Journal, stock: nat, meanwhile: Meanwhile)
    returns (v: State, k: Journal)
    requires !s.invalid && Reserved(s, t, stock) && stock <= |s.free|
    requires Journaled(s, t, i) && SameCall(NOTHING, i) && KernelOnly(meanwhile)
    ensures v == Run(Run(t, StockCall(stock, meanwhile)), meanwhile(BeforeSubmit) + [SubmitStock])
    ensures Journaled(s, v, k) && Refilled(s, v, stock)
    ensures SameCall(NOTHING.(stocked := TopDown(s.free, stock)), k)
  {
    var u, j := StockCallComesTo(s, t, i, stock, meanwhile);
    v, k := SubmitCallComesTo(s, u, j, meanwhile);
    RefilledInSteps(s, t, u, v, stock);
    assert t.free == s.free;
    JournalInSteps(i, j, k, TopDown(s.free, stock));
  }

  lemma StockingCallComesTo(s: State, meanwhile: Meanwhile) returns (v: State, k: Journal)
    requires BeforeRefill(s) && KernelOnly(meanwhile) && 0 < StockOf(s) <= |s.free|
    ensures v == Run(AfterCount(s), StockingCall(StockOf(s), |s.free|, meanwhile))
    ensures Journaled(s, v, k) && Refilled(s, v, StockOf(s))
    ensures SameCall(NOTHING.(stocked := TopDown(s.free, StockOf(s))), k)
  {
    var t, i := ReserveCallComesTo(s, meanwhile);
    v, k := StockAndSubmitComesTo(s, t, i, StockOf(s), meanwhile);
    StockingCallInSteps(AfterCount(s), StockOf(s), |s.free|, meanwhile);
  }

  lemma RefillCallComesTo(s: State, meanwhile: Meanwhile) returns (t: State, k: Journal)
    requires BeforeRefill(s) && KernelOnly(meanwhile) && 0 <= StockOf(s) <= |s.free|
    ensures t == Run(s, RefillCall(StockOf(s), |s.free|, meanwhile))
    ensures Journaled(s, t, k) && Refilled(s, t, StockOf(s))
    ensures SameCall(NOTHING.(stocked := TopDown(s.free, StockOf(s))), k)
  {
    CountComesTo(s);
    RefillCallInSteps(s, StockOf(s), |s.free|, meanwhile);
    if StockOf(s) == 0 {
      NothingToStock(s);
      t, k := AfterCount(s), NOTHING;
    } else {
      t, k := StockingCallComesTo(s, meanwhile);
    }
  }

  // The batch.

  /** One packet of the batch, the first: its frame goes on the free stack; or, to be sent back,
      into the TX ring, or nowhere if that is full.  Nothing else changes. */
  predicate OnePacket(s: State, t: State, sendBack: bool)
    requires s.batch != []
  {
    var frame := s.batch[0];
    var queued := sendBack && |s.tx| < s.ringSize;
    t == s.(batch := s.batch[1..],
            free := if sendBack then s.free else s.free + [frame],
            tx := if queued then s.tx + [frame] else s.tx,
            lost := if sendBack && !queued then s.lost + [frame] else s.lost,
            outstandingTx := if queued then s.outstandingTx + 1 else s.outstandingTx)
  }

  lemma PacketComesTo(s: State, sendBack: bool)
    requires !s.invalid && s.handler.Processing? && s.batch != []
    ensures OnePacket(s, Step(s, PacketAction(sendBack)), sendBack)
  {
  }

  function FateOf(s: State, sendBack: bool): Fate {
    if !sendBack then Freed else if |s.tx| < s.ringSize then Sent else Lost
  }

  /** From t to u this is left of the batch, these frames have come on the stack and so many sends
      have come to be outstanding; the rings and the lost frames aside, nothing else has changed. */
  predicate BatchMoved(t: State, u: State, batch: seq<Frame>, freed: seq<Frame>, sent: nat) {
    u == t.(batch := batch, free := t.free + freed, outstandingTx := t.outstandingTx + sent, lost := u.lost, fill := u.fill,
            kernelRx := u.kernelRx, rx := u.rx, tx := u.tx, kernelTx := u.kernelTx, completed := u.completed)
  }

  /** The first packets of the batch, sorted by their fates. */
  predicate Sorted(t: State, u: State, fates: seq<Fate>, sendBack: nat -> bool) {
    && |fates| <= |t.batch|
    && Chosen(fates, sendBack)
    && BatchMoved(t, u, t.batch[|fates|..], Select(t.batch[..|fates|], fates, Freed),
                  |Select(t.batch[..|fates|], fates, Sent)|)
  }

  /** Exactly the packets not to be sent back are freed. */
  predicate Chosen(fates: seq<Fate>, sendBack: nat -> bool) {
    forall k :: 0 <= k < |fates| ==> (fates[k].Freed? <==> !sendBack(k))
  }

  lemma SelectOneMore(batch: seq<Frame>, fates: seq<Fate>, fate: Fate, f: Fate)
    requires |fates| < |batch|
    ensures var n := |fates|;
      Select(batch[..n + 1], fates + [fate], f)
      == Select(batch[..n], fates, f) + if fate == f then [batch[n]] else []
  {
    var n := |fates|;
    assert batch[..n + 1][..n] == batch[..n] && (fates + [fate])[..n] == fates;
  }

  lemma RestOneLess(batch: seq<Frame>, n: nat)
    requires n < |batch|
    ensures batch[n..][0] == batch[n] && batch[n..][1..] == batch[n + 1..]
  {
  }

  lemma PacketEffects(u: State, v: State, w: State, sendBack: bool)
    requires SameApplication(u, v) && u.batch != [] && OnePacket(v, w, sendBack)
    ensures var fate, frame := FateOf(v, sendBack), u.batch[0];
      BatchMoved(u, w, u.batch[1..], if fate.Freed? then [frame] else [], if fate.Sent? then 1 else 0)
  {
  }

  lemma BatchMovedTwice(t: State, u: State, w: State, batch: seq<Frame>, freed: seq<Frame>, sent: nat,
                        rest: seq<Frame>, more: seq<Frame>, again: nat)
    requires BatchMoved(t, u, batch, freed, sent) && BatchMoved(u, w, rest, more, again)
    ensures BatchMoved(t, w, rest, freed + more, sent + again)
  {
    Associate(t.free, freed, more);
  }

  lemma ChosenOneMore(fates: seq<Fate>, fate: Fate, sendBack: nat -> bool)
    requires Chosen(fates, sendBack) && (fate.Freed? <==> !sendBack(|fates|))
    ensures Chosen(fates + [fate], sendBack)
  {
  }

  lemma SortedOneMore(t: State, u: State, w: State, fates: seq<Fate>, fate: Fate, sendBack: nat -> bool)
    requires |fates| < |t.batch| && Sorted(t, u, fates, sendBack) && (fate.Freed? <==> !sendBack(|fates|))
    requires BatchMoved(u, w, t.batch[|fates| + 1..], if fate.Freed? then [t.batch[|fates|]] else [], if fate.Sent? then 1 else 0)
    ensures Sorted(t, w, fates + [fate], sendBack)
  {
    var n := |fates|;
    ChosenOneMore(fates, fate, sendBack);
    SelectOneMore(t.batch, fates, fate, Freed);
    SelectOneMore(t.batch, fates, fate, Sent);
    BatchMovedTwice(t, u, w, t.batch[n..], Select(t.batch[..n], fates, Freed), |Select(t.batch[..n], fates, Sent)|,
                    t.batch[n + 1..], if fate.Freed? then [t.batch[n]] else [], if fate.Sent? then 1 else 0);
  }

  lemma Associate(a: seq<Frame>, b: seq<Frame>, c: seq<Frame>)
    ensures a + b + c == a + (b + c)
  {
  }

  lemma PacketIsJournaled(s: State, v: State, w: State, j: Journal, sendBack: bool) returns (k: Journal)
    requires Journaled(s, v, j) && v.batch != [] && OnePacket(v, w, sendBack)
    ensures Journaled(s, w, k)
    ensures var fate, frame := FateOf(v, sendBack), v.batch[0];
      k == j.(sent := j.sent + if fate.Sent? then [frame] else [], lost := j.lost + if fate.Lost? then [frame] else [])
  {
    var frame := v.batch[0];
    k := j;
    match FateOf(v, sendBack)
    case Freed =>
    case Sent =>
      k := j.(sent := j.sent + [frame]);
      AppendToBoth(s.tx, j.sent, j.transmitted, v.tx, frame);
    case Lost =>
      k := j.(lost := j.lost + [frame]);
  }

  /** The journal after the first packets of the batch. */
  predicate SortedIn(j: Journal, k: Journal, batch: seq<Frame>, fates: seq<Fate>)
    requires |fates| <= |batch|
  {
    var frames := batch[..|fates|];
    SameCall(j.(sent := j.sent + Select(frames, fates, Sent), lost := j.lost + Select(frames, fates, Lost)), k)
  }

  lemma SortedInOneMore(j: Journal, k: Journal, l: Journal, batch: seq<Frame>, fates: seq<Fate>, fate: Fate)
    requires |fates| < |batch| && SortedIn(j, k, batch, fates)
    requires var frame := batch[|fates|];
      SameCall(k.(sent := k.sent + if fate.Sent? then [frame] else [], lost := k.lost + if fate.Lost? then [frame] else []), l)
    ensures SortedIn(j, l, batch, fates + [fate])
  {
    SelectOneMore(batch, fates, fate, Sent);
    SelectOneMore(batch, fates, fate, Lost);
  }

  /** The loop over the batch: frames sent, lost and freed are those of the batch selected by
      sendBack, in order. */
  lemma {:induction false} ProcessCallComesTo(s: State, t: State, j: Journal, n: nat, sendBack: nat -> bool, meanwhile: Meanwhile)
    returns (u: State, k: Journal, fates: seq<Fate>)
    requires Journaled(s, t, j) && KernelOnly(meanwhile)
    requires !t.invalid && t.handler.Processing? && n <= |t.batch|
    ensures |fates| == n
    ensures u == Run(t, ProcessCall(n, sendBack, meanwhile))
    ensures Journaled(s, u, k) && Sorted(t, u, fates, sendBack) && SortedIn(j, k, t.batch, fates)
    decreases n
  {
    if n == 0 {
      NoneSorted(t, j, sendBack);
      u, k, fates := t, j, [];
    } else {
      var v, l, some := ProcessCallComesTo(s, t, j, n - 1, sendBack, meanwhile);
      ProcessCallLast(t, n, sendBack, meanwhile);
      var fate;
      u, k, fate := ProcessOnceMore(s, t, v, j, l, some, meanwhile(BeforeProcess(n - 1)), sendBack);
      fates := some + [fate];
    }
  }

  lemma NoneSorted(t: State, j: Journal, sendBack: nat -> bool)
    ensures Sorted(t, t, [], sendBack) && SortedIn(j, j, t.batch, [])
  {
    assert t.batch[..0] == [] && t.batch[0..] == t.batch;
  }

  lemma ProcessOnceMore(s: State, t: State, u: State, j: Journal, k: Journal, fates: seq<Fate>,
                        kernel: seq<Action>, sendBack: nat -> bool)
    returns (w: State, l: Journal, fate: Fate)
    requires Journaled(s, u, k) && |fates| < |t.batch| && Sorted(t, u, fates, sendBack) && SortedIn(j, k, t.batch, fates)
    requires t.handler.Processing? && !t.invalid
    requires forall a :: a in kernel ==> ByKernel(a)
    ensures w == Step(Run(u, kernel), PacketAction(sendBack(|fates|)))
    ensures Journaled(s, w, l) && Sorted(t, w, fates + [fate], sendBack) && SortedIn(j, l, t.batch, fates + [fate])
  {
    var v := Run(u, kernel);
    var back := sendBack(|fates|);
    w := Step(v, PacketAction(back));
    var m := KernelIsJournaled(s, u, k, kernel);
    PacketComesTo(v, back);
    fate := FateOf(v, back);
    l := PacketIsJournaled(s, v, w, m, back);
    RestOneLess(t.batch, |fates|);
    PacketEffects(u, v, w, back);
    SortedOneMore(t, u, w, fates, fate, sendBack);
    SortedInOneMore(j, k, l, t.batch, fates, fate);
  }

  // complete_tx.

  /** How many completions complete_tx sees. */
  function CompletionsSeen(t: State, seen: nat): nat {
    if t.outstandingTx == 0 then 0 else Min(seen, |t.completed|)
  }

  /** The first n frames being reaped have been freed, and nothing else but what the kernel does. */
  predicate FreedMore(t: State, u: State, n: nat)
    requires n <= |t.reaping|
  {
    u == t.(free := t.free + t.reaping[..n], reaping := t.reaping[n..], fill := u.fill, kernelRx := u.kernelRx,
            rx := u.rx, tx := u.tx, kernelTx := u.kernelTx, completed := u.completed)
  }

  lemma FreeOneComesTo(t: State)
    requires !t.invalid && InCompleteTx(t) && t.reaping != []
    ensures Step(t, FreeOne) == t.(reaping := t.reaping[1..], free := t.free + [t.reaping[0]])
  {
  }

  lemma FreedOneMore(t: State, u: State, v: State, n: nat)
    requires n < |t.reaping| && FreedMore(t, u, n) && FreedMore(u, v, 1)
    ensures FreedMore(t, v, n + 1)
  {
    assert t.reaping[n..][1..] == t.reaping[n + 1..];
    assert t.reaping[..n + 1] == t.reaping[..n] + t.reaping[n..][..1];
    Associate(t.free, t.reaping[..n], t.reaping[n..][..1]);
  }

  lemma FreeOnceMore(s: State, u: State, j: Journal, kernel: seq<Action>) returns (v: State, k: Journal)
    requires Journaled(s, u, j) && !u.invalid && InCompleteTx(u) && u.reaping != []
    requires forall a :: a in kernel ==> ByKernel(a)
    ensures v == Step(Run(u, kernel), FreeOne)
    ensures Journaled(s, v, k) && SameCall(j, k) && FreedMore(u, v, 1)
  {
    k := KernelIsJournaled(s, u, j, kernel);
    FreeOneComesTo(Run(u, kernel));
    v := Step(Run(u, kernel), FreeOne);
  }

  lemma NoneFreed(t: State)
    ensures FreedMore(t, t, 0)
  {
  }

  /** The state after n turns of the loop that frees completed frames. */
  function AfterFrees(t: State, n: nat, meanwhile: Meanwhile): State {
    if n == 0 then t else FreeAfter(AfterFrees(t, n - 1, meanwhile), meanwhile(BeforeFree(n - 1)))
  }

  function FreeAfter(u: State, kernel: seq<Action>): State {
    Step(Run(u, kernel), FreeOne)
  }

  lemma {:induction false} AfterFreesIsRun(t: State, n: nat, meanwhile: Meanwhile)
    ensures AfterFrees(t, n, meanwhile) == Run(t, FreeCall(n, meanwhile))
  {
    if n > 0 {
      AfterFreesIsRun(t, n - 1, meanwhile);
      FreeAfterIsRun(t, AfterFrees(t, n - 1, meanwhile), FreeCall(n - 1, meanwhile), meanwhile(BeforeFree(n - 1)));
    }
  }

  lemma FreeAfterIsRun(t: State, u: State, p: seq<Action>, kernel: seq<Action>)
    requires u == Run(t, p)
    ensures FreeAfter(u, kernel) == Run(t, p + kernel + [FreeOne])
  {
    RunExtends(t, p, kernel, FreeOne);
  }

  lemma {:induction false} FreesComeTo(s: State, t: State, j: Journal, n: nat, meanwhile: Meanwhile) returns (k: Journal)
    requires Journaled(s, t, j) && KernelOnly(meanwhile)
    requires !t.invalid && InCompleteTx(t) && n <= |t.reaping|
    ensures var u := AfterFrees(t, n, meanwhile);
      Journaled(s, u, k) && SameCall(j, k) && FreedMore(t, u, n)
    decreases n
  {
    k := j;
    if n == 0 {
      NoneFreed(t);
    } else {
      var l := FreesComeTo(s, t, j, n - 1, meanwhile);
      var u;
      u, k := OneFreeMore(s, t, j, n, AfterFrees(t, n - 1, meanwhile), l, meanwhile(BeforeFree(n - 1)));
    }
  }

  lemma FreeCallComesTo(s: State, t: State, j: Journal, n: nat, meanwhile: Meanwhile) returns (u: State, k: Journal)
    requires Journaled(s, t, j) && KernelOnly(meanwhile)
    requires !t.invalid && InCompleteTx(t) && n <= |t.reaping|
    ensures u == Run(t, FreeCall(n, meanwhile))
    ensures Journaled(s, u, k) && SameCall(j, k) && FreedMore(t, u, n)
  {
    u := AfterFrees(t, n, meanwhile);
    k := FreesComeTo(s, t, j, n, meanwhile);
    AfterFreesIsRun(t, n, meanwhile);
  }

  lemma OneFreeMore(s: State, t: State, j: Journal, n: nat, v: State, l: Journal, kernel: seq<Action>)
    returns (u: State, k: Journal)
    requires 0 < n <= |t.reaping| && !t.invalid && InCompleteTx(t)
    requires Journaled(s, v, l) && SameCall(j, l) && FreedMore(t, v, n - 1)
    requires forall a :: a in kernel ==> ByKernel(a)
    ensures u == Step(Run(v, kernel), FreeOne)
    ensures Journaled(s, u, k) && SameCall(j, k) && FreedMore(t, u, n)
  {
    u, k := FreeOnceMore(s, v, l, kernel);
    FreedOneMore(t, v, u, n - 1);
  }

  lemma PeekCompletionsComesTo(t: State, seen: nat)
    requires !t.invalid && InCompleteTx(t) && t.reaped == 0
    ensures var n := CompletionsSeen(t, seen);
      Step(t, PeekCompletions(seen)) ==
        if n == 0 then LeaveCompleteTx(t)
        else t.(reaping := t.completed[..n], completed := t.completed[n..], reaped := n)
  {
  }

  lemma PeekIsJournaled(s: State, t: State, j: Journal, n: nat)
    requires Journaled(s, t, j) && n <= |t.completed|
    ensures Journaled(s, t.(reaping := t.completed[..n], completed := t.completed[n..], reaped := n),
                      j.(reaped := j.reaped + t.completed[..n]))
  {
    assert t.completed == t.completed[..n] + t.completed[n..];
    assert j.reaped + t.completed == j.reaped + t.completed[..n] + t.completed[n..];
  }

  lemma ReleaseCompletionsComesTo(t: State)
    requires !t.invalid && InCompleteTx(t) && t.reaping == [] && 0 < t.reaped <= t.outstandingTx
    ensures Step(t, ReleaseCompletions) == LeaveCompleteTx(t.(outstandingTx := t.outstandingTx - t.reaped, reaped := 0))
  {
  }

  /** complete_tx: the first n completed frames are freed and no longer outstanding. */
  predicate Completed(t: State, u: State, n: nat) {
    && n <= |t.completed| && n <= t.outstandingTx
    && u.free == t.free + t.completed[..n]
    && u == LeaveCompleteTx(t).(free := u.free, outstandingTx := t.outstandingTx - n, fill := u.fill, kernelRx := u.kernelRx,
                                rx := u.rx, tx := u.tx, kernelTx := u.kernelTx, completed := u.completed)
  }

  lemma CompletedInSteps(t: State, c: State, u: State, v: State, n: nat)
    requires 0 < n <= |t.completed| && n <= t.outstandingTx && t.reaped == 0 && t.reaping == [] && InCompleteTx(t)
    requires c == t.(reaping := t.completed[..n], completed := t.completed[n..], reaped := n)
    requires FreedMore(c, u, n) && SameApplication(u, v)
    ensures Completed(t, LeaveCompleteTx(v.(outstandingTx := v.outstandingTx - n, reaped := 0)), n)
  {
    assert t.completed[..n][..n] == t.completed[..n] && t.completed[..n][n..] == [];
  }

  lemma ReapCallComesTo(s: State, t: State, j: Journal, n: nat, meanwhile: Meanwhile) returns (w: State, k: Journal)
    requires Journaled(s, t, j) && KernelOnly(meanwhile)
    requires !t.invalid && InCompleteTx(t) && t.reaped == 0 && t.reaping == []
    requires 0 < n <= |t.completed| && n <= t.outstandingTx
    ensures var c := t.(reaping := t.completed[..n], completed := t.completed[n..], reaped := n);
      w == Step(Run(Run(c, FreeCall(n, meanwhile)), meanwhile(BeforeReleaseCompletions)), ReleaseCompletions)
    ensures Journaled(s, w, k) && Completed(t, w, n) && SameCall(j.(reaped := j.reaped + t.completed[..n]), k)
  {
    var c := t.(reaping := t.completed[..n], completed := t.completed[n..], reaped := n);
    PeekIsJournaled(s, t, j, n);
    var u, l := FreeCallComesTo(s, c, j.(reaped := j.reaped + t.completed[..n]), n, meanwhile);
    k := KernelIsJournaled(s, u, l, meanwhile(BeforeReleaseCompletions));
    var v := Run(u, meanwhile(BeforeReleaseCompletions));
    CompletedInSteps(t, c, u, v, n);
    ReleaseCompletionsComesTo(v);
    w := Step(v, ReleaseCompletions);
  }

  lemma CompleteCallComesTo(s: State, t: State, j: Journal, seen: nat, meanwhile: Meanwhile) returns (u: State, k: Journal)
    requires Journaled(s, t, j) && KernelOnly(meanwhile)
    requires !t.invalid && InCompleteTx(t) && t.reaped == 0 && t.reaping == [] && |t.completed| <= t.outstandingTx
    ensures u == Run(t, CompleteCall(seen, CompletionsSeen(t, seen), meanwhile))
    ensures Journaled(s, u, k) && Completed(t, u, CompletionsSeen(t, seen))
    ensures SameCall(j.(reaped := j.reaped + t.completed[..CompletionsSeen(t, seen)]), k)
  {
    var n := CompletionsSeen(t, seen);
    PeekCompletionsComesTo(t, seen);
    CompleteCallInSteps(t, seen, n, meanwhile);
    if n == 0 {
      u, k := LeaveCompleteTx(t), j;
      assert t.completed[..0] == [] && j.reaped + [] == j.reaped && t.free + [] == t.free;
    } else {
      u, k := ReapCallComesTo(s, t, j, n, meanwhile);
    }
  }

  // handle_receive_packets, from the lock to the unlock.

  lemma ReleaseCallComesTo(s: State, t: State, j: Journal, meanwhile: Meanwhile) returns (u: State, k: Journal)
    requires Journaled(s, t, j) && KernelOnly(meanwhile)
    requires !t.invalid && t.handler.Processing? && t.batch == []
    ensures u == Run(Step(Run(t, meanwhile(BeforeReleaseRx)), ReleaseRx), meanwhile(BeforeCompleteTx))
    ensures Journaled(s, u, k) && SameCall(j, k) && SameApplication(t.(held := 0, handler := Finishing), u)
  {
    k := KernelIsJournaled(s, t, j, meanwhile(BeforeReleaseRx));
    var v := Run(t, meanwhile(BeforeReleaseRx));
    assert Step(v, ReleaseRx) == v.(held := 0, handler := Finishing);
    k := KernelIsJournaled(s, Step(v, ReleaseRx), k, meanwhile(BeforeCompleteTx));
    u := Run(Step(v, ReleaseRx), meanwhile(BeforeCompleteTx));
  }

  /** What a call comes to.  The topmost frames of the stack, as many as were counted, go into the
      fill ring, from the top.  Then the frames of the batch, in order: those of packets not to be
      sent back go on the stack; the others into the TX ring, or are lost.  Last, completed frames
      go on the stack, and are no longer outstanding. */
  predicate CallComesTo(s: State, t: State, j: Journal, fates: seq<Fate>, sendBack: nat -> bool) {
    && 0 <= StockOf(s) <= |s.free|
    && Journaled(s, t, j)
    && j.stocked == TopDown(s.free, StockOf(s))
    && |fates| == |s.batch| && Chosen(fates, sendBack)
    && j.sent == Select(s.batch, fates, Sent)
    && j.lost == Select(s.batch, fates, Lost)
    && t.free == s.free[..|s.free| - StockOf(s)] + Select(s.batch, fates, Freed) + j.reaped
    && t.outstandingTx == s.outstandingTx + |j.sent| - |j.reaped|
    && t.batch == [] && t.staged == [] && t.handler.Ready? && t.sender.Away?
  }

  lemma CallInSteps(s: State, t: State, u: State, v: State, w: State, fates: seq<Fate>, sendBack: nat -> bool, n: nat)
    requires s.sender.Away? && 0 <= StockOf(s) && Refilled(s, t, StockOf(s))
    requires Sorted(t, u, fates, sendBack) && |fates| == |s.batch|
    requires SameApplication(u.(held := 0, handler := Finishing), v) && Completed(v, w, n)
    ensures w.batch == [] && w.staged == [] && w.handler.Ready? && w.sender.Away?
    ensures w.free == s.free[..|s.free| - StockOf(s)] + Select(s.batch, fates, Freed) + v.completed[..n]
    ensures w.outstandingTx == s.outstandingTx + |Select(s.batch, fates, Sent)| - n
  {
    assert s.batch[..|s.batch|] == s.batch;
  }

  lemma JournalOfCall(i: Journal, j: Journal, k: Journal, l: Journal, stocked: seq<Frame>, batch: seq<Frame>, fates: seq<Fate>, reaped: seq<Frame>)
    requires SameCall(NOTHING.(stocked := stocked), i) && |fates| == |batch| && SortedIn(i, j, batch, fates)
    requires SameCall(j, k) && SameCall(k.(reaped := k.reaped + reaped), l)
    ensures l.stocked == stocked && l.reaped == reaped
    ensures l.sent == Select(batch, fates, Sent) && l.lost == Select(batch, fates, Lost)
  {
    assert batch[..|batch|] == batch;
  }

  /** What holds of a reachable state before the lock is taken. */
  lemma ReachableBeforeRefill(s: State)
    requires Inv(s) && !s.invalid && s.handler.Peeked? && s.sender.Away?
    ensures BeforeRefill(s) && s.reaped == 0 && s.reaping == [] && StockOf(s) >= 0
  {
  }

  lemma ReachableBeforeComplete(s: State)
    requires Inv(s) && s.reaped == 0
    ensures s.reaping == [] && |s.completed| <= s.outstandingTx
  {
  }

  lemma RefillGives(s: State, t: State, stock: nat, free: nat, meanwhile: Meanwhile)
    requires Inv(s) && KernelOnly(meanwhile)
    requires !s.invalid && s.handler.Peeked? && s.sender.Away?
    requires stock == StockOf(s) <= |s.free| == free && t == Run(s, RefillCall(stock, free, meanwhile))
    ensures Refilled(s, t, stock)
  {
    ReachableBeforeRefill(s);
    var u, j := RefillCallComesTo(s, meanwhile);
  }

  lemma CompleteGives(t: State, seen: nat, meanwhile: Meanwhile)
    requires Inv(t) && KernelOnly(meanwhile) && !t.invalid && InCompleteTx(t) && t.reaped == 0
    ensures Completed(t, Run(t, CompleteCall(seen, CompletionsSeen(t, seen), meanwhile)), CompletionsSeen(t, seen))
  {
    ReachableBeforeComplete(t);
    var u, j := CompleteCallComesTo(t, t, NOTHING, seen, meanwhile);
  }

  /** The state in which complete_tx looks at the completion ring keeps the invariant. */
  lemma BeforeCompleteKeepsInv(s: State, stock: nat, free: nat, rcvd: nat, sendBack: nat -> bool, meanwhile: Meanwhile)
    requires Inv(s)
    ensures Inv(BeforeComplete(s, stock, free, rcvd, sendBack, meanwhile))
  {
    var t := Run(s, RefillCall(stock, free, meanwhile));
    RunKeepsInv(s, RefillCall(stock, free, meanwhile));
    var u := Run(t, ProcessCall(rcvd, sendBack, meanwhile));
    RunKeepsInv(t, ProcessCall(rcvd, sendBack, meanwhile));
    var v := Run(u, meanwhile(BeforeReleaseRx));
    RunKeepsInv(u, meanwhile(BeforeReleaseRx));
    StepKeepsInv(v, ReleaseRx);
    RunKeepsInv(Step(v, ReleaseRx), meanwhile(BeforeCompleteTx));
  }

  /** A whole call with enough frames for its refill, over everything the kernel may do
      meanwhile. */
  lemma LockedCallComesTo(s: State, seen: nat, sendBack: nat -> bool, meanwhile: Meanwhile)
    returns (freed: nat, j: Journal, fates: seq<Fate>)
    requires Inv(s) && KernelOnly(meanwhile)
    requires !s.invalid && s.handler.Peeked? && s.sender.Away? && 0 <= StockOf(s) <= |s.free|
    ensures freed == CompletionsSeen(BeforeComplete(s, StockOf(s), |s.free|, |s.batch|, sendBack, meanwhile), seen)
    ensures |j.reaped| == freed
    ensures CallComesTo(s, Run(s, LockedCall(StockOf(s), |s.free|, |s.batch|, seen, freed, sendBack, meanwhile)), j, fates, sendBack)
  {
    ReachableBeforeRefill(s);
    var t, i := RefillCallComesTo(s, meanwhile);
    var u, k;
    u, k, fates := ProcessCallComesTo(s, t, i, |s.batch|, sendBack, meanwhile);
    var v, m := ReleaseCallComesTo(s, u, k, meanwhile);
    BeforeCompleteKeepsInv(s, StockOf(s), |s.free|, |s.batch|, sendBack, meanwhile);
    ReachableBeforeComplete(v);
    var w;
    w, j := CompleteCallComesTo(s, v, m, seen, meanwhile);
    freed := CompletionsSeen(v, seen);
    CallInSteps(s, t, u, v, w, fates, sendBack, freed);
    JournalOfCall(i, k, m, j, TopDown(s.free, StockOf(s)), s.batch, fates, v.completed[..freed]);
    LockedCallInSteps(s, StockOf(s), |s.free|, |s.batch|, seen, freed, sendBack, meanwhile);
  }
}
