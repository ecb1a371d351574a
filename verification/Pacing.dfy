/** The sender thread's paced loop (`thread_send_packets`) and `pp_sleep`.

    Time is a sequence of instants at which the thread may look at the monotonic
    clock, in order; the run ends where the sequence does.  Whatever happens
    between two looks, in particular a send, takes the time between them.
    `nanosleep` returns at the first instant by which its time has passed. */
module Pacing {

  import opened Numbers

  const ONE_MS: nat := 1000000
  const ONE_S: nat := 1000000000

  /** The clock never goes back. */
  predicate Monotone(clock: seq<nat>) {
    forall i, j :: 0 <= i <= j < |clock| ==> clock[i] <= clock[j]
  }

  /** The seconds and nanoseconds handed to nanosleep: together the whole time, with a
      nanosecond part that nanosleep accepts. */
  function Timespec(ns: nat): (r: (nat, nat))
    ensures r.0 * ONE_S + r.1 == ns && r.1 < ONE_S
  {
    (ns / ONE_S, ns % ONE_S)
  }

  /** nanosleep: the first instant from `at` on by which the time has passed. */
  method Nanosleep(clock: seq<nat>, at: nat, sec: nat, nsec: nat) returns (next: nat)
    requires 0 < at <= |clock| && Monotone(clock)
    ensures at <= next <= |clock|
    ensures next < |clock| ==> clock[next] - clock[at - 1] >= sec * ONE_S + nsec
    ensures forall k :: at <= k < next ==> clock[k] - clock[at - 1] < sec * ONE_S + nsec
  {
    next := at;
    while next < |clock| && clock[next] - clock[at - 1] < sec * ONE_S + nsec
      invariant at <= next <= |clock|
      invariant forall k :: at <= k < next ==> clock[k] - clock[at - 1] < sec * ONE_S + nsec
    {
      next := next + 1;
    }
  }

  /** A sleep of ns that begins before the look `at` is over at the look `next`, and at none
      before it: a millisecond or less is waited for by looking at the clock, from `at` on;
      more than that passes from the look before `at`. */
  predicate SleepsUntil(clock: seq<nat>, at: nat, ns: nat, next: nat)
    requires 0 < at
  {
    if ns == 0 then next == at
    else if ns <= ONE_MS then
      && at < next < |clock|
      && clock[next] - clock[at] >= ns
      && forall k :: at < k < next ==> clock[k] - clock[at] < ns
    else
      && at <= next < |clock|
      && clock[next] - clock[at - 1] >= ns
      && forall k :: at <= k < next ==> clock[k] - clock[at - 1] < ns
  }

  /** `pp_sleep`: a busy wait up to a millisecond, nanosleep above.  `at` is the next instant
      to be looked at.  The thread goes on at `next`; it never does if the clock ends first. */
  method PpSleep(clock: seq<nat>, at: nat, ns: nat) returns (over: bool, next: nat)
    requires 0 < at <= |clock| && Monotone(clock)
    ensures at <= next <= |clock|
    ensures over ==> SleepsUntil(clock, at, ns, next)
    ensures over && next < |clock| ==> clock[next] >= clock[at - 1] + ns
    ensures !over ==> next == |clock| && forall n :: !SleepsUntil(clock, at, ns, n)
  {
    if ns == 0 {
      return true, at;
    }
    if ns <= ONE_MS {
      if at == |clock| {
        return false, at;
      }
      var start := clock[at];
      next := at + 1;
      while next < |clock| && clock[next] - start < ns
        invariant at < next <= |clock|
        invariant forall k :: at < k < next ==> clock[k] - start < ns
      {
        next := next + 1;
      }
    } else {
      var t := Timespec(ns);
      next := Nanosleep(clock, at, t.0, t.1);
    }
    over := next < |clock|;
  }

  /** The time from look i to look j. */
  function Span(clock: seq<nat>, i: nat, j: nat): int
    requires i < |clock| && j < |clock|
  {
    var from: int, to: int := clock[i], clock[j];
    to - from
  }

  /** A ping started at look a: the send takes until look a + 1, and what is left of the
      interval is slept, so that the next ping may start at look b. */
  predicate NextAt(clock: seq<nat>, interval: nat, a: nat, b: nat) {
    && a + 1 < |clock|
    && var elapsed := Span(clock, a, a + 1);
       if elapsed < interval then SleepsUntil(clock, a + 2, interval - elapsed, b) else b == a + 2
  }

  /** Every ping but the first starts at the look that ends the pause after the one before. */
  predicate Paced(clock: seq<nat>, interval: nat, looks: seq<nat>) {
    && (forall k :: 0 <= k < |looks| ==> looks[k] < |clock|)
    && (looks != [] ==> looks[0] == 0)
    && forall k :: 0 <= k < |looks| - 1 ==> NextAt(clock, interval, looks[k], looks[k + 1])
  }

  /** Each ping starts at least one interval after the one before it. */
  predicate Apart(clock: seq<nat>, interval: nat, looks: seq<nat>)
    requires forall k :: 0 <= k < |looks| ==> looks[k] < |clock|
  {
    forall k :: 0 <= k < |looks| - 1 ==> clock[looks[k + 1]] >= clock[looks[k]] + interval
  }

  ghost predicate NeverNext(clock: seq<nat>, interval: nat, a: nat) {
    forall b: nat :: b < |clock| ==> !NextAt(clock, interval, a, b)
  }

  /** The clock ends before the next ping can start. */
  ghost predicate ClockEnds(clock: seq<nat>, interval: nat, looks: seq<nat>) {
    if looks == [] then clock == []
    else NeverNext(clock, interval, looks[|looks| - 1])
  }

  /** `thread_send_packets`.  `sendOk(id)` says whether sending ping id succeeds; `looks` are
      the instants at which pings start.  Ids go out as 1, 2, 3, ..., each at the end of the
      pause after the one before.  Pings are missing only after a failed send, or because
      the clock ended. */
  method ThreadSendPackets(clock: seq<nat>, iters: nat, interval: nat, sendOk: nat -> bool)
    returns (ids: seq<nat>, looks: seq<nat>)
    requires Monotone(clock)
    ensures |ids| == |looks| <= iters
    ensures forall k :: 0 <= k < |ids| ==> ids[k] == k + 1
    ensures Paced(clock, interval, looks) && Apart(clock, interval, looks)
    ensures forall id :: 1 <= id < |ids| ==> sendOk(id)
    ensures |ids| < iters ==> (ids != [] && !sendOk(|ids|)) || ClockEnds(clock, interval, looks)
  {
    ids, looks := [], [];
    var at: nat := 0;
    var id := 1;
    while id <= iters
      invariant 1 <= id <= iters + 1 && |ids| == |looks| == id - 1
      invariant forall k :: 0 <= k < |ids| ==> ids[k] == k + 1
      invariant forall k :: 1 <= k < id ==> sendOk(k)
      invariant Paced(clock, interval, looks) && Apart(clock, interval, looks)
      invariant MayStart(clock, interval, looks, at)
    {
      if at >= |clock| {
        OnlyOneNext(clock, interval, looks, at);
        return;
      }
      PacedByOneMore(clock, interval, looks, at);
      ids, looks := ids + [id], looks + [at];
      if !sendOk(id) {
        return;
      }
      var over, next := Pause(clock, interval, at);
      if !over {
        return;
      }
      at, id := next, id + 1;
    }
  }

  /** The second look, and the sleep if there is something left of the interval. */
  method Pause(clock: seq<nat>, interval: nat, a: nat) returns (over: bool, b: nat)
    requires Monotone(clock) && a < |clock|
    ensures over ==> NextAt(clock, interval, a, b)
    ensures !over ==> NeverNext(clock, interval, a)
  {
    if a + 1 == |clock| {
      return false, a;
    }
    var elapsed := Span(clock, a, a + 1);
    if elapsed < interval {
      over, b := PpSleep(clock, a + 2, interval - elapsed);
    } else {
      over, b := true, a + 2;
    }
  }

  /** The first ping starts at once, the next one when the pause is over. */
  predicate MayStart(clock: seq<nat>, interval: nat, looks: seq<nat>, at: nat) {
    if looks == [] then at == 0 else NextAt(clock, interval, looks[|looks| - 1], at)
  }

  lemma PacedByOneMore(clock: seq<nat>, interval: nat, looks: seq<nat>, at: nat)
    requires Monotone(clock) && at < |clock|
    requires Paced(clock, interval, looks) && MayStart(clock, interval, looks, at)
    ensures Paced(clock, interval, looks + [at]) && Apart(clock, interval, looks + [at])
  {
    var more := looks + [at];
    forall k | 0 <= k < |more| - 1
      ensures NextAt(clock, interval, more[k], more[k + 1])
      ensures clock[more[k + 1]] >= clock[more[k]] + interval
    {
      if k < |looks| - 1 {
        assert NextAt(clock, interval, looks[k], looks[k + 1]);
      }
      AtLeastOneInterval(clock, interval, more[k], more[k + 1]);
    }
  }

  lemma AtLeastOneInterval(clock: seq<nat>, interval: nat, a: nat, b: nat)
    requires Monotone(clock) && NextAt(clock, interval, a, b) && b < |clock|
    ensures clock[b] >= clock[a] + interval
  {
  }

  /** A pause ends at one look only. */
  lemma SleepEndsOnce(clock: seq<nat>, at: nat, ns: nat, m: nat, n: nat)
    requires 0 < at && SleepsUntil(clock, at, ns, m) && SleepsUntil(clock, at, ns, n)
    ensures m == n
  {
  }

  lemma NextIsUnique(clock: seq<nat>, interval: nat, a: nat, m: nat, n: nat)
    requires NextAt(clock, interval, a, m) && NextAt(clock, interval, a, n)
    ensures m == n
  {
    var elapsed := Span(clock, a, a + 1);
    if elapsed < interval {
      SleepEndsOnce(clock, a + 2, interval - elapsed, m, n);
    }
  }

  lemma OnlyOneNext(clock: seq<nat>, interval: nat, looks: seq<nat>, at: nat)
    requires at >= |clock| && MayStart(clock, interval, looks, at)
    ensures ClockEnds(clock, interval, looks)
  {
    if looks != [] {
      var a := looks[|looks| - 1];
      forall b: nat | b < |clock|
        ensures !NextAt(clock, interval, a, b)
      {
        if NextAt(clock, interval, a, b) {
          NextIsUnique(clock, interval, a, at, b);
        }
      }
    }
  }

  /** No two looks are further apart than this. */
  predicate LooksWithin(clock: seq<nat>, gap: nat) {
    forall i :: 0 <= i < |clock| - 1 ==> clock[i + 1] - clock[i] <= gap
  }

  /** The next ping starts no sooner than one interval after the last, and no later than that
      (or than the send takes) plus the time of two looks. */
  lemma OneIntervalApart(clock: seq<nat>, interval: nat, a: nat, b: nat, gap: nat)
    requires Monotone(clock) && NextAt(clock, interval, a, b) && b < |clock|
    requires LooksWithin(clock, gap)
    ensures clock[a] + interval <= clock[b]
    ensures clock[b] <= clock[a] + Max(interval, gap) + 2 * gap
  {
    assert clock[a + 1] - clock[a] <= gap;
    assert clock[a + 1 + 1] - clock[a + 1] <= gap;
    if b > a + 2 {
      assert clock[b - 1 + 1] - clock[b - 1] <= gap;
    }
  }

  /** So ping k starts between k intervals and k times that longest pause after the first. */
  lemma {:induction false} PacedFromTheFirst(clock: seq<nat>, interval: nat, looks: seq<nat>, k: nat, gap: nat)
    requires Monotone(clock) && LooksWithin(clock, gap)
    requires Paced(clock, interval, looks) && k < |looks|
    ensures clock[0] + k * interval <= clock[looks[k]]
    ensures clock[looks[k]] <= clock[0] + k * (Max(interval, gap) + 2 * gap)
  {
    if k > 0 {
      var pause := Max(interval, gap) + 2 * gap;
      PacedFromTheFirst(clock, interval, looks, k - 1, gap);
      assert NextAt(clock, interval, looks[k - 1], looks[k - 1 + 1]);
      OneIntervalApart(clock, interval, looks[k - 1], looks[k], gap);
      assert k * interval == (k - 1) * interval + interval;
      assert k * pause == (k - 1) * pause + pause;
    }
  }

  /** The first look from n on, before the end, by which the clock shows t. */
  lemma {:induction false} FirstLookAt(clock: seq<nat>, n: nat, t: int) returns (next: nat)
    requires n < |clock| && clock[|clock| - 1] >= t
    ensures n <= next < |clock| && clock[next] >= t
    ensures forall k :: n <= k < next ==> clock[k] < t
    decreases |clock| - n
  {
    if clock[n] >= t {
      next := n;
    } else {
      next := FirstLookAt(clock, n + 1, t);
    }
  }

  /** A clock that goes on for one interval after look a + 2 does not end before the next ping. */
  lemma ClockLastsForTheNext(clock: seq<nat>, interval: nat, a: nat) returns (b: nat)
    requires Monotone(clock) && a + 3 < |clock|
    requires clock[|clock| - 1] >= clock[a + 2] + interval
    ensures b < |clock| && NextAt(clock, interval, a, b)
  {
    var elapsed := Span(clock, a, a + 1);
    if elapsed >= interval {
      b := a + 2;
    } else if interval - elapsed <= ONE_MS {
      b := FirstLookAt(clock, a + 3, clock[a + 2] + interval - elapsed);
    } else {
      b := FirstLookAt(clock, a + 2, clock[a + 1] + interval - elapsed);
    }
  }

  /** So pings are missing only after a failed send or within an interval of the clock's end. */
  lemma EndsOnlyAtTheEnd(clock: seq<nat>, interval: nat, looks: seq<nat>)
    requires Monotone(clock) && ClockEnds(clock, interval, looks) && clock != []
    ensures looks != []
    ensures var a := looks[|looks| - 1];
      a + 3 < |clock| ==> clock[|clock| - 1] < clock[a + 2] + interval
  {
    var a := looks[|looks| - 1];
    if a + 3 < |clock| && clock[|clock| - 1] >= clock[a + 2] + interval {
      var b := ClockLastsForTheNext(clock, interval, a);
      assert false;
    }
  }
}
