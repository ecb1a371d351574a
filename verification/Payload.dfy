/** The ping-pong payload of `common/common.h` and its latency. */
module Payload {

  const TWO_TO_32: nat := 0x1_0000_0000
  const TWO_TO_63: nat := 0x8000_0000_0000_0000
  const TWO_TO_64: nat := 0x1_0000_0000_0000_0000
  const UINT64_MAX: nat := 0xFFFF_FFFF_FFFF_FFFF

  const PINGPONG_MAGIC: nat := 0x8badbeef

  /** ts[0] client send, ts[1] server receive, ts[2] server send, ts[3] client receive. */
  datatype Payload = Payload(id: nat, ts: seq<nat>, magic: nat)

  /** Every field fits its C type. */
  predicate Fits(p: Payload) {
    && p.id < TWO_TO_64
    && |p.ts| == 4
    && (forall i :: 0 <= i < 4 ==> p.ts[i] < TWO_TO_64)
    && p.magic < TWO_TO_32
  }

  predicate AllStamped(ps: seq<Payload>) {
    forall k :: 0 <= k < |ps| ==> |ps[k].ts| == 4
  }

  function NewPayload(id: nat): (p: Payload)
    ensures ValidPayload(p) && |p.ts| == 4
  {
    Payload(id, [0, 0, 0, 0], PINGPONG_MAGIC)
  }

  predicate ValidPayload(p: Payload) {
    p.magic == PINGPONG_MAGIC
  }

  /** Unsigned 64-bit subtraction. */
  function Sub64(a: nat, b: nat): (r: nat)
    ensures r < TWO_TO_64
  {
    (a - b) % TWO_TO_64
  }

  /** Half of the round trip less the time at the server, in wrapping 64-bit arithmetic. */
  function ComputeLatency(p: Payload): (r: nat)
    requires |p.ts| == 4
    ensures r < TWO_TO_63
  {
    Sub64(Sub64(p.ts[3], p.ts[0]), Sub64(p.ts[2], p.ts[1])) / 2
  }

  /** Wrapping differences of wrapped readings are wrapped differences. */
  lemma Sub64OfWrapped(a: int, b: int)
    ensures Sub64(a % TWO_TO_64, b % TWO_TO_64) == (a - b) % TWO_TO_64
  {
    var m := TWO_TO_64;
    var qa, qb := a / m, b / m;
    assert a % m - b % m == a - b - m * (qa - qb);
    ModShift(a - b, -(qa - qb));
  }

  lemma ModShift(a: int, k: int)
    ensures (a + TWO_TO_64 * k) % TWO_TO_64 == a % TWO_TO_64
  {
    var q, r := a / TWO_TO_64, a % TWO_TO_64;
    assert a + TWO_TO_64 * k == TWO_TO_64 * (q + k) + r;
  }
}
