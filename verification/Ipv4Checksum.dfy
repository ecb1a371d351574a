/** The IPv4 header rewrite of the pure-XDP server and its checksum.

    A header is 20 bytes.  The checksum is computed in the machine's own
    (little-endian) byte order over 32-bit words, and read by the receiver as a
    ones' complement sum of big-endian 16-bit words, as in section 3.1 of RFC 791
    and sections 1 and 2 of RFC 1071. */
module Ipv4Checksum {

  type Byte = b: int | 0 <= b < 256

  const HEADER_SIZE: nat := 20    // sizeof (struct iphdr)

  // Offsets in the header.
  const TTL: nat := 8
  const CHECK: nat := 10
  const SADDR: nat := 12
  const DADDR: nat := 16

  // ------------------------------------------------- ones' complement sums

  /** The 16-bit ones' complement representative of n: zero only for zero. */
  function OnesSum(n: nat): (r: nat)
    ensures r <= 65535
  {
    if n == 0 then 0 else (n - 1) % 65535 + 1
  }

  lemma OnesSumShift(n: nat, k: nat)
    requires n > 0
    ensures OnesSum(n + 65535 * k) == OnesSum(n)
  {
    var q, r := (n - 1) / 65535, (n - 1) % 65535;
    assert n - 1 + 65535 * k == 65535 * (q + k) + r;
    DivModUnique(n - 1 + 65535 * k, q + k, r);
  }

  lemma DivModUnique(n: nat, q: nat, r: nat)
    requires n == 65535 * q + r && r < 65535
    ensures n / 65535 == q && n % 65535 == r
  {
  }

  lemma OnesSumIsIdentity(n: nat)
    requires n <= 65535
    ensures OnesSum(n) == n
  {
  }

  /** The representative is 0xffff exactly for the positive multiples of 0xffff. */
  lemma AllOnesExactlyForMultiples(n: nat)
    ensures OnesSum(n) == 65535 <==> n > 0 && n % 65535 == 0
  {
  }

  // ------------------------------------------------------------- folding

  function Fold(x: nat): nat {
    x % 65536 + x / 65536
  }

  /** Folding the carries back in does not change the ones' complement sum. */
  lemma FoldKeepsOnesSum(x: nat)
    ensures OnesSum(Fold(x)) == OnesSum(x)
    ensures Fold(x) == 0 <==> x == 0
  {
    var q := x / 65536;
    assert x == Fold(x) + 65535 * q;
    if Fold(x) > 0 {
      OnesSumShift(Fold(x), q);
    }
  }

  /** What is left to fold after i rounds from 64 bits. */
  function Bound(i: nat): nat {
    if i == 0 then 0xFFFF_FFFF_FFFF_FFFF
    else if i == 1 then 0x1_0000_0000_FFFE
    else if i == 2 then 0x1_0000_FFFE
    else if i == 3 then 0x1_FFFE
    else 0xFFFF
  }

  lemma FoldShrinks(x: nat, i: nat)
    requires i < 4 && x <= Bound(i)
    ensures Fold(x) <= Bound(i + 1)
  {
  }

  /** `csum_fold_helper`: four conditional folds take any 64-bit sum to 16 bits, and the
      result is the complement of its ones' complement sum. */
  method CsumFoldHelper(csum: nat) returns (r: nat)
    requires csum < 0x1_0000_0000_0000_0000
    ensures r == 65535 - OnesSum(csum)
  {
    var acc: nat := csum;
    for i := 0 to 4
      invariant acc <= Bound(i)
      invariant OnesSum(acc) == OnesSum(csum)
    {
      if acc / 65536 != 0 {
        FoldShrinks(acc, i);
        FoldKeepsOnesSum(acc);
        acc := acc % 65536 + acc / 65536;
      }
    }
    OnesSumIsIdentity(acc);
    r := 65535 - acc;    // ~csum, truncated to 16 bits
  }

  /** Three folds are not enough: the largest 64-bit sum still has a carry after them. */
  lemma ThreeFoldsLeaveACarry()
    ensures Fold(Fold(Fold(0xFFFF_FFFF_FFFF_FFFF))) == 0x1_FFFE
  {
    assert Fold(0xFFFF_FFFF_FFFF_FFFF) == 0x1_0000_0000_FFFE;
    assert Fold(0x1_0000_0000_FFFE) == 0x1_0000_FFFE;
    assert Fold(0x1_0000_FFFE) == 0x1_FFFE;
  }

  // --------------------------------------------------- sums over a header

  /** The sum of the first bytes of the first n 16-bit words. */
  function First(h: seq<Byte>, n: nat): nat
    requires 2 * n <= |h|
  {
    if n == 0 then 0 else First(h, n - 1) + h[2 * n - 2]
  }

  /** The sum of their second bytes. */
  function Second(h: seq<Byte>, n: nat): nat
    requires 2 * n <= |h|
  {
    if n == 0 then 0 else Second(h, n - 1) + h[2 * n - 1]
  }

  /** The sum of the first n 16-bit words, least significant byte first. */
  function SumLittle(h: seq<Byte>, n: nat): nat
    requires 2 * n <= |h|
  {
    First(h, n) + 256 * Second(h, n)
  }

  /** The sum of the first n 16-bit words, most significant byte first: network order. */
  function SumBig(h: seq<Byte>, n: nat): nat
    requires 2 * n <= |h|
  {
    256 * First(h, n) + Second(h, n)
  }

  /** Byte order independence, section 2 (B) of RFC 1071: either order sums to a multiple
      of 0xffff exactly when the other does. */
  lemma ByteOrderIndependence(h: seq<Byte>, n: nat)
    requires 2 * n <= |h|
    ensures SumLittle(h, n) % 65535 == 0 <==> SumBig(h, n) % 65535 == 0
  {
    var little, big := SumLittle(h, n), SumBig(h, n);
    assert 256 * little == big + 65535 * Second(h, n);
    assert 256 * big == little + 65535 * First(h, n);
    if little % 65535 == 0 {
      MultipleTimes(little, 256);
      MultipleMinus(256 * little, Second(h, n));
    }
    if big % 65535 == 0 {
      MultipleTimes(big, 256);
      MultipleMinus(256 * big, First(h, n));
    }
  }

  lemma MultipleTimes(n: nat, k: nat)
    requires n % 65535 == 0
    ensures (k * n) % 65535 == 0
  {
    var q := n / 65535;
    assert k * n == 65535 * (k * q);
    DivModUnique(k * n, k * q, 0);
  }

  lemma MultipleMinus(n: nat, k: nat)
    requires n % 65535 == 0 && n >= 65535 * k
    ensures (n - 65535 * k) % 65535 == 0
  {
    var q := n / 65535;
    DivModUnique(n - 65535 * k, q - k, 0);
  }

  function Word32(h: seq<Byte>, i: nat): (r: nat)
    requires i + 4 <= |h|
    ensures r <= 0xFFFF_FFFF
  {
    var b0: int, b1: int, b2: int, b3: int := h[i], h[i + 1], h[i + 2], h[i + 3];
    b0 + 0x100 * b1 + 0x1_0000 * b2 + 0x100_0000 * b3
  }

  /** 32-bit ones' complement addition: the carry goes back in. */
  function Add32(a: nat, b: nat): (r: nat)
    requires a <= 0xFFFF_FFFF && b <= 0xFFFF_FFFF
    ensures r <= 0xFFFF_FFFF
  {
    if a + b > 0xFFFF_FFFF then a + b - 0xFFFF_FFFF else a + b
  }

  /** `bpf_csum_diff` over the first n words: their 32-bit ones' complement sum. */
  function CsumDiff(h: seq<Byte>, n: nat): (r: nat)
    requires 4 * n <= |h|
    ensures r <= 0xFFFF_FFFF
  {
    if n == 0 then 0 else Add32(CsumDiff(h, n - 1), Word32(h, 4 * (n - 1)))
  }

  lemma OnesSumAddLeft(a: nat, b: nat)
    ensures OnesSum(OnesSum(a) + b) == OnesSum(a + b)
  {
    if a > 0 {
      var k := (a - 1) / 65535;
      assert a == OnesSum(a) + 65535 * k;
      OnesSumShift(OnesSum(a) + b, k);
    }
  }

  lemma Add32KeepsOnesSum(a: nat, b: nat)
    requires a <= 0xFFFF_FFFF && b <= 0xFFFF_FFFF
    ensures OnesSum(Add32(a, b)) == OnesSum(a + b)
  {
    if a + b > 0xFFFF_FFFF {
      OnesSumShift(Add32(a, b), 65537);
    }
  }

  /** The k-th 16-bit word, least significant byte first. */
  function Half(h: seq<Byte>, k: nat): nat
    requires 2 * k + 2 <= |h|
  {
    var b0: int, b1: int := h[2 * k], h[2 * k + 1];
    b0 + 256 * b1
  }

  lemma LastHalf(h: seq<Byte>, n: nat)
    requires 0 < n && 2 * n <= |h|
    ensures SumLittle(h, n) == SumLittle(h, n - 1) + Half(h, n - 1)
  {
  }

  lemma WordIsTwoHalves(h: seq<Byte>, n: nat)
    requires 0 < n && 4 * n <= |h|
    ensures Word32(h, 4 * (n - 1)) == Half(h, 2 * n - 2) + 65536 * Half(h, 2 * n - 1)
    ensures SumLittle(h, 2 * n) == SumLittle(h, 2 * (n - 1)) + Half(h, 2 * n - 2) + Half(h, 2 * n - 1)
  {
    LastHalf(h, 2 * n);
    LastHalf(h, 2 * n - 1);
  }

  /** Adding a word to one sum and its two halves to another keeps the sums in step. */
  lemma AddWordOrHalves(acc: nat, sum: nat, lower: nat, upper: nat)
    requires OnesSum(acc) == OnesSum(sum)
    requires acc <= 0xFFFF_FFFF && lower + 65536 * upper <= 0xFFFF_FFFF
    ensures OnesSum(Add32(acc, lower + 65536 * upper)) == OnesSum(sum + lower + upper)
  {
    var w := lower + 65536 * upper;
    Add32KeepsOnesSum(acc, w);
    OnesSumAddLeft(acc, w);
    OnesSumAddLeft(sum, w);
    if sum + lower + upper > 0 {
      assert sum + w == sum + lower + upper + 65535 * upper;
      OnesSumShift(sum + lower + upper, upper);
    }
  }

  /** Parallel summation, section 2 (C) of RFC 1071: summing 32-bit words and folding gives
      the sum of the 16-bit words. */
  lemma {:induction false} WordSumsAgree(h: seq<Byte>, n: nat)
    requires 4 * n <= |h|
    ensures OnesSum(CsumDiff(h, n)) == OnesSum(SumLittle(h, 2 * n))
  {
    if n > 0 {
      WordSumsAgree(h, n - 1);
      WordIsTwoHalves(h, n);
      AddWordOrHalves(CsumDiff(h, n - 1), SumLittle(h, 2 * (n - 1)), Half(h, 2 * n - 2), Half(h, 2 * n - 1));
    }
  }

  // ------------------------------------------------------------ the reply

  function Swapped(h: seq<Byte>): (r: seq<Byte>)
    requires |h| == HEADER_SIZE
    ensures |r| == HEADER_SIZE
  {
    h[..SADDR] + h[DADDR..] + h[SADDR..DADDR]
  }

  function Low(n: nat): Byte { n % 256 }
  function High(n: nat): Byte { n / 256 % 256 }

  /** The header with its checksum field set, in the machine's byte order. */
  function WithCheck(h: seq<Byte>, check: nat): (r: seq<Byte>)
    requires |h| == HEADER_SIZE
    ensures |r| == HEADER_SIZE
  {
    h[CHECK := Low(check)][CHECK + 1 := High(check)]
  }

  /** The checksum that the server stores. */
  function CheckOf(h: seq<Byte>): (r: nat)
    requires |h| == HEADER_SIZE
    ensures r <= 65535
  {
    65535 - OnesSum(SumLittle(WithCheck(h, 0), 10))
  }

  /** The header that goes back: addresses swapped, checksum renewed, then TTL set. */
  function Reply(h: seq<Byte>): (r: seq<Byte>)
    requires |h| == HEADER_SIZE
    ensures |r| == HEADER_SIZE
  {
    var swapped := Swapped(h);
    WithCheck(swapped, CheckOf(swapped))[TTL := 64]
  }

  /** The reply goes back where the ping came from and differs from it in nothing else but
      the TTL and the checksum. */
  lemma ReplyGoesBack(h: seq<Byte>)
    requires |h| == HEADER_SIZE
    ensures var r := Reply(h);
      && r[SADDR..DADDR] == h[DADDR..] && r[DADDR..] == h[SADDR..DADDR]
      && r[TTL] == 64
      && forall k :: 0 <= k < SADDR && k != TTL && k != CHECK && k != CHECK + 1 ==> r[k] == h[k]
  {
    var r, swapped := Reply(h), Swapped(h);
    assert r[SADDR..] == swapped[SADDR..];
    assert swapped[SADDR..DADDR] == h[DADDR..] && swapped[DADDR..] == h[SADDR..DADDR];
    assert r[SADDR..DADDR] == swapped[SADDR..DADDR];
  }

  /** A receiver accepts the header: the big-endian words, checksum included, sum to all ones. */
  predicate Verifies(h: seq<Byte>)
    requires |h| == HEADER_SIZE
  {
    OnesSum(SumBig(h, 10)) == 65535
  }

  /** A byte counts once at an even offset and 256 times at an odd one. */
  function Weight(k: nat): nat { if k % 2 == 0 then 1 else 256 }

  function Change(from: Byte, to: Byte): int {
    var a: int, b: int := from, to;
    b - a
  }

  lemma {:induction false} SumAfterUpdate(h: seq<Byte>, k: nat, b: Byte, n: nat)
    requires k < |h| && 2 * n <= |h|
    ensures SumLittle(h[k := b], n) == SumLittle(h, n) + if k < 2 * n then Weight(k) * Change(h[k], b) else 0
  {
    if n > 0 {
      SumAfterUpdate(h, k, b, n - 1);
      LastHalf(h, n);
      LastHalf(h[k := b], n);
    }
  }

  function Exchanged(h: seq<Byte>, i: nat, j: nat): seq<Byte>
    requires i < |h| && j < |h|
  {
    h[i := h[j]][j := h[i]]
  }

  lemma ExchangeKeepsSum(h: seq<Byte>, i: nat)
    requires i + 4 < |h| == HEADER_SIZE
    ensures SumLittle(Exchanged(h, i, i + 4), 10) == SumLittle(h, 10)
  {
    SumAfterUpdate(h, i, h[i + 4], 10);
    SumAfterUpdate(h[i := h[i + 4]], i + 4, h[i], 10);
    assert Weight(i + 4) == Weight(i);
  }

  /** Swapping the addresses leaves the sum of the header alone, and twice is not at all. */
  lemma SwapKeepsSum(h: seq<Byte>)
    requires |h| == HEADER_SIZE
    ensures SumLittle(Swapped(h), 10) == SumLittle(h, 10)
    ensures Swapped(Swapped(h)) == h
  {
    var h1 := Exchanged(h, SADDR, DADDR);
    var h2 := Exchanged(h1, SADDR + 1, DADDR + 1);
    var h3 := Exchanged(h2, SADDR + 2, DADDR + 2);
    var h4 := Exchanged(h3, SADDR + 3, DADDR + 3);
    assert Swapped(h) == h4;
    ExchangeKeepsSum(h, SADDR);
    ExchangeKeepsSum(h1, SADDR + 1);
    ExchangeKeepsSum(h2, SADDR + 2);
    ExchangeKeepsSum(h3, SADDR + 3);
  }

  lemma CheckAddsToSum(h: seq<Byte>, check: nat)
    requires |h| == HEADER_SIZE && check <= 65535
    ensures SumLittle(WithCheck(h, check), 10) == SumLittle(WithCheck(h, 0), 10) + check
  {
    var cleared := WithCheck(h, 0);
    var halfway: seq<Byte> := cleared[CHECK := Low(check)];
    SumAfterUpdate(cleared, CHECK, Low(check), 10);
    SumAfterUpdate(halfway, CHECK + 1, High(check), 10);
    assert WithCheck(h, check) == halfway[CHECK + 1 := High(check)];
    assert check == Change(0, Low(check)) + 256 * Change(0, High(check));
  }

  /** Before the TTL is set, the header with its new checksum sums to a multiple of 0xffff. */
  lemma CheckCompletesSum(h: seq<Byte>)
    requires |h| == HEADER_SIZE
    ensures SumLittle(WithCheck(h, CheckOf(h)), 10) % 65535 == 0
  {
    var sum := SumLittle(WithCheck(h, 0), 10);
    CheckAddsToSum(h, CheckOf(h));
    if sum > 0 {
      var q := (sum - 1) / 65535;
      assert sum + CheckOf(h) == 65535 * (q + 1);
      DivModUnique(sum + CheckOf(h), q + 1, 0);
    }
  }

  lemma ReplySumsUpExactlyForTtl64(h: seq<Byte>)
    requires |h| == HEADER_SIZE
    ensures SumLittle(Reply(h), 10) % 65535 == 0 <==> h[TTL] == 64
  {
    var checked := WithCheck(Swapped(h), CheckOf(Swapped(h)));
    CheckCompletesSum(Swapped(h));
    SumAfterUpdate(checked, TTL, 64, 10);
    NearMultiple(SumLittle(checked, 10), Change(h[TTL], 64));
  }

  /** The reply passes verification exactly when the ping arrived with TTL 64: the TTL is
      assigned after the checksum has been computed over the old one. */
  lemma ReplyVerifiesExactlyForTtl64(h: seq<Byte>)
    requires |h| == HEADER_SIZE
    ensures Verifies(Reply(h)) <==> h[TTL] == 64
  {
    ReplySumsUpExactlyForTtl64(h);
    ByteOrderIndependence(Reply(h), 10);
    AllOnesExactlyForMultiples(SumBig(Reply(h), 10));
    FirstAtLeast(Reply(h), 4, 10);
  }

  lemma {:induction false} FirstAtLeast(h: seq<Byte>, k: nat, n: nat)
    requires k < n && 2 * n <= |h|
    ensures First(h, n) >= h[2 * k]
  {
    if k < n - 1 {
      FirstAtLeast(h, k, n - 1);
    }
  }

  lemma NearMultiple(n: nat, d: int)
    requires n % 65535 == 0 && -65535 < d < 65535 && n + d >= 0
    ensures (n + d) % 65535 == 0 <==> d == 0
  {
  }

  // ------------------------------------------------------- the code, in place

  /** `ipv4_csum`: `bpf_csum_diff` over the header, folded. */
  method Ipv4Csum(ip: array<Byte>) returns (csum: nat)
    requires ip.Length == HEADER_SIZE
    ensures csum == 65535 - OnesSum(SumLittle(ip[..], 10))
  {
    var acc: nat := 0;
    for n := 0 to 5
      invariant acc == CsumDiff(ip[..], n)
    {
      acc := Add32(acc, Word32(ip[..], 4 * n));
    }
    WordSumsAgree(ip[..], 5);
    csum := CsumFoldHelper(acc);
  }

  /** The server branch of `xdp_main` on the IP header, statement by statement. */
  method RewriteHeader(ip: array<Byte>)
    requires ip.Length == HEADER_SIZE
    modifies ip
    ensures ip[..] == Reply(old(ip[..]))
    ensures Verifies(ip[..]) <==> old(ip[TTL]) == 64
  {
    ReplyVerifiesExactlyForTtl64(ip[..]);
    ghost var h := ip[..];
    SwapAddresses(ip);
    ip[CHECK], ip[CHECK + 1] := 0, 0;
    assert ip[..] == WithCheck(Swapped(h), 0);
    var csum := Ipv4Csum(ip);
    ip[CHECK], ip[CHECK + 1] := Low(csum), High(csum);
    assert ip[..] == WithCheck(Swapped(h), csum);
    ip[TTL] := 64;
  }

  method SwapAddresses(ip: array<Byte>)
    requires ip.Length == HEADER_SIZE
    modifies ip
    ensures ip[..] == Swapped(old(ip[..]))
  {
    // Four bytes at a time, as the 32-bit assignments do.
    var tmp := ip[DADDR..DADDR + 4];
    StoreAddress(ip, DADDR, ip[SADDR..SADDR + 4]);
    StoreAddress(ip, SADDR, tmp);
  }

  method StoreAddress(ip: array<Byte>, at: nat, address: seq<Byte>)
    requires at + 4 <= ip.Length && |address| == 4
    modifies ip
    ensures ip[..] == old(ip[..at]) + address + old(ip[at + 4..])
  {
    ip[at] := address[0];
    ip[at + 1] := address[1];
    ip[at + 2] := address[2];
    ip[at + 3] := address[3];
  }
}
