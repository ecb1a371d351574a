/** How the payload's fields lie in memory: the packed structure, little-endian, as the
    twelve words of `PayloadWords`: id in words 0 and 1, ts[i] in words 2 i + 2 and 2 i + 3, the
    phase in word 10 and the magic in word 11.  The phase has no counterpart in `Payload`. */
module PayloadLayout {
  import F = Payload
  import W = PayloadWords

  /** Twelve words, by their numbers. */
  type WordValues = ns: seq<nat> | |ns| == W.PAYLOAD_WORDS && forall k :: 0 <= k < |ns| ==> ns[k] < F.TWO_TO_32
    witness [0, 0, 0, 0, 0, 0, 0, 0, 0, 0, 0, 0]

  /** The number that a word stands for. */
  function Val(w: W.Word): (n: nat)
    ensures n < F.TWO_TO_32
  {
    w as nat
  }

  function Vals(w: W.Payload): (ns: WordValues)
    ensures forall k :: 0 <= k < |ns| ==> ns[k] == Val(w[k])
  {
    seq(|w|, k requires 0 <= k < |w| => Val(w[k]))
  }

  function Low(n: nat): (r: nat)
    ensures r < F.TWO_TO_32
  {
    n % F.TWO_TO_32
  }

  function High(n: nat): (r: nat)
    requires n < F.TWO_TO_64
    ensures r < F.TWO_TO_32 && n == Low(n) + r * F.TWO_TO_32
  {
    n / F.TWO_TO_32
  }

  /** A 64-bit field from its two halves. */
  function Join(low: nat, high: nat): (n: nat)
    requires low < F.TWO_TO_32 && high < F.TWO_TO_32
    ensures n < F.TWO_TO_64
    ensures Low(n) == low && High(n) == high
  {
    low + high * F.TWO_TO_32
  }

  function Encode(p: F.Payload, phase: nat): (ns: WordValues)
    requires F.Fits(p) && phase < F.TWO_TO_32
  {
    [Low(p.id), High(p.id),
     Low(p.ts[0]), High(p.ts[0]), Low(p.ts[1]), High(p.ts[1]),
     Low(p.ts[2]), High(p.ts[2]), Low(p.ts[3]), High(p.ts[3]),
     phase, p.magic]
  }

  function Decode(ns: WordValues): (p: F.Payload)
    ensures F.Fits(p)
  {
    F.Payload(Join(ns[0], ns[1]),
              [Join(ns[2], ns[3]), Join(ns[4], ns[5]), Join(ns[6], ns[7]), Join(ns[8], ns[9])],
              ns[11])
  }

  /** Which words each field occupies. */
  lemma FieldsOfWords(ns: WordValues)
    ensures Decode(ns).id == ns[0] + ns[1] * F.TWO_TO_32
    ensures forall i :: 0 <= i < 4 ==> Decode(ns).ts[i] == ns[2 * i + 2] + ns[2 * i + 3] * F.TWO_TO_32
    ensures Decode(ns).magic == ns[W.MAGIC_WORD]
  {
  }

  lemma EncodeThenDecode(p: F.Payload, phase: nat)
    requires F.Fits(p) && phase < F.TWO_TO_32
    ensures Decode(Encode(p, phase)) == p && Encode(p, phase)[10] == phase
  {
    var q := Decode(Encode(p, phase));
    assert |q.ts| == |p.ts| == 4 && forall i :: 0 <= i < 4 ==> q.ts[i] == p.ts[i];
    assert q.ts == p.ts;
  }

  lemma DecodeThenEncode(ns: WordValues)
    ensures Encode(Decode(ns), ns[10]) == ns
  {
  }

  lemma ValIsInjective(v: W.Word, w: W.Word)
    requires Val(v) == Val(w)
    ensures v == w
  {
    assert Val(v) as W.Word == v;
    assert Val(w) as W.Word == w;
  }

  /** Both views agree on which payloads are valid. */
  lemma SameValidity(w: W.Payload)
    ensures W.ValidPayload(w) <==> F.ValidPayload(Decode(Vals(w)))
  {
    assert Val(W.PINGPONG_MAGIC) == F.PINGPONG_MAGIC;
    if F.ValidPayload(Decode(Vals(w))) {
      ValIsInjective(w[W.MAGIC_WORD], W.PINGPONG_MAGIC);
    }
  }

  /** The fields and the phase of a payload in memory are all there is in its words. */
  lemma MemoryIsDetermined(v: W.Payload, w: W.Payload)
    requires Decode(Vals(v)) == Decode(Vals(w)) && Val(v[10]) == Val(w[10])
    ensures v == w
  {
    DecodeThenEncode(Vals(v));
    DecodeThenEncode(Vals(w));
    SameNumbersSameWords(v, w);
  }

  lemma SameNumbersSameWords(v: W.Payload, w: W.Payload)
    requires Vals(v) == Vals(w)
    ensures v == w
  {
    forall k | 0 <= k < |w|
      ensures v[k] == w[k]
    {
      assert Vals(v)[k] == Vals(w)[k];
      ValIsInjective(v[k], w[k]);
    }
  }
}
