/** The ping-pong payload as memory: `struct pingpong_payload` is packed into twelve
    32-bit words, id (2), ts[4] (8), phase (1) and, last, magic (1). */
module PayloadWords {

  const PAYLOAD_WORDS: nat := 12
  const MAGIC_WORD: nat := 11

  const PINGPONG_MAGIC: Word := 0x8badbeef

  type Word = bv32

  type Payload = p: seq<Word> | |p| == PAYLOAD_WORDS witness ZEROED

  const ZEROED: seq<Word> := [0, 0, 0, 0, 0, 0, 0, 0, 0, 0, 0, 0]

  predicate ValidPayload(p: Payload) {
    p[MAGIC_WORD] == PINGPONG_MAGIC
  }

  /** Every word below n has been dealt with. */
  predicate AllBelow(n: nat, done: set<nat>) {
    forall w :: 0 <= w < n ==> w in done
  }
}
