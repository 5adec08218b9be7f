/** Codes and sizes of the wire protocol (common/protocol.h:87-133). */
module Protocol {
  const ERR_SUCCESS := 200
  const ERR_CREATED := 201
  const ERR_BAD_REQUEST := 400
  const ERR_ACCESS_DENIED := 403
  const ERR_NOT_FOUND := 404
  const ERR_CONFLICT := 409
  const ERR_LOCKED := 423
  const ERR_INDEX_ERROR := 450
  const ERR_SERVER_ERROR := 500
  const ERR_NOT_IMPLEMENTED := 501
  const ERR_SS_UNAVAILABLE := 503

  const MAX_CONTENT_LEN := 4096

  /** DJB2 over `bits`-wide unsigned arithmetic, before the reduction to a bucket number. */
  function Djb2(s: string, hash: nat, modulus: nat): (h: nat)
    requires modulus > 0
    decreases |s|
  {
    if s == "" then hash else Djb2(s[1..], (hash * 33 + s[0] as int) % modulus, modulus)
  }

  const WORD32: nat := 0x1_0000_0000
  const WORD64: nat := 0x1_0000_0000_0000_0000

  function Hash32(s: string): nat {
    Djb2(s, 5381, WORD32)
  }

  function Hash64(s: string): nat {
    Djb2(s, 5381, WORD64)
  }

  /** Appending a character multiplies by 33 and adds it, as the loops over the characters do. */
  lemma {:induction false} Djb2Append(s: string, c: char, hash: nat, modulus: nat)
    requires modulus > 0
    ensures Djb2(s + [c], hash, modulus) == (Djb2(s, hash, modulus) * 33 + c as int) % modulus
    decreases |s|
  {
    if s == "" {
      assert (s + [c])[1..] == "";
    } else {
      assert (s + [c])[1..] == s[1..] + [c];
      Djb2Append(s[1..], c, (hash * 33 + s[0] as int) % modulus, modulus);
    }
  }
}
