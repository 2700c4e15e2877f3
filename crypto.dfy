/** Shared vocabulary of the commitment scheme: bytes, 32-byte digests,
    four-colour codes and the hash function, which the model takes as a
    parameter rather than implementing SHA-256. */
module Crypto {

  /** An unsigned 8-bit value (Rust `u8`). */
  type Byte = x: int | 0 <= x < 256

  /** Number of colours a code position may take. */
  const COLOR_NUMBER: nat := 8
  /** Number of positions in a code. */
  const CODE_LENGTH: nat := 4
  /** Length in bytes of a digest and of a salt. */
  const DIGEST_LENGTH: nat := 32

  /** A 32-byte array (`[u8; 32]`): a digest or a salt. */
  type Bytes32 = s: seq<Byte> | |s| == 32 witness seq(32, _ => 0)

  /** A code as the circuits see it (`Code { colors: [u8; 4] }`). */
  type Code = s: seq<Byte> | |s| == 4 witness [0, 0, 0, 0]

  /** SHA-256 over a byte string, left abstract: any function from byte
      strings to 32-byte digests. */
  type Hasher = seq<Byte> -> Bytes32

  /** The bytes the commitment hashes: each colour as one byte, then the salt. */
  function HashInput(code: Code, salt: Bytes32): (bytes: seq<Byte>)
    ensures |bytes| == CODE_LENGTH + DIGEST_LENGTH
    ensures bytes[..CODE_LENGTH] == code && bytes[CODE_LENGTH..] == salt
  {
    code + salt
  }

  /** The commitment to `code` under `salt`: the digest of colours then salt. */
  function Commit(sha: Hasher, code: Code, salt: Bytes32): Bytes32
  {
    sha(HashInput(code, salt))
  }

  /** The hash constraint both circuits emit: every byte of the public hash
      equals the corresponding byte of the digest recomputed in-circuit from
      the witness code and salt. */
  predicate HashMatches(sha: Hasher, hash: Bytes32, code: Code, salt: Bytes32)
  {
    var digest := Commit(sha, code, salt);
    forall i | 0 <= i < DIGEST_LENGTH :: hash[i] == digest[i]
  }

  /** Byte-for-byte equality is equality of the digests. */
  lemma HashMatchesIff(sha: Hasher, hash: Bytes32, code: Code, salt: Bytes32)
    ensures HashMatches(sha, hash, code, salt) <==> hash == Commit(sha, code, salt)
  {
    var digest := Commit(sha, code, salt);
    if HashMatches(sha, hash, code, salt) {
      assert forall i | 0 <= i < |hash| :: hash[i] == digest[i];
    }
  }
}
