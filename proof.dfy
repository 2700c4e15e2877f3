/** Public inputs of the two proofs, and the proof system seen from the
    outside. A 32-byte hash becomes 256 field entries, one per bit, byte by
    byte and least significant bit first; the guess variant then appends
    `correct` and `common`. Groth16 itself is replaced by an idealised
    proof system in which a proof carries its circuit instance and
    verification checks that instance and its public inputs. */
module PublicInputs {
  import opened Crypto
  import Utils
  import DeclarationConstraints
  import GuessConstraints

  /** `v >> j` on an unsigned value. */
  function ShiftRight(v: nat, j: nat): nat
  {
    if j == 0 then v else ShiftRight(v / 2, j - 1)
  }

  /** `v >> j & 1`: bit j of v, counting from the least significant. */
  function Bit(v: nat, j: nat): (b: nat)
    ensures b == 0 || b == 1
  {
    ShiftRight(v, j) % 2
  }

  /** Bits 0 .. n-1 of v, least significant first. */
  function LowBits(v: nat, n: nat): (bits: seq<nat>)
    ensures |bits| == n
  {
    seq(n, j requires 0 <= j < n => Bit(v, j))
  }

  /** The bits of every byte, byte-major, least significant bit first. */
  function Encode(value: seq<Byte>): (bits: seq<nat>)
    ensures |bits| == 8 * |value|
  {
    seq(8 * |value|, k requires 0 <= k < 8 * |value| => Bit(value[k / 8], k % 8))
  }

  /** The value of a little-endian bit string. */
  function FromBitsLsb(bits: seq<nat>): nat
  {
    if bits == [] then 0 else bits[0] + 2 * FromBitsLsb(bits[1..])
  }

  /** Reads the bytes back: each group of eight entries, weighted 2^j. */
  function Decode(bits: seq<nat>): seq<int>
    requires |bits| % 8 == 0
  {
    seq(|bits| / 8, i requires 0 <= i < |bits| / 8 => FromBitsLsb(bits[8 * i .. 8 * i + 8]))
  }

  lemma EntryIndex(i: nat, j: nat)
    requires j < 8
    ensures (8 * i + j) / 8 == i && (8 * i + j) % 8 == j
  {
  }

  /** The first n bits of v, read back, give v whenever v < 2^n. */
  lemma {:induction false} BitsRoundTrip(v: nat, n: nat)
    requires v < Pow2(n)
    ensures FromBitsLsb(LowBits(v, n)) == v
  {
    var bits := LowBits(v, n);
    if n > 0 {
      var rest := LowBits(v / 2, n - 1);
      assert bits[1..] == rest by {
        forall j | 0 <= j < n - 1
          ensures bits[1..][j] == rest[j]
        {
          assert ShiftRight(v, j + 1) == ShiftRight(v / 2, j);
        }
      }
      BitsRoundTrip(v / 2, n - 1);
    }
  }

  function Pow2(n: nat): (p: nat)
    ensures p >= 1
  {
    if n == 0 then 1 else 2 * Pow2(n - 1)
  }

  /** The eight entries of byte i are the bits of that byte. */
  lemma EncodeSlice(value: seq<Byte>, i: nat)
    requires i < |value|
    ensures Encode(value)[8 * i .. 8 * i + 8] == LowBits(value[i], 8)
  {
    forall j | 0 <= j < 8
      ensures Encode(value)[8 * i + j] == Bit(value[i], j)
    {
      EntryIndex(i, j);
    }
  }

  /** Decoding inverts the encoding: the public input determines the hash. */
  lemma DecodeEncode(value: seq<Byte>)
    ensures Decode(Encode(value)) == value
  {
    forall i | 0 <= i < |value|
      ensures Decode(Encode(value))[i] == value[i]
    {
      EncodeSlice(value, i);
      assert Pow2(8) == 256;
      BitsRoundTrip(value[i], 8);
    }
  }

  /** Two hashes with the same public input are the same hash. */
  lemma EncodeInjective(h1: seq<Byte>, h2: seq<Byte>)
    requires Encode(h1) == Encode(h2)
    ensures h1 == h2
  {
    DecodeEncode(h1);
    DecodeEncode(h2);
  }

  /** `PublicInput::from`: a zeroed vector of eight entries per byte, in
      which entry 8i+j is set to one when bit j of byte i is set. */
  method PublicInputFrom(value: Bytes32) returns (input: seq<nat>)
    ensures input == Encode(value)
    ensures |input| == 8 * DIGEST_LENGTH
    ensures forall k | 0 <= k < |input| :: input[k] == 0 || input[k] == 1
  {
    var entries := new nat[8 * |value|](_ => 0);
    for i := 0 to DIGEST_LENGTH
      invariant forall k | 0 <= k < 8 * i :: entries[k] == Bit(value[k / 8], k % 8)
      invariant forall k | 8 * i <= k < entries.Length :: entries[k] == 0
    {
      for j := 0 to 8
        invariant forall k | 0 <= k < 8 * i + j :: entries[k] == Bit(value[k / 8], k % 8)
        invariant forall k | 8 * i + j <= k < entries.Length :: entries[k] == 0
      {
        EntryIndex(i, j);
        if Bit(value[i], j) == 1 {
          entries[i * 8 + j] := 1;
        }
      }
    }
    input := entries[..];
  }

  /** `PublicGuessInput::from`: the hash bits, then `correct`, then `common`. */
  method PublicGuessInputFrom(hash: Bytes32, correct: Byte, common: Byte) returns (input: seq<nat>)
    ensures |input| == 8 * DIGEST_LENGTH + 2
    ensures input[..8 * DIGEST_LENGTH] == Encode(hash)
    ensures input[8 * DIGEST_LENGTH] == correct && input[8 * DIGEST_LENGTH + 1] == common
  {
    input := PublicInputFrom(hash);
    input := input + [correct];
    input := input + [common];
  }

  /** The guess public input determines hash, `correct` and `common`. */
  lemma GuessInputInjective(
    h1: Bytes32, c1: Byte, m1: Byte, h2: Bytes32, c2: Byte, m2: Byte)
    requires Encode(h1) + [c1, m1] == Encode(h2) + [c2, m2]
    ensures h1 == h2 && c1 == c2 && m1 == m2
  {
    var x, y := Encode(h1) + [c1, m1], Encode(h2) + [c2, m2];
    assert x[..256] == Encode(h1) && y[..256] == Encode(h2);
    EncodeInjective(h1, h2);
    assert x[256] == c1 && y[256] == c2;
    assert x[257] == m1 && y[257] == m2;
  }

  // ---------------------------------------------------------------------
  // Idealised proofs

  /** `prove`: a declaration proof carries its circuit instance. */
  function Prove(code: Code, salt: Bytes32, hash: Bytes32): (p: DeclarationConstraints.CodeDeclarationCircuit)
    ensures p.code == code && p.salt == salt && p.hash == hash
  {
    DeclarationConstraints.CodeDeclarationCircuit(code, salt, hash)
  }

  /** `verify`: accepts when the instance satisfies the declaration circuit
      and its public input is the one computed from the claimed hash. */
  predicate Verify(hash: Bytes32, p: DeclarationConstraints.CodeDeclarationCircuit, sha: Hasher)
  {
    Encode(p.hash) == Encode(hash) && DeclarationConstraints.Satisfied(p, sha)
  }

  /** `prove_guess`: a guess proof carries its circuit instance. */
  function ProveGuess(
    code: Code, guess: Code, salt: Bytes32, hash: Bytes32, correct: Byte, common: Byte): (p: GuessConstraints.GuessCircuit)
    ensures p.code == code && p.guess == guess && p.salt == salt && p.hash == hash
    ensures p.correct == correct && p.common == common
  {
    GuessConstraints.GuessCircuit(code, guess, salt, hash, correct, common)
  }

  /** `verify_guess`: accepts when the instance satisfies the guess circuit
      and its public input is the one computed from (hash, correct, common). */
  predicate VerifyGuess(
    hash: Bytes32, correct: Byte, common: Byte, p: GuessConstraints.GuessCircuit, sha: Hasher)
  {
    Encode(p.hash) + [p.correct, p.common] == Encode(hash) + [correct, common]
    && GuessConstraints.Satisfied(p, sha)
  }

  /** An accepted declaration proof means the hash commits to an in-palette
      code; a valid instance is accepted for its own hash. */
  lemma VerifySound(hash: Bytes32, p: DeclarationConstraints.CodeDeclarationCircuit, sha: Hasher)
    ensures Verify(hash, p, sha) <==>
      && hash == Commit(sha, p.code, p.salt) && p.hash == hash
      && forall i | 0 <= i < CODE_LENGTH :: p.code[i] < COLOR_NUMBER
  {
    DeclarationConstraints.SatisfiedIff(p, sha);
    if Encode(p.hash) == Encode(hash) {
      EncodeInjective(p.hash, hash);
    }
  }

  /** An accepted guess proof binds the public counts to the committed
      code: the proof is for the claimed hash, the hash opens to p.code,
      and the counts are its exact matches and its bucket-minimum overlap
      with p.guess, a witness the prover chose. */
  lemma VerifyGuessSound(
    hash: Bytes32, correct: Byte, common: Byte, p: GuessConstraints.GuessCircuit, sha: Hasher)
    requires VerifyGuess(hash, correct, common, p, sha)
    ensures p.hash == hash
    ensures hash == Commit(sha, p.code, p.salt)
    ensures correct == Utils.MatchCount(p.code, p.guess, CODE_LENGTH)
    ensures common == GuessConstraints.MinSum(p.code, p.guess, COLOR_NUMBER)
  {
    GuessInputInjective(p.hash, p.correct, p.common, hash, correct, common);
    HashMatchesIff(sha, p.hash, p.code, p.salt);
  }

  /** Completeness: `prove_guess` on a satisfying instance is accepted
      by `verify_guess` on the same public values. */
  lemma ProveGuessComplete(
    code: Code, guess: Code, salt: Bytes32, hash: Bytes32, correct: Byte, common: Byte, sha: Hasher)
    requires GuessConstraints.Satisfied(GuessConstraints.GuessCircuit(code, guess, salt, hash, correct, common), sha)
    ensures VerifyGuess(hash, correct, common, ProveGuess(code, guess, salt, hash, correct, common), sha)
  {
  }

  // ---------------------------------------------------------------------
  // The guess as a public input

  /** A `verify_guess` that also takes the played guess as a public input:
      the proof's guess must be the one the player submitted. */
  predicate VerifyPlayedGuess(
    hash: Bytes32, guess: Code, correct: Byte, common: Byte, p: GuessConstraints.GuessCircuit, sha: Hasher)
  {
    VerifyGuess(hash, correct, common, p, sha) && p.guess == guess
  }

  /** With the guess public, an accepted proof binds the counts to the
      played guess: they are the exact matches and the overlap of the
      committed code with it. */
  lemma VerifyPlayedGuessSound(
    hash: Bytes32, guess: Code, correct: Byte, common: Byte, p: GuessConstraints.GuessCircuit, sha: Hasher)
    requires VerifyPlayedGuess(hash, guess, correct, common, p, sha)
    requires GuessConstraints.InPalette(p.code)
    ensures hash == Commit(sha, p.code, p.salt)
    ensures correct == Utils.MatchCount(p.code, guess, CODE_LENGTH)
    ensures common == Utils.Overlap(p.code, guess)
  {
    VerifyGuessSound(hash, correct, common, p, sha);
    GuessConstraints.MinSumIsOverlap(p.code, guess);
  }

  /** Completeness with the guess public: the true counts of the played
      guess are accepted for an honest commitment. */
  lemma VerifyPlayedGuessComplete(code: Code, guess: Code, salt: Bytes32, sha: Hasher)
    requires GuessConstraints.InPalette(code)
    ensures var hash := Commit(sha, code, salt);
            var correct := Utils.MatchCount(code, guess, CODE_LENGTH);
            var common := Utils.Overlap(code, guess);
            common < 256 &&
            VerifyPlayedGuess(hash, guess, correct, common, ProveGuess(code, guess, salt, hash, correct, common), sha)
  {
    var hash := Commit(sha, code, salt);
    HashMatchesIff(sha, hash, code, salt);
    GuessConstraints.MinSumIsOverlap(code, guess);
    Utils.OverlapBounds(code, guess);
  }
}
