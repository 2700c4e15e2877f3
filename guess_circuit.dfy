/** The guess circuit: the constraints that bind a claimed answer to the
    committed code. Its public inputs are the hash and the two counts;
    its witnesses are the code, the guess and the salt. The model computes,
    as `generate_constraints` does, the exact-match counter, the two colour
    histograms and the sum of their bucket-wise minima, and reports whether
    every emitted equality holds. */
module GuessConstraints {
  import opened Crypto
  import opened Utils

  /** One circuit instance (`GuessCircuit`): witnesses and public values. */
  datatype GuessCircuit = GuessCircuit(
    code: Code, guess: Code, salt: Bytes32, hash: Bytes32, correct: Byte, common: Byte)

  /** `From<(Code, Code, u8, u8)>`: commits to the code under the given
      salt (drawn at random in the program) and copies the claimed counts. */
  function FromTuple(
    code: Code, guess: Code, correct: Byte, common: Byte, salt: Bytes32, sha: Hasher): (w: GuessCircuit)
    ensures w.code == code && w.guess == guess && w.salt == salt
    ensures w.correct == correct && w.common == common
    ensures HashMatches(sha, w.hash, w.code, w.salt)
  {
    var w := GuessCircuit(code, guess, salt, Commit(sha, code, salt), correct, common);
    HashMatchesIff(sha, w.hash, code, salt);
    w
  }

  function Min(x: int, y: int): int { if x <= y then x else y }

  /** Sum over the colours c < k of the smaller of the two bucket counts. */
  function MinSum(code: seq<Byte>, guess: seq<Byte>, k: nat): nat
    requires k <= 256
  {
    if k == 0 then 0
    else MinSum(code, guess, k - 1) + Min(multiset(code)[k - 1], multiset(guess)[k - 1])
  }

  /** Every colour of the code is below COLOR_NUMBER. */
  predicate InPalette(code: seq<Byte>)
  {
    forall i | 0 <= i < |code| :: code[i] < COLOR_NUMBER
  }

  /** What a satisfying assignment of the guess circuit means: the hash
      opens to the code, `correct` is the exact-match counter and `common`
      is the bucket-minimum sum, which counts exact matches too. */
  predicate Satisfied(w: GuessCircuit, sha: Hasher)
  {
    && HashMatches(sha, w.hash, w.code, w.salt)
    && w.correct == MatchCount(w.code, w.guess, CODE_LENGTH)
    && w.common == MinSum(w.code, w.guess, COLOR_NUMBER)
  }

  /** `generate_constraints` followed by a satisfiability check: the hash
      bytes, the exact-match counter (a select of counter + 1 on equality),
      the two histograms (one bucket per colour constant) and `counter2`
      (adds the code bucket when it is at most the guess bucket, else the
      guess bucket). */
  method GenerateConstraints(w: GuessCircuit, sha: Hasher) returns (satisfied: bool)
    ensures satisfied <==> Satisfied(w, sha)
    ensures InPalette(w.code) && InPalette(w.guess) ==>
      (satisfied <==> && w.hash == Commit(sha, w.code, w.salt)
                      && w.correct == MatchCount(w.code, w.guess, CODE_LENGTH)
                      && w.common == Overlap(w.code, w.guess))
  {
    // Hash: one equality per digest byte.
    var digest := Commit(sha, w.code, w.salt);
    var hashOk := true;
    for i := 0 to DIGEST_LENGTH
      invariant hashOk <==> forall j | 0 <= j < i :: w.hash[j] == digest[j]
    {
      if w.hash[i] != digest[i] {
        hashOk := false;
      }
    }
    // Exact matches.
    var counter := 0;
    for i := 0 to CODE_LENGTH
      invariant counter == MatchCount(w.code, w.guess, i)
    {
      if w.code[i] == w.guess[i] {
        counter := counter + 1;
      }
    }
    var correctOk := w.correct == counter;
    // Colour histograms and the bucket-wise minimum.
    var guessSum := Histogram(w.guess);
    var codeSum := Histogram(w.code);
    var counter2 := 0;
    for c := 0 to COLOR_NUMBER
      invariant counter2 == MinSum(w.code, w.guess, c)
    {
      if codeSum[c] <= guessSum[c] {
        counter2 := counter2 + codeSum[c];
      } else {
        counter2 := counter2 + guessSum[c];
      }
    }
    var commonOk := w.common == counter2;
    satisfied := hashOk && correctOk && commonOk;
    HashMatchesIff(sha, w.hash, w.code, w.salt);
    if InPalette(w.code) && InPalette(w.guess) {
      MinSumIsOverlap(w.code, w.guess);
    }
  }

  /** One bucket per colour constant 0..7; each colour of the sequence adds
      one to the bucket it equals, so a colour of 8 or more lands in none. */
  method Histogram(colours: seq<Byte>) returns (sums: array<nat>)
    ensures fresh(sums) && sums.Length == COLOR_NUMBER
    ensures forall c | 0 <= c < COLOR_NUMBER :: sums[c] == multiset(colours)[c]
  {
    sums := new nat[COLOR_NUMBER](_ => 0);
    for c := 0 to COLOR_NUMBER
      invariant forall d | 0 <= d < c :: sums[d] == multiset(colours)[d]
      invariant forall d | c <= d < COLOR_NUMBER :: sums[d] == 0
    {
      for i := 0 to |colours|
        invariant sums[c] == multiset(colours[..i])[c]
        invariant forall d | 0 <= d < c :: sums[d] == multiset(colours)[d]
        invariant forall d | c < d < COLOR_NUMBER :: sums[d] == 0
      {
        assert colours[..i + 1] == colours[..i] + [colours[i]];
        if colours[i] == c {
          sums[c] := sums[c] + 1;
        }
      }
      assert colours[..|colours|] == colours;
    }
  }

  // ---------------------------------------------------------------------
  // The bucket-minimum sum is the multiset overlap

  /** Sum of the multiplicities in m of the values 0 .. k-1. */
  function CountBelow(m: multiset<int>, k: nat): nat
  {
    if k == 0 then 0 else CountBelow(m, k - 1) + m[k - 1]
  }

  lemma {:induction false} CountBelowAdd(m1: multiset<int>, m2: multiset<int>, k: nat)
    ensures CountBelow(m1 + m2, k) == CountBelow(m1, k) + CountBelow(m2, k)
  {
    if k > 0 {
      CountBelowAdd(m1, m2, k - 1);
    }
  }

  lemma {:induction false} CountBelowSingle(x: int, k: nat)
    ensures CountBelow(multiset{x}, k) == if 0 <= x < k then 1 else 0
  {
    if k > 0 {
      CountBelowSingle(x, k - 1);
    }
  }

  /** Intersecting with one more copy of x adds x exactly when the left
      side had fewer copies than the right. */
  lemma IntersectSnoc(a: multiset<int>, b: multiset<int>, x: int)
    ensures (a + multiset{x}) * b == if a[x] < b[x] then a * b + multiset{x} else a * b
  {
    if a[x] < b[x] {
      assert forall z :: ((a + multiset{x}) * b)[z] == (a * b + multiset{x})[z];
    } else {
      assert forall z :: ((a + multiset{x}) * b)[z] == (a * b)[z];
    }
  }

  /** When the left side holds only values below k, the size of its
      intersection with b is the sum of the multiplicities of 0 .. k-1. */
  lemma {:induction false} CardAsSum(s: seq<int>, b: multiset<int>, k: nat)
    requires forall i | 0 <= i < |s| :: 0 <= s[i] < k
    ensures |multiset(s) * b| == CountBelow(multiset(s) * b, k)
  {
    if s == [] {
      CountBelowEmpty(k);
    } else {
      var init, x := s[..|s| - 1], s[|s| - 1];
      assert s == init + [x];
      CardAsSum(init, b, k);
      IntersectSnoc(multiset(init), b, x);
      if multiset(init)[x] < b[x] {
        CountBelowAdd(multiset(init) * b, multiset{x}, k);
        CountBelowSingle(x, k);
      }
    }
  }

  lemma {:induction false} CountBelowEmpty(k: nat)
    ensures CountBelow(multiset{}, k) == 0
  {
    if k > 0 {
      CountBelowEmpty(k - 1);
    }
  }

  lemma {:induction false} MinSumIsCountBelow(code: seq<Byte>, guess: seq<Byte>, k: nat)
    requires k <= 256
    ensures MinSum(code, guess, k) == CountBelow(multiset(code) * multiset(guess), k)
  {
    if k > 0 {
      MinSumIsCountBelow(code, guess, k - 1);
    }
  }

  /** For colours in the palette the circuit's `counter2` is the size of the
      multiset intersection of code and guess: exact matches included. */
  lemma MinSumIsOverlap(code: seq<Byte>, guess: seq<Byte>)
    requires InPalette(code)
    ensures MinSum(code, guess, COLOR_NUMBER) == Overlap(code, guess)
  {
    CardAsSum(code, multiset(guess), COLOR_NUMBER);
    MinSumIsCountBelow(code, guess, COLOR_NUMBER);
  }

  /** For in-palette codes the two counters are ordered:
      counter <= counter2 <= 4. */
  lemma CountersOrdered(code: Code, guess: Code)
    requires InPalette(code)
    ensures MatchCount(code, guess, CODE_LENGTH) <= MinSum(code, guess, COLOR_NUMBER) <= CODE_LENGTH
  {
    MinSumIsOverlap(code, guess);
    MatchesWithinOverlap(code, guess);
    OverlapBounds(code, guess);
  }

  // ---------------------------------------------------------------------
  // The circuit agrees with the plaintext oracle

  /** On the codes of two guess strings, an instance is satisfied exactly
      when the hash opens and the two claimed counts are `same` and
      `common` of the strings: the public `common` is the total overlap,
      not the overlap minus the exact matches. */
  lemma SatisfiedIffOracle(
    s: string, t: string, salt: Bytes32, hash: Bytes32, correct: Byte, common: Byte, sha: Hasher)
    requires IsGuessString(s) && IsGuessString(t)
    ensures Satisfied(GuessCircuit(StringToCode(s), StringToCode(t), salt, hash, correct, common), sha)
        <==> && hash == Commit(sha, StringToCode(s), salt)
             && correct == MatchCount(s, t, CODE_LENGTH)
             && common == CommonCount(s, t)
  {
    var code, guess := StringToCode(s), StringToCode(t);
    HashMatchesIff(sha, hash, code, salt);
    OracleOnCodes(s, t);
    MinSumIsOverlap(code, guess);
  }

  /** A circuit built by `From` always passes the hash constraint, so it is
      satisfied exactly when its two claimed counts are the true ones. */
  lemma FromTupleSatisfiedIff(
    code: Code, guess: Code, correct: Byte, common: Byte, salt: Bytes32, sha: Hasher)
    ensures Satisfied(FromTuple(code, guess, correct, common, salt, sha), sha)
        <==> correct == MatchCount(code, guess, CODE_LENGTH)
             && common == MinSum(code, guess, COLOR_NUMBER)
  {
  }

  // ---------------------------------------------------------------------
  // The counters' starting values

  /** The circuit as written: `counter` and `counter2` are witness
      variables whose starting values nothing constrains, so a prover may
      start them at any field element. A start of p - k, for the field's
      modulus p, acts as -k, so the starts are integers here. An instance
      is satisfiable for given starting values when the hash opens and each
      count is its start plus the computed sum. */
  predicate SatisfiedAsWritten(w: GuessCircuit, sha: Hasher, counterStart: int, counter2Start: int)
  {
    && HashMatches(sha, w.hash, w.code, w.salt)
    && w.correct == counterStart + MatchCount(w.code, w.guess, CODE_LENGTH)
    && w.common == counter2Start + MinSum(w.code, w.guess, COLOR_NUMBER)
  }

  /** As written, the counts bind to nothing: once the hash opens, every
      claimed pair of counts is satisfiable by choosing the starts. */
  lemma AsWrittenAcceptsAnyCounts(w: GuessCircuit, sha: Hasher)
    ensures (exists counterStart: int, counter2Start: int :: SatisfiedAsWritten(w, sha, counterStart, counter2Start))
        <==> HashMatches(sha, w.hash, w.code, w.salt)
  {
    if HashMatches(sha, w.hash, w.code, w.salt) {
      var counterStart := w.correct - MatchCount(w.code, w.guess, CODE_LENGTH);
      var counter2Start := w.common - MinSum(w.code, w.guess, COLOR_NUMBER);
      assert SatisfiedAsWritten(w, sha, counterStart, counter2Start);
    }
  }

  /** With the starting values chosen by the prover, a committed code of
      colour 0 everywhere "proves" four exact matches and four common
      colours against a guess of colour 1 everywhere, although the two
      share nothing. */
  lemma UnpinnedCountersAcceptFalseCounts(salt: Bytes32, sha: Hasher)
    ensures var zeros: Code := [0, 0, 0, 0];
            var ones: Code := [1, 1, 1, 1];
            && MatchCount(zeros, ones, CODE_LENGTH) == 0
            && MinSum(zeros, ones, COLOR_NUMBER) == 0
            && SatisfiedAsWritten(GuessCircuit(zeros, ones, salt, Commit(sha, zeros, salt), 4, 4), sha, 4, 4)
            && !Satisfied(GuessCircuit(zeros, ones, salt, Commit(sha, zeros, salt), 4, 4), sha)
  {
    var zeros: Code := [0, 0, 0, 0];
    var ones: Code := [1, 1, 1, 1];
    HashMatchesIff(sha, Commit(sha, zeros, salt), zeros, salt);
    DisjointCounts(zeros, ones);
  }

  /** The counts can be deflated too: with both counters started at -4
      (the field element p - 4), a committed code of colour 1 everywhere
      "proves" (0, 0) against itself, although all four colours match. */
  lemma UnpinnedCountersAcceptDeflatedCounts(salt: Bytes32, sha: Hasher)
    ensures var ones: Code := [1, 1, 1, 1];
            && MatchCount(ones, ones, CODE_LENGTH) == 4
            && MinSum(ones, ones, COLOR_NUMBER) == 4
            && SatisfiedAsWritten(GuessCircuit(ones, ones, salt, Commit(sha, ones, salt), 0, 0), sha, -4, -4)
            && !Satisfied(GuessCircuit(ones, ones, salt, Commit(sha, ones, salt), 0, 0), sha)
  {
    var ones: Code := [1, 1, 1, 1];
    HashMatchesIff(sha, Commit(sha, ones, salt), ones, salt);
    SelfCounts(ones);
  }

  /** Colour 0 everywhere against colour 1 everywhere: no match, no overlap. */
  lemma DisjointCounts(zeros: Code, ones: Code)
    requires zeros == [0, 0, 0, 0] && ones == [1, 1, 1, 1]
    ensures MatchCount(zeros, ones, CODE_LENGTH) == 0
    ensures MinSum(zeros, ones, COLOR_NUMBER) == 0
  {
    NoMatchesWhenDisjoint(zeros, ones, CODE_LENGTH);
    MinSumIsOverlap(zeros, ones);
    assert multiset(zeros) * multiset(ones) == multiset{} by {
      assert multiset(zeros) == multiset{0, 0, 0, 0};
      assert multiset(ones) == multiset{1, 1, 1, 1};
    }
  }

  /** An in-palette code against itself: four matches, four common colours. */
  lemma SelfCounts(code: Code)
    requires InPalette(code)
    ensures MatchCount(code, code, CODE_LENGTH) == 4
    ensures MinSum(code, code, COLOR_NUMBER) == 4
  {
    MatchCountReflexive(code, CODE_LENGTH);
    MinSumIsOverlap(code, code);
    PermutationOverlap(code, code);
  }

  /** The intended circuit is the one whose counters start at zero. */
  lemma SatisfiedIsZeroStart(w: GuessCircuit, sha: Hasher)
    ensures Satisfied(w, sha) <==> SatisfiedAsWritten(w, sha, 0, 0)
  {
  }
}
