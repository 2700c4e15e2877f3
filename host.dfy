/** The three hosts that answer guesses. An honest host commits to a
    secret and answers with `same` and `common`; an evil host always
    answers (0, 0) with a proof about the code bbbb; a cheating host keeps
    every code consistent with its answers so far and always gives the
    answer that leaves the most codes open. Each answer carries a guess
    proof, modelled by its circuit instance. Randomness (the secret, the
    salts) and SHA-256 are parameters. */
module Host {
  import opened Crypto
  import opened Utils
  import GuessConstraints
  import DeclarationConstraints
  import opened PublicInputs

  /** The oracle's answer to a guess: (`same`, `common`). */
  function Feedback(s: string, g: string): (ans: (nat, nat))
    requires IsGuessString(s) && IsGuessString(g)
    ensures ans.0 <= ans.1 <= CODE_LENGTH
  {
    SameAtMostCommon(s, g);
    (MatchCount(s, g, CODE_LENGTH), CommonCount(s, g))
  }

  // ---------------------------------------------------------------------
  // HonestHost

  /** A host that commits to one secret and answers truthfully. */
  class HonestHost {
    const sequence: string
    const salt: Bytes32
    const hash: Bytes32
    const sha: Hasher

    ghost predicate Valid()
    {
      IsGuessString(sequence) && hash == Commit(sha, StringToCode(sequence), salt)
    }

    /** `new`: the secret and salt, drawn at random in the program, are
        given; the hash commits to the secret's code. */
    constructor (secret: string, salt: Bytes32, sha: Hasher)
      requires IsGuessString(secret)
      ensures Valid()
      ensures this.sequence == secret && this.salt == salt && this.sha == sha
    {
      this.sequence := secret;
      this.salt := salt;
      this.sha := sha;
      this.hash := Commit(sha, StringToCode(secret), salt);
    }

    /** `guess`: answers (`same`, `common`) of the secret and the guess, and
        proves the guess circuit with `common - correct` as public common. */
    method Guess(g: string) returns (correct: nat, common: nat, proof: GuessConstraints.GuessCircuit)
      requires Valid() && IsGuessString(g)
      ensures (correct, common) == Feedback(sequence, g)
      ensures proof == ProveGuess(StringToCode(sequence), StringToCode(g), salt, hash, correct, common - correct)
    {
      correct := Same(sequence, g);
      common := Common(sequence, g);
      SameAtMostCommon(sequence, g);
      proof := ProveGuess(StringToCode(sequence), StringToCode(g), salt, hash, correct, common - correct);
    }

    /** `get_hash_with_proof`: the committed hash and a declaration proof. */
    method GetHashWithProof() returns (h: Bytes32, proof: DeclarationConstraints.CodeDeclarationCircuit)
      requires Valid()
      ensures h == hash && proof == Prove(StringToCode(sequence), salt, hash)
      ensures Verify(h, proof, sha)
    {
      h := hash;
      proof := Prove(StringToCode(sequence), salt, hash);
      VerifySound(h, proof, sha);
    }
  }

  /** The honest host's guess proof follows the opposite convention from
      the circuit: it proves `common - correct` while the circuit binds the
      total overlap, so the proof is accepted exactly when the guess has
      no colour in the right place. */
  lemma HonestGuessAcceptedIff(secret: string, g: string, salt: Bytes32, sha: Hasher)
    requires IsGuessString(secret) && IsGuessString(g)
    ensures var (correct, common) := Feedback(secret, g);
            var hash := Commit(sha, StringToCode(secret), salt);
            VerifyPlayedGuess(hash, StringToCode(g), correct, common - correct,
                              ProveGuess(StringToCode(secret), StringToCode(g), salt, hash, correct, common - correct), sha)
            <==> correct == 0
  {
    var (correct, common) := Feedback(secret, g);
    var hash := Commit(sha, StringToCode(secret), salt);
    GuessConstraints.SatisfiedIffOracle(secret, g, salt, hash, correct, common - correct, sha);
  }

  /** The honest host's declaration proof is accepted. */
  lemma HonestDeclarationAccepted(secret: string, salt: Bytes32, sha: Hasher)
    requires IsGuessString(secret)
    ensures var hash := Commit(sha, StringToCode(secret), salt);
            Verify(hash, Prove(StringToCode(secret), salt, hash), sha)
  {
    var hash := Commit(sha, StringToCode(secret), salt);
    VerifySound(hash, Prove(StringToCode(secret), salt, hash), sha);
  }

  // ---------------------------------------------------------------------
  // EvilHost

  /** The code every answer of the evil host is proved against: colour 1
      in every position. */
  const EVIL_CODE: Code := [1, 1, 1, 1]

  /** A host that answers (0, 0) to everything. */
  class EvilHost {
    const sha: Hasher

    constructor (sha: Hasher)
      ensures this.sha == sha
    {
      this.sha := sha;
    }

    /** `guess`: answers (0, 0) with a proof against a fresh commitment to
        bbbb under the given salt. */
    method Guess(g: string, salt: Bytes32) returns (correct: nat, common: nat, proof: GuessConstraints.GuessCircuit)
      requires IsGuessString(g)
      ensures correct == 0 && common == 0
      ensures proof == ProveGuess(EVIL_CODE, StringToCode(g), salt, Commit(sha, EVIL_CODE, salt), 0, 0)
    {
      correct, common := 0, 0;
      proof := ProveGuess(EVIL_CODE, StringToCode(g), salt, Commit(sha, EVIL_CODE, salt), 0, 0);
    }

    /** `get_hash_with_proof`: a commitment to bbbb and its declaration proof. */
    method GetHashWithProof(salt: Bytes32) returns (h: Bytes32, proof: DeclarationConstraints.CodeDeclarationCircuit)
      ensures h == Commit(sha, EVIL_CODE, salt) && proof == Prove(EVIL_CODE, salt, h)
      ensures Verify(h, proof, sha)
    {
      h := Commit(sha, EVIL_CODE, salt);
      proof := Prove(EVIL_CODE, salt, h);
      VerifySound(h, proof, sha);
    }
  }

  /** The evil host's (0, 0) proof is accepted exactly when the guess has
      no 'b': then bbbb really shares nothing with it. */
  lemma EvilGuessAcceptedIff(g: string, salt: Bytes32, sha: Hasher)
    requires IsGuessString(g)
    ensures var hash := Commit(sha, EVIL_CODE, salt);
            VerifyGuess(hash, 0, 0, ProveGuess(EVIL_CODE, StringToCode(g), salt, hash, 0, 0), sha)
            <==> forall i | 0 <= i < CODE_LENGTH :: g[i] != 'b'
  {
    var hash := Commit(sha, EVIL_CODE, salt);
    var code := StringToCode(g);
    HashMatchesIff(sha, hash, EVIL_CODE, salt);
    GuessConstraints.MinSumIsOverlap(EVIL_CODE, code);
    if forall i | 0 <= i < CODE_LENGTH :: g[i] != 'b' {
      forall i | 0 <= i < CODE_LENGTH
        ensures code[i] != 1
      {
        ColourOfInjective(g[i], 'b');
      }
      NoMatchesWhenDisjoint(EVIL_CODE, code, CODE_LENGTH);
      assert multiset(EVIL_CODE) == multiset{1, 1, 1, 1};
      assert 1 !in multiset(code);
      assert multiset(EVIL_CODE) * multiset(code) == multiset{};
    } else {
      var i :| 0 <= i < CODE_LENGTH && g[i] == 'b';
      MatchFound(EVIL_CODE, code, CODE_LENGTH, i);
    }
  }

  /** As written, the guess is a witness the prover picks: the evil host
      can prove (0, 0) with the witness guess aaaa whatever was played.
      Against the played guess bbbb, whose true counts are (4, 4), the
      proof passes `verify_guess` but fails once the guess is public. */
  lemma EvilWitnessGuessAccepted(salt: Bytes32, sha: Hasher)
    ensures var hash := Commit(sha, EVIL_CODE, salt);
            var p := ProveGuess(EVIL_CODE, [0, 0, 0, 0], salt, hash, 0, 0);
            && VerifyGuess(hash, 0, 0, p, sha)
            && MatchCount(EVIL_CODE, EVIL_CODE, CODE_LENGTH) == 4
            && !VerifyPlayedGuess(hash, EVIL_CODE, 0, 0, p, sha)
  {
    var hash := Commit(sha, EVIL_CODE, salt);
    var zeros: Code := [0, 0, 0, 0];
    HashMatchesIff(sha, hash, EVIL_CODE, salt);
    NoMatchesWhenDisjoint(EVIL_CODE, zeros, CODE_LENGTH);
    GuessConstraints.MinSumIsOverlap(EVIL_CODE, zeros);
    assert multiset(EVIL_CODE) * multiset(zeros) == multiset{} by {
      assert multiset(EVIL_CODE) == multiset{1, 1, 1, 1};
      assert multiset(zeros) == multiset{0, 0, 0, 0};
    }
    MatchCountReflexive(EVIL_CODE, CODE_LENGTH);
  }

  /** With the played guess public, the evil host's (0, 0) is accepted,
      whatever witness guess it proves with, exactly when that witness is
      the played guess and the played guess has no 'b'. */
  lemma EvilCaughtWithPublicGuess(g: string, provedGuess: Code, salt: Bytes32, sha: Hasher)
    requires IsGuessString(g)
    ensures var hash := Commit(sha, EVIL_CODE, salt);
            VerifyPlayedGuess(hash, StringToCode(g), 0, 0, ProveGuess(EVIL_CODE, provedGuess, salt, hash, 0, 0), sha)
            <==> provedGuess == StringToCode(g) && forall i | 0 <= i < CODE_LENGTH :: g[i] != 'b'
  {
    EvilGuessAcceptedIff(g, salt, sha);
  }

  /** A cheating guess proof is accepted only against the fresh commitment
      it carries: a verifier holding any other hash rejects it. */
  lemma CheatingProofNeedsItsCommitment(
    declared: Bytes32, w: string, g: string, salt: Bytes32, sha: Hasher)
    requires IsGuessString(w) && IsGuessString(g)
    ensures var ans := Feedback(w, g);
            var hash := Commit(sha, StringToCode(w), salt);
            VerifyGuess(declared, ans.0, ans.1, ProveGuess(StringToCode(w), StringToCode(g), salt, hash, ans.0, ans.1), sha)
            <==> declared == hash
  {
    var ans := Feedback(w, g);
    var hash := Commit(sha, StringToCode(w), salt);
    var p := ProveGuess(StringToCode(w), StringToCode(g), salt, hash, ans.0, ans.1);
    GuessConstraints.SatisfiedIffOracle(w, g, salt, hash, ans.0, ans.1, sha);
    if VerifyGuess(declared, ans.0, ans.1, p, sha) {
      VerifyGuessSound(declared, ans.0, ans.1, p, sha);
    }
  }

  // ---------------------------------------------------------------------
  // CheatingHost: the candidate set

  /** The eight one-letter strings "a" .. "h". */
  const CHARACTERS: set<string> := {"a", "b", "c", "d", "e", "f", "g", "h"}

  /** Every concatenation of a string of xs with a string of ys (a
      cartesian product followed by `+`). */
  function Concat(xs: set<string>, ys: set<string>): set<string>
  {
    set x, y | x in xs && y in ys :: x + y
  }

  function Pairs(): set<string> { Concat(CHARACTERS, CHARACTERS) }

  /** The candidate set `new` starts from. */
  function AllSequences(): set<string> { Concat(Pairs(), Pairs()) }

  lemma LetterString(c: char)
    requires IsLetter(c)
    ensures [c] in CHARACTERS
  {
    if c == 'a' { assert [c] == "a"; }
    else if c == 'b' { assert [c] == "b"; }
    else if c == 'c' { assert [c] == "c"; }
    else if c == 'd' { assert [c] == "d"; }
    else if c == 'e' { assert [c] == "e"; }
    else if c == 'f' { assert [c] == "f"; }
    else if c == 'g' { assert [c] == "g"; }
    else { assert [c] == "h"; }
  }

  lemma PairsAreLetterPairs(p: string)
    ensures p in Pairs() <==> |p| == 2 && AllLetters(p)
  {
    if |p| == 2 && AllLetters(p) {
      LetterString(p[0]);
      LetterString(p[1]);
      assert p == [p[0]] + [p[1]];
    }
  }

  /** The candidate set is exactly the 4-letter strings over a..h. */
  lemma AllSequencesAreGuessStrings(s: string)
    ensures s in AllSequences() <==> IsGuessString(s)
  {
    if s in AllSequences() {
      var x, y :| x in Pairs() && y in Pairs() && s == x + y;
      PairsAreLetterPairs(x);
      PairsAreLetterPairs(y);
    }
    if IsGuessString(s) {
      PairsAreLetterPairs(s[..2]);
      PairsAreLetterPairs(s[2..]);
      assert s == s[..2] + s[2..];
    }
  }

  /** Prefixing one string to every string of ys. */
  function PrefixAll(x: string, ys: set<string>): set<string>
  {
    set y | y in ys :: x + y
  }

  lemma {:induction false} PrefixAllCard(x: string, ys: set<string>)
    ensures |PrefixAll(x, ys)| == |ys|
    decreases |ys|
  {
    if ys != {} {
      var y :| y in ys;
      var rest := ys - {y};
      PrefixAllCard(x, rest);
      assert PrefixAll(x, ys) == PrefixAll(x, rest) + {x + y};
      assert x + y !in PrefixAll(x, rest) by {
        forall z | z in rest
          ensures x + z != x + y
        {
          assert (x + z)[|x|..] == z;
          assert (x + y)[|x|..] == y;
        }
      }
    } else {
      assert PrefixAll(x, ys) == {};
    }
  }

  lemma ConcatSplit(xs: set<string>, ys: set<string>, x: string)
    requires x in xs
    ensures Concat(xs, ys) == Concat(xs - {x}, ys) + PrefixAll(x, ys)
  {
  }

  lemma ConcatDisjoint(rest: set<string>, ys: set<string>, x: string, n: nat)
    requires forall x' | x' in rest :: |x'| == n
    requires |x| == n && x !in rest
    ensures Concat(rest, ys) * PrefixAll(x, ys) == {}
  {
    forall z | z in Concat(rest, ys)
      ensures z !in PrefixAll(x, ys)
    {
      var x', y' :| x' in rest && y' in ys && z == x' + y';
      assert z[..n] == x';
    }
  }

  lemma DisjointUnionCard(a: set<string>, b: set<string>)
    requires a * b == {}
    ensures |a + b| == |a| + |b|
  {
  }

  /** With every string of xs of one length n, no two (x, y) pairs give
      the same concatenation, so the product has |xs| * |ys| strings. */
  lemma {:induction false} ConcatCard(xs: set<string>, ys: set<string>, n: nat)
    requires forall x | x in xs :: |x| == n
    ensures |Concat(xs, ys)| == |xs| * |ys|
    decreases |xs|
  {
    if xs != {} {
      var x :| x in xs;
      var rest := xs - {x};
      ConcatCard(rest, ys, n);
      PrefixAllCard(x, ys);
      ConcatSplit(xs, ys, x);
      ConcatDisjoint(rest, ys, x, n);
      DisjointUnionCard(Concat(rest, ys), PrefixAll(x, ys));
      assert |xs| == |rest| + 1;
      assert |xs| * |ys| == |rest| * |ys| + |ys|;
    } else {
      assert Concat(xs, ys) == {};
    }
  }

  /** `new` starts from 8^4 = 4096 candidates. */
  lemma AllSequencesCard()
    ensures |AllSequences()| == 4096
  {
    assert |CHARACTERS| == 8;
    ConcatCard(CHARACTERS, CHARACTERS, 1);
    forall p | p in Pairs()
      ensures |p| == 2
    {
      PairsAreLetterPairs(p);
    }
    ConcatCard(Pairs(), Pairs(), 2);
  }

  // ---------------------------------------------------------------------
  // CheatingHost: tallies and buckets

  /** The keys of the tally map: every (same, common) with
      same <= common <= 4. */
  function TallyKeys(): set<(nat, nat)>
  {
    set i: nat, j: nat | i <= j <= CODE_LENGTH :: (i, j)
  }

  /** The keys (i, j) with i <= j <= 4 for one first component i. */
  function RowKeys(i: nat): set<(nat, nat)>
  {
    set j: nat | i <= j <= CODE_LENGTH :: (i, j)
  }

  /** The keys whose first component is at least i. */
  function KeysFrom(i: nat): set<(nat, nat)>
  {
    set a: nat, b: nat | i <= a <= b <= CODE_LENGTH :: (a, b)
  }

  /** Row i of the tally keys holds the 5 - i answers (i, i) .. (i, 4). */
  lemma RowKeysCard(i: nat)
    requires i <= CODE_LENGTH
    ensures |RowKeys(i)| == CODE_LENGTH + 1 - i
  {
    if i == 0 {
      assert RowKeys(i) == {(0, 0), (0, 1), (0, 2), (0, 3), (0, 4)};
    } else if i == 1 {
      assert RowKeys(i) == {(1, 1), (1, 2), (1, 3), (1, 4)};
    } else if i == 2 {
      assert RowKeys(i) == {(2, 2), (2, 3), (2, 4)};
    } else if i == 3 {
      assert RowKeys(i) == {(3, 3), (3, 4)};
    } else {
      assert RowKeys(i) == {(4, 4)};
    }
  }

  /** 1 + 2 + ... + n. */
  function Triangle(n: nat): nat
  {
    if n == 0 then 0 else n + Triangle(n - 1)
  }

  /** Rows i .. 4 hold (5 - i) + ... + 1 keys. */
  lemma {:induction false} KeysFromCard(i: nat)
    requires i <= CODE_LENGTH + 1
    ensures |KeysFrom(i)| == Triangle(CODE_LENGTH + 1 - i)
    decreases CODE_LENGTH + 1 - i
  {
    if i == CODE_LENGTH + 1 {
      KeysFromEmpty(i);
    } else {
      KeysFromCard(i + 1);
      RowKeysCard(i);
      KeysFromSplit(i);
    }
  }

  /** No key has a first component above 4. */
  lemma KeysFromEmpty(i: nat)
    requires i > CODE_LENGTH
    ensures KeysFrom(i) == {}
  {
    forall k | k in KeysFrom(i)
      ensures false
    {
    }
  }

  /** The keys from row i on are row i and, disjoint from it, the keys
      from row i + 1 on. */
  lemma KeysFromSplit(i: nat)
    ensures KeysFrom(i) == RowKeys(i) + KeysFrom(i + 1)
    ensures |KeysFrom(i)| == |RowKeys(i)| + |KeysFrom(i + 1)|
  {
    assert KeysFrom(i) == RowKeys(i) + KeysFrom(i + 1);
    assert RowKeys(i) * KeysFrom(i + 1) == {};
  }

  /** The tally map has 15 keys, one per answer (i, j) with
      0 <= i <= j <= 4. */
  lemma TallyKeysCard()
    ensures |TallyKeys()| == 15
  {
    KeysFromCard(0);
    assert Triangle(5) == 15;
    assert TallyKeys() == KeysFrom(0);
  }

  /** Every answer the oracle can give is a key of the tally map, so the
      lookup before each increment always finds its entry. */
  lemma FeedbackIsKey(s: string, g: string)
    requires IsGuessString(s) && IsGuessString(g)
    ensures Feedback(s, g) in TallyKeys()
  {
  }

  /** The candidates of P that would receive answer k to guess g. */
  function Bucket(P: set<string>, g: string, k: (nat, nat)): set<string>
    requires IsGuessString(g)
  {
    set s | s in P && IsGuessString(s) && Feedback(s, g) == k
  }

  /** The buckets partition the candidates: each candidate lies in the
      bucket of its own answer and in no other. */
  lemma BucketsPartition(P: set<string>, g: string, s: string, k: (nat, nat))
    requires IsGuessString(g) && GuessStrings(P) && s in P
    ensures Feedback(s, g) in TallyKeys()
    ensures s in Bucket(P, g, k) <==> k == Feedback(s, g)
  {
  }

  lemma BucketGrow(done: set<string>, g: string, s: string, k: (nat, nat))
    requires IsGuessString(g) && IsGuessString(s) && s !in done
    ensures Bucket(done + {s}, g, k) == Bucket(done, g, k) + if Feedback(s, g) == k then {s} else {}
    ensures |Bucket(done + {s}, g, k)| == |Bucket(done, g, k)| + if Feedback(s, g) == k then 1 else 0
  {
    assert s !in Bucket(done, g, k);
  }

  /** Answer a ranks above answer b: more candidates, or as many with
      fewer exact matches, or as many with as many exact matches and
      fewer common colours. This is the order of the tuples
      (count, -same, -common). */
  predicate Outranks(countA: int, a: (nat, nat), countB: int, b: (nat, nat))
  {
    countA > countB || (countA == countB && (a.0 < b.0 || (a.0 == b.0 && a.1 < b.1)))
  }

  /** The ranking is a strict total order on distinct answers. */
  lemma OutranksTotal(ca: int, a: (nat, nat), cb: int, b: (nat, nat))
    requires a != b
    ensures Outranks(ca, a, cb, b) != Outranks(cb, b, ca, a)
  {
  }

  /** Builds the all-zero tally map, one key (i, j) per 0 <= i <= j <= 4. */
  method InitialTallies() returns (m: map<(nat, nat), int>)
    ensures m.Keys == TallyKeys()
    ensures forall k | k in m :: m[k] == 0
  {
    m := map[];
    for i := 0 to CODE_LENGTH + 1
      invariant forall k | k in m :: m[k] == 0
      invariant forall k: (nat, nat) :: k in m <==> k.0 < i && k.0 <= k.1 <= CODE_LENGTH
    {
      for j := i to CODE_LENGTH + 1
        invariant forall k | k in m :: m[k] == 0
        invariant forall k: (nat, nat) :: k in m <==>
          (k.0 < i && k.0 <= k.1 <= CODE_LENGTH) || (k.0 == i && i <= k.1 < j)
      {
        m := m[(i, j) := 0];
      }
    }
  }

  /** The tally loop of `guess`: starting from the all-zero map, one
      increment per candidate at the key of its answer. Every entry ends as
      the size of its bucket. */
  method Tally(P: set<string>, g: string, base: map<(nat, nat), int>) returns (m: map<(nat, nat), int>)
    requires IsGuessString(g) && forall s | s in P :: IsGuessString(s)
    requires base.Keys == TallyKeys() && forall k | k in base :: base[k] == 0
    ensures m.Keys == TallyKeys()
    ensures forall k | k in m :: m[k] == |Bucket(P, g, k)|
  {
    m := base;
    var rest := P;
    ghost var done: set<string> := {};
    while rest != {}
      invariant done <= P && rest <= P
      invariant forall x | x in P :: x in done || x in rest
      invariant forall x | x in rest :: x !in done
      invariant m.Keys == TallyKeys()
      invariant forall k | k in m :: m[k] == |Bucket(done, g, k)|
      decreases |rest|
    {
      var s :| s in rest;
      var same := Same(s, g);
      var common := Common(s, g);
      FeedbackIsKey(s, g);
      var m' := m[(same, common) := m[(same, common)] + 1];
      TallyStep(done, g, s, m, m');
      m := m';
      done := done + {s};
      rest := rest - {s};
    }
    assert done == P;
  }

  /** One step of the tally loop keeps every entry equal to the size of
      its bucket among the candidates seen so far. */
  lemma TallyStep(done: set<string>, g: string, s: string, m: map<(nat, nat), int>, m': map<(nat, nat), int>)
    requires IsGuessString(g) && IsGuessString(s) && s !in done
    requires m.Keys == TallyKeys() && forall k | k in m :: m[k] == |Bucket(done, g, k)|
    requires Feedback(s, g) in m && m' == m[Feedback(s, g) := m[Feedback(s, g)] + 1]
    ensures m'.Keys == TallyKeys()
    ensures forall k | k in m' :: m'[k] == |Bucket(done + {s}, g, k)|
  {
    forall k | k in m'
      ensures m'[k] == |Bucket(done + {s}, g, k)|
    {
      BucketGrow(done, g, s, k);
    }
  }

  /** The `max_by` of `guess`: the key that outranks every other key. */
  method PickWorst(m: map<(nat, nat), int>) returns (ans: (nat, nat))
    requires m.Keys != {}
    ensures ans in m
    ensures forall k | k in m && k != ans :: Outranks(m[ans], ans, m[k], k)
  {
    var rest := m.Keys;
    ans :| ans in rest;
    rest := rest - {ans};
    while rest != {}
      invariant rest <= m.Keys && ans in m && ans !in rest
      invariant forall k | k in m && k !in rest && k != ans :: Outranks(m[ans], ans, m[k], k)
      decreases |rest|
    {
      var k :| k in rest;
      OutranksTotal(m[k], k, m[ans], ans);
      if Outranks(m[k], k, m[ans], ans) {
        ans := k;
      }
      rest := rest - {k};
    }
  }

  /** The answer that outranks all others has a non-empty bucket whenever
      the candidate set is non-empty. */
  lemma WorstBucketNonEmpty(P: set<string>, g: string, m: map<(nat, nat), int>, ans: (nat, nat))
    requires IsGuessString(g) && P != {} && forall s | s in P :: IsGuessString(s)
    requires m.Keys == TallyKeys() && forall k | k in m :: m[k] == |Bucket(P, g, k)|
    requires ans in m && forall k | k in m && k != ans :: Outranks(m[ans], ans, m[k], k)
    ensures Bucket(P, g, ans) != {}
  {
    var s :| s in P;
    var k := Feedback(s, g);
    FeedbackIsKey(s, g);
    assert s in Bucket(P, g, k);
  }

  // ---------------------------------------------------------------------
  // CheatingHost

  /** Every string of P is a four-letter guess string. */
  predicate GuessStrings(P: set<string>)
  {
    forall s | s in P :: IsGuessString(s)
  }

  /** Every recorded guess is a four-letter guess string. */
  predicate WellFormedHistory(history: seq<(string, (nat, nat))>)
  {
    forall i | 0 <= i < |history| :: IsGuessString(history[i].0)
  }

  /** Every candidate of P would have received every recorded answer. */
  predicate Consistent(P: set<string>, history: seq<(string, (nat, nat))>)
    requires GuessStrings(P) && WellFormedHistory(history)
  {
    forall s, i | s in P && 0 <= i < |history| :: Feedback(s, history[i].0) == history[i].1
  }

  /** Keeping only the bucket of the answer given keeps the candidates
      consistent with the history extended by that answer. */
  lemma BucketConsistent(P: set<string>, history: seq<(string, (nat, nat))>, g: string, ans: (nat, nat))
    requires GuessStrings(P) && WellFormedHistory(history) && Consistent(P, history)
    requires IsGuessString(g)
    ensures GuessStrings(Bucket(P, g, ans))
    ensures WellFormedHistory(history + [(g, ans)])
    ensures Consistent(Bucket(P, g, ans), history + [(g, ans)])
  {
    var h := history + [(g, ans)];
    forall s, i | s in Bucket(P, g, ans) && 0 <= i < |h|
      ensures Feedback(s, h[i].0) == h[i].1
    {
      if i < |history| {
        assert h[i] == history[i];
      }
    }
  }

  /** A host that never commits: it keeps every code consistent with the
      answers given so far and answers so as to keep as many as possible. */
  class CheatingHost {
    var possibleSequences: set<string>
    /** The all-zero tally map every `guess` starts from; never modified. */
    const worstCaseSequences: map<(nat, nat), int>
    const sha: Hasher
    /** The guesses answered so far, with their answers. */
    ghost var history: seq<(string, (nat, nat))>

    /** Candidates are four-letter strings, there is at least one, the
        tally map is all zero, and every candidate is consistent with every
        answer given so far. */
    ghost predicate Valid()
      reads this
    {
      && possibleSequences != {}
      && GuessStrings(possibleSequences)
      && worstCaseSequences.Keys == TallyKeys()
      && (forall k | k in worstCaseSequences :: worstCaseSequences[k] == 0)
      && WellFormedHistory(history)
      && Consistent(possibleSequences, history)
    }

    /** `new`: every four-letter string over a..h, and the zero tallies. */
    constructor (sha: Hasher)
      ensures Valid() && history == []
      ensures possibleSequences == AllSequences() && |possibleSequences| == 4096
      ensures this.sha == sha
    {
      var m := InitialTallies();
      possibleSequences := AllSequences();
      worstCaseSequences := m;
      this.sha := sha;
      history := [];
      new;
      AllSequencesCard();
      forall s | s in possibleSequences
        ensures IsGuessString(s)
      {
        AllSequencesAreGuessStrings(s);
      }
      assert Consistent(possibleSequences, history);
      AllSequencesAreGuessStrings("abcd");
    }

    /** The pruning loop of `guess`: drops every candidate whose answer
        differs from ans. */
    method Prune(g: string, ans: (nat, nat))
      requires IsGuessString(g) && forall s | s in possibleSequences :: IsGuessString(s)
      modifies this
      ensures possibleSequences == Bucket(old(possibleSequences), g, ans)
      ensures unchanged(this`history)
    {
      ghost var P := possibleSequences;
      var rest := possibleSequences;
      while rest != {}
        invariant rest <= possibleSequences <= P
        invariant forall x | x in P :: IsGuessString(x)
        invariant forall x | x in possibleSequences && x !in rest :: Feedback(x, g) == ans
        invariant forall x | x in P && x !in possibleSequences :: Feedback(x, g) != ans
        invariant unchanged(this`history)
        decreases |rest|
      {
        var s :| s in rest;
        var same := Same(s, g);
        var common := Common(s, g);
        if (same, common) != ans {
          possibleSequences := possibleSequences - {s};
        }
        rest := rest - {s};
      }
    }

    /** `guess`: tallies the answers the candidates would get, picks the
        highest-ranked one, keeps only its candidates, and proves it against
        a fresh commitment to one of them. */
    method Guess(g: string, salt: Bytes32) returns (correct: nat, common: nat, proof: GuessConstraints.GuessCircuit)
      requires Valid() && IsGuessString(g)
      modifies this
      ensures Valid()
      ensures (correct, common) in TallyKeys()
      ensures possibleSequences == Bucket(old(possibleSequences), g, (correct, common))
      ensures forall k | k in TallyKeys() && k != (correct, common) ::
        Outranks(|Bucket(old(possibleSequences), g, (correct, common))|, (correct, common),
                 |Bucket(old(possibleSequences), g, k)|, k)
      ensures history == old(history) + [(g, (correct, common))]
      ensures exists w | w in possibleSequences ::
        proof == ProveGuess(StringToCode(w), StringToCode(g), salt, Commit(sha, StringToCode(w), salt), correct, common)
      ensures VerifyPlayedGuess(proof.hash, StringToCode(g), correct, common, proof, sha)
    {
      var ans := Answer(g);
      var w :| w in possibleSequences;
      correct, common := ans.0, ans.1;
      proof := CommitAndProve(w, g, salt, ans);
    }

    /** Lines 106-120 of `guess`: tally, pick the highest-ranked answer and
        keep only its candidates. */
    method Answer(g: string) returns (ans: (nat, nat))
      requires Valid() && IsGuessString(g)
      modifies this
      ensures Valid()
      ensures ans in TallyKeys()
      ensures possibleSequences == Bucket(old(possibleSequences), g, ans)
      ensures forall k | k in TallyKeys() && k != ans ::
        Outranks(|Bucket(old(possibleSequences), g, ans)|, ans, |Bucket(old(possibleSequences), g, k)|, k)
      ensures history == old(history) + [(g, ans)]
    {
      var m := Tally(possibleSequences, g, worstCaseSequences);
      assert (0, 0) in TallyKeys();
      ans := PickWorst(m);
      WorstBucketNonEmpty(possibleSequences, g, m, ans);
      BucketConsistent(possibleSequences, history, g, ans);
      Prune(g, ans);
      history := history + [(g, ans)];
    }

    /** The proof that ends `guess`: a fresh commitment to candidate w
        under salt, and the guess circuit for the chosen answer. */
    method CommitAndProve(w: string, g: string, salt: Bytes32, ans: (nat, nat))
      returns (proof: GuessConstraints.GuessCircuit)
      requires IsGuessString(w) && IsGuessString(g) && ans == Feedback(w, g)
      ensures proof == ProveGuess(StringToCode(w), StringToCode(g), salt, Commit(sha, StringToCode(w), salt), ans.0, ans.1)
      ensures VerifyPlayedGuess(proof.hash, StringToCode(g), ans.0, ans.1, proof, sha)
    {
      var code := StringToCode(w);
      var hash := Commit(sha, code, salt);
      proof := ProveGuess(code, StringToCode(g), salt, hash, ans.0, ans.1);
      GuessConstraints.SatisfiedIffOracle(w, g, salt, hash, ans.0, ans.1, sha);
    }

    /** `get_hash_with_proof`: a commitment to some remaining candidate and
        its declaration proof. */
    method GetHashWithProof(salt: Bytes32) returns (h: Bytes32, proof: DeclarationConstraints.CodeDeclarationCircuit)
      requires Valid()
      ensures exists w | w in possibleSequences ::
        h == Commit(sha, StringToCode(w), salt) && proof == Prove(StringToCode(w), salt, h)
      ensures Verify(h, proof, sha)
    {
      var w :| w in possibleSequences;
      h := Commit(sha, StringToCode(w), salt);
      proof := Prove(StringToCode(w), salt, h);
      VerifySound(h, proof, sha);
    }
  }
}
