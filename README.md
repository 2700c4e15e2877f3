# zk-mastermind in Dafny

A model of zk-mastermind, a Mastermind game in which the host commits to a
secret four-peg code over eight colours (the letters `a`..`h`, colours
0..7). Each answer to a guess comes with a zero-knowledge proof about a
committed code. The proof takes the hash and the two counts as public
inputs. The guess is a private witness, so as written the proof binds the
counts to a guess of the prover's choosing, not to the one that was played
(see Findings). The model covers these parts:

- **The feedback oracle** (`utils.dfy`, module `Utils`).
  - `same` counts the positions where two codes agree.
  - `common` sorts both codes and fills a 4x4 longest-common-subsequence
    table in place.
  - On sorted input the table computes the size of the multiset
    intersection. This is proved cell by cell.
- **The guess circuit** (`guess_circuit.dfy`, module `GuessConstraints`).
  - `generate_constraints` is a method that computes the digest check,
    the exact-match counter, the two colour histograms and the
    bucket-minimum `counter2`.
  - It returns whether every emitted equality holds.
  - A predicate `Satisfied` states what a satisfying assignment means.
- **The declaration circuit** (`code_circuit.dfy`, module
  `DeclarationConstraints`): the digest check plus the range check
  `0 <= colour < 8` on each of the four colours.
- **Public inputs and proofs** (`proof.dfy`, module `PublicInputs`).
  - A 32-byte hash is encoded as 256 bits, byte-major, least significant
    bit first. The guess variant then appends `correct` and `common`.
  - Groth16 is replaced by an idealised proof system. A proof carries its
    circuit instance. Verification accepts exactly when that instance
    satisfies the circuit with both counters starting at 0, and its public
    input equals the one computed from the claimed values.
- **The three hosts** (`host.dfy`, module `Host`).
  - `HonestHost` answers truthfully.
  - `EvilHost` always answers (0, 0), with a proof about the code `bbbb`.
  - `CheatingHost` keeps the set of codes consistent with its answers so
    far. For each guess it tallies the answers those codes would get,
    gives the answer with the largest bucket (ties go to fewer exact
    matches, then fewer common colours), and prunes the set to that
    bucket.
- **The game window** (`app.dfy`, module `App`).
  - `submit` turns a well-formed row into a response of four pegs: white
    `z`, black `y` and grey `x`.
  - The Confirm button, the Enter key, letter keys and Backspace update
    the rows and the guess counter.

SHA-256 is a function parameter (`Crypto.Hasher`). Randomness (the
honest host's secret, every salt) is passed in as parameters.
`string_to_code` and `hash` are imported from `utils` (src/host.rs:5) but
are not defined in src/utils.rs. They are modelled as `Utils.StringToCode`
('a'..'h' to 0..7) and `Crypto.Commit` (the digest of the four colour
bytes followed by the salt, as `compute_hash` in `src/crypto.rs` hashes
them).

**Two conventions, both kept.**
- The guess circuit binds its public `common` to the total overlap of code
  and guess, exact matches included.
- `HonestHost::guess` proves `common - correct`.
- `CheatingHost::guess` proves the total.

So an honest guess proof is accepted exactly when the guess has no colour
in the right place (`Host.HonestGuessAcceptedIff`). A cheating host's
proof is always accepted for the new commitment it carries
(`Host.CheatingHost.Guess`), and for no other hash
(`Host.CheatingProofNeedsItsCommitment`).

`EvilHost` draws a fresh salt, and so a fresh commitment to `bbbb`, in
every `guess` and every `get_hash_with_proof` (src/host.rs:62-72), rather
than proving against one earlier commitment. The model takes the salt as a
parameter of each call.

## Model

| member | source | states |
|---|---|---|
| Crypto.HashInput | src/crypto.rs:23-36 | the hashed bytes are the four colour bytes followed by the 32 salt bytes, 36 in all |
| Crypto.Commit | src/host.rs:32 | `hash(code)`: the digest of the code's colours followed by the salt; HashMatchesIff ties it to the circuits' byte equalities |
| Crypto.HashMatchesIff | src/guess_circuit.rs:80-86 | the 32 per-byte hash equalities hold exactly when the public hash equals the digest of (code, salt) |
| Utils.ColourOf | src/host.rs:5 | every letter a..h maps to a colour below 8 |
| Utils.StringToCode | src/host.rs:41 | position i of the code is the colour of letter i, and every colour is below 8 |
| Utils.ColourOfInjective | src/host.rs:5 | distinct letters get distinct colours |
| Utils.Same | src/utils.rs:4-12 | the loop returns the number of positions below 4 where the strings agree, a value in [0, 4] |
| Utils.MatchCountSymmetric | src/utils.rs:8-10 | `same` does not depend on the order of its arguments |
| Utils.MatchCountReflexive | src/utils.rs:8-10 | a string has 4 exact matches with itself |
| Utils.NoMatchesWhenDisjoint | src/utils.rs:8-10 | codes that differ at every position have no exact match |
| Utils.MatchFound | src/utils.rs:8-10 | one agreeing position gives at least one exact match |
| Utils.MatchMissed | src/utils.rs:8-10 | one differing position leaves fewer than n exact matches |
| Utils.Insert | src/utils.rs:15-16 | inserting into a sorted string gives a sorted string holding one more copy of the character |
| Utils.Sort | src/utils.rs:15-16 | the sort gives a sorted permutation of its input |
| Utils.Lcs | src/utils.rs:17-40 | table cell (i, j) never exceeds min(i, j) + 1 |
| Utils.LcsFirstRow | src/utils.rs:21-26 | along the first row a cell becomes 1 on a match and otherwise copies its left neighbour |
| Utils.LcsFirstColumn | src/utils.rs:27-32 | down the first column a cell becomes 1 on a match and otherwise copies the cell above |
| Utils.LcsMonotone | src/utils.rs:33-40 | the table never decreases along a row or down a column |
| Utils.LcsStep | src/utils.rs:35-38 | an inner cell is the maximum of its upper and left neighbours and its diagonal plus the match bit |
| Utils.Common | src/utils.rs:14-42 | `common` returns the overlap of the four smallest letters of each string, the value proved equal to the multiset intersection |
| Utils.FillBorder | src/utils.rs:18-32 | after the border loops the first row and column hold the table recurrence for one-letter prefixes |
| Utils.FillInterior | src/utils.rs:33-40 | after the nested loops every cell holds the recurrence value of its two prefixes |
| Utils.FillRow | src/utils.rs:34-39 | one pass of the inner loop fills row i and leaves every other row unchanged |
| Utils.FillCell | src/utils.rs:35-38 | one cell is computed from its three neighbours and no other cell changes |
| Utils.SortedLcsIsOverlap | src/utils.rs:15-41 | on sorted strings every table cell equals the size of the multiset intersection of the two prefixes |
| Utils.SortedLcsCell | src/utils.rs:35-38 | if the three neighbours hold prefix overlaps, so does the cell the recurrence computes from them |
| Utils.EmptyPrefixOverlap | src/utils.rs:17 | an empty prefix has zero overlap, the table's implicit border |
| Utils.CommonCountIsOverlap | src/utils.rs:14-42 | on four-letter strings `common` is the multiset intersection size of the strings |
| Utils.CommonSymmetric | src/utils.rs:14-42 | `common` does not depend on the order of its arguments |
| Utils.CommonBounds | src/utils.rs:14-42 | `common` is at most 4 |
| Utils.CommonReflexive | src/utils.rs:14-42 | a string shares all 4 colours with itself |
| Utils.MatchesWithinOverlap | src/utils.rs:4-42 | every exact match is also a shared colour |
| Utils.SameAtMostCommon | src/host.rs:41 | same <= common <= 4, so `common - correct` is never negative and (same, common) is a key of the tally map |
| Utils.SortedLcsRow | src/utils.rs:34-39 | once every row above holds prefix overlaps, so does every cell of row i |
| Utils.ExampleReversed | src/utils.rs:4-42 | abcd against dcba gives (0, 4) |
| Utils.ExampleSwapped | src/utils.rs:4-42 | abcd against abdc gives (2, 4) |
| Utils.ExampleRepeated | src/utils.rs:4-42 | abcd against aabb gives (1, 2) |
| Utils.PermutationOverlap | src/utils.rs:14-42 | a rearrangement of a code shares all of its colours with it |
| Utils.RepeatedOverlap | src/utils.rs:14-42 | abcd and aabb share 2 colours |
| Utils.ColourCount | src/host.rs:41 | a colour occurs in the code as often as its letter occurs in the string |
| Utils.OverlapOfColours | src/host.rs:41 | renaming letters to colours keeps the multiset overlap |
| Utils.MatchCountOfColours | src/host.rs:41 | renaming letters to colours keeps the positional matches |
| Utils.OracleOnCodes | src/guess_circuit.rs:92-142 | on the codes of two guess strings the circuit's counts equal `same` and `common` of the strings |
| GuessConstraints.FromTuple | src/guess_circuit.rs:29-55 | the built instance keeps the given code, guess, salt and counts, and its hash passes the digest check |
| GuessConstraints.GenerateConstraints | src/guess_circuit.rs:57-147 | all constraints hold iff the hash opens, `correct` is the exact-match count and `common` the bucket-minimum sum; for in-palette codes iff `common` is the total overlap |
| GuessConstraints.Histogram | src/guess_circuit.rs:105-135 | bucket c counts the occurrences of colour c for c < 8; a colour of 8 or more is counted nowhere |
| GuessConstraints.MinSumIsOverlap | src/guess_circuit.rs:137-142 | for in-palette codes `counter2` is the multiset intersection size, exact matches included |
| GuessConstraints.CountersOrdered | src/guess_circuit.rs:92-142 | for in-palette codes counter <= counter2 <= 4 |
| GuessConstraints.SatisfiedIffOracle | src/guess_circuit.rs:139-144 | on guess strings the circuit is satisfied iff the hash opens, `correct` is `same` and `common` is the total `common`, not total minus exact |
| GuessConstraints.FromTupleSatisfiedIff | src/guess_circuit.rs:29-55 | an instance built by `From` is satisfied iff its two claimed counts are the true ones |
| GuessConstraints.SatisfiedAsWritten | src/guess_circuit.rs:92-144 | the guess circuit as written, with the counters' starting values as integer parameters (a start of p - k acts as -k); characterised by AsWrittenAcceptsAnyCounts, UnpinnedCountersAcceptFalseCounts, UnpinnedCountersAcceptDeflatedCounts and SatisfiedIsZeroStart |
| GuessConstraints.AsWrittenAcceptsAnyCounts | src/guess_circuit.rs:92-142 | some choice of starting values satisfies the written constraints exactly when the hash opens: the claimed counts are not constrained at all |
| GuessConstraints.UnpinnedCountersAcceptFalseCounts | src/guess_circuit.rs:92-142 | with counters started at 4, code 0000 and guess 1111 satisfy the written constraints with counts (4, 4), although the true counts are (0, 0) |
| GuessConstraints.UnpinnedCountersAcceptDeflatedCounts | src/guess_circuit.rs:92-142 | with counters started at -4 (the field element p - 4), code 1111 against itself satisfies the written constraints with (0, 0), although the true counts are (4, 4) |
| GuessConstraints.SatisfiedIsZeroStart | src/guess_circuit.rs:137-144 | the intended circuit is the written one with both counters starting at zero |
| DeclarationConstraints.FromCode | src/code_circuit.rs:24-44 | the built instance keeps the given code and salt, and its hash passes the digest check |
| DeclarationConstraints.Satisfied | src/code_circuit.rs:46-79 | what a satisfying assignment of the declaration circuit means; characterised by SatisfiedIff, RangeCheckBoundaries and OutOfPaletteRejected |
| DeclarationConstraints.SatisfiedIff | src/code_circuit.rs:66-79 | the circuit is satisfied iff the hash opens to the code and every colour is below 8 |
| DeclarationConstraints.RangeCheckBoundaries | src/code_circuit.rs:73-76 | colours 0 and 7 pass the range check, and every byte from 8 up fails it |
| DeclarationConstraints.LowerBoundVacuous | src/code_circuit.rs:74 | on bytes the lower-bound check always holds, so only the strict upper bound can fail |
| DeclarationConstraints.OutOfPaletteRejected | src/code_circuit.rs:73-76 | one colour of 8 or more makes the circuit unsatisfiable whatever the hash and salt |
| DeclarationConstraints.DeclaredStringSatisfied | src/code_circuit.rs:46-79 | the declaration of any four-letter guess string is satisfiable |
| PublicInputs.Bit | src/proof.rs:33 | a shifted-and-masked bit is 0 or 1 |
| PublicInputs.BitsRoundTrip | src/proof.rs:31-37 | summing the first n bits of v weighted 2^j gives back v whenever v < 2^n |
| PublicInputs.EncodeSlice | src/proof.rs:31-37 | entries 8i .. 8i+7 are the bits of byte i, least significant first |
| PublicInputs.DecodeEncode | src/proof.rs:27-40 | reading each group of eight entries as a little-endian number gives back the hash |
| PublicInputs.EncodeInjective | src/proof.rs:27-40 | two hashes with the same public input are equal |
| PublicInputs.PublicInputFrom | src/proof.rs:27-40 | the input has 256 entries, each 0 or 1, and entry 8i+j is bit j of byte i |
| PublicInputs.PublicGuessInputFrom | src/proof.rs:44-58 | the input has 258 entries: the 256 hash bits, then `correct` at 256 and `common` at 257 |
| PublicInputs.GuessInputInjective | src/proof.rs:44-58 | the guess input determines the hash, `correct` and `common` |
| PublicInputs.Prove | src/proof.rs:67-75 | a declaration proof is made for exactly the given code, salt and hash |
| PublicInputs.ProveGuess | src/proof.rs:82-90 | a guess proof is made for exactly the given code, guess, salt, hash and counts |
| PublicInputs.Verify | src/proof.rs:77-80 | `verify`: the proof is for the claimed hash's public input and its instance satisfies the declaration circuit; characterised by VerifySound |
| PublicInputs.VerifyGuess | src/proof.rs:92-95 | `verify_guess`: the proof's public input is the one for (hash, correct, common) and its instance satisfies the guess circuit; characterised by VerifyGuessSound and ProveGuessComplete |
| PublicInputs.VerifySound | src/proof.rs:77-80 | a declaration proof is accepted iff it is for the claimed hash, that hash opens to its code, and every colour is below 8 |
| PublicInputs.VerifyGuessSound | src/proof.rs:92-95 | an accepted guess proof is for the claimed hash, the hash opens to the proof's code, and the public counts are its exact matches and bucket-minimum sum against the proof's own witness guess |
| PublicInputs.VerifyPlayedGuess | src/proof.rs:92-95 | `verify_guess` with the played guess as a further public input; characterised by VerifyPlayedGuessSound and VerifyPlayedGuessComplete |
| PublicInputs.VerifyPlayedGuessSound | src/guess_circuit.rs:66-69 | with the guess public, an accepted proof means the hash opens to its code and the counts are that code's exact matches and overlap with the played guess |
| PublicInputs.VerifyPlayedGuessComplete | src/proof.rs:82-95 | with the guess public, an honest commitment's true counts against the played guess are accepted |
| PublicInputs.ProveGuessComplete | src/proof.rs:82-95 | a proof of a satisfying instance is accepted for its own public values |
| Host.Feedback | src/host.rs:40 | the oracle's answer satisfies same <= common <= 4 |
| Host.HonestHost.constructor | src/host.rs:23-38 | the host keeps the given secret and salt, and its hash commits to the secret's code |
| Host.HonestHost.Guess | src/host.rs:39-43 | the answer is (`same`, `common`) of secret and guess, the state is unchanged, and the proof is for `common - correct` |
| Host.HonestHost.GetHashWithProof | src/host.rs:45-51 | returns the committed hash with a declaration proof that is accepted |
| Host.HonestGuessAcceptedIff | src/host.rs:41 | the honest guess proof, checked against the played guess, is accepted exactly when the guess has no colour in the right place |
| Host.HonestDeclarationAccepted | src/host.rs:45-51 | the honest declaration proof is accepted |
| Host.EvilHost.constructor | src/host.rs:57-59 | the evil host holds nothing but the hash function |
| Host.EvilHost.Guess | src/host.rs:61-66 | always answers (0, 0), with a proof against a fresh commitment to bbbb |
| Host.EvilHost.GetHashWithProof | src/host.rs:68-73 | returns a commitment to bbbb with an accepted declaration proof |
| Host.EvilGuessAcceptedIff | src/host.rs:61-66 | the evil (0, 0) proof, built as the source builds it with the played guess as witness, is accepted exactly when the guess contains no `b` |
| Host.EvilWitnessGuessAccepted | src/host.rs:61-66 | a (0, 0) proof for bbbb with the witness guess aaaa passes `verify_guess`, although the played guess bbbb has four exact matches; with the guess public it is rejected |
| Host.EvilCaughtWithPublicGuess | src/host.rs:61-66 | with the guess public, the evil (0, 0) is accepted, whatever witness guess it proves with, exactly when that witness is the played guess and it has no `b` |
| Host.CheatingProofNeedsItsCommitment | src/host.rs:121-125 | a cheating guess proof is accepted against a given hash exactly when that hash is the new commitment the proof carries |
| Host.PrefixAllCard | src/host.rs:88-91 | prefixing one string to every string of a set keeps its size |
| Host.ConcatCard | src/host.rs:84-91 | the product of two sets of strings, where the left ones all have one length, has |xs| * |ys| strings |
| Host.PairsAreLetterPairs | src/host.rs:84-87 | the pairs are exactly the two-letter strings over a..h |
| Host.AllSequences | src/host.rs:83-92 | the product of the pairs with themselves; characterised by AllSequencesAreGuessStrings and AllSequencesCard |
| Host.AllSequencesAreGuessStrings | src/host.rs:83-92 | the starting candidates are exactly the four-letter strings over a..h |
| Host.AllSequencesCard | src/host.rs:83-92 | there are 4096 starting candidates |
| Host.FeedbackIsKey | src/host.rs:109 | every answer is a key of the tally map, so the lookup always finds an entry |
| Host.BucketsPartition | src/host.rs:106-111 | every candidate is in the bucket of its own answer and in no other |
| Host.BucketGrow | src/host.rs:110 | adding one candidate grows exactly the bucket of its answer, by one |
| Host.OutranksTotal | src/host.rs:112-114 | of two distinct answers exactly one outranks the other, so the maximum is unique |
| Host.RowKeysCard | src/host.rs:95-97 | for a given i the inner loop inserts the 5 - i keys (i, i) .. (i, 4) |
| Host.KeysFromSplit | src/host.rs:94-97 | the keys from row i on are row i plus, disjoint from it, the keys from row i + 1 on |
| Host.KeysFromCard | src/host.rs:94-97 | rows i .. 4 hold 1 + 2 + ... + (5 - i) keys |
| Host.TallyKeysCard | src/host.rs:93-98 | the tally map has exactly 15 keys |
| Host.InitialTallies | src/host.rs:93-98 | the map holds exactly the keys (i, j) with 0 <= i <= j <= 4, each mapped to 0 (15 keys, by TallyKeysCard) |
| Host.Tally | src/host.rs:106-111 | every entry of the tally map ends as the number of candidates that would get that answer |
| Host.TallyStep | src/host.rs:108-110 | one increment keeps every entry equal to its bucket size among the candidates seen |
| Host.PickWorst | src/host.rs:112-114 | the chosen key outranks every other key: largest tally, then fewer exact matches, then fewer common colours |
| Host.WorstBucketNonEmpty | src/host.rs:121 | the chosen bucket is non-empty, so picking a remaining candidate succeeds |
| Host.BucketConsistent | src/host.rs:115-120 | keeping only the chosen bucket keeps every candidate consistent with every answer, the new one included |
| Host.CheatingHost.constructor | src/host.rs:82-103 | starts with all 4096 four-letter strings, the all-zero tally map, and no answers given |
| Host.CheatingHost.Prune | src/host.rs:115-120 | the remaining candidates are exactly the old ones whose answer equals the chosen one |
| Host.CheatingHost.Answer | src/host.rs:106-120 | the answer is the key whose bucket outranks every other, the candidates are pruned to that bucket, and the invariant still holds |
| Host.CheatingHost.Guess | src/host.rs:105-126 | as `Answer`, and the proof is for a remaining candidate with the total overlap, so it is accepted for the played guess and the new commitment it carries |
| Host.CheatingHost.CommitAndProve | src/host.rs:121-125 | the proof commits to the chosen candidate under a fresh salt and is accepted for the answer, the played guess and that commitment |
| Host.CheatingHost.GetHashWithProof | src/host.rs:128-134 | commits to some remaining candidate with an accepted declaration proof |
| App.PegString | src/main.rs:60-66 | the response has exactly four pegs |
| App.Respond | src/main.rs:60-67 | positions below `same` are `z`, positions from `same` up to `common` are `y`, and the rest are `x` |
| App.PegCounts | src/main.rs:60-66 | the first n pegs hold `same` whites, `common - same` blacks and `n - common` greys |
| App.PegStringRoundTrip | src/main.rs:60-66 | the answer is recovered from the pegs: whites count `same`, and 4 minus greys is `common` |
| App.MyApp.constructor | src/main.rs:42-50 | eight empty rows of guesses and responses, and no guesses counted |
| App.MyApp.Submit | src/main.rs:54-70 | a row not matching `^[a-h]{4}$` gets the empty response; otherwise four pegs drawing the host's answer |
| App.MyApp.Confirm | src/main.rs:95-100 | stores the response of the active row and advances the counter by one exactly when the response is non-empty |
| App.MyApp.PressKey | src/main.rs:130-137 | appends the key to the active row only while it has fewer than four characters |
| App.MyApp.Backspace | src/main.rs:138-140 | drops the last character of the active row if there is one |
| App.ResponseShowsAnswer | src/main.rs:54-70 | against the honest host the response shows `same` white pegs and 4 - `common` grey pegs |
| App.AllWhiteIffSolved | src/main.rs:54-70 | the response is four white pegs exactly when the guess is the secret |

## Left out

- SHA-256 and its in-circuit gadget (`compute_hash`, `cast_fp_var_to_uint8`) are a function parameter. Nothing is assumed about the digest beyond its length.
- Groth16 is replaced by the idealised proof system above: no zero knowledge, no curve arithmetic, no circuit-specific setup, and no fixed `seed_from_u64(1)`. The model also does not capture what arkworks does when asked to prove an unsatisfied instance; it is represented by a proof that verification rejects.
- PublicInputs.Verify, VerifyGuess, VerifySound, VerifyGuessSound: this soundness holds only for proofs made by the program's own `prove`/`prove_guess`, whose assignment starts both counters at 0. It does not hold against any other prover, for two reasons. First, `verify` and `verify_guess` check the proof against `proof.vk`, a verifying key the prover ships inside `Proof` (src/proof.rs:62-65, 79, 94); the verifier holds no key of its own. Second, the written guess circuit leaves the starting values of `counter` and `counter2` free (see Findings).
- The field arithmetic of BLS12-381 is not modelled. Colours, hash bytes and the claimed counts are naturals below 256. The starting values of `counter` and `counter2` in `GuessConstraints.SatisfiedAsWritten` are integers: a start of p - k, for the field's modulus p, is written -k.
- Host.CheatingHost.Guess, EvilHost.Guess: a guess proof is accepted only for the new commitment it carries (`Host.CheatingProofNeedsItsCommitment`). `guess` returns no hash (src/host.rs:13), and the commitment `get_hash_with_proof` returns is made under another fresh salt (src/host.rs:128-134, 68-73). Per-guess commitments are therefore not tied to the declared one, and the model does not tie them either.
- PublicInputs.VerifyGuessSound: the played guess is a private witness (src/guess_circuit.rs:66-69) and not part of `PublicGuessInput` (src/proof.rs:44-58), so an accepted proof binds the counts only to the guess inside the proof. The model states this as written and proves the bound version for `PublicInputs.VerifyPlayedGuess` (see Findings).
- Randomness: the honest secret and every salt are parameters. `Host.CheatingHost.Guess` and `GetHashWithProof` pick any remaining candidate (`:|`) where the source takes the first one in `HashSet` iteration order.
- `HashMap` iteration order in `max_by` is not modelled. Because the ranking is a strict total order (`Host.OutranksTotal`), the maximum does not depend on it.
- Host.Tally: each entry is proved to be its bucket's size and the buckets partition the candidates (`Host.BucketsPartition`), but the sum of the entries equalling the number of candidates is not stated as one sum.
- Rust's `i32`/`usize`/`u8` are unbounded `int`/`nat` plus a `Byte` subtype. No count here exceeds 4096, so no wrap-around is reachable.
- `same` and `common` panic on strings shorter than four characters. The model requires at least four, and every caller passes four-letter strings.
- App.MyApp.Confirm, PressKey and Backspace require fewer than 8 accepted guesses. After eight, the source indexes past the last row and panics.
- `host.guess` returns a triple, but `submit` destructures a pair. The model uses the first two values and ignores the proof. `src/main.rs` never calls `verify` or `verify_guess`.
- The window itself is not modelled: egui rendering, painters, the colour table of `src/consts.rs`, the image, `main`, and the `println!` calls of `get_hash_with_proof`.
- The commented-out `CodeProof` code at the end of `src/proof.rs` is not part of this model.
- src/crypto.rs supplies `Code`, which becomes `Crypto.Code`, and the byte order of `compute_hash`, which becomes `Crypto.HashInput`. The gadget itself is not modelled (see the first line above).

## Findings

| source | as written | input that shows it | evidently intended | confidence | as-written member | corrected member |
|---|---|---|---|---|---|---|
| src/guess_circuit.rs:92-142 | `counter` and `counter2` are allocated as witness variables with value 0, but no constraint fixes their starting value, so a prover may start them at any field element and every claimed count is satisfiable once the hash opens | code 0000, guess 1111, any salt, both counters started at 4: the claimed counts (4, 4) satisfy every emitted equality, although the true counts are (0, 0); code 1111 against guess 1111, both counters started at p - 4: (0, 0) is accepted, although the true counts are (4, 4) | both counters start at the constant 0, so the counts are bound to the true exact matches and overlap | not executed | GuessConstraints.UnpinnedCountersAcceptFalseCounts | GuessConstraints.SatisfiedIffOracle |
| src/guess_circuit.rs:66-69 | the guess is a private witness and not a public input (`PublicGuessInput`, src/proof.rs:44-58), so `verify_guess` accepts counts that are right for some guess the prover chose | the evil host commits to bbbb and proves (0, 0) with the witness guess aaaa; the player guessed bbbb, whose true counts are (4, 4), and `verify_guess(hash, 0, 0, proof)` accepts | the played guess is a public input, so the counts are bound to it | not executed | Host.EvilWitnessGuessAccepted | Host.EvilCaughtWithPublicGuess |
