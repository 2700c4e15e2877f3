/** The code-declaration circuit: proves that the public hash commits to a
    code all of whose colours lie in the palette 0 .. COLOR_NUMBER-1. */
module DeclarationConstraints {
  import opened Crypto
  import opened Utils

  /** One circuit instance (`CodeDeclarationCircuit`). */
  datatype CodeDeclarationCircuit = CodeDeclarationCircuit(code: Code, salt: Bytes32, hash: Bytes32)

  /** `From<Code>`: commits to the code under the given salt (drawn at
      random in the program). */
  function FromCode(code: Code, salt: Bytes32, sha: Hasher): (w: CodeDeclarationCircuit)
    ensures w.code == code && w.salt == salt
    ensures HashMatches(sha, w.hash, w.code, w.salt)
  {
    var w := CodeDeclarationCircuit(code, salt, Commit(sha, code, salt));
    HashMatchesIff(sha, w.hash, code, salt);
    w
  }

  /** The two comparisons emitted per colour: not below zero (a
      greater-or-equal check) and strictly below COLOR_NUMBER. */
  predicate RangeChecked(col: Byte)
  {
    col >= 0 && col < COLOR_NUMBER
  }

  /** A satisfying assignment of the declaration circuit: the hash opens to
      the code and every colour passes the range check. */
  predicate Satisfied(w: CodeDeclarationCircuit, sha: Hasher)
  {
    HashMatches(sha, w.hash, w.code, w.salt) && forall i | 0 <= i < CODE_LENGTH :: RangeChecked(w.code[i])
  }

  /** The circuit accepts exactly the committed codes with every colour
      in 0 .. 7. */
  lemma SatisfiedIff(w: CodeDeclarationCircuit, sha: Hasher)
    ensures Satisfied(w, sha)
        <==> w.hash == Commit(sha, w.code, w.salt) && forall i | 0 <= i < CODE_LENGTH :: w.code[i] < COLOR_NUMBER
  {
    HashMatchesIff(sha, w.hash, w.code, w.salt);
  }

  /** The range check admits both ends of the palette and rejects every
      byte from COLOR_NUMBER upwards. */
  lemma RangeCheckBoundaries()
    ensures RangeChecked(0) && RangeChecked(COLOR_NUMBER - 1)
    ensures forall col: Byte | col >= COLOR_NUMBER :: !RangeChecked(col)
  {
  }

  /** On bytes the lower-bound comparison never fails: the range check
      reduces to the strict upper bound. */
  lemma LowerBoundVacuous(col: Byte)
    ensures col >= 0
    ensures RangeChecked(col) <==> col < COLOR_NUMBER
  {
  }

  /** A code with one colour of 8 or more has no satisfying assignment,
      whatever the hash and salt. */
  lemma OutOfPaletteRejected(w: CodeDeclarationCircuit, sha: Hasher, i: nat)
    requires i < CODE_LENGTH && w.code[i] >= COLOR_NUMBER
    ensures !Satisfied(w, sha)
  {
  }

  /** The declaration of a code read from a guess string, built by `From`,
      is always satisfied. */
  lemma DeclaredStringSatisfied(s: string, salt: Bytes32, sha: Hasher)
    requires IsGuessString(s)
    ensures Satisfied(FromCode(StringToCode(s), salt, sha), sha)
  {
  }
}
