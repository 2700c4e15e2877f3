/** The plaintext feedback oracle: `same` counts the positions where two
    codes agree, `common` the colours they share (the size of the multiset
    intersection), computed by sorting both codes and filling a 4x4
    longest-common-subsequence table. Also the letter-to-colour map the
    hosts import from this file (`string_to_code`). */
module Utils {
  import opened Crypto

  // ---------------------------------------------------------------------
  // Letters and colours

  /** One of the eight colour letters 'a'..'h'. */
  predicate IsLetter(c: char) { 'a' <= c <= 'h' }

  /** A well-formed guess: exactly four colour letters (`^[a-h]{4}$`). */
  predicate IsGuessString(s: string)
  {
    |s| == CODE_LENGTH && AllLetters(s)
  }

  /** Colour number of a letter: 'a' is 0, ..., 'h' is 7. */
  function ColourOf(c: char): (col: Byte)
    requires IsLetter(c)
    ensures col < COLOR_NUMBER
  {
    c as int - 'a' as int
  }

  /** Every character of s is a colour letter. */
  predicate AllLetters(s: string)
  {
    forall i | 0 <= i < |s| :: IsLetter(s[i])
  }

  /** The colour numbers of a string of letters, position by position. */
  function Colours(s: string): (cs: seq<Byte>)
    requires AllLetters(s)
    ensures |cs| == |s|
    ensures forall i | 0 <= i < |s| :: cs[i] == ColourOf(s[i])
  {
    seq(|s|, i requires 0 <= i < |s| => ColourOf(s[i]))
  }

  /** `string_to_code`: the code whose colours are the letters' numbers. */
  function StringToCode(s: string): (code: Code)
    requires IsGuessString(s)
    ensures forall i | 0 <= i < CODE_LENGTH :: code[i] == ColourOf(s[i]) < COLOR_NUMBER
  {
    Colours(s)
  }

  /** Distinct letters get distinct colours. */
  lemma ColourOfInjective(c: char, d: char)
    requires IsLetter(c) && IsLetter(d)
    ensures ColourOf(c) == ColourOf(d) <==> c == d
  {
  }

  // ---------------------------------------------------------------------
  // Positional matches (`same`)

  /** Number of positions i < n at which a and b hold the same element. */
  function MatchCount<T(==)>(a: seq<T>, b: seq<T>, n: nat): (r: nat)
    requires n <= |a| && n <= |b|
    ensures r <= n
  {
    if n == 0 then 0
    else MatchCount(a, b, n - 1) + (if a[n - 1] == b[n - 1] then 1 else 0)
  }

  /** `same`: counts, over the first four positions, those where the two
      strings agree. */
  method Same(sa: string, sb: string) returns (ans: int)
    requires |sa| >= CODE_LENGTH && |sb| >= CODE_LENGTH
    ensures ans == MatchCount(sa, sb, CODE_LENGTH)
    ensures 0 <= ans <= CODE_LENGTH
  {
    ans := 0;
    for i := 0 to CODE_LENGTH
      invariant ans == MatchCount(sa, sb, i)
    {
      ans := ans + if sa[i] == sb[i] then 1 else 0;
    }
  }

  lemma {:induction false} MatchCountSymmetric<T>(a: seq<T>, b: seq<T>, n: nat)
    requires n <= |a| && n <= |b|
    ensures MatchCount(a, b, n) == MatchCount(b, a, n)
  {
    if n > 0 {
      MatchCountSymmetric(a, b, n - 1);
    }
  }

  lemma {:induction false} MatchCountReflexive<T>(a: seq<T>, n: nat)
    requires n <= |a|
    ensures MatchCount(a, a, n) == n
  {
    if n > 0 {
      MatchCountReflexive(a, n - 1);
    }
  }

  /** Sequences that differ at every position have no exact match. */
  lemma {:induction false} NoMatchesWhenDisjoint<T>(a: seq<T>, b: seq<T>, n: nat)
    requires n <= |a| && n <= |b|
    requires forall i | 0 <= i < n :: a[i] != b[i]
    ensures MatchCount(a, b, n) == 0
  {
    if n > 0 {
      NoMatchesWhenDisjoint(a, b, n - 1);
    }
  }

  /** One agreeing position gives at least one exact match. */
  lemma {:induction false} MatchFound<T>(a: seq<T>, b: seq<T>, n: nat, i: nat)
    requires i < n <= |a| && n <= |b| && a[i] == b[i]
    ensures MatchCount(a, b, n) > 0
  {
    if i < n - 1 {
      MatchFound(a, b, n - 1, i);
    }
  }

  /** One differing position leaves fewer than n exact matches. */
  lemma {:induction false} MatchMissed<T>(a: seq<T>, b: seq<T>, n: nat, i: nat)
    requires i < n <= |a| && n <= |b| && a[i] != b[i]
    ensures MatchCount(a, b, n) < n
  {
    if i < n - 1 {
      MatchMissed(a, b, n - 1, i);
    }
  }

  // ---------------------------------------------------------------------
  // Sorting (`chars().sorted()`)

  predicate Sorted(s: string)
  {
    forall i, j | 0 <= i < j < |s| :: s[i] <= s[j]
  }

  /** Inserts c into the sorted string s, keeping it sorted. */
  function Insert(c: char, s: string): (r: string)
    requires Sorted(s)
    ensures multiset(r) == multiset(s) + multiset{c}
    ensures Sorted(r)
  {
    if s == [] || c <= s[0] then
      ConsSorted(c, s);
      [c] + s
    else
      var rest := Insert(c, s[1..]);
      ConsInsert(c, s, rest);
      [s[0]] + rest
  }

  /** A character no larger than the head of a sorted string may go in front. */
  lemma ConsSorted(h: char, s: string)
    requires Sorted(s) && (s == [] || h <= s[0])
    ensures Sorted([h] + s)
  {
  }

  /** Every character of rest is one of s's tail or c, so none is below s[0]. */
  lemma HeadBelowRest(c: char, s: string, rest: string)
    requires Sorted(s) && s != [] && s[0] < c
    requires multiset(rest) == multiset(s[1..]) + multiset{c}
    ensures forall k | 0 <= k < |rest| :: s[0] <= rest[k]
  {
    forall k | 0 <= k < |rest|
      ensures s[0] <= rest[k]
    {
      assert rest[k] in multiset(rest);
      if rest[k] != c {
        assert rest[k] in multiset(s[1..]);
        var m :| 0 <= m < |s[1..]| && s[1..][m] == rest[k];
        assert s[m + 1] == rest[k];
      }
    }
  }

  /** The head of s stays in front when c is inserted into its tail. */
  lemma ConsInsert(c: char, s: string, rest: string)
    requires Sorted(s) && s != [] && s[0] < c
    requires Sorted(rest) && multiset(rest) == multiset(s[1..]) + multiset{c}
    ensures Sorted([s[0]] + rest)
    ensures multiset([s[0]] + rest) == multiset(s) + multiset{c}
  {
    assert s == [s[0]] + s[1..];
    HeadBelowRest(c, s, rest);
    var r := [s[0]] + rest;
    forall i, j | 0 <= i < j < |r|
      ensures r[i] <= r[j]
    {
      if i > 0 {
        assert r[i] == rest[i - 1] && r[j] == rest[j - 1];
      }
    }
  }

  /** Insertion sort: a sorted permutation of s. */
  function Sort(s: string): (r: string)
    ensures Sorted(r) && multiset(r) == multiset(s) && |r| == |s|
  {
    if s == [] then []
    else
      assert s == [s[0]] + s[1..];
      Insert(s[0], Sort(s[1..]))
  }

  // ---------------------------------------------------------------------
  // Multiset overlap (`common`)

  /** Number of elements a and b share, counted with multiplicity: the size
      of the multiset intersection. */
  function Overlap<T(==)>(a: seq<T>, b: seq<T>): nat
  {
    |multiset(a) * multiset(b)|
  }

  /** The value `common` computes: the overlap of the four smallest
      characters of each string. */
  function CommonCount(sa: string, sb: string): nat
    requires |sa| >= CODE_LENGTH && |sb| >= CODE_LENGTH
  {
    Overlap(Sort(sa)[..CODE_LENGTH], Sort(sb)[..CODE_LENGTH])
  }

  function Max(x: int, y: int): int { if x >= y then x else y }

  /** The table recurrence of `common`, on the prefixes a[..i] and b[..j]:
      cell [i-1][j-1] of the source's table holds Lcs(a, b, i, j). */
  function Lcs(a: string, b: string, i: nat, j: nat): (r: nat)
    requires i <= |a| && j <= |b|
    ensures r <= i && r <= j
  {
    if i == 0 || j == 0 then 0
    else Max(Max(Lcs(a, b, i - 1, j), Lcs(a, b, i, j - 1)),
             Lcs(a, b, i - 1, j - 1) + if a[i - 1] == b[j - 1] then 1 else 0)
  }

  /** The first row and column of the table only ever hold 0 or 1: a cell
      there becomes 1 at the first match and keeps it. */
  lemma LcsFirstRow(a: string, b: string, j: nat)
    requires 1 <= |a| && j < |b|
    ensures Lcs(a, b, 1, j + 1) == if a[0] == b[j] then 1 else Lcs(a, b, 1, j)
  {
  }

  lemma LcsFirstColumn(a: string, b: string, i: nat)
    requires i < |a| && 1 <= |b|
    ensures Lcs(a, b, i + 1, 1) == if a[i] == b[0] then 1 else Lcs(a, b, i, 1)
  {
  }

  /** `common`: sorts both strings, fills the 4x4 table in place and reads
      its last cell, which is the overlap of the four smallest characters. */
  method Common(sa: string, sb: string) returns (r: int)
    requires |sa| >= CODE_LENGTH && |sb| >= CODE_LENGTH
    ensures r == CommonCount(sa, sb)
  {
    var a := Sort(sa);
    var b := Sort(sb);
    var table := new int[4, 4]((_, _) => 0);
    FillBorder(table, a, b);
    FillInterior(table, a, b);
    r := table[3, 3];
    SortedLcsIsOverlap(a, b, 4, 4);
  }

  /** Lines 18-32 of the source: the first row, then the first column. */
  method FillBorder(table: array2<int>, a: string, b: string)
    requires table.Length0 == 4 && table.Length1 == 4 && |a| >= 4 && |b| >= 4
    requires forall i, j | 0 <= i < 4 && 0 <= j < 4 :: table[i, j] == 0
    modifies table
    ensures forall jj | 0 <= jj < 4 :: table[0, jj] == Lcs(a, b, 1, jj + 1)
    ensures forall ii | 0 <= ii < 4 :: table[ii, 0] == Lcs(a, b, ii + 1, 1)
  {
    if a[0] == b[0] {
      table[0, 0] := 1;
    }
    LcsFirstRow(a, b, 0);
    for j := 1 to 4
      invariant forall jj | 0 <= jj < j :: table[0, jj] == Lcs(a, b, 1, jj + 1)
    {
      LcsFirstRow(a, b, j);
      table[0, j] := table[0, j - 1];
      if a[0] == b[j] {
        table[0, j] := 1;
      }
    }
    for i := 1 to 4
      invariant forall jj | 0 <= jj < 4 :: table[0, jj] == Lcs(a, b, 1, jj + 1)
      invariant forall ii | 0 <= ii < i :: table[ii, 0] == Lcs(a, b, ii + 1, 1)
    {
      LcsFirstColumn(a, b, i);
      table[i, 0] := table[i - 1, 0];
      if a[i] == b[0] {
        table[i, 0] := 1;
      }
    }
  }

  /** Lines 33-40 of the source: every other cell from its three neighbours,
      row by row. */
  method FillInterior(table: array2<int>, a: string, b: string)
    requires table.Length0 == 4 && table.Length1 == 4 && |a| >= 4 && |b| >= 4
    requires forall jj | 0 <= jj < 4 :: table[0, jj] == Lcs(a, b, 1, jj + 1)
    requires forall ii | 0 <= ii < 4 :: table[ii, 0] == Lcs(a, b, ii + 1, 1)
    modifies table
    ensures forall ii, jj | 0 <= ii < 4 && 0 <= jj < 4 :: table[ii, jj] == Lcs(a, b, ii + 1, jj + 1)
  {
    for i := 1 to 4
      invariant forall ii, jj | 0 <= ii < i && 0 <= jj < 4 :: table[ii, jj] == Lcs(a, b, ii + 1, jj + 1)
      invariant forall ii | i <= ii < 4 :: table[ii, 0] == Lcs(a, b, ii + 1, 1)
    {
      FillRow(table, a, b, i);
    }
  }

  /** One pass of the inner loop: row i from the rows above and its own first cell. */
  method FillRow(table: array2<int>, a: string, b: string, i: nat)
    requires table.Length0 == 4 && table.Length1 == 4 && |a| >= 4 && |b| >= 4 && 1 <= i < 4
    requires forall ii, jj | 0 <= ii < i && 0 <= jj < 4 :: table[ii, jj] == Lcs(a, b, ii + 1, jj + 1)
    requires table[i, 0] == Lcs(a, b, i + 1, 1)
    modifies table
    ensures forall jj | 0 <= jj < 4 :: table[i, jj] == Lcs(a, b, i + 1, jj + 1)
    ensures forall ii, jj | 0 <= ii < 4 && 0 <= jj < 4 && ii != i :: table[ii, jj] == old(table[ii, jj])
  {
    for j := 1 to 4
      invariant forall jj | 0 <= jj < j :: table[i, jj] == Lcs(a, b, i + 1, jj + 1)
      invariant forall ii, jj | 0 <= ii < 4 && 0 <= jj < 4 && ii != i :: table[ii, jj] == old(table[ii, jj])
    {
      FillCell(table, a, b, i, j);
    }
  }

  /** The body of the inner loop: cell (i, j) from its three neighbours. */
  method FillCell(table: array2<int>, a: string, b: string, i: nat, j: nat)
    requires table.Length0 == 4 && table.Length1 == 4 && |a| >= 4 && |b| >= 4 && 1 <= i < 4 && 1 <= j < 4
    requires table[i - 1, j] == Lcs(a, b, i, j + 1) && table[i, j - 1] == Lcs(a, b, i + 1, j)
    requires table[i - 1, j - 1] == Lcs(a, b, i, j)
    modifies table
    ensures table[i, j] == Lcs(a, b, i + 1, j + 1)
    ensures forall ii, jj | 0 <= ii < 4 && 0 <= jj < 4 && (ii != i || jj != j) :: table[ii, jj] == old(table[ii, jj])
  {
    table[i, j] := Max(Max(table[i - 1, j], table[i, j - 1]),
                       table[i - 1, j - 1] + if a[i] == b[j] then 1 else 0);
  }

  // ---------------------------------------------------------------------
  // Multiset facts

  lemma SubMultisetCard<T>(a: multiset<T>, b: multiset<T>)
    requires a <= b
    ensures |a| <= |b|
  {
    assert b == a + (b - a);
  }

  /** Adding one x to a grows the intersection with b exactly when a held
      fewer x than b. */
  lemma IntersectAddOne<T>(a: multiset<T>, b: multiset<T>, x: T)
    ensures |(a + multiset{x}) * b| == |a * b| + if a[x] < b[x] then 1 else 0
  {
    if a[x] < b[x] {
      assert (a + multiset{x}) * b == a * b + multiset{x};
    } else {
      assert (a + multiset{x}) * b == a * b;
    }
  }

  lemma IntersectCommutes<T>(a: multiset<T>, b: multiset<T>)
    ensures a * b == b * a
  {
    assert forall x :: (a * b)[x] == (b * a)[x];
  }

  /** Each of the three neighbours in the table recurrence is at most the
      overlap after adding x to one side and y to the other. */
  lemma OverlapNeighbours<T>(A: multiset<T>, B: multiset<T>, x: T, y: T)
    ensures |A * (B + multiset{y})| <= |(A + multiset{x}) * (B + multiset{y})|
    ensures |(A + multiset{x}) * B| <= |(A + multiset{x}) * (B + multiset{y})|
    ensures |A * B| + (if x == y then 1 else 0) <= |(A + multiset{x}) * (B + multiset{y})|
  {
    var I := (A + multiset{x}) * (B + multiset{y});
    IntersectMonotone(A, A + multiset{x}, B + multiset{y}, B + multiset{y});
    SubMultisetCard(A * (B + multiset{y}), I);
    IntersectMonotone(A + multiset{x}, A + multiset{x}, B, B + multiset{y});
    SubMultisetCard((A + multiset{x}) * B, I);
    if x == y {
      assert I == A * B + multiset{x};
    } else {
      IntersectMonotone(A, A + multiset{x}, B, B + multiset{y});
      SubMultisetCard(A * B, I);
    }
  }

  lemma IntersectMonotone<T>(A: multiset<T>, A': multiset<T>, B: multiset<T>, B': multiset<T>)
    requires A <= A' && B <= B'
    ensures A * B <= A' * B'
  {
  }


  /** A value absent from A contributes nothing to the overlap. */
  lemma OverlapAbsent<T>(A: multiset<T>, B: multiset<T>, y: T)
    requires A[y] == 0
    ensures A * (B + multiset{y}) == A * B
  {
    assert forall z :: (A * (B + multiset{y}))[z] == (A * B)[z];
  }

/** A prefix one longer holds one more copy of its last element. */
  lemma PrefixGrows<T>(a: seq<T>, n: nat)
    requires 0 < n <= |a|
    ensures multiset(a[..n]) == multiset(a[..n - 1]) + multiset{a[n - 1]}
  {
    assert a[..n] == a[..n - 1] + [a[n - 1]];
  }

  /** In a sorted string nothing in a[..i] exceeds its last character. */
  lemma SortedPrefixBelow(a: string, i: nat, y: char)
    requires Sorted(a) && 0 < i <= |a|
    ensures a[i - 1] < y ==> (multiset(a[..i - 1]) + multiset{a[i - 1]})[y] == 0
  {
    if a[i - 1] < y {
      PrefixGrows(a, i);
      if y in a[..i] {
        var k :| 0 <= k < i && a[k] == y;
      }
    }
  }

  /** The overlap obeys the table recurrence when the larger of the two
      added characters is absent from the other side. */
  lemma OverlapRecurrence(A: multiset<char>, B: multiset<char>, x: char, y: char)
    requires x < y ==> (A + multiset{x})[y] == 0
    requires y < x ==> (B + multiset{y})[x] == 0
    ensures |(A + multiset{x}) * (B + multiset{y})|
         == Max(Max(|A * (B + multiset{y})|, |(A + multiset{x}) * B|),
                |A * B| + if x == y then 1 else 0)
  {
    OverlapNeighbours(A, B, x, y);
    if x < y {
      OverlapAbsent(A + multiset{x}, B, y);
    } else if y < x {
      OverlapAbsent(B + multiset{y}, A, x);
      IntersectCommutes(B + multiset{y}, A + multiset{x});
      IntersectCommutes(B + multiset{y}, A);
    } else {
      assert (A + multiset{x}) * (B + multiset{y}) == A * B + multiset{x};
    }
  }

  /** Cell (i, j) of the table holds the overlap of the prefixes it covers. */
  predicate CellIsOverlap(a: string, b: string, i: nat, j: nat)
    requires i <= |a| && j <= |b|
  {
    Lcs(a, b, i, j) == |multiset(a[..i]) * multiset(b[..j])|
  }

  /** On sorted strings the table recurrence computes the multiset overlap
      of the prefixes, cell by cell in the order the source fills them. */
  lemma SortedLcsIsOverlap(a: string, b: string, i: nat, j: nat)
    requires Sorted(a) && Sorted(b) && i <= |a| && j <= |b|
    ensures Lcs(a, b, i, j) == |multiset(a[..i]) * multiset(b[..j])|
  {
    for ii := 0 to i + 1
      invariant forall p, q | 0 <= p < ii && 0 <= q <= |b| :: CellIsOverlap(a, b, p, q)
    {
      SortedLcsRow(a, b, ii);
    }
    assert CellIsOverlap(a, b, i, j);
  }

  /** Row i of the table, left to right, once every row above it holds
      the overlaps of its prefixes. */
  lemma SortedLcsRow(a: string, b: string, i: nat)
    requires Sorted(a) && Sorted(b) && i <= |a|
    requires forall p, q | 0 <= p < i && 0 <= q <= |b| :: CellIsOverlap(a, b, p, q)
    ensures forall p, q | 0 <= p <= i && 0 <= q <= |b| :: CellIsOverlap(a, b, p, q)
  {
    for j := 0 to |b| + 1
      invariant forall q | 0 <= q < j :: CellIsOverlap(a, b, i, q)
    {
      if i == 0 || j == 0 {
        EmptyPrefixOverlap(a, b, i, j);
      } else {
        SortedLcsCell(a, b, i, j);
      }
    }
  }

  /** On the border of the table both sides are zero. */
  lemma EmptyPrefixOverlap(a: string, b: string, i: nat, j: nat)
    requires i <= |a| && j <= |b| && (i == 0 || j == 0)
    ensures CellIsOverlap(a, b, i, j)
  {
    assert multiset(a[..i]) * multiset(b[..j]) == multiset{};
  }

  /** The inner cell: if the three neighbours hold the overlaps of their
      prefixes, so does this one; the largest characters either match (and
      both counts grow by one), or the larger one occurs nowhere in the
      other prefix. */
  lemma SortedLcsCell(a: string, b: string, i: nat, j: nat)
    requires Sorted(a) && Sorted(b) && 0 < i <= |a| && 0 < j <= |b|
    requires CellIsOverlap(a, b, i - 1, j) && CellIsOverlap(a, b, i, j - 1)
    requires CellIsOverlap(a, b, i - 1, j - 1)
    ensures CellIsOverlap(a, b, i, j)
  {
    var x, y := a[i - 1], b[j - 1];
    PrefixGrows(a, i);
    PrefixGrows(b, j);
    SortedPrefixBelow(a, i, y);
    SortedPrefixBelow(b, j, x);
    OverlapRecurrence(multiset(a[..i - 1]), multiset(b[..j - 1]), x, y);
    LcsStep(a, b, i, j);
  }

  /** One unfolding of the recurrence at an inner cell. */
  lemma LcsStep(a: string, b: string, i: nat, j: nat)
    requires 0 < i <= |a| && 0 < j <= |b|
    ensures Lcs(a, b, i, j) == Max(Max(Lcs(a, b, i - 1, j), Lcs(a, b, i, j - 1)),
                                   Lcs(a, b, i - 1, j - 1) + if a[i - 1] == b[j - 1] then 1 else 0)
  {
  }

  /** The table never decreases along a row or down a column. */
  lemma LcsMonotone(a: string, b: string, i: nat, j: nat)
    requires 0 < i <= |a| && 0 < j <= |b|
    ensures Lcs(a, b, i - 1, j) <= Lcs(a, b, i, j)
    ensures Lcs(a, b, i, j - 1) <= Lcs(a, b, i, j)
  {
    LcsStep(a, b, i, j);
  }

  /** `common` on four-letter strings is the overlap of the strings themselves. */
  lemma CommonCountIsOverlap(sa: string, sb: string)
    requires |sa| == CODE_LENGTH && |sb| == CODE_LENGTH
    ensures CommonCount(sa, sb) == Overlap(sa, sb)
  {
    assert Sort(sa)[..4] == Sort(sa);
    assert Sort(sb)[..4] == Sort(sb);
  }

  lemma OverlapBounds<T>(a: seq<T>, b: seq<T>)
    ensures Overlap(a, b) <= |a| && Overlap(a, b) <= |b|
  {
    SubMultisetCard(multiset(a) * multiset(b), multiset(a));
    SubMultisetCard(multiset(a) * multiset(b), multiset(b));
  }

  lemma CommonSymmetric(sa: string, sb: string)
    requires |sa| >= CODE_LENGTH && |sb| >= CODE_LENGTH
    ensures CommonCount(sa, sb) == CommonCount(sb, sa)
  {
    IntersectCommutes(multiset(Sort(sa)[..4]), multiset(Sort(sb)[..4]));
  }

  lemma CommonBounds(sa: string, sb: string)
    requires |sa| >= CODE_LENGTH && |sb| >= CODE_LENGTH
    ensures CommonCount(sa, sb) <= CODE_LENGTH
  {
    OverlapBounds(Sort(sa)[..4], Sort(sb)[..4]);
  }

  lemma CommonReflexive(sa: string)
    requires |sa| >= CODE_LENGTH
    ensures CommonCount(sa, sa) == CODE_LENGTH
  {
    var m := multiset(Sort(sa)[..4]);
    assert m * m == m;
  }

  /** The colours on which a and b agree among the first n positions. */
  function Agreed<T(==)>(a: seq<T>, b: seq<T>, n: nat): multiset<T>
    requires n <= |a| && n <= |b|
  {
    if n == 0 then multiset{}
    else Agreed(a, b, n - 1) + if a[n - 1] == b[n - 1] then multiset{a[n - 1]} else multiset{}
  }

  lemma {:induction false} AgreedInBoth<T>(a: seq<T>, b: seq<T>, n: nat)
    requires n <= |a| && n <= |b|
    ensures |Agreed(a, b, n)| == MatchCount(a, b, n)
    ensures Agreed(a, b, n) <= multiset(a[..n]) && Agreed(a, b, n) <= multiset(b[..n])
  {
    if n > 0 {
      AgreedInBoth(a, b, n - 1);
      AgreedStep(a, b, n);
    }
  }

  /** One more position: the agreed multiset grows by the colour there
      exactly when both sides have it, and each prefix grows by its own. */
  lemma AgreedStep<T>(a: seq<T>, b: seq<T>, n: nat)
    requires 0 < n <= |a| && n <= |b|
    requires Agreed(a, b, n - 1) <= multiset(a[..n - 1]) && Agreed(a, b, n - 1) <= multiset(b[..n - 1])
    ensures Agreed(a, b, n) <= multiset(a[..n]) && Agreed(a, b, n) <= multiset(b[..n])
  {
    PrefixGrows(a, n);
    PrefixGrows(b, n);
    if a[n - 1] == b[n - 1] {
      SubMultisetAddBoth(Agreed(a, b, n - 1), multiset(a[..n - 1]), a[n - 1]);
      SubMultisetAddBoth(Agreed(a, b, n - 1), multiset(b[..n - 1]), b[n - 1]);
    }
  }

  lemma SubMultisetAddBoth<T>(small: multiset<T>, big: multiset<T>, x: T)
    requires small <= big
    ensures small + multiset{x} <= big + multiset{x}
  {
  }

  /** Every exact match is also a shared colour: same <= common. */
  lemma MatchesWithinOverlap<T>(a: seq<T>, b: seq<T>)
    requires |a| == |b|
    ensures MatchCount(a, b, |a|) <= Overlap(a, b)
  {
    var n := |a|;
    AgreedInBoth(a, b, n);
    assert a[..n] == a && b[..n] == b;
    var ag := Agreed(a, b, n);
    assert ag <= multiset(a) * multiset(b);
    SubMultisetCard(ag, multiset(a) * multiset(b));
  }

  /** The answer the oracle gives for four-letter strings: 0 <= same <= common <= 4. */
  lemma SameAtMostCommon(sa: string, sb: string)
    requires |sa| == CODE_LENGTH && |sb| == CODE_LENGTH
    ensures MatchCount(sa, sb, CODE_LENGTH) <= CommonCount(sa, sb) <= CODE_LENGTH
  {
    CommonCountIsOverlap(sa, sb);
    MatchesWithinOverlap(sa, sb);
    OverlapBounds(sa, sb);
  }

  /** Worked example: abcd against dcba shares every colour, in no position. */
  lemma ExampleReversed(s: string, t: string)
    requires s == "abcd" && t == "dcba"
    ensures MatchCount(s, t, 4) == 0 && CommonCount(s, t) == 4
  {
    assert MatchCount(s, t, 2) == MatchCount(s, t, 1) + if s[1] == t[1] then 1 else 0;
    assert MatchCount(s, t, 4) == MatchCount(s, t, 3) + if s[3] == t[3] then 1 else 0;
    assert multiset(s) == multiset{'a', 'b', 'c', 'd'} == multiset(t);
    PermutationOverlap(s, t);
    CommonCountIsOverlap(s, t);
  }

  /** Two rearrangements of one another share every element. */
  lemma PermutationOverlap<T>(a: seq<T>, b: seq<T>)
    requires multiset(a) == multiset(b)
    ensures Overlap(a, b) == |a|
  {
    assert multiset(a) * multiset(b) == multiset(a);
  }

  /** Worked example: abcd against abdc, two colours in place. */
  lemma ExampleSwapped(s: string, t: string)
    requires s == "abcd" && t == "abdc"
    ensures MatchCount(s, t, 4) == 2 && CommonCount(s, t) == 4
  {
    assert MatchCount(s, t, 2) == MatchCount(s, t, 1) + if s[1] == t[1] then 1 else 0;
    assert MatchCount(s, t, 4) == MatchCount(s, t, 3) + if s[3] == t[3] then 1 else 0;
    assert multiset(s) == multiset{'a', 'b', 'c', 'd'} == multiset(t);
    PermutationOverlap(s, t);
    CommonCountIsOverlap(s, t);
  }

  /** Worked example: abcd against aabb, one colour in place, two shared. */
  lemma ExampleRepeated(s: string, t: string)
    requires s == "abcd" && t == "aabb"
    ensures MatchCount(s, t, 4) == 1 && CommonCount(s, t) == 2
  {
    assert MatchCount(s, t, 2) == MatchCount(s, t, 1) + if s[1] == t[1] then 1 else 0;
    assert MatchCount(s, t, 4) == MatchCount(s, t, 3) + if s[3] == t[3] then 1 else 0;
    RepeatedOverlap(s, t);
    CommonCountIsOverlap(s, t);
  }

  /** abcd and aabb share one a and one b. */
  lemma RepeatedOverlap(s: string, t: string)
    requires s == "abcd" && t == "aabb"
    ensures Overlap(s, t) == 2
  {
    assert multiset(s) == multiset{'a', 'b', 'c', 'd'};
    assert multiset(t) == multiset{'a', 'a', 'b', 'b'};
    assert multiset(s) * multiset(t) == multiset{'a', 'b'};
  }

  // ---------------------------------------------------------------------
  // The oracle on colours agrees with the oracle on letters

  lemma ColoursSnoc(s: string)
    requires AllLetters(s) && s != []
    ensures AllLetters(s[..|s| - 1])
    ensures Colours(s) == Colours(s[..|s| - 1]) + [ColourOf(s[|s| - 1])]
  {
  }

  /** A colour occurs in the code as often as its letter occurs in the string. */
  lemma {:induction false} ColourCount(s: string, ch: char)
    requires AllLetters(s) && IsLetter(ch)
    ensures multiset(Colours(s))[ColourOf(ch)] == multiset(s)[ch]
    decreases |s|
  {
    if s != [] {
      var init, last := s[..|s| - 1], s[|s| - 1];
      ColoursSnoc(s);
      assert s == init + [last];
      ColourCount(init, ch);
      ColourOfInjective(last, ch);
    }
  }

  /** Renaming letters to colours keeps the overlap. */
  lemma {:induction false} OverlapOfColours(s: string, t: string)
    requires AllLetters(s) && AllLetters(t)
    ensures Overlap(Colours(s), Colours(t)) == Overlap(s, t)
    decreases |s|
  {
    if s == [] {
      assert multiset(Colours(s)) * multiset(Colours(t)) == multiset{};
      assert multiset(s) * multiset(t) == multiset{};
    } else {
      var init, last := s[..|s| - 1], s[|s| - 1];
      ColoursSnoc(s);
      assert s == init + [last];
      OverlapOfColours(init, t);
      ColourCount(init, last);
      ColourCount(t, last);
      IntersectAddOne(multiset(Colours(init)), multiset(Colours(t)), ColourOf(last));
      IntersectAddOne(multiset(init), multiset(t), last);
    }
  }

  /** Renaming letters to colours keeps the positional matches. */
  lemma {:induction false} MatchCountOfColours(s: string, t: string, n: nat)
    requires AllLetters(s) && AllLetters(t) && n <= |s| && n <= |t|
    ensures MatchCount(Colours(s), Colours(t), n) == MatchCount(s, t, n)
  {
    if n > 0 {
      MatchCountOfColours(s, t, n - 1);
      ColourOfInjective(s[n - 1], t[n - 1]);
    }
  }

  /** On the codes of two guess strings, the positional matches and the
      overlap are `same` and `common` of the strings. */
  lemma OracleOnCodes(s: string, t: string)
    requires IsGuessString(s) && IsGuessString(t)
    ensures MatchCount(StringToCode(s), StringToCode(t), CODE_LENGTH) == MatchCount(s, t, CODE_LENGTH)
    ensures Overlap(StringToCode(s), StringToCode(t)) == CommonCount(s, t)
  {
    MatchCountOfColours(s, t, CODE_LENGTH);
    OverlapOfColours(s, t);
    CommonCountIsOverlap(s, t);
  }
}
