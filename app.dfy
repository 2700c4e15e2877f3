/** The game window's state machine: eight rows of typed guesses, eight
    responses and a counter of accepted guesses. A row is submitted to an
    honest host when it reads as a well-formed guess, and the answer is
    shown as a row of four pegs. Rendering is not modelled. */
module App {
  import opened Crypto
  import opened Utils
  import opened Host

  /** Number of guess rows. */
  const GUESSES: nat := 8
  /** Number of pegs in a response. */
  const SEQLEN: nat := 4

  /** The keys that type into the buffer: the eight colour letters and
      the three peg letters. */
  predicate IsKey(c: char)
  {
    IsLetter(c) || c == 'x' || c == 'y' || c == 'z'
  }

  /** The peg at position j of the response to (same, common): white 'z'
      for the exact matches, black 'y' up to the common colours, grey 'x'
      for the rest. */
  function PegAt(same: nat, common: nat, j: nat): char
  {
    if j < same then 'z' else if j < common then 'y' else 'x'
  }

  /** The whole response row. */
  function PegString(same: nat, common: nat): (r: string)
    ensures |r| == SEQLEN
  {
    seq(SEQLEN, j requires 0 <= j < SEQLEN => PegAt(same, common, j))
  }

  /** Number of occurrences of c in s. */
  function CountChar(s: string, c: char): nat
  {
    if s == [] then 0 else CountChar(s[..|s| - 1], c) + if s[|s| - 1] == c then 1 else 0
  }

  /** The pegs before position n of the response to (same, common). */
  lemma {:induction false} PegCounts(same: nat, common: nat, n: nat)
    requires same <= common <= n <= SEQLEN
    ensures CountChar(PegString(same, common)[..n], 'z') == same
    ensures CountChar(PegString(same, common)[..n], 'y') == common - same
    ensures CountChar(PegString(same, common)[..n], 'x') == n - common
  {
    var r := PegString(same, common);
    if n > 0 {
      assert r[..n][..n - 1] == r[..n - 1];
      if common < n {
        PegCounts(same, common, n - 1);
      } else if same < n {
        PegCountsPrefix(same, n - 1, n - 1, common);
      } else {
        PegCountsPrefix(n - 1, n - 1, n - 1, common);
        PegCountsZ(same, common, n);
      }
    }
  }

  lemma {:induction false} PegCountsPrefix(same: nat, common: nat, n: nat, c: nat)
    requires same <= common == n < c <= SEQLEN
    ensures CountChar(PegString(same, c)[..n], 'z') == same
    ensures CountChar(PegString(same, c)[..n], 'y') == n - same
    ensures CountChar(PegString(same, c)[..n], 'x') == 0
  {
    var r := PegString(same, c);
    if n > 0 {
      assert r[..n][..n - 1] == r[..n - 1];
      if same < n {
        PegCountsPrefix(same, n - 1, n - 1, c);
      } else {
        PegCountsZ(same, c, n);
      }
    }
  }

  lemma {:induction false} PegCountsZ(same: nat, c: nat, n: nat)
    requires n <= same && n <= SEQLEN
    ensures CountChar(PegString(same, c)[..n], 'z') == n
    ensures CountChar(PegString(same, c)[..n], 'y') == 0
    ensures CountChar(PegString(same, c)[..n], 'x') == 0
  {
    var r := PegString(same, c);
    if n > 0 {
      assert r[..n][..n - 1] == r[..n - 1];
      PegCountsZ(same, c, n - 1);
    }
  }

  /** Reading the pegs back: the white pegs count the exact matches and
      the grey pegs the colours not shared, so an answer with
      same <= common <= 4 is recovered from its response. */
  lemma PegStringRoundTrip(same: nat, common: nat)
    requires same <= common <= SEQLEN
    ensures CountChar(PegString(same, common), 'z') == same
    ensures SEQLEN - CountChar(PegString(same, common), 'x') == common
  {
    PegCounts(same, common, SEQLEN);
    assert PegString(same, common)[..SEQLEN] == PegString(same, common);
  }

  /** The response-building loops of `submit`: four grey pegs, then black
      over the first `common`, then white over the first `same`. */
  method Respond(same: nat, common: nat) returns (r: string)
    requires same <= SEQLEN && common <= SEQLEN
    ensures r == PegString(same, common)
  {
    var response := new char[SEQLEN](_ => 'x');
    for j := 0 to common
      invariant forall k | 0 <= k < SEQLEN :: response[k] == if k < j then 'y' else 'x'
    {
      response[j] := 'y';
    }
    for j := 0 to same
      invariant forall k | 0 <= k < SEQLEN ::
        response[k] == if k < j then 'z' else if k < common then 'y' else 'x'
    {
      response[j] := 'z';
    }
    r := response[..];
  }

  /** The application state (`MyApp`), played against an honest host. */
  class MyApp {
    const host: HonestHost
    var responses: seq<string>
    var guessesCnt: nat
    var buffer: seq<string>

    /** Eight rows each way, at most eight accepted guesses, and no row
        typed beyond four characters. */
    ghost predicate Valid()
      reads this
    {
      && host.Valid()
      && |responses| == GUESSES && |buffer| == GUESSES
      && guessesCnt <= GUESSES
      && forall i | 0 <= i < GUESSES :: |buffer[i]| <= SEQLEN
    }

    /** `default`: empty rows, no guesses yet; the host is given. */
    constructor (host: HonestHost)
      requires host.Valid()
      ensures Valid() && this.host == host && guessesCnt == 0
      ensures responses == seq(GUESSES, _ => "") && buffer == seq(GUESSES, _ => "")
    {
      this.host := host;
      responses := seq(GUESSES, _ => "");
      buffer := seq(GUESSES, _ => "");
      guessesCnt := 0;
    }

    /** `submit`: a row that is not four letters a..h gets the empty
        response; otherwise the host's answer (same, common) is drawn as
        pegs. The host's proof is not used. */
    method Submit(i: nat) returns (r: string)
      requires Valid() && i < |buffer|
      ensures !IsGuessString(buffer[i]) ==> r == ""
      ensures IsGuessString(buffer[i]) ==>
        var (same, common) := Feedback(host.sequence, buffer[i]);
        r == PegString(same, common) && |r| == SEQLEN
    {
      var s := buffer[i];
      if IsGuessString(s) {
        var same, common, _ := host.Guess(s);
        r := Respond(same, common);
      } else {
        r := "";
      }
    }

    /** The Confirm button of the active row, and the Enter key: submit the
        row, store the response, and move on only if the response is
        non-empty. */
    method Confirm()
      requires Valid() && guessesCnt < GUESSES
      modifies this
      ensures Valid() && buffer == old(buffer)
      ensures IsGuessString(buffer[old(guessesCnt)]) ==>
        guessesCnt == old(guessesCnt) + 1
        && responses == old(responses)[old(guessesCnt) :=
             PegString(Feedback(host.sequence, buffer[old(guessesCnt)]).0,
                       Feedback(host.sequence, buffer[old(guessesCnt)]).1)]
      ensures !IsGuessString(buffer[old(guessesCnt)]) ==>
        guessesCnt == old(guessesCnt) && responses == old(responses)[old(guessesCnt) := ""]
    {
      var r := Submit(guessesCnt);
      responses := responses[guessesCnt := r];
      if r != "" {
        guessesCnt := guessesCnt + 1;
      }
    }

    /** A key press on a colour or peg letter: appends it to the active row
        while that row is shorter than four characters. */
    method PressKey(c: char)
      requires Valid() && guessesCnt < GUESSES && IsKey(c)
      modifies this
      ensures Valid() && guessesCnt == old(guessesCnt) && responses == old(responses)
      ensures |old(buffer[guessesCnt])| < SEQLEN ==>
        buffer == old(buffer)[guessesCnt := old(buffer[guessesCnt]) + [c]]
      ensures |old(buffer[guessesCnt])| >= SEQLEN ==> buffer == old(buffer)
    {
      if |buffer[guessesCnt]| < SEQLEN {
        buffer := buffer[guessesCnt := buffer[guessesCnt] + [c]];
      }
    }

    /** Backspace: drops the last character of the active row, if any. */
    method Backspace()
      requires Valid() && guessesCnt < GUESSES
      modifies this
      ensures Valid() && guessesCnt == old(guessesCnt) && responses == old(responses)
      ensures old(buffer[guessesCnt]) != [] ==>
        buffer == old(buffer)[guessesCnt := old(buffer[guessesCnt])[..|old(buffer[guessesCnt])| - 1]]
      ensures old(buffer[guessesCnt]) == [] ==> buffer == old(buffer)
    {
      var row := buffer[guessesCnt];
      if row != [] {
        buffer := buffer[guessesCnt := row[..|row| - 1]];
      }
    }
  }

  /** Against the honest host, the response to a well-formed guess shows
      exactly `same` white pegs and leaves exactly 4 - `common` grey. */
  lemma ResponseShowsAnswer(secret: string, g: string)
    requires IsGuessString(secret) && IsGuessString(g)
    ensures var (same, common) := Feedback(secret, g);
            CountChar(PegString(same, common), 'z') == same
            && SEQLEN - CountChar(PegString(same, common), 'x') == common
  {
    var (same, common) := Feedback(secret, g);
    PegStringRoundTrip(same, common);
  }

  /** Solving the game: the response is four white pegs exactly when the
      guess is the secret. */
  lemma AllWhiteIffSolved(secret: string, g: string)
    requires IsGuessString(secret) && IsGuessString(g)
    ensures var (same, common) := Feedback(secret, g);
            PegString(same, common) == "zzzz" <==> g == secret
  {
    var (same, common) := Feedback(secret, g);
    if g == secret {
      MatchCountReflexive(secret, CODE_LENGTH);
    } else {
      var i :| 0 <= i < CODE_LENGTH && g[i] != secret[i];
      MatchMissed(secret, g, CODE_LENGTH, i);
      assert PegString(same, common)[CODE_LENGTH - 1] == PegAt(same, common, CODE_LENGTH - 1);
    }
  }
}
