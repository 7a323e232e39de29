/** The newer engine, src/wordle.rs: the game state machine with the two-pass
    assessor that gives a repeated letter no more marks than the target holds. */
module WordleEngine {
  import opened Board

  // ---------------------------------------------------------------------------
  // The two-pass assessment, stated declaratively

  /** By how many claims pass 1 overshoots the target's occurrences of `c`
      (zero or negative when it does not). */
  function Excess(p: seq<Letter>, target: string, c: char): int {
    Claims(p, c) - multiset(target)[c]
  }

  /** Pass 2 at position `m` of the pass-1 marks `p`: a wrong-position mark of `c`
      becomes Wrong while fewer wrong-position marks of `c` lie to its left than
      `c` is overclaimed, so the leftmost ones are demoted first. */
  function Settle(p: seq<Letter>, target: string, m: nat): (r: Letter)
    requires m < |p|
    ensures r.ch == p[m].ch
    ensures r != p[m] <==> p[m].CorrectButWrongPosition? && Tentative(p[..m], p[m].ch) < Excess(p, target, p[m].ch)
    ensures r != p[m] ==> r == Wrong(p[m].ch)
  {
    match p[m]
    case CorrectButWrongPosition(c) =>
      if Tentative(p[..m], c) < Excess(p, target, c) then Wrong(c) else p[m]
    case _ => p[m]
  }

  /** Pass 2 over all of `p`: one mark per position, each either kept or a
      wrong-position mark turned Wrong. */
  function Settled(p: seq<Letter>, target: string): (r: seq<Letter>)
    ensures |r| == |p|
    ensures forall m :: 0 <= m < |p| ==>
      r[m] == p[m] || (p[m].CorrectButWrongPosition? && r[m] == Wrong(p[m].ch))
  {
    seq(|p|, m requires 0 <= m < |p| => Settle(p, target, m))
  }

  /** `Wordle::assess`: fails exactly on a length mismatch; otherwise one mark per
      position, carrying the upper-cased guessed letter, Correct exactly where the
      letter is the target's, and Wrong for every letter the target lacks. */
  function AssessTwoPass(target: string, word: string): (r: Result<seq<Letter>>)
    ensures r.Err? <==> |word| != |target|
    ensures r.Err? ==> r.error == LengthMismatch(|target|)
    ensures r.Ok? ==> |r.value| == |target|
    ensures r.Ok? ==> forall i :: 0 <= i < |r.value| ==> r.value[i].ch == Upper(word[i])
    ensures r.Ok? ==> forall i :: 0 <= i < |r.value| ==> (r.value[i].Correct? <==> Upper(word[i]) == target[i])
    ensures r.Ok? ==> forall i :: 0 <= i < |r.value| ==> Upper(word[i]) !in target ==> r.value[i].Wrong?
  {
    var w := ToUpper(word);
    if |w| != |target| then Err(LengthMismatch(|target|))
    else Ok(Settled(Classified(target, w), target))
  }

  // ---------------------------------------------------------------------------
  // What pass 2 achieves

  lemma {:induction false} SettledPrefixCounts(p: seq<Letter>, target: string, n: nat, c: char)
    requires n <= |p|
    ensures Exact(Settled(p, target)[..n], c) == Exact(p[..n], c)
    ensures Tentative(Settled(p, target)[..n], c)
         == Tentative(p[..n], c) - Min(Tentative(p[..n], c), Max(0, Excess(p, target, c)))
  {
    if n > 0 {
      var r := Settled(p, target);
      SettledPrefixCounts(p, target, n - 1, c);
      assert r[..n] == r[..n - 1] + [r[n - 1]];
      assert p[..n] == p[..n - 1] + [p[n - 1]];
      CountsSnoc(r[..n - 1], r[n - 1]);
      CountsSnoc(p[..n - 1], p[n - 1]);
      var t := Tentative(p[..n - 1], c);
      assert r[n - 1] == Correct(c) <==> p[n - 1] == Correct(c);
      assert r[n - 1] == CorrectButWrongPosition(c)
         <==> p[n - 1] == CorrectButWrongPosition(c) && t >= Excess(p, target, c);
    }
  }

  /** Pass 2 demotes exactly as many wrong-position marks of `c` as pass 1
      overclaimed `c` by, and never touches its exact matches. */
  lemma DemotedCount(target: string, word: string, c: char)
    requires |word| == |target|
    ensures var p := Classified(target, ToUpper(word));
            var r := AssessTwoPass(target, word).value;
            Exact(r, c) == Exact(p, c) &&
            Tentative(p, c) - Tentative(r, c) == Max(0, Claims(p, c) - multiset(target)[c])
  {
    var p := Classified(target, ToUpper(word));
    SettledPrefixCounts(p, target, |p|, c);
    assert p[..|p|] == p;
    assert Settled(p, target)[..|p|] == Settled(p, target);
    ExactWithinTarget(target, ToUpper(word), c);
  }

  /** The duplicate budget: a letter ends up Correct or CorrectButWrongPosition
      as often as pass 1 claimed it, but never more often than the target holds
      it; in closed form, the smaller of its counts in guess and target. */
  lemma DuplicateBudget(target: string, word: string, c: char)
    requires |word| == |target|
    ensures var p := Classified(target, ToUpper(word));
            Claims(AssessTwoPass(target, word).value, c) == Min(Claims(p, c), multiset(target)[c])
    ensures Claims(AssessTwoPass(target, word).value, c)
         == if c in target then Min(multiset(ToUpper(word))[c], multiset(target)[c]) else 0
  {
    DemotedCount(target, word, c);
    ClassifiedClaims(target, ToUpper(word), c);
  }

  lemma {:induction false} TentativeGrows(s: seq<Letter>, i: nat, j: nat, c: char)
    requires i < j <= |s| && s[i] == CorrectButWrongPosition(c)
    ensures Tentative(s[..i], c) < Tentative(s[..j], c)
  {
    assert s[..j][..j - 1] == s[..j - 1];
    if j - 1 > i {
      TentativeGrows(s, i, j - 1, c);
    }
  }

  /** Demotion order: among the wrong-position marks pass 1 gave to `c`, those
      demoted to Wrong are the leftmost ones. */
  lemma DemotionIsLeftmost(target: string, word: string, c: char, m1: nat, m2: nat)
    requires |word| == |target| && m1 < m2 < |word|
    requires Classified(target, ToUpper(word))[m1] == CorrectButWrongPosition(c)
    requires Classified(target, ToUpper(word))[m2] == CorrectButWrongPosition(c)
    requires AssessTwoPass(target, word).value[m2] == Wrong(c)
    ensures AssessTwoPass(target, word).value[m1] == Wrong(c)
  {
    TentativeGrows(Classified(target, ToUpper(word)), m1, m2, c);
  }

  // ---------------------------------------------------------------------------
  // The game view

  /** One assessed row per stored attempt, failing if any attempt has the wrong length. */
  function Rows(target: string, attempts: seq<string>): (r: Result<seq<seq<Letter>>>)
    ensures r.Ok? <==> forall i :: 0 <= i < |attempts| ==> |attempts[i]| == |target|
    ensures r.Err? ==> r.error == LengthMismatch(|target|)
    ensures r.Ok? ==> |r.value| == |attempts|
    ensures r.Ok? ==> forall i :: 0 <= i < |attempts| ==> AssessTwoPass(target, attempts[i]) == Ok(r.value[i])
  {
    if attempts == [] then Ok([])
    else
      match AssessTwoPass(target, attempts[0])
      case Err(e) => Err(e)
      case Ok(row) =>
        match Rows(target, attempts[1..])
        case Err(e) => Err(e)
        case Ok(rest) => Ok([row] + rest)
  }

  /** `Wordle::game` on the stored pair (target, attempts): Won exactly when the
      target was attempted, else Lost exactly from MaxAttempts attempts on, else
      Playing; with the assessed rows of the attempts, in order. */
  function GameView(target: string, attempts: seq<string>): (r: Result<Board.Game>)
    ensures r.Ok? <==> forall i :: 0 <= i < |attempts| ==> |attempts[i]| == |target|
    ensures r.Err? ==> r.error == LengthMismatch(|target|)
    ensures r.Ok? ==> (r.value.state == Won <==> target in attempts)
    ensures r.Ok? ==> (r.value.state == Lost <==> target !in attempts && |attempts| >= MaxAttempts)
    ensures r.Ok? ==> r.value.state == Status(target, attempts)
    ensures r.Ok? ==> |r.value.attempts| == |attempts|
    ensures r.Ok? ==> forall i :: 0 <= i < |attempts| ==> AssessTwoPass(target, attempts[i]) == Ok(r.value.attempts[i])
  {
    match Rows(target, attempts)
    case Err(e) => Err(e)
    case Ok(rows) => Ok(Game(Status(target, attempts), rows))
  }

  /** The view of a game played from `new` never fails. */
  lemma WellFormedViewOk(target: string, attempts: seq<string>)
    requires WellFormed(target, attempts)
    ensures GameView(target, attempts).Ok?
  {
  }

  /** The attempted letters of a view are exactly the upper-cased letters of
      the stored attempts. */
  lemma AttemptedLettersOfView(target: string, attempts: seq<string>, c: char)
    requires GameView(target, attempts).Ok?
    ensures c in AttemptedLetters(GameView(target, attempts).value) <==>
      exists i, j :: 0 <= i < |attempts| && 0 <= j < |attempts[i]| && Upper(attempts[i][j]) == c
  {
    var rows: seq<seq<Letter>> := GameView(target, attempts).value.attempts;
    if c in AttemptedLetters(GameView(target, attempts).value) {
      var i, j :| 0 <= i < |rows| && 0 <= j < |rows[i]| && rows[i][j].ch == c;
      assert Upper(attempts[i][j]) == c;
    }
    if exists i, j :: 0 <= i < |attempts| && 0 <= j < |attempts[i]| && Upper(attempts[i][j]) == c {
      var i, j :| 0 <= i < |attempts| && 0 <= j < |attempts[i]| && Upper(attempts[i][j]) == c;
      assert rows[i][j].ch == c;
    }
  }

  /** Submitting the target, in any letter case, to a game being played wins it,
      and the new row is all Correct. */
  lemma WinningTurn(target: string, attempts: seq<string>, word: string)
    requires GameView(target, attempts).Ok? && Status(target, attempts) == Playing
    requires ToUpper(word) == target
    ensures GameView(target, attempts + [ToUpper(word)]).Ok?
    ensures var g := GameView(target, attempts + [ToUpper(word)]).value;
            g.state == Won && forall l :: l in g.attempts[|attempts|] ==> l.Correct?
  {
    var next := attempts + [ToUpper(word)];
    assert next[|attempts|] == target;
    var row := AssessTwoPass(target, target).value;
    forall i | 0 <= i < |row|
      ensures row[i].Correct?
    {
      assert Upper(target[i]) == ToUpper(target)[i];
    }
  }

  // ---------------------------------------------------------------------------
  // The game itself

  /** `Wordle`: the target word and the words attempted so far, both public and
      persisted as they are. */
  class Wordle {
    var targetWord: string
    var attempts: seq<string>

    /** A game from its two fields, as the struct literal or a restored record. */
    constructor (targetWord: string, attempts: seq<string>)
      ensures this.targetWord == targetWord && this.attempts == attempts
    {
      this.targetWord := targetWord;
      this.attempts := attempts;
    }

    ghost predicate Valid()
      reads this
    {
      WellFormed(targetWord, attempts)
    }

    /** `Wordle::new`: refuses a target shorter than MinTargetLength; otherwise a
        fresh game over the upper-cased target with no attempts. */
    static method New(targetWord: string) returns (r: Result<Wordle>)
      ensures r.Err? <==> |targetWord| < MinTargetLength
      ensures r.Err? ==> r.error == TooShort
      ensures r.Ok? ==> fresh(r.value) && r.value.Valid()
      ensures r.Ok? ==> r.value.targetWord == ToUpper(targetWord) && r.value.attempts == []
    {
      if |targetWord| < MinTargetLength {
        return Err(TooShort);
      }
      ToUpperIdempotent(targetWord);
      var game := new Wordle(ToUpper(targetWord), []);
      r := Ok(game);
    }

    /** `Wordle::game`: the view of the stored pair, failing exactly when some
        stored attempt has the wrong length, and reporting the status rule. */
    function Game(): (r: Result<Board.Game>)
      reads this
      ensures r.Ok? <==> forall i :: 0 <= i < |attempts| ==> |attempts[i]| == |targetWord|
      ensures r.Ok? ==> r.value.state == Status(targetWord, attempts) && |r.value.attempts| == |attempts|
    {
      GameView(targetWord, attempts)
    }

    /** `Wordle::assess`, as the source computes it: letter counts of the target,
        then pass 1 marking and counting claims, then pass 2 demoting the
        wrong-position marks of overclaimed letters while their count is over. */
    method Assess(word: string) returns (r: Result<seq<Letter>>)
      ensures r == AssessTwoPass(targetWord, word)
    {
      var w := ToUpper(word);
      if |w| != |targetWord| {
        return Err(LengthMismatch(|targetWord|));
      }
      var targetLetterCount := CountLetters(targetWord);
      var letters, dupLetterCount := MarkPositions(targetWord, w);
      assert letters[..0] == [];
      var settled := DemoteOverclaimed(targetWord, letters, dupLetterCount, targetLetterCount);
      r := Ok(settled);
    }

    /** `Wordle::play_turn`: refuses a word of the wrong length, propagates a
        failing view of the stored attempts, refuses a game that is over; otherwise
        appends the upper-cased word and returns the new view. Every failure leaves
        the game as it was, and a game played from `New` stays well-formed. */
    method PlayTurn(word: string) returns (r: Result<Board.Game>)
      modifies this
      ensures targetWord == old(targetWord)
      ensures |word| != |targetWord| ==>
        r == Err(LengthMismatch(|targetWord|)) && attempts == old(attempts)
      ensures |word| == |targetWord| && old(GameView(targetWord, attempts)).Err? ==>
        r == old(GameView(targetWord, attempts)) && attempts == old(attempts)
      ensures |word| == |targetWord| && old(GameView(targetWord, attempts)).Ok?
              && old(Status(targetWord, attempts)) != Playing ==>
        r == Err(GameOver) && attempts == old(attempts)
      ensures |word| == |targetWord| && old(GameView(targetWord, attempts)).Ok?
              && old(Status(targetWord, attempts)) == Playing ==>
        attempts == old(attempts) + [ToUpper(word)] && r == GameView(targetWord, attempts) && r.Ok?
      ensures old(Valid()) ==> Valid()
    {
      var w := ToUpper(word);
      if |w| != |targetWord| {
        return Err(LengthMismatch(|targetWord|));
      }
      var game := Game();
      if game.Err? {
        return game;
      }
      if game.value.state != Playing {
        return Err(GameOver);
      }
      ToUpperIdempotent(word);
      if Valid() {
        AppendKeepsWellFormed(targetWord, attempts, w);
      }
      attempts := attempts + [w];
      r := Game();
    }
  }

  /** The counting fold of `Wordle::assess`: how often each letter occurs in `s`. */
  method CountLetters(s: string) returns (counts: map<char, int>)
    ensures forall c :: Count(counts, c) == multiset(s)[c]
  {
    counts := map[];
    var k := 0;
    while k < |s|
      invariant 0 <= k <= |s|
      invariant forall c :: Count(counts, c) == multiset(s[..k])[c]
    {
      counts := counts[s[k] := Count(counts, s[k]) + 1];
      assert s[..k + 1] == s[..k] + [s[k]];
      k := k + 1;
    }
    assert s[..k] == s;
  }

  /** Pass 1 of `Wordle::assess`: the positional marks of the upper-cased guess
      `w`, and for every letter the number of marks claiming it. */
  method MarkPositions(target: string, w: string) returns (letters: seq<Letter>, dupLetterCount: map<char, int>)
    requires |w| == |target|
    ensures letters == Classified(target, w)
    ensures forall c :: Count(dupLetterCount, c) == Claims(letters, c)
  {
    letters := [];
    dupLetterCount := map[];
    var i := 0;
    while i < |w|
      invariant 0 <= i <= |w|
      invariant letters == Classified(target, w)[..i]
      invariant forall c :: Count(dupLetterCount, c) == Claims(letters, c)
    {
      var c := w[i];
      var mark;
      if c in target {
        if target[i] == c {
          mark := Correct(c);
        } else {
          mark := CorrectButWrongPosition(c);
        }
      } else {
        mark := Wrong(c);
      }
      CountClaim(dupLetterCount, letters, mark);
      if c in target {
        dupLetterCount := dupLetterCount[c := Count(dupLetterCount, c) + 1];
      }
      assert Classified(target, w)[..i + 1] == Classified(target, w)[..i] + [mark];
      letters := letters + [mark];
      i := i + 1;
    }
    assert letters == Classified(target, w);
  }

  /** Pass 2 of `Wordle::assess`: walking left to right, a wrong-position mark
      becomes Wrong while its letter's claim counter exceeds the letter's count in
      the target, and each such demotion lowers the counter by one. */
  method DemoteOverclaimed(target: string, letters: seq<Letter>, dupLetterCount: map<char, int>,
                           targetLetterCount: map<char, int>) returns (settled: seq<Letter>)
    requires forall c :: Count(dupLetterCount, c) == Claims(letters, c)
    requires forall c :: Count(targetLetterCount, c) == multiset(target)[c]
    ensures settled == Settled(letters, target)
  {
    var counts := dupLetterCount;
    settled := [];
    var j := 0;
    assert letters[..0] == [];
    while j < |letters|
      invariant 0 <= j <= |letters|
      invariant |settled| == j
      invariant forall m :: 0 <= m < j ==> settled[m] == Settle(letters, target, m)
      invariant Pending(counts, letters, target, j)
    {
      DemoteStep(counts, targetLetterCount, letters, target, j);
      var mark := letters[j];
      if mark.CorrectButWrongPosition? {
        var c := mark.ch;
        var letterCount := Count(counts, c);
        if letterCount > Count(targetLetterCount, c) {
          counts := counts[c := letterCount - 1];
          mark := Wrong(c);
        }
      }
      settled := settled + [mark];
      j := j + 1;
    }
    assert settled == Settled(letters, target);
  }

  /** The value a letter has in a counter map, zero when it has none. */
  function Count(counts: map<char, int>, c: char): int {
    if c in counts then counts[c] else 0
  }

  /** Pass 1 counts a mark into the claim counter unless it is Wrong. */
  lemma CountClaim(counts: map<char, int>, letters: seq<Letter>, mark: Letter)
    requires forall c :: Count(counts, c) == Claims(letters, c)
    ensures var next := if mark.Wrong? then counts else counts[mark.ch := Count(counts, mark.ch) + 1];
            forall c :: Count(next, c) == Claims(letters + [mark], c)
  {
    CountsSnoc(letters, mark);
    var next := if mark.Wrong? then counts else counts[mark.ch := Count(counts, mark.ch) + 1];
    forall c ensures Count(next, c) == Claims(letters + [mark], c) {
      assert Claims(letters + [mark], c) == Exact(letters + [mark], c) + Tentative(letters + [mark], c);
      assert Count(counts, c) == Claims(letters, c);
      if mark.Wrong? {
        assert Count(next, c) == Count(counts, c);
      } else if c == mark.ch {
        assert Count(next, c) == Count(counts, c) + 1;
      } else {
        assert Count(next, c) == Count(counts, c);
      }
    }
  }

  /** The pass-2 counter after `j` positions: each letter's claims less the
      demotions made so far. */
  ghost predicate Pending(counts: map<char, int>, p: seq<Letter>, target: string, j: nat)
    requires j <= |p|
  {
    forall c :: Count(counts, c) == Claims(p, c) - Min(Tentative(p[..j], c), Max(0, Excess(p, target, c)))
  }

  /** One step of pass 2: the source's test "counter above the target's count"
      demotes exactly where Settle does, and decrementing on a demotion keeps the
      counter Pending. */
  lemma DemoteStep(counts: map<char, int>, targetCounts: map<char, int>, p: seq<Letter>, target: string, j: nat)
    requires j < |p| && Pending(counts, p, target, j)
    requires forall c :: Count(targetCounts, c) == multiset(target)[c]
    ensures p[j].CorrectButWrongPosition? ==>
      (Count(counts, p[j].ch) > Count(targetCounts, p[j].ch) <==> Settle(p, target, j) == Wrong(p[j].ch))
    ensures !p[j].CorrectButWrongPosition? ==> Settle(p, target, j) == p[j]
    ensures p[j].CorrectButWrongPosition? && Settle(p, target, j) != Wrong(p[j].ch) ==> Settle(p, target, j) == p[j]
    ensures var next := if p[j].CorrectButWrongPosition? && Settle(p, target, j) == Wrong(p[j].ch)
                        then counts[p[j].ch := Count(counts, p[j].ch) - 1] else counts;
            Pending(next, p, target, j + 1)
  {
    CountsSnoc(p[..j], p[j]);
    assert p[..j + 1] == p[..j] + [p[j]];
  }

  /** When no wrong-position mark is overclaimed, pass 2 changes nothing. */
  lemma WithinBudgetUnchanged(p: seq<Letter>, target: string)
    requires forall m :: 0 <= m < |p| && p[m].CorrectButWrongPosition? ==> Excess(p, target, p[m].ch) <= 0
    ensures Settled(p, target) == p
  {
  }

}
