/** The engine compiled into the bot, src/game.rs: the same game state machine
    as src/wordle.rs, with a single-pass assessor that applies no budget to
    repeated letters. */
module GameEngine {
  import opened Board

  /** `Wordle::assess` of src/game.rs: fails exactly on a length mismatch;
      otherwise one mark per position carrying the upper-cased guessed letter,
      Correct exactly where it is the target's letter, CorrectButWrongPosition
      exactly where the target holds it elsewhere only, Wrong exactly where the
      target lacks it. */
  function AssessSinglePass(target: string, word: string): (r: Result<seq<Letter>>)
    ensures r.Err? <==> |word| != |target|
    ensures r.Err? ==> r.error == LengthMismatch(|target|)
    ensures r.Ok? ==> |r.value| == |target|
    ensures r.Ok? ==> forall i :: 0 <= i < |r.value| ==> r.value[i].ch == Upper(word[i])
    ensures r.Ok? ==> forall i :: 0 <= i < |r.value| ==> (r.value[i].Correct? <==> Upper(word[i]) == target[i])
    ensures r.Ok? ==> forall i :: 0 <= i < |r.value| ==>
      (r.value[i].CorrectButWrongPosition? <==> Upper(word[i]) in target && Upper(word[i]) != target[i])
    ensures r.Ok? ==> forall i :: 0 <= i < |r.value| ==> (r.value[i].Wrong? <==> Upper(word[i]) !in target)
  {
    var w := ToUpper(word);
    if |w| != |target| then Err(LengthMismatch(|target|))
    else Ok(Classified(target, w))
  }

  /** No duplicate budget: every guessed occurrence of a letter of the target is
      claimed, so a letter can be marked more often than the target holds it. */
  lemma SinglePassClaims(target: string, word: string, c: char)
    requires |word| == |target|
    ensures Claims(AssessSinglePass(target, word).value, c)
         == if c in target then multiset(ToUpper(word))[c] else 0
  {
    ClassifiedClaims(target, ToUpper(word), c);
  }

  // ---------------------------------------------------------------------------
  // The game view

  /** One assessed row per stored attempt, failing if any attempt has the wrong length. */
  function Rows(target: string, attempts: seq<string>): (r: Result<seq<seq<Letter>>>)
    ensures r.Ok? <==> forall i :: 0 <= i < |attempts| ==> |attempts[i]| == |target|
    ensures r.Err? ==> r.error == LengthMismatch(|target|)
    ensures r.Ok? ==> |r.value| == |attempts|
    ensures r.Ok? ==> forall i :: 0 <= i < |attempts| ==> AssessSinglePass(target, attempts[i]) == Ok(r.value[i])
  {
    if attempts == [] then Ok([])
    else
      match AssessSinglePass(target, attempts[0])
      case Err(e) => Err(e)
      case Ok(row) =>
        match Rows(target, attempts[1..])
        case Err(e) => Err(e)
        case Ok(rest) => Ok([row] + rest)
  }

  /** `Wordle::game` on the stored pair (target, attempts): Won exactly when the
      target was attempted, else Lost exactly from MaxAttempts attempts on, else
      Playing; with the assessed rows of the attempts, in order. */
  function GameView(target: string, attempts: seq<string>): (r: Result<Board.Game>)
    ensures r.Ok? <==> forall i :: 0 <= i < |attempts| ==> |attempts[i]| == |target|
    ensures r.Err? ==> r.error == LengthMismatch(|target|)
    ensures r.Ok? ==> (r.value.state == Won <==> target in attempts)
    ensures r.Ok? ==> (r.value.state == Lost <==> target !in attempts && |attempts| >= MaxAttempts)
    ensures r.Ok? ==> r.value.state == Status(target, attempts)
    ensures r.Ok? ==> |r.value.attempts| == |attempts|
    ensures r.Ok? ==> forall i :: 0 <= i < |attempts| ==> AssessSinglePass(target, attempts[i]) == Ok(r.value.attempts[i])
  {
    match Rows(target, attempts)
    case Err(e) => Err(e)
    case Ok(rows) => Ok(Game(Status(target, attempts), rows))
  }

  /** The view of a game played from `new` never fails. */
  lemma WellFormedViewOk(target: string, attempts: seq<string>)
    requires WellFormed(target, attempts)
    ensures GameView(target, attempts).Ok?
  {
  }

  /** The attempted letters of a view are exactly the upper-cased letters of
      the stored attempts. */
  lemma AttemptedLettersOfView(target: string, attempts: seq<string>, c: char)
    requires GameView(target, attempts).Ok?
    ensures c in AttemptedLetters(GameView(target, attempts).value) <==>
      exists i, j :: 0 <= i < |attempts| && 0 <= j < |attempts[i]| && Upper(attempts[i][j]) == c
  {
    var rows: seq<seq<Letter>> := GameView(target, attempts).value.attempts;
    if c in AttemptedLetters(GameView(target, attempts).value) {
      var i, j :| 0 <= i < |rows| && 0 <= j < |rows[i]| && rows[i][j].ch == c;
      assert Upper(attempts[i][j]) == c;
    }
    if exists i, j :: 0 <= i < |attempts| && 0 <= j < |attempts[i]| && Upper(attempts[i][j]) == c {
      var i, j :| 0 <= i < |attempts| && 0 <= j < |attempts[i]| && Upper(attempts[i][j]) == c;
      assert rows[i][j].ch == c;
    }
  }

  /** Submitting the target, in any letter case, to a game being played wins it,
      and the new row is all Correct. */
  lemma WinningTurn(target: string, attempts: seq<string>, word: string)
    requires GameView(target, attempts).Ok? && Status(target, attempts) == Playing
    requires ToUpper(word) == target
    ensures GameView(target, attempts + [ToUpper(word)]).Ok?
    ensures var g := GameView(target, attempts + [ToUpper(word)]).value;
            g.state == Won && forall l :: l in g.attempts[|attempts|] ==> l.Correct?
  {
    var next := attempts + [ToUpper(word)];
    assert next[|attempts|] == target;
    var row := AssessSinglePass(target, target).value;
    forall i | 0 <= i < |row|
      ensures row[i].Correct?
    {
      assert Upper(target[i]) == ToUpper(target)[i];
    }
  }

  // ---------------------------------------------------------------------------
  // The game itself

  /** `Wordle`: the target word and the words attempted so far, both public and
      persisted as they are. */
  class Wordle {
    var targetWord: string
    var attempts: seq<string>

    /** A game from its two fields, as the struct literal or a restored record. */
    constructor (targetWord: string, attempts: seq<string>)
      ensures this.targetWord == targetWord && this.attempts == attempts
    {
      this.targetWord := targetWord;
      this.attempts := attempts;
    }

    ghost predicate Valid()
      reads this
    {
      WellFormed(targetWord, attempts)
    }

    /** `Wordle::new`: refuses a target shorter than MinTargetLength; otherwise a
        fresh game over the upper-cased target with no attempts. */
    static method New(targetWord: string) returns (r: Result<Wordle>)
      ensures r.Err? <==> |targetWord| < MinTargetLength
      ensures r.Err? ==> r.error == TooShort
      ensures r.Ok? ==> fresh(r.value) && r.value.Valid()
      ensures r.Ok? ==> r.value.targetWord == ToUpper(targetWord) && r.value.attempts == []
    {
      if |targetWord| < MinTargetLength {
        return Err(TooShort);
      }
      ToUpperIdempotent(targetWord);
      var game := new Wordle(ToUpper(targetWord), []);
      r := Ok(game);
    }

    /** `Wordle::game`: the view of the stored pair, failing exactly when some
        stored attempt has the wrong length, and reporting the status rule. */
    function Game(): (r: Result<Board.Game>)
      reads this
      ensures r.Ok? <==> forall i :: 0 <= i < |attempts| ==> |attempts[i]| == |targetWord|
      ensures r.Ok? ==> r.value.state == Status(targetWord, attempts) && |r.value.attempts| == |attempts|
    {
      GameView(targetWord, attempts)
    }

    /** `Wordle::assess` of src/game.rs, as the source computes it: one mark
        pushed per position of the upper-cased word. */
    method Assess(word: string) returns (r: Result<seq<Letter>>)
      ensures r == AssessSinglePass(targetWord, word)
    {
      var w := ToUpper(word);
      if |w| != |targetWord| {
        return Err(LengthMismatch(|targetWord|));
      }
      var letters: seq<Letter> := [];
      var i := 0;
      while i < |w|
        invariant 0 <= i <= |w|
        invariant |letters| == i
        invariant forall m :: 0 <= m < i ==> letters[m] == Classify(targetWord, w[m], m)
      {
        var c := w[i];
        if c in targetWord {
          if targetWord[i] == c {
            letters := letters + [Correct(c)];
          } else {
            letters := letters + [CorrectButWrongPosition(c)];
          }
        } else {
          letters := letters + [Wrong(c)];
        }
        i := i + 1;
      }
      assert letters == Classified(targetWord, w);
      r := Ok(letters);
    }

    /** `Wordle::play_turn`: refuses a word of the wrong length, propagates a
        failing view of the stored attempts, refuses a game that is over; otherwise
        appends the upper-cased word and returns the new view. Every failure leaves
        the game as it was, and a game played from `New` stays well-formed. */
    method PlayTurn(word: string) returns (r: Result<Board.Game>)
      modifies this
      ensures targetWord == old(targetWord)
      ensures |word| != |targetWord| ==>
        r == Err(LengthMismatch(|targetWord|)) && attempts == old(attempts)
      ensures |word| == |targetWord| && old(GameView(targetWord, attempts)).Err? ==>
        r == old(GameView(targetWord, attempts)) && attempts == old(attempts)
      ensures |word| == |targetWord| && old(GameView(targetWord, attempts)).Ok?
              && old(Status(targetWord, attempts)) != Playing ==>
        r == Err(GameOver) && attempts == old(attempts)
      ensures |word| == |targetWord| && old(GameView(targetWord, attempts)).Ok?
              && old(Status(targetWord, attempts)) == Playing ==>
        attempts == old(attempts) + [ToUpper(word)] && r == GameView(targetWord, attempts) && r.Ok?
      ensures old(Valid()) ==> Valid()
    {
      var w := ToUpper(word);
      if |w| != |targetWord| {
        return Err(LengthMismatch(|targetWord|));
      }
      var game := Game();
      if game.Err? {
        return game;
      }
      if game.value.state != Playing {
        return Err(GameOver);
      }
      ToUpperIdempotent(word);
      if Valid() {
        AppendKeepsWellFormed(targetWord, attempts, w);
      }
      attempts := attempts + [w];
      r := Game();
    }
  }

  /** The single-pass assessor marks all three Ls of "lolly" against HELLO,
      which holds two. */
  lemma HelloLollyOverclaims()
    ensures AssessSinglePass("HELLO", "lolly")
         == Ok([CorrectButWrongPosition('L'), CorrectButWrongPosition('O'), Correct('L'), Correct('L'), Wrong('Y')])
    ensures Claims(AssessSinglePass("HELLO", "lolly").value, 'L') == 3 > multiset("HELLO")['L'] == 2
  {
    assert ToUpper("lolly") == "LOLLY";
    assert Classified("HELLO", "LOLLY")
        == [CorrectButWrongPosition('L'), CorrectButWrongPosition('O'), Correct('L'), Correct('L'), Wrong('Y')];
    assert multiset("LOLLY")['L'] == 3 by {
      assert "LOLLY" == ['L', 'O', 'L', 'L', 'Y'];
    }
    assert multiset("HELLO")['L'] == 2;
    SinglePassClaims("HELLO", "lolly", 'L');
  }
}
