/** Worked assessments of src/wordle.rs, the first being the case that
    src/wordle_test.rs checks. */
module WordleTest {
  import opened Board
  import opened WordleEngine

  /** The test `it_works` of src/wordle_test.rs, played through `New` and
      `PlayTurn`: the first three marks of the first row. */
  method ItWorks() returns (first: seq<Letter>)
    ensures |first| == 5
    ensures first[0] == Wrong('B') && first[1] == CorrectButWrongPosition('O') && first[2] == Correct('L')
  {
    var created := Wordle.New("hello");
    var wordle := created.value;
    assert ToUpper("hello") == "HELLO";
    var game := wordle.PlayTurn("bolle");
    ToUpperIdempotent("bolle");
    HelloBolle();
    first := game.value.attempts[0];
    assert first[0] == Wrong('B');
    assert first[1] == CorrectButWrongPosition('O');
    assert first[2] == Correct('L');
  }

  /** The repository's own test: target HELLO, guess "bolle". */
  lemma HelloBolle()
    ensures AssessTwoPass("HELLO", "bolle")
         == Ok([Wrong('B'), CorrectButWrongPosition('O'), Correct('L'), Correct('L'), CorrectButWrongPosition('E')])
  {
    UpperBolle();
    BolleMarks();
    BolleSettled();
  }

  lemma UpperBolle()
    ensures ToUpper("bolle") == "BOLLE"
  {
  }

  lemma BolleMarks()
    ensures Classified("HELLO", "BOLLE")
         == [Wrong('B'), CorrectButWrongPosition('O'), Correct('L'), Correct('L'), CorrectButWrongPosition('E')]
  {
  }

  lemma BolleSettled()
    ensures var p := [Wrong('B'), CorrectButWrongPosition('O'), Correct('L'), Correct('L'), CorrectButWrongPosition('E')];
            Settled(p, "HELLO") == p
  {
    var p := [Wrong('B'), CorrectButWrongPosition('O'), Correct('L'), Correct('L'), CorrectButWrongPosition('E')];
    BolleMarks();
    ClassifiedClaims("HELLO", "BOLLE", 'O');
    ClassifiedClaims("HELLO", "BOLLE", 'E');
    assert multiset("BOLLE")['O'] == 1 && multiset("BOLLE")['E'] == 1;
    WithinBudgetUnchanged(p, "HELLO");
  }

  /** Exact matches are served first: both Ls of HELLO are matched exactly by
      "lolly", so its first L, a wrong-position claim, is demoted. */
  lemma HelloLolly()
    ensures AssessTwoPass("HELLO", "lolly")
         == Ok([Wrong('L'), CorrectButWrongPosition('O'), Correct('L'), Correct('L'), Wrong('Y')])
  {
    UpperLolly();
    LollyMarks();
    LollySettled();
  }

  lemma UpperLolly()
    ensures ToUpper("lolly") == "LOLLY"
  {
  }

  lemma LollyMarks()
    ensures Classified("HELLO", "LOLLY")
         == [CorrectButWrongPosition('L'), CorrectButWrongPosition('O'), Correct('L'), Correct('L'), Wrong('Y')]
  {
  }

  lemma LollyExcess()
    ensures var p := [CorrectButWrongPosition('L'), CorrectButWrongPosition('O'), Correct('L'), Correct('L'), Wrong('Y')];
            Excess(p, "HELLO", 'L') == 1 && Excess(p, "HELLO", 'O') == 0
  {
    LollyMarks();
    assert Excess(Classified("HELLO", "LOLLY"), "HELLO", 'L') == 1 by {
      ClassifiedClaims("HELLO", "LOLLY", 'L');
      assert multiset("LOLLY")['L'] == 3;
      assert multiset("HELLO")['L'] == 2;
    }
    assert Excess(Classified("HELLO", "LOLLY"), "HELLO", 'O') == 0 by {
      ClassifiedClaims("HELLO", "LOLLY", 'O');
      assert multiset("LOLLY")['O'] == 1;
      assert multiset("HELLO")['O'] == 1;
    }
  }

  lemma LollySettled()
    ensures Settled([CorrectButWrongPosition('L'), CorrectButWrongPosition('O'), Correct('L'), Correct('L'), Wrong('Y')], "HELLO")
         == [Wrong('L'), CorrectButWrongPosition('O'), Correct('L'), Correct('L'), Wrong('Y')]
  {
    var p := [CorrectButWrongPosition('L'), CorrectButWrongPosition('O'), Correct('L'), Correct('L'), Wrong('Y')];
    LollyExcess();
    var r := Settled(p, "HELLO");
    assert r[0] == Wrong('L') by {
      assert Tentative(p[..0], 'L') == 0;
      assert r[0] == Settle(p, "HELLO", 0);
    }
    assert r[1] == p[1] by {
      assert r[1] == Settle(p, "HELLO", 1);
    }
    assert r[2] == p[2] && r[3] == p[3] && r[4] == p[4];
  }

  /** Both Es of ELOPE sit where ERASE has its Es, so both are Correct. */
  lemma EraseElope()
    ensures AssessTwoPass("ERASE", "ELOPE")
         == Ok([Correct('E'), Wrong('L'), Wrong('O'), Wrong('P'), Correct('E')])
  {
    var p := [Correct('E'), Wrong('L'), Wrong('O'), Wrong('P'), Correct('E')];
    assert ToUpper("ELOPE") == "ELOPE";
    assert Classified("ERASE", "ELOPE") == p;
    assert Settled(p, "ERASE") == p;
  }
}
