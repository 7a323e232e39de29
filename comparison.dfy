/** How the two engines relate: src/wordle.rs refines the marks of src/game.rs
    only by demoting wrong-position marks, and the two agree on a guess exactly
    when the single pass stays within every letter's budget. */
module EngineComparison {
  import opened Board
  import W = WordleEngine
  import G = GameEngine

  /** Both assessors fail on the same words; where they succeed, each two-pass
      mark is the single-pass mark, or a wrong-position mark turned Wrong. */
  lemma TwoPassOnlyDemotes(target: string, word: string)
    ensures W.AssessTwoPass(target, word).Ok? == G.AssessSinglePass(target, word).Ok?
    ensures W.AssessTwoPass(target, word).Ok? ==>
      var two := W.AssessTwoPass(target, word).value;
      var one := G.AssessSinglePass(target, word).value;
      |two| == |one| &&
      forall i :: 0 <= i < |two| ==>
        two[i] == one[i] || (one[i].CorrectButWrongPosition? && two[i] == Wrong(one[i].ch))
  {
  }

  /** The engines give the same marks exactly when the single pass claims no
      letter more often than the target holds it. */
  lemma EnginesAgreeWithinBudget(target: string, word: string)
    requires |word| == |target|
    ensures W.AssessTwoPass(target, word) == G.AssessSinglePass(target, word)
        <==> forall c :: Claims(G.AssessSinglePass(target, word).value, c) <= multiset(target)[c]
  {
    var p := Classified(target, ToUpper(word));
    if forall c :: Claims(p, c) <= multiset(target)[c] {
      W.WithinBudgetUnchanged(p, target);
    }
    if W.AssessTwoPass(target, word) == G.AssessSinglePass(target, word) {
      forall c ensures Claims(p, c) <= multiset(target)[c] {
        W.DuplicateBudget(target, word, c);
      }
    }
  }

  /** The two engines share the state machine: their views fail together and
      report the same status. */
  lemma SameStatus(target: string, attempts: seq<string>)
    ensures W.GameView(target, attempts).Ok? == G.GameView(target, attempts).Ok?
    ensures W.GameView(target, attempts).Ok? ==>
      W.GameView(target, attempts).value.state == G.GameView(target, attempts).value.state
  {
  }
}
