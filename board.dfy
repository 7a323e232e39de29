/** Vocabulary shared by the two Wordle engines (src/wordle.rs and src/game.rs).
    Both files declare the same `State`, `Letter` and rendered `Game`, the same
    status rule and the same `attempted_letters`; they are defined once here,
    together with the positional marking that both assessors start from and the
    letter counts that the duplicate rule of src/wordle.rs is stated in. */
module Board {

  /** The fewest characters a target word may have. */
  const MinTargetLength := 3
  /** A game that is not won is lost once it holds this many attempts. */
  const MaxAttempts := 6

  /** The three ways an engine operation can fail. */
  datatype Error =
    | TooShort                  // `new` with a target under MinTargetLength characters
    | LengthMismatch(expected: nat)  // a word whose length is not the target's
    | GameOver                  // `play_turn` once the game is won or lost

  datatype Result<T> = Ok(value: T) | Err(error: Error)

  datatype State = Playing | Won | Lost

  /** The mark of one guessed letter, carrying the (upper-cased) letter itself. */
  datatype Letter =
    | Correct(ch: char)
    | CorrectButWrongPosition(ch: char)
    | Wrong(ch: char)

  /** What the player sees: the status and one assessed row per attempt. */
  datatype Game = Game(state: State, attempts: seq<seq<Letter>>)

  // ---------------------------------------------------------------------------
  // Upper-casing, restricted to ASCII

  function Upper(c: char): char {
    if 'a' <= c <= 'z' then (c as int - 32) as char else c
  }

  function ToUpper(s: string): string {
    seq(|s|, i requires 0 <= i < |s| => Upper(s[i]))
  }

  /** Upper-casing an upper-cased word changes nothing, so a stored attempt is
      assessed as the word the player submitted. */
  lemma ToUpperIdempotent(s: string)
    ensures ToUpper(ToUpper(s)) == ToUpper(s)
  {
  }

  function Min(a: int, b: int): int { if a <= b then a else b }
  function Max(a: int, b: int): int { if a <= b then b else a }

  // ---------------------------------------------------------------------------
  // The positional marking (pass 1 of src/wordle.rs, all of src/game.rs)

  /** The mark of letter `c` guessed at position `i`: exact match, present
      elsewhere in the target, or absent from it. */
  function Classify(target: string, c: char, i: nat): (r: Letter)
    requires i < |target|
    ensures r.ch == c
    ensures r.Correct? <==> target[i] == c
    ensures r.CorrectButWrongPosition? <==> c in target && target[i] != c
    ensures r.Wrong? <==> c !in target
  {
    if c in target then
      if target[i] == c then Correct(c) else CorrectButWrongPosition(c)
    else Wrong(c)
  }

  /** Every position of the (upper-cased) guess `w` marked by Classify. */
  function Classified(target: string, w: string): (r: seq<Letter>)
    requires |w| == |target|
    ensures |r| == |w|
    ensures forall i :: 0 <= i < |r| ==> r[i].ch == w[i]
    ensures forall i :: 0 <= i < |r| ==> (r[i].Correct? <==> w[i] == target[i])
    ensures forall i :: 0 <= i < |r| ==> (r[i].Wrong? <==> w[i] !in target)
  {
    seq(|w|, i requires 0 <= i < |w| => Classify(target, w[i], i))
  }

  // ---------------------------------------------------------------------------
  // Counting marks per letter

  /** Number of `Correct(c)` entries in `s`. */
  function Exact(s: seq<Letter>, c: char): nat {
    if s == [] then 0
    else Exact(s[..|s| - 1], c) + if s[|s| - 1] == Correct(c) then 1 else 0
  }

  /** Number of `CorrectButWrongPosition(c)` entries in `s`. */
  function Tentative(s: seq<Letter>, c: char): nat {
    if s == [] then 0
    else Tentative(s[..|s| - 1], c) + if s[|s| - 1] == CorrectButWrongPosition(c) then 1 else 0
  }

  /** Number of entries of `s` that claim letter `c` is in the target. */
  function Claims(s: seq<Letter>, c: char): nat {
    Exact(s, c) + Tentative(s, c)
  }

  lemma CountsSnoc(s: seq<Letter>, x: Letter)
    ensures forall c :: Exact(s + [x], c) == Exact(s, c) + if x == Correct(c) then 1 else 0
    ensures forall c :: Tentative(s + [x], c) == Tentative(s, c) + if x == CorrectButWrongPosition(c) then 1 else 0
  {
    assert (s + [x])[..|s|] == s;
  }

  /** Pass 1 claims a letter of the target once for every time it is guessed,
      and never claims a letter that is not in the target. */
  lemma {:induction false} ClassifiedClaims(target: string, w: string, c: char)
    requires |w| == |target|
    ensures Claims(Classified(target, w), c) == if c in target then multiset(w)[c] else 0
  {
    ClassifiedPrefixCounts(target, w, |w|, c);
    assert Classified(target, w)[..|w|] == Classified(target, w);
    assert w[..|w|] == w;
  }

  /** Exact matches of a letter never outnumber its occurrences in the target. */
  lemma {:induction false} ExactWithinTarget(target: string, w: string, c: char)
    requires |w| == |target|
    ensures Exact(Classified(target, w), c) <= multiset(target)[c]
  {
    ClassifiedPrefixCounts(target, w, |w|, c);
    assert Classified(target, w)[..|w|] == Classified(target, w);
    assert target[..|w|] == target;
  }

  lemma {:induction false} ClassifiedPrefixCounts(target: string, w: string, n: nat, c: char)
    requires |w| == |target| && n <= |w|
    ensures Claims(Classified(target, w)[..n], c) == if c in target then multiset(w[..n])[c] else 0
    ensures Exact(Classified(target, w)[..n], c) <= multiset(target[..n])[c]
  {
    if n > 0 {
      var p := Classified(target, w);
      ClassifiedPrefixCounts(target, w, n - 1, c);
      assert p[..n] == p[..n - 1] + [p[n - 1]];
      assert w[..n] == w[..n - 1] + [w[n - 1]];
      assert target[..n] == target[..n - 1] + [target[n - 1]];
      CountsSnoc(p[..n - 1], p[n - 1]);
    }
  }

  // ---------------------------------------------------------------------------
  // Status and the invariant of a game played from `new`

  /** The status rule of `Wordle::game`: a game holding its target is won, whatever
      its length; otherwise it is lost at MaxAttempts attempts. */
  function Status(target: string, attempts: seq<string>): (r: State)
    ensures r == Won <==> target in attempts
    ensures r == Lost <==> target !in attempts && |attempts| >= MaxAttempts
    ensures r == Playing <==> target !in attempts && |attempts| < MaxAttempts
  {
    if target in attempts then Won
    else if |attempts| >= MaxAttempts then Lost
    else Playing
  }

  /** What holds of every game built by `new` and changed only by `play_turn`. */
  ghost predicate WellFormed(target: string, attempts: seq<string>) {
    && |target| >= MinTargetLength
    && ToUpper(target) == target
    && |attempts| <= MaxAttempts
    && (forall i :: 0 <= i < |attempts| ==> |attempts[i]| == |target| && ToUpper(attempts[i]) == attempts[i])
    && (forall i :: 0 <= i < |attempts| - 1 ==> attempts[i] != target)
  }

  /** Appending an upper-cased word of the target's length to a game still being
      played keeps the invariant: at most MaxAttempts attempts, none after a win. */
  lemma AppendKeepsWellFormed(target: string, attempts: seq<string>, w: string)
    requires WellFormed(target, attempts) && Status(target, attempts) == Playing
    requires |w| == |target| && ToUpper(w) == w
    ensures WellFormed(target, attempts + [w])
  {
    var next := attempts + [w];
    forall i | 0 <= i < |next| - 1
      ensures next[i] != target
    {
      assert next[i] == attempts[i];
    }
  }

  /** In a well-formed game that is won, the winning word is the last attempt. */
  lemma WonEndsWithTarget(target: string, attempts: seq<string>)
    requires WellFormed(target, attempts) && Status(target, attempts) == Won
    ensures |attempts| > 0 && attempts[|attempts| - 1] == target
  {
    var i :| 0 <= i < |attempts| && attempts[i] == target;
  }

  /** In a well-formed game that is lost, all MaxAttempts attempts missed. */
  lemma LostAfterAllMisses(target: string, attempts: seq<string>)
    requires WellFormed(target, attempts) && Status(target, attempts) == Lost
    ensures |attempts| == MaxAttempts
    ensures forall i :: 0 <= i < |attempts| ==> attempts[i] != target
  {
  }

  // ---------------------------------------------------------------------------
  // attempted_letters: flatten, sort, dedup

  ghost predicate Ascending(s: seq<char>) {
    forall i, j :: 0 <= i < j < |s| ==> s[i] <= s[j]
  }

  ghost predicate StrictlyAscending(s: seq<char>) {
    forall i, j :: 0 <= i < j < |s| ==> s[i] < s[j]
  }

  /** The letters carried by every entry of every row, row by row. */
  function Carried(rows: seq<seq<Letter>>): (r: seq<char>)
    ensures forall c :: c in r <==>
      exists i, j :: 0 <= i < |rows| && 0 <= j < |rows[i]| && rows[i][j].ch == c
  {
    if rows == [] then []
    else
      var head := seq(|rows[0]|, j requires 0 <= j < |rows[0]| => rows[0][j].ch);
      var rest := Carried(rows[1..]);
      assert forall c :: c in head + rest <==>
        exists i, j :: 0 <= i < |rows| && 0 <= j < |rows[i]| && rows[i][j].ch == c by {
        forall c
          ensures c in head + rest <==>
            exists i, j :: 0 <= i < |rows| && 0 <= j < |rows[i]| && rows[i][j].ch == c
        {
          if c in head {
            var j :| 0 <= j < |head| && head[j] == c;
            assert rows[0][j].ch == c;
          } else if c in rest {
            var i, j :| 0 <= i < |rows[1..]| && 0 <= j < |rows[1..][i]| && rows[1..][i][j].ch == c;
            assert rows[i + 1][j].ch == c;
          }
          if exists i, j :: 0 <= i < |rows| && 0 <= j < |rows[i]| && rows[i][j].ch == c {
            var i, j :| 0 <= i < |rows| && 0 <= j < |rows[i]| && rows[i][j].ch == c;
            if i == 0 {
              assert head[j] == c;
            } else {
              assert rows[1..][i - 1][j].ch == c;
            }
          }
        }
      }
      head + rest
  }

  /** Insertion of `x` into the ascending sequence `s`. */
  function Insert(x: char, s: seq<char>): (r: seq<char>)
    ensures multiset(r) == multiset(s) + multiset{x}
    ensures Ascending(s) ==> Ascending(r)
  {
    if s == [] then [x]
    else if x <= s[0] then [x] + s
    else
      var rest := Insert(x, s[1..]);
      assert s == [s[0]] + s[1..];
      assert Ascending(s) ==> Ascending([s[0]] + rest) by {
        if Ascending(s) {
          forall k | 0 <= k < |rest|
            ensures s[0] <= rest[k]
          {
            assert rest[k] in multiset(s[1..]) + multiset{x};
            if rest[k] != x {
              assert rest[k] in s[1..];
            }
          }
        }
      }
      [s[0]] + rest
  }

  /** The ascending permutation of `s` (the `sort` of the source). */
  function Sort(s: seq<char>): (r: seq<char>)
    ensures multiset(r) == multiset(s)
    ensures Ascending(r)
  {
    if s == [] then []
    else
      assert s == [s[0]] + s[1..];
      Insert(s[0], Sort(s[1..]))
  }

  /** `s` with each run of equal neighbours collapsed to one element (`dedup`). */
  function Dedup(s: seq<char>): (r: seq<char>)
    ensures forall c :: c in r <==> c in s
    ensures |s| > 0 ==> |r| > 0 && r[0] == s[0]
    ensures Ascending(s) ==> StrictlyAscending(r)
  {
    if |s| <= 1 then s
    else if s[0] == s[1] then
      assert forall c :: c in s <==> c in s[1..];
      Dedup(s[1..])
    else
      var rest := Dedup(s[1..]);
      [s[0]] + rest
  }

  /** `Game::attempted_letters`: every letter shown in any row, once, in order. */
  function AttemptedLetters(game: Game): (r: seq<char>)
    ensures StrictlyAscending(r)
    ensures forall c :: c in r <==>
      exists i, j :: 0 <= i < |game.attempts| && 0 <= j < |game.attempts[i]| && game.attempts[i][j].ch == c
  {
    var letters := Sort(Carried(game.attempts));
    assert forall c :: c in letters <==> c in Carried(game.attempts) by {
      forall c ensures c in letters <==> c in Carried(game.attempts) {
        assert c in letters <==> c in multiset(letters);
      }
    }
    Dedup(letters)
  }
}
