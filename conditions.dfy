/** The conditions the solver learns about the hidden word: their three kinds,
    when a condition rejects a candidate word, and how one feedback string is
    decoded into new conditions. */
module Conditions {

  /** What is known about one letter (sutom_solver.py `LetterCondition`). */
  datatype LetterCondition = NotPresent | PresentWrongIndex | PresentCorrectIndex

  /** One observed fact: `letter` at `positionIndex` is of kind `condition`. */
  datatype Condition = Condition(letter: char, positionIndex: int, condition: LetterCondition)

  /** The condition every session starts with: the known first letter sits at index 0. */
  function Seed(firstLetter: char): Condition
  {
    Condition(firstLetter, 0, PresentCorrectIndex)
  }

  /** Every condition indexes inside `word`, so checking them cannot go out of range. */
  predicate Fits(word: string, conditions: seq<Condition>) {
    forall k :: 0 <= k < |conditions| ==> 0 <= conditions[k].positionIndex < |word|
  }

  /** The lenient per-kind test: an absent letter is only checked at its own
      position; a misplaced letter must be elsewhere; a placed letter must match. */
  predicate Rejects(word: string, c: Condition)
    requires 0 <= c.positionIndex < |word|
  {
    match c.condition
    case NotPresent => word[c.positionIndex] == c.letter
    case PresentWrongIndex => word[c.positionIndex] == c.letter || c.letter !in word
    case PresentCorrectIndex => word[c.positionIndex] != c.letter
  }

  /** `word` is still a candidate: no condition rejects it. */
  predicate Matches(word: string, conditions: seq<Condition>)
    requires Fits(word, conditions)
  {
    forall k :: 0 <= k < |conditions| ==> !Rejects(word, conditions[k])
  }

  /** The nested `matches_conditions`: conditions in store order, stopping at the first that fails. */
  method MatchesConditions(word: string, conditions: seq<Condition>) returns (ok: bool)
    requires Fits(word, conditions)
    ensures ok == Matches(word, conditions)
  {
    for k := 0 to |conditions|
      invariant forall j :: 0 <= j < k ==> !Rejects(word, conditions[j])
    {
      var c := conditions[k];
      if c.condition == NotPresent && word[c.positionIndex] == c.letter {
        return false;
      }
      if c.condition == PresentWrongIndex {
        if word[c.positionIndex] == c.letter || c.letter !in word {
          return false;
        }
      }
      if c.condition == PresentCorrectIndex {
        if word[c.positionIndex] != c.letter {
          return false;
        }
      }
    }
    return true;
  }

  /** Conditions are checked independently, so a longer store accepts exactly
      the words both of its parts accept. */
  lemma MatchesAppend(word: string, a: seq<Condition>, b: seq<Condition>)
    requires Fits(word, a) && Fits(word, b)
    ensures Fits(word, a + b)
    ensures Matches(word, a + b) <==> Matches(word, a) && Matches(word, b)
  {
    assert forall k :: 0 <= k < |a| ==> (a + b)[k] == a[k];
    assert forall k :: 0 <= k < |b| ==> (a + b)[|a| + k] == b[k];
    if Matches(word, a) && Matches(word, b) {
      forall k | 0 <= k < |a + b| ensures !Rejects(word, (a + b)[k]) {
        if k >= |a| {
          assert (a + b)[k] == b[k - |a|];
        }
      }
    }
  }

  /** A letter placed and declared absent at the same index: no word survives both. */
  lemma ContradictionRejectsAll(word: string, conditions: seq<Condition>, letter: char, p: int)
    requires Fits(word, conditions)
    requires Condition(letter, p, PresentCorrectIndex) in conditions
    requires Condition(letter, p, NotPresent) in conditions
    ensures !Matches(word, conditions)
  {
    var i :| 0 <= i < |conditions| && conditions[i] == Condition(letter, p, PresentCorrectIndex);
    var j :| 0 <= j < |conditions| && conditions[j] == Condition(letter, p, NotPresent);
    assert Rejects(word, conditions[i]) || Rejects(word, conditions[j]);
  }

  // ---------------------------------------------------------------------------
  // Decoding feedback (`fill_conditions_list`)

  /** Symbols a feedback string may hold: `!` placed, `?` misplaced, `_` absent, blank skipped. */
  predicate AllSymbols(feedback: string) {
    forall i :: 0 <= i < |feedback| ==> feedback[i] in "!?_ "
  }

  /** The validation `fill_conditions_list` performs before appending anything. */
  predicate ValidFeedback(feedback: string, wordLength: int) {
    feedback != [] && |feedback| == wordLength && AllSymbols(feedback)
  }

  function KindOf(symbol: char): (k: LetterCondition)
    requires symbol in "!?_"
    ensures symbol == '!' <==> k == PresentCorrectIndex
    ensures symbol == '?' <==> k == PresentWrongIndex
    ensures symbol == '_' <==> k == NotPresent
  {
    if symbol == '!' then PresentCorrectIndex
    else if symbol == '?' then PresentWrongIndex
    else NotPresent
  }

  /** The guess is read only at non-blank positions from index 1 on; there it must have a letter. */
  predicate CoversFeedback(guess: string, feedback: string) {
    forall i :: 1 <= i < |feedback| && feedback[i] != ' ' ==> i < |guess|
  }

  /** The conditions decoded from positions `i` .. `|feedback| - 1`. */
  function FeedbackConditionsFrom(guess: string, feedback: string, i: nat): (r: seq<Condition>)
    requires 1 <= i <= |feedback|
    requires AllSymbols(feedback) && CoversFeedback(guess, feedback)
    ensures forall k :: 0 <= k < |r| ==> i <= r[k].positionIndex < |feedback|
    decreases |feedback| - i
  {
    if i == |feedback| then []
    else if feedback[i] == ' ' then FeedbackConditionsFrom(guess, feedback, i + 1)
    else [Condition(guess[i], i, KindOf(feedback[i]))] + FeedbackConditionsFrom(guess, feedback, i + 1)
  }

  /** The conditions one valid feedback string appends, position 0 excluded. */
  function FeedbackConditions(guess: string, feedback: string): (r: seq<Condition>)
    requires feedback != [] && AllSymbols(feedback) && CoversFeedback(guess, feedback)
    ensures forall k :: 0 <= k < |r| ==> 1 <= r[k].positionIndex < |feedback|
  {
    FeedbackConditionsFrom(guess, feedback, 1)
  }

  /** Each decoded condition sits at a non-blank position from `i` on and carries
      the guess's letter there and the kind its symbol names. */
  lemma {:induction false} FeedbackConditionsEntries(guess: string, feedback: string, i: nat)
    requires 1 <= i <= |feedback|
    requires AllSymbols(feedback) && CoversFeedback(guess, feedback)
    ensures forall c :: c in FeedbackConditionsFrom(guess, feedback, i) ==>
      i <= c.positionIndex < |feedback| && feedback[c.positionIndex] != ' ' &&
      c.positionIndex < |guess| &&
      c == Condition(guess[c.positionIndex], c.positionIndex, KindOf(feedback[c.positionIndex]))
    decreases |feedback| - i
  {
    if i < |feedback| {
      FeedbackConditionsEntries(guess, feedback, i + 1);
    }
  }

  /** Positions strictly increase along `conditions`. */
  predicate StrictlyIncreasingPositions(conditions: seq<Condition>) {
    forall k, k' :: 0 <= k < k' < |conditions| ==> conditions[k].positionIndex < conditions[k'].positionIndex
  }

  /** Decoded conditions appear in increasing position order, so no position
      yields two conditions. */
  lemma {:induction false} FeedbackConditionsOrdered(guess: string, feedback: string, i: nat)
    requires 1 <= i <= |feedback|
    requires AllSymbols(feedback) && CoversFeedback(guess, feedback)
    ensures StrictlyIncreasingPositions(FeedbackConditionsFrom(guess, feedback, i))
    decreases |feedback| - i
  {
    if i < |feedback| {
      FeedbackConditionsOrdered(guess, feedback, i + 1);
      var rest := FeedbackConditionsFrom(guess, feedback, i + 1);
      var r := FeedbackConditionsFrom(guess, feedback, i);
      if feedback[i] != ' ' {
        assert r == [Condition(guess[i], i, KindOf(feedback[i]))] + rest;
        forall k, k' | 0 <= k < k' < |r| ensures r[k].positionIndex < r[k'].positionIndex {
          assert r[k'] == rest[k' - 1];
          if k > 0 {
            assert r[k] == rest[k - 1];
          }
        }
      }
    }
  }

  /** Every non-blank position from `i` on yields its condition. */
  lemma {:induction false} FeedbackConditionsComplete(guess: string, feedback: string, i: nat, p: int)
    requires 1 <= i <= p < |feedback| && feedback[p] != ' '
    requires AllSymbols(feedback) && CoversFeedback(guess, feedback)
    ensures Condition(guess[p], p, KindOf(feedback[p])) in FeedbackConditionsFrom(guess, feedback, i)
    decreases |feedback| - i
  {
    if p > i {
      FeedbackConditionsComplete(guess, feedback, i + 1, p);
    }
  }

  // ---------------------------------------------------------------------------
  // What feedback says about the hidden word

  /** `feedback` tells the truth about `guess` against `solution`: one symbol per
      letter, `!` exactly where the letters agree, `?` only for a letter the
      solution contains. Any oracle worth the name produces such feedback. */
  predicate TruthfulFeedback(guess: string, solution: string, feedback: string)
    requires |guess| <= |solution|
  {
    |feedback| == |guess| &&
    forall i :: 0 <= i < |guess| ==> TruthfulAt(guess, solution, i, feedback[i])
  }

  /** What one feedback symbol truthfully says about position `k` of the guess. */
  predicate TruthfulAt(guess: string, solution: string, k: int, symbol: char)
    requires 0 <= k < |guess| <= |solution|
  {
    symbol in "!?_" &&
    (symbol == '!' <==> guess[k] == solution[k]) &&
    (symbol == '?' ==> guess[k] in solution)
  }

  /** Conditions decoded from truthful feedback never reject the solution. */
  lemma DecodedConditionsAcceptSolution(guess: string, solution: string, feedback: string)
    requires |guess| <= |solution| && guess != []
    requires TruthfulFeedback(guess, solution, feedback)
    ensures AllSymbols(feedback) && CoversFeedback(guess, feedback)
    ensures Fits(solution, FeedbackConditions(guess, feedback))
    ensures Matches(solution, FeedbackConditions(guess, feedback))
  {
    var r := FeedbackConditions(guess, feedback);
    FeedbackConditionsEntries(guess, feedback, 1);
    forall k | 0 <= k < |r| ensures !Rejects(solution, r[k]) {
      assert r[k] in r;
      var p := r[k].positionIndex;
      assert feedback[p] in "!?_";
    }
  }
}
