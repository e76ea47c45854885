/** The candidate-pruning solver (sutom_solver.py `Solver`): an append-only
    condition store seeded with the first letter, and a pool of candidate words
    that only ever shrinks. */
module SutomSolver {
  import opened Lists
  import opened Conditions

  // ---------------------------------------------------------------------------
  // Candidates and the initial filter

  /** Python's `word.startswith(letter)` for a one-letter prefix. */
  predicate StartsWith(word: string, letter: char) {
    |word| > 0 && word[0] == letter
  }

  predicate IsCandidate(word: string, wordLength: int, firstLetter: char) {
    |word| == wordLength && StartsWith(word, firstLetter)
  }

  /** `_initial_filter_word_list`: the words of the right length and first letter, in order. */
  function InitialFilterWordList(words: seq<string>, wordLength: int, firstLetter: char): (r: seq<string>)
    ensures forall w :: w in r ==> w in words && IsCandidate(w, wordLength, firstLetter)
  {
    if words == [] then []
    else
      var rest := InitialFilterWordList(words[1..], wordLength, firstLetter);
      if IsCandidate(words[0], wordLength, firstLetter) then [words[0]] + rest else rest
  }

  /** The initial pool keeps the word list's order and every copy of every
      candidate it holds, and nothing else; so it is exactly the candidates of
      the list, in their original order. */
  lemma {:induction false} InitialFilterExact(words: seq<string>, wordLength: int, firstLetter: char)
    ensures var r := InitialFilterWordList(words, wordLength, firstLetter);
      IsSubsequence(r, words) &&
      forall w :: multiset(r)[w] == if IsCandidate(w, wordLength, firstLetter) then multiset(words)[w] else 0
  {
    if words != [] {
      InitialFilterExact(words[1..], wordLength, firstLetter);
      assert words == [words[0]] + words[1..];
      var rest := InitialFilterWordList(words[1..], wordLength, firstLetter);
      if !IsCandidate(words[0], wordLength, firstLetter) && rest != [] {
        assert IsSubsequence(rest, words);
      }
    }
  }

  // ---------------------------------------------------------------------------
  // Narrowing (`update_possible_words`)

  predicate AllFit(pool: seq<string>, conditions: seq<Condition>) {
    forall w :: w in pool ==> Fits(w, conditions)
  }

  /** The comprehension of `update_possible_words`: the words of the pool that
      match every condition, in pool order. */
  function Narrow(pool: seq<string>, conditions: seq<Condition>): (r: seq<string>)
    requires AllFit(pool, conditions)
    ensures forall w :: w in r ==> w in pool && Matches(w, conditions)
  {
    if pool == [] then []
    else
      var rest := Narrow(pool[1..], conditions);
      if Matches(pool[0], conditions) then [pool[0]] + rest else rest
  }

  /** Narrowing keeps the pool's order and every copy of every matching word,
      and nothing else; so the pool never grows. */
  lemma {:induction false} NarrowExact(pool: seq<string>, conditions: seq<Condition>)
    requires AllFit(pool, conditions)
    ensures var r := Narrow(pool, conditions);
      IsSubsequence(r, pool) && |r| <= |pool| &&
      forall w :: w in pool ==> multiset(r)[w] == if Matches(w, conditions) then multiset(pool)[w] else 0
  {
    if pool != [] {
      NarrowExact(pool[1..], conditions);
      assert pool == [pool[0]] + pool[1..];
      var rest := Narrow(pool[1..], conditions);
      if !Matches(pool[0], conditions) && rest != [] {
        assert IsSubsequence(rest, pool);
      }
      SubsequenceLength(Narrow(pool, conditions), pool);
    }
  }

  /** One step of the narrowing loop: the suffix from `i` narrows to the verdict
      on `pool[i]` followed by the narrowed suffix from `i + 1`. */
  lemma NarrowSuffixStep(pool: seq<string>, conditions: seq<Condition>, i: nat)
    requires AllFit(pool, conditions) && i < |pool|
    ensures AllFit(pool[i..], conditions) && AllFit(pool[i + 1..], conditions)
    ensures Narrow(pool[i..], conditions) ==
      (if Matches(pool[i], conditions) then [pool[i]] else []) + Narrow(pool[i + 1..], conditions)
  {
    assert pool[i..] == [pool[i]] + pool[i + 1..];
  }

  /** The comprehension `[word for word in pool if matches_conditions(word)]`,
      evaluated word by word. */
  method MatchingWords(pool: seq<string>, conditions: seq<Condition>) returns (narrowed: seq<string>)
    requires AllFit(pool, conditions)
    ensures narrowed == Narrow(pool, conditions)
  {
    narrowed := [];
    assert pool[0..] == pool;
    for i := 0 to |pool|
      invariant AllFit(pool[i..], conditions)
      invariant narrowed + Narrow(pool[i..], conditions) == Narrow(pool, conditions)
    {
      var word := pool[i];
      var ok := MatchesConditions(word, conditions);
      NarrowSuffixStep(pool, conditions, i);
      if ok {
        narrowed := narrowed + [word];
      }
    }
    assert pool[|pool|..] == [];
  }

  /** A word of the pool that matches every condition survives narrowing. */
  lemma NarrowKeepsMatching(pool: seq<string>, conditions: seq<Condition>, word: string)
    requires AllFit(pool, conditions)
    requires word in pool && Matches(word, conditions)
    ensures word in Narrow(pool, conditions)
  {
    NarrowExact(pool, conditions);
    assert multiset(Narrow(pool, conditions))[word] == multiset(pool)[word] > 0;
  }

  /** Narrowing a pool whose every word already matches changes nothing. */
  lemma {:induction false} NarrowOfMatching(pool: seq<string>, conditions: seq<Condition>)
    requires AllFit(pool, conditions)
    requires forall w :: w in pool ==> Matches(w, conditions)
    ensures Narrow(pool, conditions) == pool
  {
    if pool != [] {
      NarrowOfMatching(pool[1..], conditions);
      assert pool == [pool[0]] + pool[1..];
    }
  }

  /** A second narrowing with no new conditions changes nothing. */
  lemma NarrowIdempotent(pool: seq<string>, conditions: seq<Condition>)
    requires AllFit(pool, conditions)
    ensures Narrow(Narrow(pool, conditions), conditions) == Narrow(pool, conditions)
  {
    NarrowOfMatching(Narrow(pool, conditions), conditions);
  }

  /** Contradictory conditions (a letter placed and absent at one index) empty any pool. */
  lemma NarrowContradictionEmpties(pool: seq<string>, conditions: seq<Condition>, letter: char, p: int)
    requires AllFit(pool, conditions)
    requires Condition(letter, p, PresentCorrectIndex) in conditions
    requires Condition(letter, p, NotPresent) in conditions
    ensures Narrow(pool, conditions) == []
  {
    var r := Narrow(pool, conditions);
    if r != [] {
      assert r[0] in r;
      ContradictionRejectsAll(r[0], conditions, letter, p);
    }
  }

  // ---------------------------------------------------------------------------
  // The state a session keeps

  /** Conditions only index where a candidate has a letter: the seed at 0, decoded ones below the word length. */
  predicate InRange(c: Condition, wordLength: int) {
    c.positionIndex == 0 || 1 <= c.positionIndex < wordLength
  }

  /** What holds of the two lists between any two steps of a session. */
  predicate SessionInvariant(pool: seq<string>, conditions: seq<Condition>, wordLength: int, firstLetter: char) {
    |conditions| >= 1 && conditions[0] == Seed(firstLetter) &&
    (forall k :: 0 <= k < |conditions| ==> InRange(conditions[k], wordLength)) &&
    (forall w :: w in pool ==> IsCandidate(w, wordLength, firstLetter))
  }

  lemma InvariantFits(pool: seq<string>, conditions: seq<Condition>, wordLength: int, firstLetter: char)
    requires SessionInvariant(pool, conditions, wordLength, firstLetter)
    ensures AllFit(pool, conditions)
  {
    forall w | w in pool ensures Fits(w, conditions) {
      assert IsCandidate(w, wordLength, firstLetter);
    }
  }

  /** The store after `fill_conditions_list(guess, feedback)`. */
  function FilledConditions(conditions: seq<Condition>, guess: string, feedback: string, wordLength: int): (r: seq<Condition>)
    requires ValidFeedback(feedback, wordLength) ==> CoversFeedback(guess, feedback)
    ensures conditions <= r
    ensures !ValidFeedback(feedback, wordLength) ==> r == conditions
    ensures forall k :: |conditions| <= k < |r| ==> 1 <= r[k].positionIndex < wordLength
  {
    if ValidFeedback(feedback, wordLength) then conditions + FeedbackConditions(guess, feedback) else conditions
  }

  /** Python's `all(c == '!' for c in feedback)`, true for empty feedback. */
  predicate AllCorrect(feedback: string) {
    forall i :: 0 <= i < |feedback| ==> feedback[i] == '!'
  }

  /** The pool after the removal step of the driver loop. */
  function WithoutTriedGuess(pool: seq<string>, guess: string, feedback: string): (r: seq<string>)
    ensures IsSubsequence(r, pool)
    ensures forall w :: w in r ==> w in pool
    ensures forall w :: w != guess || AllCorrect(feedback) ==> multiset(r)[w] == multiset(pool)[w]
    ensures !AllCorrect(feedback) && guess in pool ==> multiset(r)[guess] == multiset(pool)[guess] - 1
    ensures !AllCorrect(feedback) && guess in pool ==> r == RemoveFirst(pool, guess)
    ensures AllCorrect(feedback) || guess !in pool ==> r == pool
  {
    if !AllCorrect(feedback) && guess in pool then RemoveFirst(pool, guess)
    else
      SubsequenceReflexive(pool);
      pool
  }

  /** A fresh session already satisfies its invariant, and the seed accepts every candidate. */
  lemma InitialSessionInvariant(words: seq<string>, wordLength: int, firstLetter: char)
    ensures SessionInvariant(InitialFilterWordList(words, wordLength, firstLetter), [Seed(firstLetter)], wordLength, firstLetter)
    ensures forall w :: w in InitialFilterWordList(words, wordLength, firstLetter) ==>
      Fits(w, [Seed(firstLetter)]) && Matches(w, [Seed(firstLetter)])
  {
  }

  /** The seed accepts exactly the words that start with the first letter. */
  lemma SeedAcceptsExactly(word: string, firstLetter: char)
    requires |word| > 0
    ensures Fits(word, [Seed(firstLetter)])
    ensures Matches(word, [Seed(firstLetter)]) <==> StartsWith(word, firstLetter)
  {
    assert [Seed(firstLetter)][0] == Seed(firstLetter);
  }

  /** Filling the store never displaces its first condition, so the seed stays first. */
  lemma FilledConditionsKeepSeed(conditions: seq<Condition>, guess: string, feedback: string, wordLength: int)
    requires |conditions| >= 1
    requires ValidFeedback(feedback, wordLength) ==> CoversFeedback(guess, feedback)
    ensures var r := FilledConditions(conditions, guess, feedback, wordLength);
      |r| >= |conditions| && r[0] == conditions[0]
  {
  }

  /** A candidate of the word list is in the initial pool and satisfies the seed. */
  lemma SolutionInInitialPool(words: seq<string>, wordLength: int, firstLetter: char, solution: string)
    requires solution in words && IsCandidate(solution, wordLength, firstLetter)
    ensures solution in InitialFilterWordList(words, wordLength, firstLetter)
    ensures Fits(solution, [Seed(firstLetter)]) && Matches(solution, [Seed(firstLetter)])
  {
    InitialFilterExact(words, wordLength, firstLetter);
    assert multiset(InitialFilterWordList(words, wordLength, firstLetter))[solution] == multiset(words)[solution] > 0;
  }

  /** Decoding truthful feedback keeps the store well formed and consistent with the solution. */
  lemma FilledConditionsAcceptSolution(conditions: seq<Condition>, wordLength: int, firstLetter: char,
                                       guess: string, feedback: string, solution: string)
    requires |conditions| >= 1 && conditions[0] == Seed(firstLetter)
    requires forall k :: 0 <= k < |conditions| ==> InRange(conditions[k], wordLength)
    requires IsCandidate(solution, wordLength, firstLetter)
    requires Fits(solution, conditions) && Matches(solution, conditions)
    requires |guess| <= |solution| && TruthfulFeedback(guess, solution, feedback)
    ensures ValidFeedback(feedback, wordLength) ==> CoversFeedback(guess, feedback)
    ensures var r := FilledConditions(conditions, guess, feedback, wordLength);
      |r| >= 1 && r[0] == Seed(firstLetter) &&
      (forall k :: 0 <= k < |r| ==> InRange(r[k], wordLength)) &&
      Fits(solution, r) && Matches(solution, r)
  {
    if ValidFeedback(feedback, wordLength) {
      DecodedConditionsAcceptSolution(guess, solution, feedback);
      MatchesAppend(solution, conditions, FeedbackConditions(guess, feedback));
    }
  }

  /** Truthful feedback on a wrong guess is not all `!`, so removing the tried
      guess leaves the solution in the pool. */
  lemma RemovalKeepsSolution(pool: seq<string>, guess: string, feedback: string, solution: string)
    requires solution in pool
    requires |guess| <= |solution| == |feedback| && TruthfulFeedback(guess, solution, feedback)
    ensures solution in WithoutTriedGuess(pool, guess, feedback)
  {
    if guess == solution {
      assert AllCorrect(feedback);
    }
    assert multiset(WithoutTriedGuess(pool, guess, feedback))[solution] == multiset(pool)[solution] > 0;
  }

  /** One round of the driver loop (decode, remove the guess, narrow) keeps the
      invariant, keeps the new pool a sub-list of the old one and, when the
      feedback tells the truth about the solution, keeps the solution alive. */
  lemma SolutionSurvivesRound(pool: seq<string>, conditions: seq<Condition>, wordLength: int, firstLetter: char,
                              guess: string, feedback: string, solution: string)
    requires SessionInvariant(pool, conditions, wordLength, firstLetter)
    requires IsCandidate(solution, wordLength, firstLetter) && solution in pool
    requires Fits(solution, conditions) && Matches(solution, conditions)
    requires |guess| == |solution| && TruthfulFeedback(guess, solution, feedback)
    ensures ValidFeedback(feedback, wordLength) ==> CoversFeedback(guess, feedback)
    ensures SessionInvariant(WithoutTriedGuess(pool, guess, feedback),
                             FilledConditions(conditions, guess, feedback, wordLength), wordLength, firstLetter)
    ensures AllFit(WithoutTriedGuess(pool, guess, feedback), FilledConditions(conditions, guess, feedback, wordLength))
    ensures var next := Narrow(WithoutTriedGuess(pool, guess, feedback),
                               FilledConditions(conditions, guess, feedback, wordLength));
      IsSubsequence(next, pool) && solution in next
    ensures Fits(solution, FilledConditions(conditions, guess, feedback, wordLength))
    ensures Matches(solution, FilledConditions(conditions, guess, feedback, wordLength))
  {
    FilledConditionsAcceptSolution(conditions, wordLength, firstLetter, guess, feedback, solution);
    var conditions' := FilledConditions(conditions, guess, feedback, wordLength);
    var pool' := WithoutTriedGuess(pool, guess, feedback);
    RemovalKeepsSolution(pool, guess, feedback, solution);
    assert SessionInvariant(pool', conditions', wordLength, firstLetter);
    InvariantFits(pool', conditions', wordLength, firstLetter);
    NarrowKeepsMatching(pool', conditions', solution);
    NarrowExact(pool', conditions');
    SubsequenceTransitive(Narrow(pool', conditions'), pool', pool);
  }

  // ---------------------------------------------------------------------------
  // The solver object

  class Solver {
    const wordLength: int
    const firstLetter: char
    var possibleWordList: seq<string>
    var conditionsList: seq<Condition>

    ghost predicate Valid()
      reads this
    {
      SessionInvariant(possibleWordList, conditionsList, wordLength, firstLetter)
    }

    /** `Solver.__init__`: filter the word list and seed the store with the first letter. */
    constructor (wordLength: int, firstLetter: char, possibleWordList: seq<string>)
      ensures Valid()
      ensures this.wordLength == wordLength && this.firstLetter == firstLetter
      ensures this.possibleWordList == InitialFilterWordList(possibleWordList, wordLength, firstLetter)
      ensures conditionsList == [Seed(firstLetter)]
    {
      this.wordLength := wordLength;
      this.firstLetter := firstLetter;
      this.possibleWordList := InitialFilterWordList(possibleWordList, wordLength, firstLetter);
      conditionsList := [Seed(firstLetter)];
    }

    /** `fill_conditions_list`: invalid feedback changes nothing; valid feedback
        appends one condition per non-blank position from index 1 on. */
    method FillConditionsList(newGuess: string, feedback: string) returns (valid: bool)
      requires Valid()
      requires ValidFeedback(feedback, wordLength) ==> CoversFeedback(newGuess, feedback)
      modifies this`conditionsList
      ensures Valid()
      ensures valid == ValidFeedback(feedback, wordLength)
      ensures conditionsList == FilledConditions(old(conditionsList), newGuess, feedback, wordLength)
      ensures valid ==> conditionsList == old(conditionsList) + FeedbackConditions(newGuess, feedback)
      ensures !valid ==> conditionsList == old(conditionsList)
    {
      valid := ValidFeedback(feedback, wordLength);
      if valid {
        for i := 1 to wordLength
          invariant conditionsList + FeedbackConditionsFrom(newGuess, feedback, i)
                    == old(conditionsList) + FeedbackConditions(newGuess, feedback)
          invariant Valid()
        {
          if feedback[i] != ' ' {
            AppendAssociates(conditionsList, [Condition(newGuess[i], i, KindOf(feedback[i]))],
                             FeedbackConditionsFrom(newGuess, feedback, i + 1));
          }
          if feedback[i] == '!' {
            conditionsList := conditionsList + [Condition(newGuess[i], i, PresentCorrectIndex)];
          } else if feedback[i] == '?' {
            conditionsList := conditionsList + [Condition(newGuess[i], i, PresentWrongIndex)];
          } else if feedback[i] == '_' {
            conditionsList := conditionsList + [Condition(newGuess[i], i, NotPresent)];
          }
        }
      }
    }

    /** Lines 185-186 of the driver: unless the feedback is all `!`, drop the
        first occurrence of the tried guess from the pool. */
    method RemoveTriedGuess(currentGuess: string, feedback: string)
      requires Valid()
      modifies this`possibleWordList
      ensures Valid()
      ensures possibleWordList == WithoutTriedGuess(old(possibleWordList), currentGuess, feedback)
      ensures !AllCorrect(feedback) && currentGuess in old(possibleWordList) ==>
        possibleWordList == RemoveFirst(old(possibleWordList), currentGuess)
      ensures AllCorrect(feedback) || currentGuess !in old(possibleWordList) ==>
        possibleWordList == old(possibleWordList)
    {
      if !AllCorrect(feedback) && currentGuess in possibleWordList {
        possibleWordList := RemoveFirst(possibleWordList, currentGuess);
      }
    }

    /** `update_possible_words`: keep, in order, the words of the current pool that match every condition. */
    method UpdatePossibleWords()
      requires Valid()
      modifies this`possibleWordList
      ensures Valid() && AllFit(old(possibleWordList), conditionsList)
      ensures possibleWordList == Narrow(old(possibleWordList), conditionsList)
      ensures IsSubsequence(possibleWordList, old(possibleWordList))
      ensures |possibleWordList| <= |old(possibleWordList)|
      ensures forall w :: w in possibleWordList ==> Matches(w, conditionsList)
    {
      InvariantFits(possibleWordList, conditionsList, wordLength, firstLetter);
      NarrowExact(possibleWordList, conditionsList);
      possibleWordList := MatchingWords(possibleWordList, conditionsList);
    }

    /** `suggest_next_word_randomly`; `roll` stands for the random source. */
    method SuggestNextWordRandomly(roll: nat) returns (word: string)
      requires possibleWordList != []
      ensures word in possibleWordList
      ensures Valid() ==> IsCandidate(word, wordLength, firstLetter)
    {
      word := possibleWordList[roll % |possibleWordList|];
    }
  }

  // ---------------------------------------------------------------------------
  // Worked scenarios

  /** Filtering a concatenation filters each part, in order. */
  lemma {:induction false} InitialFilterAppend(words: seq<string>, more: seq<string>, wordLength: int, firstLetter: char)
    ensures InitialFilterWordList(words + more, wordLength, firstLetter) ==
      InitialFilterWordList(words, wordLength, firstLetter) + InitialFilterWordList(more, wordLength, firstLetter)
  {
    if words == [] {
      assert words + more == more;
    } else {
      InitialFilterAppend(words[1..], more, wordLength, firstLetter);
      assert (words + more)[1..] == words[1..] + more;
    }
  }

  /** A list of candidates passes the filter unchanged. */
  lemma {:induction false} InitialFilterOfCandidates(words: seq<string>, wordLength: int, firstLetter: char)
    requires forall w :: w in words ==> IsCandidate(w, wordLength, firstLetter)
    ensures InitialFilterWordList(words, wordLength, firstLetter) == words
  {
    if words != [] {
      InitialFilterOfCandidates(words[1..], wordLength, firstLetter);
      assert words == [words[0]] + words[1..];
    }
  }

  /** Four candidates followed by a word that is none: the filter keeps the four. */
  lemma InitialFilterDropsLast(a: string, b: string, c: string, d: string, e: string, wordLength: int, firstLetter: char)
    requires IsCandidate(a, wordLength, firstLetter) && IsCandidate(b, wordLength, firstLetter)
    requires IsCandidate(c, wordLength, firstLetter) && IsCandidate(d, wordLength, firstLetter)
    requires !IsCandidate(e, wordLength, firstLetter)
    ensures InitialFilterWordList([a, b, c, d, e], wordLength, firstLetter) == [a, b, c, d]
  {
    var kept := [a, b, c, d];
    assert [a, b, c, d, e] == kept + [e];
    InitialFilterAppend(kept, [e], wordLength, firstLetter);
    InitialFilterOfCandidates(kept, wordLength, firstLetter);
    assert [e][1..] == [];
  }

  /** Length 4, first letter `b`: `care` fails both tests and is dropped. */
  lemma InitialFilterScenario()
    ensures InitialFilterWordList(["blur", "bolt", "body", "boat", "care"], 4, 'b') == ["blur", "bolt", "body", "boat"]
  {
    InitialFilterDropsLast("blur", "bolt", "body", "boat", "care", 4, 'b');
  }

  /** Guess `blur` with feedback `!?__`: `l` misplaced, `u` and `r` absent; index 0 yields nothing. */
  lemma DecodingScenario()
    ensures FeedbackConditions("blur", "!?__") ==
      [Condition('l', 1, PresentWrongIndex), Condition('u', 2, NotPresent), Condition('r', 3, NotPresent)]
  {
  }

  /** The feedback is not all `!`, so `blur` leaves the pool. */
  lemma RemovalScenario()
    ensures WithoutTriedGuess(["blur", "bolt", "body", "boat"], "blur", "!?__") == ["bolt", "body", "boat"]
  {
    assert "!?__"[1] != '!';
    var pool := ["blur", "bolt", "body", "boat"];
    assert IndexOf(pool, "blur") == 0;
    assert pool[1..] == ["bolt", "body", "boat"];
  }

  /** `body` and `boat` lack the misplaced `l`; only `bolt` is left. */
  lemma NarrowingScenario()
    ensures Narrow(["bolt", "body", "boat"],
                   [Seed('b'), Condition('l', 1, PresentWrongIndex), Condition('u', 2, NotPresent), Condition('r', 3, NotPresent)])
            == ["bolt"]
  {
    var conditions := [Seed('b'), Condition('l', 1, PresentWrongIndex), Condition('u', 2, NotPresent), Condition('r', 3, NotPresent)];
    var pool := ["bolt", "body", "boat"];
    assert 'l' !in "body" && 'l' !in "boat" && 'l' in "bolt";
    assert Rejects("body", conditions[1]) && Rejects("boat", conditions[1]);
    assert forall k :: 0 <= k < |conditions| ==> !Rejects("bolt", conditions[k]);
    assert pool[1..] == ["body", "boat"] && pool[1..][1..] == ["boat"] && pool[1..][1..][1..] == [];
    assert Narrow(pool[1..][1..], conditions) == [];
    assert Narrow(pool[1..], conditions) == [];
  }
}
