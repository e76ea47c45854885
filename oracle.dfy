/** The debug oracle `Solver._get_feedback`: feedback for a guess against a
    known solution, in one left-to-right pass that consumes solution letters
    from a copy of the solution. Beside it, the usual Wordle rule (exact
    letters first, then misplaced letters against the solution letters left),
    and the difference between them on repeated letters. */
module Oracle {
  import opened Lists
  import opened Conditions

  /** Python's `None`, written into the solution copy to mark a letter as used. */
  datatype Option<T> = None | Some(value: T)

  /** `list(SOLUTION)`: every letter of the solution, none used yet. */
  function CopyOf(solution: string): seq<Option<char>>
  {
    seq(|solution|, j requires 0 <= j < |solution| => Some(solution[j]))
  }

  /** The copy only ever holds the solution's own letter at each index, or a used mark. */
  predicate TracksSolution(copy: seq<Option<char>>, solution: string) {
    |copy| == |solution| &&
    forall j :: 0 <= j < |copy| ==> copy[j] == None || copy[j] == Some(solution[j])
  }

  /** The feedback for guess positions `i` onwards, given the copy's state at `i`. */
  function OnePassFrom(guess: string, solution: string, i: nat, copy: seq<Option<char>>): (r: string)
    requires i <= |guess| <= |solution| == |copy|
    ensures |r| == |guess| - i
    decreases |guess| - i
  {
    if i == |guess| then ""
    else if guess[i] == solution[i] then
      "!" + OnePassFrom(guess, solution, i + 1, copy[i := None])
    else if Some(guess[i]) in copy then
      "?" + OnePassFrom(guess, solution, i + 1, copy[IndexOf(copy, Some(guess[i])) := None])
    else
      "_" + OnePassFrom(guess, solution, i + 1, copy)
  }

  function OnePassFeedback(guess: string, solution: string): string
    requires |guess| <= |solution|
  {
    OnePassFrom(guess, solution, 0, CopyOf(solution))
  }

  /** `_get_feedback`: marks `!`, `?` or `_` letter by letter, using each
      solution letter at most once through the copy. */
  method GetFeedback(newGuess: string, solution: string) returns (feedback: string)
    requires |newGuess| <= |solution|
    ensures feedback == OnePassFeedback(newGuess, solution)
    ensures TruthfulFeedback(newGuess, solution, feedback)
    ensures newGuess == solution ==> forall i :: 0 <= i < |feedback| ==> feedback[i] == '!'
  {
    feedback := "";
    var solutionCopy := CopyOf(solution);
    for i := 0 to |newGuess|
      invariant |solutionCopy| == |solution|
      invariant feedback + OnePassFrom(newGuess, solution, i, solutionCopy) == OnePassFeedback(newGuess, solution)
    {
      var l := newGuess[i];
      ghost var rest := OnePassFrom(newGuess, solution, i, solutionCopy);
      if l == solution[i] {
        assert rest == "!" + OnePassFrom(newGuess, solution, i + 1, solutionCopy[i := None]);
        AppendAssociates(feedback, "!", OnePassFrom(newGuess, solution, i + 1, solutionCopy[i := None]));
        feedback := feedback + "!";
        solutionCopy := solutionCopy[i := None];
      } else if Some(l) in solutionCopy {
        var j := IndexOf(solutionCopy, Some(l));
        assert rest == "?" + OnePassFrom(newGuess, solution, i + 1, solutionCopy[j := None]);
        AppendAssociates(feedback, "?", OnePassFrom(newGuess, solution, i + 1, solutionCopy[j := None]));
        feedback := feedback + "?";
        solutionCopy := solutionCopy[j := None];
      } else {
        assert rest == "_" + OnePassFrom(newGuess, solution, i + 1, solutionCopy);
        AppendAssociates(feedback, "_", OnePassFrom(newGuess, solution, i + 1, solutionCopy));
        feedback := feedback + "_";
      }
    }
    assert feedback == OnePassFeedback(newGuess, solution);
    OnePassTruthful(newGuess, solution);
  }

  /** Feedback whose first `|done|` symbols are truthful stays truthful when the
      one pass finishes it from there. */
  lemma {:induction false} OnePassFromTruthful(guess: string, solution: string, copy: seq<Option<char>>, done: string)
    requires |done| <= |guess| <= |solution|
    requires TracksSolution(copy, solution)
    requires forall k :: 0 <= k < |done| ==> TruthfulAt(guess, solution, k, done[k])
    ensures TruthfulFeedback(guess, solution, done + OnePassFrom(guess, solution, |done|, copy))
    decreases |guess| - |done|
  {
    var i := |done|;
    if i == |guess| {
      assert done + OnePassFrom(guess, solution, i, copy) == done;
      assert forall k :: 0 <= k < |guess| ==> TruthfulAt(guess, solution, k, done[k]);
    } else {
      var r := OnePassFrom(guess, solution, i, copy);
      var next: seq<Option<char>>;
      if guess[i] == solution[i] {
        next := copy[i := None];
      } else if Some(guess[i]) in copy {
        var j := IndexOf(copy, Some(guess[i]));
        assert guess[i] == solution[j];
        next := copy[j := None];
      } else {
        next := copy;
      }
      var rest := OnePassFrom(guess, solution, i + 1, next);
      assert r == [r[0]] + rest;
      assert TruthfulAt(guess, solution, i, r[0]);
      var done' := done + [r[0]];
      assert forall k :: 0 <= k < |done'| ==> TruthfulAt(guess, solution, k, done'[k]) by {
        forall k | 0 <= k < |done'| ensures TruthfulAt(guess, solution, k, done'[k]) {
          if k < i {
            assert done'[k] == done[k];
          }
        }
      }
      OnePassFromTruthful(guess, solution, next, done');
      assert done' + rest == done + r;
    }
  }

  /** The one-pass oracle tells the truth about the guess. */
  lemma OnePassTruthful(guess: string, solution: string)
    requires |guess| <= |solution|
    ensures TruthfulFeedback(guess, solution, OnePassFeedback(guess, solution))
  {
    OnePassFromTruthful(guess, solution, CopyOf(solution), "");
    assert "" + OnePassFeedback(guess, solution) == OnePassFeedback(guess, solution);
  }

  /** The guessed letters a feedback string credits to the solution (`!` or `?`). */
  function MarkedLetters(guess: string, feedback: string): multiset<char>
    requires |feedback| == |guess|
  {
    if guess == [] then multiset{}
    else (if feedback[0] != '_' then multiset{guess[0]} else multiset{}) + MarkedLetters(guess[1..], feedback[1..])
  }

  /** As written, the one pass can credit one solution letter twice: the `?` for
      the first `a` uses the solution's only `a`, which the exact match at index 1
      then claims again. */
  lemma OnePassOvercounts()
    ensures OnePassFeedback("aa", "ba") == "?!"
    ensures multiset("ba")['a'] == 1 && MarkedLetters("aa", "?!")['a'] == 2
    ensures !(MarkedLetters("aa", "?!") <= multiset("ba"))
  {
    var copy := CopyOf("ba");
    assert copy == [Some('b'), Some('a')];
    assert IndexOf(copy, Some('a')) == 1;
    assert OnePassFrom("aa", "ba", 1, copy[1 := None]) == "!";
  }

  // ---------------------------------------------------------------------------
  // Two-pass matching: exact letters first, then misplaced letters against what is left

  /** The letters the guess matches exactly. */
  function Exact(guess: string, solution: string): multiset<char>
    requires |guess| <= |solution|
  {
    if guess == [] then multiset{}
    else (if guess[0] == solution[0] then multiset{guess[0]} else multiset{}) + Exact(guess[1..], solution[1..])
  }

  /** The solution letters no exact match uses. */
  function Unmatched(guess: string, solution: string): multiset<char>
    requires |guess| <= |solution|
  {
    if guess == [] then multiset(solution)
    else (if guess[0] == solution[0] then multiset{} else multiset{solution[0]}) + Unmatched(guess[1..], solution[1..])
  }

  /** Second pass: a non-exact letter is `?` while an unmatched copy of it is left. */
  function SecondPass(guess: string, solution: string, pool: multiset<char>): (r: string)
    requires |guess| <= |solution|
    ensures |r| == |guess|
  {
    if guess == [] then ""
    else if guess[0] == solution[0] then "!" + SecondPass(guess[1..], solution[1..], pool)
    else if guess[0] in pool then "?" + SecondPass(guess[1..], solution[1..], pool - multiset{guess[0]})
    else "_" + SecondPass(guess[1..], solution[1..], pool)
  }

  function TwoPassFeedback(guess: string, solution: string): string
    requires |guess| <= |solution|
  {
    SecondPass(guess, solution, Unmatched(guess, solution))
  }

  lemma {:induction false} ExactAndUnmatchedSplitSolution(guess: string, solution: string)
    requires |guess| <= |solution|
    ensures Exact(guess, solution) + Unmatched(guess, solution) == multiset(solution)
  {
    if guess != [] {
      ExactAndUnmatchedSplitSolution(guess[1..], solution[1..]);
      assert solution == [solution[0]] + solution[1..];
    }
  }

  lemma {:induction false} SecondPassMarks(guess: string, solution: string, pool: multiset<char>)
    requires |guess| <= |solution|
    ensures MarkedLetters(guess, SecondPass(guess, solution, pool)) <= Exact(guess, solution) + pool
  {
    if guess != [] {
      var r := SecondPass(guess, solution, pool);
      var next := if guess[0] != solution[0] && guess[0] in pool then pool - multiset{guess[0]} else pool;
      SecondPassMarks(guess[1..], solution[1..], next);
      assert r[1..] == SecondPass(guess[1..], solution[1..], next);
    }
  }

  lemma {:induction false} SecondPassTruthful(guess: string, solution: string, pool: multiset<char>, letters: multiset<char>)
    requires |guess| <= |solution|
    requires pool <= letters
    ensures forall k :: 0 <= k < |guess| ==>
      var symbol := SecondPass(guess, solution, pool)[k];
      symbol in "!?_" &&
      (symbol == '!' <==> guess[k] == solution[k]) &&
      (symbol == '?' ==> guess[k] in letters)
  {
    if guess != [] {
      var r := SecondPass(guess, solution, pool);
      var next := if guess[0] != solution[0] && guess[0] in pool then pool - multiset{guess[0]} else pool;
      SecondPassTruthful(guess[1..], solution[1..], next, letters);
      assert r == [r[0]] + SecondPass(guess[1..], solution[1..], next);
      forall k | 1 <= k < |guess|
        ensures r[k] == SecondPass(guess[1..], solution[1..], next)[k - 1]
        ensures guess[k] == guess[1..][k - 1] && solution[k] == solution[1..][k - 1]
      {
      }
    }
  }

  /** The guess letters at positions where the guess and the solution disagree. */
  function NonExact(guess: string, solution: string): multiset<char>
    requires |guess| <= |solution|
  {
    if guess == [] then multiset{}
    else (if guess[0] == solution[0] then multiset{} else multiset{guess[0]}) + NonExact(guess[1..], solution[1..])
  }

  /** Crediting one more copy of `x` while the pool still holds it. */
  lemma CreditFromPool(x: char, a: multiset<char>, pool: multiset<char>)
    requires x in pool
    ensures multiset{x} + a * (pool - multiset{x}) == (multiset{x} + a) * pool
  {
    forall y ensures (multiset{x} + a * (pool - multiset{x}))[y] == ((multiset{x} + a) * pool)[y] {
    }
  }

  /** A letter the pool lacks earns no credit. */
  lemma NoCreditOutsidePool(x: char, a: multiset<char>, pool: multiset<char>)
    requires x !in pool
    ensures a * pool == (multiset{x} + a) * pool
  {
    forall y ensures (a * pool)[y] == ((multiset{x} + a) * pool)[y] {
    }
  }

  /** The second pass credits every exact letter, and each non-exact letter as
      often as both the non-exact positions and the pool allow. */
  lemma {:induction false} SecondPassCreditsExactly(guess: string, solution: string, pool: multiset<char>)
    requires |guess| <= |solution|
    ensures MarkedLetters(guess, SecondPass(guess, solution, pool)) ==
      Exact(guess, solution) + NonExact(guess, solution) * pool
  {
    if guess != [] {
      var r := SecondPass(guess, solution, pool);
      var g', s' := guess[1..], solution[1..];
      var next := if guess[0] != solution[0] && guess[0] in pool then pool - multiset{guess[0]} else pool;
      SecondPassCreditsExactly(g', s', next);
      assert r[1..] == SecondPass(g', s', next);
      if guess[0] == solution[0] {
        assert MarkedLetters(guess, r) == multiset{guess[0]} + (Exact(g', s') + NonExact(g', s') * pool);
      } else if guess[0] in pool {
        CreditFromPool(guess[0], NonExact(g', s'), pool);
        assert MarkedLetters(guess, r) == multiset{guess[0]} + (Exact(g', s') + NonExact(g', s') * next);
      } else {
        NoCreditOutsidePool(guess[0], NonExact(g', s'), pool);
        assert MarkedLetters(guess, r) == Exact(g', s') + NonExact(g', s') * pool;
      }
    }
  }

  /** The intended matching credits every exact letter, and each misplaced
      letter as often as the solution has copies left over from the exact
      matches; so it credits every solution letter at most once, and it tells
      the truth about the guess. */
  lemma TwoPassMarksWithinSolution(guess: string, solution: string)
    requires |guess| <= |solution|
    ensures MarkedLetters(guess, TwoPassFeedback(guess, solution)) ==
      Exact(guess, solution) + NonExact(guess, solution) * Unmatched(guess, solution)
    ensures MarkedLetters(guess, TwoPassFeedback(guess, solution)) <= multiset(solution)
    ensures TruthfulFeedback(guess, solution, TwoPassFeedback(guess, solution))
  {
    SecondPassCreditsExactly(guess, solution, Unmatched(guess, solution));
    SecondPassMarks(guess, solution, Unmatched(guess, solution));
    ExactAndUnmatchedSplitSolution(guess, solution);
    SecondPassTruthful(guess, solution, Unmatched(guess, solution), multiset(solution));
  }

  /** On the input that shows the one-pass defect, two passes give `_!`; two
      swapped letters are both misplaced. */
  lemma TwoPassExample()
    ensures TwoPassFeedback("aa", "ba") == "_!"
    ensures TwoPassFeedback("ab", "ba") == "??"
  {
    assert Unmatched("aa", "ba") == multiset{'b'};
    assert Unmatched("ab", "ba") == multiset{'b', 'a'};
  }
}
