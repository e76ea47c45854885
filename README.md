# SUTOM solver core in Dafny

This project models the candidate-pruning engine of a SUTOM/Wordle helper. The puzzle has a fixed word length and a known first letter. The helper keeps two lists:

- an append-only store of letter conditions, seeded with the first letter at index 0;
- a pool of candidate words.

Every round adds conditions decoded from a feedback string (`!` placed, `?` misplaced, `_` absent, blank ignored). The round then drops the tried guess unless the feedback is all `!`, and narrows the pool to the words that pass every condition. A debug oracle computes feedback from a known solution.

Modules:

- `Lists`: order-preserving sub-lists, plus Python's `list.index` and `list.remove`.
- `Conditions`: the three condition kinds, the lenient per-kind test (`matches_conditions`), decoding of a feedback string, and what it means for feedback to tell the truth about a solution.
- `Oracle`: `_get_feedback` as written (one pass), and the two-pass matching it was evidently meant to be.
- `SutomSolver`: the initial filter, narrowing, the removal step of the driver loop, the `Solver` class with its two lists as mutable fields, the session invariant, and the lemma that one round never loses the solution. It also contains the worked scenarios.

The model proves these main results:

- The initial pool is exactly the candidates of the word list, in their original order.
- Narrowing is an order-preserving sub-list that keeps every matching copy and nothing else, so it is monotone and idempotent.
- Contradictory conditions empty any pool.
- Decoding is complete and ordered.
- Conditions decoded from truthful feedback never reject the solution.
- A full round (decode, remove, narrow) keeps the session invariant, shrinks the pool, and keeps the solution in it.
- The oracle's feedback is truthful, and it is all `!` when the guess is the solution.

The random source of `suggest_next_word_randomly` is passed in as a number `roll`. The model says only that the suggestion is an element of the pool.

## Model

| member | source | states |
|---|---|---|
| Conditions.MatchesConditions | sutom_solver.py:118-127 | the loop over the conditions in store order returns true exactly when no condition rejects the word under the per-kind rules |
| Conditions.MatchesAppend | sutom_solver.py:118-127 | a word passes a concatenated store exactly when it passes both parts, so conditions compose independently |
| Conditions.ContradictionRejectsAll | sutom_solver.py:119-126 | a letter recorded both as placed and as absent at one index rejects every word |
| Conditions.KindOf | sutom_solver.py:82-90 | `!`, `?` and `_` map one-to-one to PRESENT_CORRECT_INDEX, PRESENT_WRONG_INDEX and NOT_PRESENT |
| Conditions.FeedbackConditions | sutom_solver.py:81-90 | every decoded condition sits at a position from 1 to length-1 |
| Conditions.FeedbackConditionsEntries | sutom_solver.py:81-90 | each decoded condition comes from a non-blank position and carries the guess's letter there and the kind its symbol names |
| Conditions.FeedbackConditionsOrdered | sutom_solver.py:81-90 | decoded conditions appear in strictly increasing position order, so no position yields two |
| Conditions.FeedbackConditionsComplete | sutom_solver.py:81-90 | every non-blank position from index 1 on yields its condition |
| Conditions.DecodedConditionsAcceptSolution | sutom_solver.py:81-90 | decoding feedback that tells the truth about a solution yields conditions the solution passes |
| Lists.IndexOf | sutom_solver.py:64 | `list.index` returns the position of the first occurrence |
| Lists.RemoveFirst | sutom_solver.py:186 | `list.remove` drops one copy of the element: length minus one, multiset minus one, order kept, the rest around the removed index unchanged |
| Oracle.GetFeedback | sutom_solver.py:56-67 | starting from a copy of the whole solution, the loop's result equals the one-pass feedback function; it is truthful about the guess and all `!` when the guess is the solution |
| Oracle.OnePassFromTruthful | sutom_solver.py:58-66 | from any consistent state of the solution copy, finishing the pass keeps the feedback truthful |
| Oracle.OnePassTruthful | sutom_solver.py:56-67 | the one-pass feedback has one symbol per letter, `!` exactly at agreeing positions, and `?` only for letters in the solution |
| Oracle.OnePassOvercounts | sutom_solver.py:58-64 | guess `aa` against `ba` gives `?!`, which credits the solution's single `a` twice |
| Oracle.SecondPassMarks | sutom_solver.py:56-67 | the second pass credits no more letters than the exact matches plus the unmatched pool |
| Oracle.SecondPassCreditsExactly | sutom_solver.py:56-67 | the second pass credits every exact letter, and each non-exact letter as often as both its non-exact occurrences and the pool allow |
| Oracle.TwoPassMarksWithinSolution | sutom_solver.py:56-67 | two-pass matching credits exactly the exact letters plus the non-exact guess letters intersected with the solution letters left over; hence each solution letter at most once; and it is truthful |
| Oracle.TwoPassExample | sutom_solver.py:56-67 | two-pass matching gives `_!` for guess `aa` against `ba`, and `??` for `ab` against `ba` |
| SutomSolver.InitialFilterWordList | sutom_solver.py:43 | every kept word comes from the list and has the right length and first letter |
| SutomSolver.InitialFilterExact | sutom_solver.py:43 | the initial pool is an order-preserving sub-list holding every copy of every candidate and nothing else |
| SutomSolver.InitialFilterAppend | sutom_solver.py:43 | filtering a concatenated list filters each part and concatenates the results in order |
| SutomSolver.InitialFilterOfCandidates | sutom_solver.py:43 | a list made only of candidates passes the filter unchanged |
| SutomSolver.InitialFilterDropsLast | sutom_solver.py:43 | four candidates followed by a non-candidate filter to the four candidates |
| SutomSolver.SeedAcceptsExactly | sutom_solver.py:27-28 | the seed condition fits every non-empty word and accepts exactly the words starting with the first letter |
| SutomSolver.FilledConditionsKeepSeed | sutom_solver.py:78-90 | filling the store only appends, so its first condition (the seed) stays first |
| SutomSolver.SolutionInInitialPool | sutom_solver.py:43 | a candidate of the word list is in the initial pool and passes the seed condition |
| SutomSolver.Narrow | sutom_solver.py:129 | every kept word comes from the pool and passes every condition |
| SutomSolver.NarrowExact | sutom_solver.py:129 | narrowing keeps pool order and every copy of every matching word, drops the rest, and never lengthens the pool |
| SutomSolver.NarrowSuffixStep | sutom_solver.py:129 | narrowing a suffix is the verdict on its first word followed by the narrowed rest |
| SutomSolver.MatchingWords | sutom_solver.py:129 | the comprehension evaluated word by word equals the narrowing function |
| SutomSolver.NarrowKeepsMatching | sutom_solver.py:129 | a pool word that passes every condition survives narrowing |
| SutomSolver.NarrowOfMatching | sutom_solver.py:129 | narrowing a pool whose every word passes changes nothing |
| SutomSolver.NarrowIdempotent | sutom_solver.py:129 | narrowing twice with no new conditions equals narrowing once |
| SutomSolver.NarrowContradictionEmpties | sutom_solver.py:118-129 | a store with a letter both placed and absent at one index empties any pool |
| SutomSolver.FilledConditions | sutom_solver.py:78-90 | invalid feedback leaves the store unchanged; valid feedback only appends, at positions 1 to length-1 |
| SutomSolver.WithoutTriedGuess | sutom_solver.py:185-186 | when the feedback is not all `!` and the guess is in the pool, removal drops its first copy (one copy fewer, every other count unchanged); otherwise the pool is unchanged |
| SutomSolver.InitialSessionInvariant | sutom_solver.py:21-28 | a fresh session satisfies the session invariant, and the seed accepts every initial candidate |
| SutomSolver.FilledConditionsAcceptSolution | sutom_solver.py:78-90 | decoding truthful feedback keeps the seed first and every position in range, and the solution still passes the store |
| SutomSolver.RemovalKeepsSolution | sutom_solver.py:185-186 | truthful feedback on a wrong guess is not all `!`, so the solution stays in the pool |
| SutomSolver.SolutionSurvivesRound | sutom_solver.py:181-191 | one round (decode, remove, narrow) keeps the invariant, yields a sub-list of the old pool and keeps the solution in it |
| SutomSolver.Solver.constructor | sutom_solver.py:21-28 | the pool is the initial filter of the word list, and the store holds only the seed condition |
| SutomSolver.Solver.FillConditionsList | sutom_solver.py:70-90 | the result reports whether the feedback is valid; invalid feedback changes nothing; valid feedback appends exactly the decoded conditions; the invariant is kept |
| SutomSolver.Solver.RemoveTriedGuess | sutom_solver.py:185-186 | the pool loses the first copy of the guess exactly when the feedback is not all `!` and the guess is in the pool; the invariant is kept |
| SutomSolver.Solver.UpdatePossibleWords | sutom_solver.py:105-129 | the new pool is the narrowing of the old one: an order-preserving sub-list, no longer, every word passing every condition |
| SutomSolver.Solver.SuggestNextWordRandomly | sutom_solver.py:132-134 | the suggestion is a word of the pool, so it has the right length and first letter |
| SutomSolver.InitialFilterScenario | sutom_solver.py:43 | length 4 and letter `b` filter `blur bolt body boat care` to `blur bolt body boat` |
| SutomSolver.DecodingScenario | sutom_solver.py:81-90 | guess `blur` with `!?__` yields `l` misplaced at 1, `u` absent at 2, `r` absent at 3 |
| SutomSolver.RemovalScenario | sutom_solver.py:185-186 | `blur` leaves the pool because `!?__` is not all `!` |
| SutomSolver.NarrowingScenario | sutom_solver.py:129 | with those conditions, `bolt body boat` narrows to `bolt` |

## Left out

- `load_word_list` reads a file. The word list is a parameter instead.
- `main`, with its prompts, prints, try counter and loop control, is left out. Its round (lines 181-191) is stated as `SolutionSurvivesRound` and through the class methods.
- `print_conditions` is left out; it only prints. It also reads attributes that `Condition` does not have.
- The "Invalid feedback" message at line 79 is not printed. `FillConditionsList` returns whether the feedback was valid instead.
- `Solver.constructor`: `first_letter.lower()` is not modelled. The first letter is one `char` that is stored as given, and the pool and seed both use it unchanged, as the source does. A first letter of more than one character is not modelled.
- `Solver.SuggestNextWordRandomly`: the distribution of `random.choice` is not modelled. The random source is the `roll` parameter. Python raises an error on an empty pool; the model requires a non-empty pool.
- `Solver.FillConditionsList`: when the guess is shorter than a non-blank feedback position, Python raises an IndexError. The model requires that the guess covers those positions.
- `Oracle.GetFeedback`: when the guess is longer than the solution, Python raises an IndexError. The model requires that the guess is no longer than the solution.
- The `Oracle` module follows the code, which uses one pass with a solution copy. The usual Wordle rule (exact letters first, then misplaced letters against the solution letters left) is modelled beside it; the comment at sutom_solver.py:65 admits the one pass goes wrong with repeated letters (see Findings).
- `SolutionSurvivesRound` requires the guess and the solution to have the same length. A guess suggested from the pool always does.

## Findings

| source | as written | input that shows it | evidently intended | confidence | as-written member | corrected member |
|---|---|---|---|---|---|---|
| sutom_solver.py:56-67 | one left-to-right pass: a misplaced letter takes the first unused copy in the solution, even one that a later exact match needs | guess `aa`, solution `ba`: feedback `?!`, which credits the single `a` twice | the usual Wordle rule, exact matches first, then misplaced letters against the solution letters left: `_!` (the comment at line 65 admits the repeated-letter problem) | medium, not executed | Oracle.OnePassOvercounts | Oracle.TwoPassMarksWithinSolution |

The solver lemmas (`DecodedConditionsAcceptSolution`, `SolutionSurvivesRound`) accept any truthful feedback, and both oracles are proved truthful (`OnePassTruthful`, `TwoPassMarksWithinSolution`). The defect therefore never makes the lenient filter lose the solution. It only affects how many copies of a letter the feedback claims.
