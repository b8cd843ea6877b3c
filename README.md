# Wordle solver core, modelled in Dafny

The solver plays a daily five-letter word puzzle. After each guess the page
colours every tile `correct`, `present` or `absent`, and the solver keeps the
dictionary words that are still possible. This project models the two pieces
of `solver.py` with real semantics, and the win check:

- **Feedback classification** (`feedback.dfy`, module `Feedback`). One round
  is a sequence of `(letter, tag)` pairs. A letter that received more than one
  distinct tag in the round is *conflicting*, and each of its `absent` tiles is
  relabelled `overused`: the page reports a repeated letter as `absent` once the
  hidden word's copies of it have been credited elsewhere. `Classify` is a pure
  function. The win check `AllCorrect` holds when the latest round is all
  `correct`.
- **Candidate pruning** (`pruner.dfy`, module `Pruner`). Four rules per tile:
  `correct` keeps the letter in place, `absent` excludes the letter from the
  word, `present` moves the letter elsewhere in the word, and `overused` only
  forbids the letter at that position. Any other tag imposes nothing. A word
  survives a round when all four rules hold (`Consistent`). `PruneWords` is the
  source's loop: it starts from the word list and replaces it once per round by
  the words that survive that round. It is proved equal to `Survivors`, the
  words that survive every round, kept in their original order.
- **A worked round** (`scenarios.dfy`, module `Scenarios`): guess ERROR against
  hidden word ROBOT. The raw tiles would eliminate ROBOT. The classified tiles
  keep it.

The lemma `AnswerSurvivesClassifiedRound` states why classification exists.
Suppose a round's tiles follow the game's colouring of the hidden word
(`TilesFollowGame`). Then the hidden word survives the classified round. This
holds even with the weak `overused` rule.

Behaviour of the code worth noting; the model follows the code:
- A round whose length differs from the word's raises no error. Python's
  `zip` pairs positions up to the shorter of the two, and the rule predicates
  do the same. The one input on which the code fails is an empty round reached
  while a non-empty word is still kept (the rule lambdas index a missing
  tag); `PruneWords` requires that this does not happen.
- A tag other than the four known ones raises no error either. It is `Other`
  and matches no rule. `Other` carries no text, because the text never
  matters: an `absent` tile is relabelled exactly when its letter has some
  tile with a different tag (`RelabelledIff`).
- Pruning returns a list in dictionary order. The model keeps the order and
  proves it is preserved.
- Idempotence holds for the classification as written:
  `Classify(Classify(h)) == Classify(h)`.

## Model

| member | source | states |
|---|---|---|
| `Feedback.TagsOf` | solver.py:41-42 | Definition (no contract): the set of distinct tags the tiles of one letter carry in the round. |
| `Feedback.Conflicting` | solver.py:44 | Definition (no contract): the letter has more than one distinct tag; `ConflictingIff` gives its meaning in terms of tiles. |
| `Feedback.Fix` | solver.py:45 | Definition (no contract): an `absent` tag of a conflicting letter becomes `overused`, every other tag is kept. |
| `Feedback.Classify` | solver.py:37-48 | The result has the round's length and its letter at every position. Each tag is unchanged, except that an `absent` tag may become `overused`. |
| `Feedback.ConflictingIff` | solver.py:41-44 | A letter has more than one distinct tag in a round exactly when two of its tiles carry different tags. |
| `Feedback.RelabelledIff` | solver.py:44-47 | A tile's tag changes exactly when it is `absent` and another tile of the same letter has a non-`absent` tag. |
| `Feedback.NoMixedLetter` | solver.py:41-47 | After classification, if one tile of a letter is `absent`, every tile of that letter is `absent`. |
| `Feedback.ClassifyIdempotent` | solver.py:41-47 | Classifying a classified round returns it unchanged. |
| `Feedback.AllCorrect` | solver.py:50-53 | An empty history is never a win. |
| `Feedback.WinCheckIgnoresClassification` | solver.py:50-53 | For a non-empty history, the win check reads the same whether the latest round is raw or classified. |
| `Pruner.KeepCorrect` | solver.py:79-81 | Definition (no contract): at every paired position tagged `correct`, the word has the guessed letter. |
| `Pruner.ExcludeAbsent` | solver.py:84-86 | Definition (no contract): for every paired position tagged `absent`, the guessed letter is nowhere in the word. |
| `Pruner.MovePresent` | solver.py:89-91 | Definition (no contract): at every paired position tagged `present`, the word has another letter there and the guessed letter somewhere. |
| `Pruner.RemoveOverused` | solver.py:98-100 | Definition (no contract): at every paired position tagged `overused`, the word has another letter there. |
| `Pruner.Consistent` | solver.py:102-103 | Definition (no contract): a word survives a round when all four rules hold. |
| `Pruner.Survivors` | solver.py:68-105 | Definition (no contract): the words of the list consistent with every round, in list order; `PruneWords` is proved equal to it. |
| `Pruner.Allows` | solver.py:73-100 | Definition (no contract): the per-tile table; `correct` means the same letter, `absent` the letter nowhere in the word, `present` another letter here and the letter somewhere, `overused` another letter here, any other tag nothing. |
| `Pruner.ConsistentIff` | solver.py:72-103 | For a word of the round's length, the four rules hold exactly when each tile's rule holds at every position: `correct` means the same letter; `absent` means the letter is nowhere in the word; `present` means another letter here and the letter somewhere; `overused` means another letter here; any other tag imposes nothing. |
| `Pruner.SurvivorsMembership` | solver.py:68-105 | A word is kept exactly when it is in the list and consistent with every round. |
| `Pruner.SurvivorsSubsequence` | solver.py:67-107 | The kept words are a subsequence of the list, in the list's order. |
| `Pruner.SurvivorsOfEmptyHistory` | solver.py:67-68 | With no rounds the list is returned unchanged. |
| `Pruner.SurvivorsAppend` | solver.py:68-105 | The survivors of a history plus one round are the survivors of the history, filtered by that round. |
| `Pruner.AppendOnlyRemoves` | solver.py:68-105 | One more round can only delete words. The new survivors are a subsequence of the previous ones. |
| `Pruner.RoundOrderIrrelevant` | solver.py:68-105 | Any rearrangement of the rounds keeps the same words in the same order. |
| `Pruner.PruneWords` | solver.py:65-107 | For any input where no empty round is reached while a non-empty word is still kept, the loop returns exactly the words of the list that survive every round, in list order. |
| `Pruner.WinLeavesOnlyTheGuess` | solver.py:50-53 | After a win, a word of the guess's length that survives the winning round is the guess itself. |
| `Pruner.AnswerSurvivesClassifiedRound` | solver.py:24-47 | If a round's tiles follow the game's colouring of the hidden word, the hidden word is consistent with the classified round. |
| `Pruner.AnswerNeverPruned` | solver.py:24-47 | If every round of a game follows the game's colouring of the hidden word, the hidden word is still in the pruned list built from the classified rounds. |
| `Scenarios.ClassifyErrorRound` | solver.py:41-47 | Guess ERROR against ROBOT: the two `absent` R tiles become `overused`; E and O keep their tags. |
| `Scenarios.ErrorAgainstRobot` | solver.py:24-30 | The ERROR tiles follow the game for ROBOT. Unclassified, they eliminate ROBOT. Classified, they keep it. |
| `Scenarios.ErrorRoundPrunes` | solver.py:72-105 | Of ROBOT, TROOP and ERROR, only ROBOT survives the classified ERROR round. |

## Left out

- Browser automation: `bypass_rules`, `press_letter`, `guess_word`, `read_solution`, and the tile reads at solver.py:32-35. These are page I/O. The model starts from the `(letter, tag)` list the tiles yield.
- `make_guess` is left out. It reads a guess with `input()`, prints, and picks a candidate with `random.choice`. A random pick is not a specifiable result.
- The main loop is left out: argument parsing, loading `words.txt`, `time.sleep`, the six-guess limit and the messages. This is process and file I/O.
- The `page` argument of `all_correct` is unused, so it is not modelled.
- The stronger `overused` rule described in the comment at solver.py:93-97 is not modelled. The code does not implement it. `overused` forbids only the same position.
- Pruner.PruneWords: requires that no empty round is reached while a non-empty word is still kept. On that input the code fails with an index error, which is not modelled as an error value.
- Letters are single characters. The page's letter attribute is assumed to hold one character, so `in` on the word is character membership.
