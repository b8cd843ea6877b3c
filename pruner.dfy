/** Candidate pruning: the four per-tile rules, a word's consistency with a
    round, and the loop that filters the word list round by round. */
module Pruner {
  import opened Feedback

  type Word = seq<char>

  /* Each rule looks at the tiles that line up with the word's letters: pairing
     a word with a round stops at the shorter of the two. */

  /** A `correct` tile: the word has the guessed letter at that position. */
  predicate KeepCorrect(w: Word, h: Hint)
  {
    forall i | 0 <= i < |w| && i < |h| && h[i].1 == Correct :: w[i] == h[i].0
  }

  /** An `absent` tile: the guessed letter occurs nowhere in the word. */
  predicate ExcludeAbsent(w: Word, h: Hint)
  {
    forall i | 0 <= i < |w| && i < |h| && h[i].1 == Absent :: h[i].0 !in w
  }

  /** A `present` tile: the word has another letter at that position and the
      guessed letter somewhere. */
  predicate MovePresent(w: Word, h: Hint)
  {
    forall i | 0 <= i < |w| && i < |h| && h[i].1 == Present :: w[i] != h[i].0 && h[i].0 in w
  }

  /** An `overused` tile: the word has another letter at that position, and
      nothing more is required. */
  predicate RemoveOverused(w: Word, h: Hint)
  {
    forall i | 0 <= i < |w| && i < |h| && h[i].1 == Overused :: w[i] != h[i].0
  }

  /** A word survives a round when all four rules hold. */
  predicate Consistent(w: Word, h: Hint)
  {
    KeepCorrect(w, h) && ExcludeAbsent(w, h) && MovePresent(w, h) && RemoveOverused(w, h)
  }

  /** What one tile demands of a word whose letter at that position is `l`,
      for the guessed letter `g` tagged `e`. */
  predicate Allows(w: Word, l: char, g: char, e: Eval)
  {
    match e
    case Correct => l == g
    case Absent => g !in w
    case Present => l != g && g in w
    case Overused => l != g
    case Other => true
  }

  /** The four rules together are the per-tile table applied at every
      position. */
  lemma ConsistentIff(w: Word, h: Hint)
    requires |w| == |h|
    ensures Consistent(w, h) <==> forall i | 0 <= i < |w| :: Allows(w, w[i], h[i].0, h[i].1)
  {
  }

  /** A word survives a history when it survives every round of it. */
  predicate ConsistentWithAll(w: Word, hints: seq<Hint>)
  {
    forall k | 0 <= k < |hints| :: Consistent(w, hints[k])
  }

  /** The words of `words` that survive every round of `hints`, in their
      original order. */
  function Survivors(words: seq<Word>, hints: seq<Hint>): seq<Word>
  {
    if words == [] then []
    else (if ConsistentWithAll(words[0], hints) then [words[0]] else []) + Survivors(words[1..], hints)
  }

  /** `a` is `b` with some elements deleted and the rest left in order. */
  ghost predicate IsSubsequence<T>(a: seq<T>, b: seq<T>)
    decreases |b|
  {
    a == [] || (b != [] && ((a[0] == b[0] && IsSubsequence(a[1..], b[1..])) || IsSubsequence(a, b[1..])))
  }

  /** A word is kept exactly when it is in the list and survives every round. */
  lemma {:induction false} SurvivorsMembership(words: seq<Word>, hints: seq<Hint>, w: Word)
    ensures w in Survivors(words, hints) <==> w in words && ConsistentWithAll(w, hints)
    decreases words
  {
    if words != [] {
      SurvivorsMembership(words[1..], hints, w);
      assert words == [words[0]] + words[1..];
    }
  }

  /** Pruning only deletes words; the survivors keep their order. */
  lemma {:induction false} SurvivorsSubsequence(words: seq<Word>, hints: seq<Hint>)
    ensures IsSubsequence(Survivors(words, hints), words)
    decreases words
  {
    if words != [] {
      SurvivorsSubsequence(words[1..], hints);
      var rest := Survivors(words[1..], hints);
      if ConsistentWithAll(words[0], hints) {
        assert Survivors(words, hints) == [words[0]] + rest;
        assert ([words[0]] + rest)[1..] == rest;
      } else {
        assert Survivors(words, hints) == rest;
      }
    }
  }

  /** With no rounds played every word is kept. */
  lemma {:induction false} SurvivorsOfEmptyHistory(words: seq<Word>)
    ensures Survivors(words, []) == words
    decreases words
  {
    if words != [] {
      SurvivorsOfEmptyHistory(words[1..]);
      assert words == [words[0]] + words[1..];
    }
  }

  /** Playing one more round prunes the previous survivors by that round. */
  lemma {:induction false} SurvivorsAppend(words: seq<Word>, hints: seq<Hint>, h: Hint)
    ensures Survivors(words, hints + [h]) == Survivors(Survivors(words, hints), [h])
    decreases words
  {
    if words != [] {
      SurvivorsAppend(words[1..], hints, h);
      var w := words[0];
      assert ConsistentWithAll(w, hints + [h]) <==> ConsistentWithAll(w, hints) && ConsistentWithAll(w, [h]) by {
        assert forall k | 0 <= k < |hints| :: (hints + [h])[k] == hints[k];
        assert (hints + [h])[|hints|] == h;
      }
      var prev := Survivors(words[1..], hints);
      if ConsistentWithAll(w, hints) {
        assert Survivors(words, hints) == [w] + prev;
        assert ([w] + prev)[1..] == prev;
      } else {
        assert Survivors(words, hints) == prev;
      }
    }
  }

  /** Survivors of a longer history are a subsequence of the previous
      survivors. */
  lemma AppendOnlyRemoves(words: seq<Word>, hints: seq<Hint>, h: Hint)
    ensures IsSubsequence(Survivors(words, hints + [h]), Survivors(words, hints))
    ensures forall w | w in Survivors(words, hints + [h]) :: w in Survivors(words, hints)
  {
    SurvivorsAppend(words, hints, h);
    SurvivorsSubsequence(Survivors(words, hints), [h]);
    forall w | w in Survivors(words, hints + [h]) ensures w in Survivors(words, hints) {
      SurvivorsMembership(Survivors(words, hints), [h], w);
    }
  }

  /** The order in which the rounds are applied does not matter: any
      rearrangement of the history keeps the same words in the same order. */
  lemma {:induction false} RoundOrderIrrelevant(words: seq<Word>, hints: seq<Hint>, shuffled: seq<Hint>)
    requires multiset(hints) == multiset(shuffled)
    ensures Survivors(words, hints) == Survivors(words, shuffled)
    decreases words
  {
    if words != [] {
      RoundOrderIrrelevant(words[1..], hints, shuffled);
      var w := words[0];
      forall h ensures h in hints <==> h in shuffled {
        assert h in hints <==> h in multiset(hints);
        assert h in shuffled <==> h in multiset(shuffled);
      }
      assert ConsistentWithAll(w, hints) <==> ConsistentWithAll(w, shuffled) by {
        if ConsistentWithAll(w, hints) {
          forall k | 0 <= k < |shuffled| ensures Consistent(w, shuffled[k]) {
            assert shuffled[k] in hints;
            var j :| 0 <= j < |hints| && hints[j] == shuffled[k];
          }
        }
        if ConsistentWithAll(w, shuffled) {
          forall k | 0 <= k < |hints| ensures Consistent(w, hints[k]) {
            assert hints[k] in shuffled;
            var j :| 0 <= j < |shuffled| && shuffled[j] == hints[k];
          }
        }
      }
    }
  }

  /** Models the loop of prune_words: starting from a copy of the word list,
      each round replaces the list by the words that survive it. A round and a
      word of different lengths are paired up to the shorter length; an empty
      round may only meet empty words among those still kept when it is
      reached. */
  method PruneWords(words: seq<Word>, allHints: seq<Hint>) returns (validWords: seq<Word>)
    requires forall k | 0 <= k < |allHints| && allHints[k] == [] ::
      forall w | w in Survivors(words, allHints[..k]) :: w == []
    ensures validWords == Survivors(words, allHints)
  {
    validWords := words;
    SurvivorsOfEmptyHistory(words);
    assert allHints[..0] == [];
    for k := 0 to |allHints|
      invariant validWords == Survivors(words, allHints[..k])
    {
      SurvivorsAppend(words, allHints[..k], allHints[k]);
      assert allHints[..k + 1] == allHints[..k] + [allHints[k]];
      validWords := Survivors(validWords, [allHints[k]]);
    }
    assert allHints[..|allHints|] == allHints;
  }

  /** Once the game is won, the only word of the guess's length that survives
      the winning round is the guess itself. */
  lemma WinLeavesOnlyTheGuess(hints: seq<Hint>, w: Word)
    requires AllCorrect(hints)
    requires |w| == |hints[|hints| - 1]|
    requires Consistent(w, hints[|hints| - 1])
    ensures forall i | 0 <= i < |w| :: w[i] == hints[|hints| - 1][i].0
  {
  }

  /** Some tile of letter `c` got a `correct` or `present` credit in round `raw`. */
  predicate Credited(raw: Hint, c: char)
  {
    exists j | 0 <= j < |raw| :: raw[j].0 == c && raw[j].1 in {Correct, Present}
  }

  /** What tile `i` says about the hidden word `answer`: a `correct` tile has
      its letter in place; a `present` tile has it elsewhere; an `absent` tile
      does not have it in place, and has it at all only when another tile of
      the same letter in that round got the credit. The page reports no other
      tag. */
  predicate TileFollowsGame(answer: Word, raw: Hint, i: int)
  {
    && |answer| == |raw|
    && 0 <= i < |raw|
    && match raw[i].1
       case Correct => answer[i] == raw[i].0
       case Present => answer[i] != raw[i].0 && raw[i].0 in answer
       case Absent => answer[i] != raw[i].0 && (raw[i].0 in answer ==> Credited(raw, raw[i].0))
       case Overused => false
       case Other => false
  }

  /** Every tile of a round the page reported for `answer` follows the game. */
  predicate TilesFollowGame(answer: Word, raw: Hint)
  {
    |answer| == |raw| && forall i | 0 <= i < |raw| :: TileFollowsGame(answer, raw, i)
  }

  /** Classification is what keeps the hidden word among the candidates: the
      answer always survives a classified round the page reported for it. */
  lemma AnswerSurvivesClassifiedRound(answer: Word, raw: Hint)
    requires TilesFollowGame(answer, raw)
    ensures Consistent(answer, Classify(raw))
  {
    var r := Classify(raw);
    forall i | 0 <= i < |r| && r[i].1 in {Correct, Present}
      ensures r[i] == raw[i] && TileFollowsGame(answer, raw, i)
    {
    }
    forall i | 0 <= i < |r| && r[i].1 == Absent
      ensures r[i].0 !in answer
    {
      assert TileFollowsGame(answer, raw, i);
      ConflictingIff(raw, raw[i].0);
      assert !Credited(raw, raw[i].0);
    }
    forall i | 0 <= i < |r| && r[i].1 == Overused
      ensures answer[i] != r[i].0
    {
      assert TileFollowsGame(answer, raw, i);
    }
  }

  /** Over a whole game: if every round the page reported follows the game for
      `answer`, a list holding `answer` still holds it after pruning with the
      classified rounds. */
  lemma AnswerNeverPruned(words: seq<Word>, raws: seq<Hint>, answer: Word)
    requires answer in words
    requires forall k | 0 <= k < |raws| :: TilesFollowGame(answer, raws[k])
    ensures answer in Survivors(words, seq(|raws|, k requires 0 <= k < |raws| => Classify(raws[k])))
  {
    var hints := seq(|raws|, k requires 0 <= k < |raws| => Classify(raws[k]));
    forall k | 0 <= k < |hints| ensures Consistent(answer, hints[k]) {
      AnswerSurvivesClassifiedRound(answer, raws[k]);
    }
    SurvivorsMembership(words, hints, answer);
  }
}
