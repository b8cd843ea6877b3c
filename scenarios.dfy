/** A worked round: the guess ERROR against the hidden word ROBOT. The page
    credits one R as `present` and reports the other two R tiles `absent`. */
module Scenarios {
  import opened Feedback
  import opened Pruner

  /** The tiles of the round, as the page reports them. */
  function ErrorRound(): Hint
  {
    [('E', Absent), ('R', Present), ('R', Absent), ('O', Correct), ('R', Absent)]
  }

  /** The round as classified: the two extra R tiles become `overused`, the
      single E and O keep their tags. */
  function ErrorRoundClassified(): Hint
  {
    [('E', Absent), ('R', Present), ('R', Overused), ('O', Correct), ('R', Overused)]
  }

  /** R is the only letter with two distinct tags, so only its `absent` tiles
      are relabelled. */
  lemma ClassifyErrorRound()
    ensures Classify(ErrorRound()) == ErrorRoundClassified()
  {
    var raw := ErrorRound();
    forall e | e in TagsOf(raw, 'E') ensures e == Absent {
      var i :| 0 <= i < |raw| && raw[i].0 == 'E' && raw[i].1 == e;
    }
    forall e | e in TagsOf(raw, 'O') ensures e == Correct {
      var i :| 0 <= i < |raw| && raw[i].0 == 'O' && raw[i].1 == e;
    }
    assert raw[0].1 in TagsOf(raw, 'E') && raw[3].1 in TagsOf(raw, 'O');
    assert TagsOf(raw, 'E') == {Absent};
    assert TagsOf(raw, 'O') == {Correct};
    assert raw[1].1 in TagsOf(raw, 'R') && raw[2].1 in TagsOf(raw, 'R');
    assert |TagsOf(raw, 'R')| > 1 by {
      ConflictingIff(raw, 'R');
    }
  }

  /** Read as they come, the tiles eliminate the hidden word; classified, they
      keep it. */
  lemma ErrorAgainstRobot()
    ensures TilesFollowGame("ROBOT", ErrorRound())
    ensures !Consistent("ROBOT", ErrorRound())
    ensures Consistent("ROBOT", ErrorRoundClassified())
  {
    var raw := ErrorRound();
    assert TileFollowsGame("ROBOT", raw, 2) by {
      assert raw[1].0 == 'R' && raw[1].1 == Present;
    }
    assert TileFollowsGame("ROBOT", raw, 4) by {
      assert raw[1].0 == 'R' && raw[1].1 == Present;
    }
    assert !ExcludeAbsent("ROBOT", raw) by {
      assert raw[2].1 == Absent && raw[2].0 == "ROBOT"[0];
    }
    ClassifyErrorRound();
    AnswerSurvivesClassifiedRound("ROBOT", raw);
  }

  /** Of ROBOT, TROOP and ERROR only ROBOT survives the classified round. */
  lemma ErrorRoundPrunes()
    ensures Survivors(["ROBOT", "TROOP", "ERROR"], [ErrorRoundClassified()]) == ["ROBOT"]
  {
    var r := ErrorRoundClassified();
    ErrorAgainstRobot();
    assert !Consistent("TROOP", r) by {
      assert r[1].1 == Present && "TROOP"[1] == r[1].0;
    }
    assert !Consistent("ERROR", r) by {
      assert r[0].1 == Absent && "ERROR"[0] == r[0].0;
    }
    assert [r][0] == r;
    assert !ConsistentWithAll("TROOP", [r]) && !ConsistentWithAll("ERROR", [r]);
    assert ConsistentWithAll("ROBOT", [r]);
  }
}
