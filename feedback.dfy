/** The feedback side of the solver: the tags one round of tiles reports, the
    relabelling of superfluous `absent` tiles as `overused`, and the win check
    on the hint history. */
module Feedback {

  /** The tag of one tile. The page reports `correct`, `present` or `absent`;
      `overused` is derived by classification; any other text is `Other` and
      matches no pruning rule. */
  datatype Eval = Correct | Present | Absent | Overused | Other

  /** One round: the guessed letter and the tag of every tile, in tile order. */
  type Hint = seq<(char, Eval)>

  /** The distinct tags letter `c` received in round `h`. */
  function TagsOf(h: Hint, c: char): set<Eval>
  {
    set i | 0 <= i < |h| && h[i].0 == c :: h[i].1
  }

  /** A letter is conflicting when it received more than one distinct tag. */
  predicate Conflicting(h: Hint, c: char)
  {
    |TagsOf(h, c)| > 1
  }

  /** The tag a tile keeps after classification. */
  function Fix(h: Hint, c: char, e: Eval): Eval
  {
    if Conflicting(h, c) && e == Absent then Overused else e
  }

  /** Relabels every `absent` tile of a conflicting letter as `overused`;
      everything else is returned as it came. */
  function Classify(raw: Hint): (r: Hint)
    ensures |r| == |raw|
    ensures forall i | 0 <= i < |raw| :: r[i].0 == raw[i].0
    ensures forall i | 0 <= i < |raw| :: r[i].1 == raw[i].1 || (raw[i].1 == Absent && r[i].1 == Overused)
  {
    seq(|raw|, i requires 0 <= i < |raw| => (raw[i].0, Fix(raw, raw[i].0, raw[i].1)))
  }

  /** A letter has two distinct tags in a round exactly when two of its tiles
      carry different tags. */
  lemma ConflictingIff(h: Hint, c: char)
    ensures Conflicting(h, c) <==>
      exists i, j | 0 <= i < |h| && 0 <= j < |h| :: h[i].0 == c && h[j].0 == c && h[i].1 != h[j].1
  {
    var s := TagsOf(h, c);
    if |s| > 1 {
      var a :| a in s;
      assert |s - {a}| == |s| - 1;
      var b :| b in s - {a};
      var i :| 0 <= i < |h| && h[i].0 == c && h[i].1 == a;
      var j :| 0 <= j < |h| && h[j].0 == c && h[j].1 == b;
      assert h[i].1 != h[j].1;
    }
    if exists i, j | 0 <= i < |h| && 0 <= j < |h| :: h[i].0 == c && h[j].0 == c && h[i].1 != h[j].1 {
      var i, j :| 0 <= i < |h| && 0 <= j < |h| && h[i].0 == c && h[j].0 == c && h[i].1 != h[j].1;
      var pair := {h[i].1, h[j].1};
      assert pair <= s;
      assert |pair| == 2;
      assert |s| == |pair| + |s - pair|;
    }
  }

  /** An `absent` tile is relabelled exactly when the same letter has a tile
      with a different tag in the same round; no other tile changes. */
  lemma RelabelledIff(raw: Hint, i: int)
    requires 0 <= i < |raw|
    ensures Classify(raw)[i].1 != raw[i].1 <==>
      raw[i].1 == Absent && exists j | 0 <= j < |raw| :: raw[j].0 == raw[i].0 && raw[j].1 != Absent
  {
    ConflictingIff(raw, raw[i].0);
  }

  /** After classification no letter carries `absent` on one tile and any
      other tag on another tile of the same round. */
  lemma NoMixedLetter(raw: Hint, i: int, j: int)
    requires 0 <= i < |raw| && 0 <= j < |raw|
    requires raw[i].0 == raw[j].0
    ensures Classify(raw)[i].1 == Absent ==> Classify(raw)[j].1 == Absent
  {
    if Classify(raw)[i].1 == Absent {
      ConflictingIff(raw, raw[i].0);
    }
  }

  /** Classifying a classified round changes nothing. */
  lemma ClassifyIdempotent(raw: Hint)
    ensures Classify(Classify(raw)) == Classify(raw)
  {
    var r := Classify(raw);
    var rr := Classify(r);
    forall i | 0 <= i < |r|
      ensures rr[i] == r[i]
    {
      if r[i].1 == Absent {
        forall j | 0 <= j < |r| && r[j].0 == r[i].0
          ensures r[j].1 == Absent
        {
          NoMixedLetter(raw, i, j);
        }
        ConflictingIff(r, r[i].0);
      }
    }
  }

  /** The game is won once the latest round has every tile `correct`; an
      empty history has not won. */
  function AllCorrect(hints: seq<Hint>): (won: bool)
    ensures won ==> hints != []
  {
    if |hints| == 0 then false
    else
      var last := hints[|hints| - 1];
      forall i | 0 <= i < |last| :: last[i].1 == Correct
  }

  /** Classifying the latest round does not change whether the game is won. */
  lemma WinCheckIgnoresClassification(hints: seq<Hint>)
    requires hints != []
    ensures AllCorrect(hints) <==> AllCorrect(hints[..|hints| - 1] + [Classify(hints[|hints| - 1])])
  {
    var last := hints[|hints| - 1];
    assert (hints[..|hints| - 1] + [Classify(last)])[|hints| - 1] == Classify(last);
  }
}
