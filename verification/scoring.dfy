/**
 The score and level rule applied after each line clear: each cleared line
 is worth 100 points times the current level, and the level goes up by one
 when the new score reaches 1000 times the current level.
 */
module Scoring {

  const PointsPerLine: int := 100
  const LevelThreshold: int := 1000

  datatype Progress = Progress(score: int, level: int, levelUp: bool)

  /** Score and level after a clear of `lines` rows. */
  function AddScore(score: int, level: int, lines: nat): (r: Progress)
    requires score >= 0 && level >= 1
    ensures r.score - score == lines * PointsPerLine * level
    ensures r.score >= score && (r.score == score <==> lines == 0)
    ensures r.level == level || r.level == level + 1
    ensures r.levelUp <==> r.level == level + 1
    ensures r.levelUp <==> lines > 0 && r.score >= level * LevelThreshold
  {
    if lines > 0 then
      var s := score + lines * PointsPerLine * level;
      if s >= level * LevelThreshold then Progress(s, level + 1, true)
      else Progress(s, level, false)
    else Progress(score, level, false)
  }

  /** What the rule keeps true from the start of a game (score 0, level 1):
      the score is a non-negative multiple of 100 and the level never runs
      ahead of it, level L needing a score of at least 1000 * (L - 1). */
  predicate Consistent(score: int, level: int) {
    && score >= 0
    && level >= 1
    && score % PointsPerLine == 0
    && score >= (level - 1) * LevelThreshold
  }

  lemma AddScorePreservesConsistent(score: int, level: int, lines: nat)
    requires score >= 0 && level >= 1
    ensures Consistent(score, level) ==>
      Consistent(AddScore(score, level, lines).score, AddScore(score, level, lines).level)
  {
    if Consistent(score, level) {
      var r := AddScore(score, level, lines);
      var q := lines * level;
      assert lines * PointsPerLine * level == PointsPerLine * q;
      var a := score / PointsPerLine;
      assert score == PointsPerLine * a;
      assert r.score == PointsPerLine * (a + q);
      MultipleOfHundred(a + q);
    }
  }

  lemma MultipleOfHundred(n: int)
    ensures (PointsPerLine * n) % PointsPerLine == 0
  {
  }
}
