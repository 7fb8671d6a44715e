/**
 * The security-audit heuristic of the dictionary-scan plugin
 * (`_calculate_security_score`): a run that ends with exactly the tool's
 * "not found" sentinel scores 80, plus a bonus for the time the run took and a
 * bonus for the number of wordlists it tried, capped at 100; any other result
 * means the password fell and scores 0. Times are whole seconds here.
 */
module Scoring {
  import opened ToolOutput
  import opened Arith

  function SecurityScore(result: string, timeTaken: int, wordlistsChecked: int): (score: int)
    ensures result != KeyNotFound ==> score == 0
    ensures result == KeyNotFound ==> 80 <= score <= 100
  {
    if result == KeyNotFound then
      var timeBonus :=
        if timeTaken > 3600 then 15
        else if timeTaken > 1800 then 10
        else if timeTaken > 900 then 5
        else 0;
      var coverageBonus :=
        if wordlistsChecked > 500 then 15
        else if wordlistsChecked > 300 then 10
        else if wordlistsChecked > 100 then 5
        else 0;
      Min(100, 80 + timeBonus + coverageBonus)
    else
      0
  }

  /** How many of the thresholds `x` strictly exceeds. */
  function Exceeded(x: int, thresholds: seq<int>): nat {
    if thresholds == [] then 0
    else (if x > thresholds[0] then 1 else 0) + Exceeded(x, thresholds[1..])
  }

  /**
   * The tiers are nested, so the single highest tier reached is worth five points
   * for every threshold passed: an independent statement of the score.
   */
  lemma ScoreCountsThresholds(result: string, timeTaken: int, wordlistsChecked: int)
    requires result == KeyNotFound
    ensures SecurityScore(result, timeTaken, wordlistsChecked) ==
            Min(100, 80 + 5 * Exceeded(timeTaken, [900, 1800, 3600])
                        + 5 * Exceeded(wordlistsChecked, [100, 300, 500]))
  {
    ExceededThree(timeTaken, 900, 1800, 3600);
    ExceededThree(wordlistsChecked, 100, 300, 500);
  }

  lemma ExceededThree(x: int, a: int, b: int, c: int)
    requires a < b < c
    ensures Exceeded(x, [a, b, c]) == if x > c then 3 else if x > b then 2 else if x > a then 1 else 0
  {
    assert [a, b, c][1..] == [b, c];
    assert [b, c][1..] == [c];
    assert [c][1..] == [];
    assert Exceeded(x, [c]) == if x > c then 1 else 0;
    assert Exceeded(x, [b, c]) == (if x > b then 1 else 0) + Exceeded(x, [c]);
    assert Exceeded(x, [a, b, c]) == (if x > a then 1 else 0) + Exceeded(x, [b, c]);
  }

  /** A longer or wider unsuccessful run never scores lower. */
  lemma ScoreMonotone(t1: int, w1: int, t2: int, w2: int)
    requires t1 <= t2 && w1 <= w2
    ensures SecurityScore(KeyNotFound, t1, w1) <= SecurityScore(KeyNotFound, t2, w2)
  {
    ScoreCountsThresholds(KeyNotFound, t1, w1);
    ScoreCountsThresholds(KeyNotFound, t2, w2);
    ExceededMonotone(t1, t2, [900, 1800, 3600]);
    ExceededMonotone(w1, w2, [100, 300, 500]);
  }

  lemma {:induction false} ExceededMonotone(x: int, y: int, thresholds: seq<int>)
    requires x <= y
    ensures Exceeded(x, thresholds) <= Exceeded(y, thresholds)
  {
    if thresholds != [] {
      ExceededMonotone(x, y, thresholds[1..]);
    }
  }

  /** The thresholds are strict: exactly 900 s and 100 wordlists earn nothing. */
  lemma ScoreThresholdsStrict()
    ensures SecurityScore(KeyNotFound, 900, 100) == 80
    ensures SecurityScore(KeyNotFound, 901, 101) == 90
    ensures SecurityScore(KeyNotFound, 4000, 600) == 100
    ensures SecurityScore(KeyNotFound, 0, 0) == 80
  {
  }
}
