/**
 Turning a nearest-neighbour distance into the relevance score shown to the
 recruiter: `round(1 / (1 + d), 4)`.

 Distances and scores are exact reals. Python's `round(x, 4)` rounds the exact
 value of `x` to the nearest multiple of 1/10000 and, on an exact tie, to the
 even neighbour; `Round4` does the same on reals.
 */
module Scoring {

  /** The similarity before rounding. */
  function RawScore(d: real): (r: real)
    requires d >= 0.0
    ensures 0.0 < r <= 1.0
    ensures r == 1.0 <==> d == 0.0
  {
    1.0 / (1.0 + d)
  }

  /** A larger distance never gives a larger raw score, and a strictly larger
      distance gives a strictly smaller one. */
  lemma RawScoreAntitone(d1: real, d2: real)
    requires 0.0 <= d1 <= d2
    ensures RawScore(d2) <= RawScore(d1)
    ensures d1 < d2 ==> RawScore(d2) < RawScore(d1)
  {
    var p := (1.0 + d1) * (1.0 + d2);
    assert p > 0.0;
    assert RawScore(d1) - RawScore(d2) == (d2 - d1) / p;
  }

  /** Rounds to the nearest integer, ties to the even one. */
  function RoundHalfEven(y: real): (n: int)
    ensures y - 0.5 <= n as real <= y + 0.5
    ensures (n as real - y == 0.5 || y - n as real == 0.5) ==> n % 2 == 0
  {
    var f := y.Floor;
    var frac := y - f as real;
    if frac < 0.5 then f
    else if frac > 0.5 then f + 1
    else if f % 2 == 0 then f
    else f + 1
  }

  lemma RoundHalfEvenMonotone(x: real, y: real)
    requires x <= y
    ensures RoundHalfEven(x) <= RoundHalfEven(y)
  {
    var fx, fy := x.Floor, y.Floor;
    if fx == fy {
      // same integer part: the fractional parts are ordered like x and y
    } else {
      assert fx < fy;
      assert RoundHalfEven(x) <= fx + 1;
      assert fy <= RoundHalfEven(y);
    }
  }

  lemma RoundHalfEvenOfInt(n: int)
    ensures RoundHalfEven(n as real) == n
  {
    assert (n as real).Floor == n;
  }

  /** `round(x, 4)` */
  function Round4(x: real): (r: real)
    ensures x - 0.00005 <= r <= x + 0.00005
  {
    RoundHalfEven(x * 10000.0) as real / 10000.0
  }

  /** `round(x, 4)` has at most four decimal places. */
  lemma Round4Decimals(x: real)
    ensures (Round4(x) * 10000.0).Floor as real == Round4(x) * 10000.0
  {
    var n := RoundHalfEven(x * 10000.0);
    assert Round4(x) * 10000.0 == n as real;
  }

  lemma Round4Monotone(x: real, y: real)
    requires x <= y
    ensures Round4(x) <= Round4(y)
  {
    RoundHalfEvenMonotone(x * 10000.0, y * 10000.0);
  }

  /** The score of a candidate at distance `d`. */
  function Score(d: real): (s: real)
    requires d >= 0.0
    ensures 0.0 <= s <= 1.0
    ensures d == 0.0 ==> s == 1.0
    ensures RawScore(d) - 0.00005 <= s <= RawScore(d) + 0.00005
  {
    var raw := RawScore(d);
    Round4Monotone(0.0, raw);
    Round4Monotone(raw, 1.0);
    RoundHalfEvenOfInt(0);
    RoundHalfEvenOfInt(10000);
    Round4(raw)
  }

  /** Scores fall (weakly) as distance grows: candidates visited in
      ascending distance order are visited in descending score order. */
  lemma ScoreAntitone(d1: real, d2: real)
    requires 0.0 <= d1 <= d2
    ensures Score(d2) <= Score(d1)
  {
    RawScoreAntitone(d1, d2);
    Round4Monotone(RawScore(d2), RawScore(d1));
  }
}
