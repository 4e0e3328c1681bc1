/** `Math.round(p / t)` for integer p and positive integer t: the nearest integer,
    with halves rounded up (towards positive infinity), as JavaScript does. */
module Rounding {

  function RoundDiv(p: int, t: int): (r: int)
    requires t > 0
    ensures 2 * t * r <= 2 * p + t < 2 * t * r + 2 * t
  {
    (2 * p + t) / (2 * t)
  }

  /** `Math.round((part / total) * 100)`, the rounded percentage. */
  function Percent(part: int, total: int): (r: int)
    requires total > 0
    ensures 2 * total * r <= 200 * part + total < 2 * total * r + 2 * total
  {
    RoundDiv(part * 100, total)
  }

  /** Dividing both sides of `t * x <= t * y` by a positive t. */
  lemma CancelFactor(t: int, x: int, y: int)
    requires t > 0 && t * x <= t * y
    ensures x <= y
  {
    assert t * (y - x) >= 0;
  }

  /** Rounding p / t for p between 0 and 100 t gives a value between 0 and 100. */
  lemma RoundDivBounds(p: int, t: int)
    requires t > 0 && 0 <= p <= 100 * t
    ensures 0 <= RoundDiv(p, t) <= 100
  {
    var r := RoundDiv(p, t);
    assert t * (2 * r) <= t * 201;
    CancelFactor(t, 2 * r, 201);
    assert t * (-2) < t * (2 * r);
    CancelFactor(t, -1, 2 * r);
  }

  /** A part between nothing and the whole gives a percentage between 0 and 100. */
  lemma PercentBounds(part: int, total: int)
    requires total > 0 && 0 <= part <= total
    ensures 0 <= Percent(part, total) <= 100
  {
    RoundDivBounds(part * 100, total);
  }

  /** The whole is 100 percent and nothing is 0 percent. */
  lemma PercentEnds(total: int)
    requires total > 0
    ensures Percent(total, total) == 100 && Percent(0, total) == 0
  {
    var r := Percent(total, total);
    assert total * (2 * r) <= total * 201 && total * 199 <= total * (2 * r);
    CancelFactor(total, 2 * r, 201);
    CancelFactor(total, 199, 2 * r);
    var z := Percent(0, total);
    assert total * (2 * z) <= total * 1 && total * (-1) <= total * (2 * z);
    CancelFactor(total, 2 * z, 1);
    CancelFactor(total, -1, 2 * z);
  }
}
