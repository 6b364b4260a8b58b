/** Shares in percent, as real numbers. */
module Percent {

  /** `part / whole * 100`, or 0 when `whole` is 0. */
  function Percentage(part: nat, whole: nat): (r: real)
    ensures whole > 0 ==> r * whole as real == part as real * 100.0
    ensures whole == 0 ==> r == 0.0
  {
    if whole == 0 then 0.0 else part as real / whole as real * 100.0
  }

  /** A share lies between 0 and 100 when part <= whole, and is 100 exactly for the whole. */
  lemma PercentageBounds(part: nat, whole: nat)
    requires part <= whole
    ensures 0.0 <= Percentage(part, whole) <= 100.0
    ensures Percentage(part, whole) == 100.0 <==> 0 < whole && part == whole
  {
    if whole > 0 {
      var a, f := part as real, whole as real;
      assert Percentage(part, whole) == a / f * 100.0;
      assert a / f <= 1.0;
      if a / f == 1.0 { assert a == (a / f) * f; }
    }
  }

  /** Shares of one whole add up like their parts. */
  lemma PercentageAdds(a: nat, b: nat, whole: nat)
    requires whole > 0
    ensures Percentage(a, whole) + Percentage(b, whole) == Percentage(a + b, whole)
  {
    var x, y, w := a as real, b as real, whole as real;
    assert x / w + y / w == (x + y) / w;
  }
}
