/** Ratios in exact real arithmetic, where the source divides floating-point numbers. */
module Reals {

  function Scaled(part: real, whole: real, width: real): real
    requires whole > 0.0
  {
    part / whole * width
  }

  function Percent(part: real, whole: real): real
    requires whole > 0.0
  {
    Scaled(part, whole, 100.0)
  }

  lemma ScaledTimes(part: real, whole: real, width: real)
    requires whole > 0.0
    ensures Scaled(part, whole, width) * whole == part * width
  {
    var q := part / whole;
    assert q * whole == part;
    assert q * width * whole == q * whole * width;
  }

  lemma TimesCancels(a: real, b: real, c: real)
    requires c > 0.0
    ensures a * c <= b * c <==> a <= b
    ensures a * c == b * c <==> a == b
  {
    if a < b {
      assert (b - a) * c > 0.0;
    } else if a > b {
      assert (a - b) * c > 0.0;
    }
  }

  lemma ScaledIff(part: real, whole: real, width: real, p: real)
    requires whole > 0.0
    ensures Scaled(part, whole, width) <= p <==> part * width <= p * whole
    ensures p <= Scaled(part, whole, width) <==> p * whole <= part * width
    ensures Scaled(part, whole, width) == p <==> part * width == p * whole
  {
    ScaledTimes(part, whole, width);
    TimesCancels(Scaled(part, whole, width), p, whole);
    TimesCancels(p, Scaled(part, whole, width), whole);
  }

  lemma PercentAdds(x: real, y: real, whole: real)
    requires whole > 0.0
    ensures Percent(x, whole) + Percent(y, whole) == Percent(x + y, whole)
  {
    ScaledTimes(x, whole, 100.0);
    ScaledTimes(y, whole, 100.0);
    ScaledIff(x + y, whole, 100.0, Percent(x, whole) + Percent(y, whole));
  }

  /** The sum of xs[k] * ws[k]. */
  function Dot(xs: seq<real>, ws: seq<real>): real
    requires |xs| == |ws|
  {
    if xs == [] then 0.0 else
      var n := |xs| - 1;
      Dot(xs[..n], ws[..n]) + xs[n] * ws[n]
  }

  ghost predicate IsStep(x: real, w: real, y: real, y': real) {
    x * w == y' - y
  }

  /** When every product is a difference of neighbours, only the ends remain. */
  lemma {:induction false} DotTelescopes(xs: seq<real>, ws: seq<real>, ys: seq<real>)
    requires |xs| == |ws| && |ys| == |xs| + 1
    requires forall k :: 0 <= k < |xs| ==> IsStep(xs[k], ws[k], ys[k], ys[k + 1])
    ensures Dot(xs, ws) == ys[|xs|] - ys[0]
  {
    if xs == [] {
    } else {
      var n := |xs| - 1;
      DotTelescopes(xs[..n], ws[..n], ys[..n + 1]);
    }
  }
}
