/** How many instants of a well-spaced sequence can fall into a window. */
module Spacing {

  ghost predicate Spaced(times: seq<real>, gap: real) {
    forall i :: 1 <= i < |times| ==> times[i - 1] + gap <= times[i]
  }

  function CountWithin(times: seq<real>, lo: real, hi: real): nat {
    if times == [] then 0
    else
      var last := times[|times| - 1];
      CountWithin(times[..|times| - 1], lo, hi) + if lo <= last <= hi then 1 else 0
  }

  lemma OneMoreGap(n: nat, gap: real)
    ensures n as real * gap == (n - 1) as real * gap + gap
  {
    assert n as real == (n - 1) as real + 1.0;
  }

  /** The instants of the window stretch over one gap less than there are instants. */
  lemma {:induction false} SpacedStretch(times: seq<real>, gap: real, lo: real, hi: real)
    requires gap > 0.0 && Spaced(times, gap)
    ensures
      var n := CountWithin(times, lo, hi);
      n == 0
      || ((n - 1) as real * gap <= hi - lo && (n - 1) as real * gap <= times[|times| - 1] - lo)
  {
    if times != [] {
      var init, n := times[..|times| - 1], CountWithin(times, lo, hi);
      SpacedStretch(init, gap, lo, hi);
      var k := CountWithin(init, lo, hi);
      if k != 0 {
        assert init[|init| - 1] == times[|times| - 2];
        OneMoreGap(k, gap);
      }
    }
  }

  lemma QuotientBound(x: real, y: real, gap: real)
    requires gap > 0.0 && x * gap <= y
    ensures x <= y / gap
  {
    var q := y / gap;
    assert q * gap == y;
    if q < x {
      assert (x - q) * gap > 0.0;
    }
  }

  lemma WindowBound(times: seq<real>, gap: real, lo: real, hi: real)
    requires gap > 0.0 && Spaced(times, gap) && lo <= hi
    ensures CountWithin(times, lo, hi) <= ((hi - lo) / gap).Floor + 1
  {
    SpacedStretch(times, gap, lo, hi);
    var n := CountWithin(times, lo, hi);
    if n == 0 {
      QuotientBound(0.0, hi - lo, gap);
    } else {
      QuotientBound((n - 1) as real, hi - lo, gap);
    }
  }
}
