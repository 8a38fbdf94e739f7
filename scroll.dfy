/** The scroll-progress computation of the Featured Work section
    (`handleScroll` in FRONTEND/src/components/FeaturedWork/FeaturedWork.jsx).
    The container's top edge, its height and the viewport height are measured
    by the page; here they are inputs, and numbers are exact reals. */
module ScrollProgress {

  import opened JsMath

  /** How far the page scrolls while the container is pinned:
      the container's height less the viewport's. */
  function TotalScrollable(containerHeight: real, viewportHeight: real): (t: real)
    ensures t > 0.0 <==> containerHeight > viewportHeight
  {
    containerHeight - viewportHeight
  }

  /** `Math.max(0, Math.min(1, -top / totalScrollable))`. The code does not
      guard the range: a container shorter than the viewport gives a negative
      range and still a number in [0, 1], and only an empty range (a division
      by zero, giving NaN or an infinity) is outside the model. For a positive
      range the result is the fraction of the range already scrolled, held to
      [0, 1]. */
  function Progress(top: real, containerHeight: real, viewportHeight: real): (p: real)
    requires TotalScrollable(containerHeight, viewportHeight) != 0.0
    ensures 0.0 <= p <= 1.0
    ensures var t := TotalScrollable(containerHeight, viewportHeight);
            t > 0.0 ==>
              && (top >= 0.0 ==> p == 0.0)
              && (top <= -t ==> p == 1.0)
              && (-t <= top <= 0.0 ==> p * t == -top)
    ensures var t := TotalScrollable(containerHeight, viewportHeight);
            t < 0.0 ==>
              && (top <= 0.0 ==> p == 0.0)
              && (top >= -t ==> p == 1.0)
              && (0.0 <= top <= -t ==> p * -t == top)
  {
    var total := TotalScrollable(containerHeight, viewportHeight);
    var raw := -top / total;
    assert raw * total == -top;
    SignedRatioBounds(top, total);
    Max(0.0, Min(1.0, raw))
  }

  /** A container shorter than the viewport is not held at 0: with a height
      of 500 in a viewport of 800, a top edge 150 below the viewport's top
      gives one half. */
  lemma ShortContainerProgress()
    ensures TotalScrollable(500.0, 800.0) == -300.0
    ensures Progress(150.0, 500.0, 800.0) == 0.5
    ensures Progress(-150.0, 500.0, 800.0) == 0.0
  {
    assert -150.0 / -300.0 == 0.5;
  }

  /** The boundary values: the container's top at the viewport's top gives 0,
      scrolled by the whole range gives 1, by half the range gives one half,
      and past either end the value is held. */
  lemma ProgressBoundaries(containerHeight: real, viewportHeight: real)
    requires TotalScrollable(containerHeight, viewportHeight) > 0.0
    ensures var t := TotalScrollable(containerHeight, viewportHeight);
            && Progress(0.0, containerHeight, viewportHeight) == 0.0
            && Progress(-t, containerHeight, viewportHeight) == 1.0
            && Progress(-t / 2.0, containerHeight, viewportHeight) == 0.5
            && Progress(-2.5 * t, containerHeight, viewportHeight) == 1.0
            && Progress(t / 4.0, containerHeight, viewportHeight) == 0.0
  {
    var t := TotalScrollable(containerHeight, viewportHeight);
    assert -(-t) / t == 1.0;
    assert -(-t / 2.0) / t == 0.5;
  }

  /** Scrolling down (the container's top moving up) never lowers the progress,
      and scrolling back up never raises it: no history is involved. */
  lemma ProgressMonotone(top1: real, top2: real, containerHeight: real, viewportHeight: real)
    requires TotalScrollable(containerHeight, viewportHeight) > 0.0
    requires top2 <= top1
    ensures Progress(top1, containerHeight, viewportHeight) <= Progress(top2, containerHeight, viewportHeight)
  {
    var t := TotalScrollable(containerHeight, viewportHeight);
    assert -top1 / t <= -top2 / t by {
      assert -top1 <= -top2;
      DivideMonotone(-top1, -top2, t);
    }
  }

  /** `-top / total` for a range of either sign, stated as a ratio over the
      range's size. */
  lemma SignedRatioBounds(top: real, total: real)
    requires total != 0.0
    ensures total > 0.0 && -top >= total ==> -top / total >= 1.0
    ensures total > 0.0 && -top <= 0.0 ==> -top / total <= 0.0
    ensures total > 0.0 && 0.0 <= -top <= total ==> 0.0 <= -top / total <= 1.0
    ensures total < 0.0 && top >= -total ==> -top / total >= 1.0
    ensures total < 0.0 && top <= 0.0 ==> -top / total <= 0.0
    ensures total < 0.0 && 0.0 <= top <= -total ==> 0.0 <= -top / total <= 1.0
  {
    if total > 0.0 {
      RatioBounds(-top, total);
    } else {
      assert -top / total == top / -total;
      RatioBounds(top, -total);
    }
  }

  lemma RatioBounds(a: real, t: real)
    requires t > 0.0
    ensures a >= t ==> a / t >= 1.0
    ensures a <= 0.0 ==> a / t <= 0.0
    ensures 0.0 <= a <= t ==> 0.0 <= a / t <= 1.0
  {
    if a >= t { DivideMonotone(t, a, t); }
    if a <= 0.0 { DivideMonotone(a, 0.0, t); }
    assert t / t == 1.0;
    if 0.0 <= a <= t { DivideMonotone(0.0, a, t); DivideMonotone(a, t, t); }
  }

  /** Within the range the mapping can be inverted: every progress in [0, 1]
      is produced by exactly the top offset `-progress * totalScrollable`. */
  lemma ProgressInverse(p: real, containerHeight: real, viewportHeight: real)
    requires TotalScrollable(containerHeight, viewportHeight) > 0.0
    requires 0.0 <= p <= 1.0
    ensures Progress(-p * TotalScrollable(containerHeight, viewportHeight), containerHeight, viewportHeight) == p
  {
    var t := TotalScrollable(containerHeight, viewportHeight);
    assert -(-p * t) / t == p;
  }
}
