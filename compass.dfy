/**
 * The scroll "compass": the section offsets of the tracked checkpoints and the
 * mapping from the probe position (the vertical centre of the viewport) to the
 * highlighted checkpoint and the position of the tick, in percent.
 *
 * Numbers are Dafny reals; the rounding of JavaScript doubles is not modelled.
 */
module Compass {
  import opened Wrappers

  /** What the renderer receives: the checkpoint to highlight and the tick position (0 to 100). */
  datatype Progress = Progress(activeIdx: nat, percent: real)

  // ---------------------------------------------------------------------------
  // Section offsets
  // ---------------------------------------------------------------------------

  /**
   * The document offset of one checkpoint's section: the top of its bounding
   * rectangle (relative to the viewport) plus the scroll position, or 0 when
   * the selector matches no element.
   */
  function DocumentOffset(rectTop: Option<real>, scrollY: real): real
  {
    match rectTop
    case Some(top) => top + scrollY
    case None => 0.0
  }

  /**
   * One offset per checkpoint, in checkpoint order. `rectTops[i]` is the
   * bounding-rectangle top of the element the i-th selector finds, if any.
   */
  function SectionOffsets(rectTops: seq<Option<real>>, scrollY: real): (offsets: seq<real>)
    ensures |offsets| == |rectTops|
    ensures forall i :: 0 <= i < |rectTops| ==> offsets[i] == DocumentOffset(rectTops[i], scrollY)
  {
    if rectTops == [] then []
    else [DocumentOffset(rectTops[0], scrollY)] + SectionOffsets(rectTops[1..], scrollY)
  }

  /** The rectangle tops the page reports at scroll position `scrollY` for sections lying at `docTops`. */
  function RectTopsAt(docTops: seq<real>, scrollY: real): (rectTops: seq<Option<real>>)
    ensures |rectTops| == |docTops|
    ensures forall i :: 0 <= i < |docTops| ==> rectTops[i] == Some(docTops[i] - scrollY)
  {
    seq(|docTops|, i requires 0 <= i < |docTops| => Some(docTops[i] - scrollY))
  }

  /** When every section exists, the offsets are the sections' document positions, whatever the scroll position. */
  lemma OffsetsIndependentOfScroll(docTops: seq<real>, scrollY: real)
    ensures SectionOffsets(RectTopsAt(docTops, scrollY), scrollY) == docTops
  {
    var offsets := SectionOffsets(RectTopsAt(docTops, scrollY), scrollY);
    assert forall i :: 0 <= i < |docTops| ==> offsets[i] == docTops[i];
  }

  predicate NonDecreasing(offsets: seq<real>)
  {
    forall i, j :: 0 <= i <= j < |offsets| ==> offsets[i] <= offsets[j]
  }

  predicate StrictlyIncreasing(offsets: seq<real>)
  {
    forall i, j :: 0 <= i < j < |offsets| ==> offsets[i] < offsets[j]
  }

  /**
   * The fallback offset 0 of a missing section breaks the document order as
   * soon as an earlier section lies below the top of the document.
   */
  lemma MissingSectionBreaksOrder(rectTops: seq<Option<real>>, scrollY: real, i: nat, j: nat)
    requires i < j < |rectTops|
    requires rectTops[i].Some? && rectTops[i].value + scrollY > 0.0
    requires rectTops[j].None?
    ensures !NonDecreasing(SectionOffsets(rectTops, scrollY))
  {
    var offsets := SectionOffsets(rectTops, scrollY);
    assert offsets[i] > 0.0 == offsets[j];
  }

  // ---------------------------------------------------------------------------
  // Progress mapping
  // ---------------------------------------------------------------------------

  /** The probe position: the vertical centre of the viewport, in document coordinates. */
  function Probe(scrollY: real, innerHeight: real): (scroll: real)
    ensures innerHeight >= 0.0 ==> scrollY <= scroll <= scrollY + innerHeight
  {
    scrollY + innerHeight / 2.0
  }

  /** Segment `i` runs from `offsets[i]` (included) to `offsets[i + 1]` (excluded) and holds `scroll`. */
  predicate Brackets(offsets: seq<real>, scroll: real, i: int)
    ensures Brackets(offsets, scroll, i) ==> 0 <= i < |offsets| - 1 && offsets[i] < offsets[i + 1]
  {
    0 <= i < |offsets| - 1 && offsets[i] <= scroll < offsets[i + 1]
  }

  /** A segment that brackets anything has positive length: the division by its span is never by zero. */
  lemma BracketedSpanPositive(offsets: seq<real>, scroll: real, i: int)
    requires Brackets(offsets, scroll, i)
    ensures offsets[i + 1] - offsets[i] > 0.0 && |offsets| >= 2
  {
  }

  /** The share of the percentage scale given to each of the `n - 1` segments. */
  function Share(n: nat): (share: real)
    requires n >= 2
    ensures share > 0.0 && (n - 1) as real * share == 100.0
  {
    100.0 / (n - 1) as real
  }

  /** The first segment, at index `from` or later, that brackets `scroll`. */
  function FirstBracket(offsets: seq<real>, scroll: real, from: nat): (r: Option<nat>)
    decreases |offsets| - from
    ensures r.Some? ==> from <= r.value && Brackets(offsets, scroll, r.value)
    ensures r.Some? ==> forall j :: from <= j < r.value ==> !Brackets(offsets, scroll, j)
    ensures r.None? ==> forall j :: from <= j ==> !Brackets(offsets, scroll, j)
  {
    if from + 1 >= |offsets| then None
    else if Brackets(offsets, scroll, from) then Some(from)
    else FirstBracket(offsets, scroll, from + 1)
  }

  lemma FractionInUnit(a: real, b: real)
    requires 0.0 <= a < b
    ensures 0.0 <= a / b < 1.0
  {
    assert a / b * b == a;
  }

  lemma ScaleWithin(i: real, f: real, k: real)
    requires 0.0 <= f < 1.0 && k > 0.0
    ensures i * k <= (i + f) * k < (i + 1.0) * k
  {
    assert (i + f) * k == i * k + f * k;
    assert (i + 1.0) * k == i * k + k;
    assert f * k < k;
  }

  /**
   * The linear piece of segment `i`: the segment's own fraction, scaled into
   * the segment's equal share of the percentage scale. A probe inside the
   * segment lands inside that share.
   */
  function Interpolate(offsets: seq<real>, i: nat, scroll: real): (percent: real)
    requires i < |offsets| - 1 && offsets[i] < offsets[i + 1]
    ensures offsets[i] <= scroll < offsets[i + 1] ==>
              i as real * Share(|offsets|) <= percent < (i + 1) as real * Share(|offsets|)
  {
    var sectionSpan := offsets[i + 1] - offsets[i];
    var sectionScroll := scroll - offsets[i];
    var k := Share(|offsets|);
    assert offsets[i] <= scroll < offsets[i + 1] ==>
             i as real * k <= (i as real + sectionScroll / sectionSpan) * k < (i + 1) as real * k by {
      if offsets[i] <= scroll < offsets[i + 1] {
        FractionInUnit(sectionScroll, sectionSpan);
        ScaleWithin(i as real, sectionScroll / sectionSpan, k);
      }
    }
    (i as real + sectionScroll / sectionSpan) * k
  }

  /**
   * The compass state for the section offsets `offsets` and the probe
   * position `scroll`, branch for branch as the scroll handler computes it.
   * With no offsets at all every comparison with the missing first and last
   * offset is false and the search loop runs zero times.
   */
  function ProgressAt(offsets: seq<real>, scroll: real): (r: Progress)
    ensures 0.0 <= r.percent <= 100.0
    ensures |offsets| > 0 ==> r.activeIdx < |offsets|
    ensures |offsets| > 0 && scroll <= offsets[0] ==> r == Progress(0, 0.0)
    ensures |offsets| > 0 && offsets[0] < scroll && offsets[|offsets| - 1] <= scroll ==>
              r == Progress(|offsets| - 1, 100.0)
  {
    var n := |offsets|;
    if n == 0 || scroll <= offsets[0] then Progress(0, 0.0)
    else if scroll >= offsets[n - 1] then Progress(n - 1, 100.0)
    else match FirstBracket(offsets, scroll, 0)
      case Some(i) =>
        assert i as real * Share(n) >= 0.0 && (i + 1) as real * Share(n) <= 100.0 by {
          assert (i + 1) as real * Share(n) <= (n - 1) as real * Share(n);
        }
        Progress(i, Interpolate(offsets, i, scroll))
      case None => Progress(0, 0.0)
  }

  /**
   * The scroll handler's computation (without the deferred rendering):
   * clamp below the first offset, clamp at or above the last, otherwise
   * search the first segment bracketing the probe and interpolate in it.
   */
  method MapScroll(offsets: seq<real>, scroll: real) returns (activeIdx: nat, percent: real)
    ensures Progress(activeIdx, percent) == ProgressAt(offsets, scroll)
  {
    var n := |offsets|;
    activeIdx := 0;
    percent := 0.0;
    if n == 0 {
      // comparisons with the missing offsets are all false; the loop has no iteration
    } else if scroll <= offsets[0] {
      percent := 0.0;
    } else if scroll >= offsets[n - 1] {
      percent := 100.0;
      activeIdx := n - 1;
    } else {
      var i := 0;
      while i < n - 1
        invariant 0 <= i <= n - 1
        invariant FirstBracket(offsets, scroll, 0) == FirstBracket(offsets, scroll, i)
        invariant activeIdx == 0 && percent == 0.0
      {
        if scroll >= offsets[i] && scroll < offsets[i + 1] {
          activeIdx := i;
          var sectionSpan := offsets[i + 1] - offsets[i];
          var sectionScroll := scroll - offsets[i];
          percent := (i as real + sectionScroll / sectionSpan) * (100.0 / (n - 1) as real);
          break;
        }
        i := i + 1;
      }
    }
  }

  /**
   * `updateCompassOnScroll` up to the point where it hands its result to the
   * renderer: read the offsets, take the viewport centre as the probe, map it.
   */
  method UpdateCompassOnScroll(rectTops: seq<Option<real>>, scrollY: real, innerHeight: real)
    returns (activeIdx: nat, percent: real)
    ensures Progress(activeIdx, percent) == ProgressAt(SectionOffsets(rectTops, scrollY), Probe(scrollY, innerHeight))
  {
    var offsets := SectionOffsets(rectTops, scrollY);
    var scroll := scrollY + innerHeight / 2.0;
    activeIdx, percent := MapScroll(offsets, scroll);
  }

  // ---------------------------------------------------------------------------
  // Properties of the mapping
  // ---------------------------------------------------------------------------

  /** Between the first and the last offset some segment always brackets the probe, for any offsets. */
  lemma {:induction false} BracketFrom(offsets: seq<real>, scroll: real, i: nat)
    requires i < |offsets| - 1
    requires offsets[i] <= scroll < offsets[|offsets| - 1]
    ensures FirstBracket(offsets, scroll, i).Some?
    decreases |offsets| - i
  {
    if !Brackets(offsets, scroll, i) {
      BracketFrom(offsets, scroll, i + 1);
    }
  }

  /**
   * Strictly between the extremes, the highlighted checkpoint is the first
   * segment that brackets the probe and the percentage is the interpolation
   * inside it. In particular the fallback "nothing found, keep 0" is never
   * taken, whether the offsets are sorted or not.
   */
  lemma AlwaysBracketed(offsets: seq<real>, scroll: real)
    requires |offsets| > 0 && offsets[0] < scroll < offsets[|offsets| - 1]
    ensures var r := ProgressAt(offsets, scroll);
            && Brackets(offsets, scroll, r.activeIdx)
            && (forall j :: 0 <= j < r.activeIdx ==> !Brackets(offsets, scroll, j))
            && r.percent == Interpolate(offsets, r.activeIdx, scroll)
  {
    BracketFrom(offsets, scroll, 0);
  }

  /** The same, with the interpolation written out: fraction of the segment plus its index, in shares of 100 / (n - 1). */
  lemma ProgressInterpolates(offsets: seq<real>, scroll: real)
    requires |offsets| > 0 && offsets[0] < scroll < offsets[|offsets| - 1]
    ensures var i := ProgressAt(offsets, scroll).activeIdx;
            && Brackets(offsets, scroll, i)
            && ProgressAt(offsets, scroll).percent
                 == (i as real + (scroll - offsets[i]) / (offsets[i + 1] - offsets[i])) * (100.0 / (|offsets| - 1) as real)
  {
    AlwaysBracketed(offsets, scroll);
  }

  /** For ordered offsets, a lower probe is bracketed by an earlier (or the same) segment. */
  lemma BracketOrder(offsets: seq<real>, s1: real, s2: real, i1: int, i2: int)
    requires NonDecreasing(offsets) && s1 <= s2
    requires Brackets(offsets, s1, i1) && Brackets(offsets, s2, i2)
    ensures i1 <= i2
  {
  }

  /** For ordered offsets at most one segment brackets a probe. */
  lemma BracketUnique(offsets: seq<real>, scroll: real, i: int, j: int)
    requires NonDecreasing(offsets)
    requires Brackets(offsets, scroll, i) && Brackets(offsets, scroll, j)
    ensures i == j
  {
    BracketOrder(offsets, scroll, scroll, i, j);
    BracketOrder(offsets, scroll, scroll, j, i);
  }

  /** A value below the end of share `a` is below a value from share `b`, for `a < b`. */
  lemma ShareOrder(a: nat, b: nat, k: real, p1: real, p2: real)
    requires a < b && k > 0.0
    requires p1 < (a + 1) as real * k && b as real * k <= p2
    ensures p1 <= p2
  {
    assert (a + 1) as real * k <= b as real * k;
  }

  /** Inside one segment the linear piece never decreases. */
  lemma SameSegmentMonotone(offsets: seq<real>, i: nat, s1: real, s2: real, p1: real, p2: real)
    requires i < |offsets| - 1 && offsets[i] < offsets[i + 1] && s1 <= s2
    requires p1 == Interpolate(offsets, i, s1) && p2 == Interpolate(offsets, i, s2)
    ensures p1 <= p2
  {
    var span := offsets[i + 1] - offsets[i];
    var f1, f2 := (s1 - offsets[i]) / span, (s2 - offsets[i]) / span;
    assert f1 <= f2;
    var k := Share(|offsets|);
    assert (i as real + f1) * k <= (i as real + f2) * k;
  }

  /** A probe in a later segment lies in a higher share. */
  lemma LaterSegmentHigher(offsets: seq<real>, i1: nat, i2: nat, s1: real, s2: real, p1: real, p2: real)
    requires i1 < i2 < |offsets| - 1
    requires Brackets(offsets, s1, i1) && Brackets(offsets, s2, i2)
    requires p1 == Interpolate(offsets, i1, s1) && p2 == Interpolate(offsets, i2, s2)
    ensures p1 <= p2
  {
    ShareOrder(i1, i2, Share(|offsets|), p1, p2);
  }

  /** Strictly between the extremes, the mapping never decreases for ordered offsets. */
  lemma MiddleMonotone(offsets: seq<real>, s1: real, s2: real)
    requires NonDecreasing(offsets) && s1 <= s2
    requires |offsets| > 0 && offsets[0] < s1 && s2 < offsets[|offsets| - 1]
    ensures ProgressAt(offsets, s1).percent <= ProgressAt(offsets, s2).percent
    ensures ProgressAt(offsets, s1).activeIdx <= ProgressAt(offsets, s2).activeIdx
  {
    AlwaysBracketed(offsets, s1);
    AlwaysBracketed(offsets, s2);
    var i1 := ProgressAt(offsets, s1).activeIdx;
    var i2 := ProgressAt(offsets, s2).activeIdx;
    BracketOrder(offsets, s1, s2, i1, i2);
    var p1, p2 := ProgressAt(offsets, s1).percent, ProgressAt(offsets, s2).percent;
    assert p1 == Interpolate(offsets, i1, s1);
    assert p2 == Interpolate(offsets, i2, s2);
    if i1 == i2 {
      SameSegmentMonotone(offsets, i1, s1, s2, p1, p2);
    } else {
      LaterSegmentHigher(offsets, i1, i2, s1, s2, p1, p2);
    }
  }

  /** For ordered offsets, moving the probe down the page never moves the tick or the highlight back. */
  lemma ProgressMonotone(offsets: seq<real>, s1: real, s2: real)
    requires NonDecreasing(offsets)
    requires s1 <= s2
    ensures ProgressAt(offsets, s1).percent <= ProgressAt(offsets, s2).percent
    ensures ProgressAt(offsets, s1).activeIdx <= ProgressAt(offsets, s2).activeIdx
  {
    var n := |offsets|;
    if n > 0 && offsets[0] < s1 && s2 < offsets[n - 1] {
      MiddleMonotone(offsets, s1, s2);
    }
  }

  /** For strictly increasing offsets, a probe exactly at checkpoint `j` highlights it with the tick at `j` shares. */
  lemma ProgressAtCheckpoint(offsets: seq<real>, j: nat)
    requires StrictlyIncreasing(offsets) && |offsets| >= 2 && j < |offsets|
    ensures ProgressAt(offsets, offsets[j]) == Progress(j, j as real * Share(|offsets|))
  {
    var n := |offsets|;
    if 0 < j < n - 1 {
      AlwaysBracketed(offsets, offsets[j]);
      BracketUnique(offsets, offsets[j], ProgressAt(offsets, offsets[j]).activeIdx, j);
    }
  }

  /**
   * For strictly increasing offsets the percentage is continuous at every
   * checkpoint: the linear piece of segment `i` meets the value the mapping
   * takes at both of its ends.
   */
  lemma ContinuousAtCheckpoints(offsets: seq<real>, i: nat)
    requires StrictlyIncreasing(offsets) && i < |offsets| - 1
    ensures Interpolate(offsets, i, offsets[i]) == ProgressAt(offsets, offsets[i]).percent
    ensures Interpolate(offsets, i, offsets[i + 1]) == ProgressAt(offsets, offsets[i + 1]).percent
  {
    ProgressAtCheckpoint(offsets, i);
    ProgressAtCheckpoint(offsets, i + 1);
    var k := Share(|offsets|);
    EndFractions(offsets[i], offsets[i + 1]);
    assert Interpolate(offsets, i, offsets[i]) == (i as real + 0.0) * k;
    assert Interpolate(offsets, i, offsets[i + 1]) == (i as real + 1.0) * k;
  }

  lemma EndFractions(lo: real, hi: real)
    requires lo < hi
    ensures (lo - lo) / (hi - lo) == 0.0 && (hi - lo) / (hi - lo) == 1.0
  {
  }

  /** The worked example of four sections at 0, 100, 300 and 600. */
  lemma FourSectionExample()
    ensures ProgressAt([0.0, 100.0, 300.0, 600.0], 150.0) == Progress(1, 125.0 / 3.0)
    ensures ProgressAt([0.0, 100.0, 300.0, 600.0], 0.0) == Progress(0, 0.0)
    ensures ProgressAt([0.0, 100.0, 300.0, 600.0], 700.0) == Progress(3, 100.0)
  {
    var offsets := [0.0, 100.0, 300.0, 600.0];
    assert !Brackets(offsets, 150.0, 0) && Brackets(offsets, 150.0, 1);
    assert FirstBracket(offsets, 150.0, 0) == Some(1);
  }
}
