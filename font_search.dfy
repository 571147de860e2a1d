/**
  The font-size choice of `draw_scaled_text`: a fixed size when one is
  given, otherwise a binary search over [10, 277] for the largest size whose
  wrapped text fits the box.
*/
module FontSearch {
  import TextLayout
  import Sequences

  const MIN_FONT_SIZE: int := 10
  const MAX_FONT_SIZE: int := 277
  /** `size_fonts` when no fixed size is requested. */
  const AUTO_SIZE: int := -1

  /** What the search measures of the text wrapped at one font size. */
  datatype Measurement = Measurement(lineCount: nat, lineHeight: nat, maxLineWidth: nat)

  /**
    The acceptance test of one probe: the block height
    `lineCount * lineHeight * 1.1` within the box height and the widest line
    within the box width; the height test is scaled by 10 to stay integral.
  */
  predicate Fits(m: Measurement, areaWidth: int, areaHeight: int)
  {
    11 * m.lineCount * m.lineHeight <= 10 * areaHeight && m.maxLineWidth <= areaWidth
  }

  /** The scaled test is the same as the test on exact decimal numbers. */
  lemma FitsIsHeightTest(m: Measurement, areaHeight: int)
    ensures (11 * m.lineCount * m.lineHeight <= 10 * areaHeight)
        <==> (m.lineCount * m.lineHeight) as real * 1.1 <= areaHeight as real
  {
  }

  /**
    The widest line, scanned as the search loop does: starting from 0 and
    raising the maximum on every wider line.
  */
  method MaxLineWidth(width: char -> nat, lines: seq<string>) returns (widest: nat)
    ensures forall k :: 0 <= k < |lines| ==> TextLayout.TextWidth(width, lines[k]) <= widest
    ensures lines == [] ==> widest == 0
    ensures lines != [] ==> exists k :: 0 <= k < |lines| && widest == TextLayout.TextWidth(width, lines[k])
  {
    widest := 0;
    for i := 0 to |lines|
      invariant forall k :: 0 <= k < i ==> TextLayout.TextWidth(width, lines[k]) <= widest
      invariant i == 0 ==> widest == 0
      invariant i > 0 ==> exists k :: 0 <= k < i && widest == TextLayout.TextWidth(width, lines[k])
    {
      var lineWidth := TextLayout.TextWidth(width, lines[i]);
      if lineWidth > widest {
        widest := lineWidth;
      }
    }
  }

  /** The search's verdict on one font size. */
  predicate Accepts(measure: int -> Measurement, areaWidth: int, areaHeight: int, size: int)
  {
    Fits(measure(size), areaWidth, areaHeight)
  }

  /** Every size smaller than an accepted size in the search range is accepted too. */
  ghost predicate DownwardClosed(measure: int -> Measurement, areaWidth: int, areaHeight: int)
  {
    forall a, b :: MIN_FONT_SIZE <= a <= b <= MAX_FONT_SIZE && Accepts(measure, areaWidth, areaHeight, b)
      ==> Accepts(measure, areaWidth, areaHeight, a)
  }

  /** Under downward closure, a rejected size rejects every larger size. */
  lemma RejectedAbove(measure: int -> Measurement, areaWidth: int, areaHeight: int, size: int)
    requires MIN_FONT_SIZE <= size && !Accepts(measure, areaWidth, areaHeight, size)
    ensures DownwardClosed(measure, areaWidth, areaHeight) ==>
      forall s :: size <= s <= MAX_FONT_SIZE ==> !Accepts(measure, areaWidth, areaHeight, s)
  {
  }

  /**
    The sizes the bisection of `draw_scaled_text` tries on the range
    `lo..hi`, in order: the midpoint, then the upper half when the midpoint
    is accepted and the lower half when it is not.
  */
  function Bisect(measure: int -> Measurement, areaWidth: int, areaHeight: int, lo: int, hi: int): seq<int>
    decreases if lo <= hi then hi - lo + 1 else 0
  {
    if lo > hi then []
    else
      var mid := (lo + hi) / 2;
      var accepted := Accepts(measure, areaWidth, areaHeight, mid);
      [mid] + Bisect(measure, areaWidth, areaHeight, if accepted then mid + 1 else lo, if accepted then hi else mid - 1)
  }

  /** One probe of the bisection: the midpoint, then the half its verdict leaves. */
  lemma BisectStep(measure: int -> Measurement, areaWidth: int, areaHeight: int, lo: int, hi: int)
    requires lo <= hi
    ensures Bisect(measure, areaWidth, areaHeight, lo, hi)
         == [(lo + hi) / 2] + if Accepts(measure, areaWidth, areaHeight, (lo + hi) / 2)
                              then Bisect(measure, areaWidth, areaHeight, (lo + hi) / 2 + 1, hi)
                              else Bisect(measure, areaWidth, areaHeight, lo, (lo + hi) / 2 - 1)
  {
  }

  /** A measurement that fits an empty box at the two ends of the range only. */
  function EndsOnly(size: int): Measurement
  {
    if size == MIN_FONT_SIZE || size == MAX_FONT_SIZE then Measurement(0, 0, 0) else Measurement(1, 1, 1)
  }

  /** Every size the bisection of `lo..hi` tries lies in `lo..hi`. */
  lemma {:induction false} BisectInRange(measure: int -> Measurement, areaWidth: int, areaHeight: int, lo: int, hi: int)
    ensures forall k :: 0 <= k < |Bisect(measure, areaWidth, areaHeight, lo, hi)| ==>
      lo <= Bisect(measure, areaWidth, areaHeight, lo, hi)[k] <= hi
    decreases if lo <= hi then hi - lo + 1 else 0
  {
    if lo <= hi {
      var mid := (lo + hi) / 2;
      BisectStep(measure, areaWidth, areaHeight, lo, hi);
      if Accepts(measure, areaWidth, areaHeight, mid) {
        BisectInRange(measure, areaWidth, areaHeight, mid + 1, hi);
      } else {
        BisectInRange(measure, areaWidth, areaHeight, lo, mid - 1);
      }
    }
  }

  /** `probes` are the first sizes the bisection of the whole range tries, and `lo..hi` is what is left. */
  ghost predicate Pending(measure: int -> Measurement, areaWidth: int, areaHeight: int, probes: seq<int>, lo: int, hi: int)
  {
    probes + Bisect(measure, areaWidth, areaHeight, lo, hi) == Bisect(measure, areaWidth, areaHeight, MIN_FONT_SIZE, MAX_FONT_SIZE)
  }

  /** Before the first probe, all of the bisection is left. */
  lemma PendingStart(measure: int -> Measurement, areaWidth: int, areaHeight: int)
    ensures Pending(measure, areaWidth, areaHeight, [], MIN_FONT_SIZE, MAX_FONT_SIZE)
  {
    assert [] + Bisect(measure, areaWidth, areaHeight, MIN_FONT_SIZE, MAX_FONT_SIZE)
        == Bisect(measure, areaWidth, areaHeight, MIN_FONT_SIZE, MAX_FONT_SIZE);
  }

  /** After one more probe, what is left is the half the verdict on the midpoint leaves. */
  lemma PendingAdvance(measure: int -> Measurement, areaWidth: int, areaHeight: int, probes: seq<int>, lo: int, hi: int)
    requires lo <= hi && Pending(measure, areaWidth, areaHeight, probes, lo, hi)
    ensures var mid := (lo + hi) / 2;
      if Accepts(measure, areaWidth, areaHeight, mid)
      then Pending(measure, areaWidth, areaHeight, probes + [mid], mid + 1, hi)
      else Pending(measure, areaWidth, areaHeight, probes + [mid], lo, mid - 1)
  {
    var mid := (lo + hi) / 2;
    var rest := if Accepts(measure, areaWidth, areaHeight, mid) then Bisect(measure, areaWidth, areaHeight, mid + 1, hi)
                else Bisect(measure, areaWidth, areaHeight, lo, mid - 1);
    BisectStep(measure, areaWidth, areaHeight, lo, hi);
    Sequences.Glue(probes, [mid], rest, Bisect(measure, areaWidth, areaHeight, MIN_FONT_SIZE, MAX_FONT_SIZE),
                   probes + [mid], Bisect(measure, areaWidth, areaHeight, lo, hi));
  }

  /** Once nothing is left, the probes are the whole bisection. */
  lemma PendingDone(measure: int -> Measurement, areaWidth: int, areaHeight: int, probes: seq<int>, lo: int, hi: int)
    requires lo > hi && Pending(measure, areaWidth, areaHeight, probes, lo, hi)
    ensures probes == Bisect(measure, areaWidth, areaHeight, MIN_FONT_SIZE, MAX_FONT_SIZE)
  {
    assert probes + [] == probes;
  }

  /**
    When acceptance is not downward closed the bisection need not find the
    largest accepted size: with only 10 and 277 accepted, the first probe,
    143, is rejected and the search never tries 277.
  */
  lemma BisectExample(measure: int -> Measurement)
    requires forall size :: measure(size) == EndsOnly(size)
    ensures Accepts(measure, 0, 0, MAX_FONT_SIZE) && Accepts(measure, 0, 0, MIN_FONT_SIZE)
    ensures MAX_FONT_SIZE !in Bisect(measure, 0, 0, MIN_FONT_SIZE, MAX_FONT_SIZE)
  {
    assert measure(10) == EndsOnly(10) && measure(277) == EndsOnly(277) && measure(143) == EndsOnly(143);
    BisectStep(measure, 0, 0, 10, 277);
    BisectInRange(measure, 0, 0, 10, 142);
  }

  /**
    The bisection loop of `draw_scaled_text` over sizes 10 to 277: `probes`
    lists the sizes tried, which are those of `Bisect`, and `found` says
    whether one was accepted, `best` being the last accepted one. The loop
    stops with the lower bound `lo` one above the upper bound.
  */
  method Search(measure: int -> Measurement, areaWidth: int, areaHeight: int)
    returns (found: bool, best: int, lo: int, ghost probes: seq<int>, ghost bestIndex: int)
    ensures probes == Bisect(measure, areaWidth, areaHeight, MIN_FONT_SIZE, MAX_FONT_SIZE)
    ensures MIN_FONT_SIZE <= lo <= MAX_FONT_SIZE + 1
    ensures found <==> lo > MIN_FONT_SIZE
    ensures !found ==> forall k :: 0 <= k < |probes| ==> !Accepts(measure, areaWidth, areaHeight, probes[k])
    ensures found ==> best == lo - 1 && Accepts(measure, areaWidth, areaHeight, best)
    ensures found ==> 0 <= bestIndex < |probes| && probes[bestIndex] == best
    ensures found ==> forall j :: bestIndex < j < |probes| ==> !Accepts(measure, areaWidth, areaHeight, probes[j])
    ensures DownwardClosed(measure, areaWidth, areaHeight) ==>
      forall s :: lo - 1 < s <= MAX_FONT_SIZE ==> !Accepts(measure, areaWidth, areaHeight, s)
  {
    probes := [];
    var minSize, maxSize := MIN_FONT_SIZE, MAX_FONT_SIZE;
    found, best, bestIndex := false, 0, 0;
    PendingStart(measure, areaWidth, areaHeight);
    while minSize <= maxSize
      invariant MIN_FONT_SIZE <= minSize <= maxSize + 1 && maxSize <= MAX_FONT_SIZE
      invariant Pending(measure, areaWidth, areaHeight, probes, minSize, maxSize)
      invariant found <==> minSize > MIN_FONT_SIZE
      invariant !found ==> forall k :: 0 <= k < |probes| ==> !Accepts(measure, areaWidth, areaHeight, probes[k])
      invariant found ==> best == minSize - 1 && Accepts(measure, areaWidth, areaHeight, best)
      invariant found ==> 0 <= bestIndex < |probes| && probes[bestIndex] == best
      invariant found ==> forall j :: bestIndex < j < |probes| ==> !Accepts(measure, areaWidth, areaHeight, probes[j])
      invariant DownwardClosed(measure, areaWidth, areaHeight) ==>
        forall s :: maxSize < s <= MAX_FONT_SIZE ==> !Accepts(measure, areaWidth, areaHeight, s)
      decreases maxSize - minSize
    {
      var mid := (minSize + maxSize) / 2;
      PendingAdvance(measure, areaWidth, areaHeight, probes, minSize, maxSize);
      probes := probes + [mid];
      if Accepts(measure, areaWidth, areaHeight, mid) {
        found, best, bestIndex := true, mid, |probes| - 1;
        minSize := mid + 1;
      } else {
        RejectedAbove(measure, areaWidth, areaHeight, mid);
        maxSize := mid - 1;
      }
    }
    PendingDone(measure, areaWidth, areaHeight, probes, minSize, maxSize);
    lo := minSize;
  }

  /**
    Chooses the font size. With a fixed size that size is used. Otherwise
    `probes` lists the sizes tried, in order, which are those of `Bisect`;
    the chosen size is the last accepted probe, or 10 when no probe was
    accepted. When acceptance is
    downward closed the chosen size is the largest accepted size, and the
    fallback 10 means that no size in the range fits.
  */
  method ChooseFontSize(sizeFonts: int, measure: int -> Measurement, areaWidth: int, areaHeight: int)
    returns (size: int, ghost probes: seq<int>)
    ensures sizeFonts != AUTO_SIZE ==> size == sizeFonts && probes == []
    ensures sizeFonts == AUTO_SIZE ==> probes == Bisect(measure, areaWidth, areaHeight, MIN_FONT_SIZE, MAX_FONT_SIZE)
    ensures sizeFonts == AUTO_SIZE ==> MIN_FONT_SIZE <= size <= MAX_FONT_SIZE
    ensures sizeFonts == AUTO_SIZE ==> forall k :: 0 <= k < |probes| ==> MIN_FONT_SIZE <= probes[k] <= MAX_FONT_SIZE
    ensures sizeFonts == AUTO_SIZE && (forall k :: 0 <= k < |probes| ==> !Accepts(measure, areaWidth, areaHeight, probes[k]))
      ==> size == MIN_FONT_SIZE
    ensures sizeFonts == AUTO_SIZE && (exists k :: 0 <= k < |probes| && Accepts(measure, areaWidth, areaHeight, probes[k]))
      ==> exists k :: 0 <= k < |probes| && probes[k] == size && Accepts(measure, areaWidth, areaHeight, size)
            && forall j :: k < j < |probes| ==> !Accepts(measure, areaWidth, areaHeight, probes[j])
    ensures sizeFonts == AUTO_SIZE && DownwardClosed(measure, areaWidth, areaHeight) ==>
      if Accepts(measure, areaWidth, areaHeight, size)
      then forall s :: size < s <= MAX_FONT_SIZE ==> !Accepts(measure, areaWidth, areaHeight, s)
      else forall s :: MIN_FONT_SIZE <= s <= MAX_FONT_SIZE ==> !Accepts(measure, areaWidth, areaHeight, s)
  {
    probes := [];
    if sizeFonts != AUTO_SIZE {
      return sizeFonts, probes;
    }
    var found, best, lo;
    ghost var bestIndex;
    found, best, lo, probes, bestIndex := Search(measure, areaWidth, areaHeight);
    BisectInRange(measure, areaWidth, areaHeight, MIN_FONT_SIZE, MAX_FONT_SIZE);
    size := if found then best else lo;
  }
}
