/** The geometry of `DrawBarChart` (bars.c): where each bar goes, how much
    of its track is filled, and which bars are drawn at all. The loop that
    walks the bars and resets a negative scroll offset is
    App.Dashboard.DrawBarChart; this module gives it its meaning. */
module Layout {
  import opened CInt
  import opened Records

  const Margin: int := 20
  const BarHeight: int := 40
  const BarSpacing: int := 40
  /** The distance from the top of one bar to the top of the next. */
  const RowHeight: int := 80
  /** How far above its bar a title is written. */
  const TitleRise: int := 20

  /** `maxWidth`: the client width less a margin on either side. */
  function TrackWidth(clientWidth: int): int {
    clientWidth - 2 * Margin
  }

  /** `(current * maxWidth) / total`, truncated toward zero. */
  function FilledWidth(bar: Bar, maxWidth: int): int
    requires bar.total != 0
  {
    Div(bar.current * maxWidth, bar.total)
  }

  /** `maxWidth - barWidth`. */
  function UnfilledWidth(bar: Bar, maxWidth: int): int
    requires bar.total != 0
  {
    maxWidth - FilledWidth(bar, maxWidth)
  }

  /** C defines every width computed for the bar: the total is not zero and
      each intermediate `int` stays in range. */
  predicate WidthsDefined(bar: Bar, maxWidth: int) {
    bar.total != 0 && InInt32(bar.current * maxWidth) &&
    InInt32(FilledWidth(bar, maxWidth)) && InInt32(UnfilledWidth(bar, maxWidth)) &&
    InInt32(Margin + FilledWidth(bar, maxWidth))
  }

  /** A bar whose progress is between 0 and its total fills a part of its
      track proportional to that progress, rounded down, and the filled and
      unfilled parts make up the whole track. */
  lemma FilledWithinTrack(bar: Bar, maxWidth: int)
    requires 0 <= bar.current <= bar.total && 0 < bar.total && 0 <= maxWidth
    ensures var w := FilledWidth(bar, maxWidth);
            0 <= w <= maxWidth &&
            w * bar.total <= bar.current * maxWidth < (w + 1) * bar.total &&
            UnfilledWidth(bar, maxWidth) >= 0 && w + UnfilledWidth(bar, maxWidth) == maxWidth
  {
    var a, t := bar.current * maxWidth, bar.total;
    var w := FilledWidth(bar, maxWidth);
    ScaledBy(0, bar.current, maxWidth);
    ScaledBy(bar.current, t, maxWidth);
    RemainderOfNonNegative(a, t);
    PositiveFactor(maxWidth - w, t);
    PositiveFactor(w + 1, t);
  }

  /** Scaling by a factor that is not negative keeps the order. */
  lemma ScaledBy(x: int, y: int, m: int)
    requires x <= y && 0 <= m
    ensures x * m <= y * m
  {
  }

  /** The C quotient of numbers that are not negative leaves a remainder in
      `[0, t)`. */
  lemma RemainderOfNonNegative(a: int, t: int)
    requires 0 <= a && 0 < t
    ensures 0 <= a - Div(a, t) * t < t
  {
  }

  /** With a positive factor, a product has the sign of its other factor. */
  lemma PositiveFactor(x: int, t: int)
    requires t > 0
    ensures x * t >= 0 <==> x >= 0
    ensures x * t > 0 <==> x > 0
  {
  }

  /** A bar past its total overruns its track: the filled part is at least
      the track and the unfilled part is not positive. */
  lemma OverfullBarOverrunsTrack(bar: Bar, maxWidth: int)
    requires 0 < bar.total < bar.current && 0 <= maxWidth
    ensures FilledWidth(bar, maxWidth) >= maxWidth
    ensures UnfilledWidth(bar, maxWidth) <= 0
  {
    var a, t := bar.current * maxWidth, bar.total;
    var w := FilledWidth(bar, maxWidth);
    ScaledBy(0, t, maxWidth);
    ScaledBy(t, bar.current, maxWidth);
    assert t * maxWidth == bar.total * maxWidth;
    RemainderOfNonNegative(a, t);
    QuotientAtLeast(a, t, maxWidth, w);
  }

  /** A quotient that leaves a remainder in `[0, t)` is at least `m` when
      the dividend is at least `t * m`. */
  lemma QuotientAtLeast(a: int, t: int, m: int, w: int)
    requires t > 0 && a >= t * m && 0 <= a - w * t < t
    ensures w >= m
  {
    assert (w + 1 - m) * t == w * t + t - t * m;
    PositiveFactor(w + 1 - m, t);
  }

  /** Negative progress rounds toward zero, not downward. */
  lemma NegativeProgressTruncates()
    ensures FilledWidth(Bar("", -1, 3, Color.Black), 100) == -33
  {
  }

  /** `yOffset`: bar `i` sits one spacing below the previous row, shifted
      up by the scroll offset. */
  function YOffset(i: int, scroll: int): int {
    BarSpacing + i * RowHeight - scroll
  }

  /** The bar is drawn unless its top is above the client area or below
      its bottom edge. */
  predicate Visible(y: int, clientHeight: int) {
    !(y < 0 || y > clientHeight)
  }

  datatype Rect = Rect(left: int, top: int, right: int, bottom: int)

  /** What is drawn for bar `index`: its whole track, the filled part of
      the track, and its title at (`titleX`, `titleY`). */
  datatype BarDrawing = BarDrawing(index: nat, track: Rect, fill: Rect, title: string, titleX: int, titleY: int)

  function DrawBar(bar: Bar, index: nat, y: int, maxWidth: int): BarDrawing
    requires bar.total != 0
  {
    BarDrawing(index,
               Rect(Margin, y, Margin + maxWidth, y + BarHeight),
               Rect(Margin, y, Margin + FilledWidth(bar, maxWidth), y + BarHeight),
               bar.title, Margin, y - TitleRise)
  }

  /** C defines the drawing of every visible bar, with the scroll offset the
      loop uses. */
  predicate DrawDefined(bars: seq<Bar>, scroll: int, maxWidth: int, clientHeight: int) {
    forall i :: 0 <= i < |bars| && Visible(YOffset(i, scroll), clientHeight) ==>
      WidthsDefined(bars[i], maxWidth) && InInt32(Margin + maxWidth) && InInt32(YOffset(i, scroll) + BarHeight)
  }

  /** What the loop draws for the bars from index `i` on. */
  function DrawFrom(bars: seq<Bar>, i: nat, scroll: int, maxWidth: int, clientHeight: int): seq<BarDrawing>
    requires i <= |bars| && DrawDefined(bars, scroll, maxWidth, clientHeight)
    decreases |bars| - i
  {
    if i == |bars| then []
    else if !Visible(YOffset(i, scroll), clientHeight) then DrawFrom(bars, i + 1, scroll, maxWidth, clientHeight)
    else [DrawBar(bars[i], i, YOffset(i, scroll), maxWidth)] + DrawFrom(bars, i + 1, scroll, maxWidth, clientHeight)
  }

  /** One step of the loop: bar `i` is drawn, when visible, before the
      bars after it. */
  lemma DrawFromStep(bars: seq<Bar>, i: nat, scroll: int, maxWidth: int, clientHeight: int)
    requires i < |bars| && DrawDefined(bars, scroll, maxWidth, clientHeight)
    ensures Visible(YOffset(i, scroll), clientHeight) ==>
              bars[i].total != 0 &&
              DrawFrom(bars, i, scroll, maxWidth, clientHeight) ==
                [DrawBar(bars[i], i, YOffset(i, scroll), maxWidth)] + DrawFrom(bars, i + 1, scroll, maxWidth, clientHeight)
    ensures !Visible(YOffset(i, scroll), clientHeight) ==>
              DrawFrom(bars, i, scroll, maxWidth, clientHeight) == DrawFrom(bars, i + 1, scroll, maxWidth, clientHeight)
  {
  }

  /** Every bar drawn from index `i` on is a visible bar at or after `i`,
      drawn at its own offset. */
  lemma {:induction false} DrawnAreVisible(bars: seq<Bar>, i: nat, scroll: int, maxWidth: int, clientHeight: int)
    requires i <= |bars| && DrawDefined(bars, scroll, maxWidth, clientHeight)
    ensures forall k :: 0 <= k < |DrawFrom(bars, i, scroll, maxWidth, clientHeight)| ==>
              var d := DrawFrom(bars, i, scroll, maxWidth, clientHeight)[k];
              i <= d.index < |bars| && Visible(YOffset(d.index, scroll), clientHeight) &&
              d == DrawBar(bars[d.index], d.index, YOffset(d.index, scroll), maxWidth)
    decreases |bars| - i
  {
    if i < |bars| {
      DrawnAreVisible(bars, i + 1, scroll, maxWidth, clientHeight);
      var t := DrawFrom(bars, i + 1, scroll, maxWidth, clientHeight);
      if Visible(YOffset(i, scroll), clientHeight) {
        var r := DrawFrom(bars, i, scroll, maxWidth, clientHeight);
        assert r == [DrawBar(bars[i], i, YOffset(i, scroll), maxWidth)] + t;
        forall k | 0 <= k < |r|
          ensures i <= r[k].index < |bars| && Visible(YOffset(r[k].index, scroll), clientHeight)
          ensures r[k] == DrawBar(bars[r[k].index], r[k].index, YOffset(r[k].index, scroll), maxWidth)
        {
          if k > 0 {
            assert r[k] == t[k - 1];
          }
        }
      }
    }
  }

  /** The bars are drawn in index order, each at most once. */
  lemma {:induction false} DrawnInOrder(bars: seq<Bar>, i: nat, scroll: int, maxWidth: int, clientHeight: int)
    requires i <= |bars| && DrawDefined(bars, scroll, maxWidth, clientHeight)
    ensures forall k, l :: 0 <= k < l < |DrawFrom(bars, i, scroll, maxWidth, clientHeight)| ==>
              DrawFrom(bars, i, scroll, maxWidth, clientHeight)[k].index <
              DrawFrom(bars, i, scroll, maxWidth, clientHeight)[l].index
    decreases |bars| - i
  {
    if i < |bars| {
      DrawnInOrder(bars, i + 1, scroll, maxWidth, clientHeight);
      DrawnAreVisible(bars, i + 1, scroll, maxWidth, clientHeight);
      DrawFromStep(bars, i, scroll, maxWidth, clientHeight);
      if Visible(YOffset(i, scroll), clientHeight) {
        var t := DrawFrom(bars, i + 1, scroll, maxWidth, clientHeight);
        var r := [DrawBar(bars[i], i, YOffset(i, scroll), maxWidth)] + t;
        forall k, l | 0 <= k < l < |r|
          ensures r[k].index < r[l].index
        {
          assert r[l] == t[l - 1];
          if k > 0 {
            assert r[k] == t[k - 1];
          }
        }
      }
    }
  }

  /** Bar `j` is among the drawn bars `r`. */
  predicate DrawnIndex(r: seq<BarDrawing>, j: int) {
    exists k :: 0 <= k < |r| && r[k].index == j
  }

  /** Every visible bar at or after `i` is drawn. */
  lemma {:induction false} VisibleAreDrawn(bars: seq<Bar>, i: nat, scroll: int, maxWidth: int, clientHeight: int)
    requires i <= |bars| && DrawDefined(bars, scroll, maxWidth, clientHeight)
    ensures forall j :: i <= j < |bars| && Visible(YOffset(j, scroll), clientHeight) ==>
              DrawnIndex(DrawFrom(bars, i, scroll, maxWidth, clientHeight), j)
    decreases |bars| - i
  {
    if i < |bars| {
      VisibleAreDrawn(bars, i + 1, scroll, maxWidth, clientHeight);
      var t := DrawFrom(bars, i + 1, scroll, maxWidth, clientHeight);
      var r := DrawFrom(bars, i, scroll, maxWidth, clientHeight);
      if Visible(YOffset(i, scroll), clientHeight) {
        assert r == [DrawBar(bars[i], i, YOffset(i, scroll), maxWidth)] + t;
        forall j | i <= j < |bars| && Visible(YOffset(j, scroll), clientHeight)
          ensures DrawnIndex(r, j)
        {
          if j == i {
            assert r[0].index == j;
          } else {
            assert DrawnIndex(t, j);
            var k :| 0 <= k < |t| && t[k].index == j;
            assert r[k + 1].index == j;
          }
        }
      } else {
        assert r == t;
      }
    }
  }

  /** A bar's filled part starts where its track starts and, for progress
      between 0 and the total, ends within the track. */
  lemma DrawnFillWithinTrack(bar: Bar, index: nat, y: int, maxWidth: int)
    requires 0 <= bar.current <= bar.total && 0 < bar.total && 0 <= maxWidth
    ensures var d := DrawBar(bar, index, y, maxWidth);
            d.fill.left == d.track.left <= d.fill.right <= d.track.right &&
            d.fill.top == d.track.top == y && d.fill.bottom == d.track.bottom == y + BarHeight
  {
    FilledWithinTrack(bar, maxWidth);
  }

  /** A strictly increasing run of indices spans at least its length. */
  lemma {:induction false} IncreasingSpan(r: seq<BarDrawing>)
    requires r != []
    requires forall k, l :: 0 <= k < l < |r| ==> r[k].index < r[l].index
    ensures r[|r| - 1].index - r[0].index >= |r| - 1
  {
    if |r| > 1 {
      IncreasingSpan(r[1..]);
      assert r[1..][0] == r[1] && r[1..][|r| - 2] == r[|r| - 1];
    }
  }

  /** At most one bar per row height fits, plus one: with a non-negative
      scroll offset the chart draws no more than `clientHeight / 80 + 1`
      bars. */
  lemma VisibleRows(bars: seq<Bar>, scroll: int, maxWidth: int, clientHeight: int)
    requires DrawDefined(bars, scroll, maxWidth, clientHeight) && 0 <= clientHeight
    ensures |DrawFrom(bars, 0, scroll, maxWidth, clientHeight)| <= clientHeight / RowHeight + 1
  {
    var r := DrawFrom(bars, 0, scroll, maxWidth, clientHeight);
    DrawnAreVisible(bars, 0, scroll, maxWidth, clientHeight);
    DrawnInOrder(bars, 0, scroll, maxWidth, clientHeight);
    if r != [] {
      IncreasingSpan(r);
      var first, last := r[0].index, r[|r| - 1].index;
      assert YOffset(last, scroll) - YOffset(first, scroll) == (last - first) * RowHeight;
      assert (last - first) * RowHeight <= clientHeight;
      assert |r| - 1 <= last - first;
      assert (|r| - 1) * RowHeight <= clientHeight;
    }
  }

  /** Every track runs between the two margins: it starts `Margin` in from
      the left and ends `Margin` short of the client width; the title is
      written at the track's left edge, `TitleRise` above its top. */
  lemma TrackBetweenMargins(bar: Bar, index: nat, y: int, clientWidth: int)
    requires bar.total != 0
    ensures var d := DrawBar(bar, index, y, TrackWidth(clientWidth));
            d.track.left == Margin && d.track.right == clientWidth - Margin &&
            d.titleX == d.track.left && d.titleY == d.track.top - TitleRise
  {
  }

  /** The first bar is one spacing below the top, consecutive bars are one
      bar height and one spacing apart, and scrolling by `d` moves every
      bar up by `d`. */
  lemma RowsEvenlySpaced(i: int, scroll: int, d: int)
    ensures YOffset(0, 0) == BarSpacing
    ensures YOffset(i + 1, scroll) - YOffset(i, scroll) == BarHeight + BarSpacing
    ensures YOffset(i, scroll + d) == YOffset(i, scroll) - d
  {
  }

  /** A bar between two visible bars is visible. */
  lemma VisibleBetween(i: int, j: int, k: int, scroll: int, clientHeight: int)
    requires i <= j <= k
    requires Visible(YOffset(i, scroll), clientHeight) && Visible(YOffset(k, scroll), clientHeight)
    ensures Visible(YOffset(j, scroll), clientHeight)
  {
    ScaledBy(i, j, RowHeight);
    ScaledBy(j, k, RowHeight);
  }

  /** The drawn bars are a run of consecutive indices: no bar is skipped
      between the first and the last one drawn. */
  lemma DrawnConsecutive(bars: seq<Bar>, scroll: int, maxWidth: int, clientHeight: int)
    requires DrawDefined(bars, scroll, maxWidth, clientHeight)
    ensures var r := DrawFrom(bars, 0, scroll, maxWidth, clientHeight);
            forall k :: 0 <= k < |r| - 1 ==> r[k + 1].index == r[k].index + 1
  {
    var r := DrawFrom(bars, 0, scroll, maxWidth, clientHeight);
    DrawnAreVisible(bars, 0, scroll, maxWidth, clientHeight);
    DrawnInOrder(bars, 0, scroll, maxWidth, clientHeight);
    VisibleAreDrawn(bars, 0, scroll, maxWidth, clientHeight);
    forall k | 0 <= k < |r| - 1
      ensures r[k + 1].index == r[k].index + 1
    {
      var j := r[k].index + 1;
      VisibleBetween(r[k].index, j, r[k + 1].index, scroll, clientHeight);
      assert DrawnIndex(r, j);
      var m :| 0 <= m < |r| && r[m].index == j;
      assert k < m;
    }
  }
}
