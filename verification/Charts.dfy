/**
 Chart geometry over exact reals: the coordinates of plotted points, and the
 hover handler that has to find the point nearest to the cursor.
 */
module Charts {
  import opened Wrappers

  // -------------------------------------------------------------- extreme values

  function Larger(a: real, b: real): real {
    if a >= b then a else b
  }

  function Smaller(a: real, b: real): real {
    if a <= b then a else b
  }

  /** `Math.max(...values, floor)`. */
  function MaxOf(values: seq<real>, floor: real): (m: real)
    ensures m >= floor && forall i | 0 <= i < |values| :: values[i] <= m
    ensures m == floor || m in values
  {
    if values == [] then floor else Larger(MaxOf(values[..|values| - 1], floor), values[|values| - 1])
  }

  /** `Math.min(...values)`. */
  function MinOf(values: seq<real>): (m: real)
    requires values != []
    ensures m in values && forall i | 0 <= i < |values| :: m <= values[i]
  {
    if |values| == 1 then values[0] else Smaller(MinOf(values[..|values| - 1]), values[|values| - 1])
  }

  /** `flatMap`: all the values of all the series. */
  function Flatten(series: seq<seq<real>>): (r: seq<real>)
    ensures forall k, i | 0 <= k < |series| && 0 <= i < |series[k]| :: series[k][i] in r
    ensures forall v | v in r :: exists k, i | 0 <= k < |series| && 0 <= i < |series[k]| :: series[k][i] == v
  {
    if series == [] then []
    else
      var n := |series| - 1;
      var front := Flatten(series[..n]);
      assert forall k, i | 0 <= k < n && 0 <= i < |series[k]| :: series[..n][k][i] in front;
      assert forall v | v in front ::
          exists k, i | 0 <= k < n && 0 <= i < |series[..n][k]| :: series[..n][k][i] == v && series[k][i] == v;
      front + series[n]
  }

  // ------------------------------------------------------------------- line charts

  datatype Frame = Frame(width: real, height: real, left: real, right: real, top: real, bottom: real) {
    ghost predicate Valid() {
      left >= 0.0 && right >= 0.0 && top >= 0.0 && bottom >= 0.0
      && left + right < width && top + bottom < height
    }

    function PlotWidth(): real {
      width - left - right
    }

    function PlotHeight(): real {
      height - top - bottom
    }
  }

  /** `TrendChart`'s and `DailyChart`'s constants. */
  const TREND := Frame(900.0, 250.0, 38.0, 16.0, 18.0, 28.0)
  const DAILY := Frame(900.0, 260.0, 46.0, 18.0, 18.0, 34.0)

  /** `TrendChart`: one point stands at the left edge, more are spread evenly. */
  function TrendX(f: Frame, count: nat, index: nat): real {
    f.left + (if count <= 1 then 0.0 else index as real / (count - 1) as real * f.PlotWidth())
  }

  /** `DailyChart`: the same, with the divisor held at one. */
  function DailyX(f: Frame, count: nat, index: nat): real {
    f.left + index as real / (if count - 1 >= 1 then count - 1 else 1) as real * f.PlotWidth()
  }

  function PlotY(f: Frame, max: real, value: real): real
    requires max > 0.0
  {
    f.height - f.bottom - value / max * f.PlotHeight()
  }

  function TrendMax(series: seq<seq<real>>): (m: real)
    ensures m >= 1.0 && (m == 1.0 || m in Flatten(series))
  {
    MaxOf(Flatten(series), 1.0)
  }

  lemma RatioBounds(i: nat, j: nat, m: nat)
    requires m > 0 && i <= m
    ensures 0.0 <= i as real / m as real <= 1.0
    ensures i < j ==> i as real / m as real < j as real / m as real
  {
    var x, y, d := i as real / m as real, j as real / m as real, m as real;
    assert x * d == i as real && y * d == j as real;
    assert x > 1.0 ==> x * d > d;
    assert x < 0.0 ==> x * d < 0.0;
    assert x >= y ==> x * d >= y * d;
  }

  lemma ScaleUnit(left: real, x: real, w: real)
    requires 0.0 <= x <= 1.0 && w >= 0.0
    ensures left <= left + x * w <= left + w
  {
    assert (1.0 - x) * w >= 0.0;
  }

  lemma ScaleStrict(x: real, y: real, w: real)
    requires w > 0.0
    ensures x < y <==> x * w < y * w
  {
    assert (y - x) * w == y * w - x * w;
  }

  /** Every plotted x lies in the frame, and x grows strictly with the index. */
  lemma TrendXInFrame(f: Frame, count: nat, i: nat, j: nat)
    requires f.Valid() && i < count && j < count
    ensures f.left <= TrendX(f, count, i) <= f.width - f.right
    ensures i < j ==> TrendX(f, count, i) < TrendX(f, count, j)
  {
    TrendXWithin(f, count, i);
    if i < j {
      TrendXIncreases(f, count, i, j);
    }
  }

  lemma TrendXWithin(f: Frame, count: nat, i: nat)
    requires f.Valid() && i < count
    ensures f.left <= TrendX(f, count, i) <= f.width - f.right
  {
    if count > 1 {
      RatioBounds(i, i, count - 1);
      ScaleUnit(f.left, i as real / (count - 1) as real, f.PlotWidth());
    }
  }

  lemma TrendXIncreases(f: Frame, count: nat, i: nat, j: nat)
    requires f.Valid() && i < j < count
    ensures TrendX(f, count, i) < TrendX(f, count, j)
  {
    RatioBounds(i, j, count - 1);
    ScaleStrict(i as real / (count - 1) as real, j as real / (count - 1) as real, f.PlotWidth());
  }

  /** The two charts place points alike. */
  lemma DailyXIsTrendX(f: Frame, count: nat, i: nat)
    requires i < count
    ensures DailyX(f, count, i) == TrendX(f, count, i)
  {
    if count == 1 {
      assert i as real / 1 as real == 0.0;
    }
  }

  /** Points are spread evenly over the whole plot width, from its left edge to its right; a single one stands left. */
  lemma TrendXSpacing(f: Frame, count: nat, i: nat)
    requires i < count
    ensures TrendX(f, count, 0) == f.left
    ensures count > 1 ==> TrendX(f, count, count - 1) == f.width - f.right
    ensures i + 1 < count ==>
              (TrendX(f, count, i + 1) - TrendX(f, count, i)) * (count - 1) as real == f.width - f.left - f.right
  {
    if count > 1 {
      EvenSpacing(f.left, i, count - 1, f.PlotWidth());
    }
  }

  lemma EvenSpacing(left: real, i: nat, m: nat, w: real)
    requires m > 0
    ensures left + 0 as real / m as real * w == left && left + m as real / m as real * w == left + w
    ensures (left + (i + 1) as real / m as real * w - (left + i as real / m as real * w)) * m as real == w
  {
    var x, y, d := i as real / m as real, (i + 1) as real / m as real, m as real;
    assert x * d == i as real && y * d == (i + 1) as real;
    assert (y - x) * d == 1.0;
    assert (y * w - x * w) * d == (y - x) * d * w;
  }

  /** Zero is drawn at the bottom of the plot, the maximum at its top, and heights are in proportion to values. */
  lemma PlotYScale(f: Frame, max: real, v: real, w: real)
    requires max > 0.0
    ensures PlotY(f, max, 0.0) == f.height - f.bottom && PlotY(f, max, max) == f.top
    ensures (PlotY(f, max, v) - PlotY(f, max, w)) * max == (w - v) * (f.height - f.top - f.bottom)
  {
    Proportion(v / max, w / max, max, f.PlotHeight(), v, w);
    assert 0.0 / max == 0.0 && max / max == 1.0;
  }

  lemma Proportion(x: real, y: real, d: real, h: real, v: real, w: real)
    requires x * d == v && y * d == w
    ensures (y * h - x * h) * d == (w - v) * h
  {
    assert (y * h - x * h) * d == (y * d - x * d) * h;
  }

  lemma DivideOrder(v: real, w: real, max: real)
    requires max > 0.0
    ensures v < w <==> v / max < w / max
    ensures 0.0 <= v <==> 0.0 <= v / max
    ensures v <= max <==> v / max <= 1.0
  {
    DivideLess(v, w, max);
    DivideLess(v, 0.0, max);
    DivideLess(max, v, max);
    assert 0.0 / max == 0.0 && max / max == 1.0;
  }

  lemma DivideLess(v: real, w: real, max: real)
    requires max > 0.0
    ensures v < w <==> v / max < w / max
  {
    ScaleStrict(v / max, w / max, max);
  }

  /**
   A value at most the maximum is never drawn above the frame; it is drawn inside
   exactly when it is not negative, and a larger value is always drawn higher.
   */
  lemma PlotYInFrameIff(f: Frame, max: real, v: real, w: real)
    requires f.Valid() && max > 0.0 && v <= max
    ensures f.top <= PlotY(f, max, v)
    ensures PlotY(f, max, v) <= f.height - f.bottom <==> 0.0 <= v
    ensures v < w <==> PlotY(f, max, w) < PlotY(f, max, v)
  {
    var h := f.PlotHeight();
    DivideOrder(v, w, max);
    ScaleStrict(v / max, w / max, h);
    ScaleStrict(1.0, v / max, h);
    ScaleStrict(v / max, 0.0, h);
  }

  /** The trend chart: every point of every series is inside the frame exactly when its value is not negative. */
  lemma TrendChartInFrame(series: seq<seq<real>>, k: nat, i: nat)
    requires k < |series| && i < |series[k]|
    ensures var x, y := TrendX(TREND, |series[k]|, i), PlotY(TREND, TrendMax(series), series[k][i]);
            && 38.0 <= x <= 884.0 && 18.0 <= y
            && (y <= 222.0 <==> series[k][i] >= 0.0)
  {
    var v := series[k][i];
    assert v in Flatten(series);
    assert v <= TrendMax(series);
    TrendXInFrame(TREND, |series[k]|, i, i);
    PlotYInFrameIff(TREND, TrendMax(series), v, v);
  }

  /**
   The daily chart scales each of its two lines by its own maximum; a point is
   inside the frame exactly when its value is not negative.
   */
  lemma DailyChartInFrame(impressions: seq<real>, earnings: seq<real>, i: nat)
    requires |impressions| == |earnings| && i < |impressions|
    ensures var x := DailyX(DAILY, |impressions|, i);
            var yCount := PlotY(DAILY, MaxOf(impressions, 1.0), impressions[i]);
            var yRevenue := PlotY(DAILY, MaxOf(earnings, 0.000001), earnings[i]);
            && 46.0 <= x <= 882.0 && 18.0 <= yCount && 18.0 <= yRevenue
            && (yCount <= 226.0 <==> impressions[i] >= 0.0)
            && (yRevenue <= 226.0 <==> earnings[i] >= 0.0)
  {
    TrendXInFrame(DAILY, |impressions|, i, i);
    DailyXIsTrendX(DAILY, |impressions|, i);
    PlotYInFrameIff(DAILY, MaxOf(impressions, 1.0), impressions[i], 0.0);
    PlotYInFrameIff(DAILY, MaxOf(earnings, 0.000001), earnings[i], 0.0);
  }

  // ----------------------------------------------------------------------- hover

  /** `Math.round`: to the nearest integer, halves up. */
  function Round(x: real): int {
    (x + 0.5).Floor
  }

  /** The cursor's position as a fraction of the plot area, before clamping. */
  function PlotRatio(chartRatio: real): real {
    var plotStart := TREND.left / TREND.width;
    var plotEnd := 1.0 - TREND.right / TREND.width;
    (chartRatio - plotStart) / (plotEnd - plotStart)
  }

  /** The mouse-move handler's index, from the cursor's position as a fraction of the chart's width. */
  function HoverIndex(count: nat, chartRatio: real): int
    requires count > 0
  {
    var plotRatio := Smaller(1.0, Larger(0.0, PlotRatio(chartRatio)));
    var rounded := Round(plotRatio * (count - 1) as real);
    var floored := if rounded >= 0 then rounded else 0;
    if floored <= count - 1 then floored else count - 1
  }

  class HoverState {
    var hoveredIndex: Option<int>

    constructor ()
      ensures hoveredIndex == None
    {
      hoveredIndex := None;
    }

    /** `onMouseMove`, for a chart box of positive width drawn with at least one point: the nearest point is hovered. */
    method MouseMove(count: nat, clientX: real, boundsLeft: real, boundsWidth: real)
      requires count > 0 && boundsWidth > 0.0
      modifies this
      ensures hoveredIndex.Some? && Nearest(count, CursorX((clientX - boundsLeft) / boundsWidth), hoveredIndex.value)
    {
      var chartRatio := (clientX - boundsLeft) / boundsWidth;
      var plotRatio := Smaller(1.0, Larger(0.0, PlotRatio(chartRatio)));
      var index := Round(plotRatio * (count - 1) as real);
      if index < 0 {
        index := 0;
      }
      if index > count - 1 {
        index := count - 1;
      }
      assert index == HoverIndex(count, chartRatio);
      HoverNearestAll(count, chartRatio);
      hoveredIndex := Some(index);
    }

    method MouseLeave()
      modifies this
      ensures hoveredIndex == None
    {
      hoveredIndex := None;
    }
  }

  function Distance(a: real, b: real): real {
    if a >= b then a - b else b - a
  }

  /** Where the cursor is, in the chart's own coordinates. */
  function CursorX(chartRatio: real): real {
    chartRatio * TREND.width
  }

  /** The clamped and rounded index for a cursor at position t among 0..m. */
  function IndexAt(t: real, m: nat): (i: nat)
    ensures i <= m
  {
    Round(Smaller(m as real, Larger(0.0, t)))
  }

  /** i is at least as near to t as j, and larger when equally near. */
  ghost predicate NearerIndex(t: real, i: nat, j: nat) {
    && Distance(t, i as real) <= Distance(t, j as real)
    && (Distance(t, i as real) == Distance(t, j as real) ==> j <= i)
  }

  lemma RoundNearest(t: real, m: nat, j: nat)
    requires j <= m
    ensures NearerIndex(t, IndexAt(t, m), j)
  {
    var c := Smaller(m as real, Larger(0.0, t));
    var i := IndexAt(t, m);
    assert i as real <= c + 0.5 < i as real + 1.0;
    assert j < i ==> j as real <= i as real - 1.0;
    assert j > i ==> j as real >= i as real + 1.0;
  }

  /** Clamping a fraction and then scaling is clamping the scaled position. */
  lemma ClampScaled(p: real, m: nat)
    ensures Smaller(1.0, Larger(0.0, p)) * m as real == Smaller(m as real, Larger(0.0, p * m as real))
  {
    var d := m as real;
    assert p > 1.0 ==> (p - 1.0) * d >= 0.0;
    assert p < 0.0 ==> p * d <= 0.0;
    assert 0.0 <= p <= 1.0 ==> p * d >= 0.0 && (1.0 - p) * d >= 0.0;
  }

  lemma FractionDistance(p: real, m: nat, j: nat)
    requires m > 0
    ensures Distance(p, j as real / m as real) * m as real == Distance(p * m as real, j as real)
  {
    var q, d := j as real / m as real, m as real;
    assert q * d == j as real;
    assert (p - q) * d == p * d - q * d;
    ScaleStrict(p, q, d);
  }

  /** The same, for positions as fractions of m. */
  ghost predicate NearerFraction(p: real, m: nat, i: nat, j: nat)
    requires m > 0
  {
    var here, there := Distance(p, i as real / m as real), Distance(p, j as real / m as real);
    here <= there && (here == there ==> j <= i)
  }

  lemma IndexToFraction(p: real, m: nat, i: nat, j: nat)
    requires m > 0 && NearerIndex(p * m as real, i, j)
    ensures NearerFraction(p, m, i, j)
  {
    FractionDistance(p, m, i);
    FractionDistance(p, m, j);
    Unscale(Distance(p, i as real / m as real), Distance(p, j as real / m as real), m as real,
            Distance(p * m as real, i as real), Distance(p * m as real, j as real), i, j);
  }

  lemma Unscale(here: real, there: real, d: real, a: real, b: real, i: nat, j: nat)
    requires d > 0.0 && here * d == a && there * d == b && a <= b && (a == b ==> j <= i)
    ensures here <= there && (here == there ==> j <= i)
  {
    ScaleStrict(there, here, d);
  }

  lemma HoverIndexIs(count: nat, chartRatio: real)
    requires count > 0
    ensures HoverIndex(count, chartRatio) == IndexAt(PlotRatio(chartRatio) * (count - 1) as real, count - 1)
  {
    ClampScaled(PlotRatio(chartRatio), count - 1);
  }

  /** Point i is at least as near to the cursor as point j, and right of it when equally near. */
  ghost predicate Nearer(count: nat, cursor: real, i: nat, j: nat) {
    var here, there := Distance(cursor, TrendX(TREND, count, i)), Distance(cursor, TrendX(TREND, count, j));
    here <= there && (here == there ==> j <= i)
  }

  /** Distances along the chart are distances as fractions, times the plot's width. */
  lemma ChartDistance(count: nat, chartRatio: real, j: nat)
    requires j < count && count > 1
    ensures Distance(CursorX(chartRatio), TrendX(TREND, count, j))
         == 846.0 * Distance(PlotRatio(chartRatio), j as real / (count - 1) as real)
  {
    assert CursorX(chartRatio) == 38.0 + 846.0 * PlotRatio(chartRatio);
  }

  /**
   The hovered index is a valid index and its point is nearest to the cursor among
   all plotted points, wherever the cursor is; of two equally near it is the right one.
   */
  lemma HoverNearest(count: nat, chartRatio: real, j: nat)
    requires j < count
    ensures 0 <= HoverIndex(count, chartRatio) < count
    ensures Nearer(count, CursorX(chartRatio), HoverIndex(count, chartRatio), j)
  {
    HoverIndexIs(count, chartRatio);
    ClampedNearest(count, PlotRatio(chartRatio) * (count - 1) as real, chartRatio, j);
  }

  lemma ClampedNearest(count: nat, t: real, chartRatio: real, j: nat)
    requires j < count && t == PlotRatio(chartRatio) * (count - 1) as real
    ensures Nearer(count, CursorX(chartRatio), IndexAt(t, count - 1), j)
  {
    if count > 1 {
      RoundNearest(t, count - 1, j);
      SpreadNearest(count, PlotRatio(chartRatio), t, chartRatio, IndexAt(t, count - 1), j);
    }
  }

  lemma SpreadNearest(count: nat, p: real, t: real, chartRatio: real, i: nat, j: nat)
    requires i < count && j < count && count > 1
    requires p == PlotRatio(chartRatio) && t == p * (count - 1) as real && NearerIndex(t, i, j)
    ensures Nearer(count, CursorX(chartRatio), i, j)
  {
    IndexToFraction(p, count - 1, i, j);
    NearerInChart(count, chartRatio, i, j);
  }

  lemma NearerInChart(count: nat, chartRatio: real, i: nat, j: nat)
    requires i < count && j < count && count > 1
    requires NearerFraction(PlotRatio(chartRatio), count - 1, i, j)
    ensures Nearer(count, CursorX(chartRatio), i, j)
  {
    ChartDistance(count, chartRatio, i);
    ChartDistance(count, chartRatio, j);
  }

  /** i is a plotted point that no other is nearer than, nor as near and further right. */
  ghost predicate Nearest(count: nat, cursor: real, i: int) {
    0 <= i < count && forall j: nat | j < count :: Nearer(count, cursor, i, j)
  }

  lemma HoverNearestAll(count: nat, chartRatio: real)
    requires count > 0
    ensures Nearest(count, CursorX(chartRatio), HoverIndex(count, chartRatio))
  {
    HoverNearest(count, chartRatio, 0);
    forall j: nat | j < count ensures Nearer(count, CursorX(chartRatio), HoverIndex(count, chartRatio), j) {
      HoverNearest(count, chartRatio, j);
    }
  }

  /** There is only one such point, so this is all there is to say about the hovered index. */
  lemma NearestUnique(count: nat, cursor: real, i: int, k: int)
    requires Nearest(count, cursor, i) && Nearest(count, cursor, k)
    ensures i == k
  {
    assert Nearer(count, cursor, i, k) && Nearer(count, cursor, k, i);
  }

  /** A cursor exactly over a plotted point picks that point. */
  lemma HoverAtPoint(count: nat, j: nat, chartRatio: real)
    requires j < count && CursorX(chartRatio) == TrendX(TREND, count, j)
    ensures HoverIndex(count, chartRatio) == j
  {
    HoverNearest(count, chartRatio, j);
    var i := HoverIndex(count, chartRatio);
    TrendXInFrame(TREND, count, i, j);
    TrendXInFrame(TREND, count, j, i);
  }

  // -------------------------------------------------------------------- sparkline

  function SparkX(count: nat, index: nat): real
    requires index < count
  {
    if count == 1 then 0.0 else index as real / (count - 1) as real * 100.0
  }

  function SparkY(values: seq<real>, value: real): real
    requires values != []
  {
    var max, min := MaxOf(values, 1.0), MinOf(values);
    SparkHeight(min, Larger(max - min, 1.0), value)
  }

  function SparkHeight(min: real, span: real, value: real): real
    requires span > 0.0
  {
    94.0 - (value - min) / span * 84.0
  }

  /** The sparkline stays in its box, starts from the smallest value's level, and keeps order both ways. */
  lemma SparklineInBox(values: seq<real>, i: nat, j: nat)
    requires i < |values| && j < |values|
    ensures 0.0 <= SparkX(|values|, i) <= 100.0 && (i < j ==> SparkX(|values|, i) < SparkX(|values|, j))
    ensures 10.0 <= SparkY(values, values[i]) <= 94.0
    ensures SparkY(values, values[i]) == 94.0 <==> values[i] == MinOf(values)
    ensures values[i] < values[j] <==> SparkY(values, values[j]) < SparkY(values, values[i])
  {
    if |values| > 1 {
      RatioBounds(i, j, |values| - 1);
    }
    SparkYOrder(values, values[i], values[j]);
  }

  lemma SparkYOrder(values: seq<real>, v: real, w: real)
    requires v in values && w in values
    ensures 10.0 <= SparkY(values, v) <= 94.0
    ensures SparkY(values, v) == 94.0 <==> v == MinOf(values)
    ensures v < w <==> SparkY(values, w) < SparkY(values, v)
  {
    var min := MinOf(values);
    var span := Larger(MaxOf(values, 1.0) - min, 1.0);
    DivideOrder(v - min, w - min, span);
    DivideOrder(0.0, v - min, span);
  }

  /** The sparkline spans its box evenly. */
  lemma SparkXSpacing(count: nat, i: nat)
    requires i < count
    ensures SparkX(count, 0) == 0.0 && (count > 1 ==> SparkX(count, count - 1) == 100.0)
    ensures i + 1 < count ==> (SparkX(count, i + 1) - SparkX(count, i)) * (count - 1) as real == 100.0
  {
    if count > 1 {
      EvenSpacing(0.0, i, count - 1, 100.0);
    }
  }

  /**
   A value a fraction t of the range above the least is drawn that fraction of the
   way from 94 up to 10; the range counts as one when it is less.
   */
  lemma SparkYScale(values: seq<real>, v: real, t: real, min: real, span: real)
    requires values != [] && min == MinOf(values) && span == Larger(MaxOf(values, 1.0) - min, 1.0)
    requires v == min + t * span
    ensures SparkY(values, v) == 94.0 - t * 84.0
  {
    HeightAt(min, span, v, t);
  }

  lemma HeightAt(min: real, span: real, v: real, t: real)
    requires span > 0.0 && v == min + t * span
    ensures SparkHeight(min, span, v) == 94.0 - t * 84.0
  {
    DivideBack(v - min, t, span);
  }

  lemma DivideBack(x: real, t: real, d: real)
    requires d > 0.0 && x == t * d
    ensures x / d == t
  {
  }
}
