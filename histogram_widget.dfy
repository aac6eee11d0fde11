/**
 * pkg/widgets/histogram.go: turning a histogram into a bar chart. When the
 * bars do not fit the width, the last bins are folded, one at a time, into
 * the bin before them, which becomes the +Inf bin; then each remaining bin
 * gives a label (its upper bound, formatted) and a bar (its count).
 * Drawing is not modelled; formatting a float is handed in as a function.
 */
module HistogramWidget {
  import opened Common
  import opened Metric

  const BAR_WIDTH: int := 7

  /** The gap between bars when `n` bars share `width` columns: (width - 7n) / n, truncated toward zero. */
  function Gap(width: int, n: int): int
    requires n > 0
  {
    GoDiv(width - BAR_WIDTH * n, n)
  }

  /** Go's uint64 addition wraps around. */
  function Wrap(x: int): U64 {
    x % TWO_TO_THE_64
  }

  /** The sum of the counts, as an unbounded integer. */
  function Total(bins: seq<Bin>): int {
    if bins == [] then 0 else Total(bins[..|bins| - 1]) + bins[|bins| - 1].count
  }

  lemma {:induction false} TotalAppend(a: seq<Bin>, b: seq<Bin>)
    ensures Total(a + b) == Total(a) + Total(b)
    decreases |b|
  {
    if b != [] {
      assert (a + b)[..|a + b| - 1] == a + b[..|b| - 1];
      assert (a + b)[|a + b| - 1] == b[|b| - 1];
      TotalAppend(a, b[..|b| - 1]);
    } else {
      assert a + b == a;
    }
  }

  /** Wrapping part of a sum first does not change the wrapped sum. */
  lemma WrapInner(x: int, y: int)
    ensures Wrap(x + Wrap(y)) == Wrap(x + y)
  {
    var q := y / TWO_TO_THE_64;
    assert y == q * TWO_TO_THE_64 + Wrap(y);
    var s := x + Wrap(y);
    var q' := s / TWO_TO_THE_64;
    assert x + y == (q + q') * TWO_TO_THE_64 + Wrap(s) by {
      assert s == q' * TWO_TO_THE_64 + Wrap(s);
      assert (q + q') * TWO_TO_THE_64 == q * TWO_TO_THE_64 + q' * TWO_TO_THE_64;
    }
    DivModUnique(x + y, TWO_TO_THE_64, q + q', Wrap(s));
  }

  /** One step of the merge: the last bin is folded into the one before it, which becomes +Inf. */
  function FoldLast(bins: seq<Bin>): seq<Bin>
    requires |bins| >= 2
  {
    bins[..|bins| - 2] + [Bin(PosInf, Wrap(bins[|bins| - 2].count + bins[|bins| - 1].count))]
  }

  /** The bins left after the merge loop: while more than one bin is left and the bars do not fit with a gap of 2, fold. */
  function Merged(bins: seq<Bin>, width: int): (r: seq<Bin>)
    requires |bins| > 0
    ensures 1 <= |r| <= |bins|
    decreases |bins|
  {
    if |bins| == 1 || Gap(width, |bins|) >= 2 then bins
    else Merged(FoldLast(bins), width)
  }

  /**
   * Every bin before the last one left is kept as it was; if nothing was
   * folded the bins are unchanged, and otherwise the last one left is the
   * +Inf bin holding the wrapped sum of the counts from its position on.
   */
  lemma {:induction false} MergedShape(bins: seq<Bin>, width: int)
    requires |bins| > 0
    ensures var r := Merged(bins, width);
            && r[..|r| - 1] == bins[..|r| - 1]
            && (|r| == |bins| ==> r == bins)
            && (|r| < |bins| ==> r[|r| - 1] == Bin(PosInf, Wrap(Total(bins[|r| - 1..]))))
    decreases |bins|
  {
    if |bins| > 1 && Gap(width, |bins|) < 2 {
      var f := FoldLast(bins);
      MergedShape(f, width);
      var r := Merged(f, width);
      var m := |r|;
      assert r[..m - 1] == bins[..m - 1] by {
        assert f[..m - 1] == bins[..m - 1];
      }
      if m < |f| {
        MergedLastCount(bins, m - 1);
      } else {
        assert r == f;
        var n := |bins|;
        assert bins[m - 1..] == [bins[n - 2]] + [bins[n - 1]];
        TotalAppend([bins[n - 2]], [bins[n - 1]]);
        assert Total([bins[n - 2]]) == bins[n - 2].count by {
          assert [bins[n - 2]][..0] == [];
        }
      }
    }
  }

  /** The bars left fit with a gap of at least 2 unless one bin is left, and one more bar would not have fitted. */
  lemma {:induction false} MergedFits(bins: seq<Bin>, width: int)
    requires |bins| > 0
    ensures var m := |Merged(bins, width)|;
            && (m > 1 ==> Gap(width, m) >= 2)
            && forall k | m < k <= |bins| :: Gap(width, k) < 2
    decreases |bins|
  {
    if |bins| > 1 && Gap(width, |bins|) < 2 {
      MergedFits(FoldLast(bins), width);
    }
  }

  /** The count of a bin that absorbed the folded tail is the wrapped total of that tail. */
  lemma MergedLastCount(bins: seq<Bin>, k: nat)
    requires |bins| >= 2 && k < |bins| - 2
    ensures Wrap(Total(FoldLast(bins)[k..])) == Wrap(Total(bins[k..]))
  {
    var n := |bins|;
    var a := bins[k..n - 2];
    var c1: int, c2: int := bins[n - 2].count, bins[n - 1].count;
    assert FoldLast(bins)[k..] == a + [Bin(PosInf, Wrap(c1 + c2))];
    TotalAppend(a, [Bin(PosInf, Wrap(c1 + c2))]);
    assert Total([Bin(PosInf, Wrap(c1 + c2))]) == Wrap(c1 + c2);
    WrapInner(Total(a), c1 + c2);
    assert bins[k..] == a + [bins[n - 2], bins[n - 1]];
    TotalAppend(a, [bins[n - 2], bins[n - 1]]);
    assert [bins[n - 2], bins[n - 1]][..1] == [bins[n - 2]];
  }

  /** The gap is at least 2 exactly when the width gives every bar 9 columns. */
  lemma GapAtLeastTwo(width: int, n: int)
    requires n > 0
    ensures Gap(width, n) >= 2 <==> width >= 9 * n
  {
    var d := width - BAR_WIDTH * n;
    if d >= 2 * n {
      assert d / n >= 2;
    } else if d >= 0 {
      assert d / n < 2;
    } else {
      assert (-d) / n >= 0;
    }
  }

  /** How many bins are left: as many as fit 9 columns each, but at least one and at most all. */
  lemma MergedLength(bins: seq<Bin>, width: int)
    requires |bins| > 0
    ensures |Merged(bins, width)| == if 9 * |bins| <= width then |bins| else if width < 18 then 1 else width / 9
  {
    var r := Merged(bins, width);
    var n, m := |bins|, |r|;
    MergedFits(bins, width);
    forall k | 0 < k
      ensures Gap(width, k) >= 2 <==> width >= 9 * k
    {
      GapAtLeastTwo(width, k);
    }
    if 9 * n <= width {
      assert m == n;
    } else if width < 18 {
      assert m == 1;
    } else {
      var q := width / 9;
      assert width == 9 * q + width % 9;
      assert 2 <= q < n;
      assert Gap(width, q) >= 2 && Gap(width, q + 1) < 2;
    }
  }

  /** The bars always add up to the counts of the histogram, modulo 2^64. */
  lemma MergeKeepsTotal(bins: seq<Bin>, width: int)
    requires |bins| > 0
    ensures Wrap(Total(Merged(bins, width))) == Wrap(Total(bins))
  {
    var r := Merged(bins, width);
    var m := |r|;
    if m < |bins| {
      var prefix, tail := bins[..m - 1], bins[m - 1..];
      assert prefix + tail == bins;
      MergedShape(bins, width);
      assert r == prefix + [Bin(PosInf, Wrap(Total(tail)))];
      FoldedTotal(prefix, tail, PosInf);
    } else {
      MergedShape(bins, width);
    }
  }

  /** Replacing a tail of bins by one bin holding its wrapped total keeps the wrapped total. */
  lemma FoldedTotal(prefix: seq<Bin>, tail: seq<Bin>, v: Float)
    ensures Wrap(Total(prefix + [Bin(v, Wrap(Total(tail)))])) == Wrap(Total(prefix + tail))
  {
    var b := Bin(v, Wrap(Total(tail)));
    TotalAppend(prefix, [b]);
    assert Total([b]) == b.count by {
      assert [b][..0] == [];
    }
    TotalAppend(prefix, tail);
    WrapInner(Total(prefix), Total(tail));
  }

  /** Adding the first count to the sum of the rest. */
  lemma TotalFront(s: seq<Bin>)
    requires |s| > 0
    ensures Total(s) == s[0].count + Total(s[1..])
  {
    assert s == [s[0]] + s[1..];
    TotalAppend([s[0]], s[1..]);
    assert [s[0]][..0] == [];
  }

  /**
   * The whole backing array once the slice is down to `len` bins: the bins
   * before the last one kept, the very last slot and, when nothing was
   * folded, everything are as they were; every other slot from len - 1 on is
   * the +Inf bin a fold left there, holding the wrapped total from that slot on.
   */
  ghost function FoldedTo(orig: seq<Bin>, len: nat): seq<Bin>
    requires 1 <= len <= |orig|
  {
    seq(|orig|, j requires 0 <= j < |orig| =>
      if j < len - 1 || j == |orig| - 1 || len == |orig| then orig[j]
      else Bin(PosInf, Wrap(Total(orig[j..]))))
  }

  /** One more fold, as the loop writes it into the array, leaves the array folded one bin further. */
  lemma FoldedStep(orig: seq<Bin>, len: nat)
    requires 2 <= len <= |orig|
    ensures var a := FoldedTo(orig, len);
            a[len - 2 := Bin(PosInf, Wrap(a[len - 2].count + a[len - 1].count))] == FoldedTo(orig, len - 1)
  {
    var a := FoldedTo(orig, len);
    var n := |orig|;
    var c: int := a[len - 1].count;
    assert c == Wrap(Total(orig[len - 1..])) by {
      if len == n {
        assert orig[len - 1..] == [orig[n - 1]];
        assert orig[len - 1..][..0] == [];
      }
    }
    TotalFront(orig[len - 2..]);
    assert orig[len - 2..][1..] == orig[len - 1..];
    WrapInner(orig[len - 2].count, Total(orig[len - 1..]));
  }

  /** Where the loop stops (one bin left or the bars fit, and no longer slice fitted) is the length of the merged bins. */
  lemma LoopEndLength(orig: seq<Bin>, width: int, len: nat)
    requires 1 <= len <= |orig|
    requires len == 1 || Gap(width, len) >= 2
    requires forall k | len < k <= |orig| :: Gap(width, k) < 2
    ensures len == |Merged(orig, width)|
  {
    MergedFits(orig, width);
  }

  /** The slice of the array once it is down to the merged length holds the merged bins. */
  lemma FoldedToMerged(orig: seq<Bin>, width: int)
    requires |orig| > 0
    ensures var m := |Merged(orig, width)|;
            FoldedTo(orig, m)[..m] == Merged(orig, width)
  {
    MergedShape(orig, width);
    var r := Merged(orig, width);
    var m := |r|;
    forall j | 0 <= j < m
      ensures FoldedTo(orig, m)[j] == r[j]
    {
      if j < m - 1 {
        assert r[j] == r[..m - 1][j];
      }
    }
  }

  /** One step of the merge loop: bin `i` is folded into bin `i - 1`, which becomes an +Inf bin. */
  method FoldInto(bins: array<Bin>, i: nat, ghost orig: seq<Bin>)
    requires 1 <= i < |orig| == bins.Length
    requires bins[..] == FoldedTo(orig, i + 1)
    modifies bins
    ensures bins[..] == FoldedTo(orig, i)
  {
    ghost var before := bins[..];
    FoldedStep(orig, i + 1);
    bins[i - 1] := Bin(PosInf, Wrap(bins[i - 1].count + bins[i].count));
    assert bins[..] == before[i - 1 := bins[i - 1]];
  }

  /**
   * The merge loop of NewHistogram on the bins' backing array (lines 22-33).
   * No bins at all divide by zero, which panics. Otherwise the slice ends
   * with the merged bins, the array as FoldedTo describes, and `barGap` is
   * the gap for the bins left.
   */
  method MergeBins(bins: array<Bin>, width: int) returns (len: nat, barGap: int, panicked: bool)
    modifies bins
    ensures panicked <==> bins.Length == 0
    ensures panicked ==> bins[..] == old(bins[..])
    ensures !panicked ==> && 1 <= len <= bins.Length
                          && bins[..] == FoldedTo(old(bins[..]), len)
                          && bins[..len] == Merged(old(bins[..]), width)
                          && barGap == Gap(width, len)
  {
    if bins.Length == 0 {
      return 0, 0, true;
    }
    ghost var orig := bins[..];
    panicked := false;
    len := bins.Length;
    barGap := Gap(width, len);
    var i := len - 1;
    while i > 0
      invariant i == len - 1 && 1 <= len <= bins.Length
      invariant barGap == Gap(width, len)
      invariant bins[..] == FoldedTo(orig, len)
      invariant forall k | len < k <= bins.Length :: Gap(width, k) < 2
    {
      if barGap >= 2 {
        break;
      }
      FoldInto(bins, i, orig);
      len := len - 1;
      barGap := Gap(width, len);
      i := i - 1;
    }
    LoopEndLength(orig, width, len);
    FoldedToMerged(orig, width);
    assert bins[..len] == FoldedTo(orig, len)[..len];
  }

  /** float64's `>`: false whenever either side is NaN. */
  predicate Greater(a: Float, b: Float) {
    match (a, b)
    case (NaN, _) => false
    case (_, NaN) => false
    case (PosInf, _) => b != PosInf
    case (_, PosInf) => false
    case (NegInf, _) => false
    case (_, NegInf) => true
    case (Finite(x), Finite(y)) => x > y
  }

  lemma GreaterTransitive(a: Float, b: Float, c: Float)
    requires Greater(a, b) && Greater(b, c)
    ensures Greater(a, c)
  {
  }

  /** For values that are not NaN, `>` is total: of two different values one is above the other. */
  lemma GreaterTotal(a: Float, b: Float)
    requires a != NaN && b != NaN && a != b
    ensures Greater(a, b) || Greater(b, a)
  {
  }

  /**
   * The scale of a chart whose first bin's bound is `first`: it is the first
   * bound or one of the bars, and neither the first bound nor any bar is
   * above it.
   */
  predicate ScaleOf(first: Float, data: seq<Float>, m: Float) {
    && !Greater(first, m)
    && (forall i | 0 <= i < |data| :: !Greater(data[i], m))
    && (m == first || exists i | 0 <= i < |data| :: m == data[i])
  }

  /** Without NaN among them, the first bound and the bars have exactly one scale: their maximum. */
  lemma ScaleIsUnique(first: Float, data: seq<Float>, m1: Float, m2: Float)
    requires first != NaN && forall i | 0 <= i < |data| :: data[i] != NaN
    requires ScaleOf(first, data, m1) && ScaleOf(first, data, m2)
    ensures m1 == m2
  {
    if m1 != m2 {
      assert m1 != NaN && m2 != NaN;
      GreaterTotal(m1, m2);
    }
  }

  /** The bars of a chart: one label and one value per bin, and the largest value seen. */
  datatype Bars = Bars(labels: seq<string>, data: seq<Float>, maxVal: Float)

  /**
   * The extraction loop (lines 35-46): each bin's bound, formatted, is its
   * label and its count is its bar. The scale starts at the first bin's
   * bound and is raised to any count above it: no bar is above the scale,
   * and the scale is the first bound or one of the bars.
   */
  method BarsOf(bins: seq<Bin>, format: Float -> string) returns (r: Bars)
    requires |bins| > 0
    ensures |r.labels| == |bins| && |r.data| == |bins|
    ensures forall i | 0 <= i < |bins| :: r.labels[i] == format(bins[i].value) && r.data[i] == Finite(bins[i].count as real)
    ensures ScaleOf(bins[0].value, r.data, r.maxVal)
    ensures bins[0].value == NaN ==> r.maxVal == NaN
  {
    var labels: seq<string> := [];
    var data: seq<Float> := [];
    var maxVal := bins[0].value;
    var i := 0;
    while i < |bins|
      invariant 0 <= i <= |bins| && |labels| == i && |data| == i
      invariant forall j | 0 <= j < i :: labels[j] == format(bins[j].value) && data[j] == Finite(bins[j].count as real)
      invariant !Greater(bins[0].value, maxVal)
      invariant forall j | 0 <= j < i :: !Greater(data[j], maxVal)
      invariant maxVal == bins[0].value || exists j | 0 <= j < i :: maxVal == data[j]
      invariant bins[0].value == NaN ==> maxVal == NaN
    {
      var b := bins[i];
      labels := labels + [format(b.value)];
      var v := Finite(b.count as real);
      data := data + [v];
      if Greater(v, maxVal) {
        forall j | 0 <= j < i
          ensures !Greater(data[j], v)
        {
          if Greater(data[j], v) {
            GreaterTransitive(data[j], v, maxVal);
          }
        }
        if Greater(bins[0].value, v) {
          GreaterTransitive(bins[0].value, v, maxVal);
        }
        maxVal := v;
      }
      i := i + 1;
    }
    return Bars(labels, data, maxVal);
  }

  /** The chart NewHistogram builds (colours and styles left out). */
  datatype BarChart = BarChart(title: string, bars: Bars, barWidth: int, barGap: int, paddingLeft: int)

  /**
   * NewHistogram: merge the bins in place, then build the chart from the
   * bins left. With no bins it panics (None).
   */
  method NewHistogram(name: string, bins: array<Bin>, width: int, format: Float -> string) returns (chart: Option<BarChart>, len: nat)
    modifies bins
    ensures chart.None? <==> bins.Length == 0
    ensures chart.Some? ==>
              var merged := Merged(old(bins[..]), width);
              && len == |merged| && bins[..len] == merged
              && chart.value.title == name
              && chart.value.bars.data == seq(len, i requires 0 <= i < len => Finite(merged[i].count as real))
              && chart.value.bars.labels == seq(len, i requires 0 <= i < len => format(merged[i].value))
              && ScaleOf(merged[0].value, chart.value.bars.data, chart.value.bars.maxVal)
              && (merged[0].value == NaN ==> chart.value.bars.maxVal == NaN)
              && chart.value.barWidth == BAR_WIDTH
              && chart.value.barGap == Gap(width, len)
              && chart.value.paddingLeft == GoDiv(chart.value.barGap, 2)
  {
    var barGap, panicked;
    len, barGap, panicked := MergeBins(bins, width);
    if panicked {
      return None, 0;
    }
    var bars := BarsOf(bins[..len], format);
    chart := Some(BarChart(name, bars, BAR_WIDTH, barGap, GoDiv(barGap, 2)));
  }
}
