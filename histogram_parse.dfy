/**
 * ParseHistogram of pkg/metric/metric.go: one poll batch is split into the
 * histograms it holds, keyed by base name plus the labels other than `le`,
 * and the residual raw samples. A group of `_bucket`, `_count` and `_sum`
 * samples becomes a histogram only as a whole; otherwise its members go back
 * to the residual.
 */
module HistogramParse {
  import opened Common
  import opened GoStrings
  import opened Metric

  /** histogramMetrics: a group's buckets in arrival order, and the count and sum it keeps. */
  datatype Group = Group(buckets: seq<RawMetric>, count: Option<RawMetric>, sum: Option<RawMetric>)

  const NO_GROUP: Group := Group([], None, None)

  /** The key a histogram sample is grouped under: base name and the labels other than `le`, sorted by name. */
  function GroupKey(m: RawMetric): string {
    KeyString(MetricKey(TrimHistogramSuffix(m.name), SortByName(Remove(m, "le").0)))
  }

  function GroupOf(gs: map<string, Group>, k: string): Group {
    if k in gs then gs[k] else NO_GROUP
  }

  /** The switch of the first loop: a bucket is appended, a count or a sum replaces the one kept. */
  function AddSample(g: Group, m: RawMetric): Group {
    match KindOf(m.name)
    case Bucket => g.(buckets := g.buckets + [m])
    case Count => g.(count := Some(m))
    case Sum => g.(sum := Some(m))
    case Plain => g
  }

  /**
   * The groups the first loop has built once it has seen `ms`, filing each
   * sample under `keyOf` of it. ParseHistogram files by GroupKey; the
   * properties of grouping below hold for any key function.
   */
  function Grouped(ms: seq<RawMetric>, keyOf: RawMetric -> string): map<string, Group> {
    if ms == [] then map[]
    else
      var m := ms[|ms| - 1];
      var gs := Grouped(ms[..|ms| - 1], keyOf);
      if KindOf(m.name) == Plain then gs
      else gs[keyOf(m) := AddSample(GroupOf(gs, keyOf(m)), m)]
  }

  /** The samples whose names carry none of the three suffixes, in order. */
  function PlainSamples(ms: seq<RawMetric>): (r: seq<RawMetric>)
    ensures forall m | m in r :: m in ms && KindOf(m.name) == Plain
  {
    if ms == [] then []
    else
      var m := ms[|ms| - 1];
      PlainSamples(ms[..|ms| - 1]) + (if KindOf(m.name) == Plain then [m] else [])
  }

  /** The samples of one kind filed under key `k`, in order. */
  function Filed(ms: seq<RawMetric>, keyOf: RawMetric -> string, k: string, kind: Kind): (r: seq<RawMetric>)
    ensures forall m | m in r :: m in ms && KindOf(m.name) == kind && keyOf(m) == k
  {
    if ms == [] then []
    else
      var m := ms[|ms| - 1];
      Filed(ms[..|ms| - 1], keyOf, k, kind) + (if KindOf(m.name) == kind && keyOf(m) == k then [m] else [])
  }

  function LastOf<T>(s: seq<T>): Option<T> {
    if s == [] then None else Some(s[|s| - 1])
  }

  /**
   * What a group holds: every bucket filed under its key in arrival order,
   * and the LAST count and the LAST sum filed under it; earlier ones are
   * dropped.
   */
  lemma {:induction false} GroupedHolds(ms: seq<RawMetric>, keyOf: RawMetric -> string, k: string)
    ensures GroupOf(Grouped(ms, keyOf), k)
            == Group(Filed(ms, keyOf, k, Bucket), LastOf(Filed(ms, keyOf, k, Count)), LastOf(Filed(ms, keyOf, k, Sum)))
  {
    if ms != [] {
      var init, m := ms[..|ms| - 1], ms[|ms| - 1];
      GroupedHolds(init, keyOf, k);
      GroupOfStep(init, m, keyOf, k);
      assert init + [m] == ms;
    }
  }

  lemma GroupOfStep(init: seq<RawMetric>, m: RawMetric, keyOf: RawMetric -> string, k: string)
    ensures GroupOf(Grouped(init + [m], keyOf), k)
            == if KindOf(m.name) != Plain && keyOf(m) == k then AddSample(GroupOf(Grouped(init, keyOf), k), m)
               else GroupOf(Grouped(init, keyOf), k)
    ensures forall kind :: (Filed(init + [m], keyOf, k, kind)
                            == Filed(init, keyOf, k, kind) + (if KindOf(m.name) == kind && keyOf(m) == k then [m] else []))
  {
    assert (init + [m])[..|init|] == init;
  }

  /** A key has a group exactly when some histogram sample is filed under it. */
  lemma {:induction false} GroupedKeys(ms: seq<RawMetric>, keyOf: RawMetric -> string, k: string)
    ensures k in Grouped(ms, keyOf) <==> exists i | 0 <= i < |ms| :: KindOf(ms[i].name) != Plain && keyOf(ms[i]) == k
  {
    if ms != [] {
      var init := ms[..|ms| - 1];
      GroupedKeys(init, keyOf, k);
      assert forall i | 0 <= i < |init| :: init[i] == ms[i];
    }
  }

  /** release: the count, then the sum, then the buckets, each as received. */
  function Release(g: Group): (r: seq<RawMetric>)
    ensures |r| == |g.buckets| + (if g.count.Some? then 1 else 0) + (if g.sum.Some? then 1 else 0)
    ensures forall m | m in g.buckets :: m in r
  {
    (if g.count.Some? then [g.count.value] else [])
    + (if g.sum.Some? then [g.sum.value] else [])
    + g.buckets
  }

  /** A group becomes a histogram: it has a bucket, a count and a sum, and every bucket a usable `le`. */
  predicate Emitted(g: Group, parse: string -> Option<Float>) {
    && |g.buckets| > 0 && g.count.Some? && g.sum.Some?
    && forall i | 0 <= i < |g.buckets| :: BoundOf(g.buckets[i], parse).Some?
  }

  /**
   * The residual after the second loop has visited the keys in `order`,
   * starting from `plain`: each group that is not emitted is released in turn.
   */
  function Residual(plain: seq<RawMetric>, order: seq<string>, gs: map<string, Group>, parse: string -> Option<Float>): seq<RawMetric>
    requires forall k | k in order :: k in gs
  {
    if order == [] then plain
    else
      var k := order[|order| - 1];
      Residual(plain, order[..|order| - 1], gs, parse) + (if Emitted(gs[k], parse) then [] else Release(gs[k]))
  }

  /** The plain samples stay at the front of the residual, in their order, ahead of anything released. */
  lemma {:induction false} ResidualKeepsPlainFirst(plain: seq<RawMetric>, order: seq<string>, gs: map<string, Group>, parse: string -> Option<Float>)
    requires forall k | k in order :: k in gs
    ensures |plain| <= |Residual(plain, order, gs, parse)|
    ensures Residual(plain, order, gs, parse)[..|plain|] == plain
  {
    if order != [] {
      ResidualKeepsPlainFirst(plain, order[..|order| - 1], gs, parse);
    }
  }

  /** A group that is released leaves every one of its members in the residual. */
  lemma {:induction false} ReleasedMembersStay(plain: seq<RawMetric>, order: seq<string>, gs: map<string, Group>, parse: string -> Option<Float>, k: string)
    requires forall j | j in order :: j in gs
    requires k in order && !Emitted(gs[k], parse)
    ensures forall m | m in Release(gs[k]) :: m in Residual(plain, order, gs, parse)
  {
    var init := order[..|order| - 1];
    if order[|order| - 1] != k {
      assert k in init by {
        var i :| 0 <= i < |order| && order[i] == k;
        assert init[i] == k;
      }
      ReleasedMembersStay(plain, init, gs, parse, k);
    }
  }

  /** The histogram a group whose key re-parses becomes. */
  function HistogramOf(sp: SplitLine, g: Group, parse: string -> Option<Float>, toCount: Float -> U64): Histogram
    requires Emitted(g, parse)
  {
    Histogram(sp.name, sp.labels, ParseBins(g.buckets, parse, toCount).value)
  }

  /** One more sample taken in by the first loop of ParseHistogram. */
  lemma GroupedSnoc(ms: seq<RawMetric>, i: nat)
    requires i < |ms|
    ensures var gs := Grouped(ms[..i], GroupKey);
            var m := ms[i];
            Grouped(ms[..i + 1], GroupKey)
              == if KindOf(m.name) == Plain then gs else gs[GroupKey(m) := AddSample(GroupOf(gs, GroupKey(m)), m)]
    ensures PlainSamples(ms[..i + 1]) == PlainSamples(ms[..i]) + (if KindOf(ms[i].name) == Plain then [ms[i]] else [])
  {
    assert ms[..i + 1][..i] == ms[..i];
  }

  /** The first loop of ParseHistogram: histogram samples are filed under their key, the others kept in order. */
  method GroupSamples(ms: seq<RawMetric>) returns (groups: map<string, Group>, residual: seq<RawMetric>)
    ensures groups == Grouped(ms, GroupKey)
    ensures residual == PlainSamples(ms)
  {
    residual := [];
    groups := map[];
    var i := 0;
    while i < |ms|
      invariant 0 <= i <= |ms|
      invariant groups == Grouped(ms[..i], GroupKey)
      invariant residual == PlainSamples(ms[..i])
    {
      var m := ms[i];
      GroupedSnoc(ms, i);
      var name := TrimHistogramSuffix(m.name);
      if |name| < |m.name| {
        var labels := SortByName(Remove(m, "le").0);
        var s := KeyString(MetricKey(name, labels));
        assert s == GroupKey(m);
        var h := if s in groups then groups[s] else NO_GROUP;
        ghost var g := h;
        if HasSuffix(m.name, BUCKET_SUFFIX) {
          h := h.(buckets := h.buckets + [m]);
        } else if HasSuffix(m.name, COUNT_SUFFIX) {
          h := h.(count := Some(m));
        } else if HasSuffix(m.name, SUM_SUFFIX) {
          h := h.(sum := Some(m));
        }
        assert h == AddSample(g, m);
        groups := groups[s := h];
      } else {
        residual := residual + [m];
      }
      i := i + 1;
    }
    assert ms[..|ms|] == ms;
  }

  /** The two results of ParseHistogram, or the panic of line 211. */
  datatype HistogramResult = Split(histograms: map<string, Histogram>, residual: seq<RawMetric>) | Panic

  predicate Distinct<T(==)>(s: seq<T>) {
    forall i, j | 0 <= i < j < |s| :: s[i] != s[j]
  }

  /** The key of a group splits back into a metric line, as line 209 needs. */
  predicate Reparses(k: string) {
    SplitMetricLine(k + " 0").Ok?
  }

  /**
   * ParseHistogram. Go visits the groups in map order, which is not fixed;
   * `order` is the order this run visited them in. It panics exactly when
   * some group key does not split back into a metric line. Otherwise the
   * residual is every plain sample in input order followed by the released
   * groups, and a histogram is emitted for exactly the groups that qualify,
   * named and labelled by re-parsing their key, with one bin per bucket.
   */
  method ParseHistogram(ms: seq<RawMetric>, parse: string -> Option<Float>, toCount: Float -> U64)
    returns (r: HistogramResult, ghost order: seq<string>)
    ensures r.Panic? <==> exists k | k in Grouped(ms, GroupKey) :: !Reparses(k)
    ensures r.Split? ==>
              && Distinct(order) && (forall k :: k in order <==> k in Grouped(ms, GroupKey))
              && r.residual == Residual(PlainSamples(ms), order, Grouped(ms, GroupKey), parse)
              && (forall k :: k in r.histograms <==> k in Grouped(ms, GroupKey) && Emitted(Grouped(ms, GroupKey)[k], parse))
              && (forall k | k in r.histograms ::
                    Reparses(k) && Emitted(Grouped(ms, GroupKey)[k], parse)
                    && r.histograms[k] == HistogramOf(SplitMetricLine(k + " 0").value, Grouped(ms, GroupKey)[k], parse, toCount))
  {
    var groups, residual := GroupSamples(ms);
    r, order := SplitGroups(groups, residual, parse, toCount);
  }

  /** The second loop of ParseHistogram: every group is visited once, emitted or released. */
  method SplitGroups(groups: map<string, Group>, plain: seq<RawMetric>, parse: string -> Option<Float>, toCount: Float -> U64)
    returns (r: HistogramResult, ghost order: seq<string>)
    ensures r.Panic? <==> exists k | k in groups :: !Reparses(k)
    ensures r.Split? ==>
              && Distinct(order) && (forall k :: k in order <==> k in groups)
              && r.residual == Residual(plain, order, groups, parse)
              && (forall k :: k in r.histograms <==> k in groups && Emitted(groups[k], parse))
              && (forall k | k in r.histograms ::
                    Reparses(k) && Emitted(groups[k], parse)
                    && r.histograms[k] == HistogramOf(SplitMetricLine(k + " 0").value, groups[k], parse, toCount))
  {
    var residual := plain;
    var out: map<string, Histogram> := map[];
    var pending := groups.Keys;
    order := [];
    while pending != {}
      invariant pending <= groups.Keys
      invariant Distinct(order)
      invariant forall k :: k in order <==> k in groups && k !in pending
      invariant forall k | k in order :: Reparses(k)
      invariant residual == Residual(plain, order, groups, parse)
      invariant forall k :: k in out <==> k in order && Emitted(groups[k], parse)
      invariant forall k | k in out ::
                  Reparses(k) && Emitted(groups[k], parse)
                  && out[k] == HistogramOf(SplitMetricLine(k + " 0").value, groups[k], parse, toCount)
      decreases |pending|
    {
      var k :| k in pending;
      var hist := groups[k];
      var sp := SplitMetricLine(k + " 0");
      if !sp.Ok? {
        r := Panic;
        return;
      }
      ghost var before := order;
      assert k !in before && k !in out;
      order := order + [k];
      assert Distinct(order) by {
        assert forall i | 0 <= i < |before| :: order[i] == before[i];
      }
      ResidualStep(plain, before, k, groups, parse);
      if |hist.buckets| > 0 && hist.count.Some? && hist.sum.Some? {
        var bins := ParseBins(hist.buckets, parse, toCount);
        if bins.Some? {
          assert Emitted(hist, parse);
          out := out[k := Histogram(sp.value.name, sp.value.labels, bins.value)];
        } else {
          assert !Emitted(hist, parse);
          residual := residual + Release(hist);
        }
      } else {
        residual := residual + Release(hist);
      }
      pending := pending - {k};
    }
    r := Split(out, residual);
  }

  lemma ResidualStep(plain: seq<RawMetric>, order: seq<string>, k: string, gs: map<string, Group>, parse: string -> Option<Float>)
    requires forall j | j in order :: j in gs
    requires k in gs
    ensures Residual(plain, order + [k], gs, parse)
            == Residual(plain, order, gs, parse) + (if Emitted(gs[k], parse) then [] else Release(gs[k]))
  {
    assert (order + [k])[..|order|] == order;
  }

  // ---------------------------------------------------------------------
  // When the re-parse of line 209 succeeds

  /**
   * A histogram sample whose key re-parses: no braces in its name, labels
   * that print and parse back unchanged, and, when only `le` was there, a
   * base name that is one white-space free word.
   */
  predicate WellFormedSample(m: RawMetric) {
    && '{' !in m.name && '}' !in m.name
    && (forall l | l in m.labels :: WellFormedLabel(l))
    && (Without(m.labels, "le") == [] ==> IsWord(TrimHistogramSuffix(m.name)))
  }

  /** The key of a well-formed sample splits back into its base name and its sorted labels other than `le`. */
  lemma GroupKeyReparses(m: RawMetric)
    requires WellFormedSample(m)
    ensures Reparses(GroupKey(m))
    ensures SplitMetricLine(GroupKey(m) + " 0").value.name == TrimHistogramSuffix(m.name)
    ensures SplitMetricLine(GroupKey(m) + " 0").value.labels == SortByName(Without(m.labels, "le"))
  {
    var base := TrimHistogramSuffix(m.name);
    var labels := SortByName(Without(m.labels, "le"));
    assert base == m.name[..|base|];
    assert forall c | c in base :: c in m.name;
    if labels == [] {
      assert multiset(Without(m.labels, "le")) == multiset{};
      BareKeyRoundTrip(base);
      WordIsOneField(base);
    } else {
      forall l | l in labels ensures WellFormedLabel(l) {
        assert l in multiset(labels);
      }
      KeyRoundTrip(MetricKey(base, labels), " 0");
    }
  }

  /** A batch whose histogram samples are all well formed never makes ParseHistogram panic. */
  lemma WellFormedBatchReparses(ms: seq<RawMetric>)
    requires forall i | 0 <= i < |ms| && KindOf(ms[i].name) != Plain :: WellFormedSample(ms[i])
    ensures forall k | k in Grouped(ms, GroupKey) :: Reparses(k)
  {
    forall k | k in Grouped(ms, GroupKey) ensures Reparses(k) {
      GroupedKeys(ms, GroupKey, k);
      var i :| 0 <= i < |ms| && KindOf(ms[i].name) != Plain && GroupKey(ms[i]) == k;
      GroupKeyReparses(ms[i]);
    }
  }

  /**
   * The histogram emitted for the group of a well-formed sample is named by
   * the sample's base name, labelled by its labels other than `le` sorted by
   * name, and has one bin per bucket filed under the same key, in arrival
   * order.
   */
  lemma EmittedHistogramOfSample(ms: seq<RawMetric>, i: int, parse: string -> Option<Float>, toCount: Float -> U64)
    requires 0 <= i < |ms| && KindOf(ms[i].name) != Plain && WellFormedSample(ms[i])
    ensures GroupKey(ms[i]) in Grouped(ms, GroupKey) && Reparses(GroupKey(ms[i]))
    ensures var k := GroupKey(ms[i]);
            var g := Grouped(ms, GroupKey)[k];
            Emitted(g, parse) ==>
              var h := HistogramOf(SplitMetricLine(k + " 0").value, g, parse, toCount);
              && h.name == TrimHistogramSuffix(ms[i].name)
              && h.labels == SortByName(Without(ms[i].labels, "le"))
              && Some(h.bins) == ParseBins(Filed(ms, GroupKey, k, Bucket), parse, toCount)
  {
    var k := GroupKey(ms[i]);
    GroupedKeys(ms, GroupKey, k);
    GroupKeyReparses(ms[i]);
    if Emitted(Grouped(ms, GroupKey)[k], parse) {
      GroupHistogram(ms, GroupKey, k, SplitMetricLine(k + " 0").value, parse, toCount);
    }
  }

  /** An emitted group's histogram has one bin per bucket filed under its key, in arrival order. */
  lemma GroupHistogram(ms: seq<RawMetric>, keyOf: RawMetric -> string, k: string, sp: SplitLine,
                       parse: string -> Option<Float>, toCount: Float -> U64)
    requires k in Grouped(ms, keyOf) && Emitted(Grouped(ms, keyOf)[k], parse)
    ensures var h := HistogramOf(sp, Grouped(ms, keyOf)[k], parse, toCount);
            h.name == sp.name && h.labels == sp.labels && Some(h.bins) == ParseBins(Filed(ms, keyOf, k, Bucket), parse, toCount)
  {
    var g := Grouped(ms, keyOf)[k];
    assert GroupOf(Grouped(ms, keyOf), k) == g;
    GroupedHolds(ms, keyOf, k);
    assert g.buckets == Filed(ms, keyOf, k, Bucket);
  }

  /**
   * A series named just `_sum`, with no labels, is a valid metric name, yet
   * its group key is the empty string, which does not split back into a
   * metric line: ParseHistogram panics on it.
   */
  lemma LoneSumPanics(v: Float)
    ensures "" in Grouped([RawMetric("_sum", [], v)], GroupKey)
    ensures !Reparses("")
  {
    var m := RawMetric("_sum", [], v);
    assert KindOf(m.name) == Sum;
    assert TrimHistogramSuffix(m.name) == "";
    assert GroupKey(m) == "";
    GroupedKeys([m], GroupKey, "");
    BareKeyRoundTrip("");
    assert Fields("") == [];
  }

  /**
   * Samples of one histogram that list the same labels in different orders
   * land in the same group, as long as no label name is carried by two
   * different labels.
   */
  lemma GroupKeyIgnoresLabelOrder(a: RawMetric, b: RawMetric)
    requires a.name == b.name && multiset(a.labels) == multiset(b.labels)
    requires NamesDetermineLabels(a.labels)
    ensures GroupKey(a) == GroupKey(b)
  {
    var wa, wb := Without(a.labels, "le"), Without(b.labels, "le");
    WithoutKeepsPermutation(a.labels, b.labels, "le");
    SortByNameIgnoresOrder(wa, wb);
    assert Remove(a, "le").0 == wa && Remove(b, "le").0 == wb;
  }
}
