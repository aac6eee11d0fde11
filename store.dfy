/**
 * pkg/store/store.go: the series store. A key string is mapped to a dense
 * MetricID, and the ID to a fixed-capacity ring buffer that keeps the most
 * recent samples of that series and forwards each new sample to the one
 * subscriber bound to it, if any. Histograms are kept in a map by key
 * string and replaced wholesale.
 */
module Store {
  import opened Common
  import opened GoStrings
  import opened Metric

  // ---------------------------------------------------------------------
  // Ring buffer contents as values

  /**
   * The slots of a buffer that started out as `init` after the samples
   * `written` have been added in order, each at the slot after the previous
   * one, wrapping around.
   */
  function Slots(written: seq<Float>, init: seq<Float>): (r: seq<Float>)
    requires |init| > 0
    ensures |r| == |init|
  {
    if written == [] then init
    else
      var w := written[..|written| - 1];
      Slots(w, init)[|w| % |init| := written[|written| - 1]]
  }

  /** Each of the last `cap` samples written sits in the slot its position picks, modulo the capacity `cap`. */
  lemma {:induction false} SlotsHoldRecent(written: seq<Float>, init: seq<Float>)
    requires |init| > 0
    ensures forall j | 0 <= j < |written| && |written| - |init| <= j :: Slots(written, init)[j % |init|] == written[j]
  {
    if written != [] {
      var w := written[..|written| - 1];
      SlotsHoldRecent(w, init);
      forall j | 0 <= j < |written| && |written| - |init| <= j
        ensures Slots(written, init)[j % |init|] == written[j]
      {
        if j < |w| {
          DistinctResidues(j, |w|, |init|);
        }
      }
    }
  }

  /** A slot index below the capacity is its own remainder. */
  lemma SmallMod(j: int, cap: int)
    requires 0 <= j < cap
    ensures j % cap == j
  {
    DivModUnique(j, cap, 0, j);
  }

  /** Two positions less than `cap` apart fall into different slots. */
  lemma DistinctResidues(a: int, b: int, cap: int)
    requires 0 <= a < b && b - a < cap
    ensures a % cap != b % cap
  {
    if a % cap == b % cap {
      assert b - a == (b / cap - a / cap) * cap;
      DivModUnique(b - a, cap, b / cap - a / cap, 0);
    }
  }

  /** The slots nothing has been written to yet still hold what they started with. */
  lemma {:induction false} SlotsUnwritten(written: seq<Float>, init: seq<Float>)
    requires |init| > 0
    ensures forall i | |written| <= i < |init| :: Slots(written, init)[i] == init[i]
  {
    if written != [] {
      SlotsUnwritten(written[..|written| - 1], init);
    }
  }

  /** Until the buffer has wrapped, its first slots are the samples in the order they were written. */
  lemma SlotsBeforeWrap(written: seq<Float>, init: seq<Float>)
    requires 0 < |init| && |written| <= |init|
    ensures Slots(written, init)[..|written|] == written
  {
    SlotsHoldRecent(written, init);
    forall j | 0 <= j < |written| ensures Slots(written, init)[j] == written[j] {
      SmallMod(j, |init|);
    }
  }

  /** What Samples replays: the first min(n, capacity) slots of a zeroed buffer, in physical order. */
  function PhysicalSamples(written: seq<Float>, cap: nat): seq<Float>
    requires cap > 0
  {
    Slots(written, seq(cap, _ => ZERO))[..Min(|written|, cap)]
  }

  /** The most recent min(n, capacity) samples, oldest first: what a replay is meant to give. */
  function Recent(written: seq<Float>, cap: nat): (r: seq<Float>)
    ensures |r| == Min(|written|, cap)
  {
    written[|written| - Min(|written|, cap)..]
  }

  /** While the buffer has not wrapped, the physical order is the order of arrival. */
  lemma PhysicalIsRecentBeforeWrap(written: seq<Float>, cap: nat)
    requires 0 < cap && |written| <= cap
    ensures PhysicalSamples(written, cap) == Recent(written, cap) == written
  {
    SlotsBeforeWrap(written, seq(cap, _ => ZERO));
  }

  /**
   * Once the buffer has wrapped, the physical order is no longer the order of
   * arrival: with room for two, the samples a, b, c are replayed as c, b.
   */
  lemma PhysicalOrderAfterWrap(a: Float, b: Float, c: Float)
    requires b != c
    ensures PhysicalSamples([a, b, c], 2) == [c, b]
    ensures Recent([a, b, c], 2) == [b, c]
    ensures PhysicalSamples([a, b, c], 2) != Recent([a, b, c], 2)
  {
    var w := [a, b, c];
    assert w[..2] == [a, b] && [a, b][..1] == [a] && [a][..0] == [];
    assert Slots([a, b, c], seq(2, _ => ZERO)) == [c, b];
  }

  /**
   * The recent samples of a buffer sit where their position picks: each of
   * the last `|vals|` samples written is in slot j % |vals|.
   */
  ghost predicate HoldsRecent(vals: seq<Float>, written: seq<Float>) {
    |vals| > 0 && forall j | 0 <= j < |written| && |written| - |vals| <= j :: vals[j % |vals|] == written[j]
  }

  /** Writing the next sample into the slot its position picks keeps the recent samples in place. */
  lemma HoldsRecentAfterWrite(vals: seq<Float>, written: seq<Float>, v: Float)
    requires HoldsRecent(vals, written)
    ensures HoldsRecent(vals[|written| % |vals| := v], written + [v])
  {
    var cap, n := |vals|, |written|;
    var vals', written' := vals[n % cap := v], written + [v];
    forall j | 0 <= j < |written'| && |written'| - cap <= j ensures vals'[j % cap] == written'[j] {
      if j < n {
        DistinctResidues(j, n, cap);
      }
    }
  }

  /** A slot within the first min(n, capacity) was last written by the sample at this position. */
  function LastWriter(n: nat, cap: nat, i: nat): (j: nat)
    requires 0 < cap && i < cap && i < n
    ensures j < n && n - cap <= j && j % cap == i
  {
    SmallMod(i, cap);
    if n <= cap then
      i
    else
      var j := (n - cap) + (i - n + cap) % cap;
      ModShift(i - n + cap, n - cap, cap);
      assert (i - n + cap) % cap + (n - cap) == j;
      j
  }

  /**
   * Slots that hold the recent samples, read in physical order, are what the
   * reference definition replays.
   */
  lemma ReplayIsPhysical(vals: seq<Float>, written: seq<Float>)
    requires HoldsRecent(vals, written)
    ensures vals[..Min(|written|, |vals|)] == PhysicalSamples(written, |vals|)
  {
    var cap, n := |vals|, |written|;
    var init := seq(cap, _ => ZERO);
    SlotsHoldRecent(written, init);
    forall i | 0 <= i < Min(n, cap) ensures vals[i] == Slots(written, init)[i] {
      var j := LastWriter(n, cap, i);
      assert vals[j % cap] == written[j];
    }
  }

  /** Go's `%` on a shifted remainder: adding a remainder or the number it came from gives the same residue. */
  lemma ModShift(a: int, b: int, cap: int)
    requires cap > 0
    ensures (a % cap + b) % cap == (a + b) % cap
  {
    var q := a / cap;
    assert a + b == (a % cap + b) + q * cap;
    var q2 := (a % cap + b) / cap;
    assert a + b == (q + q2) * cap + (a % cap + b) % cap;
    DivModUnique(a + b, cap, q + q2, (a % cap + b) % cap);
  }

  // ---------------------------------------------------------------------
  // Subscriber channel

  /** A `chan float64` as its reader sees it: every value sent on it so far. A send is an append. */
  class Channel {
    var sent: seq<Float>

    constructor ()
      ensures sent == []
    {
      sent := [];
    }
  }

  // ---------------------------------------------------------------------
  // RingBuffer

  /**
   * RingBuffer: `values` holds the slots, `next` the slot the next sample
   * goes to, `n` how many samples were ever added, `ch` the subscriber (nil
   * when none) and `bindN` the window size recorded by Bind. `written` is the
   * whole history, kept only for the proof.
   */
  class RingBuffer {
    var next: int
    const values: array<Float>
    var n: nat
    var ch: Channel?
    var bindN: U64
    ghost var written: seq<Float>

    ghost predicate Valid()
      reads this, values
    {
      && n == |written|
      && values.Length > 0
      && next == n % values.Length
      && HoldsRecent(values[..], written)
    }

    /** The buffer getMetric allocates: `capacity` zeroed slots, nothing written, no subscriber. */
    constructor (capacity: nat)
      requires capacity > 0
      ensures Valid() && fresh(values) && values.Length == capacity
      ensures written == [] && ch == null && bindN == 0
      ensures forall i | 0 <= i < capacity :: values[i] == ZERO
    {
      next := 0;
      n := 0;
      ch := null;
      bindN := 0;
      written := [];
      values := new Float[capacity](_ => ZERO);
    }

    /** The two fields Bind sets, the subscriber and its requested count; close clears the first. */
    method Subscribe(c: Channel?, count: U64)
      requires Valid()
      modifies this`ch, this`bindN
      ensures Valid() && ch == c && bindN == count
    {
      ch := c;
      bindN := count;
    }

    /**
     * Add: the sample goes to slot `next`, `next` advances modulo the
     * capacity, `n` grows by one, and the sample is sent to the subscriber
     * when there is one.
     */
    method Add(v: Float)
      requires Valid()
      modifies this, values, ch
      ensures Valid()
      ensures ch == old(ch) && bindN == old(bindN)
      ensures written == old(written) + [v]
      ensures values[..] == old(values[..])[old(next) := v]
      ensures ch != null ==> ch.sent == old(ch.sent) + [v]
    {
      HoldsRecentAfterWrite(values[..], written, v);
      values[next] := v;
      next := (next + 1) % values.Length;
      ModShift(n, 1, values.Length);
      n := n + 1;
      written := written + [v];
      assert written[..|written| - 1] == old(written);
      if ch != null {
        ch.sent := ch.sent + [v];
      }
    }
  }

  // ---------------------------------------------------------------------
  // MetricStore

  /** The largest MetricID: IDs are uint32 and the counter is not allowed to wrap back to 0 here. */
  const MAX_METRIC_ID: nat := 0xFFFF_FFFF

  /** maps.Copy(dst, src): every key of `src` takes its value from `src`; every other key of `dst` keeps its value. */
  function Copied(dst: map<string, Histogram>, src: map<string, Histogram>): (r: map<string, Histogram>)
    ensures forall k :: k in r <==> k in dst || k in src
    ensures forall k | k in src :: r[k] == src[k]
    ensures forall k | k in dst && k !in src :: r[k] == dst[k]
  {
    dst + src
  }

  /** Copying the same batch twice is copying it once. */
  lemma CopiedTwice(dst: map<string, Histogram>, src: map<string, Histogram>)
    ensures Copied(Copied(dst, src), src) == Copied(dst, src)
  {
    var once := Copied(dst, src);
    assert forall k | k in once :: Copied(once, src)[k] == once[k];
  }

  /** GetHist: the histogram stored under the key string, or the panic it raises with that string. */
  datatype Lookup = Found(h: Histogram) | PanicWith(message: string)


  /** The replay of Samples starts at slot (next - n + capacity) % capacity, which is always slot 0. */
  lemma ReplayStartsAtZero(n: nat, cap: int)
    requires cap > 0
    ensures GoRem(n % cap - n + cap, cap) == 0
  {
    var q := n / cap;
    assert n == q * cap + n % cap;
    assert n % cap - n + cap == (1 - q) * cap;
    DivModUnique(n % cap - n + cap, cap, 1 - q, 0);
    GoRemOfMultiple(n % cap - n + cap, cap);
  }

  /** A slot index shifted by a whole turn of the ring lands in the same slot. */
  lemma ModOneTurn(x: int, cap: int)
    requires cap > 0
    ensures (x + cap) % cap == x % cap
  {
    ModShift(cap, x, cap);
  }

  /** Counting `i` slots on from the slot of the oldest retained sample reaches the slot of the i-th retained sample. */
  lemma OldestSlot(n: nat, m: nat, cap: int, i: nat)
    requires cap > 0 && m <= cap && m <= n && i < m
    ensures ((n % cap - m + cap) % cap + i) % cap == (n - m + i) % cap
  {
    ModShift(n % cap - m + cap, i, cap);
    ModShift(n, cap - m + i, cap);
    ModOneTurn(n - m + i, cap);
  }

  // ---------------------------------------------------------------------
  // sort.Slice with the comparator of Update and Bind

  /**
   * The comparator Update and Bind hand to sort.Slice: it compares the name of
   * one label with the VALUE of the other.
   */
  predicate NameBeforeValue(a: Label, b: Label) {
    LexLess(a.name, b.value)
  }

  /**
   * sort.Slice on a slice of at most 12 elements: Go's pdqsort falls back to
   * an insertion sort, which walks each element left past every neighbour
   * the comparator says it goes before. `sorted` is already done.
   */
  function InsertLeft(sorted: seq<Label>, x: Label, less: (Label, Label) -> bool): (r: seq<Label>)
    ensures multiset(r) == multiset(sorted) + multiset{x}
  {
    if sorted == [] then [x]
    else
      var last := sorted[|sorted| - 1];
      assert sorted == sorted[..|sorted| - 1] + [last];
      if less(x, last) then InsertLeft(sorted[..|sorted| - 1], x, less) + [last]
      else sorted + [x]
  }

  function InsertionSort(ls: seq<Label>, less: (Label, Label) -> bool): (r: seq<Label>)
    ensures multiset(r) == multiset(ls)
  {
    if ls == [] then []
    else
      var init := ls[..|ls| - 1];
      assert ls == init + [ls[|ls| - 1]];
      InsertLeft(InsertionSort(init, less), ls[|ls| - 1], less)
  }

  /** The key string a short sample gets in Update: its labels in the order the faulty comparator leaves them. */
  function StoreKeyAsWritten(name: string, labels: seq<Label>): string {
    KeyString(MetricKey(name, InsertionSort(labels, NameBeforeValue)))
  }

  /**
   * The same series, sent with its two labels in the two possible orders,
   * gets two different key strings in the store, and so two series: the
   * comparator never reorders `a="2", b="1"` nor `b="1", a="2"`.
   */
  lemma LabelOrderSplitsSeries()
    ensures var a, b := Label("a", "2"), Label("b", "1");
            && StoreKeyAsWritten("x", [a, b]) == KeyString(MetricKey("x", [a, b]))
            && StoreKeyAsWritten("x", [b, a]) == KeyString(MetricKey("x", [b, a]))
            && StoreKeyAsWritten("x", [a, b]) != StoreKeyAsWritten("x", [b, a])
  {
    var a, b := Label("a", "2"), Label("b", "1");
    assert !LexLess("b", "2") && !LexLess("a", "1");
    TwoLabelsStay(a, b);
    TwoLabelsStay(b, a);
    TwoLabelKey("x", a, b);
    TwoLabelKey("x", b, a);
    assert KeyString(MetricKey("x", [a, b]))[2] == 'a';
    assert KeyString(MetricKey("x", [b, a]))[2] == 'b';
  }

  /** The key string of a name with two labels. */
  lemma TwoLabelKey(name: string, x: Label, y: Label)
    ensures KeyString(MetricKey(name, [x, y])) == name + "{" + LabelString(x) + ", " + LabelString(y) + "}"
  {
    assert [x, y][..1] == [x];
    assert LeadingLabels([x]) == LabelString(x) + ", " + LeadingLabels([]);
  }

  /** Insertion sort leaves two labels alone when the second does not go before the first. */
  lemma TwoLabelsStay(x: Label, y: Label)
    requires !NameBeforeValue(y, x)
    ensures InsertionSort([x, y], NameBeforeValue) == [x, y]
  {
    assert [x, y][..1] == [x] && [x][..0] == [];
    assert InsertionSort([x], NameBeforeValue) == [x];
  }

  /** The key string with the comparator evidently intended, name against name. */
  function StoreKey(name: string, labels: seq<Label>): string {
    KeyString(MetricKey(name, SortByName(labels)))
  }

  /**
   * With names compared to names, the order the labels arrive in no longer
   * matters, as long as no name is carried by two different labels.
   */
  lemma StoreKeyIgnoresLabelOrder(name: string, a: seq<Label>, b: seq<Label>)
    requires multiset(a) == multiset(b)
    requires NamesDetermineLabels(a)
    ensures StoreKey(name, a) == StoreKey(name, b)
  {
    SortByNameIgnoresOrder(a, b);
  }

  // ---------------------------------------------------------------------
  // MetricStore

  /**
   * The replay loop of Samples over one buffer holding the samples `written`:
   * it starts at GoRem(next - n + capacity, capacity), which is always slot 0,
   * and reads the first min(n, capacity) slots in physical order.
   */
  method ReplayFromZero(values: array<Float>, n: nat, next: int, ghost written: seq<Float>) returns (emitted: seq<Float>)
    requires values.Length > 0 && n == |written| && next == n % values.Length
    requires HoldsRecent(values[..], written)
    ensures emitted == PhysicalSamples(written, values.Length)
  {
    var cap := values.Length;
    var end := Min(n, cap);
    var start := GoRem(next - n + cap, cap);
    ReplayStartsAtZero(n, cap);
    emitted := [];
    var i := start;
    while i < end
      invariant 0 <= i <= end
      invariant emitted == values[..i]
    {
      SmallMod(i, cap);
      emitted := emitted + [values[i % cap]];
      i := i + 1;
    }
    ReplayIsPhysical(values[..], written);
  }

  /**
   * The replay the ring buffer is meant to give: min(n, capacity) slots read
   * from the slot of the oldest retained sample onwards, wrapping round.
   */
  method ReplayFromOldest(values: array<Float>, n: nat, next: int, ghost written: seq<Float>) returns (emitted: seq<Float>)
    requires values.Length > 0 && n == |written| && next == n % values.Length
    requires HoldsRecent(values[..], written)
    ensures emitted == Recent(written, values.Length)
  {
    var cap := values.Length;
    var m := Min(n, cap);
    var start := (next - m + cap) % cap;
    emitted := [];
    var i := 0;
    while i < m
      invariant 0 <= i <= m
      invariant emitted == written[n - m..n - m + i]
    {
      OldestSlot(n, m, cap, i);
      assert values[..][(n - m + i) % cap] == written[n - m + i];
      emitted := emitted + [values[(start + i) % cap]];
      i := i + 1;
    }
  }

  /**
   * MetricStore: `index` maps a key string to its MetricID, `metrics` an ID
   * to its ring buffer, `nextMetricID` is the ID the next new series gets and
   * `histograms` the latest histogram per key string. `Repr` holds the
   * buffers and their slot arrays.
   */
  class MetricStore {
    var numSamples: int
    var nextMetricID: nat
    var index: map<string, nat>
    var metrics: map<nat, RingBuffer>
    var histograms: map<string, Histogram>
    ghost var Repr: set<object>

    /**
     * Every key string has an ID with a buffer, no two key strings share an
     * ID, every ID is below the next one to hand out, no two IDs share a
     * buffer or a slot array, and every buffer has `numSamples` slots.
     */
    ghost predicate Valid()
      reads this, Repr
    {
      && this !in Repr
      && numSamples > 0
      && nextMetricID <= MAX_METRIC_ID
      && (forall s | s in index :: index[s] in metrics)
      && (forall s, t | s in index && t in index && s != t :: index[s] != index[t])
      && (forall id | id in metrics :: id < nextMetricID && metrics[id] in Repr && metrics[id].values in Repr)
      && (forall i, j | i in metrics && j in metrics && i != j ::
            metrics[i] != metrics[j] && metrics[i].values != metrics[j].values)
      && (forall id | id in metrics :: metrics[id].values.Length == numSamples && metrics[id].Valid())
    }

    /** Every sample the series of key string `s` has received, oldest first. */
    ghost function Series(s: string): seq<Float>
      reads this, Repr
      requires Valid() && s in index
    {
      metrics[index[s]].written
    }

    /** The channel bound to the series of key string `s`, or null. */
    ghost function SubscriberOf(s: string): Channel?
      reads this, Repr
      requires Valid() && s in index
    {
      metrics[index[s]].ch
    }

    /** Every channel some series is bound to. */
    ghost function Subscribers(): set<Channel?>
      reads this, Repr
      requires Valid()
    {
      set id | id in metrics :: metrics[id].ch
    }

    /** NewMetricStore: no series, no histograms, IDs from 0. */
    constructor (numSamples: int)
      requires numSamples > 0
      ensures Valid() && fresh(Repr)
      ensures this.numSamples == numSamples && nextMetricID == 0
      ensures index == map[] && metrics == map[] && histograms == map[]
    {
      this.numSamples := numSamples;
      nextMetricID := 0;
      index := map[];
      metrics := map[];
      histograms := map[];
      Repr := {};
    }

    /**
     * getMetric: the buffer of a known key string; a new key string gets the
     * next ID, never used before, and a fresh zeroed buffer of `numSamples`
     * slots. No existing buffer changes.
     */
    method GetMetric(key: MetricKey) returns (buf: RingBuffer)
      requires Valid()
      requires KeyString(key) in index || nextMetricID < MAX_METRIC_ID
      modifies this
      ensures Valid()
      ensures numSamples == old(numSamples) && histograms == old(histograms)
      ensures KeyString(key) in index && buf == metrics[index[KeyString(key)]]
      ensures old(KeyString(key) in index) ==>
                index == old(index) && metrics == old(metrics) && nextMetricID == old(nextMetricID) && Repr == old(Repr)
      ensures old(KeyString(key) !in index) ==>
                && old(nextMetricID) !in old(metrics)
                && index == old(index)[KeyString(key) := old(nextMetricID)]
                && metrics == old(metrics)[old(nextMetricID) := buf]
                && nextMetricID == old(nextMetricID) + 1
                && fresh(buf) && fresh(buf.values) && Repr == old(Repr) + {buf, buf.values}
                && buf.written == [] && buf.ch == null && buf.bindN == 0
      ensures forall s | s in old(index) :: Series(s) == old(Series(s)) && SubscriberOf(s) == old(SubscriberOf(s))
      ensures old(Subscribers()) <= Subscribers()
    {
      var s := KeyString(key);
      if s in index {
        buf := metrics[index[s]];
        return;
      }
      buf := Register(s);
      forall c | c in old(Subscribers()) ensures c in Subscribers() {
        var id :| id in old(metrics) && old(metrics[id].ch) == c;
        assert metrics[id] == old(metrics[id]);
      }
    }

    /** The second half of getMetric: a new key string gets the next ID and a fresh zeroed buffer. */
    method Register(s: string) returns (buf: RingBuffer)
      requires Valid()
      requires s !in index && nextMetricID < MAX_METRIC_ID
      modifies this
      ensures Valid()
      ensures numSamples == old(numSamples) && histograms == old(histograms)
      ensures old(nextMetricID) !in old(metrics)
      ensures index == old(index)[s := old(nextMetricID)]
      ensures metrics == old(metrics)[old(nextMetricID) := buf]
      ensures nextMetricID == old(nextMetricID) + 1
      ensures fresh(buf) && fresh(buf.values) && Repr == old(Repr) + {buf, buf.values}
      ensures buf.written == [] && buf.ch == null && buf.bindN == 0
    {
      var id := nextMetricID;
      buf := new RingBuffer(numSamples);
      index := index[s := id];
      nextMetricID := nextMetricID + 1;
      metrics := metrics[id := buf];
      Repr := Repr + {buf, buf.values};
    }

    /**
     * The second half of Update: the sample goes into the buffer of the
     * known key string `k` and to its subscriber; every other series and
     * every other channel is left alone.
     */
    method AddTo(k: string, v: Float)
      requires Valid() && k in index
      modifies Repr, Subscribers()
      ensures Valid()
      ensures Series(k) == old(Series(k)) + [v]
      ensures forall s | s in index && s != k :: Series(s) == old(Series(s))
      ensures forall s | s in index :: SubscriberOf(s) == old(SubscriberOf(s))
      ensures forall c: Channel | c in old(Subscribers()) ::
                c.sent == old(c.sent) + (if c == old(SubscriberOf(k)) then [v] else [])
    {
      var id := index[k];
      var buf := metrics[id];
      assert forall s | s in index && s != k :: index[s] != id;
      buf.Add(v);
      assert forall j | j in metrics && j != id :: metrics[j] != buf && metrics[j].values != buf.values;
    }

    /**
     * Update: the sample is appended to the series of its key, built from
     * the labels in the order sort.Slice left them (`sorted`, some
     * permutation of the sample's labels; the caller's slice is left in that
     * order too), and sent to that series' subscriber. No other series and
     * no other subscriber sees anything.
     */
    method Update(m: RawMetric, sorted: seq<Label>) returns (reordered: RawMetric)
      requires Valid()
      requires multiset(sorted) == multiset(m.labels)
      requires KeyString(MetricKey(m.name, sorted)) in index || nextMetricID < MAX_METRIC_ID
      modifies this, Repr, Subscribers()
      ensures Valid()
      ensures reordered == m.(labels := sorted)
      ensures numSamples == old(numSamples) && histograms == old(histograms)
      ensures var k := KeyString(MetricKey(m.name, sorted));
              && k in index
              && Series(k) == (if k in old(index) then old(Series(k)) else []) + [m.value]
              && (forall s | s in old(index) :: s in index && index[s] == old(index[s]))
              && (forall s | s in old(index) && s != k :: Series(s) == old(Series(s)))
              && (forall s | s in old(index) :: SubscriberOf(s) == old(SubscriberOf(s)))
              && (k !in old(index) ==> SubscriberOf(k) == null)
      ensures var k := KeyString(MetricKey(m.name, sorted));
              forall c: Channel | c in old(Subscribers()) ::
                c.sent == old(c.sent) + (if k in old(index) && c == old(SubscriberOf(k)) then [m.value] else [])
    {
      var key := MetricKey(m.name, sorted);
      var k := KeyString(key);
      ghost var known := k in index;
      var buf := GetMetric(key);
      assert !known ==> SubscriberOf(k) == null;
      AddTo(k, m.value);
      reordered := m.(labels := sorted);
    }

    /** UpdateHistograms: every histogram of the batch replaces the one stored under its key string; other keys keep theirs. */
    method UpdateHistograms(hs: map<string, Histogram>)
      requires Valid()
      modifies this`histograms
      ensures Valid()
      ensures histograms == Copied(old(histograms), hs)
    {
      histograms := histograms + hs;
    }

    /**
     * Samples: -1 and no callback for a key string never seen; otherwise the
     * callback (`emitted`, in call order) sees the first min(n, capacity)
     * slots in physical order, since the replay always starts at slot 0, and
     * the raw count of samples ever added is returned.
     */
    method Samples(key: MetricKey) returns (emitted: seq<Float>, total: int)
      requires Valid()
      ensures KeyString(key) !in index ==> total == -1 && emitted == []
      ensures KeyString(key) in index ==>
                && total == |Series(KeyString(key))|
                && emitted == PhysicalSamples(Series(KeyString(key)), numSamples)
    {
      var s := KeyString(key);
      if s !in index {
        return [], -1;
      }
      var buf := metrics[index[s]];
      emitted := ReplayFromZero(buf.values, buf.n, buf.next, buf.written);
      total := buf.n;
    }

    /**
     * The replay Samples is meant to give: the most recent min(n, capacity)
     * samples, oldest first, starting at the slot of the oldest one.
     */
    method SamplesInOrder(key: MetricKey) returns (emitted: seq<Float>, total: int)
      requires Valid()
      ensures KeyString(key) !in index ==> total == -1 && emitted == []
      ensures KeyString(key) in index ==>
                && total == |Series(KeyString(key))|
                && emitted == Recent(Series(KeyString(key)), numSamples)
    {
      var s := KeyString(key);
      if s !in index {
        return [], -1;
      }
      var buf := metrics[index[s]];
      emitted := ReplayFromOldest(buf.values, buf.n, buf.next, buf.written);
      total := buf.n;
    }

    /** GetHist: the histogram stored under the key string of `mk`, or a panic carrying that string. */
    function GetHist(mk: MetricKey): (r: Lookup)
      reads this
      ensures r.Found? <==> KeyString(mk) in histograms
      ensures r.Found? ==> r.h == histograms[KeyString(mk)]
      ensures r.PanicWith? ==> r.message == KeyString(mk)
    {
      var s := KeyString(mk);
      if s in histograms then Found(histograms[s]) else PanicWith(s)
    }

    /**
     * Bind: the key is looked up with its labels in the order sort.Slice left
     * them (`sorted`). A key string never seen gives no stream and changes
     * nothing; otherwise `outChan` replaces whatever subscriber the series
     * had and `n`, converted to uint64, is recorded. No samples change.
     */
    method Bind(key: MetricKey, sorted: seq<Label>, outChan: Channel?, n: int) returns (st: Stream?)
      requires Valid()
      requires multiset(sorted) == multiset(key.labels)
      modifies Repr
      ensures Valid()
      ensures index == old(index) && metrics == old(metrics) && Repr == old(Repr)
      ensures forall s | s in index :: Series(s) == old(Series(s))
      ensures var k := KeyString(MetricKey(key.name, sorted));
              && (k !in index ==>
                    && st == null
                    && (forall s | s in index :: SubscriberOf(s) == old(SubscriberOf(s)))
                    && forall id | id in metrics :: metrics[id].bindN == old(metrics[id].bindN))
              && (k in index ==>
                    && st != null && fresh(st) && st.store == this && st.key == k && st.ch == outChan
                    && SubscriberOf(k) == outChan && metrics[index[k]].bindN == n % TWO_TO_THE_64
                    && (forall s | s in index && s != k :: SubscriberOf(s) == old(SubscriberOf(s)))
                    && forall s | s in index && s != k :: metrics[index[s]].bindN == old(metrics[index[s]].bindN))
    {
      var mk := MetricKey(key.name, sorted);
      var s := KeyString(mk);
      if s !in index {
        return null;
      }
      var id := index[s];
      var buf := metrics[id];
      assert forall t | t in index && t != s :: index[t] != id;
      buf.Subscribe(outChan, n % TWO_TO_THE_64);
      st := new Stream(this, s, buf.ch);
    }

    /**
     * close: the key string is looked up, a missing one reading as ID 0, and
     * that series loses its subscriber. When no series has that ID the nil
     * buffer is dereferenced and the call panics.
     */
    method Close(key: string) returns (panicked: bool)
      requires Valid()
      modifies Repr
      ensures Valid()
      ensures index == old(index) && metrics == old(metrics) && Repr == old(Repr)
      ensures forall s | s in index :: Series(s) == old(Series(s))
      ensures var id := if key in index then index[key] else 0;
              && (panicked <==> id !in metrics)
              && (!panicked ==> metrics[id].ch == null)
              && forall s | s in index && index[s] != id :: SubscriberOf(s) == old(SubscriberOf(s))
      ensures forall id | id in metrics ::
                metrics[id].bindN == old(metrics[id].bindN) && metrics[id].values[..] == old(metrics[id].values[..])
    {
      var id := if key in index then index[key] else 0;
      if id !in metrics {
        return true;
      }
      var buf := metrics[id];
      buf.Subscribe(null, buf.bindN);
      panicked := false;
    }
  }

  /** Stream: the handle Bind returns, naming the store, the key string and the channel bound. */
  class Stream {
    const store: MetricStore
    const key: string
    const ch: Channel?

    constructor (store: MetricStore, key: string, ch: Channel?)
      ensures this.store == store && this.key == key && this.ch == ch
    {
      this.store := store;
      this.key := key;
      this.ch := ch;
    }

    /**
     * Stream.Close: the series of the stream's key loses whatever subscriber
     * it has now, even one bound after this stream; closing again changes
     * nothing more. No samples change.
     */
    method Close()
      requires store.Valid() && key in store.index
      modifies store.Repr
      ensures store.Valid()
      ensures store.index == old(store.index) && store.metrics == old(store.metrics)
      ensures store.SubscriberOf(key) == null
      ensures forall s | s in store.index :: store.Series(s) == old(store.Series(s))
      ensures forall s | s in store.index && s != key :: store.SubscriberOf(s) == old(store.SubscriberOf(s))
    {
      var _ := store.Close(key);
    }
  }
}
