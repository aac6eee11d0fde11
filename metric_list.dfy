/**
 * pkg/widgets/metric_list.go: the list of metrics seen so far. Metrics are
 * added once per key string, can be narrowed to the histograms or to the
 * names matching a wildcard pattern, and one row can be selected. The
 * regular expression engine is handed in as a function from an expression
 * to a matcher (None when it does not compile); drawing is not modelled.
 */
module MetricListWidget {
  import opened Common
  import opened GoStrings
  import opened Metric

  /** The characters the pattern's replacer escapes with a backslash. */
  const META: string := ".+(){}|^$"

  /** The replacer pass: each metacharacter gets a backslash in front of it. */
  function EscapeMeta(s: string): string {
    if s == [] then [] else (if s[0] in META then ['\\', s[0]] else [s[0]]) + EscapeMeta(s[1..])
  }

  /** strings.ReplaceAll for a one-character old string. */
  function ReplaceAllChar(s: string, c: char, with: string): string {
    if s == [] then [] else (if s[0] == c then with else [s[0]]) + ReplaceAllChar(s[1..], c, with)
  }

  /** wildcardToRegex: escape the metacharacters, then * becomes .* and ? becomes ., anchored at both ends. */
  function WildcardToRegex(pattern: string): string {
    "^" + ReplaceAllChar(ReplaceAllChar(EscapeMeta(pattern), '*', ".*"), '?', ".") + "$"
  }

  /** What one character of a wildcard pattern stands for in the expression. */
  function Translate(c: char): string {
    if c in META then ['\\', c] else if c == '*' then ".*" else if c == '?' then "." else [c]
  }

  /** The pattern translated character by character. */
  function TranslateAll(s: string): string {
    if s == [] then [] else Translate(s[0]) + TranslateAll(s[1..])
  }

  lemma {:induction false} ReplaceAllAppend(a: string, b: string, c: char, with: string)
    ensures ReplaceAllChar(a + b, c, with) == ReplaceAllChar(a, c, with) + ReplaceAllChar(b, c, with)
    decreases |a|
  {
    if a == [] {
      assert a + b == b;
    } else {
      assert (a + b)[0] == a[0] && (a + b)[1..] == a[1..] + b;
      ReplaceAllAppend(a[1..], b, c, with);
    }
  }

  /**
   * The three passes of wildcardToRegex never undo one another: the
   * expression is the pattern translated character by character, between
   * ^ and $.
   */
  lemma {:induction false} WildcardToRegexPerCharacter(pattern: string)
    ensures WildcardToRegex(pattern) == "^" + TranslateAll(pattern) + "$"
  {
    PassesPerCharacter(pattern);
  }

  lemma {:induction false} PassesPerCharacter(s: string)
    ensures ReplaceAllChar(ReplaceAllChar(EscapeMeta(s), '*', ".*"), '?', ".") == TranslateAll(s)
    decreases |s|
  {
    if s != [] {
      var head := if s[0] in META then ['\\', s[0]] else [s[0]];
      ReplaceAllAppend(head, EscapeMeta(s[1..]), '*', ".*");
      ReplaceAllAppend(ReplaceAllChar(head, '*', ".*"), ReplaceAllChar(EscapeMeta(s[1..]), '*', ".*"), '?', ".");
      PassesPerCharacter(s[1..]);
      if s[0] in META {
        assert ReplaceAllChar(head, '*', ".*") == head by {
          assert head[1..][1..] == [];
        }
        assert ReplaceAllChar(head, '?', ".") == head by {
          assert head[1..][1..] == [];
        }
      } else {
        assert head[1..] == [];
        if s[0] == '*' {
          assert ReplaceAllChar(".*", '?', ".") == ".*" by {
            assert ".*"[1..][1..] == [];
          }
        }
      }
    }
  }

  /** A pattern with no metacharacter and no wildcard is taken literally. */
  lemma {:induction false} LiteralPattern(s: string)
    requires forall i | 0 <= i < |s| :: s[i] !in META && s[i] != '*' && s[i] != '?'
    ensures TranslateAll(s) == s
    decreases |s|
  {
    if s != [] {
      LiteralPattern(s[1..]);
      assert s == [s[0]] + s[1..];
    }
  }

  /** MetricInfo: a series as the list shows it. */
  datatype MetricInfo = MetricInfo(name: string, labels: seq<Label>, isHist: bool)

  /** Key(). */
  function KeyOf(m: MetricInfo): MetricKey {
    MetricKey(m.name, m.labels)
  }

  /** The key string the list tells metrics apart by. */
  function KeyText(m: MetricInfo): string {
    KeyString(KeyOf(m))
  }

  /** The key strings of some metrics. */
  function KeysOf(ms: seq<MetricInfo>): set<string> {
    if ms == [] then {} else KeysOf(ms[..|ms| - 1]) + {KeyText(ms[|ms| - 1])}
  }

  /** A key string is known exactly when some metric has it. */
  lemma {:induction false} KeysOfMembers(ms: seq<MetricInfo>)
    ensures forall i | 0 <= i < |ms| :: KeyText(ms[i]) in KeysOf(ms)
    ensures forall k | k in KeysOf(ms) :: exists i | 0 <= i < |ms| :: KeyText(ms[i]) == k
    decreases |ms|
  {
    if ms != [] {
      var init := ms[..|ms| - 1];
      KeysOfMembers(init);
      assert forall i | 0 <= i < |init| :: init[i] == ms[i];
    }
  }

  /** No two metrics share a key string. */
  predicate Distinct(ms: seq<MetricInfo>) {
    forall i, j | 0 <= i < j < |ms| :: KeyText(ms[i]) != KeyText(ms[j])
  }

  /** Metrics with distinct key strings have as many key strings as metrics: the title's total counts the list. */
  lemma {:induction false} KeysOfDistinct(ms: seq<MetricInfo>)
    requires Distinct(ms)
    ensures |KeysOf(ms)| == |ms|
    decreases |ms|
  {
    if ms != [] {
      var init := ms[..|ms| - 1];
      assert Distinct(init) by {
        assert forall i | 0 <= i < |init| :: init[i] == ms[i];
      }
      KeysOfDistinct(init);
      KeysOfMembers(init);
    }
  }

  /**
   * The metrics AddMetrics appends: those of the batch whose key string is
   * neither known already nor that of an earlier metric of the batch.
   */
  function Dedup(batch: seq<MetricInfo>, seen: set<string>): (r: seq<MetricInfo>)
    ensures |r| <= |batch|
  {
    if batch == [] then []
    else
      var init := batch[..|batch| - 1];
      var m := batch[|batch| - 1];
      if KeyText(m) in seen + KeysOf(init) then Dedup(init, seen) else Dedup(init, seen) + [m]
  }

  /** One more metric of the batch taken in by the loop of AddMetrics. */
  lemma DedupSnoc(batch: seq<MetricInfo>, i: nat, seen: set<string>)
    requires i < |batch|
    ensures KeysOf(batch[..i + 1]) == KeysOf(batch[..i]) + {KeyText(batch[i])}
    ensures Dedup(batch[..i + 1], seen)
              == Dedup(batch[..i], seen) + (if KeyText(batch[i]) in seen + KeysOf(batch[..i]) then [] else [batch[i]])
  {
    assert batch[..i + 1][..i] == batch[..i];
  }

  /** The key strings appended are exactly the batch's new ones, and only metrics of the batch are appended. */
  lemma {:induction false} DedupKeys(batch: seq<MetricInfo>, seen: set<string>)
    ensures KeysOf(Dedup(batch, seen)) == KeysOf(batch) - seen
    ensures forall m | m in Dedup(batch, seen) :: m in batch
    decreases |batch|
  {
    if batch != [] {
      var init := batch[..|batch| - 1];
      var m := batch[|batch| - 1];
      var k := KeyText(m);
      DedupKeys(init, seen);
      KeysOfSnoc(init, m);
      assert batch == init + [m];
      assert KeysOf(batch) - seen == (KeysOf(init) - seen) + ({k} - seen);
      if k !in seen + KeysOf(init) {
        KeysOfSnoc(Dedup(init, seen), m);
        assert {k} - seen == {k};
      } else {
        assert ({k} - seen) <= KeysOf(init) - seen;
      }
    }
  }

  /** No two metrics appended share a key string, nor one already known. */
  lemma {:induction false} DedupDistinct(batch: seq<MetricInfo>, seen: set<string>)
    ensures Distinct(Dedup(batch, seen))
    ensures forall m | m in Dedup(batch, seen) :: KeyText(m) !in seen
    decreases |batch|
  {
    if batch != [] {
      var init := batch[..|batch| - 1];
      var m := batch[|batch| - 1];
      var r0 := Dedup(init, seen);
      DedupDistinct(init, seen);
      if KeyText(m) !in seen + KeysOf(init) {
        DedupKeys(init, seen);
        KeysOfMembers(r0);
        var r := r0 + [m];
        assert forall i | 0 <= i < |r0| :: r[i] == r0[i];
      }
    }
  }

  lemma KeysOfSnoc(s: seq<MetricInfo>, m: MetricInfo)
    ensures KeysOf(s + [m]) == KeysOf(s) + {KeyText(m)}
  {
    assert (s + [m])[..|s|] == s;
  }

  /** Appending a batch's new metrics keeps key strings distinct and makes all of the batch's key strings known. */
  lemma AppendNewKeys(ms: seq<MetricInfo>, batch: seq<MetricInfo>)
    requires Distinct(ms)
    ensures Distinct(ms + Dedup(batch, KeysOf(ms)))
    ensures KeysOf(ms + Dedup(batch, KeysOf(ms))) == KeysOf(ms) + KeysOf(batch)
  {
    var d := Dedup(batch, KeysOf(ms));
    DedupKeys(batch, KeysOf(ms));
    DedupDistinct(batch, KeysOf(ms));
    KeysOfAppend(ms, d);
    KeysOfMembers(ms);
    var r := ms + d;
    forall i, j | 0 <= i < j < |r|
      ensures KeyText(r[i]) != KeyText(r[j])
    {
      if j >= |ms| {
        assert r[j] == d[j - |ms|] && r[j] in d;
        if i >= |ms| {
          assert r[i] == d[i - |ms|];
        }
      }
    }
  }

  lemma {:induction false} KeysOfAppend(a: seq<MetricInfo>, b: seq<MetricInfo>)
    ensures KeysOf(a + b) == KeysOf(a) + KeysOf(b)
    decreases |b|
  {
    if b == [] {
      assert a + b == a;
    } else {
      var init := b[..|b| - 1];
      KeysOfAppend(a, init);
      assert a + b == (a + init) + [b[|b| - 1]];
      KeysOfSnoc(a + init, b[|b| - 1]);
      KeysOfSnoc(init, b[|b| - 1]);
      assert b == init + [b[|b| - 1]];
    }
  }

  /** Adding a batch whose key strings are all known adds nothing: adding the same batch twice is adding it once. */
  lemma {:induction false} DedupOfKnown(batch: seq<MetricInfo>, seen: set<string>)
    requires KeysOf(batch) <= seen
    ensures Dedup(batch, seen) == []
  {
    var r := Dedup(batch, seen);
    DedupKeys(batch, seen);
    KeysOfMembers(r);
    assert forall i | 0 <= i < |r| :: KeyText(r[i]) in KeysOf(r);
  }

  /** The histograms among some metrics, in order. */
  function Histograms(ms: seq<MetricInfo>): (r: seq<MetricInfo>)
    ensures |r| <= |ms|
    ensures forall m | m in r :: m in ms && m.isHist
    ensures forall m | m in ms && m.isHist :: m in r
  {
    if ms == [] then []
    else
      var init, m := ms[..|ms| - 1], ms[|ms| - 1];
      assert ms == init + [m];
      Histograms(init) + (if m.isHist then [m] else [])
  }

  /** The metrics whose name the matcher accepts, in order. */
  function Matching(ms: seq<MetricInfo>, matches: string -> bool): (r: seq<MetricInfo>)
    ensures |r| <= |ms|
    ensures forall m | m in r :: m in ms && matches(m.name)
    ensures forall m | m in ms && matches(m.name) :: m in r
  {
    if ms == [] then []
    else
      var init, m := ms[..|ms| - 1], ms[|ms| - 1];
      assert ms == init + [m];
      Matching(init, matches) + (if matches(m.name) then [m] else [])
  }

  /** The histogram loop of ShowHistograms. */
  method SelectHistograms(ms: seq<MetricInfo>) returns (r: seq<MetricInfo>)
    ensures r == Histograms(ms)
  {
    r := [];
    for i := 0 to |ms|
      invariant r == Histograms(ms[..i])
    {
      assert ms[..i + 1][..i] == ms[..i];
      if ms[i].isHist {
        r := r + [ms[i]];
      }
    }
    assert ms[..|ms|] == ms;
  }

  /** The matching loop of Filter. */
  method SelectMatching(ms: seq<MetricInfo>, matches: string -> bool) returns (r: seq<MetricInfo>)
    ensures r == Matching(ms, matches)
  {
    r := [];
    for i := 0 to |ms|
      invariant r == Matching(ms[..i], matches)
    {
      assert ms[..i + 1][..i] == ms[..i];
      if matches(ms[i].name) {
        r := r + [ms[i]];
      }
    }
    assert ms[..|ms|] == ms;
  }

  /** A slice that may be nil (None). Go's l.metrics is nil until something is appended to it. */
  function AsSlice(ms: seq<MetricInfo>): Option<seq<MetricInfo>> {
    if ms == [] then None else Some(ms)
  }

  /** What a possibly nil slice holds. */
  function Shown(d: Option<seq<MetricInfo>>): seq<MetricInfo> {
    if d.None? then [] else d.value
  }

  /** The row a metric is listed as. */
  function Row(m: MetricInfo): string {
    "- " + KeyText(m)
  }

  /** The rows listing some metrics. */
  function RowsOf(d: seq<MetricInfo>): (r: seq<string>)
    ensures |r| == |d|
  {
    seq(|d|, i requires 0 <= i < |d| => Row(d[i]))
  }

  /** The list's title: rows shown out of metrics known. */
  function TitleOf(shown: nat, total: nat): string {
    "Metrics (" + NatToString(shown) + "/" + NatToString(total) + ")"
  }

  /** Why Filter failed. The compile error's own text comes from the regular expression package. */
  datatype FilterError = BadPattern | EmptyFilter | NoMatch(pattern: string)

  function Message(e: FilterError): Option<string> {
    match e
    case BadPattern => None
    case EmptyFilter => Some("empty filter")
    case NoMatch(p) => Some("\"" + p + "\": no metric matches the specified filter")
  }

  /**
   * MetricList: the row selected, the key strings known, the metrics in the
   * order first seen, the metrics displayed (None is Go's nil slice) and
   * the list widget's rows and title.
   */
  class MetricList {
    var selectedRow: int
    var allMetrics: set<string>
    var metrics: seq<MetricInfo>
    var displayed: Option<seq<MetricInfo>>
    var rows: seq<string>
    var title: string

    /** Each key string is known once, by the first metric with it, and only known metrics are displayed. */
    ghost predicate Valid()
      reads this
    {
      && Distinct(metrics)
      && allMetrics == KeysOf(metrics)
      && forall m | m in Shown(displayed) :: m in metrics
    }

    constructor ()
      ensures Valid()
      ensures selectedRow == 0 && allMetrics == {} && metrics == [] && displayed == None
      ensures rows == [] && title == "Metrics"
    {
      selectedRow := 0;
      allMetrics := {};
      metrics := [];
      displayed := None;
      rows := [];
      title := "Metrics";
    }

    /** The title's total is the number of metrics in the list. */
    lemma TotalIsMetricCount()
      requires Valid()
      ensures |allMetrics| == |metrics|
    {
      KeysOfDistinct(metrics);
    }

    /** RenderList: one row per displayed metric, and the title counting them. */
    method RenderList()
      modifies this`rows, this`title
      ensures rows == RowsOf(Shown(displayed))
      ensures title == TitleOf(|rows|, |allMetrics|)
    {
      var d := Shown(displayed);
      var r: seq<string> := [];
      for i := 0 to |d|
        invariant |r| == i && forall j | 0 <= j < i :: r[j] == Row(d[j])
      {
        r := r + [Row(d[i])];
      }
      rows := r;
      title := TitleOf(|r|, |allMetrics|);
    }

    /** The loop of AddMetrics: a metric is appended when its key string is not yet known, and then becomes known. */
    method TakeBatch(batch: seq<MetricInfo>)
      modifies this`metrics, this`allMetrics
      ensures metrics == old(metrics) + Dedup(batch, old(allMetrics))
      ensures allMetrics == old(allMetrics) + KeysOf(batch)
    {
      for i := 0 to |batch|
        invariant metrics == old(metrics) + Dedup(batch[..i], old(allMetrics))
        invariant allMetrics == old(allMetrics) + KeysOf(batch[..i])
      {
        var m := batch[i];
        var s := KeyText(m);
        DedupSnoc(batch, i, old(allMetrics));
        if s !in allMetrics {
          metrics := metrics + [m];
        }
        allMetrics := allMetrics + {s};
      }
      assert batch[..|batch|] == batch;
    }

    /**
     * AddMetrics: each metric of the batch whose key string is new is
     * appended, and every key string becomes known. A nil display list then
     * shows all metrics.
     */
    method AddMetrics(batch: seq<MetricInfo>)
      requires Valid()
      modifies this`metrics, this`allMetrics, this`displayed, this`rows, this`title
      ensures Valid()
      ensures metrics == old(metrics) + Dedup(batch, old(allMetrics))
      ensures allMetrics == old(allMetrics) + KeysOf(batch)
      ensures displayed == if old(displayed).None? then AsSlice(metrics) else old(displayed)
      ensures rows == RowsOf(Shown(displayed))
      ensures title == TitleOf(|rows|, |allMetrics|)
    {
      TakeBatch(batch);
      AppendNewKeys(old(metrics), batch);
      if displayed.None? {
        displayed := AsSlice(metrics);
      }
      RenderList();
    }

    /** ShowHistograms: display the histograms (a non-nil slice, even when empty). */
    method ShowHistograms()
      requires Valid()
      modifies this`displayed, this`rows, this`title
      ensures Valid()
      ensures displayed == Some(Histograms(metrics))
      ensures rows == RowsOf(Shown(displayed))
      ensures title == TitleOf(|rows|, |allMetrics|)
    {
      var hs := SelectHistograms(metrics);
      displayed := Some(hs);
      RenderList();
    }

    /** Reset: display every metric again. */
    method Reset()
      requires Valid()
      modifies this`displayed, this`rows, this`title
      ensures Valid()
      ensures displayed == AsSlice(metrics)
      ensures rows == RowsOf(metrics)
      ensures title == TitleOf(|metrics|, |allMetrics|)
    {
      displayed := AsSlice(metrics);
      RenderList();
    }

    /**
     * Filter. A pattern whose expression does not compile changes nothing.
     * The empty pattern displays every metric but reports an error and does
     * not redraw. A pattern no name matches changes nothing. Otherwise the
     * metrics whose name matches are displayed.
     */
    method Filter(pattern: string, compile: string -> Option<string -> bool>) returns (err: Option<FilterError>)
      requires Valid()
      modifies this`displayed, this`rows, this`title
      ensures Valid()
      ensures var exp := compile(WildcardToRegex(pattern));
              && (exp.None? ==> err == Some(BadPattern))
              && (exp.Some? && pattern == "" ==> err == Some(EmptyFilter) && displayed == AsSlice(metrics))
              && (exp.Some? && pattern != "" && Matching(metrics, exp.value) == [] ==> err == Some(NoMatch(pattern)))
              && (exp.Some? && pattern != "" && Matching(metrics, exp.value) != [] ==>
                    && err == None && displayed == Some(Matching(metrics, exp.value))
                    && rows == RowsOf(Shown(displayed))
                    && title == TitleOf(|rows|, |allMetrics|))
      ensures err.Some? ==> rows == old(rows) && title == old(title)
      ensures err.Some? && err != Some(EmptyFilter) ==> displayed == old(displayed)
    {
      var exp := compile(WildcardToRegex(pattern));
      if exp.None? {
        return Some(BadPattern);
      }
      if pattern == "" {
        displayed := AsSlice(metrics);
        return Some(EmptyFilter);
      }
      var selected := SelectMatching(metrics, exp.value);
      if |selected| == 0 {
        return Some(NoMatch(pattern));
      }
      displayed := Some(selected);
      RenderList();
      return None;
    }

    /** selectMetric: the displayed metric at the selected row, if there is one; it is always a known metric. */
    function SelectMetric(): (r: Option<MetricInfo>)
      reads this
      requires Valid()
      ensures r.Some? <==> 0 <= selectedRow < |Shown(displayed)|
      ensures r.Some? ==> r.value == Shown(displayed)[selectedRow] && r.value in metrics
    {
      if selectedRow < 0 || selectedRow >= |Shown(displayed)| then None
      else Some(Shown(displayed)[selectedRow])
    }

    /**
     * scroll: a move that would leave the rows drawn is refused; otherwise
     * the selected row moves and the metric displayed there, if any, is
     * selected. The rows drawn and the metrics displayed can differ in
     * length (Filter with an empty pattern does not redraw).
     */
    method Scroll(direction: int) returns (moved: bool, selected: Option<MetricInfo>)
      requires Valid()
      modifies this`selectedRow
      ensures Valid()
      ensures var t := old(selectedRow) + direction;
              if t < 0 || t >= |rows| then !moved && selected == None && selectedRow == old(selectedRow)
              else selectedRow == t && selected == SelectMetric() && (moved <==> selected.Some?)
    {
      if selectedRow + direction < 0 || selectedRow + direction >= |rows| {
        return false, None;
      }
      selectedRow := selectedRow + direction;
      GoRemOneTurn(selectedRow, |rows|);
      selectedRow := GoRem(selectedRow + |rows|, |rows|);
      selected := SelectMetric();
      moved := selected.Some?;
    }

    /** OnKeyPressed: Up and Down scroll by one row; other keys are not handled. */
    method OnKeyPressed(key: string) returns (handled: bool, selected: Option<MetricInfo>)
      requires Valid()
      modifies this`selectedRow
      ensures Valid()
      ensures key != "<Up>" && key != "<Down>" ==> !handled && selected == None && selectedRow == old(selectedRow)
      ensures key == "<Up>" || key == "<Down>" ==>
                var t := old(selectedRow) + (if key == "<Up>" then -1 else 1);
                if t < 0 || t >= |rows| then !handled && selected == None && selectedRow == old(selectedRow)
                else selectedRow == t && selected == SelectMetric() && (handled <==> selected.Some?)
    {
      if key == "<Up>" {
        handled, selected := Scroll(-1);
      } else if key == "<Down>" {
        handled, selected := Scroll(1);
      } else {
        handled, selected := false, None;
      }
    }
  }
}
