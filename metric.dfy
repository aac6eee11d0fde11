/**
 * pkg/metric/metric.go: labels and metric keys, the tolerant line parser for
 * the simplified exposition format, and the pieces the histogram
 * reconstruction is built from (suffix trimming, bin parsing, label sort).
 */
module Metric {
  import opened Common
  import opened GoStrings

  datatype Label = Label(name: string, value: string)

  /** Label.String: `name="value"`, nothing escaped. */
  function LabelString(l: Label): string {
    l.name + "=\"" + l.value + "\""
  }

  datatype MetricKey = MetricKey(name: string, labels: seq<Label>)

  datatype RawMetric = RawMetric(name: string, labels: seq<Label>, value: Float)

  /** The labels before the last one, each followed by ", ", as the loop of MetricKey.String writes them. */
  function LeadingLabels(ls: seq<Label>): string {
    if ls == [] then "" else LabelString(ls[0]) + ", " + LeadingLabels(ls[1..])
  }

  /** MetricKey.String: the name, then the label block when there are labels. */
  function KeyString(mk: MetricKey): string {
    if |mk.labels| == 0 then mk.name
    else
      var last := |mk.labels| - 1;
      mk.name + "{" + LeadingLabels(mk.labels[..last]) + LabelString(mk.labels[last]) + "}"
  }

  function LabelStrings(ls: seq<Label>): (r: seq<string>)
    ensures |r| == |ls| && forall i | 0 <= i < |ls| :: r[i] == LabelString(ls[i])
  {
    seq(|ls|, i requires 0 <= i < |ls| => LabelString(ls[i]))
  }

  /**
   * The key string is the bare name when there are no labels, and otherwise
   * the name followed by every label as `n="v"`, joined by ", " in the given
   * order (no sorting), inside braces.
   */
  lemma KeyStringJoinsLabels(mk: MetricKey)
    ensures |mk.labels| == 0 ==> KeyString(mk) == mk.name
    ensures |mk.labels| > 0 ==> KeyString(mk) == mk.name + "{" + Join(LabelStrings(mk.labels), ", ") + "}"
  {
    if |mk.labels| > 0 {
      var last := |mk.labels| - 1;
      assert mk.labels == mk.labels[..last] + [mk.labels[last]];
      LeadingThenLast(mk.labels[..last], mk.labels[last]);
    }
  }

  lemma {:induction false} LeadingThenLast(p: seq<Label>, l: Label)
    ensures LeadingLabels(p) + LabelString(l) == Join(LabelStrings(p + [l]), ", ")
  {
    if p != [] {
      LeadingThenLast(p[1..], l);
      assert LabelStrings(p + [l])[1..] == LabelStrings(p[1..] + [l]);
    }
  }

  /** `i` is the position of the first label called `name`. */
  predicate FirstNamed(ls: seq<Label>, name: string, i: int) {
    0 <= i < |ls| && ls[i].name == name && forall j | 0 <= j < i :: ls[j].name != name
  }

  /** RawMetric.Find: the value of the first label called `name`, or "" when there is none. */
  function Find(m: RawMetric, name: string): (r: string)
    ensures (forall i | 0 <= i < |m.labels| :: m.labels[i].name != name) ==> r == ""
    ensures forall i | FirstNamed(m.labels, name, i) :: r == m.labels[i].value
  {
    FindIn(m.labels, name)
  }

  function FindIn(ls: seq<Label>, name: string): (r: string)
    ensures (forall i | 0 <= i < |ls| :: ls[i].name != name) ==> r == ""
    ensures forall i | FirstNamed(ls, name, i) :: r == ls[i].value
  {
    if ls == [] then ""
    else if ls[0].name == name then ls[0].value
    else
      var r := FindIn(ls[1..], name);
      assert forall i | 1 <= i < |ls| :: ls[i] == ls[1..][i - 1];
      assert forall i | FirstNamed(ls, name, i) :: i > 0 && FirstNamed(ls[1..], name, i - 1);
      r
  }

  /** The labels of `ls` not called `name`, in their order. */
  function Without(ls: seq<Label>, name: string): (r: seq<Label>)
    ensures |r| <= |ls|
    ensures forall l | l in r :: l.name != name && l in ls
    ensures forall l | l in ls && l.name != name :: l in r
    ensures |r| < |ls| <==> exists i | 0 <= i < |ls| :: ls[i].name == name
  {
    if ls == [] then []
    else
      var rest := Without(ls[1..], name);
      assert forall i | 1 <= i < |ls| :: ls[i] == ls[1..][i - 1];
      (if ls[0].name == name then [] else [ls[0]]) + rest
  }

  /**
   * RawMetric.Remove: the labels not called `name`, in order, and whether
   * one was removed; `m` itself is a value and is not changed. Go returns a
   * nil slice for a metric without labels, which the model does not tell
   * apart from an empty one.
   */
  function Remove(m: RawMetric, name: string): (r: (seq<Label>, bool))
    ensures m.labels == [] ==> r == ([], false)
    ensures r.0 == Without(m.labels, name)
    ensures r.1 <==> exists i | 0 <= i < |m.labels| :: m.labels[i].name == name
  {
    if |m.labels| == 0 then ([], false)
    else
      var ls := Without(m.labels, name);
      (ls, |ls| < |m.labels|)
  }

  /**
   * What parseLabels makes of one comma-separated pair: Dropped when it does
   * not split into exactly two parts on '=', SlicePanic when the value part
   * is shorter than two characters (slicing off its quotes panics).
   */
  datatype PairOutcome = Dropped | Parsed(l: Label) | SlicePanic

  function ParsePair(pair: string): (r: PairOutcome)
    ensures r.Parsed? ==> '=' !in r.l.name && '=' !in r.l.value
  {
    var parts := Split(TrimSpace(pair), '=');
    if |parts| != 2 then Dropped
    else if |parts[1]| < 2 then SlicePanic
    else
      var v := parts[1][1..|parts[1]| - 1];
      assert forall k | 0 <= k < |v| :: v[k] == parts[1][k + 1];
      Parsed(Label(parts[0], v))
  }

  function ParsePairs(pairs: seq<string>): (r: Option<seq<Label>>)
  {
    if pairs == [] then Some([])
    else
      var o := ParsePair(pairs[0]);
      var rest := ParsePairs(pairs[1..]);
      if o.SlicePanic? || rest.None? then None
      else if o.Dropped? then rest
      else Some([o.l] + rest.value)
  }

  /**
   * parseLabels: the text between the braces split on ',', each pair trimmed
   * and split on '='; pairs that do not split in two are dropped, the value
   * loses its first and last character. None stands for the panic of a value
   * part shorter than two characters.
   */
  function ParseLabels(text: string): (r: Option<seq<Label>>)
    ensures r.Some? ==> forall l | l in r.value :: '=' !in l.name && '=' !in l.value && ',' !in l.name && ',' !in l.value
  {
    var pairs := Split(text, ',');
    var r := ParsePairs(pairs);
    assert r.Some? ==> forall l | l in r.value :: ',' !in l.name && ',' !in l.value && '=' !in l.name && '=' !in l.value by {
      if r.Some? {
        PairsStayInPieces(pairs);
      }
    }
    r
  }

  /** parseLabels panics exactly when some pair has a value part shorter than two characters. */
  lemma ParseLabelsPanics(text: string)
    ensures ParseLabels(text).None? <==> exists p | p in Split(text, ',') :: ParsePair(p).SlicePanic?
  {
    ParsePairsPanics(Split(text, ','));
  }

  lemma {:induction false} ParsePairsPanics(pairs: seq<string>)
    ensures ParsePairs(pairs).None? <==> exists i | 0 <= i < |pairs| :: ParsePair(pairs[i]).SlicePanic?
  {
    if pairs != [] {
      ParsePairsPanics(pairs[1..]);
      assert forall i | 1 <= i < |pairs| :: pairs[i] == pairs[1..][i - 1];
    }
  }

  /** The labels come out in the order their pairs were written, without the dropped pairs. */
  lemma {:induction false} ParsePairsKeepsOrder(pairs: seq<string>)
    requires ParsePairs(pairs).Some?
    ensures ParsePairs(pairs).value == ParsedOnly(pairs)
  {
    if pairs != [] {
      ParsePairsKeepsOrder(pairs[1..]);
    }
  }

  /** The labels of the pairs that parse, in order. */
  function ParsedOnly(pairs: seq<string>): (r: seq<Label>)
    ensures |r| <= |pairs|
  {
    if pairs == [] then []
    else (if ParsePair(pairs[0]).Parsed? then [ParsePair(pairs[0]).l] else []) + ParsedOnly(pairs[1..])
  }

  lemma {:induction false} PairsStayInPieces(pairs: seq<string>)
    requires forall i | 0 <= i < |pairs| :: ',' !in pairs[i]
    requires ParsePairs(pairs).Some?
    ensures forall l | l in ParsePairs(pairs).value :: ',' !in l.name && ',' !in l.value && '=' !in l.name && '=' !in l.value
  {
    if pairs != [] {
      var o := ParsePair(pairs[0]);
      var rest := ParsePairs(pairs[1..]);
      assert forall i | 1 <= i < |pairs| :: pairs[i] == pairs[1..][i - 1];
      PairsStayInPieces(pairs[1..]);
      if o.Parsed? {
        ParsedPairChars(pairs[0]);
        assert ParsePairs(pairs).value == [o.l] + rest.value;
      }
    }
  }

  /** A parsed label is made of characters of its pair. */
  lemma ParsedPairChars(p: string)
    requires ParsePair(p).Parsed?
    ensures forall c | c in ParsePair(p).l.name :: c in p
    ensures forall c | c in ParsePair(p).l.value :: c in p
  {
    var t := TrimSpace(p);
    var parts := Split(t, '=');
    assert t == parts[0] + "=" + parts[1];
    TrimSpaceIsInfix(p);
    var v := ParsePair(p).l.value;
    assert forall k | 0 <= k < |v| :: v[k] == parts[1][k + 1];
    assert forall k | 0 <= k < |parts[0]| :: parts[0][k] == t[k];
    assert forall k | 0 <= k < |parts[1]| :: parts[1][k] == t[|parts[0]| + 1 + k];
  }

  lemma TrimSpaceIsInfix(s: string)
    ensures forall k | 0 <= k < |TrimSpace(s)| :: TrimSpace(s)[k] in s
  {
    var t := TrimLeftSpace(s);
    var r := TrimRightSpace(t);
    TrimLeftShape(s);
    TrimRightShape(t);
    assert forall k | 0 <= k < |r| :: r[k] == t[k];
    assert forall k | 0 <= k < |t| :: t[k] == s[|s| - |t| + k];
  }

  /** The fields splitMetricLine cuts a line into. */
  datatype SplitLine = SplitLine(name: string, labels: seq<Label>, valueText: string)

  /** Both kinds of error wrap ErrInvalidMetricLine. */
  datatype ParseError = InvalidLine | InvalidValue

  /** A parse that succeeds, returns an error, or panics. */
  datatype Outcome<T> = Ok(value: T) | Failed(error: ParseError) | Panicked

  /** The first '{' of the line comes before its first '}'. */
  predicate HasLabelBlock(line: string) {
    var i := IndexOf(line, '{');
    var j := IndexOf(line, '}');
    i != -1 && j != -1 && j > i
  }

  /** The text between the first '{' and the first '}' of a line that has a label block. */
  function LabelText(line: string): (r: string)
    requires HasLabelBlock(line)
    ensures '}' !in r
  {
    var i, j := IndexOf(line, '{'), IndexOf(line, '}');
    assert line[..j][i + 1..] == line[i + 1..j];
    line[i + 1..j]
  }

  /**
   * splitMetricLine. A line with a label block splits into the text before
   * the first '{', the labels between it and the first '}', and everything
   * after that '}' as the value text. Any other line must be exactly two
   * white-space separated fields, or it is invalid.
   */
  function SplitMetricLine(line: string): (r: Outcome<SplitLine>)
    ensures r.Failed? ==> r.error == InvalidLine && !HasLabelBlock(line)
    ensures r.Panicked? ==> HasLabelBlock(line)
  {
    if HasLabelBlock(line) then SplitLabelled(line) else SplitBare(line)
  }

  /** The braced form: the parts put back together give the line, and only the label parser can fail, by panicking. */
  function SplitLabelled(line: string): (r: Outcome<SplitLine>)
    requires HasLabelBlock(line)
    ensures !r.Failed?
    ensures r.Panicked? <==> ParseLabels(LabelText(line)).None?
    ensures r.Ok? ==> && line == r.value.name + "{" + LabelText(line) + "}" + r.value.valueText
                      && '{' !in r.value.name && '}' !in r.value.name
                      && ParseLabels(LabelText(line)) == Some(r.value.labels)
  {
    var i, j := IndexOf(line, '{'), IndexOf(line, '}');
    var labels := ParseLabels(LabelText(line));
    if labels.None? then Panicked
    else
      CutAround(line, i, j);
      assert '}' !in line[..i] by {
        assert line[..i] == line[..j][..i];
      }
      Ok(SplitLine(line[..i], labels.value, line[j + 1..]))
  }

  lemma CutAround(s: string, i: int, j: int)
    requires 0 <= i < j < |s|
    ensures s == s[..i] + [s[i]] + s[i + 1..j] + [s[j]] + s[j + 1..]
  {
    assert s[..j] == s[..i] + [s[i]] + s[i + 1..j];
    assert s == s[..j] + [s[j]] + s[j + 1..];
  }

  /** The bare form: exactly two white-space separated fields, the name and the value text. */
  function SplitBare(line: string): (r: Outcome<SplitLine>)
    ensures !r.Panicked?
    ensures r.Ok? <==> |Fields(line)| == 2
    ensures r.Failed? ==> r.error == InvalidLine
    ensures r.Ok? ==> && r.value.labels == [] && IsWord(r.value.name) && IsWord(r.value.valueText)
                      && Fields(line) == [r.value.name, r.value.valueText]
  {
    var parts := Fields(line);
    if |parts| != 2 then Failed(InvalidLine)
    else Ok(SplitLine(parts[0], [], parts[1]))
  }

  /** An empty line has no fields, so it is invalid. */
  lemma EmptyLineIsInvalid()
    ensures SplitMetricLine("") == Failed(InvalidLine)
  {
    assert !HasLabelBlock("");
    assert Fields("") == [];
  }

  /**
   * ParseMetricLine: the split line with its value text handed to fmt.Sscanf's
   * "%f" (the `scan` parameter); a value that does not scan is an error too.
   */
  function ParseMetricLine(line: string, scan: string -> Option<Float>): (r: Outcome<RawMetric>)
    ensures r.Ok? <==> SplitMetricLine(line).Ok? && scan(SplitMetricLine(line).value.valueText).Some?
    ensures r.Ok? ==> var sp := SplitMetricLine(line).value;
              r.value.name == sp.name && r.value.labels == sp.labels
              && Some(r.value.value) == scan(sp.valueText)
    ensures r.Panicked? <==> SplitMetricLine(line).Panicked?
    ensures r.Failed? && r.error == InvalidValue ==> SplitMetricLine(line).Ok?
  {
    match SplitMetricLine(line)
    case Panicked => Panicked
    case Failed(e) => Failed(e)
    case Ok(sp) =>
      match scan(sp.valueText)
      case None => Failed(InvalidValue)
      case Some(v) => Ok(RawMetric(sp.name, sp.labels, v))
  }

  /** A label block whose '}' ends the line leaves an empty value text, which no %f scan accepts. */
  lemma MissingValueIsInvalid(line: string, scan: string -> Option<Float>)
    requires HasLabelBlock(line) && IndexOf(line, '}') == |line| - 1
    requires scan("") == None
    ensures ParseMetricLine(line, scan) == Failed(InvalidValue) || ParseMetricLine(line, scan) == Panicked
  {
    if SplitMetricLine(line).Ok? {
      var sp := SplitMetricLine(line).value;
      assert |sp.name| == IndexOf(line, '{');
      assert sp.valueText == [];
    }
  }

  // ---------------------------------------------------------------------
  // The key string parses back

  /**
   * A label as parseLabels can produce it: no ',', '=' or '}' in its name or
   * value, and a name that does not start with white space.
   */
  predicate WellFormedLabel(l: Label) {
    && ',' !in l.name && ',' !in l.value
    && '=' !in l.name && '=' !in l.value
    && '}' !in l.name && '}' !in l.value
    && (l.name == [] || !IsSpace(l.name[0]))
  }

  /** Every label parseLabels returns is well formed. */
  lemma ParsedLabelsAreWellFormed(text: string)
    requires ParseLabels(text).Some?
    requires '}' !in text
    ensures forall l | l in ParseLabels(text).value :: WellFormedLabel(l)
  {
    var pairs := Split(text, ',');
    assert forall i | 0 <= i < |pairs| :: '}' !in pairs[i] by {
      forall i | 0 <= i < |pairs| ensures '}' !in pairs[i] {
        JoinedPartIsInside(pairs, [','], i);
      }
    }
    PairsAreWellFormed(pairs);
  }

  lemma {:induction false} PairsAreWellFormed(pairs: seq<string>)
    requires forall i | 0 <= i < |pairs| :: ',' !in pairs[i] && '}' !in pairs[i]
    requires ParsePairs(pairs).Some?
    ensures forall l | l in ParsePairs(pairs).value :: WellFormedLabel(l)
  {
    if pairs != [] {
      var o := ParsePair(pairs[0]);
      var rest := ParsePairs(pairs[1..]);
      assert forall i | 1 <= i < |pairs| :: pairs[i] == pairs[1..][i - 1];
      PairsAreWellFormed(pairs[1..]);
      if o.Parsed? {
        ParsedPairChars(pairs[0]);
        ParsedNameStart(pairs[0]);
        assert ParsePairs(pairs).value == [o.l] + rest.value;
      }
    }
  }

  /** A parsed label name is a prefix of the trimmed pair, so it cannot start with white space. */
  lemma ParsedNameStart(p: string)
    requires ParsePair(p).Parsed?
    ensures ParsePair(p).l.name == [] || !IsSpace(ParsePair(p).l.name[0])
  {
    var t := TrimSpace(p);
    TrimSpaceShape(p);
    var parts := Split(t, '=');
    assert t == parts[0] + "=" + parts[1];
    assert parts[0] != [] ==> parts[0][0] == t[0];
  }

  /** Every part of a joined sequence occurs inside the joined string. */
  lemma {:induction false} JoinedPartIsInside(parts: seq<string>, sep: string, i: int)
    requires 0 <= i < |parts|
    ensures forall c | c in parts[i] :: c in Join(parts, sep)
  {
    if |parts| > 1 {
      var j := Join(parts, sep);
      var tail := Join(parts[1..], sep);
      assert j == parts[0] + sep + tail;
      if i == 0 {
        assert forall k | 0 <= k < |parts[0]| :: j[k] == parts[0][k];
      } else {
        JoinedPartIsInside(parts[1..], sep, i - 1);
        assert forall k | 0 <= k < |tail| :: j[|parts[0]| + |sep| + k] == tail[k];
      }
    }
  }

  /** A character in no part and not in the separator is not in the joined string. */
  lemma {:induction false} JoinAvoids(parts: seq<string>, sep: string, c: char)
    requires c !in sep
    requires forall i | 0 <= i < |parts| :: c !in parts[i]
    ensures c !in Join(parts, sep)
  {
    if |parts| > 1 {
      JoinAvoids(parts[1..], sep, c);
    }
  }

  /** Every string of `xs` with one space in front. */
  function Spaced(xs: seq<string>): (r: seq<string>)
    ensures |r| == |xs| && forall i | 0 <= i < |xs| :: r[i] == " " + xs[i]
  {
    seq(|xs|, i requires 0 <= i < |xs| => " " + xs[i])
  }

  lemma {:induction false} JoinSpaced(xs: seq<string>)
    requires |xs| >= 1
    ensures Join(Spaced(xs), ",") == " " + Join(xs, ", ")
  {
    if |xs| > 1 {
      JoinSpaced(xs[1..]);
      assert Spaced(xs)[1..] == Spaced(xs[1..]);
    }
  }

  /** The shape of a well-formed label's string: it has no ',' or '}', and no white space at either end. */
  lemma LabelStringShape(l: Label)
    requires WellFormedLabel(l)
    ensures LabelString(l) == Join([l.name, "\"" + l.value + "\""], "=")
    ensures ',' !in LabelString(l) && '}' !in LabelString(l)
    ensures LabelString(l) != [] && !IsSpace(LabelString(l)[0]) && !IsSpace(LabelString(l)[|LabelString(l)| - 1])
  {
    var s := LabelString(l);
    assert s[0] == (if l.name == [] then '=' else l.name[0]);
    assert s[|s| - 1] == '"';
  }

  /** A label string re-parses to its label, with or without leading white space. */
  lemma PairRoundTrip(lead: string, l: Label)
    requires AllSpace(lead)
    requires WellFormedLabel(l)
    ensures ParsePair(lead + LabelString(l)) == Parsed(l)
  {
    var s := LabelString(l);
    var q := "\"" + l.value + "\"";
    LabelStringShape(l);
    TrimSpaceAfterSpaces(lead, s);
    assert TrimSpace(lead + s) == s;
    SplitJoin([l.name, q], '=');
    assert Split(TrimSpace(lead + s), '=') == [l.name, q];
    assert q[1..|q| - 1] == l.value;
  }

  lemma ParsePairsStep(pairs: seq<string>, l: Label, rest: seq<Label>)
    requires |pairs| > 0 && ParsePair(pairs[0]) == Parsed(l) && ParsePairs(pairs[1..]) == Some(rest)
    ensures ParsePairs(pairs) == Some([l] + rest)
  {
  }

  lemma HeadAndTail(ls: seq<Label>)
    requires |ls| > 0
    ensures [ls[0]] + ls[1..] == ls
  {
  }

  lemma {:induction false} SpacedPairsRoundTrip(ls: seq<Label>)
    requires forall l | l in ls :: WellFormedLabel(l)
    ensures ParsePairs(Spaced(LabelStrings(ls))) == Some(ls)
  {
    var ps := Spaced(LabelStrings(ls));
    if ls != [] {
      assert ps[0] == " " + LabelString(ls[0]);
      PairRoundTrip(" ", ls[0]);
      assert ps[1..] == Spaced(LabelStrings(ls[1..]));
      SpacedPairsRoundTrip(ls[1..]);
      ParsePairsStep(ps, ls[0], ls[1..]);
      HeadAndTail(ls);
    } else {
      assert ps == [];
    }
  }

  /** The comma-separated pieces of the label block MetricKey.String writes. */
  function Pieces(ls: seq<Label>): (r: seq<string>)
    requires |ls| >= 1
    ensures |r| == |ls|
  {
    [LabelString(ls[0])] + Spaced(LabelStrings(ls[1..]))
  }

  lemma PiecesJoin(ls: seq<Label>)
    requires |ls| >= 1
    ensures Join(LabelStrings(ls), ", ") == Join(Pieces(ls), ",")
  {
    var strs := LabelStrings(ls);
    assert strs[1..] == LabelStrings(ls[1..]);
    if |ls| > 1 {
      JoinSpaced(strs[1..]);
      assert Pieces(ls)[1..] == Spaced(strs[1..]);
    }
  }

  lemma PiecesHaveNoComma(ls: seq<Label>)
    requires |ls| >= 1
    requires forall l | l in ls :: WellFormedLabel(l)
    ensures forall i | 0 <= i < |Pieces(ls)| :: ',' !in Pieces(ls)[i]
  {
    var ps := Pieces(ls);
    forall i | 0 <= i < |ps|
      ensures ',' !in ps[i]
    {
      LabelHasNoComma(ls[i]);
      if i > 0 {
        assert ps[i] == " " + LabelStrings(ls[1..])[i - 1];
        assert ps[i] == " " + LabelString(ls[i]);
      }
    }
  }

  lemma LabelHasNoComma(l: Label)
    requires WellFormedLabel(l)
    ensures ',' !in LabelString(l)
  {
    LabelStringShape(l);
  }

  /** Writing labels as MetricKey.String does and parsing them back gives the same labels, in order. */
  lemma LabelsRoundTrip(ls: seq<Label>)
    requires |ls| >= 1
    requires forall l | l in ls :: WellFormedLabel(l)
    ensures ParseLabels(Join(LabelStrings(ls), ", ")) == Some(ls)
  {
    var text := Join(LabelStrings(ls), ", ");
    var pieces := Pieces(ls);
    PiecesJoin(ls);
    PiecesHaveNoComma(ls);
    SplitJoin(pieces, ',');
    assert Split(text, ',') == pieces;
    PairRoundTrip("", ls[0]);
    assert "" + LabelString(ls[0]) == pieces[0];
    SpacedPairsRoundTrip(ls[1..]);
    assert pieces[1..] == Spaced(LabelStrings(ls[1..]));
    ParsePairsStep(pieces, ls[0], ls[1..]);
    HeadAndTail(ls);
    ParseLabelsOfPairs(text, pieces, ls);
  }

  lemma ParseLabelsOfPairs(text: string, pairs: seq<string>, ls: seq<Label>)
    requires Split(text, ',') == pairs && ParsePairs(pairs) == Some(ls)
    ensures ParseLabels(text) == Some(ls)
  {
  }

  lemma IndexOfAt(s: string, k: int, c: char)
    requires 0 <= k < |s| && s[k] == c
    requires forall i | 0 <= i < k :: s[i] != c
    ensures IndexOf(s, c) == k
  {
  }

  /** Where the braces of a written label block are found. */
  lemma LabelBlockOf(name: string, t: string, v: string)
    requires '{' !in name && '}' !in name && '}' !in t
    ensures var line := name + "{" + t + "}" + v;
      && HasLabelBlock(line) && LabelText(line) == t
      && line[..IndexOf(line, '{')] == name && line[IndexOf(line, '}') + 1..] == v
  {
    var line := name + "{" + t + "}" + v;
    var i, j := |name|, |name| + 1 + |t|;
    assert line[..i] == name && line[i] == '{';
    assert line[i + 1..j] == t && line[j] == '}';
    assert line[j + 1..] == v;
    assert forall k | 0 <= k < i :: line[k] == name[k];
    assert forall k | i < k < j :: line[k] == t[k - i - 1];
    IndexOfAt(line, i, '{');
    IndexOfAt(line, j, '}');
  }

  /**
   * splitMetricLine undoes writing a name without braces, a label block
   * without '}' and any value text.
   */
  lemma SplitOfLabelled(name: string, t: string, v: string)
    requires '{' !in name && '}' !in name && '}' !in t
    requires ParseLabels(t).Some?
    ensures SplitMetricLine(name + "{" + t + "}" + v) == Ok(SplitLine(name, ParseLabels(t).value, v))
  {
    LabelBlockOf(name, t, v);
  }

  /**
   * The round trip of line 209: a key with labels, written by MetricKey.String
   * and followed by any value text (" 0" there), splits back into its name,
   * its labels and that text.
   */
  lemma KeyRoundTrip(mk: MetricKey, v: string)
    requires |mk.labels| >= 1
    requires '{' !in mk.name && '}' !in mk.name
    requires forall l | l in mk.labels :: WellFormedLabel(l)
    ensures SplitMetricLine(KeyString(mk) + v) == Ok(SplitLine(mk.name, mk.labels, v))
  {
    KeyStringJoinsLabels(mk);
    var t := Join(LabelStrings(mk.labels), ", ");
    forall i | 0 <= i < |mk.labels| {
      LabelStringShape(mk.labels[i]);
    }
    JoinAvoids(LabelStrings(mk.labels), ", ", '}');
    LabelsRoundTrip(mk.labels);
    SplitOfLabelled(mk.name, t, v);
    assert KeyString(mk) + v == mk.name + "{" + t + "}" + v;
  }

  /**
   * A line in the braced form parses to its name, its labels in written order
   * and the scanned value, as the first case of TestParseMetricLine expects.
   */
  lemma ParseLabelledLine(mk: MetricKey, valueText: string, scan: string -> Option<Float>, v: Float)
    requires |mk.labels| >= 1
    requires '{' !in mk.name && '}' !in mk.name
    requires forall l | l in mk.labels :: WellFormedLabel(l)
    requires scan(valueText) == Some(v)
    ensures ParseMetricLine(KeyString(mk) + valueText, scan) == Ok(RawMetric(mk.name, mk.labels, v))
  {
    KeyRoundTrip(mk, valueText);
  }

  /**
   * Extra white space between '}' and the value is tolerated, provided the
   * %f scan skips leading white space as fmt.Sscanf does.
   */
  lemma {:induction false} ExtraSpacesBeforeValue(mk: MetricKey, spaces: string, valueText: string, scan: string -> Option<Float>)
    requires |mk.labels| >= 1
    requires '{' !in mk.name && '}' !in mk.name
    requires forall l | l in mk.labels :: WellFormedLabel(l)
    requires AllSpace(spaces)
    requires forall c, t | IsSpace(c) :: scan([c] + t) == scan(t)
    ensures ParseMetricLine(KeyString(mk) + spaces + valueText, scan) == ParseMetricLine(KeyString(mk) + valueText, scan)
  {
    assert KeyString(mk) + spaces + valueText == KeyString(mk) + (spaces + valueText);
    KeyRoundTrip(mk, spaces + valueText);
    KeyRoundTrip(mk, valueText);
    ScanSkipsSpaces(spaces, valueText, scan);
  }

  lemma {:induction false} ScanSkipsSpaces(spaces: string, t: string, scan: string -> Option<Float>)
    requires AllSpace(spaces)
    requires forall c, u | IsSpace(c) :: scan([c] + u) == scan(u)
    ensures scan(spaces + t) == scan(t)
  {
    if spaces != [] {
      var c, u := spaces[0], spaces[1..] + t;
      assert IsSpace(c);
      ScanSkipsSpaces(spaces[1..], t, scan);
      assert spaces + t == [c] + u;
      assert scan([c] + u) == scan(u);
    } else {
      assert spaces + t == t;
    }
  }

  /**
   * A key without labels is the bare name, and its re-parse succeeds exactly
   * when the name holds a single white-space separated field, which becomes
   * the parsed name: an empty name (a series called just "_sum") or one with
   * two words fails.
   */
  lemma BareKeyRoundTrip(name: string)
    requires '{' !in name
    ensures SplitMetricLine(KeyString(MetricKey(name, [])) + " 0").Ok? <==> |Fields(name)| == 1
    ensures |Fields(name)| == 1 ==> SplitMetricLine(KeyString(MetricKey(name, [])) + " 0") == Ok(SplitLine(Fields(name)[0], [], "0"))
  {
    var line := name + " 0";
    assert '{' !in line;
    assert !HasLabelBlock(line);
    FieldsThenWord(name, "0");
    assert line == name + " " + "0";
  }

  // ---------------------------------------------------------------------
  // Histogram pieces

  const BUCKET_SUFFIX: string := "_bucket"
  const COUNT_SUFFIX: string := "_count"
  const SUM_SUFFIX: string := "_sum"

  /** Which case of the switch in ParseHistogram a name falls into. */
  datatype Kind = Bucket | Count | Sum | Plain

  function KindOf(name: string): Kind {
    if HasSuffix(name, BUCKET_SUFFIX) then Bucket
    else if HasSuffix(name, COUNT_SUFFIX) then Count
    else if HasSuffix(name, SUM_SUFFIX) then Sum
    else Plain
  }

  /**
   * trimHistogramSuffix: "_bucket", then "_count", then "_sum" are trimmed in
   * turn. The result is a prefix of the name, and it is shorter exactly when
   * the name ends in one of the three suffixes, so the switch that follows
   * the trim in ParseHistogram always has a case that applies.
   */
  function TrimHistogramSuffix(s: string): (r: string)
    ensures HasPrefix(s, r)
    ensures |r| < |s| <==> KindOf(s) != Plain
  {
    var a := TrimSuffix(s, BUCKET_SUFFIX);
    var b := TrimSuffix(a, COUNT_SUFFIX);
    var c := TrimSuffix(b, SUM_SUFFIX);
    assert HasPrefix(s, a) && HasPrefix(a, b) && HasPrefix(b, c);
    assert s[..|c|] == a[..|c|] == b[..|c|];
    if KindOf(s) == Plain then
      assert a == s && b == s && c == s;
      c
    else
      c
  }

  /**
   * The three trims run in turn, each at most once: a name built from a base
   * and the suffixes in the order they are trimmed back to front loses all of
   * them, so "x_sum_bucket" and "x_sum_count_bucket" both give "x".
   */
  lemma TrimsChain(x: string)
    ensures TrimHistogramSuffix(x + SUM_SUFFIX + COUNT_SUFFIX + BUCKET_SUFFIX) == x
    ensures TrimHistogramSuffix(x + SUM_SUFFIX + BUCKET_SUFFIX) == x
  {
    var s := x + SUM_SUFFIX;
    assert TrimSuffix(s, SUM_SUFFIX) == x;
    assert !HasSuffix(s, COUNT_SUFFIX) by { assert s[|s| - 1] != COUNT_SUFFIX[|COUNT_SUFFIX| - 1]; }
    assert TrimSuffix(s + COUNT_SUFFIX, COUNT_SUFFIX) == s;
    assert TrimSuffix(s + COUNT_SUFFIX + BUCKET_SUFFIX, BUCKET_SUFFIX) == s + COUNT_SUFFIX;
    assert TrimSuffix(s + BUCKET_SUFFIX, BUCKET_SUFFIX) == s;
  }

  datatype Bin = Bin(value: Float, count: U64)

  datatype Histogram = Histogram(name: string, labels: seq<Label>, bins: seq<Bin>)

  /** The `le` bound of a bucket sample: missing when the label is absent or empty, else strconv.ParseFloat's verdict. */
  function BoundOf(b: RawMetric, parse: string -> Option<Float>): Option<Float> {
    var v := Find(b, "le");
    if v == "" then None else parse(v)
  }

  /**
   * parseHistogramBins: one bin per bucket sample, in order, whose value is the
   * parsed `le` bound and whose count is uint64 of the sample value
   * (`toCount`); it fails as soon as one bucket has no usable bound.
   */
  function ParseBins(buckets: seq<RawMetric>, parse: string -> Option<Float>, toCount: Float -> U64): (r: Option<seq<Bin>>)
    ensures r.Some? <==> forall i | 0 <= i < |buckets| :: BoundOf(buckets[i], parse).Some?
    ensures r.Some? ==> |r.value| == |buckets|
    ensures r.Some? ==> forall i | 0 <= i < |buckets| ::
              r.value[i] == Bin(BoundOf(buckets[i], parse).value, toCount(buckets[i].value))
  {
    if buckets == [] then Some([])
    else
      var b := buckets[0];
      var rest := ParseBins(buckets[1..], parse, toCount);
      assert forall i | 1 <= i < |buckets| :: buckets[i] == buckets[1..][i - 1];
      match BoundOf(b, parse)
      case None => None
      case Some(v) =>
        if rest.None? then None
        else
          var r := [Bin(v, toCount(b.value))] + rest.value;
          assert forall i | 1 <= i < |r| :: r[i] == rest.value[i - 1];
          Some(r)
  }

  // ---------------------------------------------------------------------
  // sort.Slice(labels, func(i, j) { return labels[i].Name < labels[j].Name })

  predicate SortedByName(ls: seq<Label>) {
    forall i, j | 0 <= i < j < |ls| :: !LexLess(ls[j].name, ls[i].name)
  }

  function InsertByName(l: Label, ls: seq<Label>): (r: seq<Label>)
    requires SortedByName(ls)
    ensures SortedByName(r)
    ensures multiset(r) == multiset(ls) + multiset{l}
  {
    if ls == [] then [l]
    else if !LexLess(ls[0].name, l.name) then
      InsertFrontSorted(l, ls);
      [l] + ls
    else
      var rest := InsertByName(l, ls[1..]);
      assert ls == [ls[0]] + ls[1..];
      forall j | 0 <= j < |rest| ensures !LexLess(rest[j].name, ls[0].name) {
        assert rest[j] in multiset(rest);
        if rest[j] == l {
          LexLessAsymmetric(ls[0].name, l.name);
        } else {
          assert rest[j] in ls[1..];
        }
      }
      ConsSorted(ls[0], rest);
      [ls[0]] + rest
  }

  lemma LexLessAsymmetric(a: string, b: string)
    requires LexLess(a, b)
    ensures !LexLess(b, a)
  {
    if LexLess(b, a) {
      LexLessTransitive(a, b, a);
      LexLessIrreflexive(a);
    }
  }

  /** A label no later than the first of a sorted sequence can go in front of it. */
  lemma InsertFrontSorted(l: Label, ls: seq<Label>)
    requires SortedByName(ls) && ls != [] && !LexLess(ls[0].name, l.name)
    ensures SortedByName([l] + ls)
  {
    forall j | 0 <= j < |ls| ensures !LexLess(ls[j].name, l.name) {
      if j > 0 && LexLess(ls[j].name, l.name) {
        LexLessTotalOrEqual(ls[0].name, l.name);
        if ls[0].name != l.name {
          LexLessTransitive(ls[j].name, l.name, ls[0].name);
        }
      }
    }
    ConsSorted(l, ls);
  }

  /** A label that no element of a sorted sequence comes before can go in front of it. */
  lemma ConsSorted(h: Label, rest: seq<Label>)
    requires SortedByName(rest)
    requires forall j | 0 <= j < |rest| :: !LexLess(rest[j].name, h.name)
    ensures SortedByName([h] + rest)
  {
    var r := [h] + rest;
    assert forall j | 1 <= j < |r| :: r[j] == rest[j - 1];
  }

  lemma LexLessTotalOrEqual(a: string, b: string)
    ensures a == b || LexLess(a, b) || LexLess(b, a)
  {
    if a != b {
      LexLessTotal(a, b);
    }
  }

  /**
   * The order sort.Slice gives the labels with the comparator `Name < Name`:
   * sorted by name and a permutation. sort.Slice is not stable, so labels
   * that share a name may come out in another order; the model keeps them in
   * input order.
   */
  function SortByName(ls: seq<Label>): (r: seq<Label>)
    ensures SortedByName(r)
    ensures multiset(r) == multiset(ls)
  {
    if ls == [] then []
    else
      assert ls == [ls[0]] + ls[1..];
      InsertByName(ls[0], SortByName(ls[1..]))
  }

  /** The labels without `name`, as a multiset: every other label keeps its multiplicity. */
  lemma {:induction false} WithoutCounts(ls: seq<Label>, name: string, l: Label)
    ensures multiset(Without(ls, name))[l] == if l.name == name then 0 else multiset(ls)[l]
  {
    if ls != [] {
      var rest := Without(ls[1..], name);
      WithoutCounts(ls[1..], name, l);
      assert ls == [ls[0]] + ls[1..];
      assert multiset(ls) == multiset{ls[0]} + multiset(ls[1..]);
      if ls[0].name == name {
        assert Without(ls, name) == rest;
      } else {
        assert Without(ls, name) == [ls[0]] + rest;
        assert multiset(Without(ls, name)) == multiset{ls[0]} + multiset(rest);
      }
    }
  }

  /** Removing a name from two orderings of the same labels leaves two orderings of the same labels. */
  lemma WithoutKeepsPermutation(a: seq<Label>, b: seq<Label>, name: string)
    requires multiset(a) == multiset(b)
    ensures multiset(Without(a, name)) == multiset(Without(b, name))
  {
    forall l | true
      ensures multiset(Without(a, name))[l] == multiset(Without(b, name))[l]
    {
      WithoutCounts(a, name, l);
      WithoutCounts(b, name, l);
    }
  }

  /** No name is carried by two different labels. */
  predicate NamesDetermineLabels(ls: seq<Label>) {
    forall l1, l2 | l1 in ls && l2 in ls && l1.name == l2.name :: l1 == l2
  }

  /** Two name-sorted orderings of the same labels, where a name determines its label, are the same sequence. */
  lemma {:induction false} SortedIsUnique(x: seq<Label>, y: seq<Label>)
    requires SortedByName(x) && SortedByName(y)
    requires multiset(x) == multiset(y)
    requires NamesDetermineLabels(x)
    ensures x == y
  {
    if x != [] {
      assert x[0] in multiset(y);
      assert y != [];
      assert y[0] in multiset(x);
      var i :| 0 <= i < |y| && y[i] == x[0];
      var j :| 0 <= j < |x| && x[j] == y[0];
      assert !LexLess(x[0].name, y[0].name) by {
        if i > 0 {
          assert !LexLess(y[i].name, y[0].name);
        } else {
          LexLessIrreflexive(x[0].name);
        }
      }
      assert !LexLess(y[0].name, x[0].name) by {
        if j > 0 {
          assert !LexLess(x[j].name, x[0].name);
        } else {
          LexLessIrreflexive(x[0].name);
        }
      }
      LexLessTotalOrEqual(x[0].name, y[0].name);
      assert x[0].name == x[j].name;
      assert x[0] == y[0];
      TailsAgree(x, y);
      assert forall l | l in x[1..] :: l in x;
      SortedIsUnique(x[1..], y[1..]);
    }
  }

  lemma TailsAgree(x: seq<Label>, y: seq<Label>)
    requires x != [] && y != [] && x[0] == y[0] && multiset(x) == multiset(y)
    ensures multiset(x[1..]) == multiset(y[1..])
  {
    assert x == [x[0]] + x[1..];
    assert y == [y[0]] + y[1..];
    assert multiset(x) == multiset{x[0]} + multiset(x[1..]);
    assert multiset(y) == multiset{x[0]} + multiset(y[1..]);
    assert multiset(x[1..]) == multiset(x) - multiset{x[0]};
    assert multiset(y[1..]) == multiset(y) - multiset{x[0]};
  }

  /**
   * With the comparator of ParseHistogram, the sorted labels do not depend on
   * the order the labels were written in, as long as no name is carried by
   * two different labels.
   */
  lemma SortByNameIgnoresOrder(a: seq<Label>, b: seq<Label>)
    requires multiset(a) == multiset(b)
    requires NamesDetermineLabels(a)
    ensures SortByName(a) == SortByName(b)
  {
    var x := SortByName(a);
    assert forall l | l in x :: l in a by {
      assert forall l | l in x :: l in multiset(a);
    }
    SortedIsUnique(x, SortByName(b));
  }
}
