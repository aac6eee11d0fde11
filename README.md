# proq core, modelled in Dafny

proq is a terminal dashboard for Prometheus-style metrics. It reads exposition
lines (`name{label="value", ...} 12.5`), groups `_bucket`/`_count`/`_sum`
samples into histograms, keeps the last N samples of every series in a ring
buffer, and shows them in termui widgets: a metric list with a wildcard filter,
a command prompt and a histogram bar chart.

This project models that core and proves properties about it:

- `common.dfy` (module `Common`): `Option`, the `Float` values the program
  moves around (finite, ±Inf, NaN), `uint64` wrap-around, and Go's truncating
  `/` and `%`.
- `gostrings.dfy` (module `GoStrings`): the parts of Go's `strings` package
  that the core relies on (`TrimSpace`, `Fields`, `Split`, `Join`,
  `HasPrefix`/`HasSuffix`, `TrimSuffix`, `Index` of one character, and byte-wise string `<`),
  with the laws the proofs need.
- `metric.dfy` (module `Metric`): labels and metric keys and their string
  forms, `Find`/`Remove`, line splitting and parsing, label parsing, histogram
  suffixes, bucket bins, and label sorting by name.
- `histogram_parse.dfy` (module `HistogramParse`): `ParseHistogram`. Its first
  loop groups samples by key. Its second loop emits complete histograms and
  releases the samples of incomplete ones.
- `store.dfy` (module `Store`): `RingBuffer` and `MetricStore` as classes over
  arrays and maps (update, lookup, replay of samples, binding a subscriber
  channel, closing it), plus `Stream`.
- `prompt.dfy` (module `Prompt`): the command prompt as a class. It covers key
  handling, command parsing, handler dispatch, and setting and clearing errors.
- `histogram_widget.dfy` (module `HistogramWidget`): the in-place merge of
  trailing bins into a `+Inf` bin until the bars fit, and the extraction of bar
  data and the maximum.
- `metric_list.dfy` (module `MetricListWidget`): the metric list as a class.
  It covers deduplicating additions, the histogram view, the wildcard filter
  and its regex translation, reset, scrolling and selection.

The program depends on things outside this model. Each enters as a parameter:

- float scanning (`fmt.Sscanf`), `strconv.ParseFloat` and `FormatFloat`;
- the `uint64(float64)` conversion of a bucket value;
- the regexp engine (compile and match);
- Go's map iteration order, passed as an `order` sequence or returned as a
  ghost order;
- the channel receiving samples, a `Channel` object whose `sent` sequence
  records every send.

A Go `panic` is an explicit outcome: `Outcome.Panicked`, `HistogramResult.Panic`,
`Lookup.PanicWith`, or a `panicked` out-parameter.

## Model

| member | source | states |
|---|---|---|
| Metric.KeyStringJoinsLabels | pkg/metric/metric.go:18-46 | a key with no labels prints as its bare name; otherwise as the name, `{`, each label as `name="value"` joined by `, ` in the given order, and `}` |
| Metric.Find | pkg/metric/metric.go:54-61 | the result is the value of the first label with the given name, or "" when no label has that name |
| Metric.Remove | pkg/metric/metric.go:63-75 | a metric without labels gives (empty, false); otherwise the result keeps exactly the labels of other names, and the flag is true iff some label had the name |
| Metric.WithoutCounts | pkg/metric/metric.go:63-75 | Remove keeps every other-named label with its full multiplicity and drops every label with the name |
| Metric.WithoutKeepsPermutation | pkg/metric/metric.go:63-75 | removing a name from two permutations of the same labels leaves two permutations of each other |
| Metric.ParseLabels | pkg/metric/metric.go:126-144 | the labels that are parsed contain no `=` and no `,` in their names or values |
| Metric.ParseLabelsPanics | pkg/metric/metric.go:126-144 | parseLabels panics exactly when some comma-separated piece that splits into two on `=` has a value shorter than two characters (the quote-stripping slice); lengths are counted in characters, see Left out |
| Metric.ParsePairsKeepsOrder | pkg/metric/metric.go:129-143 | when there is no panic, the labels are the well-split pieces, in written order, and pieces that do not split into exactly two on `=` are dropped |
| Metric.ParsedLabelsAreWellFormed | pkg/metric/metric.go:126-144 | from text without `}`, every parsed label has no `,`, `=` or `}`, and its name does not start with a space |
| Metric.LabelsRoundTrip | pkg/metric/metric.go:27-46 | parseLabels of well-formed labels joined as MetricKey.String joins them gives back exactly those labels, in order |
| Metric.SplitMetricLine | pkg/metric/metric.go:101-124 | splitting fails only with ErrInvalidMetricLine and only when the line has no `{` before its first `}`; it panics only on a line with such a label block |
| Metric.SplitLabelled | pkg/metric/metric.go:106-113 | a line with a label block never fails; it panics iff parseLabels of the text between the braces panics; otherwise the line is name, `{`, that text, `}` and the value text |
| Metric.SplitBare | pkg/metric/metric.go:114-123 | a line without a label block splits iff it has exactly two whitespace-separated fields, giving them as name and value text with no labels; otherwise ErrInvalidMetricLine |
| Metric.EmptyLineIsInvalid | pkg/metric/metric.go:101-123 | the empty line is rejected with ErrInvalidMetricLine |
| Metric.ParseMetricLine | pkg/metric/metric.go:82-99 | the line parses iff it splits and its value text scans; the result holds the split name and labels and the scanned value; it panics iff splitting panics; an invalid-value error only follows a successful split |
| Metric.MissingValueIsInvalid | pkg/metric/metric.go:82-99 | a labelled line that ends at its `}` either fails with an invalid value or panics; it never parses |
| Metric.SplitOfLabelled | pkg/metric/metric.go:101-113 | `name{t}v` with braces only at the block splits into name, parseLabels(t) and v |
| Metric.KeyRoundTrip | pkg/metric/metric.go:27-46 | splitting MetricKey.String() followed by any value text gives back the key's name and labels in order, and that text |
| Metric.ParseLabelledLine | pkg/metric/metric.go:82-99 | a labelled key followed by a value the scanner accepts parses to exactly that name, those labels and that value |
| Metric.ExtraSpacesBeforeValue | pkg/metric/metric.go:82-99 | whitespace between the label block and the value does not change the parse, for a scanner that skips leading whitespace |
| Metric.BareKeyRoundTrip | pkg/metric/metric.go:209-212 | an unlabelled key followed by " 0" splits iff the name is a single field, and it then gives that field as the name with no labels |
| Metric.TrimHistogramSuffix | pkg/metric/metric.go:266-271 | the result is a prefix of the name, and it is shorter iff the name ends in `_bucket`, `_count` or `_sum` |
| Metric.TrimsChain | pkg/metric/metric.go:266-271 | the trims run in turn, so any base followed by `_sum`, `_count`, `_bucket` (or by `_sum`, `_bucket`) is trimmed back to that base |
| Metric.ParseBins | pkg/metric/metric.go:245-264 | bins exist iff the first `le` label of every bucket is non-empty and parses; then there is one bin per bucket, in order, with the parsed bound and the bucket's value converted to a count |
| Metric.SortByName | pkg/metric/metric.go:181-183 | the labels are sorted by name, and the result is a permutation of the input |
| Metric.SortByNameIgnoresOrder | pkg/metric/metric.go:180-190 | two orderings of the same labels (no two sharing a name) sort to the same sequence |
| HistogramParse.GroupedHolds | pkg/metric/metric.go:191-201 | a group holds every `_bucket` sample filed under its key, in arrival order, and the last `_count` and the last `_sum` filed under it |
| HistogramParse.GroupedKeys | pkg/metric/metric.go:177-201 | a key has a group iff some suffixed sample maps to it |
| HistogramParse.GroupSamples | pkg/metric/metric.go:174-205 | the first loop yields exactly the grouping of the suffixed samples and, in order, the samples without a suffix |
| HistogramParse.Release | pkg/metric/metric.go:214-224 | the released samples are count, sum and buckets: their number is the number present, and every bucket is among them |
| HistogramParse.SplitGroups | pkg/metric/metric.go:207-242 | the second loop panics iff some key does not re-split; otherwise it visits every key once, emits exactly the complete groups whose bins parse, and appends the released samples of the others to the plain ones |
| HistogramParse.ParseHistogram | pkg/metric/metric.go:167-243 | panic iff some group key does not re-split; otherwise the histograms are exactly the complete groups whose bins parse, each named and labelled by re-splitting its key, and the residual is the plain samples followed by the releases, in visiting order |
| HistogramParse.ResidualStep | pkg/metric/metric.go:207-240 | visiting one more key appends that group's released samples exactly when it is not emitted |
| HistogramParse.ResidualKeepsPlainFirst | pkg/metric/metric.go:174-243 | the plain samples stay first in the residual, in their original order |
| HistogramParse.ReleasedMembersStay | pkg/metric/metric.go:214-238 | every sample of a group that is not emitted ends up in the residual |
| HistogramParse.GroupKeyReparses | pkg/metric/metric.go:178-212 | the key of a well-formed suffixed sample re-splits into the trimmed name and the sorted labels without `le` |
| HistogramParse.WellFormedBatchReparses | pkg/metric/metric.go:207-212 | a batch whose suffixed samples are well formed never panics |
| HistogramParse.EmittedHistogramOfSample | pkg/metric/metric.go:178-233 | a well-formed sample's histogram, when emitted, has the trimmed name, the sorted labels without `le`, and the bins parsed from its group's buckets in order |
| HistogramParse.LoneSumPanics | pkg/metric/metric.go:178-212 | a bare `_sum` sample files under the empty key, which does not re-split, so the call panics |
| HistogramParse.GroupKeyIgnoresLabelOrder | pkg/metric/metric.go:178-190 | samples with the same labels in any order (no two sharing a name) land in the same group |
| Store.SlotsHoldRecent | pkg/store/store.go:19-22 | after any sequence of Adds, slot j % capacity holds sample j for each of the last `capacity` samples |
| Store.HoldsRecentAfterWrite | pkg/store/store.go:19-22 | writing at n % capacity keeps the most recent `capacity` samples in their slots |
| Store.RingBuffer.constructor | pkg/store/store.go:81-83 | a new buffer has `capacity` zeroed slots, no samples, no channel and bindN 0 |
| Store.RingBuffer.Add | pkg/store/store.go:19-27 | the sample is written at `next`, `next` advances modulo the capacity, the sample is appended to the history, and it is sent to the bound channel if there is one |
| Store.RingBuffer.Subscribe | pkg/store/store.go:137-138 | the buffer now has the given channel and bind count; its samples are unchanged |
| Store.PhysicalIsRecentBeforeWrap | pkg/store/store.go:108-113 | until the buffer wraps, the replay is the samples in the order they were added |
| Store.PhysicalOrderAfterWrap | pkg/store/store.go:108-113 | with capacity 2 and samples a, b, c (b ≠ c), the replay is [c, b] rather than the most recent two in order, [b, c] |
| Store.ReplayIsPhysical | pkg/store/store.go:108-113 | the first min(n, capacity) slots are exactly the physical-order replay of the history |
| Store.ReplayStartsAtZero | pkg/store/store.go:110 | the start index `(next - n + capacity) % capacity` is always 0 under Go's `%` |
| Store.ReplayFromZero | pkg/store/store.go:108-113 | the loop emits the physical-order replay of the history |
| Store.ReplayFromOldest | pkg/store/store.go:108-113 | a loop that starts at the slot of the oldest retained sample emits the most recent min(n, capacity) samples, oldest first |
| Store.Copied | pkg/store/store.go:51-53 | maps.Copy: every source key takes the source value; other destination keys keep theirs; nothing else is added |
| Store.CopiedTwice | pkg/store/store.go:51-53 | copying the same batch twice is the same as copying it once |
| Store.InsertionSort | pkg/store/store.go:56-58 | the insertion sort that sort.Slice uses on short slices returns a permutation of its input, whatever the comparator |
| Store.LabelOrderSplitsSeries | pkg/store/store.go:55-65 | with the comparator as written, labels a="2", b="1" given in the two orders stay in those orders, and their key strings differ |
| Store.StoreKeyIgnoresLabelOrder | pkg/store/store.go:55-65 | with a name-to-name comparator, any two orderings of the same labels (no two sharing a name) give the same key string |
| Store.MetricStore.constructor | pkg/store/store.go:42-49 | a new store has the given sample count, no series, no histograms, and next ID 0 |
| Store.MetricStore.GetMetric | pkg/store/store.go:69-87 | a known key string returns its buffer unchanged; an unknown one gets the next ID and a fresh empty buffer; no other series or subscriber changes |
| Store.MetricStore.Register | pkg/store/store.go:77-86 | the key string is indexed under the next ID, which was unused, with a fresh empty unbound buffer, and the ID advances by one |
| Store.MetricStore.AddTo | pkg/store/store.go:65-66 | the series gets one more sample; other series are unchanged; only its subscriber receives it |
| Store.MetricStore.Update | pkg/store/store.go:55-67 | the value is appended to the series of the key string built from the labels in their sorted order (a new series when unseen); other series and all subscribers are kept; only the series' own subscriber receives the value |
| Store.MetricStore.UpdateHistograms | pkg/store/store.go:51-53 | the stored histograms become the old ones overwritten by the batch (Copied) |
| Store.MetricStore.Samples | pkg/store/store.go:100-115 | an unknown key returns -1 and emits nothing; a known one emits the physical-order replay and returns the number of samples ever added |
| Store.MetricStore.SamplesInOrder | pkg/store/store.go:100-115 | as Samples, but it emits the most recent min(n, capacity) samples, oldest first |
| Store.MetricStore.GetHist | pkg/store/store.go:117-123 | returns the histogram stored under the key string, and panics with that string iff there is none |
| Store.MetricStore.Bind | pkg/store/store.go:125-145 | an unknown key string gives nil and changes nothing; a known one gets the channel as its subscriber and `uint64(n)` as its bind count, and a fresh stream names that key and channel; no samples change, and no other series' subscriber or bind count changes |
| Store.MetricStore.Close | pkg/store/store.go:147-150 | the series with the key's ID (0 when the key is missing) loses its channel, and the call panics iff no series has that ID; no other subscriber changes, and every series keeps its samples, slots and bind count |
| Store.Stream.constructor | pkg/store/store.go:140-144 | the stream records its store, key string and channel |
| Store.Stream.Close | pkg/store/store.go:96-98 | the stream's series loses its subscriber; samples and all other subscribers are unchanged |
| Prompt.LineOf | pkg/widgets/prompt.go:109-111 | the line is the text between the initial `> ` and the cursor, so writing it back gives the same text |
| Prompt.LineOfPromptText | pkg/widgets/prompt.go:109-129 | reading the line back from the prompt text written for it gives that line |
| Prompt.TryParseCmd | pkg/widgets/prompt.go:113-125 | a command is found iff the line starts with `:` and has a field after it; the first field is the name and the rest are the arguments; otherwise ("", nil, false) |
| Prompt.TryParseCmdOfWords | pkg/widgets/prompt.go:113-125 | `:` followed by words joined by spaces parses to the first word and the rest |
| Prompt.TryParseCmdOfFields | pkg/widgets/prompt.go:113-125 | a line `:`+text parses to the fields of text, split into name and arguments |
| Prompt.NoColonNoCommand | pkg/widgets/prompt.go:114-116 | a line that does not start with `:` is never a command |
| Prompt.FirstMatch | pkg/widgets/prompt.go:81-89 | no handler matches iff no handler key, prefixed by `:`, is a prefix of the line; otherwise the match is the first matching key in iteration order |
| Prompt.ShorterKeyShadows | pkg/widgets/prompt.go:81-89 | a key visited first catches every line that starts with it, even when a longer key fits better |
| Prompt.FindHandler | pkg/widgets/prompt.go:81-89 | the handler loop selects exactly FirstMatch |
| Prompt.Prompt.Line | pkg/widgets/prompt.go:109-111 | outside the error state the text is `> `, the line and the cursor |
| Prompt.Prompt.constructor | pkg/widgets/prompt.go:24-34 | a new prompt has an empty line, no error and no handlers |
| Prompt.Prompt.SetHandlers | pkg/widgets/prompt.go:36-38 | the handler table is replaced |
| Prompt.Prompt.UpdateText | pkg/widgets/prompt.go:127-129 | the line grows by the given text |
| Prompt.Prompt.SetError | pkg/widgets/prompt.go:94-97 | the prompt is in error mode and shows the message |
| Prompt.Prompt.ClearError | pkg/widgets/prompt.go:99-107 | it reports whether an error was shown; if so the line is now empty, and otherwise the text is untouched |
| Prompt.Prompt.RunCommand | pkg/widgets/prompt.go:68-92 | CommandRan: an empty line, a non-command, or an unknown command each set their own error message; otherwise the first matching handler in iteration order is called with the command name and its arguments, and its error, if any, is shown; on success the text is unchanged |
| Prompt.Prompt.OnKeyPressed | pkg/widgets/prompt.go:40-66 | arrows are not handled; Enter clears an error, or else runs the line with exactly RunCommand's outcome (CommandRan); Backspace deletes one character; Space appends a space; Ctrl-C and Escape show the exit hint; any other key is appended; a key typed while an error is shown first clears it |
| HistogramWidget.GapAtLeastTwo | pkg/widgets/histogram.go:22-24 | with 7-wide bars, the gap for n bars is at least 2 iff the width is at least 9n |
| HistogramWidget.MergedShape | pkg/widgets/histogram.go:22-33 | merging keeps the leading bins and, when it shortens, ends in a `+Inf` bin holding the (wrapped) total of the bins it replaced |
| HistogramWidget.MergedFits | pkg/widgets/histogram.go:22-33 | merging stops at the largest bin count whose gap is at least 2, or at one bin |
| HistogramWidget.MergedLength | pkg/widgets/histogram.go:22-33 | the merged length is all bins when 9n fits the width, one bin when the width is under 18, and width / 9 otherwise |
| HistogramWidget.MergeKeepsTotal | pkg/widgets/histogram.go:28 | merging keeps the total count, modulo 2^64 |
| HistogramWidget.FoldInto | pkg/widgets/histogram.go:28-30 | one loop step folds bin i into bin i-1 in place and marks it `+Inf` |
| HistogramWidget.MergeBins | pkg/widgets/histogram.go:22-33 | no bins panics (division by zero); otherwise the array is folded in place, its first `len` bins are the merged bins, and the gap is that of `len` bars |
| HistogramWidget.BarsOf | pkg/widgets/histogram.go:35-46 | one label and one value per bin, in order; the maximum is the scale of the first bound and the values: neither the first bound nor any value is above it (NaN compares false), it is the first bound or one of the values, and it stays NaN when that bound is NaN |
| HistogramWidget.ScaleIsUnique | pkg/widgets/histogram.go:38-46 | when the first bound is not NaN, the scale is unique: the running maximum of the loop is fully determined |
| HistogramWidget.NewHistogram | pkg/widgets/histogram.go:17-57 | no bins panics; otherwise the chart shows the merged bins' counts and formatted bounds, under the histogram's name, with bar width 7, the final gap, left padding gap / 2, and as MaxVal the scale of the merged bins' first bound and counts |
| MetricListWidget.WildcardToRegexPerCharacter | pkg/widgets/metric_list.go:103-121 | the regex is `^`, each character translated on its own, then `$` |
| MetricListWidget.PassesPerCharacter | pkg/widgets/metric_list.go:104-118 | escaping and then replacing `*` and `?` equals translating each character on its own (a metacharacter is escaped, `*` becomes `.*`, `?` becomes `.`) |
| MetricListWidget.LiteralPattern | pkg/widgets/metric_list.go:103-121 | a pattern without metacharacters or wildcards translates to itself |
| MetricListWidget.KeysOfDistinct | pkg/widgets/metric_list.go:155-171 | a list with distinct key strings has as many keys as entries |
| MetricListWidget.DedupKeys | pkg/widgets/metric_list.go:155-164 | the kept entries' keys are the batch's keys minus those already seen, and every kept entry is from the batch |
| MetricListWidget.DedupDistinct | pkg/widgets/metric_list.go:155-164 | the kept entries have distinct keys, none of them already seen |
| MetricListWidget.AppendNewKeys | pkg/widgets/metric_list.go:155-164 | appending the kept entries keeps the list's keys distinct, and the keys become the old ones plus the batch's |
| MetricListWidget.DedupOfKnown | pkg/widgets/metric_list.go:155-164 | a batch of already-known keys adds nothing |
| MetricListWidget.Histograms | pkg/widgets/metric_list.go:91-99 | the result holds exactly the histogram entries |
| MetricListWidget.Matching | pkg/widgets/metric_list.go:134-139 | the result holds exactly the entries whose name matches |
| MetricListWidget.SelectHistograms | pkg/widgets/metric_list.go:92-97 | the loop keeps exactly the histogram entries, in order |
| MetricListWidget.SelectMatching | pkg/widgets/metric_list.go:134-139 | the loop keeps exactly the matching entries, in order |
| MetricListWidget.MetricList.constructor | pkg/widgets/metric_list.go:40-51 | a new list is empty, nothing is displayed, and the title is "Metrics" |
| MetricListWidget.MetricList.TotalIsMetricCount | pkg/widgets/metric_list.go:155-171 | the known-key count in the title equals the number of entries |
| MetricListWidget.MetricList.RenderList | pkg/widgets/metric_list.go:173-193 | the rows are the displayed entries, and the title counts rows against all known keys |
| MetricListWidget.MetricList.TakeBatch | pkg/widgets/metric_list.go:156-164 | entries with unseen keys are appended in order, and every key of the batch becomes known |
| MetricListWidget.MetricList.AddMetrics | pkg/widgets/metric_list.go:155-171 | new-key entries are appended and all keys become known; a nil display takes the current list, a non-nil display is kept; the rows and title are re-rendered |
| MetricListWidget.MetricList.ShowHistograms | pkg/widgets/metric_list.go:91-101 | the display becomes the histogram entries, re-rendered |
| MetricListWidget.MetricList.Reset | pkg/widgets/metric_list.go:150-153 | the display goes back to the full list, re-rendered |
| MetricListWidget.MetricList.Filter | pkg/widgets/metric_list.go:123-148 | a bad pattern, an empty pattern (which also resets the display without re-rendering) and no match each give their own error and keep the rows; otherwise the display becomes the matching entries, re-rendered |
| MetricListWidget.MetricList.SelectMetric | pkg/widgets/metric_list.go:81-89 | an entry is selected iff the selected row is inside the display, and it is that row's entry, taken from the list |
| MetricListWidget.MetricList.Scroll | pkg/widgets/metric_list.go:65-79 | a move outside the rows changes nothing; otherwise the selected row moves by the direction and the entry there is selected |
| MetricListWidget.MetricList.OnKeyPressed | pkg/widgets/metric_list.go:55-63 | Up and Down scroll by one row; any other key is not handled and changes nothing |

## Left out

- Floating point: `Float` is an exact real or ±Inf/NaN. Scanning, `ParseFloat`, `FormatFloat` and the `uint64(float64)` bucket count conversion are parameters.
- HistogramWidget.BarsOf: `float64(count)` is taken as exact; the rounding of counts above 2^53 is not modelled.
- The regexp engine is a parameter (compile and match); only the pattern translation is modelled.
- Rendering (termui widgets, colours, layout, `Resize`) is not modelled. Neither is termui's own scroll state (`ScrollUp`/`ScrollDown`), except as `selectedRow`.
- Concurrency is not modelled. A channel send is an append to the channel's `sent` sequence; a blocking or closed channel is not.
- Go map iteration order is a parameter (`order`) or a ghost out-parameter. The properties hold for every order.
- Store.MetricStore.GetMetric: requires fewer than 2^32 series. `MetricID` is a `uint32`, so its wrap-around, which would let two keys share a buffer, is not modelled.
- Store.RingBuffer.Add: `n` is unbounded, so the wrap-around of the `uint64` sample count after 2^64 adds is not modelled.
- Store.RingBuffer.constructor: requires a capacity above 0; with 0 the first `Add` panics indexing the empty slot slice (pkg/store/store.go:20), before it reaches the modulo.
- Metric.SortByName: a stable insertion by name, so labels sharing a name keep their input order. Go's sort.Slice is not stable on more than 12 elements and may reorder such ties, which changes the group key string; sorted-by-name and permutation, which the contract states, are all that Go guarantees.
- Store.MetricStore.Update: the order sort.Slice leaves the labels in is a parameter `sorted` (any permutation). The comparator as written is studied separately through InsertionSort, the algorithm sort.Slice uses on slices of at most 12 elements; longer slices use pdqsort, which is not modelled.
- Store.MetricStore.Bind: the in-place reordering of the caller's label slice (the aliasing of `key.Labels`) is not modelled; `sorted` stands for its result.
- Store.MetricStore.GetHist: returns the histogram by value. The pointer to a copy, and the sharing of its `Bins` slice with the stored histogram, are not modelled.
- HistogramParse.ParseHistogram: `h.count = &m` and `h.sum = &m` are read with per-iteration loop variables (Go 1.22 and later), so each keeps its own sample.
- Metric.ParseLabelsPanics: strings are sequences of characters, while Go measures and slices strings in bytes. The quote-stripping slice `parts[1][1:len(parts[1])-1]` is modelled on characters, so for non-ASCII text the panic condition differs: `a=é` panics here, while Go sees two bytes and gives an empty value.
- Metric.ParsePair and Metric.ParseLabels: for the same reason, a value that starts or ends in a multi-byte character loses a whole character here and a single byte in Go. Byte lengths, byte slices and `strings.Index` offsets agree with this model only on ASCII text.
- Prompt.Prompt.OnKeyPressed: Backspace removes one element of the line, which is a character here; Go slices off one byte, and this model does not distinguish the two.
- Prompt.Prompt.RunCommand: a handler is a function from the command name and arguments to an optional error message. Its other effects are not modelled, and its variadic arguments are a sequence.
- MetricListWidget.MetricList.Filter: the selected row is not reset after a filter, as in the source. The callback `onMetricSelected` is not called; the selected entry is returned instead.
- `ParseMetricName`, `metric_dash.go`, `metric_plot.go` and `cmd/` are not part of this model.

## Findings

| source | as written | input that shows it | evidently intended | confidence | as-written member | corrected member |
|---|---|---|---|---|---|---|
| pkg/store/store.go:108-113 | after the buffer wraps, the start index is always 0, so `Samples` replays the slots in physical order | capacity 2 and samples a, b, c with b ≠ c: the replay is [c, b] | the most recent min(n, capacity) samples, oldest first: [b, c] | not executed | Store.PhysicalOrderAfterWrap | Store.MetricStore.SamplesInOrder |
| pkg/store/store.go:56-58 | the sort comparator compares one label's Name with the other label's Value, so labels are not sorted by name | labels a="2", b="1" given as [a, b] and as [b, a] keep their order, and the same series gets two key strings | compare Name with Name, so every ordering of a label set gives one key string | not executed | Store.LabelOrderSplitsSeries | Store.StoreKeyIgnoresLabelOrder |
