# CloudWatch Embedded Metric Format encoder, modelled in Dafny

This project models the encoder in `aws/cloudwatch/structured_metric.go`. It turns an
`EmbeddedMetric` into one CloudWatch Embedded Metric Format record. The model proves what
that record contains, what the publish path writes, and how the environment snapshot is built.

The `EmbeddedMetric` has three parts:

- an ordered list of `MetricDirective`s;
- a property bag;
- per directive: a namespace, a dimension map and a metric map of (value, unit) pairs.

The model is split into five modules:

- `wrappers.dfy`: `Option` and `Result`.
- `json.dfy` (module `Json`): the logical JSON tree and the part of `json.Marshal` that decides the outcome for a top-level object.
  - Keys are encoded in `strings.Compare` order (`KeyLess`).
  - Encoding stops at the first value that cannot be encoded.
  - Caller values (`interface{}`) stay opaque: a type parameter `V`.
  - A function `check: V -> Option<string>` says which values fail, and with what error.
- `environment.dfy` (module `Environment`): the package initialiser, which splits each `K=V` string on `=`.
- `emf.dfy` (module `EmbeddedMetricFormat`): pure definitions of the record that the methods are proved against:
  - the flat top-level fields and their overwrite order (`FlatFields`, `Overlay`, `LastMention`);
  - the `_aws` block (`IsAwsBlock`, `IsMetricsElement`, `IsMetricList`, `IsDimensionList`);
  - the whole record (`IsEncoding`);
  - the dimension warnings;
  - the line a sink receives (`IsPublishedLine`).
- `cloudwatch.dfy` (module `CloudWatch`): the imperative code.
  - `MetricDirective` and `EmbeddedMetric` are classes whose methods update their fields.
  - Every loop over a Go map picks its next key with `:|`, so each result is proved for every iteration order.
  - The `Metrics` and `Dimensions` lists are therefore specified up to order: the multiset of listed names equals the key set.
  - A `Sink` class stands for an `io.Writer`. Its writes either all succeed or all fail with one rendered error.
  - `Publish` passes the same sink for output and diagnostics, as the Go code does with `os.Stdout`.

Choices in the code that the model keeps:

- Units: `MetricUnit` is a Go string type, so any string is a unit. The model makes it `string` with the 27 named constants, not a closed enumeration.
- Namespace: no check is made that it is non-empty.
- Line ending: nothing is written after the record, the warnings or the error report, so the model writes no newline.
- Stream key: it is spelled `log_steam_name`, as emitted.

## Model

| member | source | states |
|---|---|---|
| Environment.Split | aws/cloudwatch/structured_metric.go:23 | `strings.Split` on `=` gives one more part than there are `=` characters, and no part contains `=` |
| Environment.ParseEntry | aws/cloudwatch/structured_metric.go:23-26 | An entry yields a pair only when it holds exactly one `=`, and neither half of the pair contains `=` |
| Environment.EnvironmentOf | aws/cloudwatch/structured_metric.go:20-27 | No key or value in the snapshot contains `=`; which entry wins is stated by EnvironmentLookup |
| Environment.JoinSplit | aws/cloudwatch/structured_metric.go:23 | Joining the parts of `strings.Split(s, "=")` with `=` gives back `s`, for every string |
| Environment.SplitJoin | aws/cloudwatch/structured_metric.go:23 | Splitting a join of `=`-free parts gives back exactly those parts |
| Environment.SplitWithoutSeparator | aws/cloudwatch/structured_metric.go:23 | A string without `=` splits into itself alone |
| Environment.SplitAfterPiece | aws/cloudwatch/structured_metric.go:23 | An `=`-free piece followed by `=` becomes the first part, and the rest splits on its own |
| Environment.ParseEntryMeaning | aws/cloudwatch/structured_metric.go:23-24 | An entry yields a pair iff it contains exactly one `=`; the pair is then the text before and after it, and neither half contains `=` |
| Environment.ParseEntryOfPair | aws/cloudwatch/structured_metric.go:23-25 | `K=V` with `=`-free K and V is recorded as exactly (K, V) |
| Environment.LastDefinition | aws/cloudwatch/structured_metric.go:22-26 | The index of the last entry that defines a key, with no later entry defining it; -1 when none does |
| Environment.EnvironmentLookup | aws/cloudwatch/structured_metric.go:20-27 | A key is in the snapshot iff some entry defines it, and its value is the one from the last defining entry |
| Environment.ParseEnvironment | aws/cloudwatch/structured_metric.go:17-28 | The init loop builds exactly the snapshot that the entry list defines, later entries overwriting earlier ones |
| Json.KeyLess | aws/cloudwatch/structured_metric.go:221 | In json.Marshal's key order a proper prefix sorts before the longer key, and no key sorts before itself |
| Json.KeyLessIrreflexive | aws/cloudwatch/structured_metric.go:221 | No key sorts before itself in json.Marshal's key order |
| Json.KeyLessTransitive | aws/cloudwatch/structured_metric.go:221 | json.Marshal's key order is transitive |
| Json.KeyLessTotal | aws/cloudwatch/structured_metric.go:221 | Any two distinct keys are ordered one way or the other |
| Json.FirstUnsupportedUnique | aws/cloudwatch/structured_metric.go:221 | The first failing key of an object is unique, so the reported error is determined |
| Json.MarshalObject | aws/cloudwatch/structured_metric.go:221 | Marshalling the top-level map succeeds iff no value fails and then yields that object; otherwise it reports the error of the first failing key in sorted order |
| EmbeddedMetricFormat.Overlay | aws/cloudwatch/structured_metric.go:196-216 | The directive loop only adds or replaces keys: every earlier key, every metric name and every dimension name is present afterwards |
| EmbeddedMetricFormat.FlatFields | aws/cloudwatch/structured_metric.go:184-216 | Before `_aws` is written, both reserved keys and every property key are present |
| EmbeddedMetricFormat.IsEncoding | aws/cloudwatch/structured_metric.go:184-221 | A record's keys are exactly the flat fields' keys plus `_aws` |
| EmbeddedMetricFormat.LastMention | aws/cloudwatch/structured_metric.go:196-216 | The last directive that names a key as a metric or dimension; no later directive names it |
| EmbeddedMetricFormat.OverlayPrecedence | aws/cloudwatch/structured_metric.go:196-216 | After the directive loop, a key named by a directive holds the last such directive's value, its dimension over its metric; any other key keeps its earlier value or stays absent |
| EmbeddedMetricFormat.FieldPrecedence | aws/cloudwatch/structured_metric.go:184-216 | Each top-level key's value follows the fixed order: last directive naming it, then property, then environment-backed reserved value; any other key is absent |
| EmbeddedMetricFormat.PropertyOverridesLogGroup | aws/cloudwatch/structured_metric.go:184-190 | A property named `log_group_name` replaces the environment value when no directive names that key |
| EmbeddedMetricFormat.PropertyReachesRecord | aws/cloudwatch/structured_metric.go:188-190 | Setting a property again leaves one occurrence of its key, carrying the latest value, unless a directive names it |
| EmbeddedMetricFormat.OverlayStep | aws/cloudwatch/structured_metric.go:204-216 | One more directive writes its metric values, then its dimension values, over the fields so far |
| EmbeddedMetricFormat.MetricsElementIntro | aws/cloudwatch/structured_metric.go:197-201 | The element built from a directive's namespace and its two lists describes that directive |
| EmbeddedMetricFormat.MetricsElementsStep | aws/cloudwatch/structured_metric.go:217-218 | Appending the element of the next directive keeps one element per directive, in directive order |
| EmbeddedMetricFormat.AwsBlockIntro | aws/cloudwatch/structured_metric.go:192-195 | The block of the timestamp and one element per directive is the `_aws` value for those directives |
| EmbeddedMetricFormat.MetricEntriesShape | aws/cloudwatch/structured_metric.go:204-211 | The entries for a list of metric names are one `{Name, Unit}` per name, in that order |
| EmbeddedMetricFormat.DimensionGroupsShape | aws/cloudwatch/structured_metric.go:212-216 | The groups for a list of dimension names are one singleton array per name, in that order |
| EmbeddedMetricFormat.OrderOfKeys | aws/cloudwatch/structured_metric.go:204-216 | A visiting order of a map's keys holds every key exactly once |
| EmbeddedMetricFormat.DimensionListShape | aws/cloudwatch/structured_metric.go:212-216 | `Dimensions` has one singleton group per dimension name: none missing, none repeated, none grouped together, whatever the count |
| EmbeddedMetricFormat.MetricListShape | aws/cloudwatch/structured_metric.go:204-211 | `Metrics` has one `{Name, Unit}` entry per metric name with that metric's unit: none missing, none repeated |
| EmbeddedMetricFormat.MetricEntriesDiffer | aws/cloudwatch/structured_metric.go:206-210 | Entries for different metric names differ |
| EmbeddedMetricFormat.EmptyMetricList | aws/cloudwatch/structured_metric.go:200 | A directive with no metrics lists none |
| EmbeddedMetricFormat.SingletonLists | aws/cloudwatch/structured_metric.go:204-216 | With one dimension and one metric, the lists are exactly `[[name]]` and `[{Name, Unit}]` |
| EmbeddedMetricFormat.ReservedKeysPresent | aws/cloudwatch/structured_metric.go:184-220 | Every record holds `log_group_name`, `log_steam_name` and `_aws`; `CloudWatchMetrics` has one element per directive, and is empty when there are none |
| EmbeddedMetricFormat.DirectiveElement | aws/cloudwatch/structured_metric.go:196-219 | Element i belongs to directive i: its namespace, and as many groups and entries as it has dimensions and metrics |
| EmbeddedMetricFormat.SingletonElement | aws/cloudwatch/structured_metric.go:197-216 | A directive with one dimension and one metric has exactly one possible element: its namespace, `[[dimension]]` and `[{Name, Unit}]` |
| EmbeddedMetricFormat.SingleDirectiveFields | aws/cloudwatch/structured_metric.go:184-216 | With one property `requestId` and one directive with dimension `Stage` and metric `Latency`, the record holds all three values under their own keys |
| EmbeddedMetricFormat.SingleDirectiveElement | aws/cloudwatch/structured_metric.go:192-219 | In the same scenario the only `CloudWatchMetrics` element is `{MyService, [[Stage]], [{Latency, Milliseconds}]}` |
| EmbeddedMetricFormat.Decimal | aws/cloudwatch/structured_metric.go:150 | `%d` of the count prints decimal digits, at least one, with no leading zero |
| EmbeddedMetricFormat.DecimalRoundTrip | aws/cloudwatch/structured_metric.go:150 | The printed count reads back as the count |
| EmbeddedMetricFormat.DimensionWarnings | aws/cloudwatch/structured_metric.go:147-153 | Every chunk the scan prints is a warning line starting with the fixed prefix |
| EmbeddedMetricFormat.DimensionWarningsStep | aws/cloudwatch/structured_metric.go:147-153 | Scanning one more directive adds its warning exactly when it has more than 9 dimensions |
| EmbeddedMetricFormat.DimensionWarningsEmpty | aws/cloudwatch/structured_metric.go:147-153 | No warning is printed iff every directive has at most 9 dimensions |
| EmbeddedMetricFormat.OversizedStep | aws/cloudwatch/structured_metric.go:147-153 | The last directive adds its index to the oversized ones exactly when it has more than 9 dimensions |
| EmbeddedMetricFormat.DimensionWarningsCount | aws/cloudwatch/structured_metric.go:147-153 | The number of warnings equals the number of directives with more than 9 dimensions |
| EmbeddedMetricFormat.DimensionWarningsComplete | aws/cloudwatch/structured_metric.go:147-153 | Every directive with more than 9 dimensions draws a warning carrying its count |
| EmbeddedMetricFormat.DimensionWarningsOrigin | aws/cloudwatch/structured_metric.go:149-151 | Every warning carries the count, above 9, of some directive's dimensions |
| EmbeddedMetricFormat.IsPublishedLine | aws/cloudwatch/structured_metric.go:158-164 | A published line is the record exactly when no surviving value fails to encode |
| EmbeddedMetricFormat.ReplacedValueNeverEncoded | aws/cloudwatch/structured_metric.go:212-221 | A property that a later dimension of the same name replaces cannot make encoding fail |
| CloudWatch.MetricDirective.constructor | aws/cloudwatch/structured_metric.go:131-135 | A directive starts with its namespace, the given dimensions and no metrics |
| CloudWatch.States | aws/cloudwatch/structured_metric.go:112 | The directive states, one per directive, in list order |
| CloudWatch.Sink.constructor | aws/cloudwatch/structured_metric.go:144-145 | A writer starts with nothing written and a fixed outcome for its writes |
| CloudWatch.Sink.Write | aws/cloudwatch/structured_metric.go:161 | A write succeeds iff the writer does not fail, and only a successful write appends the chunk |
| CloudWatch.WriteProperties | aws/cloudwatch/structured_metric.go:188-190 | The property loop writes every property over the reserved fields, whatever the iteration order |
| CloudWatch.MetricFieldsStep | aws/cloudwatch/structured_metric.go:205 | Writing one more metric value extends the written fields by that key |
| CloudWatch.MetricsLoopStep | aws/cloudwatch/structured_metric.go:204-211 | One iteration of the metric loop keeps the account of written fields and listed entries |
| CloudWatch.MetricsLoopDone | aws/cloudwatch/structured_metric.go:204-211 | When the metric loop ends, every metric was written and listed once |
| CloudWatch.WriteMetrics | aws/cloudwatch/structured_metric.go:204-211 | The metric loop writes each metric value and lists one `{Name, Unit}` per metric key, in some order |
| CloudWatch.DimensionFieldsStep | aws/cloudwatch/structured_metric.go:213 | Writing one more dimension value extends the written fields by that key |
| CloudWatch.DimensionsLoopStep | aws/cloudwatch/structured_metric.go:212-216 | One iteration of the dimension loop keeps the account of written fields and listed groups |
| CloudWatch.DimensionsLoopDone | aws/cloudwatch/structured_metric.go:212-216 | When the dimension loop ends, every dimension was written and listed once |
| CloudWatch.WriteDimensions | aws/cloudwatch/structured_metric.go:212-216 | The dimension loop writes each dimension value and lists one singleton group per dimension key, in some order |
| CloudWatch.WriteDirective | aws/cloudwatch/structured_metric.go:196-218 | One directive writes its metrics, then its dimensions, and yields the element that describes it |
| CloudWatch.DirectivesStep | aws/cloudwatch/structured_metric.go:196-219 | One more directive keeps the directive loop's account: fields overlaid and one element per directive so far |
| CloudWatch.DirectivesDone | aws/cloudwatch/structured_metric.go:196-219 | When the directive loop ends, every directive was overlaid and described, in order |
| CloudWatch.RecordOutcome | aws/cloudwatch/structured_metric.go:220-221 | `_aws` replaces any other value of that name and never fails, so marshalling fails iff a surviving flat value fails, and then with the first such key's error |
| CloudWatch.OutcomeLine | aws/cloudwatch/structured_metric.go:160-164 | The line is a record iff marshalling succeeded, carrying that document; otherwise it starts with `Error publishing metric: ` and ends with exactly the marshalling error |
| CloudWatch.PublishedLineOf | aws/cloudwatch/structured_metric.go:158-164 | The record on success, or the wrapped error line on failure, is the line the publish path must write |
| CloudWatch.DeliveredTwice | aws/cloudwatch/structured_metric.go:150-166 | Two writes to one writer deliver their concatenation, or nothing if it fails |
| CloudWatch.MergeStep | aws/cloudwatch/structured_metric.go:155-157 | Merging one more additional property keeps the merge loop's account |
| CloudWatch.EmbeddedMetric.New | aws/cloudwatch/structured_metric.go:230-236 | A new instance has no directives and an empty property bag |
| CloudWatch.EmbeddedMetric.NewWithProperties | aws/cloudwatch/structured_metric.go:240-249 | A new instance has no directives and exactly the supplied properties, or an empty bag for nil |
| CloudWatch.EmbeddedMetric.WithProperty | aws/cloudwatch/structured_metric.go:119-125 | Sets one property, keeps every other one and the directives, and returns the same instance |
| CloudWatch.EmbeddedMetric.NewMetricDirective | aws/cloudwatch/structured_metric.go:129-141 | Appends one fresh directive at the end with the namespace unchecked, no metrics, and the given dimensions or an empty map; earlier directives are untouched |
| CloudWatch.EmbeddedMetric.WriteDirectives | aws/cloudwatch/structured_metric.go:196-219 | The directive loop overlays every directive in creation order and yields one element per directive |
| CloudWatch.EmbeddedMetric.MarshalJSON | aws/cloudwatch/structured_metric.go:177-222 | Succeeds iff every surviving value encodes, and then yields the record for the current state; otherwise yields the first failing key's error |
| CloudWatch.EmbeddedMetric.WarnOversizedDirectives | aws/cloudwatch/structured_metric.go:147-153 | Prints one warning per directive with more than 9 dimensions, in order, and changes no directive |
| CloudWatch.EmbeddedMetric.MergeProperties | aws/cloudwatch/structured_metric.go:155-157 | Every additional property ends up in the instance's own bag, overriding same-named ones; the directives are untouched |
| CloudWatch.EmbeddedMetric.EncodeLine | aws/cloudwatch/structured_metric.go:158-164 | The line is the record when encoding succeeds, otherwise `Error publishing metric: ` with json.Marshal's wrapped error |
| CloudWatch.EmbeddedMetric.WriteLine | aws/cloudwatch/structured_metric.go:159-167 | The line goes to the sink; a refused write is reported on stdout after the warnings |
| CloudWatch.EmbeddedMetric.PublishToSink | aws/cloudwatch/structured_metric.go:144-168 | Warns about oversized directives and keeps them, merges the additional properties for good, writes the record or error line for the merged state to the sink, and reports a refused write on stdout |
| CloudWatch.EmbeddedMetric.Publish | aws/cloudwatch/structured_metric.go:171-173 | With stdout as the sink, stdout receives the warnings followed by the line, or nothing when stdout refuses writes |

## Left out

- The process environment (`os.Environ`) is an input list of strings. `MarshalJSON` takes the snapshot as a parameter instead of reading a package variable.
- The clock (`time.Now`) is an input: the millisecond timestamp is a parameter, so the 64-bit division and the conversion to `int` are not modelled.
- Byte-level JSON output (escaping, number formatting, HTML-safe rewriting, UTF-8 checks) is library behaviour. The model stops at the logical JSON tree.
- Value encodability: whether json.Marshal can encode a caller's value, and the text of its error, come from the `check` function. This includes values with their own marshallers and values nested inside a caller's value.
- Json.MarshalObject: the model does not re-check the `_aws` block. It holds only strings, integers and arrays of them, which always encode.
- The `emfAWS` struct types are not part of this model. The record assumes their JSON field names are `Timestamp`, `CloudWatchMetrics`, `Namespace`, `Dimensions`, `Metrics`, `Name` and `Unit`, with no `omitempty`.
- Map aliasing: Go stores the caller's maps inside the instance, so later caller writes show through. Dafny maps are values, so a caller map and the instance's map never share updates.
- nil maps are modelled as empty maps, which is how Go reads them. Where nil is distinguished (the constructor and `NewMetricDirective`), the argument is an `Option`.
- CloudWatch.Sink.Write: a writer that accepts some writes and refuses later ones is not modelled, because a sink's outcome is fixed for its lifetime. So a stdout that takes the warnings and then refuses the record is not covered.
- CloudWatch.Sink.Write: partial writes are not modelled. A writer either takes the whole line or refuses it with one error, whose `%#v` rendering is given as a string.
- `fmt.Printf` diagnostics are chunks on a stdout `Sink`. A refused write to stdout itself is not reported again, as in the code.
- The constructors' always-nil error results are not modelled.
- Concurrent use of one instance is not modelled. The code has no synchronization.
- `describe_xplat.go` and `aws/cloudformation/cli/describe.go` are not part of this model. They are diagram generation and a CLI over AWS SDK calls, file system access and randomness.
