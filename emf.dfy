/**
 * The CloudWatch Embedded Metric Format record, as a specification: the
 * flat top-level fields with their overwrite order, the `_aws` metadata
 * block, the publish warnings and the line a sink receives. The classes in
 * module CloudWatch are proved against these definitions.
 */
module EmbeddedMetricFormat {
  import opened Wrappers
  import opened Json

  /** A unit label; Go's MetricUnit is a string type, so any string converts to one. */
  type MetricUnit = string

  const UnitSeconds: MetricUnit := "Seconds"
  const UnitMicroseconds: MetricUnit := "Microseconds"
  const UnitMilliseconds: MetricUnit := "Milliseconds"
  const UnitBytes: MetricUnit := "Bytes"
  const UnitKilobytes: MetricUnit := "Kilobytes"
  const UnitMegabytes: MetricUnit := "Megabytes"
  const UnitGigabytes: MetricUnit := "Gigabytes"
  const UnitTerabytes: MetricUnit := "Terabytes"
  const UnitBits: MetricUnit := "Bits"
  const UnitKilobits: MetricUnit := "Kilobits"
  const UnitMegabits: MetricUnit := "Megabits"
  const UnitGigabits: MetricUnit := "Gigabits"
  const UnitTerabits: MetricUnit := "Terabits"
  const UnitPercent: MetricUnit := "Percent"
  const UnitCount: MetricUnit := "Count"
  const UnitBytesPerSecond: MetricUnit := "Bytes/Second"
  const UnitKilobytesPerSecond: MetricUnit := "Kilobytes/Second"
  const UnitMegabytesPerSecond: MetricUnit := "Megabytes/Second"
  const UnitGigabytesPerSecond: MetricUnit := "Gigabytes/Second"
  const UnitTerabytesPerSecond: MetricUnit := "Terabytes/Second"
  const UnitBitsPerSecond: MetricUnit := "Bits/Second"
  const UnitKilobitsPerSecond: MetricUnit := "Kilobits/Second"
  const UnitMegabitsPerSecond: MetricUnit := "Megabits/Second"
  const UnitGigabitsPerSecond: MetricUnit := "Gigabits/Second"
  const UnitTerabitsPerSecond: MetricUnit := "Terabits/Second"
  const UnitCountPerSecond: MetricUnit := "Count/Second"
  const UnitNone: MetricUnit := "None"

  /** A recorded observation; the value is never inspected. */
  datatype MetricValue<V> = MetricValue(Value: V, Unit: MetricUnit)

  /** What one MetricDirective holds at the moment it is encoded. */
  datatype DirectiveState<V> = DirectiveState(
    namespace: string,
    dimensions: map<string, string>,
    metrics: map<string, MetricValue<V>>)

  // Reserved top-level keys (the stream key's spelling is the one emitted)
  const LogGroupKey: string := "log_group_name"
  const LogStreamKey: string := "log_steam_name"
  const AwsKey: string := "_aws"
  // Environment variables that feed the reserved keys
  const LogGroupVariable: string := "AWS_LAMBDA_LOG_GROUP_NAME"
  const LogStreamVariable: string := "AWS_LAMBDA_LOG_STREAM_NAME"
  /** Above this many dimensions a directive draws a warning. */
  const MaxDimensions: nat := 9

  /** Go's map index: a missing variable reads as "". */
  function EnvValue(env: map<string, string>, name: string): string
  {
    if name in env then env[name] else ""
  }

  function ReservedFields<V>(env: map<string, string>): map<string, Json<V>>
  {
    map[LogGroupKey := JString(EnvValue(env, LogGroupVariable)),
        LogStreamKey := JString(EnvValue(env, LogStreamVariable))]
  }

  function PropertyFields<V>(properties: map<string, V>): map<string, Json<V>>
  {
    map k | k in properties :: JOpaque(properties[k])
  }

  function MetricFields<V>(metrics: map<string, MetricValue<V>>): map<string, Json<V>>
  {
    map k | k in metrics :: JOpaque(metrics[k].Value)
  }

  function DimensionFields<V>(dimensions: map<string, string>): map<string, Json<V>>
  {
    map k | k in dimensions :: JString(dimensions[k])
  }

  /**
   * Writes each directive's metric values, then its dimension values,
   * directive by directive. Writing only adds or replaces: no key is lost.
   */
  function Overlay<V>(base: map<string, Json<V>>, ds: seq<DirectiveState<V>>): (r: map<string, Json<V>>)
    ensures base.Keys <= r.Keys
    ensures forall i :: 0 <= i < |ds| ==> ds[i].metrics.Keys + ds[i].dimensions.Keys <= r.Keys
  {
    if ds == [] then base
    else
      var prefix := ds[..|ds| - 1];
      var d := ds[|ds| - 1];
      assert forall i :: 0 <= i < |prefix| ==> prefix[i] == ds[i];
      Overlay(base, prefix) + MetricFields(d.metrics) + DimensionFields(d.dimensions)
  }

  /** The top-level fields before `_aws` is written. */
  function FlatFields<V>(env: map<string, string>, properties: map<string, V>, ds: seq<DirectiveState<V>>): (r: map<string, Json<V>>)
    ensures LogGroupKey in r && LogStreamKey in r
    ensures properties.Keys <= r.Keys
  {
    Overlay(ReservedFields(env) + PropertyFields(properties), ds)
  }

  /** The top-level values that reach json.Marshal: `_aws` replaces whatever else had its name. */
  function SurvivingFields<V>(env: map<string, string>, properties: map<string, V>, ds: seq<DirectiveState<V>>): map<string, Json<V>>
  {
    FlatFields(env, properties, ds) - {AwsKey}
  }

  predicate Mentions<V>(d: DirectiveState<V>, k: string)
  {
    k in d.metrics || k in d.dimensions
  }

  /** The value a directive writes for k: its dimension value when it has one, otherwise its metric value. */
  function DirectiveValue<V>(d: DirectiveState<V>, k: string): Json<V>
    requires Mentions(d, k)
  {
    if k in d.dimensions then JString(d.dimensions[k]) else JOpaque(d.metrics[k].Value)
  }

  /** The index of the last directive naming k as a metric or dimension, or -1. */
  function LastMention<V>(ds: seq<DirectiveState<V>>, k: string): (i: int)
    ensures -1 <= i < |ds|
    ensures i >= 0 ==> Mentions(ds[i], k)
    ensures forall j :: i < j < |ds| ==> !Mentions(ds[j], k)
  {
    if ds == [] then -1
    else if Mentions(ds[|ds| - 1], k) then |ds| - 1
    else LastMention(ds[..|ds| - 1], k)
  }

  lemma {:induction false} OverlayPrecedence<V>(base: map<string, Json<V>>, ds: seq<DirectiveState<V>>, k: string)
    ensures LastMention(ds, k) >= 0 ==>
      k in Overlay(base, ds) && Overlay(base, ds)[k] == DirectiveValue(ds[LastMention(ds, k)], k)
    ensures LastMention(ds, k) == -1 ==>
      (k in Overlay(base, ds) <==> k in base) &&
      (k in base ==> Overlay(base, ds)[k] == base[k])
  {
    if ds != [] {
      var prefix := ds[..|ds| - 1];
      var last := ds[|ds| - 1];
      OverlayPrecedence(base, prefix, k);
      assert Overlay(base, ds) == Overlay(base, prefix) + MetricFields(last.metrics) + DimensionFields(last.dimensions);
      if Mentions(last, k) {
        assert LastMention(ds, k) == |ds| - 1;
      } else {
        assert LastMention(ds, k) == LastMention(prefix, k);
        assert k !in MetricFields(last.metrics) && k !in DimensionFields<V>(last.dimensions);
        if LastMention(prefix, k) >= 0 {
          assert ds[LastMention(prefix, k)] == prefix[LastMention(prefix, k)];
        }
      }
    }
  }

  /**
   * Last writer wins: a key takes the value of the last directive that
   * names it (its dimension over its metric), else the property, else the
   * environment-backed reserved value; any other key is absent.
   */
  lemma FieldPrecedence<V>(env: map<string, string>, properties: map<string, V>, ds: seq<DirectiveState<V>>, k: string)
    ensures var flat := FlatFields(env, properties, ds);
      if LastMention(ds, k) >= 0 then
        k in flat && flat[k] == DirectiveValue(ds[LastMention(ds, k)], k)
      else if k in properties then
        k in flat && flat[k] == JOpaque(properties[k])
      else if k == LogGroupKey then
        k in flat && flat[k] == JString(EnvValue(env, LogGroupVariable))
      else if k == LogStreamKey then
        k in flat && flat[k] == JString(EnvValue(env, LogStreamVariable))
      else
        k !in flat
  {
    OverlayPrecedence(ReservedFields(env) + PropertyFields(properties), ds, k);
  }

  /** A property named `log_group_name` replaces the environment's value unless a directive names it too. */
  lemma PropertyOverridesLogGroup<V>(env: map<string, string>, properties: map<string, V>, ds: seq<DirectiveState<V>>)
    requires LogGroupKey in properties && LastMention(ds, LogGroupKey) == -1
    ensures LogGroupKey in FlatFields(env, properties, ds)
    ensures FlatFields(env, properties, ds)[LogGroupKey] == JOpaque(properties[LogGroupKey])
  {
    FieldPrecedence(env, properties, ds, LogGroupKey);
  }

  /** A property no directive names reaches the record with the latest value attached. */
  lemma PropertyReachesRecord<V>(env: map<string, string>, properties: map<string, V>, ds: seq<DirectiveState<V>>, k: string, v: V)
    requires LastMention(ds, k) == -1
    ensures k in FlatFields(env, properties[k := v], ds)
    ensures FlatFields(env, properties[k := v], ds)[k] == JOpaque(v)
  {
    FieldPrecedence(env, properties[k := v], ds, k);
  }

  // ---- The `_aws` block ----

  function MetricEntry<V>(name: string, unit: MetricUnit): Json<V>
  {
    JObject(map["Name" := JString(name), "Unit" := JString(unit)])
  }

  function DimensionGroup<V>(name: string): Json<V>
  {
    JArray([JString(name)])
  }

  /** The entries for `names`, in that order (a name that is not a metric has none). */
  function MetricEntries<V>(names: seq<string>, metrics: map<string, MetricValue<V>>): seq<Json<V>>
  {
    if names == [] then []
    else
      var n := names[|names| - 1];
      MetricEntries(names[..|names| - 1], metrics) + (if n in metrics then [MetricEntry(n, metrics[n].Unit)] else [])
  }

  function DimensionGroups<V>(names: seq<string>): seq<Json<V>>
  {
    if names == [] then []
    else DimensionGroups(names[..|names| - 1]) + [DimensionGroup(names[|names| - 1])]
  }

  /** `items` lists one {Name, Unit} entry per metric name, in some order. */
  ghost predicate IsMetricList<V>(items: seq<Json<V>>, metrics: map<string, MetricValue<V>>)
  {
    exists names: seq<string> ::
      multiset(names) == multiset(metrics.Keys) && items == MetricEntries(names, metrics)
  }

  /** `items` lists one singleton group per dimension name, in some order. */
  ghost predicate IsDimensionList<V>(items: seq<Json<V>>, dimensions: map<string, string>)
  {
    exists names: seq<string> ::
      multiset(names) == multiset(dimensions.Keys) && items == DimensionGroups<V>(names)
  }

  lemma MetricListIntro<V>(items: seq<Json<V>>, metrics: map<string, MetricValue<V>>, names: seq<string>)
    requires multiset(names) == multiset(metrics.Keys) && items == MetricEntries(names, metrics)
    ensures IsMetricList(items, metrics)
  {
  }

  lemma DimensionListIntro<V>(items: seq<Json<V>>, dimensions: map<string, string>, names: seq<string>)
    requires multiset(names) == multiset(dimensions.Keys) && items == DimensionGroups<V>(names)
    ensures IsDimensionList(items, dimensions)
  {
  }

  ghost predicate IsMetricsElement<V>(e: Json<V>, d: DirectiveState<V>)
  {
    && e.JObject?
    && e.fields.Keys == {"Namespace", "Dimensions", "Metrics"}
    && e.fields["Namespace"] == JString(d.namespace)
    && e.fields["Dimensions"].JArray?
    && IsDimensionList(e.fields["Dimensions"].items, d.dimensions)
    && e.fields["Metrics"].JArray?
    && IsMetricList(e.fields["Metrics"].items, d.metrics)
  }

  ghost predicate IsAwsBlock<V>(aws: Json<V>, ds: seq<DirectiveState<V>>, timestamp: int)
  {
    && aws.JObject?
    && aws.fields.Keys == {"Timestamp", "CloudWatchMetrics"}
    && aws.fields["Timestamp"] == JInt(timestamp)
    && aws.fields["CloudWatchMetrics"].JArray?
    && |aws.fields["CloudWatchMetrics"].items| == |ds|
    && forall i :: 0 <= i < |ds| ==> IsMetricsElement(aws.fields["CloudWatchMetrics"].items[i], ds[i])
  }

  /** `doc` is the record for this state: the flat fields, then `_aws` written last. */
  ghost predicate IsEncoding<V>(doc: Json<V>, env: map<string, string>, properties: map<string, V>,
                                ds: seq<DirectiveState<V>>, timestamp: int)
    ensures IsEncoding(doc, env, properties, ds, timestamp) ==>
      doc.JObject? && doc.fields.Keys == FlatFields(env, properties, ds).Keys + {AwsKey}
  {
    && doc.JObject?
    && AwsKey in doc.fields
    && IsAwsBlock(doc.fields[AwsKey], ds, timestamp)
    && doc.fields == FlatFields(env, properties, ds)[AwsKey := doc.fields[AwsKey]]
  }

  /** The CloudWatchMetrics element the encoder builds for one directive. */
  function MetricsElement<V>(namespace: string, groups: seq<Json<V>>, entries: seq<Json<V>>): Json<V>
  {
    JObject(map["Dimensions" := JArray(groups), "Namespace" := JString(namespace), "Metrics" := JArray(entries)])
  }

  lemma MetricsElementIntro<V>(d: DirectiveState<V>, groups: seq<Json<V>>, entries: seq<Json<V>>)
    requires IsDimensionList(groups, d.dimensions) && IsMetricList(entries, d.metrics)
    ensures IsMetricsElement(MetricsElement(d.namespace, groups, entries), d)
  {
    var fields := MetricsElement(d.namespace, groups, entries).fields;
    assert fields.Keys == {"Namespace", "Dimensions", "Metrics"};
    assert fields["Namespace"] == JString(d.namespace);
    assert fields["Dimensions"] == JArray(groups);
    assert fields["Metrics"] == JArray(entries);
  }

  /** The `_aws` block the encoder builds from the timestamp and the elements. */
  function AwsBlock<V>(timestamp: int, elements: seq<Json<V>>): Json<V>
  {
    JObject(map["Timestamp" := JInt(timestamp), "CloudWatchMetrics" := JArray(elements)])
  }

  /** One CloudWatchMetrics element per directive, in directive order. */
  ghost predicate AreMetricsElements<V>(elements: seq<Json<V>>, ds: seq<DirectiveState<V>>)
  {
    && |elements| == |ds|
    && forall i :: 0 <= i < |ds| ==> IsMetricsElement(elements[i], ds[i])
  }

  lemma MetricsElementsStep<V>(elements: seq<Json<V>>, ds: seq<DirectiveState<V>>, i: int, e: Json<V>)
    requires 0 <= i < |ds|
    requires AreMetricsElements(elements, ds[..i]) && IsMetricsElement(e, ds[i])
    ensures AreMetricsElements(elements + [e], ds[..i + 1])
  {
    assert ds[..i + 1] == ds[..i] + [ds[i]];
  }

  lemma AwsBlockIntro<V>(timestamp: int, elements: seq<Json<V>>, ds: seq<DirectiveState<V>>)
    requires AreMetricsElements(elements, ds)
    ensures IsAwsBlock(AwsBlock(timestamp, elements), ds, timestamp)
  {
  }

  /** Overlaying one more directive writes its metrics, then its dimensions. */
  lemma OverlayStep<V>(base: map<string, Json<V>>, ds: seq<DirectiveState<V>>, i: int)
    requires 0 <= i < |ds|
    ensures Overlay(base, ds[..i + 1]) == Overlay(base, ds[..i]) + MetricFields(ds[i].metrics) + DimensionFields(ds[i].dimensions)
  {
    assert ds[..i + 1][..i] == ds[..i];
  }

  lemma {:induction false} MetricEntriesShape<V>(names: seq<string>, metrics: map<string, MetricValue<V>>)
    requires forall i :: 0 <= i < |names| ==> names[i] in metrics
    ensures |MetricEntries(names, metrics)| == |names|
    ensures forall i :: 0 <= i < |names| ==>
      MetricEntries(names, metrics)[i] == MetricEntry(names[i], metrics[names[i]].Unit)
  {
    if names != [] {
      MetricEntriesShape(names[..|names| - 1], metrics);
    }
  }

  lemma {:induction false} DimensionGroupsShape<V>(names: seq<string>)
    ensures |DimensionGroups<V>(names)| == |names|
    ensures forall i :: 0 <= i < |names| ==> DimensionGroups<V>(names)[i] == DimensionGroup(names[i])
  {
    if names != [] {
      DimensionGroupsShape<V>(names[..|names| - 1]);
    }
  }

  /** A sequence whose multiset is that of a set holds each element once. */
  lemma OrderOfKeys(names: seq<string>, keys: set<string>)
    requires multiset(names) == multiset(keys)
    ensures |names| == |keys|
    ensures forall i :: 0 <= i < |names| ==> names[i] in keys
    ensures forall k :: k in keys ==> k in names
    ensures forall i, j :: 0 <= i < j < |names| ==> names[i] != names[j]
  {
    assert |names| == |multiset(names)| == |multiset(keys)| == |keys|;
    forall i | 0 <= i < |names| ensures names[i] in keys {
      assert names[i] in multiset(names);
    }
    forall k | k in keys ensures k in names {
      assert k in multiset(keys);
    }
    forall i, j | 0 <= i < j < |names| ensures names[i] != names[j] {
      assert names == names[..j] + [names[j]] + names[j + 1..];
      assert names[..j][i] == names[i];
      assert multiset(names[..j])[names[i]] >= 1;
      assert multiset(names)[names[j]] >= multiset(names[..j])[names[j]] + 1;
      assert multiset(keys)[names[j]] <= 1;
    }
  }

  /**
   * The Dimensions list of a directive is made of singleton groups, one
   * for each dimension name: no name missing, none repeated, none grouped
   * with another. Nothing is dropped, whatever the number of dimensions.
   */
  lemma DimensionListShape<V>(items: seq<Json<V>>, dimensions: map<string, string>)
    requires IsDimensionList(items, dimensions)
    ensures |items| == |dimensions|
    ensures forall i :: 0 <= i < |items| ==> exists k :: k in dimensions && items[i] == DimensionGroup(k)
    ensures forall k :: k in dimensions ==> DimensionGroup(k) in items
    ensures forall i, j :: 0 <= i < j < |items| ==> items[i] != items[j]
  {
    var names: seq<string> :| multiset(names) == multiset(dimensions.Keys) && items == DimensionGroups<V>(names);
    OrderOfKeys(names, dimensions.Keys);
    DimensionGroupsShape<V>(names);
    forall k | k in dimensions ensures DimensionGroup(k) in items {
      var i :| 0 <= i < |names| && names[i] == k;
      assert items[i] == DimensionGroup(k);
    }
    forall i | 0 <= i < |items| ensures exists k :: k in dimensions && items[i] == DimensionGroup(k) {
      assert items[i] == DimensionGroup(names[i]);
    }
    forall i, j | 0 <= i < j < |items| ensures items[i] != items[j] {
      assert DimensionGroup<V>(names[i]).items[0] == JString(names[i]);
    }
  }

  /**
   * The Metrics list of a directive has one {Name, Unit} entry per metric
   * name, carrying that metric's unit, with no name missing or repeated.
   */
  lemma MetricListShape<V>(items: seq<Json<V>>, metrics: map<string, MetricValue<V>>)
    requires IsMetricList(items, metrics)
    ensures |items| == |metrics|
    ensures forall i :: 0 <= i < |items| ==> exists k :: k in metrics && items[i] == MetricEntry(k, metrics[k].Unit)
    ensures forall k :: k in metrics ==> MetricEntry(k, metrics[k].Unit) in items
    ensures forall i, j :: 0 <= i < j < |items| ==> items[i] != items[j]
  {
    var names: seq<string> :| multiset(names) == multiset(metrics.Keys) && items == MetricEntries(names, metrics);
    OrderOfKeys(names, metrics.Keys);
    MetricEntriesShape(names, metrics);
    forall k | k in metrics ensures MetricEntry(k, metrics[k].Unit) in items {
      var i :| 0 <= i < |names| && names[i] == k;
      assert items[i] == MetricEntry(k, metrics[k].Unit);
    }
    forall i | 0 <= i < |items| ensures exists k :: k in metrics && items[i] == MetricEntry(k, metrics[k].Unit) {
      assert items[i] == MetricEntry(names[i], metrics[names[i]].Unit);
    }
    forall i, j | 0 <= i < j < |items| ensures items[i] != items[j] {
      MetricEntriesDiffer<V>(names[i], metrics[names[i]].Unit, names[j], metrics[names[j]].Unit);
    }
  }

  lemma MetricEntriesDiffer<V>(a: string, u: MetricUnit, b: string, w: MetricUnit)
    requires a != b
    ensures MetricEntry<V>(a, u) != MetricEntry<V>(b, w)
  {
    assert MetricEntry<V>(a, u).fields["Name"] == JString(a);
  }

  /** A directive that never had a metric recorded lists no metrics. */
  lemma EmptyMetricList<V>(items: seq<Json<V>>)
    requires IsMetricList(items, map[])
    ensures items == []
  {
    MetricListShape(items, map[]);
  }

  /** A single dimension or metric leaves exactly one possible list. */
  lemma SingletonLists<V>(dimName: string, dimValue: string, metricName: string, metric: MetricValue<V>,
                          dimItems: seq<Json<V>>, metricItems: seq<Json<V>>)
    requires IsDimensionList(dimItems, map[dimName := dimValue])
    requires IsMetricList(metricItems, map[metricName := metric])
    ensures dimItems == [JArray([JString(dimName)])]
    ensures metricItems == [JObject(map["Name" := JString(metricName), "Unit" := JString(metric.Unit)])]
  {
    DimensionListShape(dimItems, map[dimName := dimValue]);
    MetricListShape(metricItems, map[metricName := metric]);
  }

  /** The reserved keys and `_aws` are in every record, `_aws` holding the metadata block. */
  lemma {:induction false} ReservedKeysPresent<V>(doc: Json<V>, env: map<string, string>, properties: map<string, V>,
                                                  ds: seq<DirectiveState<V>>, timestamp: int)
    requires IsEncoding(doc, env, properties, ds, timestamp)
    ensures LogGroupKey in doc.fields && LogStreamKey in doc.fields && AwsKey in doc.fields
    ensures |doc.fields[AwsKey].fields["CloudWatchMetrics"].items| == |ds|
    ensures ds == [] ==> doc.fields[AwsKey].fields["CloudWatchMetrics"] == JArray([])
  {
    FieldPrecedence(env, properties, ds, LogGroupKey);
    FieldPrecedence(env, properties, ds, LogStreamKey);
  }

  /**
   * Element i of CloudWatchMetrics belongs to directive i: same namespace,
   * one group per dimension name and one entry per metric name.
   */
  lemma DirectiveElement<V>(doc: Json<V>, env: map<string, string>, properties: map<string, V>,
                            ds: seq<DirectiveState<V>>, timestamp: int, i: nat)
    requires IsEncoding(doc, env, properties, ds, timestamp)
    requires i < |ds|
    ensures var e := doc.fields[AwsKey].fields["CloudWatchMetrics"].items[i];
      && e.fields["Namespace"] == JString(ds[i].namespace)
      && |e.fields["Dimensions"].items| == |ds[i].dimensions|
      && |e.fields["Metrics"].items| == |ds[i].metrics|
  {
    var e := doc.fields[AwsKey].fields["CloudWatchMetrics"].items[i];
    assert IsMetricsElement(e, ds[i]);
    DimensionListShape(e.fields["Dimensions"].items, ds[i].dimensions);
    MetricListShape(e.fields["Metrics"].items, ds[i].metrics);
  }

  /** The directive of the one-directive scenario below: one dimension and one metric. */
  function ScenarioDirective<V>(latency: V): DirectiveState<V>
  {
    DirectiveState("MyService", map["Stage" := "prod"], map["Latency" := MetricValue(latency, UnitMilliseconds)])
  }

  /**
   * One property and one directive with one dimension and one metric: the
   * record carries all three values under their own top-level keys.
   */
  lemma SingleDirectiveFields<V>(doc: Json<V>, env: map<string, string>, requestId: V, latency: V, timestamp: int)
    requires IsEncoding(doc, env, map["requestId" := requestId], [ScenarioDirective(latency)], timestamp)
    ensures "requestId" in doc.fields && doc.fields["requestId"] == JOpaque(requestId)
    ensures "Stage" in doc.fields && doc.fields["Stage"] == JString("prod")
    ensures "Latency" in doc.fields && doc.fields["Latency"] == JOpaque(latency)
  {
    var properties := map["requestId" := requestId];
    var ds := [ScenarioDirective(latency)];
    FieldPrecedence(env, properties, ds, "requestId");
    FieldPrecedence(env, properties, ds, "Stage");
    FieldPrecedence(env, properties, ds, "Latency");
  }

  /**
   * In the same scenario the only CloudWatchMetrics element is
   * {"Namespace": "MyService", "Dimensions": [["Stage"]],
   *  "Metrics": [{"Name": "Latency", "Unit": "Milliseconds"}]}.
   */
  lemma SingleDirectiveElement<V>(doc: Json<V>, env: map<string, string>, requestId: V, latency: V, timestamp: int)
    requires IsEncoding(doc, env, map["requestId" := requestId], [ScenarioDirective(latency)], timestamp)
    ensures doc.fields[AwsKey].fields["CloudWatchMetrics"].items ==
      [MetricsElement("MyService", [DimensionGroup("Stage")], [MetricEntry("Latency", UnitMilliseconds)])]
  {
    var items := doc.fields[AwsKey].fields["CloudWatchMetrics"].items;
    var e := items[0];
    assert IsMetricsElement(e, ScenarioDirective(latency)) && items == [e];
    SingletonElement(e, "MyService", "Stage", "prod", "Latency", MetricValue(latency, UnitMilliseconds));
  }

  /** A directive with one dimension and one metric has exactly one possible element. */
  lemma SingletonElement<V>(e: Json<V>, namespace: string, dimName: string, dimValue: string,
                            metricName: string, metric: MetricValue<V>)
    requires IsMetricsElement(e, DirectiveState(namespace, map[dimName := dimValue], map[metricName := metric]))
    ensures e == MetricsElement(namespace, [DimensionGroup(dimName)], [MetricEntry(metricName, metric.Unit)])
  {
    SingletonLists(dimName, dimValue, metricName, metric, e.fields["Dimensions"].items, e.fields["Metrics"].items);
    assert e.fields == MetricsElement(namespace, [DimensionGroup(dimName)], [MetricEntry<V>(metricName, metric.Unit)]).fields;
  }

  // ---- Publishing ----

  /** A write to a sink: the encoded record, or a line of text. */
  datatype Chunk<V> = Record(doc: Json<V>) | Text(text: string)

  const DimensionWarningPrefix: string := "DimensionSet for structured metric must not have more than 9 elements. Count: "
  const PublishErrorPrefix: string := "Error publishing metric: "
  /** How json.Marshal wraps an error returned by the EmbeddedMetric's own MarshalJSON. */
  const MarshalerErrorPrefix: string := "json: error calling MarshalJSON for type *cloudwatch.EmbeddedMetric: "
  const WriteErrorPrefix: string := "ERROR: "

  function DigitChar(d: nat): char
    requires d < 10
  {
    ('0' as int + d) as char
  }

  /** fmt's %d of a non-negative count: decimal digits, with no leading zero. */
  function Decimal(n: nat): (s: string)
    ensures |s| >= 1
    ensures forall i :: 0 <= i < |s| ==> '0' <= s[i] <= '9'
    ensures s[0] == '0' ==> n == 0
  {
    if n < 10 then [DigitChar(n)] else Decimal(n / 10) + [DigitChar(n % 10)]
  }

  /** The number a string of decimal digits denotes. */
  function DigitsValue(s: string): nat
    requires forall i :: 0 <= i < |s| ==> '0' <= s[i] <= '9'
  {
    if s == [] then 0 else DigitsValue(s[..|s| - 1]) * 10 + (s[|s| - 1] as int - '0' as int)
  }

  /** The printed count reads back as the count. */
  lemma {:induction false} DecimalRoundTrip(n: nat)
    ensures DigitsValue(Decimal(n)) == n
  {
    var s := Decimal(n);
    if n >= 10 {
      DecimalRoundTrip(n / 10);
      assert s[..|s| - 1] == Decimal(n / 10);
    } else {
      assert s[..|s| - 1] == [];
    }
  }

  function DimensionWarning<V>(count: nat): Chunk<V>
  {
    Text(DimensionWarningPrefix + Decimal(count))
  }

  /** The warnings the publish path prints, one per directive with too many dimensions, in order. */
  function DimensionWarnings<V>(ds: seq<DirectiveState<V>>): (r: seq<Chunk<V>>)
    ensures forall j :: 0 <= j < |r| ==> r[j].Text? && DimensionWarningPrefix <= r[j].text
  {
    if ds == [] then []
    else
      var d := ds[|ds| - 1];
      DimensionWarnings(ds[..|ds| - 1]) +
        (if |d.dimensions| > MaxDimensions then [DimensionWarning(|d.dimensions|)] else [])
  }

  /** Looking at one more directive adds its warning, if it has one. */
  lemma DimensionWarningsStep<V>(ds: seq<DirectiveState<V>>, i: int)
    requires 0 <= i < |ds|
    ensures DimensionWarnings(ds[..i + 1]) == DimensionWarnings(ds[..i]) +
      (if |ds[i].dimensions| > MaxDimensions then [DimensionWarning(|ds[i].dimensions|)] else [])
  {
    assert ds[..i + 1][..i] == ds[..i];
  }

  /** No warning is printed exactly when every directive has at most 9 dimensions. */
  lemma {:induction false} DimensionWarningsEmpty<V>(ds: seq<DirectiveState<V>>)
    ensures DimensionWarnings(ds) == [] <==> forall i :: 0 <= i < |ds| ==> |ds[i].dimensions| <= MaxDimensions
  {
    if ds != [] {
      var prefix := ds[..|ds| - 1];
      DimensionWarningsEmpty(prefix);
      if DimensionWarnings(ds) == [] {
        forall i | 0 <= i < |ds| ensures |ds[i].dimensions| <= MaxDimensions {
          if i < |prefix| {
            assert ds[i] == prefix[i];
          }
        }
      } else {
        assert !(forall i :: 0 <= i < |ds| ==> |ds[i].dimensions| <= MaxDimensions) by {
          if |ds[|ds| - 1].dimensions| <= MaxDimensions {
            var i :| 0 <= i < |prefix| && |prefix[i].dimensions| > MaxDimensions;
            assert ds[i] == prefix[i];
          }
        }
      }
    }
  }

  /** The indices of the directives with more than 9 dimensions. */
  ghost function Oversized<V>(ds: seq<DirectiveState<V>>): set<int>
  {
    set i | 0 <= i < |ds| && |ds[i].dimensions| > MaxDimensions
  }

  /** The last directive joins the oversized indices of the others when it has more than 9 dimensions. */
  lemma OversizedStep<V>(ds: seq<DirectiveState<V>>)
    requires ds != []
    ensures var n := |ds| - 1;
      && n !in Oversized(ds[..n])
      && Oversized(ds) == Oversized(ds[..n]) + (if |ds[n].dimensions| > MaxDimensions then {n} else {})
  {
    var prefix := ds[..|ds| - 1];
    assert forall i :: 0 <= i < |prefix| ==> prefix[i] == ds[i];
  }

  /** Exactly one warning per directive with more than 9 dimensions. */
  lemma {:induction false} DimensionWarningsCount<V>(ds: seq<DirectiveState<V>>)
    ensures |DimensionWarnings(ds)| == |Oversized(ds)|
  {
    if ds != [] {
      DimensionWarningsCount(ds[..|ds| - 1]);
      OversizedStep(ds);
    }
  }

  /** Every directive with more than 9 dimensions draws its warning. */
  lemma {:induction false} DimensionWarningsComplete<V>(ds: seq<DirectiveState<V>>, i: int)
    requires 0 <= i < |ds| && |ds[i].dimensions| > MaxDimensions
    ensures DimensionWarning(|ds[i].dimensions|) in DimensionWarnings(ds)
  {
    if i < |ds| - 1 {
      var prefix := ds[..|ds| - 1];
      assert prefix[i] == ds[i];
      DimensionWarningsComplete(prefix, i);
    }
  }

  /** Each warning names the dimension count, above 9, of some directive. */
  lemma {:induction false} DimensionWarningsOrigin<V>(ds: seq<DirectiveState<V>>)
    ensures forall w :: w in DimensionWarnings(ds) ==>
      exists i :: 0 <= i < |ds| && |ds[i].dimensions| > MaxDimensions && w == DimensionWarning(|ds[i].dimensions|)
  {
    if ds != [] {
      var prefix := ds[..|ds| - 1];
      DimensionWarningsOrigin(prefix);
      forall w | w in DimensionWarnings(ds)
        ensures exists i :: 0 <= i < |ds| && |ds[i].dimensions| > MaxDimensions && w == DimensionWarning(|ds[i].dimensions|)
      {
        if w in DimensionWarnings(prefix) {
          var i :| 0 <= i < |prefix| && |prefix[i].dimensions| > MaxDimensions && w == DimensionWarning(|prefix[i].dimensions|);
          assert ds[i] == prefix[i];
        } else {
          assert w == DimensionWarning(|ds[|ds| - 1].dimensions|);
        }
      }
    }
  }

  /**
   * The line a sink receives: the record when json.Marshal accepts every
   * surviving value, otherwise an error line naming the error of the first
   * failing key in json.Marshal's order.
   */
  ghost predicate IsPublishedLine<V>(line: Chunk<V>, env: map<string, string>, properties: map<string, V>,
                                     ds: seq<DirectiveState<V>>, timestamp: int, check: V -> Option<string>)
    ensures IsPublishedLine(line, env, properties, ds, timestamp, check) ==>
      (line.Record? <==> forall k :: !Unsupported(SurvivingFields(env, properties, ds), check, k))
  {
    var surviving := SurvivingFields(env, properties, ds);
    if forall k :: !Unsupported(surviving, check, k) then
      line.Record? && IsEncoding(line.doc, env, properties, ds, timestamp)
    else
      exists k :: IsFirstUnsupported(surviving, check, k) &&
        line == Text(PublishErrorPrefix + MarshalerErrorPrefix + check(surviving[k].value).value)
  }

  /**
   * A failing value that a later writer replaced is never encoded: a
   * property whose name a directive reuses as a dimension cannot make the
   * publish fail.
   */
  lemma ReplacedValueNeverEncoded<V>(env: map<string, string>, properties: map<string, V>,
                                     ds: seq<DirectiveState<V>>, k: string, check: V -> Option<string>)
    requires k in properties && LastMention(ds, k) >= 0 && k in ds[LastMention(ds, k)].dimensions
    ensures !Unsupported(SurvivingFields(env, properties, ds), check, k)
  {
    FieldPrecedence(env, properties, ds, k);
  }
}
