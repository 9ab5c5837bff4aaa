/**
 * The builder and publisher of CloudWatch Embedded Metric Format records:
 * an EmbeddedMetric owns an ordered list of MetricDirectives and a property
 * bag, encodes them into one record and writes it to a sink. Go's map
 * iteration order is unspecified, so every loop over a map picks its next
 * key with `:|`; the results are proved for every such order.
 */
module CloudWatch {
  import opened Wrappers
  import opened Json
  import opened EmbeddedMetricFormat

  /** One namespace with its dimensions and metrics; callers fill both maps directly. */
  class MetricDirective<V> {
    var Dimensions: map<string, string>
    var Metrics: map<string, MetricValue<V>>
    const namespace: string

    constructor (namespace: string, dimensions: map<string, string>)
      ensures this.namespace == namespace && Dimensions == dimensions && Metrics == map[]
    {
      this.namespace := namespace;
      Dimensions := dimensions;
      Metrics := map[];
    }

    ghost function State(): DirectiveState<V>
      reads this
    {
      DirectiveState(namespace, Dimensions, Metrics)
    }
  }

  /** The states of a list of directives, in list order. */
  ghost function States<V>(ds: seq<MetricDirective<V>>): (r: seq<DirectiveState<V>>)
    reads ds
    ensures |r| == |ds|
    ensures forall i :: 0 <= i < |ds| ==> r[i] == ds[i].State()
  {
    if ds == [] then []
    else States(ds[..|ds| - 1]) + [ds[|ds| - 1].State()]
  }

  /** What a sink holds after `more` was written to it: nothing sticks when its writes fail. */
  function Delivered<V>(chunks: seq<Chunk<V>>, failure: Option<string>, more: seq<Chunk<V>>): seq<Chunk<V>>
  {
    if failure.None? then chunks + more else chunks
  }

  /** The diagnostic printed after the sink refused the write. */
  function WriteFailureReport<V>(failure: Option<string>): seq<Chunk<V>>
  {
    if failure.Some? then [Text(WriteErrorPrefix + failure.value)] else []
  }

  /**
   * An io.Writer: either every write succeeds, or every write fails with
   * the error whose %#v rendering is `failure`.
   */
  class Sink<V> {
    const failure: Option<string>
    var chunks: seq<Chunk<V>>

    constructor (failure: Option<string>)
      ensures this.failure == failure && chunks == []
    {
      this.failure := failure;
      chunks := [];
    }

    method Write(c: Chunk<V>) returns (ok: bool)
      modifies this
      ensures ok <==> failure.None?
      ensures chunks == Delivered(old(chunks), failure, [c])
    {
      ok := failure.None?;
      if ok {
        chunks := chunks + [c];
      }
    }
  }

  /** The json.Marshal of the property loop: each property is written under its own key. */
  method WriteProperties<V>(fields: map<string, Json<V>>, properties: map<string, V>)
    returns (result: map<string, Json<V>>)
    ensures result == fields + PropertyFields(properties)
  {
    result := fields;
    var remaining := properties.Keys;
    while remaining != {}
      invariant remaining <= properties.Keys
      invariant forall j :: j in result <==> j in fields || (j in properties && j !in remaining)
      invariant forall j :: j in result ==>
        result[j] == if j in properties && j !in remaining then JOpaque(properties[j]) else fields[j]
      decreases remaining
    {
      var k :| k in remaining;
      result := result[k := JOpaque(properties[k])];
      remaining := remaining - {k};
    }
    assert result == fields + PropertyFields(properties);
  }

  /** Writing one more key over a union is the union with that key written. */
  lemma UnionThenWrite<V>(fields: map<string, Json<V>>, written: map<string, Json<V>>, k: string, v: Json<V>)
    ensures (fields + written)[k := v] == fields + written[k := v]
  {
  }

  /** Taking one more key out of `remaining` adds exactly that key to what was visited. */
  lemma VisitOneMore(keys: set<string>, remaining: set<string>, k: string, names: seq<string>)
    requires remaining <= keys && k in remaining
    requires multiset(names) == multiset(keys - remaining)
    ensures multiset(names + [k]) == multiset(keys - (remaining - {k}))
  {
    assert keys - (remaining - {k}) == (keys - remaining) + {k};
  }

  /** What the metric loop has done once the keys outside `remaining` were visited, in the order `names`. */
  ghost predicate MetricsVisited<V>(fields: map<string, Json<V>>, metrics: map<string, MetricValue<V>>,
                                    remaining: set<string>, names: seq<string>,
                                    result: map<string, Json<V>>, entries: seq<Json<V>>)
  {
    && remaining <= metrics.Keys
    && result == fields + MetricFields(metrics - remaining)
    && multiset(names) == multiset(metrics.Keys - remaining)
    && entries == MetricEntries(names, metrics)
  }

  /** Writing one more metric value extends what the loop has written by that key. */
  lemma MetricFieldsStep<V>(fields: map<string, Json<V>>, metrics: map<string, MetricValue<V>>,
                            remaining: set<string>, k: string)
    requires remaining <= metrics.Keys && k in remaining
    ensures (fields + MetricFields(metrics - remaining))[k := JOpaque(metrics[k].Value)]
            == fields + MetricFields(metrics - (remaining - {k}))
  {
    assert (metrics - (remaining - {k})).Keys == (metrics - remaining).Keys + {k};
    assert MetricFields(metrics - (remaining - {k})) == MetricFields(metrics - remaining)[k := JOpaque(metrics[k].Value)];
    UnionThenWrite(fields, MetricFields(metrics - remaining), k, JOpaque(metrics[k].Value));
  }

  /** Visiting one more metric key keeps the loop's account of what was written and listed. */
  lemma MetricsLoopStep<V>(fields: map<string, Json<V>>, metrics: map<string, MetricValue<V>>,
                           remaining: set<string>, names: seq<string>,
                           result: map<string, Json<V>>, entries: seq<Json<V>>, k: string)
    requires MetricsVisited(fields, metrics, remaining, names, result, entries)
    requires k in remaining
    ensures MetricsVisited(fields, metrics, remaining - {k}, names + [k],
                           result[k := JOpaque(metrics[k].Value)], entries + [MetricEntry(k, metrics[k].Unit)])
  {
    MetricFieldsStep(fields, metrics, remaining, k);
    VisitOneMore(metrics.Keys, remaining, k, names);
    assert (names + [k])[..|names|] == names;
  }

  /** Once every key was visited, the loop has written all metrics and listed each once. */
  lemma MetricsLoopDone<V>(fields: map<string, Json<V>>, metrics: map<string, MetricValue<V>>,
                           names: seq<string>, result: map<string, Json<V>>, entries: seq<Json<V>>)
    requires MetricsVisited(fields, metrics, {}, names, result, entries)
    ensures result == fields + MetricFields(metrics)
    ensures IsMetricList(entries, metrics)
  {
    assert metrics - {} == metrics;
    assert metrics.Keys - {} == metrics.Keys;
    MetricListIntro(entries, metrics, names);
  }

  /** One directive's metric loop: writes each metric value and lists its {Name, Unit}. */
  method WriteMetrics<V>(fields: map<string, Json<V>>, metrics: map<string, MetricValue<V>>)
    returns (result: map<string, Json<V>>, entries: seq<Json<V>>)
    ensures result == fields + MetricFields(metrics)
    ensures IsMetricList(entries, metrics)
  {
    result, entries := fields, [];
    ghost var names: seq<string> := [];
    var remaining := metrics.Keys;
    assert metrics - remaining == map[];
    while remaining != {}
      invariant MetricsVisited(fields, metrics, remaining, names, result, entries)
      decreases remaining
    {
      var k :| k in remaining;
      MetricsLoopStep(fields, metrics, remaining, names, result, entries, k);
      result := result[k := JOpaque(metrics[k].Value)];
      entries := entries + [MetricEntry(k, metrics[k].Unit)];
      names := names + [k];
      remaining := remaining - {k};
    }
    MetricsLoopDone(fields, metrics, names, result, entries);
  }

  /** What the dimension loop has done once the keys outside `remaining` were visited, in the order `names`. */
  ghost predicate DimensionsVisited<V>(fields: map<string, Json<V>>, dimensions: map<string, string>,
                                       remaining: set<string>, names: seq<string>,
                                       result: map<string, Json<V>>, groups: seq<Json<V>>)
  {
    && remaining <= dimensions.Keys
    && result == fields + DimensionFields(dimensions - remaining)
    && multiset(names) == multiset(dimensions.Keys - remaining)
    && groups == DimensionGroups<V>(names)
  }

  /** Writing one more dimension value extends what the loop has written by that key. */
  lemma DimensionFieldsStep<V>(fields: map<string, Json<V>>, dimensions: map<string, string>,
                               remaining: set<string>, k: string)
    requires remaining <= dimensions.Keys && k in remaining
    ensures (fields + DimensionFields(dimensions - remaining))[k := JString(dimensions[k])]
            == fields + DimensionFields(dimensions - (remaining - {k}))
  {
    assert (dimensions - (remaining - {k})).Keys == (dimensions - remaining).Keys + {k};
    assert DimensionFields<V>(dimensions - (remaining - {k})) == DimensionFields<V>(dimensions - remaining)[k := JString(dimensions[k])];
    UnionThenWrite(fields, DimensionFields<V>(dimensions - remaining), k, JString(dimensions[k]));
  }

  /** Visiting one more dimension key keeps the loop's account of what was written and listed. */
  lemma DimensionsLoopStep<V>(fields: map<string, Json<V>>, dimensions: map<string, string>,
                              remaining: set<string>, names: seq<string>,
                              result: map<string, Json<V>>, groups: seq<Json<V>>, k: string)
    requires DimensionsVisited(fields, dimensions, remaining, names, result, groups)
    requires k in remaining
    ensures DimensionsVisited(fields, dimensions, remaining - {k}, names + [k],
                              result[k := JString(dimensions[k])], groups + [JArray([JString(k)])])
  {
    DimensionFieldsStep(fields, dimensions, remaining, k);
    VisitOneMore(dimensions.Keys, remaining, k, names);
    assert (names + [k])[..|names|] == names;
  }

  /** Once every key was visited, the loop has written all dimensions and listed each once. */
  lemma DimensionsLoopDone<V>(fields: map<string, Json<V>>, dimensions: map<string, string>,
                              names: seq<string>, result: map<string, Json<V>>, groups: seq<Json<V>>)
    requires DimensionsVisited(fields, dimensions, {}, names, result, groups)
    ensures result == fields + DimensionFields(dimensions)
    ensures IsDimensionList(groups, dimensions)
  {
    assert dimensions - {} == dimensions;
    assert dimensions.Keys - {} == dimensions.Keys;
    DimensionListIntro(groups, dimensions, names);
  }

  /** One directive's dimension loop: writes each dimension value and lists it as its own group. */
  method WriteDimensions<V>(fields: map<string, Json<V>>, dimensions: map<string, string>)
    returns (result: map<string, Json<V>>, groups: seq<Json<V>>)
    ensures result == fields + DimensionFields(dimensions)
    ensures IsDimensionList(groups, dimensions)
  {
    result, groups := fields, [];
    ghost var names: seq<string> := [];
    var remaining := dimensions.Keys;
    assert dimensions - remaining == map[];
    while remaining != {}
      invariant DimensionsVisited(fields, dimensions, remaining, names, result, groups)
      decreases remaining
    {
      var k :| k in remaining;
      DimensionsLoopStep(fields, dimensions, remaining, names, result, groups, k);
      result := result[k := JString(dimensions[k])];
      groups := groups + [JArray([JString(k)])];
      names := names + [k];
      remaining := remaining - {k};
    }
    DimensionsLoopDone(fields, dimensions, names, result, groups);
  }

  /** One pass of the directive loop: the metrics, then the dimensions, then the element. */
  method WriteDirective<V>(fields: map<string, Json<V>>, d: MetricDirective<V>)
    returns (result: map<string, Json<V>>, element: Json<V>)
    ensures result == fields + MetricFields(d.State().metrics) + DimensionFields(d.State().dimensions)
    ensures IsMetricsElement(element, d.State())
  {
    var metricEntries, dimensionGroups;
    result, metricEntries := WriteMetrics(fields, d.Metrics);
    result, dimensionGroups := WriteDimensions(result, d.Dimensions);
    MetricsElementIntro(d.State(), dimensionGroups, metricEntries);
    element := MetricsElement(d.namespace, dimensionGroups, metricEntries);
  }

  /** What the directive loop has built once the first i directives were written. */
  ghost predicate DirectivesWritten<V>(fields: map<string, Json<V>>, ds: seq<DirectiveState<V>>, i: int,
                                       result: map<string, Json<V>>, elements: seq<Json<V>>)
  {
    && 0 <= i <= |ds|
    && result == Overlay(fields, ds[..i])
    && AreMetricsElements(elements, ds[..i])
  }

  lemma DirectivesStep<V>(fields: map<string, Json<V>>, ds: seq<DirectiveState<V>>, i: int,
                          result: map<string, Json<V>>, elements: seq<Json<V>>,
                          result': map<string, Json<V>>, element: Json<V>)
    requires DirectivesWritten(fields, ds, i, result, elements) && i < |ds|
    requires result' == result + MetricFields(ds[i].metrics) + DimensionFields(ds[i].dimensions)
    requires IsMetricsElement(element, ds[i])
    ensures DirectivesWritten(fields, ds, i + 1, result', elements + [element])
  {
    OverlayStep(fields, ds, i);
    MetricsElementsStep(elements, ds, i, element);
  }

  lemma DirectivesDone<V>(fields: map<string, Json<V>>, ds: seq<DirectiveState<V>>,
                          result: map<string, Json<V>>, elements: seq<Json<V>>)
    requires DirectivesWritten(fields, ds, |ds|, result, elements)
    ensures result == Overlay(fields, ds) && AreMetricsElements(elements, ds)
  {
    assert ds[..|ds|] == ds;
  }

  /**
   * Writing `_aws` over the flat fields and marshalling the object gives
   * what MarshalJSON promises: `_aws` itself holds no opaque value, so the
   * keys that fail are those of the surviving fields.
   */
  lemma RecordOutcome<V>(flat: map<string, Json<V>>, aws: Json<V>, written: map<string, Json<V>>, r: Result<Json<V>>,
                         env: map<string, string>, properties: map<string, V>,
                         ds: seq<DirectiveState<V>>, timestamp: int, check: V -> Option<string>)
    requires flat == FlatFields(env, properties, ds) && IsAwsBlock(aws, ds, timestamp)
    requires written == flat[AwsKey := aws]
    requires r.Success? <==> forall k :: !Unsupported(written, check, k)
    requires r.Success? ==> r.value == JObject(written)
    requires r.Failure? ==>
      exists k :: IsFirstUnsupported(written, check, k) && r.error == check(written[k].value).value
    ensures r.Success? <==> forall k :: !Unsupported(SurvivingFields(env, properties, ds), check, k)
    ensures r.Success? ==> IsEncoding(r.value, env, properties, ds, timestamp)
    ensures r.Failure? ==>
      var surviving := SurvivingFields(env, properties, ds);
      exists k :: IsFirstUnsupported(surviving, check, k) && r.error == check(surviving[k].value).value
  {
    var surviving := SurvivingFields(env, properties, ds);
    assert forall k :: Unsupported(written, check, k) <==> Unsupported(surviving, check, k);
    if r.Failure? {
      var k :| IsFirstUnsupported(written, check, k) && r.error == check(written[k].value).value;
      assert surviving[k] == written[k];
      assert IsFirstUnsupported(surviving, check, k);
    }
  }

  /** The line the publish path writes for a MarshalJSON outcome. */
  function OutcomeLine<V>(r: Result<Json<V>>): (line: Chunk<V>)
    ensures line.Record? <==> r.Success?
    ensures r.Success? ==> line.doc == r.value
    ensures r.Failure? ==>
      var n := |PublishErrorPrefix + MarshalerErrorPrefix|;
      |line.text| >= n && line.text[..|PublishErrorPrefix|] == PublishErrorPrefix && line.text[n..] == r.error
  {
    if r.Success? then Record(r.value) else Text(PublishErrorPrefix + MarshalerErrorPrefix + r.error)
  }

  lemma PublishedLineOf<V>(r: Result<Json<V>>, env: map<string, string>, properties: map<string, V>,
                           ds: seq<DirectiveState<V>>, timestamp: int, check: V -> Option<string>)
    requires r.Success? <==> forall k :: !Unsupported(SurvivingFields(env, properties, ds), check, k)
    requires r.Success? ==> IsEncoding(r.value, env, properties, ds, timestamp)
    requires r.Failure? ==>
      var surviving := SurvivingFields(env, properties, ds);
      exists k :: IsFirstUnsupported(surviving, check, k) && r.error == check(surviving[k].value).value
    ensures IsPublishedLine(OutcomeLine(r), env, properties, ds, timestamp, check)
  {
  }

  /** Two writes to the same sink deliver their concatenation. */
  lemma DeliveredTwice<V>(chunks: seq<Chunk<V>>, failure: Option<string>, first: seq<Chunk<V>>, second: seq<Chunk<V>>)
    ensures Delivered(Delivered(chunks, failure, first), failure, second) == Delivered(chunks, failure, first + second)
  {
    if failure.None? {
      assert chunks + first + second == chunks + (first + second);
    }
  }

  /** Merging one more additional property keeps the account of the merge loop. */
  lemma MergeStep<V>(properties: map<string, V>, additional: map<string, V>, remaining: set<string>, k: string)
    requires k in remaining && remaining <= additional.Keys
    ensures (properties + (additional - remaining))[k := additional[k]] == properties + (additional - (remaining - {k}))
  {
    assert additional - (remaining - {k}) == (additional - remaining)[k := additional[k]];
  }

  class EmbeddedMetric<V> {
    var metrics: seq<MetricDirective<V>>
    var properties: map<string, V>

    /** NewEmbeddedMetric: no directives and an empty property bag. */
    constructor New()
      ensures metrics == [] && properties == map[]
    {
      metrics := [];
      properties := map[];
    }

    /** NewEmbeddedMetricWithProperties: the supplied bag, or an empty one for nil. */
    constructor NewWithProperties(props: Option<map<string, V>>)
      ensures metrics == []
      ensures properties == if props.Some? then props.value else map[]
    {
      metrics := [];
      properties := if props.Some? then props.value else map[];
    }

    /** The directives as they are now, in creation order. */
    ghost function Snapshot(): seq<DirectiveState<V>>
      reads this`metrics, metrics
    {
      States(metrics)
    }

    /** Sets one property, keeping every other one, and returns this same instance. */
    method WithProperty(key: string, value: V) returns (self: EmbeddedMetric<V>)
      modifies this`properties
      ensures self == this
      ensures properties == old(properties)[key := value]
      ensures metrics == old(metrics)
    {
      properties := properties[key := value];
      self := this;
    }

    /**
     * Appends one fresh directive with the namespace as given (no check is
     * made on it), no metrics, and the dimensions passed or an empty map
     * for nil; earlier directives and the properties are untouched.
     */
    method NewMetricDirective(namespace: string, dimensions: Option<map<string, string>>)
      returns (md: MetricDirective<V>)
      modifies this`metrics
      ensures fresh(md)
      ensures metrics == old(metrics) + [md]
      ensures md.State() == DirectiveState(namespace, if dimensions.Some? then dimensions.value else map[], map[])
      ensures Snapshot() == old(Snapshot()) + [md.State()]
    {
      md := new MetricDirective(namespace, if dimensions.Some? then dimensions.value else map[]);
      metrics := metrics + [md];
    }

    /**
     * The directive loop of MarshalJSON: each directive writes its metrics,
     * then its dimensions, over the fields so far, and contributes one
     * CloudWatchMetrics element.
     */
    method WriteDirectives(fields: map<string, Json<V>>) returns (result: map<string, Json<V>>, elements: seq<Json<V>>)
      ensures result == Overlay(fields, Snapshot())
      ensures AreMetricsElements(elements, Snapshot())
    {
      ghost var snapshot := Snapshot();
      result, elements := fields, [];
      for i := 0 to |metrics|
        invariant DirectivesWritten(fields, snapshot, i, result, elements)
      {
        ghost var before := result;
        var element;
        result, element := WriteDirective(result, metrics[i]);
        DirectivesStep(fields, snapshot, i, before, elements, result, element);
        elements := elements + [element];
      }
      DirectivesDone(fields, snapshot, result, elements);
    }

    /**
     * MarshalJSON with the environment snapshot and the clock reading as
     * inputs. It succeeds exactly when every surviving value encodes, and
     * then yields the record for the current state; otherwise it yields the
     * error of the first failing key.
     */
    method MarshalJSON(env: map<string, string>, nowMillis: int, check: V -> Option<string>)
      returns (r: Result<Json<V>>)
      ensures r.Success? <==> forall k :: !Unsupported(SurvivingFields(env, properties, Snapshot()), check, k)
      ensures r.Success? ==> IsEncoding(r.value, env, properties, Snapshot(), nowMillis)
      ensures r.Failure? ==>
        var surviving := SurvivingFields(env, properties, Snapshot());
        exists k :: IsFirstUnsupported(surviving, check, k) && r.error == check(surviving[k].value).value
    {
      var jsonMap: map<string, Json<V>> := map[
        LogGroupKey := JString(EnvValue(env, LogGroupVariable)),
        LogStreamKey := JString(EnvValue(env, LogStreamVariable))];
      jsonMap := WriteProperties(jsonMap, properties);
      var elements;
      jsonMap, elements := WriteDirectives(jsonMap);
      var aws := AwsBlock(nowMillis, elements);
      AwsBlockIntro(nowMillis, elements, Snapshot());
      ghost var flat := jsonMap;
      jsonMap := jsonMap[AwsKey := aws];
      r := MarshalObject(jsonMap, check);
      RecordOutcome(flat, aws, jsonMap, r, env, properties, Snapshot(), nowMillis, check);
    }

    /** The warning loop of PublishToSink: one line on stdout per directive with more than 9 dimensions. */
    method WarnOversizedDirectives(stdout: Sink<V>)
      modifies stdout
      ensures Snapshot() == old(Snapshot())
      ensures stdout.chunks == Delivered(old(stdout.chunks), stdout.failure, DimensionWarnings(Snapshot()))
    {
      ghost var snapshot := Snapshot();
      for i := 0 to |metrics|
        invariant stdout.chunks == Delivered(old(stdout.chunks), stdout.failure, DimensionWarnings(snapshot[..i]))
      {
        DimensionWarningsStep(snapshot, i);
        assert metrics[i].State() == snapshot[i];
        var count := |metrics[i].Dimensions|;
        if count > MaxDimensions {
          var _ := stdout.Write(DimensionWarning(count));
          DeliveredTwice(old(stdout.chunks), stdout.failure, DimensionWarnings(snapshot[..i]), [DimensionWarning(count)]);
        }
      }
      assert snapshot[..|metrics|] == snapshot;
    }

    /** The merge loop of PublishToSink: every additional property is set with WithProperty. */
    method MergeProperties(additionalProperties: map<string, V>)
      modifies this`properties
      ensures Snapshot() == old(Snapshot())
      ensures properties == old(properties) + additionalProperties
    {
      var remaining := additionalProperties.Keys;
      assert additionalProperties - remaining == map[];
      while remaining != {}
        invariant remaining <= additionalProperties.Keys
        invariant properties == old(properties) + (additionalProperties - remaining)
        decreases remaining
      {
        var k :| k in remaining;
        MergeStep(old(properties), additionalProperties, remaining, k);
        var _ := WithProperty(k, additionalProperties[k]);
        remaining := remaining - {k};
      }
      assert additionalProperties - {} == additionalProperties;
    }

    /**
     * The json.Marshal step of PublishToSink: the record when MarshalJSON
     * succeeds, otherwise the error line carrying json.Marshal's wrapping
     * of MarshalJSON's error.
     */
    method EncodeLine(env: map<string, string>, nowMillis: int, check: V -> Option<string>)
      returns (line: Chunk<V>)
      ensures IsPublishedLine(line, env, properties, Snapshot(), nowMillis, check)
    {
      var rawJSON := MarshalJSON(env, nowMillis, check);
      PublishedLineOf(rawJSON, env, properties, Snapshot(), nowMillis, check);
      line := OutcomeLine(rawJSON);
    }

    /**
     * The last step of PublishToSink: the line goes to the sink, and a
     * refused write is reported on stdout. `warned` is what stdout held
     * before the warnings, which are already on it.
     */
    method WriteLine(line: Chunk<V>, sink: Sink<V>, stdout: Sink<V>, ghost warned: seq<Chunk<V>>, ghost warnings: seq<Chunk<V>>)
      requires stdout.chunks == Delivered(warned, stdout.failure, warnings)
      modifies sink, stdout
      ensures Snapshot() == old(Snapshot())
      ensures sink == stdout ==> sink.chunks == Delivered(warned, sink.failure, warnings + [line])
      ensures sink != stdout ==>
        && sink.chunks == Delivered(old(sink.chunks), sink.failure, [line])
        && stdout.chunks == Delivered(warned, stdout.failure, warnings + WriteFailureReport(sink.failure))
    {
      var written := sink.Write(line);
      DeliveredTwice(warned, stdout.failure, warnings, [line]);
      if !written {
        var _ := stdout.Write(Text(WriteErrorPrefix + sink.failure.value));
        DeliveredTwice(warned, stdout.failure, warnings, WriteFailureReport(sink.failure));
      } else if sink != stdout {
        assert warnings + WriteFailureReport(sink.failure) == warnings;
      }
    }

    /**
     * PublishToSink: warns on stdout about every directive with more than 9
     * dimensions (keeping it), merges the additional properties into this
     * instance for good, then writes the record, or the error line, to the
     * sink; a refused write is reported on stdout.
     */
    method PublishToSink(additionalProperties: map<string, V>, sink: Sink<V>, stdout: Sink<V>,
                         env: map<string, string>, nowMillis: int, check: V -> Option<string>)
      returns (line: Chunk<V>)
      modifies this`properties, sink, stdout
      ensures Snapshot() == old(Snapshot())
      ensures properties == old(properties) + additionalProperties
      ensures IsPublishedLine(line, env, properties, Snapshot(), nowMillis, check)
      ensures sink == stdout ==>
        sink.chunks == Delivered(old(sink.chunks), sink.failure, DimensionWarnings(Snapshot()) + [line])
      ensures sink != stdout ==>
        && sink.chunks == Delivered(old(sink.chunks), sink.failure, [line])
        && stdout.chunks == Delivered(old(stdout.chunks), stdout.failure,
                                      DimensionWarnings(Snapshot()) + WriteFailureReport(sink.failure))
    {
      WarnOversizedDirectives(stdout);
      MergeProperties(additionalProperties);
      line := EncodeLine(env, nowMillis, check);
      WriteLine(line, sink, stdout, old(stdout.chunks), DimensionWarnings(Snapshot()));
    }

    /** Publish: PublishToSink with standard output as the sink. */
    method Publish(additionalProperties: map<string, V>, stdout: Sink<V>,
                   env: map<string, string>, nowMillis: int, check: V -> Option<string>)
      returns (line: Chunk<V>)
      modifies this`properties, stdout
      ensures Snapshot() == old(Snapshot())
      ensures properties == old(properties) + additionalProperties
      ensures IsPublishedLine(line, env, properties, Snapshot(), nowMillis, check)
      ensures stdout.chunks == Delivered(old(stdout.chunks), stdout.failure, DimensionWarnings(Snapshot()) + [line])
    {
      line := PublishToSink(additionalProperties, stdout, stdout, env, nowMillis, check);
    }
  }
}
