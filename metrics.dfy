/**
 * Assembly of the remote-write request from one cycle's measurements:
 * two time series, bandwidth then latency, each labelled with the host
 * name and the metric name and holding one sample at the cycle's time.
 * The measured values are floating-point numbers the assembler only passes
 * through, so their type is a parameter `V`.
 */
module Metrics {
  import opened Wrappers

  newtype Int64 = x: int | -0x8000_0000_0000_0000 <= x < 0x8000_0000_0000_0000

  const I64_MAX: int := 0x7FFF_FFFF_FFFF_FFFF
  const NANOS_PER_MILLI: int := 1_000_000

  /** The metric-name label of the remote-write protocol (`LABEL_NAME`). */
  const LABEL_NAME: string := "__name__"
  const HOSTNAME_LABEL: string := "hostname"
  const BANDWIDTH_METRIC: string := "sw_internet_bandwidth_mbit"
  const LATENCY_METRIC: string := "sw_internet_latency_ms"

  datatype Label = Label(name: string, value: string)
  datatype Sample<V> = Sample(value: V, timestamp: Int64)
  datatype TimeSeries<V> = TimeSeries(labels: seq<Label>, samples: seq<Sample<V>>)
  datatype WriteRequest<V> = WriteRequest(timeseries: seq<TimeSeries<V>>)

  /**
   * `SystemTime::duration_since(UNIX_EPOCH)` fails when the clock reads
   * before the epoch; `as_millis().try_into()` fails when the count does not
   * fit an `i64`.
   */
  datatype ClockError = BeforeEpoch | MillisOutOfRange

  /**
   * The sample timestamp from the wall clock, given as the signed number of
   * nanoseconds from the Unix epoch: whole milliseconds (`as_millis`
   * truncates), converted to `i64` without wrapping.
   */
  function EpochMillis(sinceEpochNanos: int): (r: Result<Int64, ClockError>)
    ensures r == Failure(BeforeEpoch) <==> sinceEpochNanos < 0
    ensures r == Failure(MillisOutOfRange) <==> sinceEpochNanos >= 0 && sinceEpochNanos / NANOS_PER_MILLI > I64_MAX
    ensures r.Success? <==> 0 <= sinceEpochNanos && sinceEpochNanos / NANOS_PER_MILLI <= I64_MAX
    ensures r.Success? ==>
      && 0 <= r.value as int
      && r.value as int * NANOS_PER_MILLI <= sinceEpochNanos < (r.value as int + 1) * NANOS_PER_MILLI
  {
    if sinceEpochNanos < 0 then Failure(BeforeEpoch)
    else
      var millis := sinceEpochNanos / NANOS_PER_MILLI;
      if millis > I64_MAX then Failure(MillisOutOfRange) else Success(millis as Int64)
  }

  /** The value of the first label with this name. */
  function LabelValue(labels: seq<Label>, name: string): (r: Option<string>)
    ensures r.None? <==> forall k :: 0 <= k < |labels| ==> labels[k].name != name
  {
    if labels == [] then None
    else if labels[0].name == name then Some(labels[0].value)
    else LabelValue(labels[1..], name)
  }

  /** No two labels of a series share a name, as the protocol requires. */
  predicate DistinctNames(labels: seq<Label>)
  {
    forall i, j :: 0 <= i < j < |labels| ==> labels[i].name != labels[j].name
  }

  /** A series identified by the host and the metric name, carrying one sample. */
  predicate IsSeries<V(==)>(ts: TimeSeries<V>, host: string, metric: string, value: V, time: Int64)
  {
    && |ts.labels| == 2
    && DistinctNames(ts.labels)
    && LabelValue(ts.labels, HOSTNAME_LABEL) == Some(host)
    && LabelValue(ts.labels, LABEL_NAME) == Some(metric)
    && ts.samples == [Sample(value, time)]
  }

  function Series<V>(host: string, metric: string, value: V, time: Int64): TimeSeries<V>
  {
    TimeSeries([Label(HOSTNAME_LABEL, host), Label(LABEL_NAME, metric)], [Sample(value, time)])
  }

  /** The write request of one cycle. */
  function Assemble<V(==)>(host: string, bandwidth: V, latency: V, time: Int64): (r: WriteRequest<V>)
    ensures |r.timeseries| == 2
    ensures IsSeries(r.timeseries[0], host, BANDWIDTH_METRIC, bandwidth, time)
    ensures IsSeries(r.timeseries[1], host, LATENCY_METRIC, latency, time)
  {
    WriteRequest([Series(host, BANDWIDTH_METRIC, bandwidth, time), Series(host, LATENCY_METRIC, latency, time)])
  }

  /** The series of a request whose metric-name label is `metric`, if any. */
  function FindMetric<V>(series: seq<TimeSeries<V>>, metric: string): (r: Option<TimeSeries<V>>)
    ensures r.Some? ==> LabelValue(r.value.labels, LABEL_NAME) == Some(metric)
    ensures r.None? <==> forall k :: 0 <= k < |series| ==> LabelValue(series[k].labels, LABEL_NAME) != Some(metric)
  {
    if series == [] then None
    else if LabelValue(series[0].labels, LABEL_NAME) == Some(metric) then Some(series[0])
    else FindMetric(series[1..], metric)
  }

  /**
   * A consumer of the request finds each measurement under its metric name,
   * stamped with the cycle's time, and the two series are told apart by
   * that name alone.
   */
  lemma AssembledMetrics<V>(host: string, bandwidth: V, latency: V, time: Int64)
    ensures FindMetric(Assemble(host, bandwidth, latency, time).timeseries, BANDWIDTH_METRIC)
            == Some(Series(host, BANDWIDTH_METRIC, bandwidth, time))
    ensures FindMetric(Assemble(host, bandwidth, latency, time).timeseries, LATENCY_METRIC)
            == Some(Series(host, LATENCY_METRIC, latency, time))
    ensures forall ts :: ts in Assemble(host, bandwidth, latency, time).timeseries ==>
              LabelValue(ts.labels, HOSTNAME_LABEL) == Some(host) && forall s :: s in ts.samples ==> s.timestamp == time
  {
  }
}
