/**
 * The samples a collector sends on its channel. Prometheus descriptors and
 * `MustNewConstMetric` are replaced by this plain value.
 */
module Metrics {
  import opened Numbers

  /** The prefix every metric name of the exporter starts with. */
  const Namespace := "node"

  datatype Kind = Gauge | Counter

  /**
   * A label value: a string taken as it is, or the float
   * `strconv.FormatFloat(x, 'f', precision, 64)` would render, left unrendered.
   */
  datatype LabelValue = Str(s: string) | Formatted(x: Float, precision: nat)

  datatype Label = Label(name: string, value: LabelValue)

  datatype Sample = Sample(name: string, kind: Kind, value: real, labels: seq<Label>)

  /**
   * `prometheus.BuildFQName(Namespace, subsystem, name)`: the non-empty parts
   * joined by `_`, or "" when the name is empty.
   */
  function FQName(subsystem: string, name: string): (r: string)
    ensures r == "" <==> name == ""
    ensures name != "" ==> |r| > |Namespace| + |name|
    ensures name != "" ==> r[..|Namespace|] == Namespace && r[|Namespace|] == '_' && r[|r| - |name|..] == name
    ensures name != "" && subsystem != "" ==>
      && |r| == |Namespace| + |subsystem| + |name| + 2
      && r[|Namespace| + 1..|Namespace| + 1 + |subsystem|] == subsystem
      && r[|Namespace| + 1 + |subsystem|] == '_'
    ensures name != "" && subsystem == "" ==> |r| == |Namespace| + |name| + 1
  {
    if name == "" then ""
    else if subsystem == "" then Namespace + "_" + name
    else Namespace + "_" + subsystem + "_" + name
  }

  /**
   * Metric names do not collide: for subsystems without `_`, the name
   * determines the subsystem and the metric name it was built from.
   */
  lemma FQNameInjective(s1: string, n1: string, s2: string, n2: string)
    requires s1 != "" && n1 != "" && s2 != "" && n2 != ""
    requires '_' !in s1 && '_' !in s2
    requires FQName(s1, n1) == FQName(s2, n2)
    ensures s1 == s2 && n1 == n2
  {
  }

  /** Pairs label names with values, as a descriptor's label list does with the values passed for it. */
  function Labels(names: seq<string>, values: seq<LabelValue>): (r: seq<Label>)
    requires |names| == |values|
    ensures |r| == |names|
    ensures forall i :: 0 <= i < |r| ==> r[i] == Label(names[i], values[i])
  {
    if names == [] then [] else [Label(names[0], values[0])] + Labels(names[1..], values[1..])
  }
}
