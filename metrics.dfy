/**
  The exporter's gauge state (package `main`): the label names built at
  start-up from the custom annotations (`init` in cmd/k8s-pvc-usage/metrics.go),
  and the four gauge vectors that the scrape loop fills and the reset loop
  clears (cmd/k8s-pvc-usage/main.go). Scrape and reset both run under one
  mutex, so each is modelled as one atomic method on the sink.

  A gauge vector is a map from label tuples to values. The avail-percent value
  of a PVC comes from `PvcStats.Avail`, which is not part of this model: it is
  passed to the scrape as the function `avail`.
 */
module Metrics {
  import opened PvcUsage
  import Annotations

  /** The label names every gauge starts with, before the custom ones. */
  const BaseLabelNames: seq<string> := ["name", "namespace"]

  /** The four gauge families: available and used, in percent and in bytes. */
  datatype Gauge = AvailPercent | AvailBytes | UsagePercent | UsageBytes

  /** The value a scrape writes for `pvc` into gauge `g`. */
  function Reading(g: Gauge, pvc: PvcStats, avail: PvcStats -> real): real
  {
    match g
    case AvailPercent => avail(pvc)
    case AvailBytes => pvc.availableBytes
    case UsagePercent => Usage(pvc)
    case UsageBytes => pvc.usedBytes
  }

  /** The label values of a PVC's series: its name, its namespace, then the custom values. */
  function LabelTuple(pvc: PvcStats, custom: seq<string>): (t: seq<string>)
    ensures |t| == 2 + |custom|
    ensures t[..2] == [pvc.name, pvc.namespace] && t[2..] == custom
  {
    [pvc.name, pvc.namespace] + custom
  }

  /** The label tuples of a list of PVCs. */
  function Tuples(pvcs: seq<PvcStats>, custom: seq<string>): set<seq<string>>
  {
    set i | 0 <= i < |pvcs| :: LabelTuple(pvcs[i], custom)
  }

  /** Gauge `g` after the readings of `pvcs` are written into `m`, one after the other. */
  function Written(m: map<seq<string>, real>, pvcs: seq<PvcStats>, custom: seq<string>,
                   g: Gauge, avail: PvcStats -> real): map<seq<string>, real>
  {
    if pvcs == [] then m
    else
      var last := pvcs[|pvcs| - 1];
      Written(m, pvcs[..|pvcs| - 1], custom, g, avail)[LabelTuple(last, custom) := Reading(g, last, avail)]
  }

  /** Writing one more PVC updates the series at its tuple. */
  lemma WrittenSnoc(m: map<seq<string>, real>, pvcs: seq<PvcStats>, custom: seq<string>,
                    g: Gauge, avail: PvcStats -> real, pvc: PvcStats)
    ensures Written(m, pvcs + [pvc], custom, g, avail)
         == Written(m, pvcs, custom, g, avail)[LabelTuple(pvc, custom) := Reading(g, pvc, avail)]
  {
    assert (pvcs + [pvc])[..|pvcs|] == pvcs;
  }

  /** Writing never removes a series: the keys afterwards are the old ones and the written tuples. */
  lemma {:induction false} WrittenKeys(m: map<seq<string>, real>, pvcs: seq<PvcStats>, custom: seq<string>,
                                       g: Gauge, avail: PvcStats -> real)
    ensures Written(m, pvcs, custom, g, avail).Keys == m.Keys + Tuples(pvcs, custom)
  {
    if pvcs != [] {
      var init := pvcs[..|pvcs| - 1];
      WrittenKeys(m, init, custom, g, avail);
      assert Tuples(pvcs, custom) == Tuples(init, custom) + {LabelTuple(pvcs[|pvcs| - 1], custom)} by {
        assert forall i :: 0 <= i < |init| ==> init[i] == pvcs[i];
      }
    }
  }

  /** A series that no written PVC maps to keeps its old value. */
  lemma {:induction false} WrittenKeepsOthers(m: map<seq<string>, real>, pvcs: seq<PvcStats>, custom: seq<string>,
                                              g: Gauge, avail: PvcStats -> real, k: seq<string>)
    requires k in m && k !in Tuples(pvcs, custom)
    ensures k in Written(m, pvcs, custom, g, avail) && Written(m, pvcs, custom, g, avail)[k] == m[k]
  {
    if pvcs != [] {
      var init := pvcs[..|pvcs| - 1];
      assert k !in Tuples(init, custom) by {
        assert forall i :: 0 <= i < |init| ==> init[i] == pvcs[i];
      }
      WrittenKeepsOthers(m, init, custom, g, avail, k);
    }
  }

  /**
    Last write wins: when no later PVC in the list shares the label tuple of
    `pvcs[i]`, that series holds the reading of `pvcs[i]`.
   */
  lemma {:induction false} WrittenLastWins(m: map<seq<string>, real>, pvcs: seq<PvcStats>, custom: seq<string>,
                                           g: Gauge, avail: PvcStats -> real, i: nat)
    requires i < |pvcs|
    requires forall j :: i < j < |pvcs| ==> LabelTuple(pvcs[j], custom) != LabelTuple(pvcs[i], custom)
    ensures LabelTuple(pvcs[i], custom) in Written(m, pvcs, custom, g, avail)
    ensures Written(m, pvcs, custom, g, avail)[LabelTuple(pvcs[i], custom)] == Reading(g, pvcs[i], avail)
  {
    var n := |pvcs| - 1;
    if i < n {
      var init := pvcs[..n];
      assert init[i] == pvcs[i];
      assert forall j :: i < j < |init| ==> init[j] == pvcs[j];
      WrittenLastWins(m, init, custom, g, avail, i);
    }
  }

  /**
    Writing into an empty gauge, as a scrape after a reset does, leaves
    exactly the tuples of the written PVCs, each holding the reading of a PVC
    with that tuple and nothing older.
   */
  lemma {:induction false} WrittenFromEmpty(pvcs: seq<PvcStats>, custom: seq<string>, g: Gauge, avail: PvcStats -> real)
    ensures Written(map[], pvcs, custom, g, avail).Keys == Tuples(pvcs, custom)
    ensures forall k :: k in Written(map[], pvcs, custom, g, avail) ==>
      exists i :: 0 <= i < |pvcs| && LabelTuple(pvcs[i], custom) == k
                  && Written(map[], pvcs, custom, g, avail)[k] == Reading(g, pvcs[i], avail)
  {
    WrittenKeys(map[], pvcs, custom, g, avail);
    if pvcs != [] {
      var n := |pvcs| - 1;
      var init := pvcs[..n];
      WrittenFromEmpty(init, custom, g, avail);
      var w := Written(map[], pvcs, custom, g, avail);
      forall k | k in w
        ensures exists i :: 0 <= i < |pvcs| && LabelTuple(pvcs[i], custom) == k && w[k] == Reading(g, pvcs[i], avail)
      {
        if k == LabelTuple(pvcs[n], custom) {
          assert w[k] == Reading(g, pvcs[n], avail);
        } else {
          var w0 := Written(map[], init, custom, g, avail);
          var i :| 0 <= i < |init| && LabelTuple(init[i], custom) == k && w0[k] == Reading(g, init[i], avail);
          assert init[i] == pvcs[i];
        }
      }
    }
  }

  /** Every series of `m` carries `n` label values. */
  ghost predicate HasArity(m: map<seq<string>, real>, n: nat)
  {
    forall k :: k in m ==> |k| == n
  }

  /**
    A scrape keeps the gauges in shape: if the four gauges share one key set
    and every series has one value per label, the same holds afterwards.
   */
  lemma WrittenShape(ap: map<seq<string>, real>, ab: map<seq<string>, real>,
                     up: map<seq<string>, real>, ub: map<seq<string>, real>,
                     pvcs: seq<PvcStats>, custom: seq<string>, avail: PvcStats -> real)
    requires ab.Keys == ap.Keys && up.Keys == ap.Keys && ub.Keys == ap.Keys
    requires HasArity(ap, 2 + |custom|)
    ensures var ap', ab', up', ub' := Written(ap, pvcs, custom, AvailPercent, avail), Written(ab, pvcs, custom, AvailBytes, avail),
                                      Written(up, pvcs, custom, UsagePercent, avail), Written(ub, pvcs, custom, UsageBytes, avail);
      && ab'.Keys == ap'.Keys && up'.Keys == ap'.Keys && ub'.Keys == ap'.Keys
      && HasArity(ap', 2 + |custom|)
  {
    WrittenKeys(ap, pvcs, custom, AvailPercent, avail);
    WrittenKeys(ab, pvcs, custom, AvailBytes, avail);
    WrittenKeys(up, pvcs, custom, UsagePercent, avail);
    WrittenKeys(ub, pvcs, custom, UsageBytes, avail);
  }

  /**
    The exporter's metric sink: the label names registered at start-up, the
    custom label keys and values read from the annotations file, the four
    gauge vectors and the count of PVCs of the last scrape.
   */
  class GaugeSink {
    const labelNames: seq<string>
    const customLabelKeys: seq<string>
    const customLabelValues: seq<string>
    var availPercent: map<seq<string>, real>
    var availBytes: map<seq<string>, real>
    var usagePercent: map<seq<string>, real>
    var usageBytes: map<seq<string>, real>
    var counter: nat

    /**
      The custom keys and values are parallel, the label names are the base
      names and the custom keys, the four gauges share one key set, and every
      key has one value per label name.
     */
    ghost predicate Valid()
      reads this
    {
      && |customLabelKeys| == |customLabelValues|
      && labelNames == BaseLabelNames + customLabelKeys
      && availBytes.Keys == availPercent.Keys
      && usagePercent.Keys == availPercent.Keys
      && usageBytes.Keys == availPercent.Keys
      && HasArity(availPercent, |labelNames|)
    }

    /** `init`: reads the custom labels and builds the label names; the gauges start empty. */
    constructor (prefix: string, file: Annotations.AnnotationFile)
      requires Annotations.ValidPrefix(prefix)
      ensures Valid()
      ensures |customLabelKeys| == |Annotations.FileAnnotations(prefix, file)|
      ensures forall i :: 0 <= i < |customLabelKeys| ==>
        customLabelKeys[i] == Annotations.FileAnnotations(prefix, file)[i].key
        && customLabelValues[i] == Annotations.FileAnnotations(prefix, file)[i].value
      ensures labelNames == BaseLabelNames + customLabelKeys
      ensures |labelNames| == 2 + |customLabelKeys|
      ensures availPercent == map[] && availBytes == map[] && usagePercent == map[] && usageBytes == map[]
      ensures counter == 0
    {
      var keys, values := Annotations.ReadAnnotations(prefix, file);
      customLabelKeys, customLabelValues := keys, values;
      labelNames := BaseLabelNames + keys;
      availPercent, availBytes, usagePercent, usageBytes := map[], map[], map[], map[];
      counter := 0;
    }

    /**
      The body of the `scrape` closure: every PVC of the cluster has its four
      readings written at its label tuple, in list order, and the counter is
      the number of PVCs fetched.
     */
    method Scrape(nodes: seq<NodeReport>, avail: PvcStats -> real)
      requires Valid()
      modifies this
      ensures Valid()
      ensures availPercent == Written(old(availPercent), ClusterPvcUsage(nodes), customLabelValues, AvailPercent, avail)
      ensures availBytes == Written(old(availBytes), ClusterPvcUsage(nodes), customLabelValues, AvailBytes, avail)
      ensures usagePercent == Written(old(usagePercent), ClusterPvcUsage(nodes), customLabelValues, UsagePercent, avail)
      ensures usageBytes == Written(old(usageBytes), ClusterPvcUsage(nodes), customLabelValues, UsageBytes, avail)
      ensures counter == |ClusterPvcUsage(nodes)|
    {
      counter := 0;
      var pvcs := GetPvcUsage(nodes);
      WriteAll(pvcs, avail);
      WrittenShape(old(availPercent), old(availBytes), old(usagePercent), old(usageBytes), pvcs, customLabelValues, avail);
    }

    /** The loop of the `scrape` closure: one PVC after the other, four writes each. */
    method WriteAll(pvcs: seq<PvcStats>, avail: PvcStats -> real)
      modifies this
      ensures availPercent == Written(old(availPercent), pvcs, customLabelValues, AvailPercent, avail)
      ensures availBytes == Written(old(availBytes), pvcs, customLabelValues, AvailBytes, avail)
      ensures usagePercent == Written(old(usagePercent), pvcs, customLabelValues, UsagePercent, avail)
      ensures usageBytes == Written(old(usageBytes), pvcs, customLabelValues, UsageBytes, avail)
      ensures counter == old(counter) + |pvcs|
    {
      ghost var ap0, ab0, up0, ub0 := availPercent, availBytes, usagePercent, usageBytes;
      assert pvcs[..0] == [];
      for i := 0 to |pvcs|
        invariant counter == old(counter) + i
        invariant availPercent == Written(ap0, pvcs[..i], customLabelValues, AvailPercent, avail)
        invariant availBytes == Written(ab0, pvcs[..i], customLabelValues, AvailBytes, avail)
        invariant usagePercent == Written(up0, pvcs[..i], customLabelValues, UsagePercent, avail)
        invariant usageBytes == Written(ub0, pvcs[..i], customLabelValues, UsageBytes, avail)
      {
        var pvc := pvcs[i];
        assert pvcs[..i + 1] == pvcs[..i] + [pvc];
        WrittenSnoc(ap0, pvcs[..i], customLabelValues, AvailPercent, avail, pvc);
        WrittenSnoc(ab0, pvcs[..i], customLabelValues, AvailBytes, avail, pvc);
        WrittenSnoc(up0, pvcs[..i], customLabelValues, UsagePercent, avail, pvc);
        WrittenSnoc(ub0, pvcs[..i], customLabelValues, UsageBytes, avail, pvc);
        var labels := [pvc.name, pvc.namespace] + customLabelValues;
        availPercent := availPercent[labels := avail(pvc)];
        availBytes := availBytes[labels := pvc.availableBytes];
        usagePercent := usagePercent[labels := Usage(pvc)];
        usageBytes := usageBytes[labels := pvc.usedBytes];
        counter := counter + 1;
      }
      assert pvcs[..|pvcs|] == pvcs;
    }

    /** The reset critical section: all four gauges are emptied. */
    method Reset()
      requires Valid()
      modifies this
      ensures Valid()
      ensures availPercent == map[] && availBytes == map[] && usagePercent == map[] && usageBytes == map[]
      ensures counter == old(counter)
    {
      availPercent := map[];
      availBytes := map[];
      usagePercent := map[];
      usageBytes := map[];
    }
  }

  /**
    A reset tick followed by the scrape its refresh triggers: each gauge is
    what writing the PVCs just fetched into an empty gauge gives (so, by
    `WrittenFromEmpty`, exactly their series with their readings), and the
    key set is that of their label tuples.
   */
  method ResetThenScrape(sink: GaugeSink, nodes: seq<NodeReport>, avail: PvcStats -> real)
    requires sink.Valid()
    modifies sink
    ensures sink.Valid()
    ensures sink.availPercent == Written(map[], ClusterPvcUsage(nodes), sink.customLabelValues, AvailPercent, avail)
    ensures sink.availBytes == Written(map[], ClusterPvcUsage(nodes), sink.customLabelValues, AvailBytes, avail)
    ensures sink.usagePercent == Written(map[], ClusterPvcUsage(nodes), sink.customLabelValues, UsagePercent, avail)
    ensures sink.usageBytes == Written(map[], ClusterPvcUsage(nodes), sink.customLabelValues, UsageBytes, avail)
    ensures sink.availPercent.Keys == Tuples(ClusterPvcUsage(nodes), sink.customLabelValues)
  {
    sink.Reset();
    sink.Scrape(nodes, avail);
    WrittenKeys(map[], ClusterPvcUsage(nodes), sink.customLabelValues, AvailPercent, avail);
  }
}
