/**
  The aggregation pipeline of package `pvcusage` (lib.go): a node's kubelet
  stats summary is reduced to one `PvcStats` per PVC-backed volume of
  positive capacity, and the per-node results are concatenated in the order
  the nodes were listed.

  The HTTP requests and JSON decoding are not modelled: the input is the node
  listing, each node paired with what its stats request yields.
 */
module PvcUsage {
  import opened Wrappers

  /** A cluster node, addressed by its metadata name. */
  datatype Node = Node(name: string)

  /** The claim a volume belongs to. */
  datatype PvcRef = PvcRef(name: string, namespace: string)

  /**
    One pod volume of a stats summary. Byte and inode counts are `real`
    (float64 in the source); the timestamp is an opaque instant.
   */
  datatype Volume = Volume(
    time: Option<int>,
    availableBytes: real,
    capacityBytes: real,
    usedBytes: real,
    inodesFree: real,
    inodes: real,
    inodesUsed: real,
    name: string,
    pvcRef: Option<PvcRef>)

  datatype Pod = Pod(volumes: seq<Volume>)

  /** The outcome of one node's stats request: an error, or the decoded pods. */
  datatype StatsResponse = Failed | Pods(pods: seq<Pod>)

  /** A listed node and the outcome of its stats request. */
  datatype NodeReport = NodeReport(node: Node, response: StatsResponse)

  datatype PvcStats = PvcStats(
    name: string,
    namespace: string,
    availableBytes: real,
    capacityBytes: real,
    usedBytes: real)

  /** The volumes that produce an entry: backed by a PVC, with positive capacity. */
  predicate Qualifies(v: Volume)
  {
    v.pvcRef.Some? && v.capacityBytes > 0.0
  }

  /** `s` carries the claim's name and namespace and the byte counts of `v`. */
  predicate CopiedFrom(s: PvcStats, v: Volume)
  {
    && v.pvcRef.Some?
    && s.name == v.pvcRef.value.name
    && s.namespace == v.pvcRef.value.namespace
    && s.availableBytes == v.availableBytes
    && s.capacityBytes == v.capacityBytes
    && s.usedBytes == v.usedBytes
  }

  /** The entry built for a qualifying volume. */
  function ToStats(v: Volume): (s: PvcStats)
    requires Qualifies(v)
  {
    PvcStats(v.pvcRef.value.name, v.pvcRef.value.namespace, v.availableBytes, v.capacityBytes, v.usedBytes)
  }

  /** All volumes of `pods`, pod by pod, each pod's in its own order. */
  function Flatten(pods: seq<Pod>): seq<Volume>
  {
    if pods == [] then [] else Flatten(pods[..|pods| - 1]) + pods[|pods| - 1].volumes
  }

  /** The entries a sequence of volumes yields, in volume order. */
  function Aggregate(vs: seq<Volume>): seq<PvcStats>
  {
    if vs == [] then []
    else
      var last := vs[|vs| - 1];
      Aggregate(vs[..|vs| - 1]) + if Qualifies(last) then [ToStats(last)] else []
  }

  /** What one node contributes: nothing when its stats request failed. */
  function NodePvcUsage(resp: StatsResponse): (r: seq<PvcStats>)
    ensures resp.Failed? ==> r == []
  {
    match resp
    case Failed => []
    case Pods(pods) => Aggregate(Flatten(pods))
  }

  /** What the whole cluster contributes: the nodes' results, in node order. */
  function ClusterPvcUsage(nodes: seq<NodeReport>): seq<PvcStats>
  {
    if nodes == [] then []
    else ClusterPvcUsage(nodes[..|nodes| - 1]) + NodePvcUsage(nodes[|nodes| - 1].response)
  }

  /**
    `PvcStats.Usage`: the used share of the capacity in percent, and 0 when
    the capacity is not positive.
   */
  function Usage(pvc: PvcStats): (r: real)
    ensures pvc.capacityBytes <= 0.0 ==> r == 0.0
    ensures pvc.capacityBytes > 0.0 ==> r * pvc.capacityBytes == 100.0 * pvc.usedBytes
  {
    if pvc.capacityBytes <= 0.0 then 0.0 else 100.0 * pvc.usedBytes / pvc.capacityBytes
  }

  /** Usage lies between 0 and 100 when the used bytes lie between 0 and the capacity. */
  lemma UsageBounds(pvc: PvcStats)
    requires 0.0 <= pvc.usedBytes <= pvc.capacityBytes
    ensures 0.0 <= Usage(pvc) <= 100.0
  {
    var c := pvc.capacityBytes;
    if c > 0.0 {
      var u := Usage(pvc);
      CancelPositive(u, 100.0, c);
      CancelPositive(0.0, u, c);
    }
  }

  /** Multiplying by a positive number keeps a strict order. */
  lemma MulStrict(x: real, y: real, c: real)
    requires x < y && c > 0.0
    ensures x * c < y * c
  {
    assert y * c - x * c == (y - x) * c;
  }

  /** A common positive factor can be cancelled from an inequality. */
  lemma CancelPositive(x: real, y: real, c: real)
    requires c > 0.0
    ensures x * c <= y * c ==> x <= y
  {
    if y < x {
      MulStrict(y, x, c);
    }
  }

  /** Aggregating one more volume appends its entry, if it yields one. */
  lemma AggregateSnoc(vs: seq<Volume>, v: Volume)
    ensures Aggregate(vs + [v]) == Aggregate(vs) + if Qualifies(v) then [ToStats(v)] else []
  {
    assert (vs + [v])[..|vs|] == vs;
  }

  /** Aggregating one more volume of a pod, after the volumes of the earlier pods. */
  lemma AggregateStep(before: seq<Volume>, vols: seq<Volume>, j: nat)
    requires j < |vols|
    ensures Aggregate(before + vols[..j + 1]) ==
      Aggregate(before + vols[..j]) + if Qualifies(vols[j]) then [ToStats(vols[j])] else []
  {
    assert before + vols[..j + 1] == (before + vols[..j]) + [vols[j]];
    AggregateSnoc(before + vols[..j], vols[j]);
  }

  /** One more pod appends its volumes. */
  lemma FlattenSnoc(pods: seq<Pod>, pod: Pod)
    ensures Flatten(pods + [pod]) == Flatten(pods) + pod.volumes
  {
    assert (pods + [pod])[..|pods|] == pods;
  }

  /** `GetNodePvcUsageCtx` over the outcome of the node's stats request. */
  method GetNodePvcUsage(resp: StatsResponse) returns (stats: seq<PvcStats>)
    ensures stats == NodePvcUsage(resp)
  {
    stats := [];
    if resp.Failed? {
      return;
    }
    var pods := resp.pods;
    for i := 0 to |pods|
      invariant stats == Aggregate(Flatten(pods[..i]))
    {
      var vols := pods[i].volumes;
      ghost var before := Flatten(pods[..i]);
      assert before + vols[..0] == before;
      for j := 0 to |vols|
        invariant stats == Aggregate(before + vols[..j])
      {
        var vol := vols[j];
        AggregateStep(before, vols, j);
        if vol.pvcRef.None? || vol.capacityBytes <= 0.0 {
          continue;
        }
        stats := stats + [PvcStats(vol.pvcRef.value.name, vol.pvcRef.value.namespace,
                                   vol.availableBytes, vol.capacityBytes, vol.usedBytes)];
      }
      assert vols[..|vols|] == vols;
      assert pods[..i + 1] == pods[..i] + [pods[i]];
      FlattenSnoc(pods[..i], pods[i]);
    }
    assert pods[..|pods|] == pods;
  }

  /** `GetPvcUsageCtx` over a given node listing. */
  method GetPvcUsage(nodes: seq<NodeReport>) returns (stats: seq<PvcStats>)
    ensures stats == ClusterPvcUsage(nodes)
  {
    stats := [];
    for i := 0 to |nodes|
      invariant stats == ClusterPvcUsage(nodes[..i])
    {
      var nodeStats := GetNodePvcUsage(nodes[i].response);
      assert nodes[..i + 1][..i] == nodes[..i];
      stats := stats + nodeStats;
    }
    assert nodes[..|nodes|] == nodes;
  }

  /** The positions of `vs` whose volumes qualify, in increasing order. */
  function SourceIndices(vs: seq<Volume>): seq<nat>
  {
    if vs == [] then []
    else SourceIndices(vs[..|vs| - 1]) + if Qualifies(vs[|vs| - 1]) then [|vs| - 1] else []
  }

  /**
    The aggregate holds exactly one entry per qualifying volume, copied from
    it, in volume order: its k-th entry comes from volume `idx[k]`, the
    positions `idx` increase, and they are exactly the qualifying ones.
   */
  lemma {:induction false} AggregateExact(vs: seq<Volume>)
    ensures var out, idx := Aggregate(vs), SourceIndices(vs);
      && |idx| == |out| <= |vs|
      && (forall k :: 0 <= k < |idx| ==> idx[k] < |vs| && Qualifies(vs[idx[k]]) && CopiedFrom(out[k], vs[idx[k]]))
      && (forall k, l :: 0 <= k < l < |idx| ==> idx[k] < idx[l])
      && (forall j :: 0 <= j < |vs| ==> (Qualifies(vs[j]) <==> j in idx))
  {
    if vs != [] {
      var n := |vs| - 1;
      var init := vs[..n];
      AggregateExact(init);
      var out0, idx0 := Aggregate(init), SourceIndices(init);
      var out, idx := Aggregate(vs), SourceIndices(vs);
      assert forall j :: 0 <= j < n ==> init[j] == vs[j];
      if Qualifies(vs[n]) {
        assert out == out0 + [ToStats(vs[n])] && idx == idx0 + [n];
        assert forall k :: 0 <= k < |idx0| ==> out[k] == out0[k] && idx[k] == idx0[k];
      } else {
        assert out == out0 && idx == idx0;
      }
    }
  }

  /** Aggregation distributes over concatenation of volume lists. */
  lemma {:induction false} AggregateConcat(a: seq<Volume>, b: seq<Volume>)
    ensures Aggregate(a + b) == Aggregate(a) + Aggregate(b)
  {
    if b == [] {
      assert a + b == a;
    } else {
      var init := b[..|b| - 1];
      assert (a + b)[..|a + b| - 1] == a + init;
      AggregateConcat(a, init);
    }
  }

  /** An entry is in the aggregate exactly when some qualifying volume yields it. */
  lemma AggregateMembership(vs: seq<Volume>, s: PvcStats)
    ensures s in Aggregate(vs) <==> exists v :: v in vs && Qualifies(v) && s == ToStats(v)
  {
    AggregateExact(vs);
    var out, idx := Aggregate(vs), SourceIndices(vs);
    if s in out {
      var k :| 0 <= k < |out| && out[k] == s;
      assert vs[idx[k]] in vs && Qualifies(vs[idx[k]]) && s == ToStats(vs[idx[k]]);
    }
    if v :| v in vs && Qualifies(v) && s == ToStats(v) {
      var j :| 0 <= j < |vs| && vs[j] == v;
      var k :| 0 <= k < |idx| && idx[k] == j;
      assert out[k] == s;
    }
  }

  /**
    Every aggregated entry has positive capacity, so its usage is the ratio
    of used bytes to capacity.
   */
  lemma AggregatePositiveCapacity(vs: seq<Volume>)
    ensures forall s :: s in Aggregate(vs) ==>
      s.capacityBytes > 0.0 && Usage(s) * s.capacityBytes == 100.0 * s.usedBytes
  {
    forall s | s in Aggregate(vs)
      ensures s.capacityBytes > 0.0
    {
      AggregateMembership(vs, s);
    }
  }

  /** The node's volumes are those of its pods, pod after pod. */
  lemma {:induction false} FlattenConcat(a: seq<Pod>, b: seq<Pod>)
    ensures Flatten(a + b) == Flatten(a) + Flatten(b)
  {
    if b == [] {
      assert a + b == a;
    } else {
      var init := b[..|b| - 1];
      assert (a + b)[..|a + b| - 1] == a + init;
      FlattenConcat(a, init);
    }
  }

  /**
    A node's entries follow pod order: the entries of the pods before pod `i`,
    then those of pod `i`'s own volumes, then those of the pods after it.
   */
  lemma NodePvcUsageByPod(pods: seq<Pod>, i: nat)
    requires i < |pods|
    ensures NodePvcUsage(Pods(pods)) ==
      NodePvcUsage(Pods(pods[..i])) + Aggregate(pods[i].volumes) + NodePvcUsage(Pods(pods[i + 1..]))
  {
    assert pods == pods[..i] + [pods[i]] + pods[i + 1..];
    FlattenConcat(pods[..i] + [pods[i]], pods[i + 1..]);
    FlattenConcat(pods[..i], [pods[i]]);
    assert Flatten([pods[i]]) == pods[i].volumes by {
      assert [pods[i]][..0] == [];
    }
    AggregateConcat(Flatten(pods[..i]) + pods[i].volumes, Flatten(pods[i + 1..]));
    AggregateConcat(Flatten(pods[..i]), pods[i].volumes);
  }

  /** A node's result has at most one entry per volume of its pods. */
  lemma NodePvcUsageLength(pods: seq<Pod>)
    ensures |NodePvcUsage(Pods(pods))| <= |Flatten(pods)|
  {
    AggregateExact(Flatten(pods));
  }

  /** One more listed node appends its result. */
  lemma ClusterSnoc(nodes: seq<NodeReport>, x: NodeReport)
    ensures ClusterPvcUsage(nodes + [x]) == ClusterPvcUsage(nodes) + NodePvcUsage(x.response)
  {
    assert (nodes + [x])[..|nodes|] == nodes;
  }

  /** Concatenation of results is associative. */
  lemma ConcatAssoc(x: seq<PvcStats>, y: seq<PvcStats>, z: seq<PvcStats>)
    ensures (x + y) + z == x + (y + z)
  {
  }

  /** The cluster result distributes over splitting the node listing. */
  lemma {:induction false} ClusterConcat(a: seq<NodeReport>, b: seq<NodeReport>)
    ensures ClusterPvcUsage(a + b) == ClusterPvcUsage(a) + ClusterPvcUsage(b)
  {
    if b == [] {
      assert a + b == a;
    } else {
      var init, x := b[..|b| - 1], b[|b| - 1];
      assert b == init + [x];
      assert a + b == (a + init) + [x];
      ClusterConcat(a, init);
      ClusterSnoc(a + init, x);
      ClusterSnoc(init, x);
      ConcatAssoc(ClusterPvcUsage(a), ClusterPvcUsage(init), NodePvcUsage(x.response));
    }
  }

  /** The listing splits at any position. */
  lemma ClusterSplitAt(nodes: seq<NodeReport>, k: nat)
    requires k <= |nodes|
    ensures ClusterPvcUsage(nodes) == ClusterPvcUsage(nodes[..k]) + ClusterPvcUsage(nodes[k..])
  {
    assert nodes == nodes[..k] + nodes[k..];
    ClusterConcat(nodes[..k], nodes[k..]);
  }

  /** A node in front of a listing puts its result in front. */
  lemma ClusterCons(x: NodeReport, post: seq<NodeReport>, nodes: seq<NodeReport>)
    requires nodes == [x] + post
    ensures ClusterPvcUsage(nodes) == NodePvcUsage(x.response) + ClusterPvcUsage(post)
  {
    ClusterConcat([x], post);
    ClusterSingle(x);
  }

  /** The listing from node `k` on is node `k` followed by the rest. */
  lemma SuffixCons(nodes: seq<NodeReport>, k: nat)
    requires k < |nodes|
    ensures nodes[k..] == [nodes[k]] + nodes[k + 1..]
  {
  }

  /** Node `k`'s result sits between those of the nodes listed before and after it. */
  lemma ClusterByNode(nodes: seq<NodeReport>, k: nat)
    requires k < |nodes|
    ensures ClusterPvcUsage(nodes) ==
      ClusterPvcUsage(nodes[..k]) + (NodePvcUsage(nodes[k].response) + ClusterPvcUsage(nodes[k + 1..]))
  {
    ClusterSplitAt(nodes, k);
    SuffixCons(nodes, k);
    ClusterCons(nodes[k], nodes[k + 1..], nodes[k..]);
  }

  /** A listing of one node yields that node's result. */
  lemma ClusterSingle(x: NodeReport)
    ensures ClusterPvcUsage([x]) == NodePvcUsage(x.response)
  {
    assert [x][..0] == [];
    assert [] + NodePvcUsage(x.response) == NodePvcUsage(x.response);
  }

  /**
    A node whose stats request failed contributes nothing, and the nodes
    listed before and after it still contribute theirs.
   */
  lemma ClusterSkipsFailedNode(nodes: seq<NodeReport>, k: nat)
    requires k < |nodes| && nodes[k].response.Failed?
    ensures ClusterPvcUsage(nodes) == ClusterPvcUsage(nodes[..k]) + ClusterPvcUsage(nodes[k + 1..])
  {
    ClusterByNode(nodes, k);
    var none, cpost := NodePvcUsage(nodes[k].response), ClusterPvcUsage(nodes[k + 1..]);
    assert none == [];
    assert none + cpost == cpost;
  }

  /** An entry is in the cluster result exactly when some listed node's result holds it. */
  lemma {:induction false} ClusterMembership(nodes: seq<NodeReport>, s: PvcStats)
    ensures s in ClusterPvcUsage(nodes) <==>
      exists k :: 0 <= k < |nodes| && s in NodePvcUsage(nodes[k].response)
  {
    if nodes != [] {
      var init := nodes[..|nodes| - 1];
      ClusterMembership(init, s);
      assert forall k :: 0 <= k < |init| ==> init[k] == nodes[k];
    }
  }
}
