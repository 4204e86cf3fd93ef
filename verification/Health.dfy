/** The verdict on the cluster: the join of pods and Cassandra nodes, and the scan of all pairs of
    nodes for unequal load, in whatever order the map of nodes is enumerated. */
module Health {
  import opened Outcomes
  import opened Cassandra
  import opened Enumeration
  import opened Kubernetes
  import Cluster
  import Load

  datatype Reason =
    | NoReason
    | TooFewPods
    | CountMismatch
    | PodNotRunning(pod: string, state: string)
    | ContainersNotReady(count: int, pod: string)
    | NodeMissing(ip: string, pod: string)
    | NodeNotUp(ip: string, pod: string, nodeStatus: NodeStatus)
    | NodeNotNormal(ip: string, pod: string, nodeState: NodeState)
    | LoadUnparsed(address: string)
    | LoadUnequal(addressA: string, loadA: string, addressB: string, loadB: string)

  /** The conversion of a load to bytes; a library function, so any partial function. */
  type LoadParser = string -> Option<nat>

  // ----- What healthy means

  predicate PodOk(pod: PodStatus, nodes: NodeMap) {
    && pod.status == RUNNING && pod.ready == pod.total
    && pod.podIP in nodes && nodes[pod.podIP].status == Up && nodes[pod.podIP].state == Normal
  }

  ghost predicate LoadsOk(nodes: NodeMap, parseLoad: LoadParser, threshold: int) {
    && (forall a :: a in nodes ==> parseLoad(nodes[a].load).Some?)
    && (forall a, b :: a in nodes && b in nodes ==>
          !Load.TooFarApart(parseLoad(nodes[a].load).value, parseLoad(nodes[b].load).value, threshold))
  }

  /** At least two pods, as many nodes as pods, every pod running on a node that is Up and Normal,
      every load readable and no two loads unequal. No order of pods or nodes is part of it. */
  ghost predicate Healthy(s: Cluster.Status, parseLoad: LoadParser, threshold: int) {
    && |s.pods| > 1 && |s.pods| == |s.nodes|
    && (forall i :: 0 <= i < |s.pods| ==> PodOk(s.pods[i], s.nodes))
    && LoadsOk(s.nodes, parseLoad, threshold)
  }

  // ----- What a reason says

  ghost predicate PodReason(pod: PodStatus, nodes: NodeMap, r: Reason) {
    match r
    case PodNotRunning(p, state) => p == pod.name && state == pod.status != RUNNING
    case ContainersNotReady(n, p) => p == pod.name && n == pod.total - pod.ready != 0 && pod.status == RUNNING
    case NodeMissing(ip, p) => p == pod.name && ip == pod.podIP && ip !in nodes
                               && pod.status == RUNNING && pod.ready == pod.total
    case NodeNotUp(ip, p, st) => p == pod.name && ip == pod.podIP && ip in nodes && st == nodes[ip].status != Up
                                 && pod.status == RUNNING && pod.ready == pod.total
    case NodeNotNormal(ip, p, st) => p == pod.name && ip == pod.podIP && ip in nodes && st == nodes[ip].state != Normal
                                     && nodes[ip].status == Up && pod.status == RUNNING && pod.ready == pod.total
    case _ => false
  }

  ghost predicate PairOk(a: Node, b: Node, parseLoad: LoadParser, threshold: int) {
    && parseLoad(a.load).Some? && parseLoad(b.load).Some?
    && !Load.TooFarApart(parseLoad(a.load).value, parseLoad(b.load).value, threshold)
  }

  ghost predicate PairReason(a: Node, b: Node, parseLoad: LoadParser, threshold: int, r: Reason) {
    match r
    case LoadUnparsed(address) =>
      if parseLoad(a.load).None? then address == a.address else parseLoad(b.load).None? && address == b.address
    case LoadUnequal(addressA, loadA, addressB, loadB) =>
      && parseLoad(a.load).Some? && parseLoad(b.load).Some? && !PairOk(a, b, parseLoad, threshold)
      && addressA == a.address && loadA == a.load && addressB == b.address && loadB == b.load
    case _ => false
  }

  ghost predicate FirstBadPod(s: Cluster.Status, k: int) {
    0 <= k < |s.pods| && !PodOk(s.pods[k], s.nodes) && forall i :: 0 <= i < k ==> PodOk(s.pods[i], s.nodes)
  }

  /** All pairs that the scan visits before the pair (i, j). */
  ghost predicate PairsOkBefore(nodes: seq<Node>, i: int, j: int, parseLoad: LoadParser, threshold: int) {
    forall x, y :: 0 <= x < y < |nodes| && (x < i || (x == i && y < j)) ==>
      PairOk(nodes[x], nodes[y], parseLoad, threshold)
  }

  ghost predicate FirstBadPair(nodes: seq<Node>, i: int, j: int, parseLoad: LoadParser, threshold: int) {
    && 0 <= i < j < |nodes| && !PairOk(nodes[i], nodes[j], parseLoad, threshold)
    && PairsOkBefore(nodes, i, j, parseLoad, threshold)
  }

  function NodesIn(order: seq<string>, nodes: NodeMap): seq<Node>
    requires forall i :: 0 <= i < |order| ==> order[i] in nodes
  {
    seq(|order|, i requires 0 <= i < |order| => nodes[order[i]])
  }

  /** The reason tells the first thing that is wrong: in the counts, then in the pods
      in their order, then in the pairs of nodes in the order of enumeration. */
  ghost predicate Explains(r: Reason, s: Cluster.Status, order: seq<string>, parseLoad: LoadParser, threshold: int)
    requires Enumerates(order, s.nodes)
  {
    if |s.pods| <= 1 then r == TooFewPods
    else if |s.pods| != |s.nodes| then r == CountMismatch
    else
      var nodes := NodesIn(order, s.nodes);
      && (forall k :: FirstBadPod(s, k) ==> PodReason(s.pods[k], s.nodes, r))
      && ((forall k :: !FirstBadPod(s, k)) ==>
            && (forall i, j :: FirstBadPair(nodes, i, j, parseLoad, threshold) ==>
                  PairReason(nodes[i], nodes[j], parseLoad, threshold, r))
            && ((forall i, j :: !FirstBadPair(nodes, i, j, parseLoad, threshold)) ==> r == NoReason))
  }

  // ----- The check

  lemma AllPodsOk(s: Cluster.Status)
    requires forall i :: 0 <= i < |s.pods| ==> PodOk(s.pods[i], s.nodes)
    ensures forall k :: !FirstBadPod(s, k)
  {
  }

  lemma FirstBadPodUnique(s: Cluster.Status, k: int)
    requires FirstBadPod(s, k)
    ensures forall i :: FirstBadPod(s, i) ==> i == k
  {
    assert forall i :: 0 <= i < |s.pods| && i < k ==> PodOk(s.pods[i], s.nodes);
  }

  lemma FirstBadPairUnique(nodes: seq<Node>, i: int, j: int, parseLoad: LoadParser, threshold: int)
    requires FirstBadPair(nodes, i, j, parseLoad, threshold)
    ensures forall x, y :: FirstBadPair(nodes, x, y, parseLoad, threshold) ==> x == i && y == j
  {
  }

  /** With at least two nodes, the scan of all pairs has parsed every load and compared every two of them. */
  lemma ScanCoversAll(order: seq<string>, nodes: NodeMap, parseLoad: LoadParser, threshold: int)
    requires Enumerates(order, nodes) && |order| > 1
    ensures LoadsOk(nodes, parseLoad, threshold) <==>
            PairsOkBefore(NodesIn(order, nodes), |order|, 0, parseLoad, threshold)
  {
    var ns := NodesIn(order, nodes);
    if LoadsOk(nodes, parseLoad, threshold) {
      forall x, y | 0 <= x < y < |ns| ensures PairOk(ns[x], ns[y], parseLoad, threshold) {
        assert order[x] in nodes && order[y] in nodes;
      }
    }
    if PairsOkBefore(ns, |order|, 0, parseLoad, threshold) {
      forall a | a in nodes ensures parseLoad(nodes[a].load).Some? {
        var i :| 0 <= i < |order| && order[i] == a;
        assert PairOk(ns[0], ns[if i == 0 then 1 else i], parseLoad, threshold);
      }
      forall a, b | a in nodes && b in nodes
        ensures !Load.TooFarApart(parseLoad(nodes[a].load).value, parseLoad(nodes[b].load).value, threshold)
      {
        var i :| 0 <= i < |order| && order[i] == a;
        var j :| 0 <= j < |order| && order[j] == b;
        if i < j { assert PairOk(ns[i], ns[j], parseLoad, threshold); }
        if j < i { assert PairOk(ns[j], ns[i], parseLoad, threshold); }
      }
    }
  }

  /** The body of the loop over the pods. */
  method CheckPod(pod: PodStatus, nodes: NodeMap) returns (reason: Reason)
    ensures if PodOk(pod, nodes) then reason == NoReason else PodReason(pod, nodes, reason)
  {
    if pod.status != RUNNING {
      return PodNotRunning(pod.name, pod.status);
    }
    if pod.ready != pod.total {
      return ContainersNotReady(pod.total - pod.ready, pod.name);
    }
    if pod.podIP !in nodes {
      return NodeMissing(pod.podIP, pod.name);
    }
    var node := nodes[pod.podIP];
    if node.status != Up {
      return NodeNotUp(pod.podIP, pod.name, node.status);
    }
    if node.state != Normal {
      return NodeNotNormal(pod.podIP, pod.name, node.state);
    }
    return NoReason;
  }

  /** The body of the loops over the pairs of nodes. */
  method CheckPair(a: Node, b: Node, parseLoad: LoadParser, threshold: int) returns (reason: Reason)
    ensures if PairOk(a, b, parseLoad, threshold) then reason == NoReason
            else PairReason(a, b, parseLoad, threshold, reason)
  {
    var loadA := parseLoad(a.load);
    if loadA.None? {
      return LoadUnparsed(a.address);
    }
    var loadB := parseLoad(b.load);
    if loadB.None? {
      return LoadUnparsed(b.address);
    }
    Load.IntegerTest(loadA.value, loadB.value, threshold);
    if Load.IsLoadOverThreshold(loadA.value, loadB.value, threshold) {
      return LoadUnequal(a.address, a.load, b.address, b.load);
    }
    return NoReason;
  }

  /** The loop that appends the nodes of the map to a list. */
  method CollectNodes(nodes: NodeMap, order: seq<string>) returns (list: seq<Node>)
    requires Enumerates(order, nodes)
    ensures list == NodesIn(order, nodes)
  {
    list := [];
    for k := 0 to |order|
      invariant |list| == k && forall x :: 0 <= x < k ==> list[x] == nodes[order[x]]
    {
      list := list + [nodes[order[k]]];
    }
  }

  /** The loops over the pairs of nodes. */
  method CheckLoads(nodes: seq<Node>, parseLoad: LoadParser, threshold: int) returns (reason: Reason)
    ensures if PairsOkBefore(nodes, |nodes|, 0, parseLoad, threshold) then reason == NoReason
            else exists i, j :: FirstBadPair(nodes, i, j, parseLoad, threshold)
                                && PairReason(nodes[i], nodes[j], parseLoad, threshold, reason)
  {
    for i := 0 to |nodes|
      invariant PairsOkBefore(nodes, i, 0, parseLoad, threshold)
    {
      for j := i + 1 to |nodes|
        invariant PairsOkBefore(nodes, i, j, parseLoad, threshold)
      {
        reason := CheckPair(nodes[i], nodes[j], parseLoad, threshold);
        if reason != NoReason {
          assert FirstBadPair(nodes, i, j, parseLoad, threshold);
          return;
        }
      }
    }
    return NoReason;
  }

  lemma PairExplains(s: Cluster.Status, order: seq<string>, parseLoad: LoadParser, threshold: int,
                     i: int, j: int, r: Reason)
    requires Enumerates(order, s.nodes) && |s.pods| > 1 && |s.pods| == |s.nodes|
    requires forall k :: 0 <= k < |s.pods| ==> PodOk(s.pods[k], s.nodes)
    requires FirstBadPair(NodesIn(order, s.nodes), i, j, parseLoad, threshold)
    requires PairReason(s.nodes[order[i]], s.nodes[order[j]], parseLoad, threshold, r)
    ensures Explains(r, s, order, parseLoad, threshold)
  {
    AllPodsOk(s);
    FirstBadPairUnique(NodesIn(order, s.nodes), i, j, parseLoad, threshold);
  }

  lemma PodExplains(s: Cluster.Status, order: seq<string>, parseLoad: LoadParser, threshold: int, k: int, r: Reason)
    requires Enumerates(order, s.nodes) && |s.pods| > 1 && |s.pods| == |s.nodes|
    requires FirstBadPod(s, k) && PodReason(s.pods[k], s.nodes, r)
    ensures Explains(r, s, order, parseLoad, threshold)
  {
    FirstBadPodUnique(s, k);
  }

  /** The check of the original, for any order in which the map of nodes is enumerated: its verdict is
      Healthy, which knows no order, and its reason is the first thing wrong in that order. */
  method IsClusterHealthy(s: Cluster.Status, order: seq<string>, parseLoad: LoadParser, threshold: int)
    returns (reason: Reason, healthy: bool)
    requires Enumerates(order, s.nodes)
    ensures healthy <==> Healthy(s, parseLoad, threshold)
    ensures healthy <==> reason == NoReason
    ensures Explains(reason, s, order, parseLoad, threshold)
  {
    if |s.pods| <= 1 {
      return TooFewPods, false;
    }
    if |s.pods| != |s.nodes| {
      return CountMismatch, false;
    }
    for i := 0 to |s.pods|
      invariant forall k :: 0 <= k < i ==> PodOk(s.pods[k], s.nodes)
    {
      reason := CheckPod(s.pods[i], s.nodes);
      if reason != NoReason {
        PodExplains(s, order, parseLoad, threshold, i, reason);
        return reason, false;
      }
    }
    var nodes := CollectNodes(s.nodes, order);
    EnumerationLength(order, s.nodes);
    ScanCoversAll(order, s.nodes, parseLoad, threshold);
    reason := CheckLoads(nodes, parseLoad, threshold);
    if reason != NoReason {
      ghost var i, j :| FirstBadPair(nodes, i, j, parseLoad, threshold)
                        && PairReason(nodes[i], nodes[j], parseLoad, threshold, reason);
      PairExplains(s, order, parseLoad, threshold, i, j, reason);
      return reason, false;
    }
    AllPodsOk(s);
    return NoReason, true;
  }
}
