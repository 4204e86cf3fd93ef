/** What a healthy verdict means, and what it does not depend on. */
module HealthProperties {
  import opened Cassandra
  import opened Enumeration
  import opened Kubernetes
  import opened Health
  import Cluster
  import Load

  lemma PodReasonDetermined(pod: PodStatus, nodes: NodeMap, r: Reason, r': Reason)
    requires PodReason(pod, nodes, r) && PodReason(pod, nodes, r')
    ensures r == r'
  {
  }

  lemma PairReasonDetermined(a: Node, b: Node, parseLoad: LoadParser, threshold: int, r: Reason, r': Reason)
    requires PairReason(a, b, parseLoad, threshold, r) && PairReason(a, b, parseLoad, threshold, r')
    ensures r == r'
  {
  }

  /** The contract of the check leaves one reason for each status and order. */
  lemma ReasonDetermined(s: Cluster.Status, order: seq<string>, parseLoad: LoadParser, threshold: int,
                         r: Reason, r': Reason)
    requires Enumerates(order, s.nodes)
    requires Explains(r, s, order, parseLoad, threshold) && Explains(r', s, order, parseLoad, threshold)
    ensures r == r'
  {
    if |s.pods| > 1 && |s.pods| == |s.nodes| {
      var nodes := NodesIn(order, s.nodes);
      if k :| FirstBadPod(s, k) {
        PodReasonDetermined(s.pods[k], s.nodes, r, r');
      } else if i, j :| FirstBadPair(nodes, i, j, parseLoad, threshold) {
        PairReasonDetermined(nodes[i], nodes[j], parseLoad, threshold, r, r');
      }
    }
  }

  lemma PermutedPods(a: seq<PodStatus>, b: seq<PodStatus>, nodes: NodeMap)
    requires multiset(a) == multiset(b)
    ensures (forall i :: 0 <= i < |a| ==> PodOk(a[i], nodes)) ==> (forall i :: 0 <= i < |b| ==> PodOk(b[i], nodes))
  {
    forall i | 0 <= i < |b| ensures exists j :: 0 <= j < |a| && a[j] == b[i] {
      assert b[i] in multiset(b) && b[i] in multiset(a);
    }
  }

  predicate RunsOnNode(p: PodStatus, nodes: NodeMap) {
    && p.status == "Running" && p.ready == p.total
    && p.podIP in nodes && nodes[p.podIP].status == Up && nodes[p.podIP].state == Normal
  }

  /** The reasons before any pair of nodes is looked at: too few pods, another number of nodes, and then the first
      pod that does not run on a node that is up, with the first thing that is wrong with it. */
  lemma ReasonOfPods(s: Cluster.Status, order: seq<string>, parseLoad: LoadParser, threshold: int, r: Reason, k: nat)
    requires Enumerates(order, s.nodes) && Explains(r, s, order, parseLoad, threshold)
    ensures |s.pods| <= 1 ==> r == TooFewPods
    ensures |s.pods| >= 2 && |s.pods| != |s.nodes| ==> r == CountMismatch
    ensures |s.pods| >= 2 && |s.pods| == |s.nodes| && k < |s.pods| && !RunsOnNode(s.pods[k], s.nodes)
            && (forall i :: 0 <= i < k ==> RunsOnNode(s.pods[i], s.nodes)) ==>
              var p := s.pods[k];
              r == if p.status != "Running" then PodNotRunning(p.name, p.status)
                   else if p.ready != p.total then ContainersNotReady(p.total - p.ready, p.name)
                   else if p.podIP !in s.nodes then NodeMissing(p.podIP, p.name)
                   else if s.nodes[p.podIP].status != Up then NodeNotUp(p.podIP, p.name, s.nodes[p.podIP].status)
                   else NodeNotNormal(p.podIP, p.name, s.nodes[p.podIP].state)
  {
    assert forall p :: PodOk(p, s.nodes) <==> RunsOnNode(p, s.nodes);
    if k < |s.pods| && !RunsOnNode(s.pods[k], s.nodes) && forall i :: 0 <= i < k ==> RunsOnNode(s.pods[i], s.nodes) {
      assert FirstBadPod(s, k);
    }
  }

  /** The loads of two nodes can be parsed and are not unequal. */
  predicate Balanced(a: Node, b: Node, parseLoad: LoadParser, threshold: int) {
    match (parseLoad(a.load), parseLoad(b.load))
    case (Some(x), Some(y)) => !(x > threshold && y > threshold && Load.AFifthApart(x, y))
    case _ => false
  }

  lemma BalancedIsOk(a: Node, b: Node, parseLoad: LoadParser, threshold: int)
    ensures Balanced(a, b, parseLoad, threshold) <==> PairOk(a, b, parseLoad, threshold)
  {
  }

  /** The reasons when all pods are fine: that of the first pair, in the order of the nodes, that is not balanced. */
  lemma ReasonOfPairs(s: Cluster.Status, order: seq<string>, parseLoad: LoadParser, threshold: int, r: Reason,
                      i: nat, j: nat)
    requires Enumerates(order, s.nodes) && Explains(r, s, order, parseLoad, threshold)
    requires |s.pods| >= 2 && |s.pods| == |s.nodes| && forall k :: 0 <= k < |s.pods| ==> RunsOnNode(s.pods[k], s.nodes)
    requires i < j < |order|
    requires forall x, y :: 0 <= x < y < |order| && (x < i || (x == i && y < j)) ==>
               Balanced(s.nodes[order[x]], s.nodes[order[y]], parseLoad, threshold)
    ensures var a, b := s.nodes[order[i]], s.nodes[order[j]];
            !Balanced(a, b, parseLoad, threshold) ==>
              r == if parseLoad(a.load).None? then LoadUnparsed(a.address)
                   else if parseLoad(b.load).None? then LoadUnparsed(b.address)
                   else LoadUnequal(a.address, a.load, b.address, b.load)
  {
    var ns := NodesIn(order, s.nodes);
    forall x, y | 0 <= x < y < |order|
      ensures Balanced(s.nodes[order[x]], s.nodes[order[y]], parseLoad, threshold) <==>
              PairOk(ns[x], ns[y], parseLoad, threshold)
    {
      BalancedIsOk(ns[x], ns[y], parseLoad, threshold);
    }
    assert forall k :: 0 <= k < |s.pods| ==> PodOk(s.pods[k], s.nodes);
    AllPodsOk(s);
    if !Balanced(s.nodes[order[i]], s.nodes[order[j]], parseLoad, threshold) {
      assert PairsOkBefore(ns, i, j, parseLoad, threshold);
      assert FirstBadPair(ns, i, j, parseLoad, threshold);
    }
  }

  /** The order of the pods does not matter either. */
  lemma PodOrderIrrelevant(s: Cluster.Status, pods: seq<PodStatus>, parseLoad: LoadParser, threshold: int)
    requires multiset(pods) == multiset(s.pods)
    ensures Healthy(s, parseLoad, threshold) <==> Healthy(s.(pods := pods), parseLoad, threshold)
  {
    PermutedPods(s.pods, pods, s.nodes);
    PermutedPods(pods, s.pods, s.nodes);
    assert |multiset(pods)| == |pods| && |multiset(s.pods)| == |s.pods|;
  }

  // ----- The join of pods and nodes

  predicate DistinctIps(pods: seq<PodStatus>) {
    forall i, j :: 0 <= i < j < |pods| ==> pods[i].podIP != pods[j].podIP
  }

  ghost function IpSet(pods: seq<PodStatus>): set<string> {
    set i | 0 <= i < |pods| :: pods[i].podIP
  }

  lemma IpSetSnoc(pods: seq<PodStatus>)
    requires pods != []
    ensures IpSet(pods) == IpSet(pods[..|pods| - 1]) + {pods[|pods| - 1].podIP}
  {
    var n := |pods| - 1;
    assert forall i :: 0 <= i < n ==> pods[..n][i] == pods[i];
  }

  lemma DistinctIpsSnoc(pods: seq<PodStatus>)
    requires pods != []
    ensures DistinctIps(pods) <==>
            DistinctIps(pods[..|pods| - 1]) && pods[|pods| - 1].podIP !in IpSet(pods[..|pods| - 1])
  {
    var n := |pods| - 1;
    var init := pods[..n];
    if DistinctIps(init) && pods[n].podIP !in IpSet(init) {
      forall i, j | 0 <= i < j < |pods| ensures pods[i].podIP != pods[j].podIP {
        assert init[i].podIP in IpSet(init);
        if j < n { assert init[i].podIP != init[j].podIP; }
      }
    }
  }

  lemma {:induction false} IpCount(pods: seq<PodStatus>)
    ensures |IpSet(pods)| <= |pods|
    ensures |IpSet(pods)| == |pods| <==> DistinctIps(pods)
  {
    if pods == [] {
    } else {
      var init, ip := pods[..|pods| - 1], pods[|pods| - 1].podIP;
      IpCount(init);
      IpSetSnoc(pods);
      DistinctIpsSnoc(pods);
      if ip in IpSet(init) {
        assert IpSet(pods) == IpSet(init);
      }
    }
  }

  lemma {:induction false} SubsetOfSameSize<T>(a: set<T>, b: set<T>)
    requires a <= b
    ensures |a| <= |b|
    ensures |a| == |b| <==> a == b
  {
    if a == {} {
    } else {
      var x :| x in a;
      SubsetOfSameSize(a - {x}, b - {x});
      assert a == (a - {x}) + {x} && b == (b - {x}) + {x};
    }
  }

  /** In a healthy cluster the nodes are exactly the pods by address if and only if no two pods share
      an address: the check looks nodes up from pods only, and compares two counts. */
  lemma JoinCoversNodes(s: Cluster.Status, parseLoad: LoadParser, threshold: int)
    requires Healthy(s, parseLoad, threshold)
    ensures DistinctIps(s.pods) <==> IpSet(s.pods) == s.nodes.Keys
  {
    assert forall i :: 0 <= i < |s.pods| ==> PodOk(s.pods[i], s.nodes);
    IpCount(s.pods);
    assert |s.nodes.Keys| == |s.nodes|;
    SubsetOfSameSize(IpSet(s.pods), s.nodes.Keys);
  }

  /** With distinct pod addresses, healthy means that pods and nodes correspond one to one and that every
      node of the map, not only those looked up, is Up and Normal. */
  lemma HealthyIsBijection(s: Cluster.Status, parseLoad: LoadParser, threshold: int)
    requires Healthy(s, parseLoad, threshold) && DistinctIps(s.pods)
    ensures forall a :: a in s.nodes ==> s.nodes[a].status == Up && s.nodes[a].state == Normal
    ensures forall a :: a in s.nodes ==> exists i :: 0 <= i < |s.pods| && s.pods[i].podIP == a
                                                  && forall j :: 0 <= j < |s.pods| && s.pods[j].podIP == a ==> j == i
  {
    JoinCoversNodes(s, parseLoad, threshold);
    forall a | a in s.nodes
      ensures s.nodes[a].status == Up && s.nodes[a].state == Normal
      ensures exists i :: 0 <= i < |s.pods| && s.pods[i].podIP == a
                          && forall j :: 0 <= j < |s.pods| && s.pods[j].podIP == a ==> j == i
    {
      assert a in IpSet(s.pods);
      var i :| 0 <= i < |s.pods| && s.pods[i].podIP == a;
      assert PodOk(s.pods[i], s.nodes);
    }
  }

  ghost predicate AllPodsRunning(pods: seq<PodStatus>) {
    forall i :: 0 <= i < |pods| ==> pods[i].status == RUNNING && pods[i].ready == pods[i].total
  }

  ghost predicate AllNodesUp(nodes: NodeMap) {
    forall a :: a in nodes ==> nodes[a].status == Up && nodes[a].state == Normal
  }

  /** Healthy without the join: with distinct pod addresses the verdict splits into a statement about the
      pods, one about all nodes, and one about the two sets of addresses. */
  lemma HealthySplits(s: Cluster.Status, parseLoad: LoadParser, threshold: int)
    requires DistinctIps(s.pods)
    ensures Healthy(s, parseLoad, threshold) <==>
            && |s.pods| > 1 && AllPodsRunning(s.pods) && IpSet(s.pods) == s.nodes.Keys
            && AllNodesUp(s.nodes) && LoadsOk(s.nodes, parseLoad, threshold)
  {
    IpCount(s.pods);
    assert |s.nodes.Keys| == |s.nodes|;
    if Healthy(s, parseLoad, threshold) {
      JoinCoversNodes(s, parseLoad, threshold);
      HealthyIsBijection(s, parseLoad, threshold);
      assert forall i :: 0 <= i < |s.pods| ==> PodOk(s.pods[i], s.nodes);
    } else if AllPodsRunning(s.pods) && IpSet(s.pods) == s.nodes.Keys && AllNodesUp(s.nodes) {
      forall i | 0 <= i < |s.pods| ensures PodOk(s.pods[i], s.nodes) {
        assert s.pods[i].podIP in IpSet(s.pods);
      }
    }
  }

  lemma {:induction false} LongerThanAll(s: set<string>) returns (n: nat)
    ensures forall x :: x in s ==> |x| < n
  {
    if s == {} {
      n := 0;
    } else {
      var x :| x in s;
      n := LongerThanAll(s - {x});
      n := if n > |x| then n else |x| + 1;
    }
  }

  function NodeAt(status: NodeStatus, address: string, load: string): Node {
    Node(status, Normal, address, load, 0.0, "")
  }

  /** A map can be filled up with nodes that are down. */
  lemma {:induction false} FillUp(nodes: NodeMap, k: nat, load: string) returns (more: NodeMap)
    requires forall a :: a in nodes ==> nodes[a].load == load
    ensures |more| == |nodes| + k && forall a :: a in nodes ==> a in more && more[a] == nodes[a]
    ensures forall a :: a in more ==> more[a].load == load
    ensures k > 0 ==> exists a :: a in more && more[a].status == Down
  {
    if k == 0 {
      more := nodes;
    } else {
      more := FillUp(nodes, k - 1, load);
      var n := LongerThanAll(more.Keys);
      var unused := seq(n, _ => '1');
      assert unused !in more;
      more := more[unused := NodeAt(Down, unused, load)];
      assert more[unused].status == Down;
    }
  }

  /** With equal loads, the nodes of the pods and nodes that are down pass for a healthy cluster. */
  lemma UnseenNodes(pods: seq<PodStatus>, parseLoad: LoadParser, threshold: int, load: string)
    returns (nodes: NodeMap)
    requires |pods| >= 2 && AllPodsRunning(pods) && parseLoad(load).Some? && !DistinctIps(pods)
    ensures Healthy(Cluster.Status(pods, nodes), parseLoad, threshold) && !AllNodesUp(nodes)
  {
    IpCount(pods);
    var up := map a | a in IpSet(pods) :: NodeAt(Up, a, load);
    assert up.Keys == IpSet(pods) && |up.Keys| == |up|;
    nodes := FillUp(up, |pods| - |up|, load);
    forall i | 0 <= i < |pods| ensures PodOk(pods[i], nodes) {
      assert pods[i].podIP in up;
    }
  }

  /** What a healthy verdict says of all nodes: for any running pods, every map of nodes that passes has all nodes
      Up and Normal if and only if the addresses of the pods are distinct. */
  lemma JoinSound(pods: seq<PodStatus>, parseLoad: LoadParser, threshold: int, load: string)
    requires |pods| >= 2 && AllPodsRunning(pods) && parseLoad(load).Some?
    ensures (forall nodes: NodeMap :: Healthy(Cluster.Status(pods, nodes), parseLoad, threshold) ==> AllNodesUp(nodes))
            <==> DistinctIps(pods)
  {
    if DistinctIps(pods) {
      forall nodes: NodeMap | Healthy(Cluster.Status(pods, nodes), parseLoad, threshold) ensures AllNodesUp(nodes) {
        HealthyIsBijection(Cluster.Status(pods, nodes), parseLoad, threshold);
      }
    } else {
      var nodes := UnseenNodes(pods, parseLoad, threshold, load);
      assert Healthy(Cluster.Status(pods, nodes), parseLoad, threshold) && !AllNodesUp(nodes);
    }
  }

  // ----- The load comparison as a whole

  function LoadsIn(order: seq<string>, nodes: NodeMap, parseLoad: LoadParser): seq<nat>
    requires forall i :: 0 <= i < |order| ==> order[i] in nodes && parseLoad(nodes[order[i]].load).Some?
  {
    seq<nat>(|order|, i requires 0 <= i < |order| => parseLoad(nodes[order[i]].load).value)
  }

  /** The scan of all pairs of nodes finds unequal loads exactly when one comparison of the largest and the
      smallest load above the threshold does. */
  lemma LoadScanIsLinear(order: seq<string>, nodes: NodeMap, parseLoad: LoadParser, threshold: int)
    requires Enumerates(order, nodes)
    requires forall a :: a in nodes ==> parseLoad(nodes[a].load).Some?
    ensures LoadsOk(nodes, parseLoad, threshold) <==> !Load.ExtremesApart(LoadsIn(order, nodes, parseLoad), threshold)
  {
    var loads := LoadsIn(order, nodes, parseLoad);
    Load.PairScanIsLinear(loads, threshold);
    if i, j :| 0 <= i < j < |loads| && Load.IsLoadOverThreshold(loads[i], loads[j], threshold) {
      Load.IntegerTest(loads[i], loads[j], threshold);
      assert order[i] in nodes && order[j] in nodes;
    } else {
      forall a, b | a in nodes && b in nodes
        ensures !Load.TooFarApart(parseLoad(nodes[a].load).value, parseLoad(nodes[b].load).value, threshold)
      {
        var i :| 0 <= i < |order| && order[i] == a;
        var j :| 0 <= j < |order| && order[j] == b;
        Load.IntegerTest(loads[i], loads[j], threshold);
      }
    }
  }

  // ----- Smaller clusters and other thresholds

  /** Raising the threshold never makes a healthy cluster unhealthy. */
  lemma RaiseThreshold(s: Cluster.Status, parseLoad: LoadParser, threshold: int, higher: int)
    requires threshold <= higher && Healthy(s, parseLoad, threshold)
    ensures Healthy(s, parseLoad, higher)
  {
    assert LoadsOk(s.nodes, parseLoad, higher);
  }

  function WithoutPod(s: Cluster.Status, k: nat): Cluster.Status
    requires k < |s.pods|
  {
    Cluster.Status(s.pods[..k] + s.pods[k + 1..], s.nodes - {s.pods[k].podIP})
  }

  lemma FewerNodes(nodes: NodeMap, ip: string, parseLoad: LoadParser, threshold: int)
    requires ip in nodes && LoadsOk(nodes, parseLoad, threshold)
    ensures |nodes - {ip}| == |nodes| - 1 && LoadsOk(nodes - {ip}, parseLoad, threshold)
  {
    assert nodes.Keys == (nodes - {ip}).Keys + {ip};
  }

  lemma PodsOkWithout(s: Cluster.Status, k: nat)
    requires k < |s.pods| && forall i :: 0 <= i < |s.pods| ==> PodOk(s.pods[i], s.nodes)
    ensures var s' := WithoutPod(s, k);
            (forall i :: 0 <= i < |s'.pods| ==> PodOk(s'.pods[i], s'.nodes)) <==>
            (forall i :: 0 <= i < |s.pods| && i != k ==> s.pods[i].podIP != s.pods[k].podIP)
  {
    var ip, s' := s.pods[k].podIP, WithoutPod(s, k);
    forall i | 0 <= i < |s.pods| && i != k
      ensures var j := if i < k then i else i - 1;
              0 <= j < |s'.pods| && (PodOk(s'.pods[j], s'.nodes) <==> s.pods[i].podIP != ip)
    {
      assert PodOk(s.pods[i], s.nodes);
    }
    if forall i :: 0 <= i < |s.pods| && i != k ==> s.pods[i].podIP != ip {
      forall j | 0 <= j < |s'.pods| ensures PodOk(s'.pods[j], s'.nodes) {
        var i := if j < k then j else j + 1;
        assert s.pods[i].podIP != ip && (if i < k then i else i - 1) == j;
      }
    }
  }

  /** Taking one pod and its node out of a healthy cluster of three or more leaves it healthy exactly
      when no other pod has the same address. */
  lemma RemovePod(s: Cluster.Status, k: nat, parseLoad: LoadParser, threshold: int)
    requires k < |s.pods| && |s.pods| >= 3 && Healthy(s, parseLoad, threshold)
    ensures Healthy(WithoutPod(s, k), parseLoad, threshold) <==>
            forall i :: 0 <= i < |s.pods| && i != k ==> s.pods[i].podIP != s.pods[k].podIP
  {
    assert PodOk(s.pods[k], s.nodes);
    FewerNodes(s.nodes, s.pods[k].podIP, parseLoad, threshold);
    PodsOkWithout(s, k);
  }
}
