/** The status command from end to end: from the pods and the text that nodetool prints to the verdict. */
module Pipeline {
  import opened Outcomes
  import opened Pattern
  import opened NodetoolRow
  import opened Cassandra
  import opened Enumeration
  import opened NodetoolTable
  import opened Kubernetes
  import opened Health
  import opened HealthProperties
  import Cluster
  import Load
  import Scanner

  /** What the command is given besides the pods. */
  datatype Setting = Setting(nodetool: Cluster.Nodetool, parseFloat: FloatParser, parseLoad: LoadParser, threshold: int)

  function SnapshotOf(pods: seq<Pod>, env: Setting): Outcome<Cluster.Status, Cluster.Error> {
    Cluster.Snapshot(pods, env.nodetool, env.parseFloat)
  }

  /** The command takes a snapshot and calls the cluster healthy. */
  ghost predicate ReportsHealthy(pods: seq<Pod>, env: Setting) {
    SnapshotOf(pods, env).Done? && Healthy(SnapshotOf(pods, env).value, env.parseLoad, env.threshold)
  }

  // ----- Rows and nodes

  /** The two letters a row begins with. */
  predicate SaysUN(row: string) {
    |row| >= 2 && row[0] == 'U' && row[1] == 'N'
  }

  lemma CodeOfRow(row: string)
    requires MatchRow(row).Some?
    ensures |row| >= 2 && MatchRow(row).value.status == [row[0]] && MatchRow(row).value.state == [row[1]]
    ensures In(row[0], Upper) && In(row[1], Upper)
  {
    MatchSound(ROW, row);
    var p := Match(ROW, row).value;
    SplitsTail(ROW, row, p);
    SplitsTail(ROW[1..], row[|p[0]|..], p[1..]);
    assert Fits(ROW[0], p[0]) && Fits(ROW[1], p[1]);
  }

  lemma NodeOfRow(row: string, parseFloat: FloatParser, node: Node)
    requires ProcessNode(row, parseFloat) == Done(node)
    ensures node.status == Up && node.state == Normal <==> SaysUN(row)
    ensures node.address != "" && In(node.address[0], Digit)
  {
    CodeOfRow(row);
    var r, pads := MatchIsRendering(row);
    RowRoundTrip(r, pads);
    assert node.address[0] == r.octets[0][0];
  }

  ghost predicate AllRead(text: string, parseFloat: FloatParser, nodes: seq<Node>) {
    Scanner.Complete(text) && Reads(Rows(Scanner.Lines(text)), Reader(parseFloat), nodes)
  }

  lemma ReadTable(text: string, parseFloat: FloatParser, nodes: seq<Node>) returns (m: NodeMap)
    requires AllRead(text, parseFloat, nodes)
    ensures StatusOf(text, parseFloat) == Done(m) && LastWins(nodes, m)
  {
    TableComplete(Rows(Scanner.Lines(text)), Reader(parseFloat), nodes);
    m := StatusOf(text, parseFloat).value;
  }

  /** The last rows of the given addresses say UN. */
  ghost predicate LastRowsSayUN(rows: seq<string>, nodes: seq<Node>, addresses: set<string>)
    requires |rows| == |nodes|
  {
    forall i :: IsLast(nodes, i) && nodes[i].address in addresses ==> SaysUN(rows[i])
  }

  ghost predicate NodesUp(m: NodeMap, addresses: set<string>) {
    forall a :: a in m && a in addresses ==> m[a].status == Up && m[a].state == Normal
  }

  lemma NodesUpAreUN(rows: seq<string>, parseFloat: FloatParser, nodes: seq<Node>, m: NodeMap, addresses: set<string>)
    requires Reads(rows, Reader(parseFloat), nodes) && LastWins(nodes, m)
    ensures NodesUp(m, addresses) <==> LastRowsSayUN(rows, nodes, addresses)
  {
    forall i | IsLast(nodes, i) ensures m[nodes[i].address] == nodes[i]
      && (nodes[i].status == Up && nodes[i].state == Normal <==> SaysUN(rows[i]))
    {
      NodeOfRow(rows[i], parseFloat, nodes[i]);
    }
    if LastRowsSayUN(rows, nodes, addresses) {
      forall a | a in m && a in addresses ensures m[a].status == Up && m[a].state == Normal {
        var i :| 0 <= i < |nodes| && nodes[i].address == a;
        var k := LastIndex(nodes, i);
        assert IsLast(nodes, k);
      }
    }
  }

  // ----- Loads

  function Addresses(nodes: seq<Node>): seq<string> {
    seq(|nodes|, i requires 0 <= i < |nodes| => nodes[i].address)
  }

  lemma AddressesEnumerate(nodes: seq<Node>, m: NodeMap)
    requires LastWins(nodes, m) && DistinctAddresses(nodes)
    ensures Enumerates(Addresses(nodes), m)
    ensures forall i :: 0 <= i < |nodes| ==> m[Addresses(nodes)[i]] == nodes[i]
  {
    DistinctRecords(nodes, m);
    KeysAreAddresses(nodes, m);
    var order := Addresses(nodes);
    forall a | a in m ensures a in order {
      assert a in AddressSet(nodes);
      var i :| 0 <= i < |nodes| && nodes[i].address == a;
      assert order[i] == a;
    }
  }

  ghost predicate AllReadable(nodes: seq<Node>, parseLoad: LoadParser) {
    forall i :: 0 <= i < |nodes| ==> parseLoad(nodes[i].load).Some?
  }

  function LoadsOf(nodes: seq<Node>, parseLoad: LoadParser): seq<nat>
    requires AllReadable(nodes, parseLoad)
  {
    seq<nat>(|nodes|, i requires 0 <= i < |nodes| => parseLoad(nodes[i].load).value)
  }

  /** The loads of the nodes are all readable, and no two of them are too far apart. */
  ghost predicate LoadsEven(nodes: seq<Node>, parseLoad: LoadParser, threshold: int) {
    AllReadable(nodes, parseLoad) && !Load.ExtremesApart(LoadsOf(nodes, parseLoad), threshold)
  }

  lemma ReadableInMap(nodes: seq<Node>, m: NodeMap, parseLoad: LoadParser)
    requires LastWins(nodes, m) && DistinctAddresses(nodes)
    ensures (forall a :: a in m ==> parseLoad(m[a].load).Some?) <==> AllReadable(nodes, parseLoad)
  {
    DistinctRecords(nodes, m);
    if AllReadable(nodes, parseLoad) {
      forall a | a in m ensures parseLoad(m[a].load).Some? {
        var i :| 0 <= i < |nodes| && nodes[i].address == a;
        assert m[nodes[i].address] == nodes[i];
      }
    }
    if forall a :: a in m ==> parseLoad(m[a].load).Some? {
      forall i | 0 <= i < |nodes| ensures parseLoad(nodes[i].load).Some? {
        assert m[nodes[i].address] == nodes[i];
      }
    }
  }

  lemma SameLoads(nodes: seq<Node>, m: NodeMap, parseLoad: LoadParser)
    requires Enumerates(Addresses(nodes), m)
    requires forall i :: 0 <= i < |nodes| ==> m[Addresses(nodes)[i]] == nodes[i]
    requires AllReadable(nodes, parseLoad)
    ensures LoadsIn(Addresses(nodes), m, parseLoad) == LoadsOf(nodes, parseLoad)
  {
  }

  lemma LoadsOkIsEven(nodes: seq<Node>, m: NodeMap, parseLoad: LoadParser, threshold: int)
    requires LastWins(nodes, m) && DistinctAddresses(nodes)
    ensures LoadsOk(m, parseLoad, threshold) <==> LoadsEven(nodes, parseLoad, threshold)
  {
    AddressesEnumerate(nodes, m);
    ReadableInMap(nodes, m, parseLoad);
    if AllReadable(nodes, parseLoad) {
      SameLoads(nodes, m, parseLoad);
      LoadScanIsLinear(Addresses(nodes), m, parseLoad, threshold);
    }
  }

  // ----- From the pods and the text to the verdict

  ghost predicate AllShown(pods: seq<Pod>) {
    forall i :: 0 <= i < |pods| ==> ShownHealthy(pods[i])
  }

  ghost predicate AreUp(pods: seq<Pod>) {
    forall i :: 0 <= i < |pods| ==> AllUp(pods[i])
  }

  lemma PodsShownHealthy(pods: seq<Pod>)
    ensures AllPodsRunning(Cluster.Summaries(pods)) <==> AllShown(pods)
  {
    var ps := Cluster.Summaries(pods);
    forall i | 0 <= i < |pods|
      ensures ps[i].status == RUNNING && ps[i].ready == ps[i].total <==> ShownHealthy(pods[i])
    {
      assert ps[i] == Cluster.Summary(pods[i]);
    }
  }

  lemma JoinIsPointwise(ps: seq<PodStatus>, m: NodeMap)
    ensures (forall i :: 0 <= i < |ps| ==> PodOk(ps[i], m)) <==>
            AllPodsRunning(ps) && IpSet(ps) <= m.Keys && NodesUp(m, IpSet(ps))
  {
    if forall i :: 0 <= i < |ps| ==> PodOk(ps[i], m) {
      forall a | a in IpSet(ps) ensures a in m && m[a].status == Up && m[a].state == Normal {
        var i :| 0 <= i < |ps| && ps[i].podIP == a;
        assert PodOk(ps[i], m);
      }
      assert AllPodsRunning(ps) by {
        forall i | 0 <= i < |ps| ensures ps[i].status == RUNNING && ps[i].ready == ps[i].total {
          assert PodOk(ps[i], m);
        }
      }
    }
    if AllPodsRunning(ps) && IpSet(ps) <= m.Keys && NodesUp(m, IpSet(ps)) {
      forall i | 0 <= i < |ps| ensures PodOk(ps[i], m) {
        assert ps[i].podIP in IpSet(ps);
      }
    }
  }

  lemma VerdictOnSnapshot(pods: seq<Pod>, env: Setting, m: NodeMap)
    requires SnapshotOf(pods, env) == Done(Cluster.Status(Cluster.Summaries(pods), m))
    ensures var ps := Cluster.Summaries(pods);
            ReportsHealthy(pods, env) <==>
            && |pods| > 1 && |pods| == |m| && AllPodsRunning(ps) && IpSet(ps) <= m.Keys && NodesUp(m, IpSet(ps))
            && LoadsOk(m, env.parseLoad, env.threshold)
  {
    JoinIsPointwise(Cluster.Summaries(pods), m);
  }

  lemma SnapshotOfTable(pods: seq<Pod>, env: Setting, text: string, m: NodeMap)
    requires pods != [] && env.nodetool(pods[0]) == Some(text) && StatusOf(text, env.parseFloat) == Done(m)
    ensures SnapshotOf(pods, env) == Done(Cluster.Status(Cluster.Summaries(pods), m))
  {
  }

  lemma SnapshotNodes(pods: seq<Pod>, env: Setting, text: string, nodes: seq<Node>, addresses: set<string>)
    returns (m: NodeMap)
    requires pods != [] && env.nodetool(pods[0]) == Some(text) && AllRead(text, env.parseFloat, nodes)
    ensures SnapshotOf(pods, env) == Done(Cluster.Status(Cluster.Summaries(pods), m))
    ensures m.Keys == AddressSet(nodes) && |m| == |AddressSet(nodes)|
    ensures LoadsOk(m, env.parseLoad, env.threshold) <==> LoadsEven(Survivors(nodes), env.parseLoad, env.threshold)
    ensures NodesUp(m, addresses) <==> LastRowsSayUN(Rows(Scanner.Lines(text)), nodes, addresses)
  {
    m := ReadTable(text, env.parseFloat, nodes);
    KeysAreAddresses(nodes, m);
    SurvivorsDecide(nodes, m);
    LoadsOkIsEven(Survivors(nodes), m, env.parseLoad, env.threshold);
    NodesUpAreUN(Rows(Scanner.Lines(text)), env.parseFloat, nodes, m, addresses);
    SnapshotOfTable(pods, env, text, m);
  }

  /** The first pod prints the text, and its rows are read as the nodes. */
  ghost predicate PrintsTable(pods: seq<Pod>, env: Setting, text: string, nodes: seq<Node>) {
    pods != [] && env.nodetool(pods[0]) == Some(text) && AllRead(text, env.parseFloat, nodes)
  }

  /** There are at least two pods and as many addresses in the table, every pod has the address of a row, and the last
      row of each of these addresses says UN. */
  ghost predicate PodsFit(pods: seq<Pod>, rows: seq<string>, nodes: seq<Node>)
    requires |rows| == |nodes|
  {
    var ips := IpSet(Cluster.Summaries(pods));
    && |pods| >= 2 && |pods| == |AddressSet(nodes)|
    && ips <= AddressSet(nodes) && LastRowsSayUN(rows, nodes, ips)
  }

  /** The pods fit the table, and the loads in the last rows of all addresses are even. */
  ghost predicate TableFits(pods: seq<Pod>, env: Setting, text: string, nodes: seq<Node>)
    requires AllRead(text, env.parseFloat, nodes)
  {
    && PodsFit(pods, Rows(Scanner.Lines(text)), nodes)
    && LoadsEven(Survivors(nodes), env.parseLoad, env.threshold)
  }

  /** The verdict on a table that can be read. */
  lemma VerdictOnTable(pods: seq<Pod>, env: Setting, text: string, nodes: seq<Node>)
    requires PrintsTable(pods, env, text, nodes)
    ensures ReportsHealthy(pods, env) <==>
            AllShown(pods) && TableFits(pods, env, text, nodes)
  {
    var m := SnapshotNodes(pods, env, text, nodes, IpSet(Cluster.Summaries(pods)));
    VerdictOnSnapshot(pods, env, m);
    PodsShownHealthy(pods);
  }

  lemma HealthyWhenFits(pods: seq<Pod>, env: Setting, text: string, nodes: seq<Node>)
    requires PrintsTable(pods, env, text, nodes) && AllShown(pods) && TableFits(pods, env, text, nodes)
    ensures ReportsHealthy(pods, env)
  {
    VerdictOnTable(pods, env, text, nodes);
  }

  /** A verdict is healthy only when every row of the table could be read. */
  lemma HealthyIsRead(pods: seq<Pod>, env: Setting) returns (text: string, nodes: seq<Node>)
    requires ReportsHealthy(pods, env)
    ensures PrintsTable(pods, env, text, nodes)
  {
    text := env.nodetool(pods[0]).value;
    nodes := TableSound(Rows(Scanner.Lines(text)), Reader(env.parseFloat));
  }

  /** End to end, for any pods and whatever nodetool does: the command reports a healthy cluster exactly when every
      pod is shown Running and fully ready, and the first pod prints a table that can be read and fits the pods. */
  lemma VerdictEndToEnd(pods: seq<Pod>, env: Setting)
    ensures ReportsHealthy(pods, env) <==>
            && AllShown(pods)
            && exists text, nodes :: PrintsTable(pods, env, text, nodes) && TableFits(pods, env, text, nodes)
  {
    if ReportsHealthy(pods, env) {
      var text, nodes := HealthyIsRead(pods, env);
      VerdictOnTable(pods, env, text, nodes);
    } else if text, nodes :| PrintsTable(pods, env, text, nodes) && TableFits(pods, env, text, nodes) {
      VerdictOnTable(pods, env, text, nodes);
    }
  }

  /** When no pod reports more statuses than it has containers, shown means that every container is up. */
  lemma AllUpEndToEnd(pods: seq<Pod>, env: Setting)
    requires forall i :: 0 <= i < |pods| ==> |pods[i].statuses| <= pods[i].containers
    ensures ReportsHealthy(pods, env) <==>
            && AreUp(pods)
            && exists text, nodes :: PrintsTable(pods, env, text, nodes) && TableFits(pods, env, text, nodes)
  {
    VerdictEndToEnd(pods, env);
    forall i | 0 <= i < |pods| ensures ShownHealthy(pods[i]) <==> AllUp(pods[i]) {
      ShownHealthyIsAllUp(pods[i]);
    }
  }

  /** The addresses of the pods are exactly those of the table, the last row of every address says UN, and the
      loads in these rows are even. */
  ghost predicate TableCovered(pods: seq<Pod>, env: Setting, text: string, nodes: seq<Node>)
    requires AllRead(text, env.parseFloat, nodes)
  {
    && |pods| >= 2 && IpSet(Cluster.Summaries(pods)) == AddressSet(nodes)
    && LastRowsSayUN(Rows(Scanner.Lines(text)), nodes, AddressSet(nodes))
    && LoadsEven(Survivors(nodes), env.parseLoad, env.threshold)
  }

  lemma FitsIsCovered(pods: seq<Pod>, env: Setting, text: string, nodes: seq<Node>)
    requires AllRead(text, env.parseFloat, nodes) && DistinctIps(Cluster.Summaries(pods))
    ensures TableFits(pods, env, text, nodes) <==> TableCovered(pods, env, text, nodes)
  {
    var ips := IpSet(Cluster.Summaries(pods));
    IpCount(Cluster.Summaries(pods));
    if ips <= AddressSet(nodes) {
      SubsetOfSameSize(ips, AddressSet(nodes));
    }
  }

  /** With distinct pod addresses the pods cover the whole table; an earlier row of a repeated address is still
      never looked at. */
  lemma HealthyEndToEnd(pods: seq<Pod>, env: Setting)
    requires DistinctIps(Cluster.Summaries(pods))
    ensures ReportsHealthy(pods, env) <==>
            && AllShown(pods)
            && exists text, nodes :: PrintsTable(pods, env, text, nodes) && TableCovered(pods, env, text, nodes)
  {
    VerdictEndToEnd(pods, env);
    forall text, nodes | PrintsTable(pods, env, text, nodes)
      ensures TableFits(pods, env, text, nodes) <==> TableCovered(pods, env, text, nodes)
    {
      FitsIsCovered(pods, env, text, nodes);
    }
  }

  // ----- What is never healthy

  /** A later row has the address of row k. */
  predicate Replaced(rows: seq<string>, k: nat)
    requires k < |rows|
  {
    MatchRow(rows[k]).Some? &&
    exists j :: k < j < |rows| && MatchRow(rows[j]).Some?
                && MatchRow(rows[j]).value.address == MatchRow(rows[k]).value.address
  }

  lemma NotReplacedIsLast(rows: seq<string>, parseFloat: FloatParser, nodes: seq<Node>, k: nat)
    requires Reads(rows, Reader(parseFloat), nodes) && k < |rows| && !Replaced(rows, k)
    ensures IsLast(nodes, k)
  {
    assert Reader(parseFloat)(rows[k]) == Done(nodes[k]);
    forall j | k < j < |nodes| ensures nodes[j].address != nodes[k].address {
      assert Reader(parseFloat)(rows[j]) == Done(nodes[j]);
      assert MatchRow(rows[j]).Some?;
    }
  }

  /** With distinct pod addresses, one row that does not say UN is enough, unless a later row has its address. */
  lemma DownRowNeverHealthy(pods: seq<Pod>, env: Setting, text: string, k: nat)
    requires pods != [] && env.nodetool(pods[0]) == Some(text) && DistinctIps(Cluster.Summaries(pods))
    requires var rows := Rows(Scanner.Lines(text)); k < |rows| && !SaysUN(rows[k]) && !Replaced(rows, k)
    ensures !ReportsHealthy(pods, env)
  {
    if ReportsHealthy(pods, env) {
      var text', nodes := HealthyIsRead(pods, env);
      NotReplacedIsLast(Rows(Scanner.Lines(text)), env.parseFloat, nodes, k);
      assert nodes[k].address in AddressSet(nodes);
      VerdictOnTable(pods, env, text, nodes);
      FitsIsCovered(pods, env, text, nodes);
      assert false;
    }
  }

  /** A line below the header that does not begin with two capital letters, such as a note or the heading of another
      table, never gives a verdict: if all lines before it can be read, the command panics. */
  lemma OtherLinePanics(pods: seq<Pod>, env: Setting, text: string, k: nat)
    requires pods != [] && env.nodetool(pods[0]) == Some(text) && k < |Rows(Scanner.Lines(text))|
    requires var row := Rows(Scanner.Lines(text))[k]; |row| < 2 || !In(row[0], Upper) || !In(row[1], Upper)
    ensures !SnapshotOf(pods, env).Done?
    ensures (forall j :: 0 <= j < k ==> Reader(env.parseFloat)(Rows(Scanner.Lines(text))[j]).Done?) ==>
            SnapshotOf(pods, env).Panicked?
  {
    var rows, read := Rows(Scanner.Lines(text)), Reader(env.parseFloat);
    if MatchRow(rows[k]).Some? {
      CodeOfRow(rows[k]);
    }
    assert !read(rows[k]).Done?;
    TableOutcome(rows, read);
    PanicsAtUnmatchedRow(text, env.parseFloat);
    if forall j :: 0 <= j < k ==> read(rows[j]).Done? {
      assert FirstUnread(rows, read, k);
    }
  }

  /** A pod without an address is never part of a healthy cluster: its placeholder is not an address the
      parser can produce. */
  lemma NoIpNeverHealthy(pods: seq<Pod>, k: nat, env: Setting)
    requires k < |pods| && pods[k].podIP == ""
    ensures !ReportsHealthy(pods, env)
  {
    if ReportsHealthy(pods, env) {
      var s := SnapshotOf(pods, env).value;
      var rows := Rows(Scanner.Lines(env.nodetool(pods[0]).value));
      var nodes := TableSound(rows, Reader(env.parseFloat));
      assert PodOk(s.pods[k], s.nodes) && s.pods[k].podIP == Cluster.NO_IP;
      var i :| 0 <= i < |nodes| && nodes[i].address == Cluster.NO_IP;
      NodeOfRow(rows[i], env.parseFloat, nodes[i]);
      assert false;
    }
  }

  lemma SameMembers(a: seq<Pod>, b: seq<Pod>)
    requires multiset(a) == multiset(b)
    ensures forall p :: p in a ==> p in b
  {
    forall p | p in a ensures p in b {
      assert p in multiset(a) && p in multiset(b);
    }
  }

  lemma SummariesOk(a: seq<Pod>, b: seq<Pod>, m: NodeMap)
    requires forall p :: p in b ==> p in a
    ensures (forall i :: 0 <= i < |a| ==> PodOk(Cluster.Summaries(a)[i], m)) ==>
            (forall i :: 0 <= i < |b| ==> PodOk(Cluster.Summaries(b)[i], m))
  {
    if forall i :: 0 <= i < |a| ==> PodOk(Cluster.Summaries(a)[i], m) {
      forall i | 0 <= i < |b| ensures PodOk(Cluster.Summaries(b)[i], m) {
        assert b[i] in a;
        var j :| 0 <= j < |a| && a[j] == b[i];
        assert PodOk(Cluster.Summaries(a)[j], m);
      }
    }
  }

  /** When nodetool prints the same in the pods listed first, the order of the other pods does not matter. */
  lemma PodListOrderIrrelevant(pods: seq<Pod>, other: seq<Pod>, env: Setting)
    requires multiset(pods) == multiset(other)
    requires pods != [] && other != [] ==> env.nodetool(pods[0]) == env.nodetool(other[0])
    ensures ReportsHealthy(pods, env) <==> ReportsHealthy(other, env)
  {
    SameMembers(pods, other);
    SameMembers(other, pods);
    assert |multiset(pods)| == |pods| && |multiset(other)| == |other|;
    if pods == [] {
    } else {
      assert other != [];
      assert Cluster.NodesFrom(pods[0], env.nodetool, env.parseFloat) ==
             Cluster.NodesFrom(other[0], env.nodetool, env.parseFloat);
      if SnapshotOf(pods, env).Done? {
        var m := SnapshotOf(pods, env).value.nodes;
        SummariesOk(pods, other, m);
        SummariesOk(other, pods, m);
      }
    }
  }

  ghost predicate ExplainsInSomeOrder(r: Reason, s: Cluster.Status, env: Setting) {
    exists order :: Enumerates(order, s.nodes) && Explains(r, s, order, env.parseLoad, env.threshold)
  }

  /** The pod is shown fully ready, and its node is in the map, Up and Normal. */
  ghost predicate Fine(pod: Pod, m: NodeMap) {
    && Kubernetes.Reason(pod) == "Running" && Ready(pod) == pod.containers
    && pod.podIP != "" && pod.podIP in m && m[pod.podIP].status == Up && m[pod.podIP].state == Normal
  }

  /** The reason is about the pod, by its own name and address. */
  ghost predicate IsAbout(r: Reason, pod: Pod, m: NodeMap) {
    if Kubernetes.Reason(pod) != "Running" then r == PodNotRunning(pod.name, Kubernetes.Reason(pod))
    else if Ready(pod) != pod.containers then r == ContainersNotReady(pod.containers - Ready(pod), pod.name)
    else if pod.podIP == "" then r == NodeMissing("<none>", pod.name)
    else if pod.podIP !in m then r == NodeMissing(pod.podIP, pod.name)
    else if m[pod.podIP].status != Up then r == NodeNotUp(pod.podIP, pod.name, m[pod.podIP].status)
    else r == NodeNotNormal(pod.podIP, pod.name, m[pod.podIP].state)
  }

  /** The reason for the pods of a snapshot: the counts, and then the first pod in the list that is not fine. */
  ghost predicate NamesFirstPod(r: Reason, pods: seq<Pod>, m: NodeMap) {
    && (|pods| == 1 ==> r == TooFewPods)
    && (|pods| >= 2 && |pods| != |m| ==> r == CountMismatch)
    && (|pods| >= 2 && |pods| == |m| ==>
          forall k :: 0 <= k < |pods| && !Fine(pods[k], m) && (forall i :: 0 <= i < k ==> Fine(pods[i], m)) ==>
            IsAbout(r, pods[k], m))
  }

  /** No row has the placeholder for an address. */
  lemma NoPlaceholder(pods: seq<Pod>, env: Setting)
    requires SnapshotOf(pods, env).Done?
    ensures Cluster.NO_IP !in SnapshotOf(pods, env).value.nodes
  {
    var m := SnapshotOf(pods, env).value.nodes;
    var rows := Rows(Scanner.Lines(env.nodetool(pods[0]).value));
    var nodes := TableSound(rows, Reader(env.parseFloat));
    if Cluster.NO_IP in m {
      var i :| 0 <= i < |nodes| && nodes[i].address == Cluster.NO_IP;
      NodeOfRow(rows[i], env.parseFloat, nodes[i]);
      assert false;
    }
  }

  lemma FineIsRunsOnNode(pod: Pod, m: NodeMap)
    requires Cluster.NO_IP !in m
    ensures Fine(pod, m) <==> RunsOnNode(Cluster.Summary(pod), m)
  {
  }

  lemma FirstPodNamed(pods: seq<Pod>, m: NodeMap, order: seq<string>, env: Setting, r: Reason)
    requires Enumerates(order, m) && Cluster.NO_IP !in m && pods != []
    requires Explains(r, Cluster.Status(Cluster.Summaries(pods), m), order, env.parseLoad, env.threshold)
    ensures NamesFirstPod(r, pods, m)
  {
    var s := Cluster.Status(Cluster.Summaries(pods), m);
    forall i | 0 <= i < |pods| ensures Fine(pods[i], m) <==> RunsOnNode(s.pods[i], m) {
      FineIsRunsOnNode(pods[i], m);
    }
    ReasonOfPods(s, order, env.parseLoad, env.threshold, r, 0);
    forall k | 0 <= k < |pods| && |pods| >= 2 && |pods| == |m|
               && !Fine(pods[k], m) && (forall i :: 0 <= i < k ==> Fine(pods[i], m))
      ensures IsAbout(r, pods[k], m)
    {
      ReasonOfPods(s, order, env.parseLoad, env.threshold, r, k);
    }
  }

  /** The command itself: the snapshot, then the check in some order of the nodes, in which its reason is the
      first thing that is wrong. */
  method Status(pods: seq<Pod>, env: Setting) returns (r: Outcome<Reason, Cluster.Error>)
    ensures r == Done(NoReason) <==> ReportsHealthy(pods, env)
    ensures r.Done? ==> SnapshotOf(pods, env).Done? && ExplainsInSomeOrder(r.value, SnapshotOf(pods, env).value, env)
    ensures r.Done? ==> NamesFirstPod(r.value, pods, SnapshotOf(pods, env).value.nodes)
    ensures r.Failed? ==> SnapshotOf(pods, env) == Failed(r.error)
    ensures r.Panicked? ==> SnapshotOf(pods, env).Panicked?
  {
    var snapshot := Cluster.GetStatus(pods, env.nodetool, env.parseFloat);
    match snapshot {
      case Failed(e) => return Failed(e);
      case Panicked => return Panicked;
      case Done(s) =>
        var order := RangeOver(s.nodes);
        var reason, healthy := IsClusterHealthy(s, order, env.parseLoad, env.threshold);
        NoPlaceholder(pods, env);
        FirstPodNamed(pods, s.nodes, order, env, reason);
        return Done(reason);
    }
  }
}
