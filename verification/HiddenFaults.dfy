/** What a healthy verdict does not see, from the pods and the printed table on: the nodes of other addresses when
    pods share one, and containers when a pod reports more statuses than it has containers. */
module HiddenFaults {
  import opened Outcomes
  import opened Cassandra
  import opened NodetoolTable
  import opened Kubernetes
  import opened Health
  import opened HealthProperties
  import opened Pipeline
  import opened PrintedTable
  import Cluster
  import Scanner

  // ----- A shared address

  predicate FirstRowSaysUN(text: string) {
    var rows := Rows(Scanner.Lines(text));
    rows != [] && SaysUN(rows[0])
  }

  /** Of two nodes with different addresses both are left, and they have two addresses. */
  lemma TwoAreLeft(nodes: seq<Node>)
    requires |nodes| == 2 && nodes[0].address != nodes[1].address
    ensures Survivors(nodes) == nodes && AddressSet(nodes) == {nodes[0].address, nodes[1].address}
    ensures |AddressSet(nodes)| == 2
  {
    assert nodes[1..] == [nodes[1]] && nodes[1..][1..] == [];
    assert Survivors(nodes[1..]) == [nodes[1]];
    AddressCount(nodes);
  }

  lemma OneAddress(pods: seq<Pod>, address: string)
    requires pods != [] && address != "" && forall i :: 0 <= i < |pods| ==> pods[i].podIP == address
    ensures IpSet(Cluster.Summaries(pods)) == {address}
  {
    var ps := Cluster.Summaries(pods);
    assert forall i :: 0 <= i < |ps| ==> ps[i].podIP == address;
    assert ps[0].podIP == address;
  }

  lemma FirstRowOnly(rows: seq<string>, nodes: seq<Node>)
    requires |rows| == |nodes| == 2 && SaysUN(rows[0]) && nodes[0].address != nodes[1].address
    ensures LastRowsSayUN(rows, nodes, {nodes[0].address})
  {
  }

  lemma SharedFits(pods: seq<Pod>, rows: seq<string>, nodes: seq<Node>)
    requires |pods| == |rows| == |nodes| == 2 && nodes[0].address != nodes[1].address && nodes[0].address != ""
    requires pods[0].podIP == pods[1].podIP == nodes[0].address && SaysUN(rows[0])
    ensures PodsFit(pods, rows, nodes)
  {
    OneAddress(pods, nodes[0].address);
    TwoAreLeft(nodes);
    FirstRowOnly(rows, nodes);
  }

  /** When two pods that are shown fully ready share the address of the first of two nodes, the verdict does not
      depend on what the table says of the second. */
  lemma SecondRowIsUnseen(pods: seq<Pod>, env: Setting, text: string, nodes: seq<Node>)
    requires |pods| == 2 && |nodes| == 2 && nodes[0].address != nodes[1].address && nodes[0].address != ""
    requires AllShown(pods) && pods[0].podIP == pods[1].podIP == nodes[0].address
    requires PrintsTable(pods, env, text, nodes) && FirstRowSaysUN(text)
    requires LoadsEven(nodes, env.parseLoad, env.threshold)
    ensures ReportsHealthy(pods, env)
  {
    SharedFits(pods, Rows(Scanner.Lines(text)), nodes);
    TwoAreLeft(nodes);
    HealthyWhenFits(pods, env, text, nodes);
  }

  /** A pod with n containers and m statuses: n that are up, and then some that wait. */
  function PodWith(n: nat, m: nat, name: string, ip: string): Pod {
    Pod(name, "node", ip, RUNNING, "", false, n, 0, [], UpThenWaiting(n, m))
  }

  lemma PodWithIsShown(n: nat, m: nat, name: string, ip: string)
    requires n <= m
    ensures ShownHealthy(PodWith(n, m, name, ip))
    ensures AllUp(PodWith(n, m, name, ip)) <==> n == m
  {
    UpThenWaitingCount(n, m);
    assert LeadingSuccesses([]) == 0;
    if n == m {
      ShownHealthyIsAllUp(PodWith(n, m, name, ip));
    }
  }

  ghost predicate HaveSizes(pods: seq<Pod>, n: nat, m: nat) {
    forall i :: 0 <= i < |pods| ==> pods[i].containers == n && |pods[i].statuses| == m
  }

  lemma TwoPods(n: nat, m: nat, a: string, b: string) returns (pods: seq<Pod>)
    requires n <= m
    ensures |pods| == 2 && pods[0].name != pods[1].name && pods[0].podIP == a && pods[1].podIP == b
    ensures HaveSizes(pods, n, m) && AllShown(pods) && (AreUp(pods) <==> n == m)
    ensures n < m ==> !pods[0].statuses[n].ready
  {
    var first, second := "cassandra-0", "cassandra-1";
    pods := [PodWith(n, m, first, a), PodWith(n, m, second, b)];
    PodWithIsShown(n, m, first, a);
    PodWithIsShown(n, m, second, b);
    assert first[10] != second[10];
  }

  lemma MembersOfTwo(a: string, b: string)
    ensures Members([a, b]) == {a, b} && (a != b ==> Distinct([a, b]))
  {
    assert [a, b][0] == a && [a, b][1] == b;
  }

  lemma TwoHosts() returns (a: string, b: string)
    ensures a != b && a in AllAddresses() && b in AllAddresses() && a != "" && b != ""
  {
    OctetsFit("1");
    OctetsFit("2");
    a, b := Dotted("1", "1", "1", "1"), Dotted("1", "1", "1", "2");
    assert a[6] != b[6];
  }

  predicate SecondSaysDN(rows: seq<string>) {
    |rows| == 2 && |rows[1]| >= 2 && rows[1][0] == 'D' && rows[1][1] == 'N'
  }

  lemma SecondRow(rows: seq<string>, nodes: seq<Node>, addresses: seq<string>, up: set<string>,
                  parseFloat: FloatParser)
    requires RowsFor(rows, nodes, addresses, up, parseFloat) && |addresses| == 2 && addresses[1] !in up
    ensures SecondSaysDN(rows)
  {
    assert RowFor(rows[1], nodes[1], addresses[1], up, parseFloat);
  }

  lemma UpThenDown(a: string, b: string, parseFloat: FloatParser) returns (text: string, nodes: seq<Node>)
    requires a != b && a in AllAddresses() && b in AllAddresses() && parseFloat("50.0").Some?
    ensures Prints(text, nodes, [a, b], {a}, parseFloat) && SecondSaysDN(Rows(Scanner.Lines(text)))
  {
    text, nodes := PrintTable([a, b], {a}, parseFloat);
    SecondRow(Rows(Scanner.Lines(text)), nodes, [a, b], {a}, parseFloat);
  }

  lemma HostsHealthy(pods: seq<Pod>, env: Setting, text: string, nodes: seq<Node>, addresses: seq<string>,
                     up: set<string>)
    requires Prints(text, nodes, addresses, up, env.parseFloat) && Distinct(addresses)
    requires |addresses| == |pods| == 2 && up <= Members(addresses) && IpSet(Cluster.Summaries(pods)) == up
    requires AllShown(pods) && env.parseLoad("0KiB") == Some(0) && env.nodetool(pods[0]) == Some(text)
    ensures ReportsHealthy(pods, env)
  {
    assert Members(addresses) * up == up;
    PrintedHealthy(pods, env, text, nodes, addresses, up);
  }

  lemma SharingPods(a: string) returns (pods: seq<Pod>)
    requires a != ""
    ensures |pods| == 2 && pods[0].name != pods[1].name && pods[0].podIP == pods[1].podIP
    ensures AreUp(pods) && AllShown(pods) && IpSet(Cluster.Summaries(pods)) == {a}
  {
    pods := TwoPods(1, 1, a, a);
    OneAddress(pods, a);
  }

  lemma OnFirstHost(pods: seq<Pod>, env: Setting, text: string, nodes: seq<Node>, a: string, b: string)
    requires Prints(text, nodes, [a, b], {a}, env.parseFloat) && a != b
    requires |pods| == 2 && IpSet(Cluster.Summaries(pods)) == {a}
    requires AllShown(pods) && env.parseLoad("0KiB") == Some(0) && env.nodetool(pods[0]) == Some(text)
    ensures ReportsHealthy(pods, env)
  {
    MembersOfTwo(a, b);
    HostsHealthy(pods, env, text, nodes, [a, b], {a});
  }

  /** Two running pods of different names share the address of the first of two nodes; the table says that the
      second node is down; and the command reports a healthy cluster. */
  lemma SharedIpHidesDownNode(parseFloat: FloatParser, parseLoad: LoadParser, threshold: int)
    returns (pods: seq<Pod>, text: string)
    requires parseFloat("50.0").Some? && parseLoad("0KiB") == Some(0)
    ensures |pods| == 2 && pods[0].name != pods[1].name && pods[0].podIP == pods[1].podIP
    ensures AreUp(pods)
    ensures SecondSaysDN(Rows(Scanner.Lines(text)))
    ensures ReportsHealthy(pods, Setting(_ => Some(text), parseFloat, parseLoad, threshold))
  {
    var a, b := TwoHosts();
    pods := SharingPods(a);
    var nodes;
    text, nodes := UpThenDown(a, b, parseFloat);
    OnFirstHost(pods, Setting(_ => Some(text), parseFloat, parseLoad, threshold), text, nodes, a, b);
  }

  // ----- When a node can be hidden

  /** A healthy report although the last row of some address does not say UN. */
  ghost predicate HidesNode(pods: seq<Pod>, env: Setting, text: string, nodes: seq<Node>) {
    && ReportsHealthy(pods, env) && PrintsTable(pods, env, text, nodes)
    && !LastRowsSayUN(Rows(Scanner.Lines(text)), nodes, AddressSet(nodes))
  }

  /** There are at least two pods, all shown fully ready, all with addresses that a row can have, and not more of
      them than there are such addresses; and two of them share an address. */
  ghost predicate CanHide(pods: seq<Pod>) {
    var ps := Cluster.Summaries(pods);
    && |pods| >= 2 && AllShown(pods) && IpSet(ps) <= AllAddresses() && |pods| <= |AllAddresses()|
    && !DistinctIps(ps)
  }

  lemma {:induction false} Extend(some: set<string>, all: set<string>, n: nat) returns (more: set<string>)
    requires some <= all && |some| <= n <= |all|
    ensures some <= more <= all && |more| == n
    decreases n - |some|
  {
    if |some| == n {
      more := some;
    } else {
      SubsetOfSameSize(some, all);
      assert !(all <= some);
      var a :| a in all && a !in some;
      more := Extend(some + {a}, all, n);
    }
  }

  lemma MembersSnoc(list: seq<string>, a: string)
    ensures Members(list + [a]) == Members(list) + {a}
    ensures Distinct(list) && a !in Members(list) ==> Distinct(list + [a])
  {
    var more := list + [a];
    assert more[|list|] == a && forall i :: 0 <= i < |list| ==> more[i] == list[i] && list[i] in Members(list);
  }

  lemma {:induction false} Listed(s: set<string>) returns (list: seq<string>)
    ensures Distinct(list) && Members(list) == s && |list| == |s|
  {
    if s == {} {
      list := [];
    } else {
      var a :| a in s;
      var rest := Listed(s - {a});
      list := rest + [a];
      MembersSnoc(rest, a);
      assert s == (s - {a}) + {a};
    }
  }

  /** As many different addresses as there are pods, those of the pods among them but not alone. */
  lemma ChooseAddresses(pods: seq<Pod>) returns (addresses: seq<string>)
    requires CanHide(pods)
    ensures Distinct(addresses) && |addresses| == |pods|
    ensures IpSet(Cluster.Summaries(pods)) <= Members(addresses) && Members(addresses) != IpSet(Cluster.Summaries(pods))
    ensures forall i :: 0 <= i < |addresses| ==> addresses[i] in AllAddresses()
  {
    var ips := IpSet(Cluster.Summaries(pods));
    IpCount(Cluster.Summaries(pods));
    var more := Extend(ips, AllAddresses(), |pods|);
    addresses := Listed(more);
    assert forall i :: 0 <= i < |addresses| ==> addresses[i] in Members(addresses);
  }

  lemma SomeRowIsDown(text: string, nodes: seq<Node>, addresses: seq<string>, up: set<string>,
                      parseFloat: FloatParser)
    requires Prints(text, nodes, addresses, up, parseFloat) && Distinct(addresses)
    requires up <= Members(addresses) && Members(addresses) != up
    ensures !LastRowsSayUN(Rows(Scanner.Lines(text)), nodes, AddressSet(nodes))
  {
    var rows := Rows(Scanner.Lines(text));
    NodesOfRows(rows, nodes, addresses, up, parseFloat);
    RowsSayUp(rows, nodes, addresses, up, parseFloat, AddressSet(nodes));
    assert AddressSet(nodes) * Members(addresses) == Members(addresses);
  }

  lemma HideNode(pods: seq<Pod>) returns (env: Setting, text: string, nodes: seq<Node>)
    requires CanHide(pods)
    ensures HidesNode(pods, env, text, nodes)
  {
    var ips := IpSet(Cluster.Summaries(pods));
    var addresses := ChooseAddresses(pods);
    var parseFloat: FloatParser, parseLoad: LoadParser := _ => Some(50.0), _ => Some(0);
    text, nodes := PrintTable(addresses, ips, parseFloat);
    var printed := text;
    env := Setting(_ => Some(printed), parseFloat, parseLoad, 0);
    PrintedHealthy(pods, env, text, nodes, addresses, ips);
    SomeRowIsDown(text, nodes, addresses, ips, parseFloat);
  }

  lemma HiddenMeansCanHide(pods: seq<Pod>, env: Setting, text: string, nodes: seq<Node>)
    requires HidesNode(pods, env, text, nodes)
    ensures CanHide(pods)
  {
    VerdictOnTable(pods, env, text, nodes);
    ReadAddresses(text, env.parseFloat, nodes);
    SubsetOfSameSize(AddressSet(nodes), AllAddresses());
    if DistinctIps(Cluster.Summaries(pods)) {
      FitsIsCovered(pods, env, text, nodes);
    }
  }

  /** The exact condition, for any pods: nodetool can print a table on which the command reports a healthy cluster
      although a last row does not say UN, if and only if two pods share an address and the pods can be part of
      a healthy cluster at all. */
  lemma HidesExactlyWhenShared(pods: seq<Pod>)
    ensures (exists env, text, nodes :: HidesNode(pods, env, text, nodes)) <==> CanHide(pods)
  {
    if CanHide(pods) {
      var env, text, nodes := HideNode(pods);
      assert HidesNode(pods, env, text, nodes);
    }
    if env, text, nodes :| HidesNode(pods, env, text, nodes) {
      HiddenMeansCanHide(pods, env, text, nodes);
    }
  }

  // ----- More statuses than containers

  lemma TwoAddresses(pods: seq<Pod>, a: string, b: string)
    requires |pods| == 2 && pods[0].podIP == a != "" && pods[1].podIP == b != ""
    ensures IpSet(Cluster.Summaries(pods)) == {a, b}
    ensures DistinctIps(Cluster.Summaries(pods)) <==> a != b
  {
    var ps := Cluster.Summaries(pods);
    assert ps[0].podIP == a && ps[1].podIP == b;
  }

  /** For every number of containers and every larger number of statuses: two pods of different names and addresses
      and a table of two nodes that are up, which are reported as a healthy cluster although a container is not
      ready. */
  lemma ExtraStatusReportedHealthy(n: nat, m: nat, parseFloat: FloatParser, parseLoad: LoadParser, threshold: int)
    returns (pods: seq<Pod>, text: string)
    requires n < m && parseFloat("50.0").Some? && parseLoad("0KiB") == Some(0)
    ensures |pods| == 2 && pods[0].name != pods[1].name && DistinctIps(Cluster.Summaries(pods))
    ensures HaveSizes(pods, n, m) && !AreUp(pods) && !pods[0].statuses[n].ready
    ensures ReportsHealthy(pods, Setting(_ => Some(text), parseFloat, parseLoad, threshold))
  {
    var a, b := TwoHosts();
    pods := TwoPods(n, m, a, b);
    var nodes;
    text, nodes := PrintTable([a, b], {a, b}, parseFloat);
    TwoAddresses(pods, a, b);
    MembersOfTwo(a, b);
    HostsHealthy(pods, Setting(_ => Some(text), parseFloat, parseLoad, threshold), text, nodes, [a, b], {a, b});
  }

  lemma UnsoundReport(n: nat, m: nat) returns (pods: seq<Pod>, env: Setting)
    requires n < m
    ensures HaveSizes(pods, n, m) && ReportsHealthy(pods, env) && !AreUp(pods)
  {
    var parseFloat: FloatParser, parseLoad: LoadParser := _ => Some(50.0), _ => Some(0);
    var text;
    pods, text := ExtraStatusReportedHealthy(n, m, parseFloat, parseLoad, 0);
    env := Setting(_ => Some(text), parseFloat, parseLoad, 0);
  }

  /** Among pods with n containers and m statuses, a healthy report means that all containers of all pods are up
      if and only if m <= n. */
  lemma ReportSound(n: nat, m: nat)
    ensures (forall pods, env :: HaveSizes(pods, n, m) && ReportsHealthy(pods, env) ==> AreUp(pods)) <==> m <= n
  {
    if m <= n {
      forall pods, env | HaveSizes(pods, n, m) && ReportsHealthy(pods, env)
        ensures AreUp(pods)
      {
        AllUpEndToEnd(pods, env);
      }
    } else {
      var pods, env := UnsoundReport(n, m);
      assert HaveSizes(pods, n, m) && ReportsHealthy(pods, env) && !AreUp(pods);
    }
  }
}
