/** The snapshot of the cluster: the shown status of every pod, and the table of Cassandra nodes
    as the first pod reports it. */
module Cluster {
  import opened Outcomes
  import Cassandra
  import Kubernetes

  datatype Status = Status(pods: seq<Kubernetes.PodStatus>, nodes: Cassandra.NodeMap)

  datatype Error = NoPodsFound | ExecFailed | BadTable(error: Cassandra.Error)

  /** Running `nodetool status` in a pod; a remote call, so any partial function. */
  type Nodetool = Kubernetes.Pod -> Option<string>

  const NO_IP := "<none>"

  /** What is shown of a pod: its name, its node, its address or a placeholder, and its state and containers. */
  ghost predicate Shows(shown: Kubernetes.PodStatus, pod: Kubernetes.Pod) {
    && shown.name == pod.name && shown.hostIP == pod.nodeName
    && shown.podIP == (if pod.podIP == "" then "<none>" else pod.podIP)
    && shown.status == Kubernetes.Reason(pod)
    && shown.ready == Kubernetes.Ready(pod) && shown.total == pod.containers
  }

  function Summary(pod: Kubernetes.Pod): Kubernetes.PodStatus {
    Kubernetes.PodStatus(pod.name, pod.nodeName, if pod.podIP == "" then NO_IP else pod.podIP,
                         Kubernetes.Reason(pod), Kubernetes.Ready(pod), pod.containers)
  }

  function Summaries(pods: seq<Kubernetes.Pod>): seq<Kubernetes.PodStatus> {
    seq(|pods|, i requires 0 <= i < |pods| => Summary(pods[i]))
  }

  function NodesFrom(pod: Kubernetes.Pod, nodetool: Nodetool, parseFloat: Cassandra.FloatParser)
    : Outcome<Cassandra.NodeMap, Error>
  {
    match nodetool(pod)
    case None => Failed(ExecFailed)
    case Some(text) =>
      match Cassandra.StatusOf(text, parseFloat)
      case Failed(e) => Failed(BadTable(e))
      case Panicked => Panicked
      case Done(nodes) => Done(nodes)
  }

  /** One status for each pod in order, and the nodes the first pod reports; the other pods are not asked. */
  function Snapshot(pods: seq<Kubernetes.Pod>, nodetool: Nodetool, parseFloat: Cassandra.FloatParser)
    : Outcome<Status, Error>
  {
    if pods == [] then Failed(NoPodsFound)
    else
      match NodesFrom(pods[0], nodetool, parseFloat)
      case Failed(e) => Failed(e)
      case Panicked => Panicked
      case Done(nodes) => Done(Status(Summaries(pods), nodes))
  }

  lemma SummariesStep(pods: seq<Kubernetes.Pod>, i: nat)
    requires i < |pods|
    ensures Summaries(pods[..i + 1]) == Summaries(pods[..i]) + [Summary(pods[i])]
  {
  }

  method GetCassandraStatus(nodetool: Nodetool, pod: Kubernetes.Pod, parseFloat: Cassandra.FloatParser)
    returns (r: Outcome<Cassandra.NodeMap, Error>)
    ensures r == NodesFrom(pod, nodetool, parseFloat)
  {
    var text := nodetool(pod);
    if text.None? {
      return Failed(ExecFailed);
    }
    var table := Cassandra.GetStatus(text.value, parseFloat);
    match table {
      case Failed(e) => return Failed(BadTable(e));
      case Panicked => return Panicked;
      case Done(nodes) => return Done(nodes);
    }
  }

  method GetStatus(pods: seq<Kubernetes.Pod>, nodetool: Nodetool, parseFloat: Cassandra.FloatParser)
    returns (r: Outcome<Status, Error>)
    ensures r == Snapshot(pods, nodetool, parseFloat)
    ensures pods == [] ==> r == Failed(NoPodsFound)
    ensures pods != [] ==>
              match nodetool(pods[0])
              case None => r == Failed(ExecFailed)
              case Some(text) =>
                match Cassandra.StatusOf(text, parseFloat)
                case Failed(e) => r == Failed(BadTable(e))
                case Panicked => r == Panicked
                case Done(nodes) => r.Done? && r.value.nodes == nodes && |r.value.pods| == |pods|
                                    && forall i :: 0 <= i < |pods| ==> Shows(r.value.pods[i], pods[i])
  {
    if |pods| == 0 {
      return Failed(NoPodsFound);
    }
    var podsStatus: seq<Kubernetes.PodStatus> := [];
    var isCassandraStatusParsed := false;
    var nodesStatus: Cassandra.NodeMap := map[];
    ghost var first := NodesFrom(pods[0], nodetool, parseFloat);
    for i := 0 to |pods|
      invariant podsStatus == Summaries(pods[..i])
      invariant isCassandraStatusParsed <==> i > 0
      invariant isCassandraStatusParsed ==> first == Done(nodesStatus)
    {
      var pod := pods[i];
      var podIP := pod.podIP;
      if podIP == "" {
        podIP := NO_IP;
      }
      var podState, containers, readyContainers := Kubernetes.DeterminePodStatus(pod);
      podsStatus :=
        podsStatus + [Kubernetes.PodStatus(pod.name, pod.nodeName, podIP, podState, readyContainers, containers)];
      SummariesStep(pods, i);
      if !isCassandraStatusParsed {
        var nodes := GetCassandraStatus(nodetool, pod, parseFloat);
        match nodes {
          case Failed(e) => return Failed(e);
          case Panicked => return Panicked;
          case Done(value) => nodesStatus := value;
        }
        isCassandraStatusParsed := true;
      }
    }
    assert pods[..|pods|] == pods;
    return Done(Status(podsStatus, nodesStatus));
  }
}
