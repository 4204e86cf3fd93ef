/** The status of a pod as the status command shows it: a reason and the number of ready containers,
    folded from the states of the init containers and of the main containers. */
module Kubernetes {
  import opened Outcomes

  datatype Terminated = Terminated(exitCode: int, signal: int, reason: string)

  /** The API lets any of the three be present; a waiting container has a possibly empty reason. */
  datatype ContainerState = ContainerState(waiting: Option<string>, running: bool, terminated: Option<Terminated>)

  datatype ContainerStatus = ContainerStatus(ready: bool, state: ContainerState)

  datatype Pod = Pod(name: string, nodeName: string, podIP: string,
                     phase: string, reason: string, deleted: bool,
                     containers: nat, initContainers: nat,
                     initStatuses: seq<ContainerStatus>, statuses: seq<ContainerStatus>)

  datatype PodStatus = PodStatus(name: string, hostIP: string, podIP: string, status: string, ready: int, total: int)

  const RUNNING := "Running"
  const NODE_LOST := "NodeLost"

  function Decimal(n: int): string
    decreases if n < 0 then 1 - n else n
  {
    if n < 0 then "-" + Decimal(-n)
    else if n < 10 then [(n + 48) as char]
    else Decimal(n / 10) + [(n % 10 + 48) as char]
  }

  /** The number that a string of decimal digits stands for, and a number with an optional sign. */
  function Digits(s: string): int {
    if s == "" then 0 else Digits(s[..|s| - 1]) * 10 + (s[|s| - 1] as int - 48)
  }

  function Number(s: string): int {
    if s != "" && s[0] == '-' then -Digits(s[1..]) else Digits(s)
  }

  lemma {:induction false} DigitsOfDecimal(n: nat)
    ensures Digits(Decimal(n)) == n && Decimal(n) != ""
    ensures forall i :: 0 <= i < |Decimal(n)| ==> '0' <= Decimal(n)[i] <= '9'
    ensures n > 0 ==> Decimal(n)[0] != '0'
  {
    if n < 10 {
      assert Decimal(n)[..0] == "";
    } else {
      DigitsOfDecimal(n / 10);
      var s := Decimal(n);
      assert s[..|s| - 1] == Decimal(n / 10);
    }
  }

  /** The decimal text of a number, with a sign if it is negative, stands for it and has no leading zero. */
  lemma DecimalRoundTrip(n: int)
    ensures Number(Decimal(n)) == n
    ensures n > 0 ==> Decimal(n)[0] != '0'
    ensures n < 0 ==> |Decimal(n)| > 1 && Decimal(n)[0] == '-' && Decimal(n)[1] != '0'
  {
    if n < 0 {
      DigitsOfDecimal(-n);
      assert Decimal(n)[1..] == Decimal(-n);
    } else {
      DigitsOfDecimal(n);
      assert Decimal(n)[0] != '-';
    }
  }

  predicate ExitedZero(c: ContainerStatus) {
    c.state.terminated.Some? && c.state.terminated.value.exitCode == 0
  }

  /** The number of init containers that exited 0 before the first that did not. */
  function LeadingSuccesses(inits: seq<ContainerStatus>): (k: nat)
    ensures k <= |inits| && forall i :: 0 <= i < k ==> ExitedZero(inits[i])
    ensures k < |inits| ==> !ExitedZero(inits[k])
  {
    if inits == [] || !ExitedZero(inits[0]) then 0 else 1 + LeadingSuccesses(inits[1..])
  }

  function ExitReason(t: Terminated): string {
    if t.reason != "" then t.reason
    else if t.signal != 0 then "Signal:" + Decimal(t.signal)
    else "ExitCode:" + Decimal(t.exitCode)
  }

  /** The reason for the init container c, which follows k that succeeded, of n declared. */
  function InitReason(c: ContainerStatus, k: nat, n: nat): string {
    "Init:" +
    if c.state.terminated.Some? then ExitReason(c.state.terminated.value)
    else if c.state.waiting.Some? && c.state.waiting.value != "PodInitializing" then c.state.waiting.value
    else Decimal(k) + "/" + Decimal(n)
  }

  /** The reason with which a main container replaces that of the pod, if it does. */
  function Override(c: ContainerStatus): Option<string> {
    if c.state.waiting.Some? && c.state.waiting.value != "" then c.state.waiting
    else if c.state.terminated.Some? then Some(ExitReason(c.state.terminated.value))
    else None
  }

  /** The reason of the last main container that has one to give. */
  function LastOverride(statuses: seq<ContainerStatus>): Option<string> {
    if statuses == [] then None
    else
      var last := Override(statuses[|statuses| - 1]);
      if last.Some? then last else LastOverride(statuses[..|statuses| - 1])
  }

  predicate CountsAsReady(c: ContainerStatus) {
    Override(c).None? && c.ready && c.state.running
  }

  function ReadyCount(statuses: seq<ContainerStatus>): (n: nat)
    ensures n <= |statuses|
  {
    if statuses == [] then 0
    else ReadyCount(statuses[..|statuses| - 1]) + if CountsAsReady(statuses[|statuses| - 1]) then 1 else 0
  }

  function BaseReason(pod: Pod): string {
    if pod.reason != "" then pod.reason else pod.phase
  }

  predicate Initializing(pod: Pod) {
    LeadingSuccesses(pod.initStatuses) < |pod.initStatuses|
  }

  function LiveReason(pod: Pod): string {
    var k := LeadingSuccesses(pod.initStatuses);
    if Initializing(pod) then InitReason(pod.initStatuses[k], k, pod.initContainers)
    else if LastOverride(pod.statuses).Some? then LastOverride(pod.statuses).value
    else BaseReason(pod)
  }

  function Reason(pod: Pod): string {
    if pod.deleted && pod.reason == NODE_LOST then "Unknown"
    else if pod.deleted then "Terminating"
    else LiveReason(pod)
  }

  function Ready(pod: Pod): nat {
    if Initializing(pod) then 0 else ReadyCount(pod.statuses)
  }

  lemma NextStatus(statuses: seq<ContainerStatus>, n: nat)
    requires n < |statuses|
    ensures ReadyCount(statuses[..n + 1]) == ReadyCount(statuses[..n]) + if CountsAsReady(statuses[n]) then 1 else 0
    ensures LastOverride(statuses[..n + 1]) ==
            if Override(statuses[n]).Some? then Override(statuses[n]) else LastOverride(statuses[..n])
  {
    assert statuses[..n + 1][..n] == statuses[..n];
  }

  lemma FirstNotZero(inits: seq<ContainerStatus>, k: nat)
    requires k <= |inits| && (forall i :: 0 <= i < k ==> ExitedZero(inits[i]))
    requires (k < |inits| ==> !ExitedZero(inits[k]))
    ensures LeadingSuccesses(inits) == k
  {
  }

  method DeterminePodStatus(pod: Pod) returns (reason: string, totalContainers: nat, readyContainers: nat)
    ensures reason == Reason(pod) && totalContainers == pod.containers && readyContainers == Ready(pod)
  {
    totalContainers := pod.containers;
    readyContainers := 0;
    reason := pod.phase;
    if pod.reason != "" {
      reason := pod.reason;
    }
    var initializing := false;
    var i := 0;
    while i < |pod.initStatuses|
      invariant i <= |pod.initStatuses| && !initializing && reason == BaseReason(pod)
      invariant forall j :: 0 <= j < i ==> ExitedZero(pod.initStatuses[j])
    {
      var state := pod.initStatuses[i].state;
      if state.terminated.Some? && state.terminated.value.exitCode == 0 {
        i := i + 1;
        continue;
      } else if state.terminated.Some? {
        var t := state.terminated.value;
        if |t.reason| == 0 {
          if t.signal != 0 {
            reason := "Init:" + ("Signal:" + Decimal(t.signal));
          } else {
            reason := "Init:" + ("ExitCode:" + Decimal(t.exitCode));
          }
        } else {
          reason := "Init:" + t.reason;
        }
      } else if state.waiting.Some? && state.waiting.value != "PodInitializing" {
        reason := "Init:" + state.waiting.value;
      } else {
        reason := "Init:" + (Decimal(i) + "/" + Decimal(pod.initContainers));
      }
      initializing := true;
      break;
    }
    FirstNotZero(pod.initStatuses, i);
    if initializing {
      assert reason == InitReason(pod.initStatuses[i], i, pod.initContainers);
    } else {
      for n := 0 to |pod.statuses|
        invariant readyContainers == ReadyCount(pod.statuses[..n])
        invariant reason == match LastOverride(pod.statuses[..n]) case Some(r) => r case None => BaseReason(pod)
      {
        NextStatus(pod.statuses, n);
        var container := pod.statuses[n];
        var waiting, terminated := container.state.waiting, container.state.terminated;
        if waiting.Some? && waiting.value != "" {
          reason := waiting.value;
        } else if terminated.Some? && terminated.value.reason != "" {
          reason := terminated.value.reason;
        } else if terminated.Some? {
          if terminated.value.signal != 0 {
            reason := "Signal:" + Decimal(terminated.value.signal);
          } else {
            reason := "ExitCode:" + Decimal(terminated.value.exitCode);
          }
        } else if container.ready && container.state.running {
          readyContainers := readyContainers + 1;
        }
      }
      assert pod.statuses[..|pod.statuses|] == pod.statuses;
    }
    if pod.deleted && pod.reason == NODE_LOST {
      reason := "Unknown";
    } else if pod.deleted {
      reason := "Terminating";
    }
  }

  // ----- The last main container that decides

  /** The container waits for a reason that has a name. */
  predicate Waits(c: ContainerStatus) {
    c.state.waiting.Some? && c.state.waiting.value != ""
  }

  /** The container is ready and running, and neither terminated nor waiting for a reason. */
  predicate IsUp(c: ContainerStatus) {
    c.ready && c.state.running && c.state.terminated.None? && !Waits(c)
  }

  lemma {:induction false} LastOverrideIsLast(statuses: seq<ContainerStatus>)
    ensures LastOverride(statuses).None? <==> forall i :: 0 <= i < |statuses| ==> Override(statuses[i]).None?
    ensures LastOverride(statuses).Some? ==>
            exists i :: 0 <= i < |statuses| && Override(statuses[i]) == LastOverride(statuses)
                        && forall j :: i < j < |statuses| ==> Override(statuses[j]).None?
  {
    if statuses == [] {
    } else {
      var n := |statuses| - 1;
      if Override(statuses[n]).None? {
        LastOverrideIsLast(statuses[..n]);
        if LastOverride(statuses).Some? {
          var i :| 0 <= i < n && Override(statuses[..n][i]) == LastOverride(statuses)
                   && forall j :: i < j < n ==> Override(statuses[..n][j]).None?;
          assert Override(statuses[i]) == LastOverride(statuses);
          forall j | i < j < |statuses| ensures Override(statuses[j]).None? {
            if j < n { assert Override(statuses[..n][j]).None?; }
          }
        }
      }
    }
  }

  // ----- The text of the shown status

  /** A decimal number with an optional sign and without leading zeros. */
  predicate IsNumeral(s: string) {
    var t := if s != "" && s[0] == '-' then s[1..] else s;
    && t != "" && (forall i :: 0 <= i < |t| ==> '0' <= t[i] <= '9')
    && (|t| > 1 || s != t ==> t[0] != '0')
  }

  predicate Spells(s: string, n: int) {
    IsNumeral(s) && Number(s) == n
  }

  lemma DecimalSpells(n: int)
    ensures Spells(Decimal(n), n)
  {
    DecimalRoundTrip(n);
    DigitsOfDecimal(if n < 0 then -n else n);
    if n < 0 {
      assert Decimal(n)[1..] == Decimal(-n);
    } else if n == 0 {
      assert Decimal(0) == "0";
    }
  }

  /** The text is the title and, after it, the number. */
  predicate Titled(text: string, title: string, n: int) {
    title <= text && Spells(text[|title|..], n)
  }

  lemma TitledDecimal(title: string, n: int)
    ensures Titled(title + Decimal(n), title, n)
  {
    DecimalSpells(n);
    assert (title + Decimal(n))[|title|..] == Decimal(n);
  }

  lemma JoinTitles(a: string, b: string, c: string)
    ensures a + (b + c) == (a + b) + c
  {
  }

  lemma PrefixedDecimal(prefix: string, title: string, n: int)
    ensures Titled(prefix + (title + Decimal(n)), prefix + title, n)
  {
    var all, digits := prefix + title, Decimal(n);
    TitledDecimal(all, n);
    JoinTitles(prefix, title, digits);
  }

  /** A terminated container shows its own reason, else its signal, else its exit code. */
  predicate ShowsExit(text: string, prefix: string, t: Terminated) {
    if t.reason != "" then text == prefix + t.reason
    else if t.signal != 0 then Titled(text, prefix + "Signal:", t.signal)
    else Titled(text, prefix + "ExitCode:", t.exitCode)
  }

  lemma ExitIsShown(prefix: string, t: Terminated)
    ensures ShowsExit(prefix + ExitReason(t), prefix, t)
  {
    if t.reason == "" {
      PrefixedDecimal(prefix, "Signal:", t.signal);
      PrefixedDecimal(prefix, "ExitCode:", t.exitCode);
    }
  }

  /** A pod that is being deleted: Unknown when its node was lost, and Terminating otherwise. */
  lemma DeletedShown(pod: Pod)
    requires pod.deleted
    ensures Reason(pod) == "Unknown" <==> pod.reason == "NodeLost"
    ensures Reason(pod) == "Terminating" <==> pod.reason != "NodeLost"
  {
    assert "Unknown"[0] != "Terminating"[0];
  }

  predicate ExitedWithZero(c: ContainerStatus) {
    match c.state.terminated case Some(t) => t.exitCode == 0 case None => false
  }

  /** The text counts the init containers that are done, and those declared. */
  ghost predicate ShowsProgress(text: string, done: int, declared: int) {
    exists a, b :: text == "Init:" + a + "/" + b && Spells(a, done) && Spells(b, declared)
  }

  /** A pod whose init container k is the first that has not exited with 0: how that container terminated,
      what it waits for, or how many are done. No main container counts as ready. */
  lemma InitShown(pod: Pod, k: nat)
    requires !pod.deleted && k < |pod.initStatuses| && !ExitedWithZero(pod.initStatuses[k])
    requires forall i :: 0 <= i < k ==> ExitedWithZero(pod.initStatuses[i])
    ensures Ready(pod) == 0
    ensures match pod.initStatuses[k].state
            case ContainerState(_, _, Some(t)) => ShowsExit(Reason(pod), "Init:", t)
            case ContainerState(None, _, None) => ShowsProgress(Reason(pod), k, pod.initContainers)
            case ContainerState(Some(waiting), _, None) =>
              if waiting == "PodInitializing" then ShowsProgress(Reason(pod), k, pod.initContainers)
              else Reason(pod) == "Init:" + waiting
  {
    FirstNotZero(pod.initStatuses, k);
    var c := pod.initStatuses[k];
    if c.state.terminated.Some? {
      ExitIsShown("Init:", c.state.terminated.value);
    } else {
      DecimalSpells(k);
      DecimalSpells(pod.initContainers);
      var a, b := Decimal(k), Decimal(pod.initContainers);
      assert "Init:" + (a + "/" + b) == "Init:" + a + "/" + b;
    }
  }

  predicate Silent(c: ContainerStatus) {
    !Waits(c) && c.state.terminated.None?
  }

  /** A pod whose init containers are done: the last main container that waits or has terminated decides; when
      there is none, the reason of the pod goes before its phase. */
  lemma LiveShown(pod: Pod)
    requires !pod.deleted && forall i :: 0 <= i < |pod.initStatuses| ==> ExitedWithZero(pod.initStatuses[i])
    ensures (forall i :: 0 <= i < |pod.statuses| ==> Silent(pod.statuses[i])) ==>
              Reason(pod) == if pod.reason != "" then pod.reason else pod.phase
    ensures forall i :: 0 <= i < |pod.statuses| && !Silent(pod.statuses[i])
                        && (forall j :: i < j < |pod.statuses| ==> Silent(pod.statuses[j])) ==>
              var c := pod.statuses[i];
              if Waits(c) then Reason(pod) == c.state.waiting.value
              else ShowsExit(Reason(pod), "", c.state.terminated.value)
  {
    FirstNotZero(pod.initStatuses, |pod.initStatuses|);
    LastOverrideIsLast(pod.statuses);
    forall i | 0 <= i < |pod.statuses| && !Silent(pod.statuses[i])
               && (forall j :: i < j < |pod.statuses| ==> Silent(pod.statuses[j]))
      ensures LastOverride(pod.statuses) == Override(pod.statuses[i])
    {
      assert forall j :: i < j < |pod.statuses| ==> Override(pod.statuses[j]).None?;
    }
    forall t: Terminated ensures ShowsExit(ExitReason(t), "", t) {
      ExitIsShown("", t);
      assert "" + ExitReason(t) == ExitReason(t);
    }
  }

  /** The number of ready containers of such a pod: those that are up. */
  lemma {:induction false} ReadyIsUpCount(statuses: seq<ContainerStatus>)
    ensures ReadyCount(statuses) == |set i | 0 <= i < |statuses| && IsUp(statuses[i])|
  {
    var up := set i | 0 <= i < |statuses| && IsUp(statuses[i]);
    if statuses == [] {
      assert up == {};
    } else {
      var n := |statuses| - 1;
      ReadyIsUpCount(statuses[..n]);
      var before := set i | 0 <= i < |statuses[..n]| && IsUp(statuses[..n][i]);
      assert up == before + if IsUp(statuses[n]) then {n} else {};
    }
  }

  lemma ReadyShown(pod: Pod)
    requires forall i :: 0 <= i < |pod.initStatuses| ==> ExitedWithZero(pod.initStatuses[i])
    ensures Ready(pod) == |set i | 0 <= i < |pod.statuses| && IsUp(pod.statuses[i])|
  {
    FirstNotZero(pod.initStatuses, |pod.initStatuses|);
    ReadyIsUpCount(pod.statuses);
  }

  // ----- What the shown status says about the pod

  lemma {:induction false} AllReady(statuses: seq<ContainerStatus>)
    ensures ReadyCount(statuses) == |statuses| <==> forall i :: 0 <= i < |statuses| ==> CountsAsReady(statuses[i])
  {
    if statuses == [] {
    } else {
      AllReady(statuses[..|statuses| - 1]);
    }
  }

  /** The shown status is Running with every container ready. */
  predicate ShownHealthy(pod: Pod) {
    Reason(pod) == RUNNING && Ready(pod) == pod.containers
  }

  /** What that is meant to say of the pod. */
  predicate AllUp(pod: Pod) {
    && !pod.deleted
    && (forall i :: 0 <= i < |pod.initStatuses| ==>
          pod.initStatuses[i].state.terminated.Some? && pod.initStatuses[i].state.terminated.value.exitCode == 0)
    && |pod.statuses| == pod.containers
    && (forall i :: 0 <= i < |pod.statuses| ==> IsUp(pod.statuses[i]))
    && (pod.reason == "Running" || (pod.reason == "" && pod.phase == "Running"))
  }

  lemma InitReasonIsNotRunning(c: ContainerStatus, k: nat, n: nat)
    ensures InitReason(c, k, n) != RUNNING
  {
    assert InitReason(c, k, n)[0] == 'I' && RUNNING[0] == 'R';
  }

  /** A pod that reports no more container statuses than it has containers is shown as Running with
      all containers ready exactly when it is not being deleted, every init container exited 0,
      every container is ready and running, and no container replaced the reason of the pod. */
  lemma ShownHealthyIsAllUp(pod: Pod)
    requires |pod.statuses| <= pod.containers
    ensures ShownHealthy(pod) <==> AllUp(pod)
  {
    var k := LeadingSuccesses(pod.initStatuses);
    AllReady(pod.statuses);
    LastOverrideIsLast(pod.statuses);
    assert forall i :: 0 <= i < |pod.statuses| ==> (CountsAsReady(pod.statuses[i]) <==> IsUp(pod.statuses[i]));
    if Initializing(pod) {
      InitReasonIsNotRunning(pod.initStatuses[k], k, pod.initContainers);
    }
  }

  /** n containers that are up, and after them containers that wait without a reason. */
  function UpThenWaiting(n: nat, m: nat): seq<ContainerStatus> {
    var up := ContainerStatus(true, ContainerState(None, true, None));
    var starting := ContainerStatus(false, ContainerState(Some(""), false, None));
    seq(m, i => if i < n then up else starting)
  }

  lemma {:induction false} UpThenWaitingCount(n: nat, m: nat)
    ensures LastOverride(UpThenWaiting(n, m)).None?
    ensures ReadyCount(UpThenWaiting(n, m)) == if m < n then m else n
  {
    var statuses := UpThenWaiting(n, m);
    if m == 0 {
      assert statuses == [];
    } else {
      UpThenWaitingCount(n, m - 1);
      assert statuses[..m - 1] == UpThenWaiting(n, m - 1);
    }
  }

  /** Whatever number of containers a pod has: if it can report more statuses than that, it can be shown as
      Running with all containers ready although a container is not ready. */
  lemma ExtraStatusHidesContainer(n: nat, m: nat) returns (pod: Pod)
    requires n < m
    ensures pod.containers == n && |pod.statuses| == m && ShownHealthy(pod) && !AllUp(pod)
    ensures exists i :: 0 <= i < m && !pod.statuses[i].ready
  {
    pod := Pod("cassandra-0", "node-1", "10.244.1.2", RUNNING, "", false, n, 0, [], UpThenWaiting(n, m));
    UpThenWaitingCount(n, m);
    assert LeadingSuccesses(pod.initStatuses) == 0;
    assert !pod.statuses[n].ready;
  }

  /** For pods with n containers and m statuses the shown status means what it says exactly when m <= n. */
  lemma ShownStatusSound(n: nat, m: nat)
    ensures (forall pod: Pod :: pod.containers == n && |pod.statuses| == m && ShownHealthy(pod) ==> AllUp(pod))
            <==> m <= n
  {
    if m <= n {
      forall pod: Pod | pod.containers == n && |pod.statuses| == m && ShownHealthy(pod) ensures AllUp(pod) {
        ShownHealthyIsAllUp(pod);
      }
    } else {
      var pod := ExtraStatusHidesContainer(n, m);
      assert ShownHealthy(pod) && !AllUp(pod);
    }
  }
}
