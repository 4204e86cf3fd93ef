/** Whole runs of install attempts, updates and removals of the ConfigMap by one actor, each of which may
    fail or be stopped at any write and be retried: which keys the ConfigMap and the Secret hold. */
module Lifecycle {
  import opened Outcomes
  import opened Keys
  import opened SecretData
  import opened Control

  /** The update hook deletes the ConfigMap before it runs the update. */
  datatype Event =
    | Install(drawn: Option<Keystore>, configMapCall: Call, secretCall: Call)
    | Update(readable: bool, configMapCall: Call)
    | DeleteConfigMap

  ghost function Step(st: State, ev: Event): State {
    match ev
    case Install(drawn, cm, sec) => AfterCreate(st, drawn, cm, sec).0
    case Update(readable, cm) => AfterUpdate(st, readable, cm).0
    case DeleteConfigMap => st.(configMap := None)
  }

  /** The operation returned without an error. */
  ghost predicate Finished(st: State, ev: Event) {
    match ev
    case Install(drawn, cm, sec) => AfterCreate(st, drawn, cm, sec).1
    case Update(readable, cm) => AfterUpdate(st, readable, cm).1
    case DeleteConfigMap => false
  }

  ghost function Run(events: seq<Event>): State {
    if events == [] then State(None, None) else Step(Run(events[..|events| - 1]), events[|events| - 1])
  }

  /** Both objects exist, and reading the keys back from the Secret gives the keys of the ConfigMap. */
  ghost predicate Agree(st: State) {
    st.configMap.Some? && st.secret.Some? && Rebuild(st.secret.value) == st.configMap
  }

  // ----- What a run has written, read off its events alone

  predicate WritesConfigMap(ev: Event) {
    ev.Install? && ev.drawn.Some? && !ev.configMapCall.Refused?
  }

  predicate WritesSecret(ev: Event) {
    WritesConfigMap(ev) && ev.configMapCall.Succeeds? && !ev.secretCall.Refused?
  }

  /** The last install attempt that wrote the Secret. */
  function SecretWriter(events: seq<Event>): (w: Option<nat>)
    ensures w.Some? ==> w.value < |events| && WritesSecret(events[w.value])
                        && forall i :: w.value < i < |events| ==> !WritesSecret(events[i])
    ensures w.None? ==> forall i :: 0 <= i < |events| ==> !WritesSecret(events[i])
  {
    if events == [] then None
    else if WritesSecret(events[|events| - 1]) then Some(|events| - 1)
    else SecretWriter(events[..|events| - 1])
  }

  function KeysOf(ev: Event): Keystore
    requires WritesConfigMap(ev)
  {
    ev.drawn.value
  }

  /** The keys with which the Secret was last written. */
  function SecretKeys(events: seq<Event>): Option<Keystore> {
    match SecretWriter(events) case Some(w) => Some(KeysOf(events[w])) case None => None
  }

  /** What an update reads back from a Secret that was written with the keys. */
  ghost function ReadBack(written: Option<Keystore>): Option<Keystore> {
    match written case Some(keys) => Rebuild(DataOf(keys)) case None => None
  }

  /** An update that reaches the ConfigMap, given the keys with which the Secret was last written. */
  ghost predicate UpdateWrites(ev: Event, written: Option<Keystore>) {
    ev.Update? && ev.readable && !ev.configMapCall.Refused? && ReadBack(written).Some?
  }

  /** The keys in the ConfigMap: those of the last attempt that wrote it, or those that a later update read
      back from the Secret, unless it was deleted since. */
  ghost function ConfigMapKeys(events: seq<Event>): Option<Keystore> {
    if events == [] then None
    else
      var init, last := events[..|events| - 1], events[|events| - 1];
      if WritesConfigMap(last) then Some(KeysOf(last))
      else if UpdateWrites(last, SecretKeys(init)) then ReadBack(SecretKeys(init))
      else if last.DeleteConfigMap? then None
      else ConfigMapKeys(init)
  }

  // ----- What every run keeps

  /** The state in which the ConfigMap holds one keystore and the Secret was written with the other. */
  ghost function Held(configMap: Option<Keystore>, secret: Option<Keystore>): State {
    State(configMap, match secret case Some(keys) => Some(DataOf(keys)) case None => None)
  }

  /** One event on such a state, for every way its calls can end. */
  lemma StepHeld(c: Option<Keystore>, s: Option<Keystore>, ev: Event)
    ensures var s' := if WritesSecret(ev) then Some(KeysOf(ev)) else s;
            var c' := if WritesConfigMap(ev) then Some(KeysOf(ev))
                      else if UpdateWrites(ev, s) then ReadBack(s)
                      else if ev.DeleteConfigMap? then None else c;
            Step(Held(c, s), ev) == Held(c', s')
    ensures Finished(Held(c, s), ev) <==>
            if ev.Install? then WritesSecret(ev) && ev.secretCall.Succeeds?
            else UpdateWrites(ev, s) && ev.configMapCall.Succeeds?
  {
  }

  lemma SecretKeysSnoc(events: seq<Event>)
    requires events != []
    ensures var init, last := events[..|events| - 1], events[|events| - 1];
            SecretKeys(events) == if WritesSecret(last) then Some(KeysOf(last)) else SecretKeys(init)
  {
    var w := SecretWriter(events[..|events| - 1]);
    assert w.Some? ==> events[..|events| - 1][w.value] == events[w.value];
  }

  /** After any run the Secret holds the keys of the last attempt that wrote it, whatever updates came since,
      and the ConfigMap holds the keys it was last written with or had restored from the Secret. */
  lemma {:induction false} RunHoldsHistory(events: seq<Event>)
    ensures Run(events) == Held(ConfigMapKeys(events), SecretKeys(events))
  {
    if events == [] {
    } else {
      var init := events[..|events| - 1];
      RunHoldsHistory(init);
      SecretKeysSnoc(events);
      StepHeld(ConfigMapKeys(init), SecretKeys(init), events[|events| - 1]);
    }
  }

  lemma ReadBackKeys(written: Option<Keystore>)
    requires written.Some?
    ensures ReadBack(written) == written <==> OneOfEach(written.value)
  {
    RebuildData(written.value);
  }

  /** The ConfigMap and the Secret agree exactly when the keys in the ConfigMap are those that the keys of the
      Secret read back as: the very keys it was written with, if those are one of each kind. */
  lemma AgreementIsCommonKeys(events: seq<Event>)
    ensures Agree(Run(events)) <==> ConfigMapKeys(events).Some? && ReadBack(SecretKeys(events)) == ConfigMapKeys(events)
    ensures SecretKeys(events).Some? && OneOfEach(SecretKeys(events).value) ==>
              (Agree(Run(events)) <==> ConfigMapKeys(events) == SecretKeys(events))
    ensures Run(events).configMap == ConfigMapKeys(events)
  {
    RunHoldsHistory(events);
    if SecretKeys(events).Some? {
      ReadBackKeys(SecretKeys(events));
    }
  }

  /** When an operation finishes, the keys in the ConfigMap are those that its event left in both objects. */
  lemma FinishedKeys(events: seq<Event>)
    requires events != []
    requires Finished(Run(events[..|events| - 1]), events[|events| - 1])
    ensures var last := events[|events| - 1];
            && ConfigMapKeys(events).Some?
            && (if last.Install? then WritesSecret(last)
                                      && ConfigMapKeys(events) == SecretKeys(events) == Some(KeysOf(last))
                else ConfigMapKeys(events) == ReadBack(SecretKeys(events)))
  {
    var init, last := events[..|events| - 1], events[|events| - 1];
    RunHoldsHistory(init);
    SecretKeysSnoc(events);
    StepHeld(ConfigMapKeys(init), SecretKeys(init), last);
  }

  /** A finished operation makes the two objects agree, whatever happened before it: an update always does, and
      an install exactly when it drew one key of each kind. */
  lemma FinishedMeansAgreement(events: seq<Event>)
    requires events != []
    requires Finished(Run(events[..|events| - 1]), events[|events| - 1])
    ensures var last := events[|events| - 1];
            Agree(Run(events)) <==> (last.Install? ==> WritesConfigMap(last) && OneOfEach(KeysOf(last)))
  {
    FinishedKeys(events);
    AgreementIsCommonKeys(events);
    if SecretKeys(events).Some? {
      ReadBackKeys(SecretKeys(events));
    }
  }

  // ----- Where disagreement comes from

  /** An attempt that wrote the ConfigMap and stopped before it wrote the Secret. */
  predicate StoppedBetween(ev: Event) {
    WritesConfigMap(ev) && !WritesSecret(ev)
  }

  /** An attempt that wrote both, with keys that cannot be read back because they are not one of each kind. */
  ghost predicate WroteUnreadable(ev: Event) {
    WritesSecret(ev) && !OneOfEach(KeysOf(ev))
  }

  /** The ConfigMap holds other keys than an update would read from the Secret. */
  ghost predicate Mismatch(events: seq<Event>) {
    ConfigMapKeys(events).Some? && ConfigMapKeys(events) != ReadBack(SecretKeys(events))
  }

  /** An event that is not itself a cause leaves a mismatch as it was. */
  lemma MismatchBefore(events: seq<Event>)
    requires events != [] && Mismatch(events)
    requires !StoppedBetween(events[|events| - 1]) && !WroteUnreadable(events[|events| - 1])
    ensures Mismatch(events[..|events| - 1])
  {
    SecretKeysSnoc(events);
    if WritesSecret(events[|events| - 1]) {
      ReadBackKeys(SecretKeys(events));
    }
  }

  /** No operation after position i of the run finished. */
  ghost predicate NoneFinishedAfter(events: seq<Event>, i: nat) {
    forall j :: i < j < |events| ==> !Finished(Run(events[..j]), events[j])
  }

  lemma NoneFinishedSnoc(events: seq<Event>, i: nat)
    requires events != [] && NoneFinishedAfter(events[..|events| - 1], i)
    requires !Finished(Run(events[..|events| - 1]), events[|events| - 1])
    ensures NoneFinishedAfter(events, i)
  {
    var n := |events| - 1;
    forall j | i < j < |events| ensures !Finished(Run(events[..j]), events[j]) {
      if j < n {
        assert events[..n][..j] == events[..j] && events[..n][j] == events[j];
      }
    }
  }

  lemma FinishedIsNoMismatch(events: seq<Event>)
    requires events != [] && !WroteUnreadable(events[|events| - 1])
    requires Finished(Run(events[..|events| - 1]), events[|events| - 1])
    ensures !Mismatch(events)
  {
    FinishedKeys(events);
    if events[|events| - 1].Install? {
      ReadBackKeys(SecretKeys(events));
    }
  }

  lemma {:induction false} MismatchCause(events: seq<Event>) returns (i: nat)
    requires Mismatch(events)
    ensures i < |events| && (StoppedBetween(events[i]) || WroteUnreadable(events[i])) && NoneFinishedAfter(events, i)
  {
    var n := |events| - 1;
    if StoppedBetween(events[n]) || WroteUnreadable(events[n]) {
      i := n;
    } else {
      MismatchBefore(events);
      i := MismatchCause(events[..n]);
      if Finished(Run(events[..n]), events[n]) {
        FinishedIsNoMismatch(events);
      }
      NoneFinishedSnoc(events, i);
    }
  }

  predicate NothingWritten(events: seq<Event>) {
    forall i :: 0 <= i < |events| ==> !WritesConfigMap(events[i])
  }

  lemma {:induction false} NothingWrittenIsEmpty(events: seq<Event>)
    requires NothingWritten(events)
    ensures Run(events) == State(None, None)
  {
    if events == [] {
    } else {
      var init, last := events[..|events| - 1], events[|events| - 1];
      assert !WritesConfigMap(last);
      NothingWrittenIsEmpty(init);
      StepHeld(None, None, last);
    }
  }

  lemma {:induction false} MissingCause(events: seq<Event>) returns (i: nat)
    requires ConfigMapKeys(events).None? && !NothingWritten(events)
    ensures i < |events| && events[i].DeleteConfigMap? && NoneFinishedAfter(events, i)
  {
    var n := |events| - 1;
    if events[n].DeleteConfigMap? {
      i := n;
    } else {
      i := MissingCause(events[..n]);
      if Finished(Run(events[..n]), events[n]) {
        FinishedKeys(events);
      }
      NoneFinishedSnoc(events, i);
    }
  }

  /** What can make the two objects disagree. */
  ghost predicate Disrupts(ev: Event) {
    StoppedBetween(ev) || WroteUnreadable(ev) || ev.DeleteConfigMap?
  }

  /** After any run, if the two objects disagree, then nothing was ever written, or there was a cause and no
      operation finished since: an attempt stopped between the two writes, an attempt that drew equal names,
      or the removal of the ConfigMap. */
  lemma DisagreementCause(events: seq<Event>) returns (i: nat)
    requires !Agree(Run(events))
    ensures if NothingWritten(events) then Run(events) == State(None, None)
            else i < |events| && Disrupts(events[i]) && NoneFinishedAfter(events, i)
  {
    AgreementIsCommonKeys(events);
    i := 0;
    if NothingWritten(events) {
      NothingWrittenIsEmpty(events);
    } else if ConfigMapKeys(events).None? {
      i := MissingCause(events);
    } else {
      i := MismatchCause(events);
    }
  }

  // ----- Retrying

  /** An update whose calls succeed finishes exactly when some attempt wrote the Secret and its keys can be read
      back, and then leaves the objects agreeing on what the Secret held before. */
  lemma UpdateRepairs(events: seq<Event>)
    ensures var st, ev := Run(events), Update(true, Succeeds);
            && (Finished(st, ev) <==> ReadBack(SecretKeys(events)).Some?)
            && (Finished(st, ev) ==> Agree(Run(events + [ev])) && Run(events + [ev]).secret == st.secret)
  {
    var ev := Update(true, Succeeds);
    var all := events + [ev];
    assert all[..|events|] == events;
    RunHoldsHistory(events);
    StepHeld(ConfigMapKeys(events), SecretKeys(events), ev);
    if Finished(Run(events), ev) {
      FinishedMeansAgreement(all);
    }
  }

  /** Once the Secret holds keys without a master key, no update changes anything. */
  lemma UpdateCannotRepair(events: seq<Event>, ev: Event)
    requires ev.Update? && SecretKeys(events).Some?
    requires forall k :: k in SecretKeys(events).value ==> !SecretKeys(events).value[k].master
    ensures Step(Run(events), ev) == Run(events) && !Finished(Run(events), ev)
  {
    RunHoldsHistory(events);
    RebuildData(SecretKeys(events).value);
    StepHeld(ConfigMapKeys(events), SecretKeys(events), ev);
  }
}
