/** The install command: the keys, the Cassandra resources, the tables and the object store, in that
    order, with every step stopping the attempt when it fails and "already exists" tolerated. */
module InitApp {
  import opened Outcomes
  import opened Control
  import Lifecycle

  type Resources = set<string>

  // ----- kubectl create

  /** Creating the resources of a file one by one; those that are refused fail whether they exist or not. */
  function Existing(file: Resources, existing: Resources, refused: Resources): Resources {
    existing + (file - refused)
  }

  predicate CreateFails(file: Resources, existing: Resources, refused: Resources) {
    file * (existing + refused) != {}
  }

  /** The output of the command contains "already exists". */
  predicate SaysAlreadyExists(file: Resources, existing: Resources, refused: Resources) {
    (file - refused) * existing != {}
  }

  /** The step goes on to the next one: no error, or an output that says something already existed. */
  predicate StepPasses(file: Resources, existing: Resources, refused: Resources) {
    CreateFails(file, existing, refused) ==> SaysAlreadyExists(file, existing, refused)
  }

  /** When nothing of the file exists yet, a step passes exactly when the whole file has been created. */
  lemma FirstAttemptIsExact(file: Resources, existing: Resources, refused: Resources)
    requires file !! existing
    ensures StepPasses(file, existing, refused) <==> file <= Existing(file, existing, refused)
  {
    if r :| r in file && r in refused {
      assert r in file * (existing + refused) && r !in Existing(file, existing, refused);
    }
    assert StepPasses(file, existing, refused) || exists r :: r in file && r in refused by {
      if CreateFails(file, existing, refused) {
        var r :| r in file * (existing + refused);
        assert r in refused;
      }
    }
    assert (file - refused) * existing == {};
  }

  /** In general a passed step means that the whole file exists only if nothing that is missing was refused, or
      nothing of the rest of the file existed before: exactly then is the answer of a step reliable. */
  lemma StepReliable(file: Resources, existing: Resources, refused: Resources)
    ensures (StepPasses(file, existing, refused) ==> file <= Existing(file, existing, refused)) <==>
            (file * refused <= existing || (file - refused) * existing == {})
  {
    if !(file * refused <= existing) {
      var r :| r in file * refused && r !in existing;
      assert r in file * (existing + refused) && r !in Existing(file, existing, refused);
    }
  }

  /** So a retry hides a lasting refusal: if part of a file is refused every time, the first attempt
      fails and the second passes with the refused part missing. */
  lemma RetryHidesRefusal(file: Resources, existing: Resources, refused: Resources)
    requires file !! existing && file * refused != {} && file - refused != {}
    ensures var once := Existing(file, existing, refused);
            && !StepPasses(file, existing, refused)
            && StepPasses(file, once, refused) && !(file <= Existing(file, once, refused))
  {
    var once := Existing(file, existing, refused);
    FirstAttemptIsExact(file, existing, refused);
    var r :| r in file * refused;
    assert r !in Existing(file, once, refused) && r !in once;
    var c :| c in file - refused;
    assert c in (file - refused) * once;
  }

  // ----- One attempt

  /** The contents of the two resource files, which have nothing in common. */
  datatype Files = Files(cassandra: Resources, pithos: Resources)

  ghost predicate ValidFiles(f: Files) {
    f.cassandra != {} && f.cassandra !! f.pithos
  }

  datatype World = World(objects: State, resources: Resources, tables: bool)

  /** What the environment does to an attempt. */
  datatype Attempt = Attempt(configOk: bool, entropy: Entropy, configMapCall: Call, secretCall: Call,
                             cassandraRefused: Resources, tablesCall: Call, pithosRefused: Resources)

  ghost function AfterAttempt(w: World, f: Files, a: Attempt): (World, bool) {
    if !a.configOk then (w, false)
    else
      var (objects, created) := AfterCreate(w.objects, Generate(a.entropy), a.configMapCall, a.secretCall);
      var w1 := w.(objects := objects);
      if !created then (w1, false)
      else
        var w2 := w1.(resources := Existing(f.cassandra, w1.resources, a.cassandraRefused));
        if !StepPasses(f.cassandra, w1.resources, a.cassandraRefused) then (w2, false)
        else if a.tablesCall.Refused? then (w2, false)
        else
          var w3 := w2.(tables := true);
          if a.tablesCall.Lost? then (w3, false)
          else
            (w3.(resources := Existing(f.pithos, w3.resources, a.pithosRefused)),
             StepPasses(f.pithos, w3.resources, a.pithosRefused))
  }

  /** A step goes on when all of its resources are new and allowed, or when one that is allowed exists. */
  ghost predicate GoesOn(file: Resources, existing: Resources, refused: Resources) {
    || (forall r :: r in file ==> r !in existing && r !in refused)
    || (exists r :: r in file && r in existing && r !in refused)
  }

  lemma PassesMeansGoesOn(file: Resources, existing: Resources, refused: Resources)
    ensures StepPasses(file, existing, refused) <==> GoesOn(file, existing, refused)
  {
    assert CreateFails(file, existing, refused) <==> exists r :: r in file && (r in existing || r in refused) by {
      if r :| r in file && (r in existing || r in refused) { assert r in file * (existing + refused); }
    }
    assert SaysAlreadyExists(file, existing, refused) <==> exists r :: r in file && r in existing && r !in refused by {
      if r :| r in file && r in existing && r !in refused { assert r in (file - refused) * existing; }
    }
  }

  /** The attempt stores the keys in both objects. */
  predicate KeysStored(a: Attempt) {
    && a.configOk
    && a.entropy.masterKey.Some? && a.entropy.masterSecret.Some?
    && a.entropy.tenantKey.Some? && a.entropy.tenantSecret.Some?
    && a.configMapCall.Succeeds? && a.secretCall.Succeeds?
  }

  /** Exactly when an attempt succeeds, and which resources and tables any attempt leaves. */
  lemma AttemptOutcome(w: World, f: Files, a: Attempt)
    requires ValidFiles(f)
    ensures var (w', ok) := AfterAttempt(w, f, a);
            var started := KeysStored(a);
            var deployed := started && GoesOn(f.cassandra, w.resources, a.cassandraRefused);
            && (ok <==> deployed && a.tablesCall.Succeeds? && GoesOn(f.pithos, w.resources, a.pithosRefused))
            && (w'.tables <==> w.tables || (deployed && !a.tablesCall.Refused?))
            && (forall r :: r in w'.resources <==>
                  || r in w.resources
                  || (started && r in f.cassandra && r !in a.cassandraRefused)
                  || (deployed && a.tablesCall.Succeeds? && r in f.pithos && r !in a.pithosRefused))
  {
    GeneratedKeys(a.entropy);
    PassesMeansGoesOn(f.cassandra, w.resources, a.cassandraRefused);
    var cassandra := Existing(f.cassandra, w.resources, a.cassandraRefused);
    PassesMeansGoesOn(f.pithos, cassandra, a.pithosRefused);
    assert forall r :: r in f.pithos ==> (r in cassandra <==> r in w.resources);
  }

  /** An attempt that succeeds where nothing of the object store exists has deployed all of it. */
  lemma SuccessDeploysStore(w: World, f: Files, a: Attempt)
    requires ValidFiles(f) && w.resources !! f.pithos && AfterAttempt(w, f, a).1
    ensures f.pithos <= AfterAttempt(w, f, a).0.resources
  {
    AttemptOutcome(w, f, a);
  }

  lemma SuccessDeploysSome(w: World, f: Files, a: Attempt)
    requires ValidFiles(f) && AfterAttempt(w, f, a).1
    ensures exists r :: r in f.cassandra && r in AfterAttempt(w, f, a).0.resources
    ensures f.pithos != {} ==> exists r :: r in f.pithos && r in AfterAttempt(w, f, a).0.resources
  {
    AttemptOutcome(w, f, a);
    var c :| c in f.cassandra;
    if p :| p in f.pithos {
      assert GoesOn(f.pithos, w.resources, a.pithosRefused);
    }
  }

  class Installer {
    const api: Api
    const files: Files
    var resources: Resources
    var tables: bool

    constructor (api: Api, files: Files)
      ensures this.api == api && this.files == files && resources == {} && !tables
    {
      this.api, this.files := api, files;
      resources, tables := {}, false;
    }

    ghost function Now(): World
      reads this, api
    {
      World(api.Now(), resources, tables)
    }

    /** Creating the resources of a file; the answer is whether the attempt goes on. */
    method CreateFromFile(file: Resources, refused: Resources) returns (passes: bool)
      modifies this`resources
      ensures resources == Existing(file, old(resources), refused)
      ensures passes == StepPasses(file, old(resources), refused)
    {
      var failed := file * (resources + refused) != {};
      var alreadyExists := (file - refused) * resources != {};
      resources := resources + (file - refused);
      passes := !failed || alreadyExists;
    }

    method InitApp(a: Attempt) returns (ok: bool)
      modifies this, api
      ensures (Now(), ok) == AfterAttempt(old(Now()), files, a)
    {
      if !a.configOk {
        return false;
      }
      var controller := new Controller(map[]);
      ok := controller.CreateResources(api, a.entropy, a.configMapCall, a.secretCall);
      if !ok {
        return;
      }
      ok := CreateFromFile(files.cassandra, a.cassandraRefused);
      if !ok {
        return;
      }
      if a.tablesCall.Refused? {
        return false;
      }
      tables := true;
      if a.tablesCall.Lost? {
        return false;
      }
      ok := CreateFromFile(files.pithos, a.pithosRefused);
    }
  }

  // ----- Whole runs of attempts

  ghost function RunAttempts(f: Files, attempts: seq<Attempt>): World {
    if attempts == [] then World(State(None, None), {}, false)
    else AfterAttempt(RunAttempts(f, attempts[..|attempts| - 1]), f, attempts[|attempts| - 1]).0
  }

  /** Nothing is deployed before what it needs: the object store after the tables, the tables after
      Cassandra, Cassandra after the keys are stored in both objects. */
  ghost predicate InOrder(w: World, f: Files) {
    && (w.resources * f.pithos != {} ==> w.tables)
    && (w.tables ==> w.resources * f.cassandra != {})
    && (w.resources * f.cassandra != {} ==> w.objects.configMap.Some? && w.objects.secret.Some?)
  }

  lemma PassedStepHasSome(file: Resources, existing: Resources, refused: Resources)
    requires file != {} && StepPasses(file, existing, refused)
    ensures Existing(file, existing, refused) * file != {}
  {
    if !CreateFails(file, existing, refused) {
      var r :| r in file;
      assert r !in file * (existing + refused);
      assert r in Existing(file, existing, refused) * file;
    } else {
      var r :| r in (file - refused) * existing;
      assert r in Existing(file, existing, refused) * file;
    }
  }

  lemma AttemptKeepsOrder(w: World, f: Files, a: Attempt)
    requires ValidFiles(f) && InOrder(w, f)
    ensures InOrder(AfterAttempt(w, f, a).0, f)
  {
    var cassandra := Existing(f.cassandra, w.resources, a.cassandraRefused);
    assert cassandra * f.pithos == w.resources * f.pithos;
    assert w.resources * f.cassandra != {} ==> cassandra * f.cassandra != {} by {
      if r :| r in w.resources * f.cassandra { assert r in cassandra * f.cassandra; }
    }
    if StepPasses(f.cassandra, w.resources, a.cassandraRefused) {
      PassedStepHasSome(f.cassandra, w.resources, a.cassandraRefused);
    }
    assert Existing(f.pithos, cassandra, a.pithosRefused) * f.cassandra == cassandra * f.cassandra;
  }

  lemma {:induction false} RunsInOrder(f: Files, attempts: seq<Attempt>)
    requires ValidFiles(f)
    ensures InOrder(RunAttempts(f, attempts), f)
  {
    if attempts == [] {
    } else {
      RunsInOrder(f, attempts[..|attempts| - 1]);
      AttemptKeepsOrder(RunAttempts(f, attempts[..|attempts| - 1]), f, attempts[|attempts| - 1]);
    }
  }

  /** To the keys an attempt is one install event, or nothing, so what holds of whole runs of
      events holds of runs of attempts. */
  function EventsOf(attempts: seq<Attempt>): seq<Lifecycle.Event> {
    if attempts == [] then []
    else
      var a := attempts[|attempts| - 1];
      EventsOf(attempts[..|attempts| - 1]) +
      if a.configOk then [Lifecycle.Install(Generate(a.entropy), a.configMapCall, a.secretCall)] else []
  }

  lemma {:induction false} AttemptsAreEvents(f: Files, attempts: seq<Attempt>)
    ensures RunAttempts(f, attempts).objects == Lifecycle.Run(EventsOf(attempts))
  {
    if attempts == [] {
    } else {
      var init, a := attempts[..|attempts| - 1], attempts[|attempts| - 1];
      AttemptsAreEvents(f, init);
      var events := EventsOf(init);
      if a.configOk {
        assert EventsOf(attempts)[..|events|] == events;
      } else {
        assert EventsOf(attempts) == events;
      }
    }
  }

  lemma LastEvent(attempts: seq<Attempt>)
    requires attempts != [] && attempts[|attempts| - 1].configOk
    ensures var a, events := attempts[|attempts| - 1], EventsOf(attempts);
            && events != [] && events[..|events| - 1] == EventsOf(attempts[..|attempts| - 1])
            && events[|events| - 1] == Lifecycle.Install(Generate(a.entropy), a.configMapCall, a.secretCall)
  {
  }

  /** An attempt that exits without an error leaves the tables initialised, some of Cassandra and of the object store
      deployed, and ConfigMap and Secret in agreement exactly when its own two names differ, whatever the attempts
      before it did. */
  lemma SuccessfulInstall(f: Files, attempts: seq<Attempt>)
    requires attempts != []
    requires AfterAttempt(RunAttempts(f, attempts[..|attempts| - 1]), f, attempts[|attempts| - 1]).1
    ensures RunAttempts(f, attempts).tables
    ensures ValidFiles(f) ==> exists r :: r in f.cassandra && r in RunAttempts(f, attempts).resources
    ensures ValidFiles(f) && f.pithos != {} ==> exists r :: r in f.pithos && r in RunAttempts(f, attempts).resources
    ensures var e := attempts[|attempts| - 1].entropy;
            && Generate(e).Some?
            && (Lifecycle.Agree(RunAttempts(f, attempts).objects) <==>
                e.masterKey.value[..20] != e.tenantKey.value[..20])
  {
    var init, a := attempts[..|attempts| - 1], attempts[|attempts| - 1];
    if ValidFiles(f) {
      SuccessDeploysSome(RunAttempts(f, init), f, a);
    }
    AttemptsAreEvents(f, init);
    AttemptsAreEvents(f, attempts);
    LastEvent(attempts);
    Lifecycle.FinishedMeansAgreement(EventsOf(attempts));
    GeneratedPair(a.entropy);
  }
}
