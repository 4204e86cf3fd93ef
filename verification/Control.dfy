/** Creating and updating the resources that hold the S3 keys: a ConfigMap for the object store and a
    Secret for everyone else, written one after the other. */
module Control {
  import opened Outcomes
  import opened Enumeration
  import opened Keys
  import opened SecretData

  /** What becomes of a write: it succeeds, it is refused, or it takes effect but the caller is stopped
      or sees an error. */
  datatype Call = Succeeds | Refused | Lost

  /** The keystore that the ConfigMap renders and the data of the Secret, each absent before its first write. */
  datatype State = State(configMap: Option<Keystore>, secret: Option<Data>)

  datatype Entropy = Entropy(masterKey: Option<Digest>, masterSecret: Option<Digest>,
                             tenantKey: Option<Digest>, tenantSecret: Option<Digest>)

  function Generate(e: Entropy): Option<Keystore> {
    match (GenerateAccessKey(MASTER_KEY_TYPE, e.masterKey, e.masterSecret),
           GenerateAccessKey(REGULAR_TENANT, e.tenantKey, e.tenantSecret))
    case (Some((mk, mkey)), Some((tk, tkey))) => Some(map[mk := mkey][tk := tkey])
    case _ => None
  }

  /** The data that a keystore is stored as. */
  ghost function DataOf(keys: Keystore): Data {
    EnumerationExists(keys);
    var order :| Enumerates(order, keys);
    Stored(order, keys)
  }

  ghost predicate AtMostOneOfEach(keys: Keystore) {
    forall a, b :: a in keys && b in keys && keys[a].master == keys[b].master ==> a == b
  }

  lemma {:induction false} StoredFields(order: seq<KeyString>, keys: Keystore)
    requires forall i :: 0 <= i < |order| ==> order[i] in keys
    ensures Stored(order, keys).Keys <= {"master.key", "master.secret", "tenant.key", "tenant.secret"}
  {
    if order == [] {
    } else {
      StoredFields(order[..|order| - 1], keys);
    }
  }

  predicate SameAt(x: Data, y: Data, field: string) {
    (field in x <==> field in y) && (field in x ==> x[field] == y[field])
  }

  lemma EqualData(x: Data, y: Data)
    requires x.Keys + y.Keys <= {"master.key", "master.secret", "tenant.key", "tenant.secret"}
    requires SameAt(x, y, "master.key") && SameAt(x, y, "master.secret")
    requires SameAt(x, y, "tenant.key") && SameAt(x, y, "tenant.secret")
    ensures x == y
  {
    assert forall f :: f in x.Keys + y.Keys ==> SameAt(x, y, f);
    assert x.Keys == y.Keys;
  }

  lemma SameKind(keys: Keystore, a: seq<KeyString>, b: seq<KeyString>, master: bool)
    requires AtMostOneOfEach(keys) && Enumerates(a, keys) && Enumerates(b, keys)
    ensures var t := if master then MASTER_KEY_TYPE else TENANT_KEY_TYPE;
            var x, y := Stored(a, keys), Stored(b, keys);
            SameAt(x, y, Field(t, "key")) && SameAt(x, y, Field(t, "secret"))
  {
    StoredMeaning(a, keys, master);
    StoredMeaning(b, keys, master);
    if k :| k in keys && keys[k].master == master {
      StoredKey(keys, a, k);
      StoredKey(keys, b, k);
    }
  }

  /** With at most one key of each kind the order of the template does not matter. */
  lemma AnyOrder(keys: Keystore, order: seq<KeyString>)
    requires AtMostOneOfEach(keys) && Enumerates(order, keys)
    ensures Stored(order, keys) == DataOf(keys)
  {
    EnumerationExists(keys);
    var other :| Enumerates(other, keys) && DataOf(keys) == Stored(other, keys);
    StoredFields(order, keys);
    StoredFields(other, keys);
    SameKind(keys, order, other, true);
    SameKind(keys, order, other, false);
    FieldsDiffer();
    EqualData(Stored(order, keys), Stored(other, keys));
  }

  // ----- The two operations as functions of the state

  /** Creating the resources with the keys that were drawn, if drawing them did not fail. */
  ghost function AfterCreate(st: State, drawn: Option<Keystore>, configMap: Call, secret: Call): (State, bool) {
    match drawn
    case None => (st, false)
    case Some(keys) =>
      if configMap.Refused? then (st, false)
      else
        var written := st.(configMap := Some(keys));
        if configMap.Lost? || secret.Refused? then (written, false)
        else (written.(secret := Some(DataOf(keys))), secret.Succeeds?)
  }

  ghost function AfterUpdate(st: State, readable: bool, configMap: Call): (State, bool) {
    if !readable || st.secret.None? || Rebuild(st.secret.value).None? || configMap.Refused? then (st, false)
    else (st.(configMap := Rebuild(st.secret.value)), configMap.Succeeds?)
  }

  lemma GeneratedKinds(e: Entropy)
    requires Generate(e).Some?
    ensures AtMostOneOfEach(Generate(e).value)
  {
    var (mk, mkey) := GenerateAccessKey(MASTER_KEY_TYPE, e.masterKey, e.masterSecret).value;
    var (tk, tkey) := GenerateAccessKey(REGULAR_TENANT, e.tenantKey, e.tenantSecret).value;
    assert MASTER_KEY_TYPE[0] == 'm' && REGULAR_TENANT[0] == 'p';
    assert mkey.master && !tkey.master;
  }

  /** What is drawn: nothing if one of the four draws fails, and otherwise a master key and a tenant key, each named
      after its own digest and with the secret of its own digest. The tenant key is put last. */
  lemma GeneratedKeys(e: Entropy)
    ensures Generate(e).Some? <==>
            e.masterKey.Some? && e.masterSecret.Some? && e.tenantKey.Some? && e.tenantSecret.Some?
    ensures Generate(e).Some? ==>
              exists mk, ms, tk, ts ::
                && Generate(e).value == map[mk := AccessKey(ms, true, "ops@gravitational.io")]
                                           [tk := AccessKey(ts, false, "pithos")]
                && Writes(mk, e.masterKey.value[..20]) && Writes(ms, e.masterSecret.value[..10])
                && Writes(tk, e.tenantKey.value[..20]) && Writes(ts, e.tenantSecret.value[..10])
  {
    GeneratedAccessKey(MASTER_KEY_TYPE, e.masterKey, e.masterSecret);
    GeneratedAccessKey(REGULAR_TENANT, e.tenantKey, e.tenantSecret);
    assert "master"[0] != "pithos"[0];
    if Generate(e).Some? {
      var (mk, mkey) := GenerateAccessKey(MASTER_KEY_TYPE, e.masterKey, e.masterSecret).value;
      var (tk, tkey) := GenerateAccessKey(REGULAR_TENANT, e.tenantKey, e.tenantSecret).value;
      assert Writes(mk, e.masterKey.value[..20]) && Writes(mkey.secret, e.masterSecret.value[..10]);
      assert Writes(tk, e.tenantKey.value[..20]) && Writes(tkey.secret, e.tenantSecret.value[..10]);
      assert mkey == AccessKey(mkey.secret, true, "ops@gravitational.io");
      assert tkey == AccessKey(tkey.secret, false, "pithos");
    }
  }

  lemma PairOfKeys(mk: KeyString, mkey: AccessKey, tk: KeyString, tkey: AccessKey)
    requires mkey.master && mkey.tenant == MASTER_TENANT && !tkey.master && tkey.tenant == REGULAR_TENANT
    ensures var keys := map[mk := mkey][tk := tkey];
            && (OneOfEach(keys) <==> mk != tk)
            && (mk == tk ==> forall k :: k in keys ==> !keys[k].master)
  {
    var keys := map[mk := mkey][tk := tkey];
    assert keys.Keys == {mk, tk};
    if mk != tk {
      assert keys[mk] == mkey && keys[tk] == tkey && |keys.Keys| == 2;
    }
  }

  /** The keystore that is drawn has a master key and a tenant key, unless the two names are the same, which
      happens exactly when their digests agree on the first twenty bytes; then the tenant key alone is left. */
  lemma GeneratedPair(e: Entropy)
    requires Generate(e).Some?
    ensures OneOfEach(Generate(e).value) <==> e.masterKey.value[..20] != e.tenantKey.value[..20]
    ensures !OneOfEach(Generate(e).value) ==> forall k :: k in Generate(e).value ==> !Generate(e).value[k].master
  {
    var (mk, mkey) := GenerateAccessKey(MASTER_KEY_TYPE, e.masterKey, e.masterSecret).value;
    var (tk, tkey) := GenerateAccessKey(REGULAR_TENANT, e.tenantKey, e.tenantSecret).value;
    NamesEqualWhenDigestsAgree(e.masterKey.value, e.tenantKey.value);
    assert MASTER_KEY_TYPE[0] == 'm' && REGULAR_TENANT[0] == 'p';
    PairOfKeys(mk, mkey, tk, tkey);
  }

  /** The keys are read back from the Secret they were stored in exactly when there is one of each kind. */
  lemma RebuildData(keys: Keystore)
    ensures Rebuild(DataOf(keys)) == Some(keys) <==> OneOfEach(keys)
    ensures (forall k :: k in keys ==> !keys[k].master) ==> Rebuild(DataOf(keys)) == None
  {
    EnumerationExists(keys);
    var order :| Enumerates(order, keys) && DataOf(keys) == Stored(order, keys);
    SecretRoundTrip(keys, order);
    if forall k :: k in keys ==> !keys[k].master {
      OneKeyDoesNotRebuild(keys, order);
    }
  }

  // ----- The operations

  /** The objects as the API server keeps them. */
  class Api {
    var configMap: Option<Keystore>
    var secret: Option<Data>

    constructor ()
      ensures configMap == None && secret == None
    {
      configMap, secret := None, None;
    }

    ghost function Now(): State
      reads this
    {
      State(configMap, secret)
    }

    method UpsertConfigMap(keys: Keystore, call: Call) returns (ok: bool)
      modifies this`configMap
      ensures ok == call.Succeeds?
      ensures configMap == if call.Refused? then old(configMap) else Some(keys)
    {
      if !call.Refused? {
        configMap := Some(keys);
      }
      ok := call.Succeeds?;
    }

    method UpsertSecret(data: Data, call: Call) returns (ok: bool)
      modifies this`secret
      ensures ok == call.Succeeds?
      ensures secret == if call.Refused? then old(secret) else Some(data)
    {
      if !call.Refused? {
        secret := Some(data);
      }
      ok := call.Succeeds?;
    }
  }

  /** Executing the Secret template, in some order of the keys, and parsing its output. */
  method RenderSecret(keys: Keystore) returns (data: Option<Data>)
    requires AtMostOneOfEach(keys)
    ensures data == Some(DataOf(keys))
  {
    var order := RangeOver(keys);
    DecodeRender(order, keys);
    AnyOrder(keys, order);
    data := DecodeLines(Render(order, keys));
  }

  class Controller {
    var keys: Keystore

    constructor (initial: Keystore)
      ensures keys == initial
    {
      keys := initial;
    }

    /** Two new keys, then the ConfigMap, then the Secret; the first failure ends the call. */
    method CreateResources(api: Api, e: Entropy, configMapCall: Call, secretCall: Call) returns (ok: bool)
      modifies this, api
      ensures (api.Now(), ok) == AfterCreate(old(api.Now()), Generate(e), configMapCall, secretCall)
      ensures keys == match Generate(e) case Some(generated) => generated case None => old(keys)
    {
      var created: Keystore := map[];
      var master := GenerateAccessKey(MASTER_KEY_TYPE, e.masterKey, e.masterSecret);
      if master.None? {
        return false;
      }
      created := created[master.value.0 := master.value.1];
      var tenant := GenerateAccessKey(REGULAR_TENANT, e.tenantKey, e.tenantSecret);
      if tenant.None? {
        return false;
      }
      created := created[tenant.value.0 := tenant.value.1];
      keys := created;
      GeneratedKinds(e);
      ok := api.UpsertConfigMap(keys, configMapCall);
      if !ok {
        return;
      }
      var data := RenderSecret(keys);
      ok := api.UpsertSecret(data.value, secretCall);
    }
  }

  /** The configuration that an update is given and fills. */
  class Config {
    var keys: Keystore

    constructor ()
      ensures keys == map[]
    {
      keys := map[];
    }
  }

  /** What an update leaves in the configuration: the keys it read before it failed, or both. */
  function ReadKeys(data: Data): Keystore {
    match (ParseSecret(data, MASTER_KEY_TYPE), ParseSecret(data, TENANT_KEY_TYPE))
    case (Some((mk, mkey)), Some((tk, tkey))) => map[mk := mkey][tk := tkey]
    case (Some((mk, mkey)), None) => map[mk := mkey]
    case (None, _) => map[]
  }

  /** Whatever the Secret holds: nothing without a complete master key, that key alone without a complete tenant
      key, and otherwise what the Secret is read back as. */
  lemma ReadBeforeFailure(data: Data)
    ensures "master.key" !in data || "master.secret" !in data ==> ReadKeys(data) == map[]
    ensures "master.key" in data && "master.secret" in data && ("tenant.key" !in data || "tenant.secret" !in data) ==>
              ReadKeys(data) ==
              map[data["master.key"] := AccessKey(data["master.secret"], true, "ops@gravitational.io")]
    ensures Rebuild(data).Some? ==> Some(ReadKeys(data)) == Rebuild(data)
  {
    FieldsDiffer();
    assert "master"[0] != "tenant"[0];
  }

  /** The keys are read back from the Secret and the ConfigMap is rebuilt from them. */
  method Update(config: Config, api: Api, readable: bool, configMapCall: Call) returns (ok: bool)
    modifies config, api`configMap
    ensures (api.Now(), ok) == AfterUpdate(old(api.Now()), readable, configMapCall)
    ensures config.keys == if !readable || api.secret.None? then old(config.keys) else ReadKeys(api.secret.value)
    ensures ok ==> api.configMap == Some(config.keys)
  {
    if !readable || api.secret.None? {
      return false;
    }
    var secret := api.secret.value;
    config.keys := map[];
    var parsed := ParseSecret(secret, MASTER_KEY_TYPE);
    if parsed.None? {
      return false;
    }
    config.keys := config.keys[parsed.value.0 := parsed.value.1];
    parsed := ParseSecret(secret, TENANT_KEY_TYPE);
    if parsed.None? {
      return false;
    }
    config.keys := config.keys[parsed.value.0 := parsed.value.1];
    ok := api.UpsertConfigMap(config.keys, configMapCall);
  }
}
