/** The Secret that keeps the keystore: rendering the keys as base64 data, and reading them back. */
module SecretData {
  import opened Outcomes
  import opened Base64
  import opened Enumeration
  import opened Keys

  /** The data of a Secret as the API stores it, decoded. */
  type Data = map<string, Bytes>

  function Field(keyType: string, what: string): string { keyType + "." + what }

  lemma FieldsDiffer()
    ensures Field(MASTER_KEY_TYPE, "key") == "master.key" && Field(MASTER_KEY_TYPE, "secret") == "master.secret"
    ensures Field(TENANT_KEY_TYPE, "key") == "tenant.key" && Field(TENANT_KEY_TYPE, "secret") == "tenant.secret"
    ensures |{"master.key", "master.secret", "tenant.key", "tenant.secret"}| == 4
  {
    assert "master.key"[0] == 'm' && "tenant.key"[0] == 't' && "master.secret"[0] == 'm' && "tenant.secret"[0] == 't';
    assert |"master.key"| == 10 && |"master.secret"| == 13 && |"tenant.key"| == 10 && |"tenant.secret"| == 13;
  }

  /** The two lines that the template writes for a key. */
  function Lines(name: KeyString, key: AccessKey): seq<(string, string)> {
    if key.master then [("master.key", Encode(name)), ("master.secret", Encode(key.secret))]
    else [("tenant.key", Encode(name)), ("tenant.secret", Encode(key.secret))]
  }

  /** The template ranges over the keystore in some order of its names. */
  function Render(order: seq<KeyString>, keys: Keystore): seq<(string, string)>
    requires forall i :: 0 <= i < |order| ==> order[i] in keys
  {
    if order == [] then []
    else Render(order[..|order| - 1], keys) + Lines(order[|order| - 1], keys[order[|order| - 1]])
  }

  /** Decoding the rendered values; a later line replaces an earlier one with the same name. */
  function DecodeLines(lines: seq<(string, string)>): Option<Data> {
    if lines == [] then Some(map[])
    else
      match (DecodeLines(lines[..|lines| - 1]), Decode(lines[|lines| - 1].1))
      case (Some(data), Some(value)) => Some(data[lines[|lines| - 1].0 := value])
      case _ => None
  }

  function ParseSecret(data: Data, keyType: string): Option<(KeyString, AccessKey)> {
    if Field(keyType, "key") !in data || Field(keyType, "secret") !in data then None
    else
      var master := keyType == MASTER_KEY_TYPE;
      Some((data[Field(keyType, "key")],
            AccessKey(data[Field(keyType, "secret")], master, if master then MASTER_TENANT else REGULAR_TENANT)))
  }

  /** The keystore that an update reads from the Secret. */
  function Rebuild(data: Data): Option<Keystore> {
    match (ParseSecret(data, MASTER_KEY_TYPE), ParseSecret(data, TENANT_KEY_TYPE))
    case (Some((mk, mkey)), Some((tk, tkey))) => Some(map[mk := mkey][tk := tkey])
    case _ => None
  }

  // ----- The data that the rendering stands for

  function WithKey(data: Data, name: KeyString, key: AccessKey): Data {
    if key.master then data["master.key" := name]["master.secret" := key.secret]
    else data["tenant.key" := name]["tenant.secret" := key.secret]
  }

  function Stored(order: seq<KeyString>, keys: Keystore): Data
    requires forall i :: 0 <= i < |order| ==> order[i] in keys
  {
    if order == [] then map[]
    else WithKey(Stored(order[..|order| - 1], keys), order[|order| - 1], keys[order[|order| - 1]])
  }

  lemma DecodeSnoc(lines: seq<(string, string)>, field: string, value: Bytes)
    requires DecodeLines(lines).Some?
    ensures DecodeLines(lines + [(field, Encode(value))]) == Some(DecodeLines(lines).value[field := value])
  {
    DecodeEncode(value);
    assert (lines + [(field, Encode(value))])[..|lines|] == lines;
  }

  /** Decoding the rendered lines gives the stored data, for every order and every keystore. */
  lemma {:induction false} DecodeRender(order: seq<KeyString>, keys: Keystore)
    requires forall i :: 0 <= i < |order| ==> order[i] in keys
    ensures DecodeLines(Render(order, keys)) == Some(Stored(order, keys))
  {
    if order == [] {
    } else {
      var init, name := order[..|order| - 1], order[|order| - 1];
      DecodeRender(init, keys);
      var lines, added := Render(init, keys), Lines(name, keys[name]);
      DecodeSnoc(lines, added[0].0, name);
      DecodeSnoc(lines + [added[0]], added[1].0, keys[name].secret);
      assert lines + added == (lines + [added[0]]) + [added[1]];
    }
  }

  /** What is stored under the given kind is a key of that kind, and nothing only when there is none. */
  ghost predicate StoresKind(data: Data, order: seq<KeyString>, keys: Keystore, master: bool)
    requires forall i :: 0 <= i < |order| ==> order[i] in keys
  {
    var t := if master then MASTER_KEY_TYPE else TENANT_KEY_TYPE;
    if forall i :: 0 <= i < |order| ==> keys[order[i]].master != master
    then Field(t, "key") !in data && Field(t, "secret") !in data
    else exists i :: 0 <= i < |order| && keys[order[i]].master == master
                     && Field(t, "key") in data && data[Field(t, "key")] == order[i]
                     && Field(t, "secret") in data && data[Field(t, "secret")] == keys[order[i]].secret
  }

  lemma {:induction false} StoredMeaning(order: seq<KeyString>, keys: Keystore, master: bool)
    requires forall i :: 0 <= i < |order| ==> order[i] in keys
    ensures StoresKind(Stored(order, keys), order, keys, master)
  {
    FieldsDiffer();
    if order == [] {
    } else {
      var n := |order| - 1;
      var init := order[..n];
      StoredMeaning(init, keys, master);
      assert forall i :: 0 <= i < n ==> init[i] == order[i];
      if keys[order[n]].master != master && exists i :: 0 <= i < n && keys[order[i]].master == master {
        var i :| 0 <= i < n && keys[order[i]].master == master;
        assert keys[init[i]].master == master;
      }
    }
  }

  predicate LinesAt(lines: seq<(string, string)>, i: nat, name: KeyString, key: AccessKey) {
    && 2 * i + 1 < |lines|
    && lines[2 * i] == (if key.master then "master.key" else "tenant.key", Encode(name))
    && lines[2 * i + 1] == (if key.master then "master.secret" else "tenant.secret", Encode(key.secret))
  }

  lemma LinesSnoc(lines: seq<(string, string)>, order: seq<KeyString>, keys: Keystore, last: KeyString)
    requires |lines| == 2 * |order| && last in keys && forall i :: 0 <= i < |order| ==> order[i] in keys
    requires forall i :: 0 <= i < |order| ==> LinesAt(lines, i, order[i], keys[order[i]])
    ensures var more, all := lines + Lines(last, keys[last]), order + [last];
            |more| == 2 * |all| && forall i :: 0 <= i < |all| ==> LinesAt(more, i, all[i], keys[all[i]])
  {
    var more, all := lines + Lines(last, keys[last]), order + [last];
    forall i | 0 <= i < |all| ensures LinesAt(more, i, all[i], keys[all[i]]) {
      if i < |order| {
        assert LinesAt(lines, i, order[i], keys[order[i]]);
      }
    }
  }

  /** The rendered lines: two for each key in the order, under the names of its kind, in base64. */
  lemma {:induction false} RenderedLines(order: seq<KeyString>, keys: Keystore)
    requires forall i :: 0 <= i < |order| ==> order[i] in keys
    ensures |Render(order, keys)| == 2 * |order|
    ensures forall i :: 0 <= i < |order| ==> LinesAt(Render(order, keys), i, order[i], keys[order[i]])
  {
    if order == [] {
    } else {
      var n := |order| - 1;
      var init, last := order[..n], order[n];
      RenderedLines(init, keys);
      LinesSnoc(Render(init, keys), init, keys, last);
      assert init + [last] == order;
    }
  }

  // ----- The round trip

  /** One master key of the operations tenant and one key of the regular tenant. */
  ghost predicate OneOfEach(keys: Keystore) {
    && |keys| == 2
    && (exists k :: k in keys && keys[k].master)
    && (exists k :: k in keys && !keys[k].master)
    && (forall k :: k in keys ==> keys[k].tenant == if keys[k].master then MASTER_TENANT else REGULAR_TENANT)
  }

  lemma TwoKeys(keys: Keystore, mk: KeyString, tk: KeyString)
    requires |keys| == 2 && mk in keys && tk in keys && mk != tk
    ensures keys == map[mk := keys[mk]][tk := keys[tk]] && keys.Keys == {mk, tk}
  {
    var rest := keys.Keys - {mk, tk};
    assert keys.Keys == rest + {mk, tk} && |{mk, tk}| == 2;
    assert |rest| == 0;
  }

  lemma StoredKey(keys: Keystore, order: seq<KeyString>, k: KeyString)
    requires Enumerates(order, keys) && k in keys
    requires forall x :: x in keys && keys[x].master == keys[k].master ==> x == k
    ensures var t := if keys[k].master then MASTER_KEY_TYPE else TENANT_KEY_TYPE;
            var data := Stored(order, keys);
            && Field(t, "key") in data && data[Field(t, "key")] == k
            && Field(t, "secret") in data && data[Field(t, "secret")] == keys[k].secret
  {
    StoredMeaning(order, keys, keys[k].master);
    var i :| 0 <= i < |order| && order[i] == k;
    assert keys[order[i]].master == keys[k].master;
  }

  lemma OnlyOneOfKind(keys: Keystore, mk: KeyString, tk: KeyString)
    requires mk in keys && keys[mk].master && tk in keys && !keys[tk].master && keys.Keys == {mk, tk}
    ensures forall x :: x in keys && keys[x].master ==> x == mk
    ensures forall x :: x in keys && !keys[x].master ==> x == tk
  {
  }

  lemma RebuildFields(data: Data)
    requires Field(MASTER_KEY_TYPE, "key") in data && Field(MASTER_KEY_TYPE, "secret") in data
    requires Field(TENANT_KEY_TYPE, "key") in data && Field(TENANT_KEY_TYPE, "secret") in data
    ensures var master := AccessKey(data[Field(MASTER_KEY_TYPE, "secret")], true, MASTER_TENANT);
            var tenant := AccessKey(data[Field(TENANT_KEY_TYPE, "secret")], false, REGULAR_TENANT);
            Rebuild(data) ==
            Some(map[data[Field(MASTER_KEY_TYPE, "key")] := master][data[Field(TENANT_KEY_TYPE, "key")] := tenant])
  {
    assert MASTER_KEY_TYPE[0] != TENANT_KEY_TYPE[0];
  }

  lemma BothKeysRebuild(keys: Keystore, order: seq<KeyString>, mk: KeyString, tk: KeyString)
    requires Enumerates(order, keys) && OneOfEach(keys)
    requires mk in keys && keys[mk].master && tk in keys && !keys[tk].master
    ensures Rebuild(Stored(order, keys)) == Some(keys)
  {
    TwoKeys(keys, mk, tk);
    OnlyOneOfKind(keys, mk, tk);
    StoredKey(keys, order, mk);
    StoredKey(keys, order, tk);
    RebuildFields(Stored(order, keys));
    assert keys[mk] == AccessKey(keys[mk].secret, true, MASTER_TENANT);
    assert keys[tk] == AccessKey(keys[tk].secret, false, REGULAR_TENANT);
  }

  /** The four fields of a Secret that holds one key of each kind. */
  lemma SecretContents(keys: Keystore, order: seq<KeyString>, mk: KeyString, tk: KeyString)
    requires Enumerates(order, keys) && OneOfEach(keys)
    requires mk in keys && keys[mk].master && tk in keys && !keys[tk].master
    ensures var data := Stored(order, keys);
            && "master.key" in data && data["master.key"] == mk
            && "master.secret" in data && data["master.secret"] == keys[mk].secret
            && "tenant.key" in data && data["tenant.key"] == tk
            && "tenant.secret" in data && data["tenant.secret"] == keys[tk].secret
  {
    FieldsDiffer();
    TwoKeys(keys, mk, tk);
    OnlyOneOfKind(keys, mk, tk);
    StoredKey(keys, order, mk);
    StoredKey(keys, order, tk);
  }

  /** What an update reads: it needs all four fields, and the kind of a key decides its tenant. */
  lemma RebuildReads(data: Data)
    ensures Rebuild(data).Some? <==>
            "master.key" in data && "master.secret" in data && "tenant.key" in data && "tenant.secret" in data
    ensures Rebuild(data).Some? ==>
              Rebuild(data).value ==
              map[data["master.key"] := AccessKey(data["master.secret"], true, "ops@gravitational.io")]
                 [data["tenant.key"] := AccessKey(data["tenant.secret"], false, "pithos")]
  {
    FieldsDiffer();
    if Rebuild(data).Some? {
      RebuildFields(data);
    }
  }

  lemma OneKeyDoesNotRebuild(keys: Keystore, order: seq<KeyString>)
    requires Enumerates(order, keys) && forall k :: k in keys ==> !keys[k].master
    ensures Rebuild(Stored(order, keys)) == None
  {
    StoredMeaning(order, keys, true);
  }

  lemma RebuiltShape(data: Data, keys: Keystore)
    requires Rebuild(data) == Some(keys)
    ensures OneOfEach(keys) <==> data[Field(MASTER_KEY_TYPE, "key")] != data[Field(TENANT_KEY_TYPE, "key")]
    ensures !OneOfEach(keys) ==> exists k :: keys.Keys == {k} && !keys[k].master
  {
    var (mk, mkey) := ParseSecret(data, MASTER_KEY_TYPE).value;
    var (tk, tkey) := ParseSecret(data, TENANT_KEY_TYPE).value;
    assert MASTER_KEY_TYPE[0] != TENANT_KEY_TYPE[0];
    assert keys.Keys == {mk, tk} && !keys[tk].master;
    if mk != tk { assert keys[mk].master; }
    if mk == tk { assert keys.Keys == {tk}; }
  }

  /** Rendering a keystore in any order, decoding it and reading both keys back gives the keystore
      again if and only if it holds exactly one master key and one tenant key with their fixed tenants. */
  lemma SecretRoundTrip(keys: Keystore, order: seq<KeyString>)
    requires Enumerates(order, keys)
    ensures DecodeLines(Render(order, keys)) == Some(Stored(order, keys))
    ensures Rebuild(Stored(order, keys)) == Some(keys) <==> OneOfEach(keys)
  {
    DecodeRender(order, keys);
    if OneOfEach(keys) {
      var mk :| mk in keys && keys[mk].master;
      var tk :| tk in keys && !keys[tk].master;
      BothKeysRebuild(keys, order, mk, tk);
    } else if Rebuild(Stored(order, keys)) == Some(keys) {
      RebuiltShape(Stored(order, keys), keys);
      var k :| keys.Keys == {k} && !keys[k].master;
      OneKeyDoesNotRebuild(keys, order);
    }
  }
}
