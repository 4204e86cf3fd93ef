/** The S3 keys: access keys, the keystore, and the generator of key names and secrets. */
module Keys {
  import opened Outcomes
  import opened Base64

  /** A key string is a byte string, as strings of the original are. */
  type KeyString = Bytes

  datatype AccessKey = AccessKey(secret: KeyString, master: bool, tenant: string)

  type Keystore = map<KeyString, AccessKey>

  const MASTER_KEY_TYPE := "master"
  const TENANT_KEY_TYPE := "tenant"
  const MASTER_TENANT := "ops@gravitational.io"
  const REGULAR_TENANT := "pithos"

  const KEY_LENGTH := 40
  const SECRET_LENGTH := 20

  /** The hash of 32 random bytes; which bytes it has is not modelled. */
  type Digest = d: Bytes | |d| == 32 witness seq(32, i => 0)

  function HexDigit(v: int): byte
    requires 0 <= v < 16
  {
    if v < 10 then 48 + v else 87 + v
  }

  function Hex(d: Bytes): (s: Bytes)
    ensures |s| == 2 * |d| && forall i :: 0 <= i < |s| ==> 48 <= s[i] <= 57 || 97 <= s[i] <= 102
  {
    if d == [] then [] else [HexDigit(d[0] / 16), HexDigit(d[0] % 16)] + Hex(d[1..])
  }

  function ToUpper(s: Bytes): (u: Bytes)
    ensures |u| == |s|
  {
    seq<byte>(|s|, i requires 0 <= i < |s| => if 97 <= s[i] <= 122 then s[i] - 32 else s[i])
  }

  /** The generator fails when the source of randomness does. */
  function RandomHex(length: nat, random: Option<Digest>): Option<KeyString> {
    match random
    case None => None
    case Some(digest) => Some(Hex(digest)[..if length > 64 then 64 else length])
  }

  function GenerateKeyAndSecret(forKey: Option<Digest>, forSecret: Option<Digest>): Option<(KeyString, KeyString)> {
    match (RandomHex(KEY_LENGTH, forKey), RandomHex(SECRET_LENGTH, forSecret))
    case (Some(key), Some(secret)) => Some((ToUpper(key), ToUpper(secret)))
    case _ => None
  }

  /** Every key type but "master" gives a tenant key; the installer passes "pithos". */
  function GenerateAccessKey(keyType: string, forKey: Option<Digest>, forSecret: Option<Digest>)
    : Option<(KeyString, AccessKey)>
  {
    match GenerateKeyAndSecret(forKey, forSecret)
    case None => None
    case Some((key, secret)) =>
      var isMaster := keyType == MASTER_KEY_TYPE;
      Some((key, AccessKey(secret, isMaster, if isMaster then MASTER_TENANT else REGULAR_TENANT)))
  }

  // ----- What is generated

  function NibbleOf(c: byte): int { if c < 58 then c - 48 else if c < 97 then c - 55 else c - 87 }

  predicate UpperHex(s: Bytes) {
    forall i :: 0 <= i < |s| ==> 48 <= s[i] <= 57 || 65 <= s[i] <= 70
  }

  lemma {:induction false} HexAt(d: Bytes, i: nat)
    requires i < |d|
    ensures Hex(d)[2 * i] == HexDigit(d[i] / 16) && Hex(d)[2 * i + 1] == HexDigit(d[i] % 16)
  {
    if i == 0 {
    } else {
      HexAt(d[1..], i - 1);
    }
  }

  lemma UpperDigit(v: int)
    requires 0 <= v < 16
    ensures var c := ToUpper([HexDigit(v)])[0]; UpperHex([c]) && NibbleOf(c) == NibbleOf(HexDigit(v)) == v
  {
  }

  lemma UpperHexAt(d: Digest, n: nat, i: nat)
    requires i < n <= 32
    ensures var s := ToUpper(Hex(d)[..2 * n]);
            && UpperHex(s[2 * i..2 * i + 2])
            && d[i] == NibbleOf(s[2 * i]) * 16 + NibbleOf(s[2 * i + 1])
  {
    var hex := Hex(d)[..2 * n];
    HexAt(d, i);
    UpperDigit(d[i] / 16);
    UpperDigit(d[i] % 16);
    assert ToUpper(hex)[2 * i] == ToUpper([hex[2 * i]])[0] && ToUpper(hex)[2 * i + 1] == ToUpper([hex[2 * i + 1]])[0];
  }

  /** Two hexadecimal digits of either case are a byte; an odd digit at the end is dropped. */
  function Unhex(s: Bytes): Bytes {
    if |s| < 2 then [] else [(NibbleOf(s[0]) * 16 + NibbleOf(s[1])) % 256] + Unhex(s[2..])
  }

  lemma UnhexCons(b: byte, s: Bytes)
    requires |s| >= 2 && s[0] == HexDigit(b / 16) && s[1] == HexDigit(b % 16)
    ensures Unhex(s) == [b] + Unhex(s[2..])
  {
    UpperDigit(b / 16);
    UpperDigit(b % 16);
    assert NibbleOf(s[0]) * 16 + NibbleOf(s[1]) == b;
  }

  lemma DropPair(pair: Bytes, rest: Bytes, length: nat)
    requires |pair| == 2 <= length <= 2 + |rest|
    ensures (pair + rest)[..length][2..] == rest[..length - 2]
  {
  }

  lemma HexPrefixCons(d: Bytes, length: nat)
    requires 2 <= length <= 2 * |d|
    ensures var s := Hex(d)[..length];
            s[0] == HexDigit(d[0] / 16) && s[1] == HexDigit(d[0] % 16) && s[2..] == Hex(d[1..])[..length - 2]
  {
    DropPair([HexDigit(d[0] / 16), HexDigit(d[0] % 16)], Hex(d[1..]), length);
  }

  lemma {:induction false} UnhexPrefix(d: Bytes, length: nat)
    requires length <= 2 * |d|
    ensures Unhex(Hex(d)[..length]) == d[..length / 2]
  {
    if length < 2 {
    } else {
      UnhexPrefix(d[1..], length - 2);
      HexPrefixCons(d, length);
      UnhexCons(d[0], Hex(d)[..length]);
      assert d[..length / 2] == [d[0]] + d[1..][..(length - 2) / 2];
    }
  }

  lemma {:induction false} UpperUnhex(s: Bytes)
    requires forall i :: 0 <= i < |s| ==> 48 <= s[i] <= 57 || 97 <= s[i] <= 102
    ensures Unhex(ToUpper(s)) == Unhex(s)
  {
    if |s| < 2 {
    } else {
      UpperUnhex(s[2..]);
      assert ToUpper(s)[2..] == ToUpper(s[2..]);
    }
  }

  /** Read as hexadecimal again, the text is the beginning of the digest: one byte for every two characters that
      were asked for, and the whole digest when more are asked for than it has. */
  lemma RandomHexDecodes(length: nat, digest: Digest)
    ensures Unhex(RandomHex(length, Some(digest)).value) == digest[..if length > 64 then 32 else length / 2]
    ensures Unhex(ToUpper(RandomHex(length, Some(digest)).value)) == Unhex(RandomHex(length, Some(digest)).value)
  {
    var n := if length > 64 then 64 else length;
    UnhexPrefix(digest, n);
    UpperUnhex(RandomHex(length, Some(digest)).value);
  }

  /** A key string of upper-case hexadecimal digits that stands for the bytes. */
  predicate Writes(s: KeyString, bytes: Bytes) {
    |s| == 2 * |bytes| && UpperHex(s) && Unhex(s) == bytes
  }

  lemma UpperHexPrefix(d: Digest, n: nat)
    requires n <= 32
    ensures UpperHex(ToUpper(Hex(d)[..2 * n]))
  {
    var s := ToUpper(Hex(d)[..2 * n]);
    forall i | 0 <= i < |s| ensures 48 <= s[i] <= 57 || 65 <= s[i] <= 70 {
      UpperHexAt(d, n, i / 2);
      assert s[i] == s[2 * (i / 2)..2 * (i / 2) + 2][i % 2];
    }
  }

  lemma RandomHexWrites(d: Digest, n: nat)
    requires n <= 32
    ensures RandomHex(2 * n, Some(d)).Some? && Writes(ToUpper(RandomHex(2 * n, Some(d)).value), d[..n])
  {
    UpperHexPrefix(d, n);
    RandomHexDecodes(2 * n, d);
  }

  /** A key and its secret are generated exactly when both draws succeed. The key writes the first twenty bytes of
      its own digest in forty upper-case hexadecimal digits, and the secret the first ten of the other in twenty. */
  lemma GeneratedShape(forKey: Option<Digest>, forSecret: Option<Digest>)
    ensures GenerateKeyAndSecret(forKey, forSecret).Some? <==> forKey.Some? && forSecret.Some?
    ensures forKey.Some? && forSecret.Some? ==>
              var (key, secret) := GenerateKeyAndSecret(forKey, forSecret).value;
              && |key| == 40 && Writes(key, forKey.value[..20])
              && |secret| == 20 && Writes(secret, forSecret.value[..10])
  {
    if forKey.Some? && forSecret.Some? {
      RandomHexWrites(forKey.value, 20);
      RandomHexWrites(forSecret.value, 10);
    }
  }

  function UsualDigit(v: int): char
    requires 0 <= v < 16
  {
    "0123456789abcdef"[v]
  }

  lemma DigitsAreUsual(v: int)
    requires 0 <= v < 16
    ensures HexDigit(v) as char == UsualDigit(v)
    ensures ToUpper([HexDigit(v)])[0] as char == "0123456789ABCDEF"[v]
  {
    UpperDigit(v);
  }

  /** Every byte of the digest is two of the usual digits, the upper four bits first. */
  lemma HexText(d: Bytes, i: nat)
    requires i < |d|
    ensures Hex(d)[2 * i] as char == UsualDigit(d[i] / 16) && Hex(d)[2 * i + 1] as char == UsualDigit(d[i] % 16)
  {
    HexAt(d, i);
    DigitsAreUsual(d[i] / 16);
    DigitsAreUsual(d[i] % 16);
  }

  /** A master key has the tenant of the operators and every other key the tenant of the object store. */
  lemma GeneratedAccessKey(keyType: string, forKey: Option<Digest>, forSecret: Option<Digest>)
    ensures GenerateAccessKey(keyType, forKey, forSecret).Some? <==> forKey.Some? && forSecret.Some?
    ensures forKey.Some? && forSecret.Some? ==>
              var (name, key) := GenerateAccessKey(keyType, forKey, forSecret).value;
              && |name| == 40 && Writes(name, forKey.value[..20])
              && |key.secret| == 20 && Writes(key.secret, forSecret.value[..10])
              && key.master == (keyType == "master")
              && key.tenant == if keyType == "master" then "ops@gravitational.io" else "pithos"
  {
    GeneratedShape(forKey, forSecret);
  }

  /** Two generated names are equal exactly when the digests agree on their first twenty bytes. */
  lemma NamesEqualWhenDigestsAgree(a: Digest, b: Digest)
    ensures ToUpper(Hex(a)[..KEY_LENGTH]) == ToUpper(Hex(b)[..KEY_LENGTH]) <==> a[..20] == b[..20]
  {
    var s, t := ToUpper(Hex(a)[..KEY_LENGTH]), ToUpper(Hex(b)[..KEY_LENGTH]);
    if s == t {
      forall i | 0 <= i < 20 ensures a[i] == b[i] {
        UpperHexAt(a, 20, i);
        UpperHexAt(b, 20, i);
      }
    }
    if a[..20] == b[..20] {
      forall i | 0 <= i < KEY_LENGTH ensures s[i] == t[i] {
        assert a[i / 2] == a[..20][i / 2] == b[..20][i / 2] == b[i / 2];
        HexAt(a, i / 2);
        HexAt(b, i / 2);
        assert i == 2 * (i / 2) || i == 2 * (i / 2) + 1;
      }
    }
  }
}
