/** Base64 with padding, as section 4 of RFC 4648 defines it. The encoder is the one key strings are
    rendered with; the decoder is what reads the Secret back. */
module Base64 {
  import opened Outcomes

  type byte = b: int | 0 <= b < 256
  type Bytes = seq<byte>
  type sextet = v: int | 0 <= v < 64

  function Symbol(v: sextet): char {
    if v < 26 then (v + 65) as char
    else if v < 52 then (v + 71) as char
    else if v < 62 then (v - 4) as char
    else if v == 62 then '+' else '/'
  }

  function Value(c: char): Option<sextet> {
    if 'A' <= c <= 'Z' then Some(c as int - 65)
    else if 'a' <= c <= 'z' then Some(c as int - 71)
    else if '0' <= c <= '9' then Some(c as int + 4)
    else if c == '+' then Some(62) else if c == '/' then Some(63) else None
  }

  /** Three bytes as four groups of six bits, and back. */
  datatype Quad = Quad(p: sextet, q: sextet, r: sextet, t: sextet)

  function QuadOf(a: byte, b: byte, c: byte): Quad {
    Quad(a / 4, a % 4 * 16 + b / 16, b % 16 * 4 + c / 64, c % 64)
  }

  function BytesOf(g: Quad): (bytes: Bytes)
    ensures |bytes| == 3
  {
    [g.p * 4 + g.q / 16, g.q % 16 * 16 + g.r / 4, g.r % 4 * 64 + g.t]
  }

  function Spell(values: seq<sextet>): (s: string)
    ensures |s| == |values|
  {
    seq(|values|, i requires 0 <= i < |values| => Symbol(values[i]))
  }

  function Symbols(g: Quad): (s: string)
    ensures |s| == 4
  {
    Spell([g.p, g.q, g.r, g.t])
  }

  function Values(s: string): Option<Quad>
    requires |s| == 4
  {
    match (Value(s[0]), Value(s[1]), Value(s[2]), Value(s[3]))
    case (Some(p), Some(q), Some(r), Some(t)) => Some(Quad(p, q, r, t))
    case _ => None
  }

  function Encode(b: Bytes): string {
    if |b| == 0 then ""
    else if |b| == 1 then Symbols(QuadOf(b[0], 0, 0))[..2] + "=="
    else if |b| == 2 then Symbols(QuadOf(b[0], b[1], 0))[..3] + "="
    else Symbols(QuadOf(b[0], b[1], b[2])) + Encode(b[3..])
  }

  /** Four characters; only those at the end of a text may be padding. */
  function DecodeQuad(s: string, last: bool): Option<Bytes>
    requires |s| == 4
  {
    if last && s[2] == s[3] == '=' then
      match Values(s[..2] + "AA") case Some(g) => Some(BytesOf(g)[..1]) case None => None
    else if last && s[3] == '=' then
      match Values(s[..3] + "A") case Some(g) => Some(BytesOf(g)[..2]) case None => None
    else
      match Values(s) case Some(g) => Some(BytesOf(g)) case None => None
  }

  function Decode(s: string): Option<Bytes> {
    if s == "" then Some([])
    else if |s| < 4 then None
    else
      match (DecodeQuad(s[..4], |s| == 4), Decode(s[4..]))
      case (Some(bytes), Some(rest)) => Some(bytes + rest)
      case _ => None
  }

  lemma SplitSixteen(x: nat, y: nat)
    requires y < 16
    ensures (x * 16 + y) / 16 == x && (x * 16 + y) % 16 == y
  {
  }

  lemma SplitFour(x: nat, y: nat)
    requires y < 4
    ensures (x * 4 + y) / 4 == x && (x * 4 + y) % 4 == y
  {
  }

  /** The four groups are the 24 bits of the three bytes, most significant first. */
  lemma QuadIsGroup(a: byte, b: byte, c: byte)
    ensures var g := QuadOf(a, b, c);
            g.p * 0x40000 + g.q * 0x1000 + g.r * 0x40 + g.t == a * 0x10000 + b * 0x100 + c
    ensures BytesOf(QuadOf(a, b, c)) == [a, b, c]
  {
    var g := QuadOf(a, b, c);
    SplitSixteen(a % 4, b / 16);
    SplitFour(b % 16, c / 64);
    assert g.q / 16 == a % 4 && g.q % 16 == b / 16 && g.r / 4 == b % 16 && g.r % 4 == c / 64;
  }

  lemma ValueOfSymbol(v: sextet)
    ensures Value(Symbol(v)) == Some(v) && Symbol(v) != '='
  {
  }

  lemma ValuesOfSymbols(g: Quad)
    ensures Values(Symbols(g)) == Some(g)
    ensures forall i :: 0 <= i < 4 ==> Symbols(g)[i] != '='
  {
    ValueOfSymbol(g.p);
    ValueOfSymbol(g.q);
    ValueOfSymbol(g.r);
    ValueOfSymbol(g.t);
  }

  lemma FullQuad(a: byte, b: byte, c: byte, last: bool)
    ensures DecodeQuad(Symbols(QuadOf(a, b, c)), last) == Some([a, b, c])
  {
    ValuesOfSymbols(QuadOf(a, b, c));
    QuadIsGroup(a, b, c);
  }

  lemma PaddedOne(a: byte)
    ensures DecodeQuad(Symbols(QuadOf(a, 0, 0))[..2] + "==", true) == Some([a])
  {
    var g := QuadOf(a, 0, 0);
    ValuesOfSymbols(g);
    QuadIsGroup(a, 0, 0);
    var s := Symbols(g)[..2] + "==";
    assert s[..2] + "AA" == Symbols(g);
    assert BytesOf(g)[..1] == [a];
  }

  lemma PaddedTwo(a: byte, b: byte)
    ensures DecodeQuad(Symbols(QuadOf(a, b, 0))[..3] + "=", true) == Some([a, b])
  {
    var g := QuadOf(a, b, 0);
    ValuesOfSymbols(g);
    QuadIsGroup(a, b, 0);
    var s := Symbols(g)[..3] + "=";
    assert s[..3] + "A" == Symbols(g) && s[2] == Symbols(g)[2] != '=';
    assert BytesOf(g)[..2] == [a, b];
  }

  lemma DecodeCons(quad: string, rest: string, x: Bytes, y: Bytes)
    requires |quad| == 4 && DecodeQuad(quad, rest == "") == Some(x) && Decode(rest) == Some(y)
    ensures Decode(quad + rest) == Some(x + y)
  {
    var s := quad + rest;
    assert s[..4] == quad && s[4..] == rest;
  }

  lemma DecodeFull(a: byte, b: byte, c: byte, text: string, rest: Bytes)
    requires Decode(text) == Some(rest)
    ensures Decode(Symbols(QuadOf(a, b, c)) + text) == Some([a, b, c] + rest)
  {
    FullQuad(a, b, c, text == "");
    DecodeCons(Symbols(QuadOf(a, b, c)), text, [a, b, c], rest);
  }

  lemma EncodeCons(b: Bytes)
    requires |b| > 2
    ensures Encode(b) == Symbols(QuadOf(b[0], b[1], b[2])) + Encode(b[3..])
  {
  }

  lemma DecodeOneByte(a: byte)
    ensures Decode(Encode([a])) == Some([a])
  {
    var s := Symbols(QuadOf(a, 0, 0))[..2] + "==";
    PaddedOne(a);
    DecodeCons(s, "", [a], []);
    assert s + "" == s && [a] + [] == [a] && Encode([a]) == s;
  }

  lemma DecodeTwoBytes(a: byte, b: byte)
    ensures Decode(Encode([a, b])) == Some([a, b])
  {
    var s := Symbols(QuadOf(a, b, 0))[..3] + "=";
    PaddedTwo(a, b);
    DecodeCons(s, "", [a, b], []);
    assert s + "" == s && [a, b] + [] == [a, b] && Encode([a, b]) == s;
  }

  lemma CutThree(b: Bytes)
    requires |b| > 2
    ensures b == [b[0], b[1], b[2]] + b[3..]
  {
  }

  lemma DecodeGroup(b: Bytes, text: string)
    requires |b| > 2 && Decode(text) == Some(b[3..])
    ensures Decode(Symbols(QuadOf(b[0], b[1], b[2])) + text) == Some(b)
  {
    var rest := b[3..];
    CutThree(b);
    DecodeFull(b[0], b[1], b[2], text, rest);
  }

  /** Decoding inverts encoding for every byte string, whatever its length modulo three. */
  lemma {:induction false} DecodeEncode(b: Bytes)
    ensures Decode(Encode(b)) == Some(b)
  {
    if |b| > 2 {
      var rest := b[3..];
      DecodeEncode(rest);
      EncodeCons(b);
      DecodeGroup(b, Encode(rest));
    } else if |b| == 2 {
      DecodeTwoBytes(b[0], b[1]);
      assert b == [b[0], b[1]];
    } else if |b| == 1 {
      DecodeOneByte(b[0]);
      assert b == [b[0]];
    } else {
      assert b == [];
    }
  }

  lemma EncodeInjective(a: Bytes, b: Bytes)
    ensures Encode(a) == Encode(b) <==> a == b
  {
    DecodeEncode(a);
    DecodeEncode(b);
  }

  lemma {:induction false} EncodedLength(b: Bytes)
    ensures |Encode(b)| == (|b| + 2) / 3 * 4
  {
    if |b| > 2 {
      EncodedLength(b[3..]);
      EncodeCons(b);
    } else {
      assert |Encode(b)| == if |b| == 0 then 0 else 4;
    }
  }

  // ----- The text itself

  /** The alphabet of section 4 of RFC 4648. */
  lemma SymbolsAreTheAlphabet(v: sextet)
    ensures v < 26 ==> Symbol(v) == 'A' + v as char
    ensures 26 <= v < 52 ==> Symbol(v) == 'a' + (v - 26) as char
    ensures 52 <= v < 62 ==> Symbol(v) == '0' + (v - 52) as char
    ensures Symbol(62) == '+' && Symbol(63) == '/'
  {
  }

  function ByteAt(b: Bytes, i: nat): byte {
    if i < |b| then b[i] else 0
  }

  /** The three bytes of group g as one number; bytes beyond the end are zero. */
  function GroupBits(b: Bytes, g: nat): nat {
    ByteAt(b, 3 * g) * 0x10000 + ByteAt(b, 3 * g + 1) * 0x100 + ByteAt(b, 3 * g + 2)
  }

  function Bits(q: Quad): nat {
    q.p * 0x40000 + q.q * 0x1000 + q.r * 0x40 + q.t
  }

  /** The four characters at a position of the text spell the groups; those without one of the n bytes are padding. */
  predicate SpelledAt(text: string, at: nat, q: Quad, n: int) {
    && at + 3 < |text|
    && text[at] == Symbol(q.p) && text[at + 1] == Symbol(q.q)
    && text[at + 2] == (if n > 1 then Symbol(q.r) else '=')
    && text[at + 3] == (if n > 2 then Symbol(q.t) else '=')
  }

  /** The characters of group g are its 24 bits. */
  ghost predicate SpellsGroup(text: string, b: Bytes, g: nat) {
    exists q: Quad :: Bits(q) == GroupBits(b, g) && SpelledAt(text, 4 * g, q, |b| - 3 * g)
  }

  lemma FourCharacters(b: Bytes, q: Quad)
    requires |b| > 0 && q == QuadOf(b[0], ByteAt(b, 1), ByteAt(b, 2))
    ensures SpelledAt(Encode(b), 0, q, |b|)
  {
    var s := Symbols(q);
    assert s[0] == Symbol(q.p) && s[1] == Symbol(q.q) && s[2] == Symbol(q.r) && s[3] == Symbol(q.t);
    if |b| > 2 {
      EncodeCons(b);
    } else if |b| == 2 {
      assert Encode(b) == s[..3] + "=";
    } else {
      assert Encode(b) == s[..2] + "==";
    }
  }

  lemma FirstBits(b: Bytes, q: Quad)
    requires |b| > 0 && q == QuadOf(b[0], ByteAt(b, 1), ByteAt(b, 2))
    ensures Bits(q) == GroupBits(b, 0)
  {
    QuadIsGroup(b[0], ByteAt(b, 1), ByteAt(b, 2));
  }

  lemma FirstGroup(b: Bytes)
    requires |b| > 0
    ensures SpellsGroup(Encode(b), b, 0)
  {
    var q := QuadOf(b[0], ByteAt(b, 1), ByteAt(b, 2));
    FourCharacters(b, q);
    FirstBits(b, q);
    assert SpelledAt(Encode(b), 4 * 0, q, |b| - 3 * 0);
  }

  lemma LaterBits(b: Bytes, g: nat)
    requires |b| > 2
    ensures GroupBits(b, g + 1) == GroupBits(b[3..], g)
  {
    assert ByteAt(b, 3 * (g + 1)) == ByteAt(b[3..], 3 * g);
    assert ByteAt(b, 3 * (g + 1) + 1) == ByteAt(b[3..], 3 * g + 1);
    assert ByteAt(b, 3 * (g + 1) + 2) == ByteAt(b[3..], 3 * g + 2);
  }

  lemma LaterText(quad: string, text: string, at: nat, q: Quad, n: int)
    requires |quad| == 4 && SpelledAt(text, at, q, n)
    ensures SpelledAt(quad + text, at + 4, q, n)
  {
  }

  lemma LaterGroup(b: Bytes, quad: string, text: string, g: nat)
    requires |b| > 2 && |quad| == 4 && SpellsGroup(text, b[3..], g)
    ensures SpellsGroup(quad + text, b, g + 1)
  {
    var q: Quad :| Bits(q) == GroupBits(b[3..], g) && SpelledAt(text, 4 * g, q, |b[3..]| - 3 * g);
    LaterBits(b, g);
    LaterText(quad, text, 4 * g, q, |b[3..]| - 3 * g);
    assert 4 * g + 4 == 4 * (g + 1) && |b[3..]| - 3 * g == |b| - 3 * (g + 1);
  }

  /** Every group of the encoding, for every byte string. */
  lemma {:induction false} EncodeLayout(b: Bytes, g: nat)
    requires g < (|b| + 2) / 3
    ensures SpellsGroup(Encode(b), b, g)
    decreases g
  {
    if g == 0 {
      FirstGroup(b);
    } else {
      var rest := b[3..];
      EncodeLayout(rest, g - 1);
      EncodeCons(b);
      LaterGroup(b, Symbols(QuadOf(b[0], b[1], b[2])), Encode(rest), g - 1);
    }
  }
}
