/** One row of the table printed by `nodetool status`: the row expression, the fields it captures,
    and the proof that no row can be read in two ways. */
module NodetoolRow {
  import opened Outcomes
  import opened Pattern

  function One(cls: Class): Piece { Piece(cls, 1, Some(1), false) }
  function Many(cls: Class): Piece { Piece(cls, 1, None, false) }
  function Any(cls: Class): Piece { Piece(cls, 0, None, false) }
  const SHORTEST_SPACES := Piece(Space, 1, None, true)
  const OCTET := Piece(Digit, 1, Some(3), false)

  /** The row expression, piece by piece. The optional group of letters is the piece Any(Letter):
      a group that takes no part in the match captures the empty string. */
  const ROW: seq<Piece> := [
    One(Upper), One(Upper), SHORTEST_SPACES,
    OCTET, One(Dot), OCTET, One(Dot), OCTET, One(Dot), OCTET, Many(Space),
    Many(LoadChar), Many(Space), Any(Letter), Many(Space),
    Many(Digit), Many(Space), Many(Decimal), One(Percent), Many(Space),
    Many(IdChar), Many(Space), Any(NotNewline)
  ]

  // Positions in ROW
  const LOAD := 11
  const UNIT := 13
  const TOKENS := 15
  const RACK := 22

  /** What the first eight groups of the expression capture. */
  datatype Fields = Fields(status: string, state: string, address: string, load: string, unit: string,
                           tokens: string, owns: string, hostId: string)

  function FieldsOf(parts: seq<string>): Fields
    requires |parts| == |ROW|
  {
    Fields(parts[0], parts[1], Concat(parts[3..10]), parts[LOAD], parts[UNIT], parts[TOKENS], parts[17], parts[20])
  }

  function MatchRow(line: string): Option<Fields> {
    MatchSound(ROW, line);
    match Match(ROW, line)
    case None => None
    case Some(parts) => Some(FieldsOf(parts))
  }

  // ----- No row can be read in two ways

  lemma FrontDetermined()
    ensures forall i :: 0 <= i < 6 ==> Determined(ROW[i..])
  {
    assert forall i :: 0 <= i < 6 ==> ROW[i..][0] == ROW[i] && ROW[i..][1] == ROW[i + 1];
  }

  lemma HeadDetermined()
    ensures forall i :: 0 <= i < 12 ==> Determined(ROW[i..])
  {
    FrontDetermined();
    assert forall i :: 6 <= i < 12 ==> ROW[i..][0] == ROW[i] && ROW[i..][1] == ROW[i + 1];
  }

  lemma TailDetermined()
    ensures forall i :: 13 <= i < 21 ==> Determined(ROW[i..])
  {
    assert forall i :: 13 <= i < 21 ==> ROW[i..][0] == ROW[i] && ROW[i..][1] == ROW[i + 1];
  }

  lemma AfterThree(pat: seq<Piece>, s: string, p: seq<string>) returns (s1: string, s2: string, s3: string)
    requires |pat| >= 4 && Splits(pat, s, p)
    ensures s == p[0] + s1 && s1 == p[1] + s2 && s2 == p[2] + s3 && p[3] <= s3
    ensures Splits(pat[1..], s1, p[1..]) && Splits(pat[3..], s3, p[3..])
    ensures forall i :: 0 <= i < 4 ==> Fits(pat[i], p[i])
  {
    SplitsTail(pat, s, p);
    s1 := s[|p[0]|..];
    SplitsTail(pat[1..], s1, p[1..]);
    s2 := s1[|p[1]|..];
    assert pat[1..][1..] == pat[2..] && p[1..][1..] == p[2..];
    SplitsTail(pat[2..], s2, p[2..]);
    s3 := s2[|p[2]|..];
    assert pat[2..][1..] == pat[3..] && p[2..][1..] == p[3..];
    SplitsTail(pat[3..], s3, p[3..]);
  }

  lemma WithoutUnit(s: string, before: string, after: string, digits: string)
    requires Fits(Many(Space), before) && Fits(Many(Space), after) && Fits(Many(Digit), digits)
    requires before + after + digits <= s
    ensures Span(Space, s) == |before + after| < |s| && In(s[|before + after|], Digit)
  {
    PartIsSpan(Many(Space), Many(Digit), s, before + after, digits);
    assert s[|before + after|] == digits[0];
  }

  lemma WithUnit(s: string, before: string, unit: string)
    requires Fits(Many(Space), before) && Fits(Any(Letter), unit) && unit != "" && before + unit <= s
    ensures Span(Space, s) == |before| < |s| && In(s[|before|], Letter)
  {
    PartIsSpan(Many(Space), Any(Letter), s, before, unit);
    assert s[|before|] == unit[0];
  }

  /** The spaces, the optional unit and the spaces after the load: how many spaces there are before
      the unit or, without one, before the token count. */
  lemma SpacesAfterLoad(pat: seq<Piece>, s: string, p: seq<string>)
    requires |pat| >= 4 && pat[..4] == [Many(Space), Any(Letter), Many(Space), Many(Digit)]
    requires Splits(pat, s, p)
    ensures var n := Span(Space, s);
            && n < |s|
            && if p[1] == "" then In(s[n], Digit) && Splits(pat[3..], s[n..], p[3..])
               else In(s[n], Letter) && Splits(pat[1..], s[n..], p[1..])
  {
    var four := pat[..4];
    assert pat[0] == four[0] && pat[1] == four[1] && pat[2] == four[2] && pat[3] == four[3];
    var s1, s2, s3 := AfterThree(pat, s, p);
    if p[1] == "" {
      assert s == (p[0] + p[2]) + s3;
      WithoutUnit(s, p[0], p[2], p[3]);
    } else {
      WithUnit(s, p[0], p[1]);
    }
  }

  lemma SuffixDetermined(k: nat, s: string, p: seq<string>, q: seq<string>)
    requires 13 <= k < 21 && |p| == |q| == |ROW|
    requires Splits(ROW[k..], s, p[k..]) && Splits(ROW[k..], s, q[k..])
    ensures forall i :: k <= i < 21 ==> p[i] == q[i]
  {
    TailDetermined();
    forall i | 0 <= i < 21 - k ensures Determined(ROW[k..][i..]) {
      assert ROW[k..][i..] == ROW[k + i..];
    }
    PrefixDetermined(ROW[k..], 21 - k, s, p[k..], q[k..]);
    forall i | k <= i < 21 ensures p[i] == q[i] {
      assert p[k..][..21 - k][i - k] == q[k..][..21 - k][i - k];
    }
  }

  /** From the spaces after the load to the spaces before the rack. */
  lemma RestDetermined(s: string, p: seq<string>, q: seq<string>)
    requires |p| == |q| == |ROW|
    requires Splits(ROW[12..], s, p[12..]) && Splits(ROW[12..], s, q[12..])
    ensures forall i :: 13 <= i < 21 && i != 14 ==> p[i] == q[i]
  {
    SpacesAfterLoad(ROW[12..], s, p[12..]);
    SpacesAfterLoad(ROW[12..], s, q[12..]);
    var n := Span(Space, s);
    assert p[12..][1] == p[13] && q[12..][1] == q[13];
    if p[13] == "" {
      assert ROW[12..][3..] == ROW[15..] && p[12..][3..] == p[15..] && q[12..][3..] == q[15..];
      SuffixDetermined(15, s[n..], p, q);
    } else {
      assert ROW[12..][1..] == ROW[13..] && p[12..][1..] == p[13..] && q[12..][1..] == q[13..];
      SuffixDetermined(13, s[n..], p, q);
    }
  }

  /** Any two ways of matching a row agree on every captured field (but the rack, which
      the parser does not use, may begin with some of the spaces before it). */
  lemma RowUnambiguous(line: string, p: seq<string>, q: seq<string>)
    requires Splits(ROW, line, p) && Splits(ROW, line, q)
    ensures FieldsOf(p) == FieldsOf(q)
  {
    HeadDetermined();
    PrefixDetermined(ROW, 12, line, p, q);
    var s := line[|Concat(p[..12])|..];
    forall i | 0 <= i < 12 ensures p[i] == q[i] {
      assert p[..12][i] == q[..12][i];
    }
    assert p[3..10] == q[3..10];
    RestDetermined(s, p, q);
  }

  /** The executable matcher and the declarative reading agree on every line. */
  lemma MatchRowCorrect(line: string)
    ensures MatchRow(line).None? <==> forall parts :: !Splits(ROW, line, parts)
    ensures forall parts :: Splits(ROW, line, parts) ==> MatchRow(line) == Some(FieldsOf(parts))
  {
    MatchSound(ROW, line);
    forall parts | Splits(ROW, line, parts) ensures MatchRow(line) == Some(FieldsOf(parts)) {
      MatchComplete(ROW, line, parts);
      RowUnambiguous(line, parts, Match(ROW, line).value);
    }
  }

  // ----- Printing a row

  /** The contents of a printed row; unit is empty where the column is missing. */
  datatype Row = Row(status: char, state: char, octets: seq<string>, load: string, unit: string,
                     tokens: string, owns: string, hostId: string, rack: string)

  predicate NonEmptyIn(s: string, cls: Class) {
    s != "" && AllIn(s, cls)
  }

  predicate WellFormed(r: Row) {
    && In(r.status, Upper) && In(r.state, Upper)
    && |r.octets| == 4 && (forall i :: 0 <= i < 4 ==> Fits(OCTET, r.octets[i]))
    && NonEmptyIn(r.load, LoadChar) && AllIn(r.unit, Letter) && NonEmptyIn(r.tokens, Digit)
    && NonEmptyIn(r.owns, Decimal) && NonEmptyIn(r.hostId, IdChar) && AllIn(r.rack, NotNewline)
  }

  function Address(r: Row): string
    requires |r.octets| == 4
  {
    r.octets[0] + "." + r.octets[1] + "." + r.octets[2] + "." + r.octets[3]
  }

  /** The white space before the address, the load, the unit, the tokens, the share, the host id and the rack. */
  predicate LegalPads(pads: seq<string>) {
    |pads| == 7 && forall i :: 0 <= i < 7 ==> NonEmptyIn(pads[i], Space)
  }

  function RowParts(r: Row, pads: seq<string>): (parts: seq<string>)
    requires WellFormed(r) && LegalPads(pads)
    ensures |parts| == |ROW|
  {
    [[r.status], [r.state], pads[0],
     r.octets[0], ".", r.octets[1], ".", r.octets[2], ".", r.octets[3], pads[1],
     r.load, pads[2], r.unit, pads[3], r.tokens, pads[4], r.owns, "%", pads[5], r.hostId, pads[6], r.rack]
  }

  lemma RowPartsFit(r: Row, pads: seq<string>)
    requires WellFormed(r) && LegalPads(pads)
    ensures forall i :: 0 <= i < |ROW| ==> Fits(ROW[i], RowParts(r, pads)[i])
  {
  }

  function Render(r: Row, pads: seq<string>): string
    requires WellFormed(r) && LegalPads(pads)
  {
    Concat(RowParts(r, pads))
  }

  lemma AddressParts(r: Row)
    requires |r.octets| == 4
    ensures var o := r.octets; Concat([o[0], ".", o[1], ".", o[2], ".", o[3]]) == Address(r)
  {
    var o := r.octets;
    assert Concat([o[3]]) == o[3];
    assert [o[2], ".", o[3]][1..][1..] == [o[3]];
    assert Concat([o[2], ".", o[3]]) == o[2] + ("." + o[3]);
    assert [o[1], ".", o[2], ".", o[3]][1..][1..] == [o[2], ".", o[3]];
    assert Concat([o[1], ".", o[2], ".", o[3]]) == o[1] + ("." + (o[2] + ("." + o[3])));
    assert [o[0], ".", o[1], ".", o[2], ".", o[3]][1..][1..] == [o[1], ".", o[2], ".", o[3]];
  }

  function RowFields(r: Row): Fields
    requires WellFormed(r)
  {
    Fields([r.status], [r.state], Address(r), r.load, r.unit, r.tokens, r.owns, r.hostId)
  }

  lemma AddressSlice(parts: seq<string>, o: seq<string>)
    requires |parts| == |ROW| && |o| == 4
    requires parts[3] == o[0] && parts[5] == o[1] && parts[7] == o[2] && parts[9] == o[3]
    requires parts[4] == parts[6] == parts[8] == "."
    ensures parts[3..10] == [o[0], ".", o[1], ".", o[2], ".", o[3]]
  {
  }

  lemma FieldsOfRowParts(r: Row, pads: seq<string>)
    requires WellFormed(r) && LegalPads(pads)
    ensures FieldsOf(RowParts(r, pads)) == RowFields(r)
  {
    AddressSlice(RowParts(r, pads), r.octets);
    AddressParts(r);
  }

  /** Printing a well-formed row with any legal padding and matching it gives its fields back. */
  lemma RowRoundTrip(r: Row, pads: seq<string>)
    requires WellFormed(r) && LegalPads(pads)
    ensures MatchRow(Render(r, pads)) == Some(RowFields(r))
  {
    MatchRowCorrect(Render(r, pads));
    RowPartsFit(r, pads);
    assert Splits(ROW, Render(r, pads), RowParts(r, pads));
    FieldsOfRowParts(r, pads);
  }

  lemma RowOfParts(p: seq<string>) returns (r: Row)
    requires |p| == |ROW| && forall i :: 0 <= i < |ROW| ==> Fits(ROW[i], p[i])
    ensures WellFormed(r) && [r.status] == p[0] && [r.state] == p[1]
    ensures r.octets == [p[3], p[5], p[7], p[9]] && r.load == p[LOAD] && r.unit == p[UNIT]
    ensures r.tokens == p[TOKENS] && r.owns == p[17] && r.hostId == p[20] && r.rack == p[RACK]
  {
    assert Fits(ROW[0], p[0]) && Fits(ROW[1], p[1]);
    r := Row(p[0][0], p[1][0], [p[3], p[5], p[7], p[9]], p[LOAD], p[UNIT], p[TOKENS], p[17], p[20], p[RACK]);
    assert Fits(ROW[3], p[3]) && Fits(ROW[5], p[5]) && Fits(ROW[7], p[7]) && Fits(ROW[9], p[9]);
    assert Fits(ROW[LOAD], p[LOAD]) && Fits(ROW[UNIT], p[UNIT]) && Fits(ROW[TOKENS], p[TOKENS]);
    assert Fits(ROW[17], p[17]) && Fits(ROW[20], p[20]) && Fits(ROW[RACK], p[RACK]);
  }

  lemma PadsOfParts(p: seq<string>) returns (pads: seq<string>)
    requires |p| == |ROW| && forall i :: 0 <= i < |ROW| ==> Fits(ROW[i], p[i])
    ensures LegalPads(pads) && pads == [p[2], p[10], p[12], p[14], p[16], p[19], p[21]]
  {
    pads := [p[2], p[10], p[12], p[14], p[16], p[19], p[21]];
    assert Fits(ROW[2], p[2]) && Fits(ROW[10], p[10]) && Fits(ROW[12], p[12]) && Fits(ROW[14], p[14]);
    assert Fits(ROW[16], p[16]) && Fits(ROW[19], p[19]) && Fits(ROW[21], p[21]);
  }

  lemma FixedParts(p: seq<string>)
    requires |p| == |ROW| && forall i :: 0 <= i < |ROW| ==> Fits(ROW[i], p[i])
    ensures p[4] == p[6] == p[8] == "." && p[18] == "%"
  {
    assert Fits(ROW[4], p[4]) && Fits(ROW[6], p[6]) && Fits(ROW[8], p[8]) && Fits(ROW[18], p[18]);
  }

  lemma PartsOfRow(p: seq<string>) returns (r: Row, pads: seq<string>)
    requires |p| == |ROW| && forall i :: 0 <= i < |ROW| ==> Fits(ROW[i], p[i])
    ensures WellFormed(r) && LegalPads(pads) && RowParts(r, pads) == p
  {
    r := RowOfParts(p);
    pads := PadsOfParts(p);
    FixedParts(p);
  }

  /** Every row the expression accepts is the rendering of some well-formed row. */
  lemma MatchIsRendering(line: string) returns (r: Row, pads: seq<string>)
    requires MatchRow(line).Some?
    ensures WellFormed(r) && LegalPads(pads) && line == Render(r, pads)
  {
    MatchSound(ROW, line);
    r, pads := PartsOfRow(Match(ROW, line).value);
  }
}
