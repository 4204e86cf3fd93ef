/** The rows the parser reads, written out character by character: what a line must look like, and the node
    it becomes. Nothing here is stated through the row expression. */
module PrintedRow {
  import opened Outcomes
  import opened Pattern
  import opened NodetoolRow
  import opened Cassandra
  import opened NodetoolTable
  import Scanner

  predicate IsDigit(c: char) { '0' <= c <= '9' }
  predicate IsCapital(c: char) { 'A' <= c <= 'Z' }
  predicate IsSmall(c: char) { 'a' <= c <= 'z' }

  predicate IsOctet(s: string) {
    1 <= |s| <= 3 && forall i :: 0 <= i < |s| ==> IsDigit(s[i])
  }

  predicate IsLoad(s: string) {
    s != "" && forall i :: 0 <= i < |s| ==> IsDigit(s[i]) || s[i] == '.' || s[i] == '?'
  }

  predicate IsUnit(s: string) {
    forall i :: 0 <= i < |s| ==> IsCapital(s[i]) || IsSmall(s[i])
  }

  predicate IsCount(s: string) {
    s != "" && forall i :: 0 <= i < |s| ==> IsDigit(s[i])
  }

  predicate IsShare(s: string) {
    s != "" && forall i :: 0 <= i < |s| ==> IsDigit(s[i]) || s[i] == '.'
  }

  predicate IsHostId(s: string) {
    s != "" && forall i :: 0 <= i < |s| ==> IsDigit(s[i]) || 'a' <= s[i] <= 'f' || s[i] == '-'
  }

  predicate IsSpace(s: string) {
    s != "" && forall i :: 0 <= i < |s| ==>
      s[i] == ' ' || s[i] == '\t' || s[i] == '\n' || s[i] == '\r' || s[i] as int == 12
  }

  /** The columns of a row, by their characters; the unit may be missing, and the rack is any rest of the line. */
  predicate Columns(r: Row) {
    && IsCapital(r.status) && IsCapital(r.state)
    && |r.octets| == 4 && IsOctet(r.octets[0]) && IsOctet(r.octets[1]) && IsOctet(r.octets[2]) && IsOctet(r.octets[3])
    && IsLoad(r.load) && IsUnit(r.unit) && IsCount(r.tokens) && IsShare(r.owns) && IsHostId(r.hostId)
    && forall i :: 0 <= i < |r.rack| ==> r.rack[i] != '\n'
  }

  predicate Spaces(pads: seq<string>) {
    |pads| == 7 && forall i :: 0 <= i < 7 ==> IsSpace(pads[i])
  }

  /** The line with these columns and this white space before the second and the following ones. */
  function Line(r: Row, pads: seq<string>): string
    requires |r.octets| == 4 && |pads| == 7
  {
    [r.status, r.state] + pads[0] +
    r.octets[0] + "." + r.octets[1] + "." + r.octets[2] + "." + r.octets[3] + pads[1] +
    r.load + pads[2] + r.unit + pads[3] + r.tokens + pads[4] + r.owns + "%" + pads[5] + r.hostId + pads[6] + r.rack
  }

  lemma ColumnsAreWellFormed(r: Row)
    ensures Columns(r) <==> WellFormed(r)
  {
    if Columns(r) {
      assert forall i :: 0 <= i < 4 ==> Fits(OCTET, r.octets[i]);
    }
    if WellFormed(r) {
      assert Fits(OCTET, r.octets[0]) && Fits(OCTET, r.octets[1]);
      assert Fits(OCTET, r.octets[2]) && Fits(OCTET, r.octets[3]);
    }
  }

  lemma SpacesAreLegal(pads: seq<string>)
    ensures Spaces(pads) <==> LegalPads(pads)
  {
    if LegalPads(pads) {
      forall i | 0 <= i < 7 ensures IsSpace(pads[i]) {
        assert NonEmptyIn(pads[i], Space);
      }
    }
    if Spaces(pads) {
      forall i | 0 <= i < 7 ensures NonEmptyIn(pads[i], Space) {
        assert IsSpace(pads[i]);
      }
    }
  }

  lemma {:induction false} ConcatAppend(a: seq<string>, b: seq<string>)
    ensures Concat(a + b) == Concat(a) + Concat(b)
  {
    if a == [] {
      assert a + b == b;
    } else {
      ConcatAppend(a[1..], b);
      assert (a + b)[1..] == a[1..] + b;
    }
  }

  lemma ConcatFour(a: string, b: string, c: string, d: string)
    ensures Concat([a, b, c, d]) == a + b + c + d
  {
    var all := [a, b, c, d];
    assert all[1..] == [b, c, d] && all[1..][1..] == [c, d] && all[1..][1..][1..] == [d];
    assert Concat([d]) == d + Concat([]) == d;
    assert Concat(all[1..][1..]) == c + d;
    assert Concat(all[1..]) == b + (c + d);
    assert a + (b + (c + d)) == a + b + c + d;
  }

  lemma {:induction false} ConcatFours(fours: seq<string>)
    requires |fours| >= 4
    ensures Concat(fours) == fours[0] + fours[1] + fours[2] + fours[3] + Concat(fours[4..])
  {
    assert fours == [fours[0], fours[1], fours[2], fours[3]] + fours[4..];
    ConcatAppend([fours[0], fours[1], fours[2], fours[3]], fours[4..]);
    ConcatFour(fours[0], fours[1], fours[2], fours[3]);
  }

  lemma JoinFour(s: string, a: string, b: string, c: string, d: string)
    ensures s + (a + b + c + d) == s + a + b + c + d
  {
  }

  lemma JoinGroups(s: string, a: string, b: string, c: string, d: string, e: string)
    ensures s + (a + (b + (c + (d + e)))) == s + a + b + c + d + e
  {
    assert a + (b + (c + (d + e))) == a + b + c + d + e;
  }

  /** The line in groups of four parts. */
  lemma LineInGroups(r: Row, p: seq<string>)
    requires |r.octets| == 4
    ensures Line(r, p) == ([r.status] + [r.state] + p[0] + r.octets[0]) + ("." + r.octets[1] + "." + r.octets[2])
                          + ("." + r.octets[3] + p[1] + r.load) + (p[2] + r.unit + p[3] + r.tokens)
                          + (p[4] + r.owns + "%" + p[5]) + (r.hostId + p[6] + r.rack + "")
    requires |p| == 7
  {
    var o := r.octets;
    assert [r.status, r.state] == [r.status] + [r.state];
    var s0 := [r.status] + [r.state] + p[0] + o[0];
    JoinFour(s0, ".", o[1], ".", o[2]);
    var s1 := s0 + "." + o[1] + "." + o[2];
    JoinFour(s1, ".", o[3], p[1], r.load);
    var s2 := s1 + "." + o[3] + p[1] + r.load;
    JoinFour(s2, p[2], r.unit, p[3], r.tokens);
    var s3 := s2 + p[2] + r.unit + p[3] + r.tokens;
    JoinFour(s3, p[4], r.owns, "%", p[5]);
    var s4 := s3 + p[4] + r.owns + "%" + p[5];
    JoinFour(s4, r.hostId, p[6], r.rack, "");
    assert Line(r, p) + "" == Line(r, p);
  }

  function Group(p: seq<string>, k: nat): string
    requires k + 4 <= |p|
  {
    p[k] + p[k + 1] + p[k + 2] + p[k + 3]
  }

  lemma ConcatFrom(p: seq<string>, k: nat)
    requires k + 4 <= |p|
    ensures Concat(p[k..]) == Group(p, k) + Concat(p[k + 4..])
  {
    ConcatFours(p[k..]);
    assert p[k..][4..] == p[k + 4..];
  }

  lemma ConcatInGroups(p: seq<string>)
    requires |p| == 24
    ensures Concat(p) == Group(p, 0) + Group(p, 4) + Group(p, 8) + Group(p, 12) + Group(p, 16) + Group(p, 20)
  {
    ConcatFrom(p, 0);
    ConcatFrom(p, 4);
    ConcatFrom(p, 8);
    ConcatFrom(p, 12);
    ConcatFrom(p, 16);
    ConcatFrom(p, 20);
    assert p[0..] == p && p[24..] == [];
    JoinGroups(Group(p, 0), Group(p, 4), Group(p, 8), Group(p, 12), Group(p, 16), Group(p, 20));
    assert Group(p, 20) + "" == Group(p, 20);
  }

  lemma GroupsOfRow(r: Row, pads: seq<string>, p: seq<string>)
    requires WellFormed(r) && LegalPads(pads) && p == RowParts(r, pads) + [""]
    ensures Group(p, 0) == [r.status] + [r.state] + pads[0] + r.octets[0]
    ensures Group(p, 4) == "." + r.octets[1] + "." + r.octets[2]
    ensures Group(p, 8) == "." + r.octets[3] + pads[1] + r.load
    ensures Group(p, 12) == pads[2] + r.unit + pads[3] + r.tokens
    ensures Group(p, 16) == pads[4] + r.owns + "%" + pads[5]
    ensures Group(p, 20) == r.hostId + pads[6] + r.rack + ""
  {
  }

  lemma RenderIsLine(r: Row, pads: seq<string>)
    requires WellFormed(r) && LegalPads(pads)
    ensures Render(r, pads) == Line(r, pads)
  {
    var p := RowParts(r, pads) + [""];
    ConcatAppend(RowParts(r, pads), [""]);
    assert Concat([""]) == "" && Render(r, pads) + "" == Render(r, pads);
    ConcatInGroups(p);
    GroupsOfRow(r, pads, p);
    LineInGroups(r, pads);
  }

  /** What is captured of such a line. */
  ghost predicate Captures(f: Fields, r: Row)
    requires |r.octets| == 4
  {
    && f.status == [r.status] && f.state == [r.state]
    && f.address == r.octets[0] + "." + r.octets[1] + "." + r.octets[2] + "." + r.octets[3]
    && f.load == r.load && f.unit == r.unit && f.tokens == r.tokens && f.owns == r.owns && f.hostId == r.hostId
  }

  /** Every line that is written so is matched, and its columns are captured. */
  lemma LineMatches(r: Row, pads: seq<string>)
    requires Columns(r) && Spaces(pads)
    ensures MatchRow(Line(r, pads)).Some? && Captures(MatchRow(Line(r, pads)).value, r)
  {
    ColumnsAreWellFormed(r);
    SpacesAreLegal(pads);
    RenderIsLine(r, pads);
    RowRoundTrip(r, pads);
  }

  /** And no other line is matched. */
  lemma MatchedIsLine(line: string) returns (r: Row, pads: seq<string>)
    requires MatchRow(line).Some?
    ensures Columns(r) && Spaces(pads) && line == Line(r, pads) && Captures(MatchRow(line).value, r)
  {
    r, pads := MatchIsRendering(line);
    ColumnsAreWellFormed(r);
    SpacesAreLegal(pads);
    RenderIsLine(r, pads);
    LineMatches(r, pads);
  }

  /** What a node keeps of the columns: U and D, and N, L, J and M are known letters; a question mark for the
      load is no load. */
  ghost predicate Describes(n: Node, r: Row, owns: real)
    requires |r.octets| == 4
  {
    && n.status == (if r.status == 'U' then Up else if r.status == 'D' then Down else UnknownStatus)
    && n.state == (if r.state == 'N' then Normal else if r.state == 'L' then Leaving else if r.state == 'J' then Joining
                   else if r.state == 'M' then Moving else UnknownState)
    && n.address == r.octets[0] + "." + r.octets[1] + "." + r.octets[2] + "." + r.octets[3]
    && n.load == (if r.load == "?" then "0KiB" else r.load + r.unit)
    && n.owns == owns && n.hostId == r.hostId
  }

  lemma NodeDescribes(f: Fields, r: Row, owns: real)
    requires |r.octets| == 4 && Captures(f, r)
    ensures Describes(NodeOf(f, owns), r, owns)
  {
    assert f.status[0] == r.status && f.state[0] == r.state;
  }

  /** Such a line is read as a node that its columns describe, unless the share is not a number; every other line
      is a run-time panic. */
  lemma LineReads(r: Row, pads: seq<string>, parseFloat: FloatParser)
    requires Columns(r) && Spaces(pads)
    ensures match (ProcessNode(Line(r, pads), parseFloat), parseFloat(r.owns))
            case (Done(n), Some(owns)) => Describes(n, r, owns)
            case (Failed(e), None) => e == BadOwns(r.owns)
            case _ => false
  {
    LineMatches(r, pads);
    if parseFloat(r.owns).Some? {
      NodeDescribes(MatchRow(Line(r, pads)).value, r, parseFloat(r.owns).value);
    }
  }

  // ----- A whole table

  predicate Written(item: Item, parseFloat: FloatParser) {
    item.Printed? ==> Columns(item.row) && Spaces(item.pads) && parseFloat(item.row.owns).Some?
  }

  predicate AllWritten(items: seq<Item>, parseFloat: FloatParser) {
    forall i :: 0 <= i < |items| ==> Written(items[i], parseFloat)
  }

  function LineOf(item: Item, parseFloat: FloatParser): string
    requires Written(item, parseFloat)
  {
    if item.Blank? then "" else Line(item.row, item.pads)
  }

  function LinesOf(items: seq<Item>, parseFloat: FloatParser): seq<string>
    requires AllWritten(items, parseFloat)
  {
    seq(|items|, i requires 0 <= i < |items| => LineOf(items[i], parseFloat))
  }

  lemma WrittenIsPrintable(item: Item, parseFloat: FloatParser)
    requires Written(item, parseFloat)
    ensures Printable(item, parseFloat)
    ensures item.Printed? ==> Render(item.row, item.pads) == LineOf(item, parseFloat)
  {
    if item.Printed? {
      ColumnsAreWellFormed(item.row);
      SpacesAreLegal(item.pads);
      RenderIsLine(item.row, item.pads);
    }
  }

  lemma AllWrittenArePrintable(items: seq<Item>, parseFloat: FloatParser)
    requires AllWritten(items, parseFloat)
    ensures AllPrintable(items, parseFloat)
  {
    forall i | 0 <= i < |items| ensures Printable(items[i], parseFloat) {
      WrittenIsPrintable(items[i], parseFloat);
    }
  }

  lemma LinesOfSnoc(items: seq<Item>, parseFloat: FloatParser)
    requires AllWritten(items, parseFloat) && items != []
    ensures var n := |items| - 1;
            LinesOf(items, parseFloat) == LinesOf(items[..n], parseFloat) + [LineOf(items[n], parseFloat)]
  {
  }

  lemma {:induction false} LinesAreItemLines(items: seq<Item>, parseFloat: FloatParser)
    requires AllWritten(items, parseFloat) && AllPrintable(items, parseFloat)
    ensures ItemLines(items, parseFloat) == LinesOf(items, parseFloat)
  {
    if items == [] {
    } else {
      var init, item := items[..|items| - 1], items[|items| - 1];
      LinesAreItemLines(init, parseFloat);
      WrittenIsPrintable(item, parseFloat);
      LinesOfSnoc(items, parseFloat);
    }
  }

  function AddressOf(r: Row): string
    requires |r.octets| == 4
  {
    r.octets[0] + "." + r.octets[1] + "." + r.octets[2] + "." + r.octets[3]
  }

  ghost predicate PrintsAddress(item: Item, address: string) {
    item.Printed? && |item.row.octets| == 4 && AddressOf(item.row) == address
  }

  /** The last row with its address. */
  ghost predicate LastRow(items: seq<Item>, i: int) {
    && 0 <= i < |items| && items[i].Printed? && |items[i].row.octets| == 4
    && forall j :: i < j < |items| ==> !PrintsAddress(items[j], AddressOf(items[i].row))
  }

  /** The map has the addresses that are printed, and for each of them the columns of the last row with it. */
  ghost predicate Tells(m: NodeMap, items: seq<Item>, parseFloat: FloatParser)
    requires AllWritten(items, parseFloat)
  {
    && (forall a :: a in m <==> exists i :: 0 <= i < |items| && PrintsAddress(items[i], a))
    && (forall i :: LastRow(items, i) ==>
          var a := AddressOf(items[i].row);
          a in m && Describes(m[a], items[i].row, parseFloat(items[i].row.owns).value))
  }

  lemma PrintsSnoc(items: seq<Item>, item: Item, a: string)
    ensures (exists i :: 0 <= i < |items + [item]| && PrintsAddress((items + [item])[i], a)) <==>
            (exists i :: 0 <= i < |items| && PrintsAddress(items[i], a)) || PrintsAddress(item, a)
  {
    var all := items + [item];
    if i :| 0 <= i < |items| && PrintsAddress(items[i], a) {
      assert PrintsAddress(all[i], a);
    }
    assert all[|items|] == item;
  }

  lemma LastBefore(items: seq<Item>, item: Item, i: int)
    requires 0 <= i < |items| && LastRow(items + [item], i)
    ensures LastRow(items, i) && !PrintsAddress(item, AddressOf(items[i].row))
  {
    var all := items + [item];
    assert all[|items|] == item;
    forall j | i < j < |items| ensures !PrintsAddress(items[j], AddressOf(items[i].row)) {
      assert !PrintsAddress(all[j], AddressOf(all[i].row));
    }
  }

  lemma TellsBlank(m: NodeMap, items: seq<Item>, parseFloat: FloatParser)
    requires AllWritten(items, parseFloat) && Tells(m, items, parseFloat)
    ensures Tells(m, items + [Blank], parseFloat)
  {
    forall a ensures a in m <==> exists i :: 0 <= i < |items + [Blank]| && PrintsAddress((items + [Blank])[i], a) {
      PrintsSnoc(items, Blank, a);
    }
    forall i | LastRow(items + [Blank], i) ensures LastRow(items, i) {
      LastBefore(items, Blank, i);
    }
  }

  lemma TellsPrinted(m: NodeMap, items: seq<Item>, parseFloat: FloatParser, item: Item, n: Node)
    requires AllWritten(items, parseFloat) && Written(item, parseFloat) && Tells(m, items, parseFloat)
    requires item.Printed? && Describes(n, item.row, parseFloat(item.row.owns).value)
    ensures Tells(m[AddressOf(item.row) := n], items + [item], parseFloat)
  {
    var all, m' := items + [item], m[AddressOf(item.row) := n];
    forall a ensures a in m' <==> exists i :: 0 <= i < |all| && PrintsAddress(all[i], a) {
      PrintsSnoc(items, item, a);
    }
    forall i | LastRow(all, i)
      ensures var a := AddressOf(all[i].row);
              a in m' && Describes(m'[a], all[i].row, parseFloat(all[i].row.owns).value)
    {
      if i < |items| {
        LastBefore(items, item, i);
      }
    }
  }

  lemma MapOfSnoc(nodes: seq<Node>, node: Node)
    ensures MapOf(nodes + [node]) == MapOf(nodes)[node.address := node]
  {
    assert (nodes + [node])[..|nodes|] == nodes;
  }

  lemma PrintedTells(nodes: seq<Node>, items: seq<Item>, parseFloat: FloatParser, item: Item)
    requires AllWritten(items, parseFloat) && Written(item, parseFloat) && Tells(MapOf(nodes), items, parseFloat)
    requires item.Printed? && WellFormed(item.row)
    ensures var node := NodeOf(RowFields(item.row), parseFloat(item.row.owns).value);
            Tells(MapOf(nodes + [node]), items + [item], parseFloat)
  {
    var owns := parseFloat(item.row.owns).value;
    var node := NodeOf(RowFields(item.row), owns);
    NodeDescribes(RowFields(item.row), item.row, owns);
    MapOfSnoc(nodes, node);
    TellsPrinted(MapOf(nodes), items, parseFloat, item, node);
  }

  lemma {:induction false} ItemsTell(items: seq<Item>, parseFloat: FloatParser)
    requires AllWritten(items, parseFloat) && AllPrintable(items, parseFloat)
    ensures Tells(MapOf(ItemNodes(items, parseFloat)), items, parseFloat)
  {
    if items == [] {
    } else {
      var init, item := items[..|items| - 1], items[|items| - 1];
      var nodes := ItemNodes(init, parseFloat);
      ItemsTell(init, parseFloat);
      assert init + [item] == items && nodes + [] == nodes;
      if item.Printed? {
        PrintedTells(nodes, init, parseFloat, item);
      } else {
        TellsBlank(MapOf(nodes), init, parseFloat);
      }
    }
  }

  /** Five header lines of any contents and then rows written out by their columns, with blank lines among them and
      any line ends: the parser gives a map that has exactly the printed addresses, and for each of them the
      columns of its last row. */
  lemma PrintedTableReads(header: seq<string>, items: seq<Item>, parseFloat: FloatParser, ends: seq<Scanner.Eol>)
    requires |header| == 5 && AllWritten(items, parseFloat)
    requires Scanner.AllPlain(header + LinesOf(items, parseFloat), ends)
    ensures var r := StatusOf(Scanner.Unlines(header + LinesOf(items, parseFloat), ends), parseFloat);
            r.Done? && Tells(r.value, items, parseFloat)
  {
    AllWrittenArePrintable(items, parseFloat);
    LinesAreItemLines(items, parseFloat);
    TableRoundTrip(header, items, parseFloat, ends);
    ItemsTell(items, parseFloat);
    var nodes := ItemNodes(items, parseFloat);
    MapOfLastWins(nodes, MapOf(nodes));
    var text := Scanner.Unlines(header + LinesOf(items, parseFloat), ends);
    LastWinsUnique(nodes, MapOf(nodes), StatusOf(text, parseFloat).value);
  }
}
