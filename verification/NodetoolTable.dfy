/** What the parsed table means: every row was read, the last row of an address wins, and printing
    a table and parsing it gives the nodes back. */
module NodetoolTable {
  import opened Outcomes
  import opened NodetoolRow
  import opened Cassandra
  import Pattern
  import Scanner

  /** No later node has the address of the node at position i. */
  ghost predicate IsLast(nodes: seq<Node>, i: int) {
    0 <= i < |nodes| && forall j :: i < j < |nodes| ==> nodes[j].address != nodes[i].address
  }

  /** m maps each address of the nodes to the last node that has it, and has no other keys. */
  ghost predicate LastWins(nodes: seq<Node>, m: NodeMap) {
    && (forall a :: a in m ==> exists i :: 0 <= i < |nodes| && nodes[i].address == a)
    && (forall i :: 0 <= i < |nodes| ==> nodes[i].address in m)
    && (forall i :: IsLast(nodes, i) ==> m[nodes[i].address] == nodes[i])
  }

  predicate DistinctAddresses(nodes: seq<Node>) {
    forall i, j :: 0 <= i < j < |nodes| ==> nodes[i].address != nodes[j].address
  }

  ghost predicate Reads(rows: seq<string>, read: RowReader, nodes: seq<Node>) {
    |nodes| == |rows| && forall i :: 0 <= i < |rows| ==> read(rows[i]) == Done(nodes[i])
  }

  lemma LastWinsSnoc(nodes: seq<Node>, m: NodeMap, node: Node)
    requires LastWins(nodes, m)
    ensures LastWins(nodes + [node], m[node.address := node])
  {
    var all, m' := nodes + [node], m[node.address := node];
    forall a | a in m' ensures exists i :: 0 <= i < |all| && all[i].address == a {
      if a == node.address {
        assert all[|nodes|] == node;
      } else {
        var i :| 0 <= i < |nodes| && nodes[i].address == a;
        assert all[i] == nodes[i];
      }
    }
    forall i | IsLast(all, i) ensures m'[all[i].address] == all[i] {
      if i < |nodes| {
        assert all[|nodes|].address != all[i].address;
        assert IsLast(nodes, i) by {
          forall j | i < j < |nodes| ensures nodes[j].address != nodes[i].address {
            assert all[j].address != all[i].address;
          }
        }
      }
    }
  }

  lemma LastIndex(nodes: seq<Node>, i: nat) returns (k: int)
    requires i < |nodes|
    ensures i <= k < |nodes| && nodes[k].address == nodes[i].address && IsLast(nodes, k)
    decreases |nodes| - i
  {
    if j :| i < j < |nodes| && nodes[j].address == nodes[i].address {
      k := LastIndex(nodes, j);
    } else {
      k := i;
    }
  }

  /** A map with these properties is determined by the nodes. */
  lemma LastWinsUnique(nodes: seq<Node>, m: NodeMap, m': NodeMap)
    requires LastWins(nodes, m) && LastWins(nodes, m')
    ensures m == m'
  {
    assert m.Keys == m'.Keys;
    forall a | a in m ensures m[a] == m'[a] {
      var i :| 0 <= i < |nodes| && nodes[i].address == a;
      var k := LastIndex(nodes, i);
      assert m[nodes[k].address] == nodes[k] == m'[nodes[k].address];
    }
  }

  /** The nodes put into a map one after the other. */
  function MapOf(nodes: seq<Node>): NodeMap {
    if nodes == [] then map[]
    else
      var last := nodes[|nodes| - 1];
      MapOf(nodes[..|nodes| - 1])[last.address := last]
  }

  lemma LastWinsStep(init: seq<Node>, m: NodeMap, node: Node, nodes: seq<Node>, m': NodeMap)
    requires LastWins(init, m) && nodes == init + [node] && m' == m[node.address := node]
    ensures LastWins(nodes, m')
  {
    LastWinsSnoc(init, m, node);
  }

  lemma MapOfInit(nodes: seq<Node>) returns (init: seq<Node>, m: NodeMap, last: Node)
    requires nodes != []
    ensures |init| < |nodes| && m == MapOf(init) && nodes == init + [last] && MapOf(nodes) == m[last.address := last]
  {
    init, last := nodes[..|nodes| - 1], nodes[|nodes| - 1];
    m := MapOf(init);
  }

  lemma {:induction false} MapOfLastWins(nodes: seq<Node>, m: NodeMap)
    requires m == MapOf(nodes)
    ensures LastWins(nodes, m)
    decreases |nodes|
  {
    if nodes == [] {
    } else {
      var init, before, last := MapOfInit(nodes);
      MapOfLastWins(init, before);
      LastWinsStep(init, before, last, nodes, m);
    }
  }

  lemma {:induction false} ReadNodes(rows: seq<string>, read: RowReader) returns (nodes: seq<Node>)
    requires Table(rows, read).Done?
    ensures Reads(rows, read, nodes)
  {
    if rows == [] {
      nodes := [];
    } else {
      nodes := ReadNodes(rows[..|rows| - 1], read);
      nodes := nodes + [read(rows[|rows| - 1]).value];
    }
  }

  lemma {:induction false} TableIsMap(rows: seq<string>, read: RowReader, nodes: seq<Node>)
    requires Reads(rows, read, nodes)
    ensures Table(rows, read) == Done(MapOf(nodes))
  {
    if rows == [] {
    } else {
      var n := |rows| - 1;
      assert Reads(rows[..n], read, nodes[..n]);
      TableIsMap(rows[..n], read, nodes[..n]);
      assert read(rows[n]) == Done(nodes[n]);
    }
  }

  /** A parse that succeeds has read every row, and its map is the last-wins map of the nodes read. */
  lemma TableSound(rows: seq<string>, read: RowReader) returns (nodes: seq<Node>)
    requires Table(rows, read).Done?
    ensures Reads(rows, read, nodes) && LastWins(nodes, Table(rows, read).value)
  {
    nodes := ReadNodes(rows, read);
    TableIsMap(rows, read, nodes);
    MapOfLastWins(nodes, MapOf(nodes));
  }

  /** A parse succeeds when every row can be read. */
  lemma TableComplete(rows: seq<string>, read: RowReader, nodes: seq<Node>)
    requires Reads(rows, read, nodes)
    ensures Table(rows, read).Done? && LastWins(nodes, Table(rows, read).value)
  {
    TableIsMap(rows, read, nodes);
    MapOfLastWins(nodes, MapOf(nodes));
  }

  // ----- The nodes that are left

  /** The nodes that no later node replaces. */
  function Survivors(nodes: seq<Node>): seq<Node> {
    if nodes == [] then []
    else
      var rest := nodes[1..];
      (if exists j :: 0 <= j < |rest| && rest[j].address == nodes[0].address then [] else [nodes[0]]) + Survivors(rest)
  }

  lemma LastOfRest(nodes: seq<Node>)
    requires nodes != []
    ensures forall i :: 0 <= i < |nodes| - 1 ==> (IsLast(nodes, i + 1) <==> IsLast(nodes[1..], i))
    ensures IsLast(nodes, 0) <==> !exists j :: 0 <= j < |nodes[1..]| && nodes[1..][j].address == nodes[0].address
  {
    var rest := nodes[1..];
    forall i | 0 <= i < |rest| ensures IsLast(nodes, i + 1) <==> IsLast(rest, i) {
      if IsLast(rest, i) {
        forall j | i + 1 < j < |nodes| ensures nodes[j].address != nodes[i + 1].address {
          assert rest[j - 1].address != rest[i].address;
        }
      }
      if IsLast(nodes, i + 1) {
        forall j | i < j < |rest| ensures rest[j].address != rest[i].address {
          assert nodes[j + 1].address != nodes[i + 1].address;
        }
      }
    }
    if !exists j :: 0 <= j < |rest| && rest[j].address == nodes[0].address {
      forall j | 0 < j < |nodes| ensures nodes[j].address != nodes[0].address {
        assert rest[j - 1].address != nodes[0].address;
      }
    }
    if IsLast(nodes, 0) {
      forall j | 0 <= j < |rest| ensures rest[j].address != nodes[0].address {
        assert nodes[j + 1].address != nodes[0].address;
      }
    }
  }

  lemma {:induction false} SurvivorsAreLast(nodes: seq<Node>)
    ensures forall x :: x in Survivors(nodes) <==> exists i :: IsLast(nodes, i) && nodes[i] == x
    ensures DistinctAddresses(Survivors(nodes))
  {
    if nodes == [] {
    } else {
      var rest := nodes[1..];
      SurvivorsAreLast(rest);
      LastOfRest(nodes);
      var all, tail := Survivors(nodes), Survivors(rest);
      forall x ensures x in all <==> exists i :: IsLast(nodes, i) && nodes[i] == x {
        if x in tail {
          var i :| IsLast(rest, i) && rest[i] == x;
          assert IsLast(nodes, i + 1);
        } else if x in all {
          assert IsLast(nodes, 0);
        }
        if i :| IsLast(nodes, i) && nodes[i] == x {
          if i > 0 { assert IsLast(rest, i - 1) && rest[i - 1] == x; }
        }
      }
      if IsLast(nodes, 0) {
        forall j | 0 <= j < |tail| ensures tail[j].address != nodes[0].address {
          assert tail[j] in tail;
          var i :| IsLast(rest, i) && rest[i] == tail[j];
          assert rest[i] == nodes[i + 1];
        }
        assert all == [nodes[0]] + tail;
      } else {
        assert all == tail;
      }
    }
  }

  /** The surviving nodes have distinct addresses and give the same map. */
  lemma SurvivorsDecide(nodes: seq<Node>, m: NodeMap)
    requires LastWins(nodes, m)
    ensures DistinctAddresses(Survivors(nodes)) && LastWins(Survivors(nodes), m)
  {
    var left := Survivors(nodes);
    SurvivorsAreLast(nodes);
    forall i | 0 <= i < |left| ensures left[i].address in m && m[left[i].address] == left[i] {
      assert left[i] in left;
      var k :| IsLast(nodes, k) && nodes[k] == left[i];
    }
    forall a | a in m ensures exists i :: 0 <= i < |left| && left[i].address == a {
      var i :| 0 <= i < |nodes| && nodes[i].address == a;
      var k := LastIndex(nodes, i);
      assert nodes[k] in left;
    }
  }

  // ----- Printing a table

  /** A line below the header: an empty one, or a printed row. */
  datatype Item = Blank | Printed(row: Row, pads: seq<string>)

  predicate Printable(item: Item, parseFloat: FloatParser) {
    item.Printed? ==>
      && WellFormed(item.row) && LegalPads(item.pads) && parseFloat(item.row.owns).Some?
  }

  predicate AllPrintable(items: seq<Item>, parseFloat: FloatParser) {
    forall i :: 0 <= i < |items| ==> Printable(items[i], parseFloat)
  }

  function ItemLines(items: seq<Item>, parseFloat: FloatParser): seq<string>
    requires AllPrintable(items, parseFloat)
  {
    if items == [] then []
    else
      var item := items[|items| - 1];
      ItemLines(items[..|items| - 1], parseFloat) + [if item.Blank? then "" else Render(item.row, item.pads)]
  }

  /** The records that were printed, in order. */
  function ItemNodes(items: seq<Item>, parseFloat: FloatParser): seq<Node>
    requires AllPrintable(items, parseFloat)
  {
    if items == [] then []
    else
      var item := items[|items| - 1];
      ItemNodes(items[..|items| - 1], parseFloat) +
      if item.Blank? then [] else [NodeOf(RowFields(item.row), parseFloat(item.row.owns).value)]
  }

  lemma RenderNotEmpty(r: Row, pads: seq<string>)
    requires WellFormed(r) && LegalPads(pads)
    ensures Render(r, pads) != ""
  {
    assert RowParts(r, pads)[0] == [r.status];
  }

  lemma ItemReads(item: Item, parseFloat: FloatParser)
    requires item.Printed? && Printable(item, parseFloat)
    ensures Render(item.row, item.pads) != ""
    ensures Reader(parseFloat)(Render(item.row, item.pads))
         == Done(NodeOf(RowFields(item.row), parseFloat(item.row.owns).value))
  {
    RenderNotEmpty(item.row, item.pads);
    RowRoundTrip(item.row, item.pads);
  }

  lemma ReadsSnoc(rows: seq<string>, read: RowReader, nodes: seq<Node>, row: string, node: Node)
    requires Reads(rows, read, nodes) && read(row) == Done(node)
    ensures Reads(rows + [row], read, nodes + [node])
  {
  }

  lemma NonBlankSnoc(lines: seq<string>, line: string)
    ensures NonBlank(lines + [line]) == NonBlank(lines) + if line == "" then [] else [line]
  {
    assert (lines + [line])[..|lines|] == lines;
  }

  lemma {:induction false} ItemLinesRead(items: seq<Item>, parseFloat: FloatParser)
    requires AllPrintable(items, parseFloat)
    ensures Reads(NonBlank(ItemLines(items, parseFloat)), Reader(parseFloat), ItemNodes(items, parseFloat))
  {
    if items == [] {
    } else {
      var init, item := items[..|items| - 1], items[|items| - 1];
      ItemLinesRead(init, parseFloat);
      var lines, nodes := ItemLines(init, parseFloat), ItemNodes(init, parseFloat);
      if item.Printed? {
        var row := Render(item.row, item.pads);
        ItemReads(item, parseFloat);
        NonBlankSnoc(lines, row);
        ReadsSnoc(NonBlank(lines), Reader(parseFloat), nodes, row,
                  NodeOf(RowFields(item.row), parseFloat(item.row.owns).value));
      } else {
        NonBlankSnoc(lines, "");
        assert NonBlank(lines) + [] == NonBlank(lines) && nodes + [] == nodes;
      }
    }
  }

  /** Printing rows with any padding, with blank lines among them, under any five plain header lines
      and with any line ends, and parsing the text gives the last-wins map of the records. */
  lemma TableRoundTrip(header: seq<string>, items: seq<Item>, parseFloat: FloatParser, ends: seq<Scanner.Eol>)
    requires |header| == 5 && AllPrintable(items, parseFloat)
    requires Scanner.AllPlain(header + ItemLines(items, parseFloat), ends)
    ensures var r := StatusOf(Scanner.Unlines(header + ItemLines(items, parseFloat), ends), parseFloat);
            r.Done? && LastWins(ItemNodes(items, parseFloat), r.value)
  {
    var lines := header + ItemLines(items, parseFloat);
    ItemLinesRead(items, parseFloat);
    Scanner.ScanUnlines(lines, ends);
    assert HEADER_LINES == 5 && lines[5..] == ItemLines(items, parseFloat);
    TableComplete(Rows(lines), Reader(parseFloat), ItemNodes(items, parseFloat));
  }

  ghost function AddressSet(nodes: seq<Node>): set<string> {
    set i | 0 <= i < |nodes| :: nodes[i].address
  }

  lemma KeysAreAddresses(nodes: seq<Node>, m: NodeMap)
    requires LastWins(nodes, m)
    ensures m.Keys == AddressSet(nodes) && |m| == |AddressSet(nodes)|
  {
    assert m.Keys == AddressSet(nodes);
    assert |m.Keys| == |m|;
  }

  lemma {:induction false} AddressCount(nodes: seq<Node>)
    requires DistinctAddresses(nodes)
    ensures |AddressSet(nodes)| == |nodes|
  {
    if nodes == [] {
    } else {
      var n := |nodes| - 1;
      AddressCount(nodes[..n]);
      assert AddressSet(nodes) == AddressSet(nodes[..n]) + {nodes[n].address};
      assert nodes[n].address !in AddressSet(nodes[..n]);
    }
  }

  /** With distinct addresses the map is exactly the one from address to record. */
  lemma DistinctRecords(nodes: seq<Node>, m: NodeMap)
    requires LastWins(nodes, m) && DistinctAddresses(nodes)
    ensures forall i :: 0 <= i < |nodes| ==> nodes[i].address in m && m[nodes[i].address] == nodes[i]
    ensures |m| == |nodes|
  {
    KeysAreAddresses(nodes, m);
    AddressCount(nodes);
  }

  // ----- What the columns become

  /** The names of the states, as the legend above the table lists them. */
  function StatusName(s: NodeStatus): string {
    match s case Up => "Up" case Down => "Down" case UnknownStatus => "Unknown"
  }

  function StateName(s: NodeState): string {
    match s
    case Normal => "Normal"
    case Leaving => "Leaving"
    case Joining => "Joining"
    case Moving => "Moving"
    case UnknownState => "Unknown"
  }

  /** The two letters of a row are the initials of the status and the state, and any other letter
      is unknown. */
  lemma CodesAreInitials(f: Fields, owns: real)
    requires |f.status| == 1 && |f.state| == 1
    ensures var n := NodeOf(f, owns);
            && (n.status != UnknownStatus ==> StatusName(n.status)[0] == f.status[0])
            && (n.status == UnknownStatus <==> f.status[0] !in "UD")
            && (n.state != UnknownState ==> StateName(n.state)[0] == f.state[0])
            && (n.state == UnknownState <==> f.state[0] !in "NLJM")
  {
    assert f.status == [f.status[0]] && f.state == [f.state[0]];
  }

  lemma LoadIsSpan(load: string, unit: string)
    requires Pattern.AllIn(load, Pattern.LoadChar) && Pattern.AllIn(unit, Pattern.Letter)
    ensures Pattern.Span(Pattern.LoadChar, load + unit) == |load|
  {
    var s := load + unit;
    assert forall i :: 0 <= i < |load| ==> s[i] == load[i];
    assert |load| < |s| ==> s[|load|] == unit[0];
  }

  lemma SplitLoad(load: string, unit: string, load': string, unit': string)
    requires Pattern.AllIn(load, Pattern.LoadChar) && Pattern.AllIn(unit, Pattern.Letter)
    requires Pattern.AllIn(load', Pattern.LoadChar) && Pattern.AllIn(unit', Pattern.Letter)
    requires load + unit == load' + unit'
    ensures load == load' && unit == unit'
  {
    LoadIsSpan(load, unit);
    LoadIsSpan(load', unit');
    assert load == (load + unit)[..|load|] && load' == (load' + unit')[..|load'|];
    assert unit == (load + unit)[|load|..] && unit' == (load' + unit')[|load'|..];
  }

  /** The load of a node keeps the number and the unit of the row apart from a missing load, which
      counts as no kibibytes: equal loads mean equal columns. */
  lemma LoadKeepsColumns(f: Fields, g: Fields, owns: real)
    requires Pattern.AllIn(f.load, Pattern.LoadChar) && Pattern.AllIn(f.unit, Pattern.Letter)
    requires Pattern.AllIn(g.load, Pattern.LoadChar) && Pattern.AllIn(g.unit, Pattern.Letter)
    requires f.load != "?" && g.load != "?"
    ensures NodeOf(f, owns).load == NodeOf(g, owns).load <==> f.load == g.load && f.unit == g.unit
    ensures NodeOf(f, owns).load == NodeOf(f.(load := "?", unit := g.unit), owns).load <==>
            f.load == "0" && f.unit == "KiB"
  {
    if f.load + f.unit == g.load + g.unit {
      SplitLoad(f.load, f.unit, g.load, g.unit);
    }
    if f.load + f.unit == "0" + "KiB" {
      SplitLoad(f.load, f.unit, "0", "KiB");
    }
  }
}
