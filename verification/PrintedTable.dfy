/** For any list of addresses that a row can have, a table that prints one row for each of them, and what the
    verdict on such a table depends on. */
module PrintedTable {
  import opened Outcomes
  import opened Pattern
  import opened NodetoolRow
  import opened Cassandra
  import opened NodetoolTable
  import opened Kubernetes
  import opened Health
  import opened HealthProperties
  import opened Pipeline
  import Cluster
  import Load
  import Scanner

  // ----- The addresses a row can have

  function DigitStrings(): set<string> {
    set c: char | '0' <= c <= '9' :: [c]
  }

  function Octets(): set<string> {
    var digits := DigitStrings();
    set a, b, c | a in digits && b in digits + {""} && c in digits + {""} :: a + b + c
  }

  lemma OctetsFit(s: string)
    ensures s in Octets() <==> Fits(OCTET, s)
  {
    var digits := DigitStrings();
    if s in Octets() {
      var a, b, c :| a in digits && b in digits + {""} && c in digits + {""} && s == a + b + c;
      assert |a| == 1 && |b| <= 1 && |c| <= 1;
    }
    if Fits(OCTET, s) {
      var a, b, c := s[..1], if |s| < 2 then "" else s[1..2], if |s| < 3 then "" else s[2..];
      assert forall i :: 0 <= i < |s| ==> [s[i]] in digits;
      assert a == [s[0]] && (|s| < 2 || b == [s[1]]) && (|s| < 3 || c == [s[2]]);
      assert s == a + b + c;
    }
  }

  function Dotted(a: string, b: string, c: string, d: string): string {
    a + "." + b + "." + c + "." + d
  }

  /** There are finitely many of them. */
  function AllAddresses(): set<string> {
    set a, b, c, d | a in Octets() && b in Octets() && c in Octets() && d in Octets() :: Dotted(a, b, c, d)
  }

  lemma AddressInAll(r: Row)
    requires WellFormed(r)
    ensures Address(r) in AllAddresses()
  {
    var o := r.octets;
    forall i | 0 <= i < 4 ensures o[i] in Octets() {
      OctetsFit(o[i]);
    }
    assert Address(r) == Dotted(o[0], o[1], o[2], o[3]);
  }

  lemma OctetsOf(address: string) returns (o: seq<string>)
    requires address in AllAddresses()
    ensures |o| == 4 && (forall i :: 0 <= i < 4 ==> Fits(OCTET, o[i])) && address == Dotted(o[0], o[1], o[2], o[3])
  {
    var a, b, c, d :| a in Octets() && b in Octets() && c in Octets() && d in Octets()
                      && address == Dotted(a, b, c, d);
    o := [a, b, c, d];
    OctetsFit(a);
    OctetsFit(b);
    OctetsFit(c);
    OctetsFit(d);
  }

  lemma ReadAddress(row: string, parseFloat: FloatParser, node: Node)
    requires ProcessNode(row, parseFloat) == Done(node)
    ensures node.address in AllAddresses()
  {
    var r, pads := MatchIsRendering(row);
    RowRoundTrip(r, pads);
    AddressInAll(r);
  }

  /** Every table that can be read has such addresses only. */
  lemma ReadAddresses(text: string, parseFloat: FloatParser, nodes: seq<Node>)
    requires AllRead(text, parseFloat, nodes)
    ensures AddressSet(nodes) <= AllAddresses()
  {
    var rows := Rows(Scanner.Lines(text));
    forall i | 0 <= i < |nodes| ensures nodes[i].address in AllAddresses() {
      ReadAddress(rows[i], parseFloat, nodes[i]);
    }
  }

  // ----- One row

  const ONE_SPACE: seq<string> := [" ", " ", " ", " ", " ", " ", " "]

  lemma OneSpaceIsLegal()
    ensures LegalPads(ONE_SPACE)
  {
    assert AllIn(" ", Space);
  }

  lemma ShortParts(r: Row)
    requires WellFormed(r) && LegalPads(ONE_SPACE)
    requires |r.load| <= 100 && |r.unit| <= 100 && |r.tokens| <= 100 && |r.owns| <= 100 && |r.hostId| <= 100
    requires r.rack == "rack1"
    ensures var parts := RowParts(r, ONE_SPACE);
            forall i :: 0 <= i < |parts| ==> |parts[i]| <= 100 && AllIn(parts[i], NotNewline)
  {
    var parts := RowParts(r, ONE_SPACE);
    RowPartsFit(r, ONE_SPACE);
    forall i | 0 <= i < |parts| ensures |parts[i]| <= 100 && AllIn(parts[i], NotNewline) {
      assert Fits(ROW[i], parts[i]);
    }
  }

  /** A printed row with short columns is a line that the scanner gives back. */
  lemma ShortRowIsPlain(r: Row)
    requires WellFormed(r) && LegalPads(ONE_SPACE)
    requires |r.load| <= 100 && |r.unit| <= 100 && |r.tokens| <= 100 && |r.owns| <= 100 && |r.hostId| <= 100
    requires r.rack == "rack1"
    ensures Scanner.Plain(Render(r, ONE_SPACE), Scanner.LF)
  {
    var parts := RowParts(r, ONE_SPACE);
    ShortParts(r);
    ConcatBound(parts, 100);
    ConcatLast(parts);
  }

  /** The row of a node that has not reported its load. */
  function RowOf(status: char, octets: seq<string>): Row {
    Row(status, 'N', octets, "?", "", "32", "50.0", "a", "rack1")
  }

  predicate FourOctets(octets: seq<string>) {
    |octets| == 4 && forall i :: 0 <= i < 4 ==> Fits(OCTET, octets[i])
  }

  lemma RowOfWellFormed(status: char, octets: seq<string>)
    requires In(status, Upper) && FourOctets(octets)
    ensures WellFormed(RowOf(status, octets))
  {
  }

  function RowText(status: char, octets: seq<string>): string
    requires In(status, Upper) && FourOctets(octets) && LegalPads(ONE_SPACE)
  {
    RowOfWellFormed(status, octets);
    Render(RowOf(status, octets), ONE_SPACE)
  }

  function NodeIn(status: char, octets: seq<string>, owns: real): Node
    requires |octets| == 4
  {
    Node(StatusOfCode([status]), Normal, Dotted(octets[0], octets[1], octets[2], octets[3]), "0KiB", owns, "a")
  }

  lemma RowReads(status: char, octets: seq<string>, parseFloat: FloatParser)
    requires In(status, Upper) && FourOctets(octets)
    requires parseFloat("50.0").Some? && LegalPads(ONE_SPACE)
    ensures RowText(status, octets) != "" && Scanner.Plain(RowText(status, octets), Scanner.LF)
    ensures Reader(parseFloat)(RowText(status, octets)) == Done(NodeIn(status, octets, parseFloat("50.0").value))
  {
    var r := RowOf(status, octets);
    RowOfWellFormed(status, octets);
    ShortRowIsPlain(r);
    ItemReads(Printed(r, ONE_SPACE), parseFloat);
  }

  lemma RowBegins(status: char, octets: seq<string>)
    requires In(status, Upper) && FourOctets(octets) && LegalPads(ONE_SPACE)
    ensures var text := RowText(status, octets); |text| >= 2 && text[0] == status && text[1] == 'N'
  {
    RowOfWellFormed(status, octets);
    RowRoundTrip(RowOf(status, octets), ONE_SPACE);
    CodeOfRow(RowText(status, octets));
  }

  /** A printed row of an address, which says UN or DN, and the node it is read as. */
  ghost predicate RowFor(row: string, node: Node, address: string, up: set<string>, parseFloat: FloatParser) {
    && |row| >= 2 && row[0] == (if address in up then 'U' else 'D') && row[1] == 'N'
    && Scanner.Plain(row, Scanner.LF)
    && Reader(parseFloat)(row) == Done(node) && node.address == address && node.load == "0KiB"
  }

  lemma PrintRow(address: string, up: set<string>, parseFloat: FloatParser) returns (row: string, node: Node)
    requires address in AllAddresses() && parseFloat("50.0").Some?
    ensures RowFor(row, node, address, up, parseFloat)
  {
    var octets := OctetsOf(address);
    var status := if address in up then 'U' else 'D';
    OneSpaceIsLegal();
    RowReads(status, octets, parseFloat);
    RowBegins(status, octets);
    row, node := RowText(status, octets), NodeIn(status, octets, parseFloat("50.0").value);
  }

  // ----- All rows

  ghost predicate RowsFor(rows: seq<string>, nodes: seq<Node>, addresses: seq<string>, up: set<string>,
                          parseFloat: FloatParser)
  {
    && |rows| == |nodes| == |addresses|
    && forall i :: 0 <= i < |rows| ==> RowFor(rows[i], nodes[i], addresses[i], up, parseFloat)
  }

  lemma RowsForSnoc(rows: seq<string>, nodes: seq<Node>, addresses: seq<string>, up: set<string>,
                    parseFloat: FloatParser, row: string, node: Node, address: string)
    requires RowsFor(rows, nodes, addresses, up, parseFloat) && RowFor(row, node, address, up, parseFloat)
    ensures RowsFor(rows + [row], nodes + [node], addresses + [address], up, parseFloat)
  {
  }

  lemma {:induction false} PrintRows(addresses: seq<string>, up: set<string>, parseFloat: FloatParser)
    returns (rows: seq<string>, nodes: seq<Node>)
    requires (forall i :: 0 <= i < |addresses| ==> addresses[i] in AllAddresses()) && parseFloat("50.0").Some?
    ensures RowsFor(rows, nodes, addresses, up, parseFloat)
  {
    if addresses == [] {
      rows, nodes := [], [];
    } else {
      var n := |addresses| - 1;
      rows, nodes := PrintRows(addresses[..n], up, parseFloat);
      var row, node := PrintRow(addresses[n], up, parseFloat);
      RowsForSnoc(rows, nodes, addresses[..n], up, parseFloat, row, node, addresses[n]);
      assert addresses == addresses[..n] + [addresses[n]];
      rows, nodes := rows + [row], nodes + [node];
    }
  }

  /** Five lines above the rows, none of them empty. */
  const HEADER: seq<string> := ["Datacenter: dc1", "===", "Status", "|/ State", "--  Address"]

  lemma HeaderIsPlain()
    ensures |HEADER| == 5 && forall i :: 0 <= i < 5 ==> Scanner.Plain(HEADER[i], Scanner.LF)
  {
    assert Scanner.OneLine("Datacenter: dc1") && Scanner.OneLine("===") && Scanner.OneLine("Status");
    assert Scanner.OneLine("|/ State") && Scanner.OneLine("--  Address");
  }

  function TableText(rows: seq<string>): string {
    Scanner.Unlines(HEADER + rows, seq(5 + |rows|, _ => Scanner.LF))
  }

  lemma {:induction false} NonBlankAll(rows: seq<string>)
    requires "" !in rows
    ensures NonBlank(rows) == rows
  {
    if rows == [] {
    } else {
      NonBlankAll(rows[..|rows| - 1]);
    }
  }

  lemma TableRows(rows: seq<string>)
    requires forall i :: 0 <= i < |rows| ==> rows[i] != "" && Scanner.Plain(rows[i], Scanner.LF)
    ensures Scanner.Complete(TableText(rows)) && Rows(Scanner.Lines(TableText(rows))) == rows
  {
    var lines := HEADER + rows;
    HeaderIsPlain();
    Scanner.ScanUnlines(lines, seq(5 + |rows|, _ => Scanner.LF));
    assert lines[HEADER_LINES..] == rows;
    NonBlankAll(rows);
  }

  lemma RowsAreRead(rows: seq<string>, nodes: seq<Node>, addresses: seq<string>, up: set<string>,
                    parseFloat: FloatParser)
    requires RowsFor(rows, nodes, addresses, up, parseFloat)
    ensures Reads(rows, Reader(parseFloat), nodes)
    ensures forall i :: 0 <= i < |rows| ==> rows[i] != "" && Scanner.Plain(rows[i], Scanner.LF)
  {
    forall i | 0 <= i < |rows|
      ensures rows[i] != "" && Scanner.Plain(rows[i], Scanner.LF) && Reader(parseFloat)(rows[i]) == Done(nodes[i])
    {
      assert RowFor(rows[i], nodes[i], addresses[i], up, parseFloat);
    }
  }

  /** The text prints the rows of the addresses and is read as the nodes. */
  ghost predicate Prints(text: string, nodes: seq<Node>, addresses: seq<string>, up: set<string>,
                         parseFloat: FloatParser)
  {
    AllRead(text, parseFloat, nodes) && RowsFor(Rows(Scanner.Lines(text)), nodes, addresses, up, parseFloat)
  }

  /** For any addresses, and any of them to be up, there is such a text. */
  lemma PrintTable(addresses: seq<string>, up: set<string>, parseFloat: FloatParser)
    returns (text: string, nodes: seq<Node>)
    requires (forall i :: 0 <= i < |addresses| ==> addresses[i] in AllAddresses()) && parseFloat("50.0").Some?
    ensures Prints(text, nodes, addresses, up, parseFloat)
  {
    var rows;
    rows, nodes := PrintRows(addresses, up, parseFloat);
    RowsAreRead(rows, nodes, addresses, up, parseFloat);
    TableRows(rows);
    text := TableText(rows);
  }

  // ----- The verdict on such a table

  lemma LoadsAreEven(nodes: seq<Node>, parseLoad: LoadParser, threshold: int)
    requires parseLoad("0KiB") == Some(0) && forall i :: 0 <= i < |nodes| ==> nodes[i].load == "0KiB"
    ensures LoadsEven(nodes, parseLoad, threshold)
  {
    var loads := LoadsOf(nodes, parseLoad);
    Load.PairScanIsLinear(loads, threshold);
    forall i, j | 0 <= i < j < |loads| ensures !Load.IsLoadOverThreshold(loads[i], loads[j], threshold) {
      Load.IntegerTest(0, 0, threshold);
    }
  }

  lemma LoadsLeftAreEven(nodes: seq<Node>, parseLoad: LoadParser, threshold: int)
    requires parseLoad("0KiB") == Some(0) && forall i :: 0 <= i < |nodes| ==> nodes[i].load == "0KiB"
    ensures LoadsEven(Survivors(nodes), parseLoad, threshold)
  {
    var left := Survivors(nodes);
    SurvivorsAreLast(nodes);
    forall i | 0 <= i < |left| ensures left[i].load == "0KiB" {
      assert left[i] in left;
    }
    LoadsAreEven(left, parseLoad, threshold);
  }

  predicate Distinct(addresses: seq<string>) {
    forall i, j :: 0 <= i < j < |addresses| ==> addresses[i] != addresses[j]
  }

  function Members(addresses: seq<string>): set<string> {
    set i | 0 <= i < |addresses| :: addresses[i]
  }

  lemma NodesOfRows(rows: seq<string>, nodes: seq<Node>, addresses: seq<string>, up: set<string>,
                    parseFloat: FloatParser)
    requires RowsFor(rows, nodes, addresses, up, parseFloat) && Distinct(addresses)
    ensures AddressSet(nodes) == Members(addresses) && |AddressSet(nodes)| == |addresses|
    ensures forall i :: 0 <= i < |nodes| ==> nodes[i].load == "0KiB"
    ensures forall i :: 0 <= i < |nodes| ==> IsLast(nodes, i)
    ensures forall i :: 0 <= i < |nodes| ==> nodes[i].address == addresses[i]
  {
    forall i | 0 <= i < |nodes| ensures nodes[i].address == addresses[i] && nodes[i].load == "0KiB" {
      assert RowFor(rows[i], nodes[i], addresses[i], up, parseFloat);
    }
    AddressCount(nodes);
  }

  /** The last rows of some addresses say UN exactly when the table was printed with these up. */
  lemma RowsSayUp(rows: seq<string>, nodes: seq<Node>, addresses: seq<string>, up: set<string>,
                  parseFloat: FloatParser, some: set<string>)
    requires RowsFor(rows, nodes, addresses, up, parseFloat) && Distinct(addresses)
    ensures LastRowsSayUN(rows, nodes, some) <==> some * Members(addresses) <= up
  {
    NodesOfRows(rows, nodes, addresses, up, parseFloat);
    forall i | 0 <= i < |rows| ensures SaysUN(rows[i]) <==> addresses[i] in up {
      assert RowFor(rows[i], nodes[i], addresses[i], up, parseFloat);
    }
    if LastRowsSayUN(rows, nodes, some) {
      forall a | a in some * Members(addresses) ensures a in up {
        var i :| 0 <= i < |addresses| && addresses[i] == a;
        assert IsLast(nodes, i);
      }
    }
  }

  lemma PodsFitRows(pods: seq<Pod>, rows: seq<string>, nodes: seq<Node>, addresses: seq<string>, up: set<string>,
                    parseFloat: FloatParser)
    requires RowsFor(rows, nodes, addresses, up, parseFloat) && Distinct(addresses)
    requires |pods| == |addresses| >= 2 && IpSet(Cluster.Summaries(pods)) <= Members(addresses) * up
    ensures PodsFit(pods, rows, nodes)
  {
    NodesOfRows(rows, nodes, addresses, up, parseFloat);
    RowsSayUp(rows, nodes, addresses, up, parseFloat, IpSet(Cluster.Summaries(pods)));
  }

  lemma PrintedFits(pods: seq<Pod>, env: Setting, text: string, nodes: seq<Node>, addresses: seq<string>,
                    up: set<string>)
    requires Prints(text, nodes, addresses, up, env.parseFloat) && Distinct(addresses)
    requires |pods| == |addresses| >= 2 && IpSet(Cluster.Summaries(pods)) <= Members(addresses) * up
    requires env.parseLoad("0KiB") == Some(0)
    ensures TableFits(pods, env, text, nodes)
  {
    var rows := Rows(Scanner.Lines(text));
    PodsFitRows(pods, rows, nodes, addresses, up, env.parseFloat);
    NodesOfRows(rows, nodes, addresses, up, env.parseFloat);
    LoadsLeftAreEven(nodes, env.parseLoad, env.threshold);
  }

  /** Pods that are shown fully ready and have addresses that are up are reported as a healthy cluster when there
      are as many rows as pods, whatever the other rows say. */
  lemma PrintedHealthy(pods: seq<Pod>, env: Setting, text: string, nodes: seq<Node>, addresses: seq<string>,
                       up: set<string>)
    requires Prints(text, nodes, addresses, up, env.parseFloat) && Distinct(addresses)
    requires |pods| == |addresses| >= 2 && IpSet(Cluster.Summaries(pods)) <= Members(addresses) * up
    requires env.parseLoad("0KiB") == Some(0) && env.nodetool(pods[0]) == Some(text) && AllShown(pods)
    ensures ReportsHealthy(pods, env) && PrintsTable(pods, env, text, nodes)
  {
    PrintedFits(pods, env, text, nodes, addresses, up);
    HealthyWhenFits(pods, env, text, nodes);
  }
}
