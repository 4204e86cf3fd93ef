/** The parser of the `nodetool status` table: from its text to a map from address to node. */
module Cassandra {
  import opened Outcomes
  import opened NodetoolRow
  import Scanner

  datatype NodeStatus = Up | Down | UnknownStatus
  datatype NodeState = Normal | Leaving | Joining | Moving | UnknownState

  datatype Node = Node(status: NodeStatus, state: NodeState, address: string, load: string, owns: real, hostId: string)

  datatype Error = BadOwns(owns: string) | LineTooLong

  type NodeMap = map<string, Node>

  /** The conversion of the share of owned data; a library function, so any partial function. */
  type FloatParser = string -> Option<real>

  function NodeLoad(load: string, unit: string): string {
    if load == "?" then "0KiB" else load + unit
  }

  function StatusOfCode(status: string): NodeStatus {
    if status == "U" then Up else if status == "D" then Down else UnknownStatus
  }

  function StateOfCode(state: string): NodeState {
    if state == "N" then Normal
    else if state == "M" then Moving
    else if state == "J" then Joining
    else if state == "L" then Leaving
    else UnknownState
  }

  function NodeOf(f: Fields, owns: real): Node {
    Node(StatusOfCode(f.status), StateOfCode(f.state), f.address, NodeLoad(f.load, f.unit), owns, f.hostId)
  }

  /** A row that does not match has no fields to index, which is a run-time panic. */
  function ProcessNode(line: string, parseFloat: FloatParser): Outcome<Node, Error> {
    match MatchRow(line)
    case None => Panicked
    case Some(f) =>
      match parseFloat(f.owns)
      case None => Failed(BadOwns(f.owns))
      case Some(owns) => Done(NodeOf(f, owns))
  }

  /** Reading one row, with a given conversion of the share of owned data. */
  type RowReader = string -> Outcome<Node, Error>

  function Reader(parseFloat: FloatParser): RowReader {
    line => ProcessNode(line, parseFloat)
  }

  // ----- The meaning of a table

  const HEADER_LINES := 5

  function NonBlank(lines: seq<string>): (rows: seq<string>)
    ensures "" !in rows
  {
    if lines == [] then []
    else NonBlank(lines[..|lines| - 1]) + if lines[|lines| - 1] == "" then [] else [lines[|lines| - 1]]
  }

  /** The lines that are parsed as nodes: those after the header that are not empty. */
  function Rows(lines: seq<string>): seq<string> {
    if |lines| < HEADER_LINES then [] else NonBlank(lines[HEADER_LINES..])
  }

  /** One more row: a table that has failed stays as it is. */
  function AddRow(table: Outcome<NodeMap, Error>, row: string, read: RowReader): Outcome<NodeMap, Error> {
    if !table.Done? then table
    else
      match read(row)
      case Failed(e) => Failed(e)
      case Panicked => Panicked
      case Done(node) => Done(table.value[node.address := node])
  }

  /** The map that a list of rows gives, or the way the first bad row ends the parse. */
  function Table(rows: seq<string>, read: RowReader): Outcome<NodeMap, Error> {
    if rows == [] then Done(map[]) else AddRow(Table(rows[..|rows| - 1], read), rows[|rows| - 1], read)
  }

  function StatusOf(text: string, parseFloat: FloatParser): Outcome<NodeMap, Error> {
    var table := Table(Rows(Scanner.Lines(text)), Reader(parseFloat));
    if table.Done? && !Scanner.Complete(text) then Failed(LineTooLong) else table
  }

  lemma RowsSnoc(lines: seq<string>, line: string)
    ensures Rows(lines + [line]) == Rows(lines) + if |lines| < HEADER_LINES || line == "" then [] else [line]
  {
    if |lines| >= HEADER_LINES {
      var body := (lines + [line])[HEADER_LINES..];
      assert body == lines[HEADER_LINES..] + [line];
      assert body[..|body| - 1] == lines[HEADER_LINES..] && body[|body| - 1] == line;
    } else {
      assert NonBlank((lines + [line])[|lines| + 1..]) == [];
    }
  }

  lemma {:induction false} RowsPrefix(a: seq<string>, b: seq<string>)
    ensures Rows(a) <= Rows(a + b)
  {
    if b == [] {
      assert a + b == a;
    } else {
      var init, last := b[..|b| - 1], b[|b| - 1];
      RowsPrefix(a, init);
      RowsSnoc(a + init, last);
      assert a + b == (a + init) + [last];
    }
  }

  /** How one more line changes the meaning of the lines read so far. */
  lemma LineStep(seen: seq<string>, line: string, read: RowReader)
    ensures Table(Rows(seen + [line]), read) ==
            if |seen| < HEADER_LINES || line == "" then Table(Rows(seen), read)
            else AddRow(Table(Rows(seen), read), line, read)
  {
    RowsSnoc(seen, line);
    assert Rows(seen) + [] == Rows(seen);
    if |seen| >= HEADER_LINES && line != "" {
      var rows := Rows(seen + [line]);
      assert rows[..|rows| - 1] == Rows(seen) && rows[|rows| - 1] == line;
    }
  }

  /** Once a row ends the parse, the rows after it do not matter. */
  lemma {:induction false} TableStops(seen: seq<string>, rows: seq<string>, read: RowReader)
    requires seen <= rows && !Table(seen, read).Done?
    ensures Table(rows, read) == Table(seen, read)
  {
    if |seen| == |rows| {
      assert seen == rows;
    } else {
      TableStops(seen, rows[..|rows| - 1], read);
    }
  }

  ghost predicate FirstUnread(rows: seq<string>, read: RowReader, k: int) {
    0 <= k < |rows| && !read(rows[k]).Done? && forall j :: 0 <= j < k ==> read(rows[j]).Done?
  }

  /** A table is done exactly when every row can be read; otherwise it ends the way its first unread row does. */
  lemma {:induction false} TableOutcome(rows: seq<string>, read: RowReader)
    ensures Table(rows, read).Done? <==> forall k :: 0 <= k < |rows| ==> read(rows[k]).Done?
    ensures Table(rows, read).Done? <==> forall k :: !FirstUnread(rows, read, k)
    ensures forall k :: FirstUnread(rows, read, k) ==> Table(rows, read) == AddRow(Done(map[]), rows[k], read)
  {
    if rows == [] {
    } else {
      var n := |rows| - 1;
      var init := rows[..n];
      TableOutcome(init, read);
      assert forall k :: 0 <= k < n ==> init[k] == rows[k];
      forall k | 0 <= k < n ensures FirstUnread(rows, read, k) <==> FirstUnread(init, read, k) {
      }
      if Table(init, read).Done? {
        assert !read(rows[n]).Done? ==> FirstUnread(rows, read, n);
      } else {
        var k :| FirstUnread(init, read, k);
        assert FirstUnread(rows, read, k);
      }
    }
  }

  lemma TablePanics(rows: seq<string>, read: RowReader)
    ensures Table(rows, read).Panicked? <==> exists k :: FirstUnread(rows, read, k) && read(rows[k]).Panicked?
  {
    TableOutcome(rows, read);
    if Table(rows, read).Panicked? {
      var k :| FirstUnread(rows, read, k);
      assert read(rows[k]).Panicked?;
    }
  }

  /** The parser panics exactly when the first row that cannot be read is one that does not match. */
  lemma PanicsAtUnmatchedRow(text: string, parseFloat: FloatParser)
    ensures var rows := Rows(Scanner.Lines(text));
            StatusOf(text, parseFloat).Panicked? <==>
            exists k :: FirstUnread(rows, Reader(parseFloat), k) && MatchRow(rows[k]).None?
  {
    var rows, read := Rows(Scanner.Lines(text)), Reader(parseFloat);
    TablePanics(rows, read);
    assert forall row :: read(row).Panicked? <==> MatchRow(row).None?;
  }

  /** When every row can be read, the parse still fails on a text with a line that is too long. */
  lemma TooLongFails(text: string, parseFloat: FloatParser)
    requires forall k :: 0 <= k < |Rows(Scanner.Lines(text))| ==>
               Reader(parseFloat)(Rows(Scanner.Lines(text))[k]).Done?
    ensures StatusOf(text, parseFloat).Done? <==> Scanner.Complete(text)
    ensures !Scanner.Complete(text) ==> StatusOf(text, parseFloat) == Failed(LineTooLong)
  {
    TableOutcome(Rows(Scanner.Lines(text)), Reader(parseFloat));
  }

  /** The lines seen so far, the text that is left, and the nodes of the lines seen. */
  ghost predicate Reading(text: string, parseFloat: FloatParser, seen: seq<string>, rest: string, statuses: NodeMap) {
    && Scanner.Lines(text) == seen + Scanner.Lines(rest)
    && Scanner.Complete(text) == Scanner.Complete(rest)
    && Table(Rows(seen), Reader(parseFloat)) == Done(statuses)
  }

  lemma StopsAt(text: string, parseFloat: FloatParser, seen: seq<string>, others: seq<string>)
    requires Scanner.Lines(text) == seen + others && !Table(Rows(seen), Reader(parseFloat)).Done?
    ensures StatusOf(text, parseFloat) == Table(Rows(seen), Reader(parseFloat))
  {
    RowsPrefix(seen, others);
    TableStops(Rows(seen), Rows(Scanner.Lines(text)), Reader(parseFloat));
  }

  lemma NextLine(text: string, parseFloat: FloatParser, seen: seq<string>, rest: string, statuses: NodeMap)
    requires Reading(text, parseFloat, seen, rest, statuses) && Scanner.Next(rest).Token?
    ensures var Token(line, rest') := Scanner.Next(rest);
            && Scanner.Lines(text) == (seen + [line]) + Scanner.Lines(rest')
            && Scanner.Complete(text) == Scanner.Complete(rest')
  {
    var Token(line, rest') := Scanner.Next(rest);
    assert seen + ([line] + Scanner.Lines(rest')) == (seen + [line]) + Scanner.Lines(rest');
  }

  /** How the line that was just scanned changes what has been read. */
  ghost predicate LineRead(text: string, parseFloat: FloatParser, seen: seq<string>, line: string, rest: string,
                           statuses: NodeMap)
  {
    if |seen| < HEADER_LINES || line == "" then Reading(text, parseFloat, seen + [line], rest, statuses)
    else match ProcessNode(line, parseFloat)
         case Failed(e) => StatusOf(text, parseFloat) == Failed(e)
         case Panicked => StatusOf(text, parseFloat) == Panicked
         case Done(node) => Reading(text, parseFloat, seen + [line], rest, statuses[node.address := node])
  }

  lemma ReadLine(text: string, parseFloat: FloatParser, seen: seq<string>, rest: string, statuses: NodeMap)
    requires Reading(text, parseFloat, seen, rest, statuses) && Scanner.Next(rest).Token?
    ensures var Token(line, rest') := Scanner.Next(rest); LineRead(text, parseFloat, seen, line, rest', statuses)
  {
    var Token(line, rest') := Scanner.Next(rest);
    NextLine(text, parseFloat, seen, rest, statuses);
    LineStep(seen, line, Reader(parseFloat));
    if !Table(Rows(seen + [line]), Reader(parseFloat)).Done? {
      StopsAt(text, parseFloat, seen + [line], Scanner.Lines(rest'));
    }
  }

  lemma ReadAll(text: string, parseFloat: FloatParser, seen: seq<string>, rest: string, statuses: NodeMap)
    requires Reading(text, parseFloat, seen, rest, statuses) && !Scanner.Next(rest).Token?
    ensures StatusOf(text, parseFloat) == if Scanner.Next(rest).TooLong? then Failed(LineTooLong) else Done(statuses)
  {
    assert seen + [] == seen;
  }

  /** The parser: a loop over the scanner that counts lines and fills the map. */
  method GetStatus(text: string, parseFloat: FloatParser) returns (r: Outcome<NodeMap, Error>)
    ensures r == StatusOf(text, parseFloat)
  {
    var statuses: NodeMap := map[];
    var lineCount, rest := 0, text;
    ghost var seen: seq<string> := [];
    var step := Scanner.Next(rest);
    while step.Token?
      invariant step == Scanner.Next(rest) && lineCount == |seen|
      invariant Reading(text, parseFloat, seen, rest, statuses)
      decreases |rest|
    {
      ReadLine(text, parseFloat, seen, rest, statuses);
      lineCount := lineCount + 1;
      var line := step.line;
      rest, seen := step.rest, seen + [line];
      step := Scanner.Next(rest);
      if lineCount <= HEADER_LINES || line == "" {
        continue;
      }
      var node := ProcessNode(line, parseFloat);
      match node {
        case Failed(e) => return Failed(e);
        case Panicked => return Panicked;
        case Done(value) => statuses := statuses[value.address := value];
      }
    }
    ReadAll(text, parseFloat, seen, rest, statuses);
    return if step.TooLong? then Failed(LineTooLong) else Done(statuses);
  }
}
