/** The line scanner the table parser runs on: bufio.Scanner with its default split function.
    A text is a string with one character for each byte. */
module Scanner {

  /** A line that needs a buffer of more than this many bytes stops the scan with an error. */
  const MAX_TOKEN_SIZE := 65536

  function LineLength(text: string): (n: nat)
    ensures n <= |text| && forall i :: 0 <= i < n ==> text[i] != '\n'
    ensures n < |text| ==> text[n] == '\n'
  {
    if text == "" || text[0] == '\n' then 0
    else
      var n := 1 + LineLength(text[1..]);
      assert forall i :: 0 < i < n ==> text[i] == text[1..][i - 1];
      n
  }

  function DropCR(line: string): string {
    if line != "" && line[|line| - 1] == '\r' then line[..|line| - 1] else line
  }

  datatype Step = End | TooLong | Token(line: string, rest: string)

  /** One call of Scan: the next line without its terminator, and the text after it. */
  function Next(text: string): (step: Step)
    ensures step.Token? ==> |step.rest| < |text|
  {
    var n := LineLength(text);
    if text == "" then End
    else if n >= MAX_TOKEN_SIZE then TooLong
    else Token(DropCR(text[..n]), if n < |text| then text[n + 1..] else "")
  }

  /** All lines up to the end of the text or to the first line that is too long. */
  function Lines(text: string): seq<string>
    decreases |text|
  {
    match Next(text)
    case Token(line, rest) => [line] + Lines(rest)
    case _ => []
  }

  /** The scan reaches the end of the text. */
  predicate Complete(text: string)
    decreases |text|
  {
    match Next(text)
    case Token(line, rest) => Complete(rest)
    case TooLong => false
    case End => true
  }

  /** The ends of a line that the scanner takes away; only the last line can end with the text. */
  datatype Eol = LF | CRLF | EndOfText

  function EolText(eol: Eol): string {
    match eol case LF => "\n" case CRLF => "\r\n" case EndOfText => ""
  }

  predicate OneLine(line: string) {
    forall i :: 0 <= i < |line| ==> line[i] != '\n'
  }

  /** A line that fits the buffer with what belongs to it before the line feed. */
  predicate Fits(line: string, eol: Eol) {
    |line| + (if eol.CRLF? then 1 else 0) < 65536
  }

  /** A line that the scanner gives back as it was written. */
  predicate Plain(line: string, eol: Eol) {
    && OneLine(line) && Fits(line, eol)
    && (!eol.CRLF? && line != "" ==> line[|line| - 1] != '\r')
  }

  /** One end for each line; a last line that ends with the text is not empty. */
  predicate LegalEnds(lines: seq<string>, ends: seq<Eol>) {
    |ends| == |lines| && forall i :: 0 <= i < |lines| ==> ends[i].EndOfText? ==> i == |lines| - 1 && lines[i] != ""
  }

  predicate AllPlain(lines: seq<string>, ends: seq<Eol>) {
    LegalEnds(lines, ends) && forall i :: 0 <= i < |lines| ==> Plain(lines[i], ends[i])
  }

  function Unlines(lines: seq<string>, ends: seq<Eol>): string
    requires |ends| == |lines|
  {
    if lines == [] then "" else lines[0] + EolText(ends[0]) + Unlines(lines[1..], ends[1..])
  }

  lemma LegalTail(lines: seq<string>, ends: seq<Eol>)
    requires lines != [] && LegalEnds(lines, ends)
    ensures LegalEnds(lines[1..], ends[1..])
    ensures ends[0].EndOfText? ==> lines[1..] == []
  {
  }

  lemma NextOfUnlines(lines: seq<string>, ends: seq<Eol>)
    requires lines != [] && LegalEnds(lines, ends) && OneLine(lines[0])
    ensures Next(Unlines(lines, ends)) ==
            if Fits(lines[0], ends[0])
            then Token(DropCR(lines[0] + if ends[0].CRLF? then "\r" else ""), Unlines(lines[1..], ends[1..]))
            else TooLong
  {
    var line, text := lines[0] + (if ends[0].CRLF? then "\r" else ""), Unlines(lines, ends);
    var rest := Unlines(lines[1..], ends[1..]);
    LegalTail(lines, ends);
    assert text == if ends[0].EndOfText? then line else line + "\n" + rest;
    assert forall i :: 0 <= i < |line| ==> text[i] == line[i];
    assert ends[0].EndOfText? || text[|line|] == '\n';
    assert LineLength(text) == |line| && text[..|line|] == line;
    assert !ends[0].EndOfText? ==> text[|line| + 1..] == rest;
  }

  lemma NextIsPlain(lines: seq<string>, ends: seq<Eol>)
    requires lines != [] && LegalEnds(lines, ends) && Plain(lines[0], ends[0])
    ensures Next(Unlines(lines, ends)) == Token(lines[0], Unlines(lines[1..], ends[1..]))
  {
    var line := lines[0];
    NextOfUnlines(lines, ends);
    assert line + "" == line && (line + "\r")[..|line|] == line;
  }

  /** Writing plain lines, each with any line end, and scanning the text gives the lines back. */
  lemma {:induction false} ScanUnlines(lines: seq<string>, ends: seq<Eol>)
    requires AllPlain(lines, ends)
    ensures Lines(Unlines(lines, ends)) == lines && Complete(Unlines(lines, ends))
  {
    if lines == [] {
    } else {
      NextIsPlain(lines, ends);
      LegalTail(lines, ends);
      ScanUnlines(lines[1..], ends[1..]);
    }
  }

  /** Every text consists of lines with legal ends. */
  lemma {:induction false} TextHasLines(text: string) returns (lines: seq<string>, ends: seq<Eol>)
    ensures LegalEnds(lines, ends) && text == Unlines(lines, ends)
    ensures forall i :: 0 <= i < |lines| ==> OneLine(lines[i])
    decreases |text|
  {
    var n := LineLength(text);
    if text == "" {
      lines, ends := [], [];
    } else if n == |text| {
      lines, ends := [text], [EndOfText];
      assert Unlines(lines, ends) == text + "" + Unlines([], []);
    } else {
      var restLines, restEnds := TextHasLines(text[n + 1..]);
      lines, ends := [text[..n]] + restLines, [LF] + restEnds;
      assert lines[1..] == restLines && ends[1..] == restEnds;
      assert text == text[..n] + "\n" + text[n + 1..];
    }
  }

  /** The scan reaches the end of a text exactly when all of its lines fit the buffer. */
  lemma {:induction false} CompleteWhenLinesFit(lines: seq<string>, ends: seq<Eol>)
    requires LegalEnds(lines, ends) && forall i :: 0 <= i < |lines| ==> OneLine(lines[i])
    ensures Complete(Unlines(lines, ends)) <==> forall i :: 0 <= i < |lines| ==> Fits(lines[i], ends[i])
  {
    if lines == [] {
    } else {
      var tail, tailEnds := lines[1..], ends[1..];
      NextOfUnlines(lines, ends);
      LegalTail(lines, ends);
      CompleteWhenLinesFit(tail, tailEnds);
      assert (forall i :: 0 <= i < |tail| ==> Fits(tail[i], tailEnds[i])) ==>
        forall i :: 0 < i < |lines| ==>
          Fits(tail[i - 1], tailEnds[i - 1]) && lines[i] == tail[i - 1] && ends[i] == tailEnds[i - 1];
    }
  }
}
