/**
 HTTP messages by their lines: what the reader finds in a head made of a status line and header
 lines, for every spelling of the name of the length field.
 */
module HttpMessages {
  import opened HttpReader
  import opened Options

  /** "CONTENT-LENGTH:" */
  const UPPER_FIELD: Bytes := [67, 79, 78, 84, 69, 78, 84, 45, 76, 69, 78, 71, 84, 72, 58]

  /** "Content-Length:" */
  const USUAL_FIELD: Bytes := [67, 111, 110, 116, 101, 110, 116, 45, 76, 101, 110, 103, 116, 104, 58]

  /** A way to write the name of the length field: each letter in lower or upper case. */
  predicate IsSpelling(name: Bytes) {
    |name| == 15 && forall i :: 0 <= i < 15 ==> name[i] == LENGTH_FIELD[i] || name[i] == UPPER_FIELD[i]
  }

  predicate IsLengthLine(line: Bytes) {
    |line| >= 15 && IsSpelling(line[..15])
  }

  lemma UsualSpellings()
    ensures IsSpelling(LENGTH_FIELD) && IsSpelling(UPPER_FIELD) && IsSpelling(USUAL_FIELD)
  {}

  /** The two letters that are lowered to the same one. */
  lemma LowerExactly(b: bv8, lower: bv8, upper: bv8)
    requires (97 <= lower <= 122 && upper == lower - 32) || (lower == upper && (lower == 45 || lower == 58))
    ensures Lower(b) == lower <==> b == lower || b == upper
    ensures Lower(b) != b <==> 65 <= b <= 90
  {}

  lemma FieldLetters(i: nat)
    requires i < 15
    ensures |LENGTH_FIELD| == 15 == |UPPER_FIELD|
    ensures var lower, upper := LENGTH_FIELD[i], UPPER_FIELD[i];
            (97 <= lower <= 122 && upper == lower - 32) || (lower == upper && (lower == 45 || lower == 58))
  {}

  /** The reader takes a line for the length field exactly when it starts with such a spelling. */
  lemma LengthLineExactly(line: Bytes)
    ensures IsLengthField(line) <==> IsLengthLine(line)
  {
    if |line| >= 15 {
      forall i | 0 <= i < 15
        ensures Lower(line[i]) == LENGTH_FIELD[i] <==> line[i] == LENGTH_FIELD[i] || line[i] == UPPER_FIELD[i]
      {
        FieldLetters(i);
        LowerExactly(line[i], LENGTH_FIELD[i], UPPER_FIELD[i]);
      }
    }
  }

  // ---- Lines -------------------------------------------------------------------------------

  predicate BreakAt(s: Bytes, k: nat) {
    k + 2 <= |s| && s[k] == 13 && s[k + 1] == 10
  }

  ghost predicate NoBreak(line: Bytes) {
    forall k: nat :: !BreakAt(line, k)
  }

  /** The lines of a head, written with a line break between any two. */
  function Join(lines: seq<Bytes>): Bytes
    requires lines != []
  {
    if |lines| == 1 then lines[0] else lines[0] + CRLF + Join(lines[1..])
  }

  ghost predicate AllUnbroken(lines: seq<Bytes>) {
    forall i :: 0 <= i < |lines| ==> NoBreak(lines[i])
  }

  lemma NoBreakBefore(line: Bytes, rest: Bytes, k: nat)
    requires NoBreak(line) && k < |line|
    ensures !BreakAt(line + CRLF + rest, k)
  {
    assert !BreakAt(line, k);
  }

  lemma BreakExactly(s: Bytes, k: nat)
    requires k + 2 <= |s|
    ensures s[k..k + 2] == CRLF <==> BreakAt(s, k)
  {
    assert s[k..k + 2] == [s[k], s[k + 1]];
  }

  lemma {:induction false} FirstLineEnds(line: Bytes, rest: Bytes, i: nat)
    requires NoBreak(line) && i <= |line|
    ensures LineEnd(line + CRLF + rest, i) == |line|
    decreases |line| - i
  {
    var s := line + CRLF + rest;
    BreakExactly(s, i);
    if i < |line| {
      NoBreakBefore(line, rest, i);
      FirstLineEnds(line, rest, i + 1);
    }
  }

  lemma {:induction false} LastLineEnds(line: Bytes, i: nat)
    requires NoBreak(line) && i <= |line|
    ensures LineEnd(line, i) == |line|
    decreases |line| - i
  {
    if i + 2 <= |line| {
      BreakExactly(line, i);
      LastLineEnds(line, i + 1);
    }
  }

  /** Splitting a head gives its lines back. */
  lemma {:induction false} LinesOfJoin(lines: seq<Bytes>)
    requires lines != [] && AllUnbroken(lines)
    ensures Lines(Join(lines)) == lines
  {
    if |lines| == 1 {
      LastLineEnds(lines[0], 0);
    } else {
      var line, rest := lines[0], Join(lines[1..]);
      var s := line + CRLF + rest;
      FirstLineEnds(line, rest, 0);
      LinesOfJoin(lines[1..]);
      assert s[..|line|] == line && s[|line| + 2..] == rest;
      assert lines == [line] + lines[1..];
    }
  }

  lemma {:induction false} FirstLengthOf(before: seq<Bytes>, line: Bytes, after: seq<Bytes>,
                                         number: Bytes -> Option<int>)
    requires IsLengthLine(line) && forall i :: 0 <= i < |before| ==> !IsLengthLine(before[i])
    ensures FirstLength(before + [line] + after, number) == number(line[15..])
  {
    var lines := before + [line] + after;
    LengthLineExactly(lines[0]);
    if before != [] {
      FirstLengthOf(before[1..], line, after, number);
      assert lines[1..] == before[1..] + [line] + after;
    }
  }

  lemma {:induction false} NoLengthOf(lines: seq<Bytes>, number: Bytes -> Option<int>)
    requires forall i :: 0 <= i < |lines| ==> !IsLengthLine(lines[i])
    ensures FirstLength(lines, number) == None
  {
    if lines != [] {
      LengthLineExactly(lines[0]);
      NoLengthOf(lines[1..], number);
    }
  }

  /** The announced length is the number in the first header line that starts with the name of the
      field in any spelling, whatever the status line says. */
  lemma ContentLengthFound(statusLine: Bytes, before: seq<Bytes>, line: Bytes, after: seq<Bytes>,
                           number: Bytes -> Option<int>)
    requires AllUnbroken([statusLine] + before + [line] + after)
    requires IsLengthLine(line) && forall i :: 0 <= i < |before| ==> !IsLengthLine(before[i])
    ensures ContentLength(Join([statusLine] + before + [line] + after), number) == number(line[15..])
  {
    var lines := [statusLine] + before + [line] + after;
    LinesOfJoin(lines);
    assert lines[1..] == before + [line] + after;
    FirstLengthOf(before, line, after, number);
  }

  /** Without such a line there is none. */
  lemma ContentLengthMissing(statusLine: Bytes, header: seq<Bytes>, number: Bytes -> Option<int>)
    requires AllUnbroken([statusLine] + header)
    requires forall i :: 0 <= i < |header| ==> !IsLengthLine(header[i])
    ensures ContentLength(Join([statusLine] + header), number) == None
  {
    var lines := [statusLine] + header;
    LinesOfJoin(lines);
    assert lines[1..] == header;
    NoLengthOf(header, number);
  }

  // ---- Messages ----------------------------------------------------------------------------

  lemma TerminatorExactly(s: Bytes, k: nat)
    ensures TerminatorAt(s, k) <==> BreakAt(s, k) && BreakAt(s, k + 2)
  {
    if k + 4 <= |s| {
      assert s[k..k + 4] == [s[k], s[k + 1], s[k + 2], s[k + 3]];
    }
  }

  /** What follows the first line break of a head starts with no line break. */
  lemma NoBreakAtStart(line: Bytes, more: Bytes)
    requires line != [] && NoBreak(line) && |more| >= 1 && more[0] == 13
    ensures !BreakAt(line + more, 0)
  {
    assert !BreakAt(line, 0);
  }

  ghost predicate AllNonEmpty(lines: seq<Bytes>) {
    forall i :: 0 <= i < |lines| ==> lines[i] != []
  }

  /** What is written behind the first of at least two lines starts with a line and a break. */
  lemma TailStarts(lines: seq<Bytes>)
    requires lines != [] && AllUnbroken(lines) && AllNonEmpty(lines)
    ensures !BreakAt(Join(lines) + TERMINATOR, 0)
  {
    var line := lines[0];
    var more := if |lines| == 1 then TERMINATOR else CRLF + Join(lines[1..]) + TERMINATOR;
    assert Join(lines) + TERMINATOR == line + more;
    NoBreakAtStart(line, more);
  }

  /** A head of non-empty lines ends where its terminator begins. */
  lemma {:induction false} HeadEnds(lines: seq<Bytes>, k: nat)
    requires lines != [] && AllUnbroken(lines) && AllNonEmpty(lines) && k < |Join(lines)|
    ensures !TerminatorAt(Join(lines) + TERMINATOR, k)
    decreases |lines|
  {
    var line := lines[0];
    var tail := if |lines| == 1 then CRLF else Join(lines[1..]) + TERMINATOR;
    var s := Join(lines) + TERMINATOR;
    assert s == line + CRLF + tail;
    TerminatorExactly(s, k);
    if k < |line| {
      NoBreakBefore(line, tail, k);
    } else if k == |line| {
      TailStarts(lines[1..]);
      assert s[k + 2..] == tail;
    } else if k > |line| + 1 {
      HeadEnds(lines[1..], k - |line| - 2);
      TerminatorExactly(tail, k - |line| - 2);
      assert s[|line| + 2..] == tail;
    }
  }

  lemma HeadIsFound(lines: seq<Bytes>)
    requires lines != [] && AllUnbroken(lines) && AllNonEmpty(lines)
    ensures HeaderEnd(Join(lines) + TERMINATOR) == Some(|Join(lines)|)
  {
    var head := Join(lines);
    forall k: nat | k < |head| ensures !TerminatorAt(head + TERMINATOR, k) {
      HeadEnds(lines, k);
    }
    assert (head + TERMINATOR)[|head|..|head| + 4] == TERMINATOR;
    assert TerminatorAt(head + TERMINATOR, |head|);
  }

  /** Round trip for messages by their lines: with the length field in any spelling, a message comes
      back whole from every chunking of it, even on a connection that stays open. */
  method ReceiveLines(sock: Socket, number: Bytes -> Option<int>, status: Bytes -> Option<nat>,
                      ghost statusLine: Bytes, ghost before: seq<Bytes>, ghost name: Bytes, ghost value: Bytes,
                      ghost after: seq<Bytes>, ghost body: Bytes)
    returns (r: Response)
    requires var lines := [statusLine] + before + [name + value] + after;
             && AllUnbroken(lines) && AllNonEmpty(lines)
             && Flatten(sock.pending) == Join(lines) + TERMINATOR + body
    requires IsSpelling(name) && forall i :: 0 <= i < |before| ==> !IsLengthLine(before[i])
    requires number(value) == Some(|body|) && Chunked(sock.pending)
    modifies sock
    ensures Flatten(sock.pending) == []
    ensures r == match status(statusLine)
                 case None => Failed(BadStatusLine)
                 case Some(n) => if n >= 400 then Failed(HttpError(n)) else Received(n, body)
  {
    ghost var lines := [statusLine] + before + [name + value] + after;
    LinesOfJoin(lines);
    HeadIsFound(lines);
    assert (name + value)[..15] == name && (name + value)[15..] == value;
    ContentLengthFound(statusLine, before, name + value, after, number);
    r := ReceiveMessage(sock, number, status, Join(lines), body);
  }
}
