/**
 Reading one HTTP response from a stream socket that delivers bytes in arbitrary chunks.  The main
 result: what is read does not depend on the chunking exactly when the stream does not extend past
 the message that its own header announces.
 */
module HttpReader {
  import opened Options

  type Bytes = seq<bv8>

  const CRLF: Bytes := [13, 10]
  const TERMINATOR: Bytes := [13, 10, 13, 10]
  const RECV_LIMIT := 4096

  // ---- Headers -----------------------------------------------------------------------------

  predicate TerminatorAt(s: Bytes, k: nat) {
    k + 4 <= |s| && s[k..k + 4] == TERMINATOR
  }

  /** The first header terminator at or after position `i`. */
  function FindFrom(s: Bytes, i: nat): (r: Option<nat>)
    ensures r.Some? ==> i <= r.value && TerminatorAt(s, r.value)
    ensures forall k :: i <= k < (if r.Some? then r.value else |s|) ==> !TerminatorAt(s, k)
    decreases |s| - i
  {
    if i + 4 > |s| then None
    else if TerminatorAt(s, i) then Some(i)
    else FindFrom(s, i + 1)
  }

  function HeaderEnd(s: Bytes): Option<nat> {
    FindFrom(s, 0)
  }

  /** Where the first line of `s` ends, counting from `i`. */
  function LineEnd(s: Bytes, i: nat): (r: nat)
    requires i <= |s|
    ensures i <= r <= |s|
    decreases |s| - i
  {
    if i + 2 > |s| then |s| else if s[i..i + 2] == CRLF then i else LineEnd(s, i + 1)
  }

  /** `split(b"\r\n")`. */
  function Lines(s: Bytes): seq<Bytes>
    decreases |s|
  {
    var e := LineEnd(s, 0);
    if e + 2 <= |s| then [s[..e]] + Lines(s[e + 2..]) else [s]
  }

  function Lower(b: bv8): bv8 {
    if 65 <= b <= 90 then b + 32 else b
  }

  /** "content-length:" */
  const LENGTH_FIELD: Bytes := [99, 111, 110, 116, 101, 110, 116, 45, 108, 101, 110, 103, 116, 104, 58]

  predicate IsLengthField(line: Bytes) {
    |line| >= |LENGTH_FIELD| && forall i :: 0 <= i < |LENGTH_FIELD| ==> Lower(line[i]) == LENGTH_FIELD[i]
  }

  /** The value of the first length field; `number` is Python's conversion of the field text. */
  function FirstLength(lines: seq<Bytes>, number: Bytes -> Option<int>): Option<int> {
    if lines == [] then None
    else if IsLengthField(lines[0]) then number(lines[0][|LENGTH_FIELD|..])
    else FirstLength(lines[1..], number)
  }

  function ContentLength(header: Bytes, number: Bytes -> Option<int>): Option<int> {
    var lines := Lines(header);
    if lines == [] then None else FirstLength(lines[1..], number)
  }

  // ---- The socket --------------------------------------------------------------------------

  function Flatten(chunks: seq<Bytes>): Bytes {
    if chunks == [] then [] else chunks[0] + Flatten(chunks[1..])
  }

  /** Every receive returns between one byte and the limit. */
  predicate Chunked(chunks: seq<Bytes>) {
    forall i :: 0 <= i < |chunks| ==> 1 <= |chunks[i]| <= RECV_LIMIT
  }

  /** The peer's remaining chunks; once they are used up a receive returns nothing if the peer has
      closed and blocks for ever otherwise. */
  class Socket {
    var pending: seq<Bytes>
    const closed: bool

    constructor (pending: seq<Bytes>, closed: bool)
      ensures this.pending == pending && this.closed == closed
    {
      this.pending, this.closed := pending, closed;
    }

    /** Never called when it would block. */
    method Recv() returns (chunk: Bytes)
      requires pending != [] || closed
      requires Chunked(pending)
      modifies this
      ensures Chunked(pending)
      ensures old(pending) == [] ==> chunk == [] && pending == []
      ensures old(pending) != [] ==> old(pending) == [chunk] + pending && 1 <= |chunk| <= 4096
    {
      if pending == [] {
        return [];
      }
      chunk := pending[0];
      pending := pending[1..];
    }
  }

  // ---- What the reader needs ---------------------------------------------------------------

  /** The length of the message a stream announces, when its header is complete and has a length. */
  function Announced(stream: Bytes, number: Bytes -> Option<int>): Option<nat> {
    match HeaderEnd(stream)
    case None => None
    case Some(h) =>
      match ContentLength(stream[..h], number)
      case None => None
      case Some(c) => Some(h + 4 + if c > 0 then c else 0)
  }

  /** Chunks are taken whole until at least `need` bytes are there or the chunks run out. */
  function TakeUntil(chunks: seq<Bytes>, need: int): Bytes {
    if need <= 0 || chunks == [] then [] else chunks[0] + TakeUntil(chunks[1..], need - |chunks[0]|)
  }

  /** The chunks that `TakeUntil` leaves. */
  function DropUntil(chunks: seq<Bytes>, need: int): seq<Bytes> {
    if need <= 0 || chunks == [] then chunks else DropUntil(chunks[1..], need - |chunks[0]|)
  }

  /** One more whole chunk towards the mark. */
  lemma OneMoreChunk(start: Bytes, chunks: seq<Bytes>, need: int)
    requires |start| < need && chunks != []
    ensures var longer := start + chunks[0];
            && start + TakeUntil(chunks, need - |start|) == longer + TakeUntil(chunks[1..], need - |longer|)
            && DropUntil(chunks, need - |start|) == DropUntil(chunks[1..], need - |longer|)
  {
    var rest := TakeUntil(chunks[1..], need - |start| - |chunks[0]|);
    assert start + (chunks[0] + rest) == (start + chunks[0]) + rest;
  }

  /** Reading to one mark and then on to a later one is reading to the later one. */
  lemma {:induction false} TakeInTwoParts(chunks: seq<Bytes>, need: int, total: int)
    requires need <= total
    ensures var first := TakeUntil(chunks, need);
            TakeUntil(chunks, total) == first + TakeUntil(DropUntil(chunks, need), total - |first|)
    decreases |chunks|
  {
    if need > 0 && chunks != [] {
      var c, rest := chunks[0], chunks[1..];
      TakeInTwoParts(rest, need - |c|, total - |c|);
      var first := TakeUntil(rest, need - |c|);
      var second := TakeUntil(DropUntil(rest, need - |c|), total - |c| - |first|);
      assert c + (first + second) == (c + first) + second;
    } else {
      assert TakeUntil(chunks, need) == [];
      assert [] + TakeUntil(chunks, total) == TakeUntil(chunks, total);
    }
  }

  lemma {:induction false} TakeUntilIsPrefix(chunks: seq<Bytes>, need: int)
    ensures TakeUntil(chunks, need) <= Flatten(chunks)
    ensures |Flatten(chunks)| >= need ==> |TakeUntil(chunks, need)| >= need
    ensures |Flatten(chunks)| <= need ==> TakeUntil(chunks, need) == Flatten(chunks)
    decreases |chunks|
  {
    if need > 0 && chunks != [] {
      TakeUntilIsPrefix(chunks[1..], need - |chunks[0]|);
    } else if need <= 0 && |Flatten(chunks)| <= need {
      assert Flatten(chunks) == [];
    }
  }

  lemma {:induction false} FlattenAdds(a: seq<Bytes>, b: seq<Bytes>)
    ensures Flatten(a + b) == Flatten(a) + Flatten(b)
    decreases |a|
  {
    if a == [] {
      assert a + b == b;
    } else {
      FlattenAdds(a[1..], b);
      assert (a + b)[1..] == a[1..] + b;
    }
  }

  lemma {:induction false} TakeUntilBeyond(a: seq<Bytes>, b: seq<Bytes>, need: int)
    requires |Flatten(a)| <= need && (Flatten(a) == [] ==> a == [])
    requires forall i :: 0 <= i < |a| ==> a[i] != []
    ensures TakeUntil(a + b, need) == Flatten(a) + TakeUntil(b, need - |Flatten(a)|)
    decreases |a|
  {
    if a == [] {
      assert a + b == b;
    } else {
      assert (a + b)[1..] == a[1..] + b;
      assert a[1..] != [] ==> a[1..][0] != [];
      TakeUntilBeyond(a[1..], b, need - |a[0]|);
    }
  }

  /** How many bytes it takes to see the end of the header; more than there are if it has none. */
  function HeaderNeed(stream: Bytes): nat {
    match HeaderEnd(stream) case Some(h) => h + 4 case None => |stream| + 1
  }

  /** The header end of a stream is found in a prefix exactly when the prefix is long enough. */
  lemma HeaderEndInPrefix(prefix: Bytes, stream: Bytes)
    requires prefix <= stream
    ensures HeaderEnd(prefix) == if HeaderNeed(stream) <= |prefix| then HeaderEnd(stream) else None
  {
    forall k: nat | k + 4 <= |prefix| ensures TerminatorAt(prefix, k) <==> TerminatorAt(stream, k) {
      assert stream[k..k + 4] == prefix[k..k + 4];
    }
  }

  // ---- The reader --------------------------------------------------------------------------

  /** Appends the next chunk to the buffer, or reports that the peer has closed. */
  method Extend(sock: Socket, start: Bytes, ghost stream: Bytes) returns (more: bool, buf: Bytes)
    requires Chunked(sock.pending) && start + Flatten(sock.pending) == stream
    requires sock.closed || sock.pending != []
    modifies sock
    ensures Chunked(sock.pending) && buf + Flatten(sock.pending) == stream
    ensures more <==> old(sock.pending) != []
    ensures !more ==> buf == start == stream && sock.pending == []
    ensures more ==> buf == start + old(sock.pending)[0] && sock.pending == old(sock.pending)[1..]
  {
    var chunk := sock.Recv();
    more, buf := chunk != [], start + chunk;
  }

  /** The same, keeping track of what reading to a mark that is not reached yet will give and leave. */
  method ExtendTowards(sock: Socket, start: Bytes, ghost stream: Bytes, ghost need: nat, ghost goal: Bytes,
                       ghost left: seq<Bytes>)
    returns (more: bool, buf: Bytes)
    requires Chunked(sock.pending) && start + Flatten(sock.pending) == stream
    requires sock.closed || sock.pending != []
    requires |start| < need
    requires start + TakeUntil(sock.pending, need - |start|) == goal && DropUntil(sock.pending, need - |start|) == left
    modifies sock
    ensures Chunked(sock.pending) && buf + Flatten(sock.pending) == stream
    ensures buf + TakeUntil(sock.pending, need - |buf|) == goal && DropUntil(sock.pending, need - |buf|) == left
    ensures more <==> old(sock.pending) != []
    ensures more ==> |sock.pending| < |old(sock.pending)|
    ensures !more ==> buf == start == stream && sock.pending == []
  {
    if sock.pending != [] {
      OneMoreChunk(start, sock.pending, need);
    }
    more, buf := Extend(sock, start, stream);
  }

  /** Reads until `need` bytes are in the buffer or the peer has closed. */
  method ReadTo(sock: Socket, start: Bytes, need: int, ghost stream: Bytes) returns (buf: Bytes)
    requires Chunked(sock.pending) && start + Flatten(sock.pending) == stream
    requires sock.closed || need <= |stream|
    modifies sock
    ensures Chunked(sock.pending) && buf + Flatten(sock.pending) == stream
    ensures buf == start + TakeUntil(old(sock.pending), need - |start|)
  {
    buf := start;
    ghost var goal, left := start + TakeUntil(sock.pending, need - |start|), DropUntil(sock.pending, need - |start|);
    while |buf| < need
      invariant Chunked(sock.pending) && buf + Flatten(sock.pending) == stream
      invariant buf + TakeUntil(sock.pending, need - |buf|) == goal && DropUntil(sock.pending, need - |buf|) == left
      decreases |sock.pending|
    {
      var more;
      more, buf := ExtendTowards(sock, buf, stream, need, goal, left);
      if !more {
        break;
      }
    }
  }

  /** Receives for as long as the short timeout allows: any number of further chunks. */
  method Drain(sock: Socket, start: Bytes, ghost stream: Bytes) returns (buf: Bytes)
    requires Chunked(sock.pending) && start + Flatten(sock.pending) == stream
    modifies sock
    ensures Chunked(sock.pending) && buf + Flatten(sock.pending) == stream
    ensures start <= buf
  {
    buf := start;
    var goOn: bool := *;
    while goOn && sock.pending != []
      invariant Chunked(sock.pending) && buf + Flatten(sock.pending) == stream && start <= buf
      decreases |sock.pending|
    {
      var chunk := sock.Recv();
      buf := buf + chunk;
      goOn := *;
    }
  }

  /** Reads whole chunks until the header is complete or the peer has closed. */
  method ReadHeader(sock: Socket, ghost stream: Bytes) returns (buf: Bytes)
    requires Chunked(sock.pending) && Flatten(sock.pending) == stream
    requires sock.closed || HeaderNeed(stream) <= |stream|
    modifies sock
    ensures Chunked(sock.pending) && buf + Flatten(sock.pending) == stream
    ensures buf == TakeUntil(old(sock.pending), HeaderNeed(stream))
    ensures sock.pending == DropUntil(old(sock.pending), HeaderNeed(stream))
  {
    ghost var chunks, need := sock.pending, HeaderNeed(stream);
    buf := [];
    while HeaderEnd(buf).None?
      invariant Chunked(sock.pending) && buf + Flatten(sock.pending) == stream
      invariant buf + TakeUntil(sock.pending, need - |buf|) == TakeUntil(chunks, need)
      invariant DropUntil(sock.pending, need - |buf|) == DropUntil(chunks, need)
      decreases |sock.pending|
    {
      HeaderEndInPrefix(buf, stream);
      var more;
      more, buf := ExtendTowards(sock, buf, stream, need, TakeUntil(chunks, need), DropUntil(chunks, need));
      if !more {
        break;
      }
    }
    HeaderEndInPrefix(buf, stream);
  }

  /** Reads on behind the header, as far as its length field says, or drains. */
  method ReadBody(sock: Socket, start: Bytes, h: nat, number: Bytes -> Option<int>,
                  ghost chunks: seq<Bytes>, ghost stream: Bytes)
    returns (buf: Bytes)
    requires Chunked(sock.pending) && start + Flatten(sock.pending) == stream
    requires start == TakeUntil(chunks, h + 4) && sock.pending == DropUntil(chunks, h + 4)
    requires HeaderEnd(stream) == Some(h) && h + 4 <= |start|
    requires sock.closed || (Announced(stream, number).Some? ==> Announced(stream, number).value <= |stream|)
    modifies sock
    ensures buf + Flatten(sock.pending) == stream
    ensures Announced(stream, number).Some? ==> buf == TakeUntil(chunks, Announced(stream, number).value)
    ensures start <= buf
  {
    assert start[..h] == stream[..h];
    var length := ContentLength(start[..h], number);
    if length.None? {
      buf := Drain(sock, start, stream);
    } else {
      TakeInTwoParts(chunks, h + 4, h + 4 + if length.value > 0 then length.value else 0);
      buf := ReadTo(sock, start, h + 4 + length.value, stream);
    }
  }

  /** Reads one response.  It blocks on no stream that holds a complete message, closed or not. */
  method RecvResponse(sock: Socket, number: Bytes -> Option<int>) returns (buf: Bytes)
    requires Chunked(sock.pending)
    requires sock.closed || (var s := Flatten(sock.pending);
                             HeaderEnd(s).Some? && (Announced(s, number).Some? ==> Announced(s, number).value <= |s|))
    modifies sock
    ensures buf + Flatten(sock.pending) == Flatten(old(sock.pending))
    ensures var s := Flatten(old(sock.pending));
            && (HeaderEnd(s).None? ==> buf == s)
            && (Announced(s, number).Some? ==> buf == TakeUntil(old(sock.pending), Announced(s, number).value))
            && (HeaderEnd(s).Some? ==> TakeUntil(old(sock.pending), HeaderEnd(s).value + 4) <= buf)
  {
    ghost var chunks := sock.pending;
    ghost var stream := Flatten(chunks);
    buf := ReadHeader(sock, stream);
    TakeUntilIsPrefix(chunks, HeaderNeed(stream));
    HeaderEndInPrefix(buf, stream);
    var headerEnd := HeaderEnd(buf);
    if headerEnd.None? {
      return;
    }
    buf := ReadBody(sock, buf, headerEnd.value, number, chunks, stream);
  }

  // ---- Chunking ----------------------------------------------------------------------------

  /** One-byte chunks. */
  function Singles(s: Bytes): (c: seq<Bytes>)
    ensures |c| == |s| && forall i :: 0 <= i < |s| ==> c[i] == [s[i]]
  {
    seq(|s|, i requires 0 <= i < |s| => [s[i]])
  }

  lemma {:induction false} FlattenSingles(s: Bytes)
    ensures Flatten(Singles(s)) == s
    decreases |s|
  {
    if s != [] {
      FlattenSingles(s[1..]);
      assert Singles(s)[1..] == Singles(s[1..]);
    }
  }

  ghost predicate ReadsAlike(stream: Bytes, need: nat) {
    forall a, b :: Chunked(a) && Chunked(b) && Flatten(a) == stream && Flatten(b) == stream ==>
      TakeUntil(a, need) == TakeUntil(b, need)
  }

  /** One-byte chunks with one chunk of `width` bytes across the mark. */
  lemma ChunkingThatReads(stream: Bytes, need: nat, width: nat) returns (chunks: seq<Bytes>)
    requires 1 <= need < |stream| && 1 <= width <= 2
    ensures Chunked(chunks) && Flatten(chunks) == stream
    ensures |TakeUntil(chunks, need)| == need - 1 + width
  {
    var head, middle, tail := stream[..need - 1], stream[need - 1..need - 1 + width], stream[need - 1 + width..];
    FlattenSingles(head);
    var rest := [middle] + Singles(tail);
    assert Flatten(rest) == middle + tail by {
      FlattenSingles(tail);
      assert rest[1..] == Singles(tail);
    }
    chunks := Singles(head) + rest;
    FlattenAdds(Singles(head), rest);
    assert stream == head + (middle + tail);
    TakeUntilBeyond(Singles(head), rest, need);
  }

  /** What is read is the same for all chunkings of a stream exactly when nothing follows the
      announced message. */
  lemma ChunkingMattersExactlyPastTheEnd(stream: Bytes, need: nat)
    requires need >= 1
    ensures ReadsAlike(stream, need) <==> |stream| <= need
  {
    if |stream| <= need {
      forall a, b | Chunked(a) && Chunked(b) && Flatten(a) == stream && Flatten(b) == stream
        ensures TakeUntil(a, need) == TakeUntil(b, need)
      {
        TakeUntilIsPrefix(a, need);
        TakeUntilIsPrefix(b, need);
      }
    } else {
      var one := ChunkingThatReads(stream, need, 1);
      var two := ChunkingThatReads(stream, need, 2);
      assert TakeUntil(one, need) != TakeUntil(two, need);
    }
  }

  // ---- Parsing what was read ---------------------------------------------------------------

  datatype Failure = EmptyResponse | NoTerminator | BadStatusLine | HttpError(status: nat)
  datatype Response = Failed(failure: Failure) | Received(status: nat, body: Bytes)

  /** `status` is the second word of the status line when it is a number. */
  function ParseResponse(raw: Bytes, status: Bytes -> Option<nat>): Response {
    if raw == [] then Failed(EmptyResponse)
    else
      match HeaderEnd(raw)
      case None => Failed(NoTerminator)
      case Some(h) =>
        match status(Lines(raw[..h])[0])
        case None => Failed(BadStatusLine)
        case Some(n) => if n >= 400 then Failed(HttpError(n)) else Received(n, raw[h + 4..])
  }

  lemma MessageEnds(head: Bytes, body: Bytes)
    requires HeaderEnd(head + TERMINATOR) == Some(|head|)
    ensures HeaderEnd(head + TERMINATOR + body) == Some(|head|)
  {
    var prefix, stream := head + TERMINATOR, head + TERMINATOR + body;
    assert stream[|head|..|head| + 4] == TERMINATOR;
    assert TerminatorAt(stream, |head|);
    forall k: nat | k < |head| ensures !TerminatorAt(stream, k) {
      assert !TerminatorAt(prefix, k);
      assert k + 4 <= |prefix| ==> stream[k..k + 4] == prefix[k..k + 4];
    }
  }

  /** What the client makes of the stream `s`: without a header end it fails, differently when nothing
      came at all; otherwise the status decides, and the body is what was read after the header: not
      less than announced, or else all there is. */
  ghost predicate Answers(r: Response, s: Bytes, number: Bytes -> Option<int>, status: Bytes -> Option<nat>) {
    match HeaderEnd(s)
    case None => r == Failed(if s == [] then EmptyResponse else NoTerminator)
    case Some(h) =>
      match status(Lines(s[..h])[0])
      case None => r == Failed(BadStatusLine)
      case Some(n) =>
        if n >= 400 then r == Failed(HttpError(n))
        else
          && r.Received? && r.status == n && r.body <= s[h + 4..]
          && (var length := ContentLength(s[..h], number);
              length.Some? ==> |r.body| >= length.value || r.body == s[h + 4..])
  }

  lemma ParsedAnswers(buf: Bytes, s: Bytes, number: Bytes -> Option<int>, status: Bytes -> Option<nat>)
    requires buf <= s && (HeaderEnd(s).None? ==> buf == s)
    requires HeaderEnd(s).Some? ==> HeaderEnd(s).value + 4 <= |buf|
    requires Announced(s, number).Some? ==> |buf| >= Announced(s, number).value || buf == s
    ensures Answers(ParseResponse(buf, status), s, number, status)
  {
    HeaderEndInPrefix(buf, s);
    if HeaderEnd(s).Some? {
      var h := HeaderEnd(s).value;
      assert buf[..h] == s[..h];
      assert buf[h + 4..] <= s[h + 4..];
    }
  }

  /** One response, from the socket to the parsed answer. */
  method Receive(sock: Socket, number: Bytes -> Option<int>, status: Bytes -> Option<nat>) returns (r: Response)
    requires Chunked(sock.pending)
    requires sock.closed || (var s := Flatten(sock.pending);
                             HeaderEnd(s).Some? && (Announced(s, number).Some? ==> Announced(s, number).value <= |s|))
    modifies sock
    ensures Answers(r, Flatten(old(sock.pending)), number, status)
    ensures var s := Flatten(old(sock.pending));
            Announced(s, number) == Some(|s|) ==> Flatten(sock.pending) == []
  {
    ghost var chunks := sock.pending;
    ghost var s := Flatten(chunks);
    var buf := RecvResponse(sock, number);
    if HeaderEnd(s).Some? {
      TakeUntilIsPrefix(chunks, HeaderEnd(s).value + 4);
    }
    if Announced(s, number).Some? {
      TakeUntilIsPrefix(chunks, Announced(s, number).value);
    }
    ParsedAnswers(buf, s, number, status);
    r := ParseResponse(buf, status);
  }

  /** Round trip: a message whose length field is its body length comes back whole from every
      chunking of it, even on a connection that stays open, with its own status and body. */
  method ReceiveMessage(sock: Socket, number: Bytes -> Option<int>, status: Bytes -> Option<nat>,
                        ghost head: Bytes, ghost body: Bytes)
    returns (r: Response)
    requires Chunked(sock.pending) && Flatten(sock.pending) == head + TERMINATOR + body
    requires HeaderEnd(head + TERMINATOR) == Some(|head|)
    requires ContentLength(head, number) == Some(|body|)
    modifies sock
    ensures Flatten(sock.pending) == []
    ensures r == match status(Lines(head)[0])
                 case None => Failed(BadStatusLine)
                 case Some(n) => if n >= 400 then Failed(HttpError(n)) else Received(n, body)
  {
    ghost var stream := head + TERMINATOR + body;
    HeaderEndInPrefix(head + TERMINATOR, stream);
    MessageEnds(head, body);
    assert stream[..|head|] == head;
    assert stream[|head| + 4..] == body;
    r := Receive(sock, number, status);
  }
}
