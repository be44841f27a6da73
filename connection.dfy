/**
 * The line framer of `Connector`: `recv` cuts the incoming byte stream at
 * CRLF and keeps an unfinished last line in `buffer` until the next chunk;
 * `send` joins its arguments with spaces and ends them with CRLF.
 *
 * The socket is not modelled: the chunk `socket.recv(4096)` returns is a
 * parameter of `Recv`, and the bytes handed to `socket.send` are the
 * result of `Send`.
 */
module Connection {
  import opened Basics
  import opened Sequences
  import opened Utf8

  /** The line terminator `b'\r\n'`. */
  const CRLF: seq<byte> := [13, 10]

  /** The pieces `data.split(b'\r\n')` returns. */
  function Pieces(data: seq<byte>): (pieces: seq<seq<byte>>)
    ensures |pieces| >= 1
  {
    Split(data, CRLF)
  }

  /** Every piece but the last: the lines that were terminated. */
  function CompleteLines(data: seq<byte>): seq<seq<byte>> {
    DropLast(Pieces(data))
  }

  /** The last piece: the bytes after the last CRLF. */
  function Remainder(data: seq<byte>): seq<byte> {
    Last(Pieces(data))
  }

  /** What `buffer` holds afterwards: the remainder, or `None` when it is empty. */
  function BufferAfter(data: seq<byte>): (buffer: Option<seq<byte>>)
    ensures buffer.None? <==> |Remainder(data)| == 0
    ensures buffer.Some? ==> buffer.value == Remainder(data)
  {
    if |Remainder(data)| > 0 then Some(Remainder(data)) else None
  }

  /** The bytes a buffer puts in front of the next chunk. */
  function Pending(buffer: Option<seq<byte>>): seq<byte> {
    match buffer
    case None => []
    case Some(b) => b
  }

  /** A buffer is never `b''` and never holds a whole line. */
  predicate BufferInvariant(buffer: Option<seq<byte>>) {
    buffer.None? || (|buffer.value| > 0 && !Contains(buffer.value, CRLF))
  }

  /** Lines with their terminators written out, as the server sent them. */
  function Terminated(lines: seq<seq<byte>>): seq<byte> {
    if |lines| == 0 then [] else lines[0] + CRLF + Terminated(lines[1..])
  }

  /** Feeding chunks one `recv` at a time: every line emitted, and the buffer at the end. */
  function Feed(buffer: Option<seq<byte>>, chunks: seq<seq<byte>>): (seq<seq<byte>>, Option<seq<byte>>)
    decreases |chunks|
  {
    if |chunks| == 0 then ([], buffer)
    else
      var data := Pending(buffer) + chunks[0];
      var (lines, final) := Feed(BufferAfter(data), chunks[1..]);
      (CompleteLines(data) + lines, final)
  }

  /** All chunks as one byte stream. */
  function Flatten(chunks: seq<seq<byte>>): seq<byte> {
    if |chunks| == 0 then [] else chunks[0] + Flatten(chunks[1..])
  }

  class Connector {
    const username: string
    const nick: string
    const channel: string
    const host: string
    const port: int
    /** The bytes after the last CRLF seen, if any. */
    var buffer: Option<seq<byte>>

    ghost predicate Valid()
      reads this
    {
      BufferInvariant(buffer)
    }

    constructor (username: string, nick: string, channel: string, host: string, port: int)
      ensures this.username == username && this.nick == nick && this.channel == channel
      ensures this.host == host && this.port == port
      ensures buffer == None
      ensures Valid()
    {
      this.username := username;
      this.nick := nick;
      this.channel := channel;
      this.host := host;
      this.port := port;
      buffer := None;
    }

    /**
     * Receives one chunk: emits every line the pending bytes and the chunk
     * complete, and keeps the unfinished rest.
     */
    method Recv(chunk: seq<byte>) returns (lines: seq<seq<byte>>)
      modifies this
      ensures lines == CompleteLines(Pending(old(buffer)) + chunk)
      ensures buffer == BufferAfter(Pending(old(buffer)) + chunk)
      ensures Valid()
    {
      var data := chunk;
      if buffer.Some? {
        data := buffer.value + data;
        buffer := None;
      }
      assert data == Pending(old(buffer)) + chunk;
      var pieces := Split(data, CRLF);
      lines := [];
      var i := 0;
      while i < |pieces| - 1
        invariant 0 <= i <= |pieces| - 1
        invariant lines == pieces[..i]
      {
        lines := lines + [pieces[i]];
        i := i + 1;
      }
      var lastLine := pieces[|pieces| - 1];
      if |lastLine| > 0 {
        buffer := Some(lastLine);
      }
      RemainderInvariant(data);
    }

    /** The bytes `send` hands to the socket: the arguments joined by spaces, then CRLF. */
    method Send(data: seq<string>) returns (wire: seq<byte>)
      ensures wire == Encode(Join(data, " ")) + CRLF
    {
      var text := Join(data, " ") + "\r\n";
      wire := Encode(text);
      EncodeAppend(Join(data, " "), "\r\n");
      assert Encode("\r\n") == CRLF;
    }
  }

  /** CRLF cannot overlap itself, so occurrences and pieces match up. */
  lemma CRLFNoSelfOverlap()
    ensures NoSelfOverlap(CRLF)
  {
    assert CRLF[1..][0] == 10 && CRLF[..1][0] == 13;
  }

  /** Whatever the data, the buffer left behind keeps the invariant. */
  lemma RemainderInvariant(data: seq<byte>)
    ensures !Contains(Remainder(data), CRLF)
    ensures BufferInvariant(BufferAfter(data))
  {
    SplitPiecesFree(data, CRLF);
  }

  /** No emitted line contains CRLF. */
  lemma LinesFreeOfCRLF(data: seq<byte>)
    ensures forall k :: 0 <= k < |CompleteLines(data)| ==> !Contains(CompleteLines(data)[k], CRLF)
  {
    SplitPiecesFree(data, CRLF);
    forall k | 0 <= k < |CompleteLines(data)|
      ensures !Contains(CompleteLines(data)[k], CRLF)
    {
      assert CompleteLines(data)[k] == Pieces(data)[k];
    }
  }

  /** A join of pieces is the terminated pieces but the last, then the last. */
  lemma {:induction false} JoinTerminated(pieces: seq<seq<byte>>)
    requires |pieces| >= 1
    ensures Join(pieces, CRLF) == Terminated(DropLast(pieces)) + Last(pieces)
    decreases |pieces|
  {
    if |pieces| > 1 {
      JoinTerminated(pieces[1..]);
      assert DropLast(pieces)[0] == pieces[0];
      assert DropLast(pieces)[1..] == DropLast(pieces[1..]);
      assert Last(pieces[1..]) == Last(pieces);
    }
  }

  /** The lines, each with its CRLF, followed by the remainder, are the data. */
  lemma Reassembly(data: seq<byte>)
    ensures Terminated(CompleteLines(data)) + Remainder(data) == data
    ensures Terminated(CompleteLines(data)) + Pending(BufferAfter(data)) == data
  {
    JoinSplit(data, CRLF);
    JoinTerminated(Pieces(data));
  }

  /** One line per CRLF in the data. */
  lemma LineCount(data: seq<byte>)
    ensures |CompleteLines(data)| == Occurrences(data, CRLF)
  {
    CRLFNoSelfOverlap();
    SplitCount(data, CRLF);
  }

  /** The buffer puts back in front exactly the remainder it kept. */
  lemma PendingAfter(data: seq<byte>)
    ensures Pending(BufferAfter(data)) == Remainder(data)
  {
  }

  /** Two chunks received one after the other give what their concatenation gives at once. */
  lemma TwoChunks(a: seq<byte>, b: seq<byte>)
    ensures CompleteLines(a + b) == CompleteLines(a) + CompleteLines(Remainder(a) + b)
    ensures Remainder(a + b) == Remainder(Remainder(a) + b)
  {
    SplitAppend(a, b, CRLF);
    var front := DropLast(Pieces(a));
    var back := Pieces(Remainder(a) + b);
    assert Pieces(a + b) == front + back;
    assert DropLast(front + back) == front + DropLast(back);
    assert Last(front + back) == Last(back);
  }

  /**
   * However the byte stream is cut into chunks, receiving them one by one
   * emits the same lines and leaves the same buffer as receiving it in one
   * chunk, a CRLF cut in two included.
   */
  lemma {:induction false} ChunkingIndependence(buffer: Option<seq<byte>>, chunks: seq<seq<byte>>)
    requires BufferInvariant(buffer)
    ensures Feed(buffer, chunks)
         == (CompleteLines(Pending(buffer) + Flatten(chunks)), BufferAfter(Pending(buffer) + Flatten(chunks)))
    decreases |chunks|
  {
    var start := Pending(buffer);
    if |chunks| == 0 {
      assert start + Flatten(chunks) == start + [];
      EmptyChunk(buffer);
    } else {
      var data := start + chunks[0];
      var rest := Flatten(chunks[1..]);
      RemainderInvariant(data);
      ChunkingIndependence(BufferAfter(data), chunks[1..]);
      PendingAfter(data);
      assert start + Flatten(chunks) == data + rest;
      TwoChunks(data, rest);
    }
  }

  /** An empty chunk emits nothing and leaves a buffer that keeps the invariant as it was. */
  lemma EmptyChunk(buffer: Option<seq<byte>>)
    requires BufferInvariant(buffer)
    ensures CompleteLines(Pending(buffer) + []) == []
    ensures BufferAfter(Pending(buffer) + []) == buffer
  {
    assert Pending(buffer) + [] == Pending(buffer);
    if buffer.Some? {
      SplitFree(buffer.value, CRLF);
    } else {
      assert Pieces([]) == [[]];
    }
  }

  /** Lines without CRLF, sent terminated, are received as exactly those lines with nothing left over. */
  lemma FramingRoundTrip(lines: seq<seq<byte>>)
    requires forall k :: 0 <= k < |lines| ==> !Contains(lines[k], CRLF)
    ensures CompleteLines(Terminated(lines)) == lines
    ensures BufferAfter(Terminated(lines)) == None
  {
    if |lines| == 0 {
      assert Pieces([]) == [[]];
    } else {
      CRLFNoSelfOverlap();
      TerminatedJoin(lines);
      SplitJoinThen(lines, CRLF, []);
      assert Pieces([]) == [[]];
      assert Terminated(lines) == Join(lines, CRLF) + CRLF + [];
      assert Pieces(Terminated(lines)) == lines + [[]];
    }
  }

  /** Terminated lines are the lines joined by CRLF, with one more CRLF at the end. */
  lemma {:induction false} TerminatedJoin(lines: seq<seq<byte>>)
    requires |lines| > 0
    ensures Terminated(lines) == Join(lines, CRLF) + CRLF
    decreases |lines|
  {
    if |lines| > 1 {
      TerminatedJoin(lines[1..]);
    } else {
      assert lines[1..] == [];
    }
  }

  /**
   * What `send` writes on a fresh connection comes out of `recv` as the one
   * line it sent, when no argument holds a carriage return, and that line
   * is valid UTF-8 for the joined text.
   */
  lemma {:induction false} SendThenRecv(data: seq<string>)
    requires forall k :: 0 <= k < |data| ==> '\r' !in data[k]
    ensures var wire := Encode(Join(data, " ")) + CRLF;
      CompleteLines(Pending(None) + wire) == [Encode(Join(data, " "))]
      && BufferAfter(Pending(None) + wire) == None
    ensures Decode(Encode(Join(data, " "))) == Some(Join(data, " "))
  {
    DecodeEncode(Join(data, " "));
    var line := Encode(Join(data, " "));
    JoinWithout(data, " ", '\r');
    EncodeAscii(Join(data, " "), '\r');
    NoCarriageReturn(line);
    FramingRoundTrip([line]);
    assert Terminated([line]) == line + CRLF + [];
    assert Pending(None) + (line + CRLF) == Terminated([line]);
  }

  /** Bytes without a carriage return hold no CRLF. */
  lemma NoCarriageReturn(b: seq<byte>)
    requires 13 !in b
    ensures !Contains(b, CRLF)
  {
    forall i: nat | i <= |b|
      ensures !OccursAt(b, CRLF, i)
    {
      if i + 2 <= |b| {
        assert b[i..i + 2][0] == b[i];
      }
    }
  }

  /** A character in neither the pieces nor the separator is not in their join. */
  lemma {:induction false} JoinWithout(pieces: seq<string>, sep: string, x: char)
    requires x !in sep
    requires forall k :: 0 <= k < |pieces| ==> x !in pieces[k]
    ensures x !in Join(pieces, sep)
    decreases |pieces|
  {
    if |pieces| > 1 {
      JoinWithout(pieces[1..], sep, x);
    }
  }
}
