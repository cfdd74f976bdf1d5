/**
 * The two chunked loops every transfer implementation runs: the receiver
 * reads at most `min(chunk, size - received)` bytes at a time from the
 * connection and writes each read to the output file; the sender reads the
 * file one buffer at a time and writes each chunk to the connection.
 * Which file or connection write fails, if any, is an input.
 */
module Chunked {
  import opened Wrappers
  import opened Framing
  import opened Stream

  /** How a chunked loop ended: normally, on a failed read, or on a failed write. */
  datatype LoopEnd = Completed | ReadFailed | WriteFailed

  /** What the receiver ends up with when no write fails: the announced number of
      bytes when that many arrive, otherwise everything that arrives. */
  function Expected(c: Conn, size: nat): (r: seq<Byte>)
    ensures |r| <= size && r <= Remaining(c)
    ensures |r| == size || r == Remaining(c)
  {
    if |Remaining(c)| >= size then Remaining(c)[..size] else Remaining(c)
  }

  /** Every read starts below `size` and asks for `min(chunk, size - offset)` bytes. */
  predicate Planned(offsets: seq<nat>, requests: seq<nat>, size: nat, chunk: nat)
    decreases |offsets|
  {
    && |offsets| == |requests|
    && (offsets != [] ==>
         && offsets[0] < size
         && requests[0] == Min(chunk, size - offsets[0])
         && Planned(offsets[1..], requests[1..], size, chunk))
  }

  /** Read by read: each request is `min(chunk, size - received)`, never zero, and
      no read can reach past `size`. */
  lemma {:induction false} PlannedReads(offsets: seq<nat>, requests: seq<nat>, size: nat, chunk: nat)
    requires Planned(offsets, requests, size, chunk) && chunk > 0
    ensures forall j :: 0 <= j < |requests| ==>
      && offsets[j] < size
      && requests[j] == Min(chunk, size - offsets[j])
      && 0 < requests[j] <= chunk
      && offsets[j] + requests[j] <= size
    decreases |offsets|
  {
    if offsets != [] {
      PlannedReads(offsets[1..], requests[1..], size, chunk);
      assert forall j :: 1 <= j < |requests| ==> offsets[j] == offsets[1..][j - 1] && requests[j] == requests[1..][j - 1];
    }
  }

  lemma {:induction false} PlannedSnoc(offsets: seq<nat>, requests: seq<nat>, size: nat, chunk: nat, o: nat)
    requires Planned(offsets, requests, size, chunk) && o < size
    ensures Planned(offsets + [o], requests + [Min(chunk, size - o)], size, chunk)
    decreases |offsets|
  {
    if offsets != [] {
      assert (offsets + [o])[1..] == offsets[1..] + [o];
      assert (requests + [Min(chunk, size - o)])[1..] == requests[1..] + [Min(chunk, size - o)];
      PlannedSnoc(offsets[1..], requests[1..], size, chunk, o);
    }
  }

  /** One read of the receive loop, in terms of the loop's invariant: a read that
      hands over bytes extends what has been written by exactly those bytes. */
  lemma ReceiveStep(conn: Conn, written: seq<Byte>, rest: Conn, k: nat)
    requires Remaining(conn) == written + Remaining(rest) && k > 0
    ensures Read(rest, k).0.Got? ==>
      && Remaining(conn) == (written + Read(rest, k).0.bytes) + Remaining(Read(rest, k).1)
      && Breaks(Read(rest, k).1.arrivals) == Breaks(rest.arrivals)
      && 0 < |Read(rest, k).0.bytes| <= k
    ensures Read(rest, k).0.EOF? ==> Remaining(rest) == [] && !Breaks(rest.arrivals)
    ensures Read(rest, k).0.ReadError? ==> Remaining(rest) == [] && Breaks(rest.arrivals)
  {
    ReadSize(rest, k);
    ReadSpec(rest, k);
  }

  /** The receive loop `for received < fileSize { ... }`: returns how it ended, the
      bytes written to the file, the number of file writes that succeeded, for
      each read the number of bytes already received (`offsets`) and the number
      asked for (`requests`), and the connection as the loop leaves it. Write
      number `writeFailAt` (counting from 0) fails, if the loop gets that far. */
  method ReceiveInto(conn: Conn, size: nat, chunk: nat, writeFailAt: Option<nat>)
    returns (end: LoopEnd, written: seq<Byte>, writes: nat, offsets: seq<nat>, requests: seq<nat>, rest: Conn)
    requires chunk > 0
    ensures |written| <= size && Remaining(conn) == written + Remaining(rest)
    ensures Breaks(rest.arrivals) == Breaks(conn.arrivals)
    ensures Planned(offsets, requests, size, chunk)
    ensures size == 0 ==> requests == [] && end == Completed
    ensures |written| == size ==> end == Completed && writes == |requests|
    ensures |written| < size ==> writes + 1 == |requests|
    ensures writeFailAt.Some? ==> writes <= writeFailAt.value
    ensures end == Completed ==> |written| == size || (Remaining(rest) == [] && !Breaks(conn.arrivals))
    ensures end == ReadFailed ==> |written| < size && Remaining(rest) == [] && Breaks(conn.arrivals)
    ensures end == WriteFailed <==> writeFailAt == Some(writes) && |written| < size && Remaining(rest) != []
  {
    rest := conn;
    var received := 0;
    writes := 0;
    written, offsets, requests := [], [], [];
    end := Completed;
    while received < size
      invariant received == |written| <= size
      invariant Remaining(conn) == written + Remaining(rest)
      invariant Breaks(rest.arrivals) == Breaks(conn.arrivals)
      invariant Planned(offsets, requests, size, chunk)
      invariant writes == |requests|
      invariant writeFailAt.Some? ==> writes <= writeFailAt.value
      decreases size - received
    {
      var toRead := chunk;
      var remaining := size - received;
      if remaining < toRead {
        toRead := remaining;
      }
      PlannedSnoc(offsets, requests, size, chunk, received);
      offsets, requests := offsets + [received], requests + [toRead];
      var res, c' := Read(rest, toRead).0, Read(rest, toRead).1;
      ReceiveStep(conn, written, rest, toRead);
      if res.EOF? {
        return;
      }
      if res.ReadError? {
        return ReadFailed, written, writes, offsets, requests, rest;
      }
      if writeFailAt == Some(writes) {
        return WriteFailed, written, writes, offsets, requests, rest;
      }
      written := written + res.bytes;
      received := received + |res.bytes|;
      writes := writes + 1;
      rest := c';
    }
  }

  /** Whatever the loop wrote is the start of what a run without failures writes;
      a run that ends normally wrote all of it. */
  lemma ReceivedPrefix(conn: Conn, size: nat, written: seq<Byte>, rest: Conn)
    requires |written| <= size && Remaining(conn) == written + Remaining(rest)
    ensures written <= Expected(conn, size)
  {
    assert written == Remaining(conn)[..|written|];
  }

  /** When no file write fails, the file receives `Expected`, and the loop ends
      normally unless the connection is reset before the announced size arrives. */
  lemma ReceiveExpected(conn: Conn, size: nat, end: LoopEnd, written: seq<Byte>, rest: Conn)
    requires |written| <= size && Remaining(conn) == written + Remaining(rest)
    requires end == Completed ==> |written| == size || (Remaining(rest) == [] && !Breaks(conn.arrivals))
    requires end == ReadFailed ==> |written| < size && Remaining(rest) == [] && Breaks(conn.arrivals)
    requires end != WriteFailed
    ensures written == Expected(conn, size)
    ensures end == Completed <==> |Remaining(conn)| >= size || !Breaks(conn.arrivals)
  {
    assert written == Remaining(conn)[..|written|];
  }

  /** A message line followed by at least `size` bytes: the receiver reads the
      message, and then the announced number of bytes is exactly what follows it. */
  lemma DeliversAfterLine<M(!new)>(marshal: M -> seq<Byte>, unmarshal: seq<Byte> -> Option<M>,
                                   m: M, c: Conn, data: seq<Byte>, size: nat)
    requires WellBehaved(marshal, unmarshal)
    requires Remaining(c) == LineBytes(marshal, m) + data && size <= |data|
    ensures ReadMessage(c, unmarshal).Line? && ReadMessage(c, unmarshal).msg == m
    ensures Expected(ReadMessage(c, unmarshal).rest, size) == data[..size]
  {
    MessageRoundTrip(marshal, unmarshal, m, c, data);
  }

  /** The file's chunks as the reads deliver them, up to the first failed read. */
  function Chunks(rs: seq<FileRead>): (r: seq<Bytes1>)
    ensures |r| <= |rs|
    ensures forall j :: 0 <= j < |r| ==> rs[j] == Chunk(r[j])
  {
    if rs == [] || rs[0].Failed? then [] else [rs[0].bytes] + Chunks(rs[1..])
  }

  function Concat(parts: seq<seq<Byte>>): seq<Byte>
  {
    if parts == [] then [] else parts[0] + Concat(parts[1..])
  }

  /** Writing the delivered chunks one after another puts exactly the file's bytes on the wire. */
  lemma {:induction false} ConcatChunks(rs: seq<FileRead>)
    ensures Concat(Chunks(rs)) == FileBytes(rs)
  {
    if rs != [] && rs[0].Chunk? {
      ConcatChunks(rs[1..]);
      assert Chunks(rs)[1..] == Chunks(rs[1..]);
    }
  }

  /** The index of the first failed read, when there is one. */
  lemma {:induction false} ChunksStopAtFailure(rs: seq<FileRead>)
    ensures |Chunks(rs)| == |rs| <==> !AnyFailed(rs)
    ensures |Chunks(rs)| < |rs| ==> rs[|Chunks(rs)|].Failed?
  {
    if rs != [] && rs[0].Chunk? {
      ChunksStopAtFailure(rs[1..]);
      assert forall j :: 1 <= j < |rs| ==> rs[j] == rs[1..][j - 1];
      if AnyFailed(rs[1..]) {
        var j :| 0 <= j < |rs[1..]| && rs[1..][j].Failed?;
        assert rs[j + 1].Failed?;
      }
    } else if rs != [] {
      assert rs[0].Failed?;
    }
  }

  /** The send loop `for { n, err := file.Read(buf); ...; conn.Write(buf[:n]) }`:
      returns how it ended and the chunks written to the connection. */
  method SendChunks(rs: seq<FileRead>, writeFailAt: Option<nat>) returns (end: LoopEnd, sent: seq<Bytes1>)
    ensures |sent| <= |Chunks(rs)| && sent == Chunks(rs)[..|sent|]
    ensures end == Completed <==> !AnyFailed(rs) && (writeFailAt.None? || writeFailAt.value >= |rs|)
    ensures end == Completed ==> Concat(sent) == FileBytes(rs)
    ensures end == ReadFailed ==> |sent| < |rs| && rs[|sent|].Failed? && sent == Chunks(rs)
    ensures end == WriteFailed ==> writeFailAt == Some(|sent|) && |sent| < |Chunks(rs)|
  {
    ChunksStopAtFailure(rs);
    ConcatChunks(rs);
    sent := [];
    var i := 0;
    while i < |rs|
      invariant i <= |Chunks(rs)| && sent == Chunks(rs)[..i]
      invariant writeFailAt.Some? ==> writeFailAt.value >= i
    {
      if rs[i].Failed? {
        assert |Chunks(rs)| == i;
        return ReadFailed, sent;
      }
      if writeFailAt == Some(i) {
        return WriteFailed, sent;
      }
      sent := sent + [rs[i].bytes];
      i := i + 1;
    }
    assert sent == Chunks(rs);
    return Completed, sent;
  }
}
