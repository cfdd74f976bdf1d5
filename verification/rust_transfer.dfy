/**
 * src/transfer.rs, the Rust revision of the transfer. The sender offers the
 * file under its last path component and streams it only on `Accept`; every
 * other answer ends the call without an error. The receiver insists on a
 * `FileOffer`, accepts every offer, and receives into the output directory.
 * Rust's `read_line` returns a partial line when the peer closes, and
 * `into_inner` discards whatever the line reader had buffered beyond the line.
 */
module RustTransfer {
  import opened Wrappers
  import opened Framing
  import opened Stream
  import opened Paths
  import opened RustProtocol
  import opened Chunked

  /** `CHUNK_SIZE`: 64 KiB. */
  const ChunkSize: nat := 64 * 1024

  /** The offered file name: the path's last component, or `unknown` when it
      has none. */
  function OfferedName(path: string): (n: string)
    ensures FileName(path).Some? ==> n == FileName(path).value
    ensures FileName(path).None? ==> n == "unknown"
    ensures n != "" && '/' !in n
  {
    match FileName(path)
    case Some(name) => name
    case None => "unknown"
  }

  /** Whether the answer read from the receiver is `Accept`. */
  predicate Accepts(answer: LineRead<TransferMessage>)
  {
    answer.Line? && answer.msg.Accept?
  }

  /** `send_file`: returns the error result and every byte written to the
      connection; the peer's answer arrives on `conn`. The file is opened a
      second time before streaming (`reopenOK`). Only a reset before the answer
      line is an error; a `Reject`, any other answer, and a line that does not
      decode all end the call with `Ok`. */
  method SendFile(filePath: string, file: FileOpen, dialOK: bool, offerWriteOK: bool,
                  conn: Conn, reopenOK: bool, dataWriteFailAt: Option<nat>,
                  marshal: TransferMessage -> seq<Byte>, unmarshal: seq<Byte> -> Option<TransferMessage>)
    returns (r: Result<()>, wire: seq<Byte>)
    ensures !Offers(file, dialOK, offerWriteOK) ==> r.Err? && wire == []
    ensures Offers(file, dialOK, offerWriteOK) ==>
      var offer := TransferToBytes(marshal, FileOffer(OfferedName(filePath), file.size));
      var answer := ReadMessageOrRest(conn, unmarshal);
      && (answer.NoLine? ==> r.Err? && wire == offer)
      && (!answer.NoLine? && !Accepts(answer) ==> r == Ok(()) && wire == offer)
      && (Accepts(answer) && !reopenOK ==> r.Err? && wire == offer)
      && (Accepts(answer) && reopenOK ==> Streamed(r, wire, offer, file.results, dataWriteFailAt))
  {
    if file.OpenFailed? {
      return Err("failed to open file"), [];
    } else if file.StatFailed? {
      return Err("failed to read metadata"), [];
    }
    var filename := OfferedName(filePath);
    if !dialOK {
      return Err("failed to connect"), [];
    }
    if !offerWriteOK {
      return Err("failed to write offer"), [];
    }
    var offer := TransferToBytes(marshal, FileOffer(filename, file.size));
    wire := offer;
    var line := ReadLineOrRest(conn);
    if line.None? {
      return Err("failed to read response"), wire;
    }
    var response := unmarshal(TrimSpace(line.value.0));
    if response == Some(Reject) {
      return Ok(()), wire;
    } else if response != Some(Accept) {
      return Ok(()), wire;
    }
    if !reopenOK {
      return Err("failed to open file"), wire;
    }
    r, wire := StreamFile(offer, file.results, dataWriteFailAt);
  }

  /** What streaming the file after the offer leaves: it succeeds exactly when
      no read and no write fails; the connection carries the offer and then
      whole chunks of the file, all of it on success. */
  predicate Streamed(r: Result<()>, wire: seq<Byte>, offer: seq<Byte>, results: seq<FileRead>, writeFailAt: Option<nat>)
  {
    && (r.Ok? <==> !AnyFailed(results) && (writeFailAt.None? || writeFailAt.value >= |results|))
    && (exists k :: 0 <= k <= |Chunks(results)| && wire == offer + Concat(Chunks(results)[..k]))
    && (r.Ok? ==> wire == offer + FileBytes(results))
  }

  /** The chunk loop of `send_file`, after the offer has been written. */
  method StreamFile(offer: seq<Byte>, results: seq<FileRead>, writeFailAt: Option<nat>)
    returns (r: Result<()>, wire: seq<Byte>)
    ensures Streamed(r, wire, offer, results, writeFailAt)
  {
    var end, sent := SendChunks(results, writeFailAt);
    wire := offer + Concat(sent);
    assert wire == offer + Concat(Chunks(results)[..|sent|]);
    if end == ReadFailed {
      return Err("failed to read file"), wire;
    } else if end == WriteFailed {
      return Err("failed to write data"), wire;
    }
    r := Ok(());
  }

  /** Whether the first line is a well-formed `FileOffer`. */
  predicate IsOffer(first: LineRead<TransferMessage>)
  {
    first.Line? && first.msg.FileOffer?
  }

  /** `BufReader::into_inner`: the bare connection, without the bytes the line
      reader had already taken off it. */
  function Unbuffered(c: Conn): (u: Conn)
    ensures Remaining(u) == Delivered(c.arrivals) && Breaks(u.arrivals) == Breaks(c.arrivals)
  {
    Conn([], c.arrivals)
  }

  /** `handle_incoming_transfer`: returns the error result, the bytes written
      back to the sender, and the created file's path and contents, if one was
      created. The file is read from the connection as it is after
      `into_inner`. */
  method HandleIncomingTransfer(conn: Conn, outputDir: string, acceptWriteOK: bool, createOK: bool,
                                writeFailAt: Option<nat>,
                                marshal: TransferMessage -> seq<Byte>, unmarshal: seq<Byte> -> Option<TransferMessage>)
    returns (r: Result<()>, response: seq<Byte>, saved: Option<(string, seq<Byte>)>)
    ensures !IsOffer(ReadMessageOrRest(conn, unmarshal)) ==> r.Err? && response == [] && saved == None
    ensures IsOffer(ReadMessageOrRest(conn, unmarshal)) ==>
      var first := ReadMessageOrRest(conn, unmarshal);
      var stream := Unbuffered(first.rest);
      && response == (if acceptWriteOK then TransferToBytes(marshal, Accept) else [])
      && (!(acceptWriteOK && createOK) ==> r.Err? && saved == None)
      && (acceptWriteOK && createOK ==>
            && saved.Some? && saved.value.0 == PathJoin(outputDir, first.msg.filename)
            && |saved.value.1| <= first.msg.size && saved.value.1 <= Remaining(stream)
            && saved.value.1 <= Expected(stream, first.msg.size)
            && (r.Ok? || |saved.value.1| == first.msg.size ==> r.Ok? && saved.value.1 == Expected(stream, first.msg.size))
            && (writeFailAt.None? ==>
                  && saved.value.1 == Expected(stream, first.msg.size)
                  && (r.Ok? <==> |Remaining(stream)| >= first.msg.size || !Breaks(stream.arrivals))))
  {
    var line := ReadLineOrRest(conn);
    if line.None? {
      return Err("failed to read offer"), [], None;
    }
    var offer := unmarshal(TrimSpace(line.value.0));
    if !(offer.Some? && offer.value.FileOffer?) {
      return Err("Invalid file offer"), [], None;
    }
    var filename, fileSize := offer.value.filename, offer.value.size;
    var stream := Unbuffered(line.value.1);
    if !acceptWriteOK {
      return Err("failed to write accept"), [], None;
    }
    response := TransferToBytes(marshal, Accept);
    var outputPath := PathJoin(outputDir, filename);
    if !createOK {
      return Err("failed to create file"), response, None;
    }
    var end, written, writes, offsets, requests, rest := ReceiveInto(stream, fileSize, ChunkSize, writeFailAt);
    ReceivedPrefix(stream, fileSize, written, rest);
    if end != WriteFailed {
      ReceiveExpected(stream, fileSize, end, written, rest);
    }
    saved := Some((outputPath, written));
    if end == Completed {
      r := Ok(());
    } else {
      r := Err(if end == ReadFailed then "failed to read data" else "failed to write file");
    }
  }

  /** When the offer line's last segment ends at its newline, `read_line` has
      buffered nothing beyond it, so `into_inner` loses nothing: the receiver
      reads exactly the segments that follow. */
  lemma OfferAloneLosesNothing(marshal: TransferMessage -> seq<Byte>, unmarshal: seq<Byte> -> Option<TransferMessage>,
                               m: TransferMessage, lineSegs: seq<Segment>, later: seq<Segment>)
    requires WellBehaved(marshal, unmarshal)
    requires !Breaks(lineSegs) && Delivered(lineSegs) == TransferToBytes(marshal, m)
    ensures ReadMessageOrRest(Conn([], lineSegs + later), unmarshal) == Line(m, Conn([], later))
    ensures Unbuffered(ReadMessageOrRest(Conn([], lineSegs + later), unmarshal).rest) == Conn([], later)
  {
    var e := marshal(m);
    assert lineSegs != [];
    assert [] + Delivered(lineSegs) == e + [Newline];
    LineAtBoundary([], lineSegs, later, e);
    DecodeLineOf(marshal, unmarshal, m, Conn([], lineSegs + later), Conn([], later));
  }

  /** A read line that is a whole encoded message decodes to that message. */
  lemma DecodeLineOf(marshal: TransferMessage -> seq<Byte>, unmarshal: seq<Byte> -> Option<TransferMessage>,
                     m: TransferMessage, c: Conn, rest: Conn)
    requires WellBehaved(marshal, unmarshal)
    requires ReadLineOrRest(c) == Some((TransferToBytes(marshal, m), rest))
    ensures ReadMessageOrRest(c, unmarshal) == Line(m, rest)
  {
    TrimSpaceOfLine(marshal(m));
  }

  lemma DeliveredEmpty(x: seq<Segment>)
    requires !Breaks(x) && Delivered(x) == []
    ensures x == []
  {
  }

  /** `read_line` over segments whose bytes, after what is buffered, are exactly
      one line: it returns that line and leaves only the later segments, since
      the fill that holds the newline ends with it. */
  lemma {:induction false} LineAtBoundary(p: seq<Byte>, segs: seq<Segment>, later: seq<Segment>, e: seq<Byte>)
    requires Newline !in e && Newline !in p
    requires segs != [] && !Breaks(segs) && p + Delivered(segs) == e + [Newline]
    ensures ReadLineOrRest(Conn(p, segs + later)) == Some((e + [Newline], Conn([], later)))
    decreases ArrivingBytes(segs)
  {
    var f := Fill(segs[0].bytes, segs[1..]);
    var q := p + f.0;
    FillAhead(p, segs, later);
    assert q + Delivered(f.1) == e + [Newline];
    if Newline in q {
      LineEndsInBuffer(q, f.1, later, e);
    } else {
      assert (e + [Newline])[|e|] == Newline;
      assert q != e + [Newline];
      assert f.1 != [];
      LineAtBoundary(q, f.1, later, e);
    }
  }

  /** The case of `LineAtBoundary` where the fill just taken holds the newline:
      it is the last byte, so nothing of the line's segments is left over. */
  lemma LineEndsInBuffer(q: seq<Byte>, segs: seq<Segment>, later: seq<Segment>, e: seq<Byte>)
    requires Newline !in e && Newline in q
    requires !Breaks(segs) && q + Delivered(segs) == e + [Newline]
    ensures ReadLineOrRest(Conn(q, segs + later)) == Some((e + [Newline], Conn([], later)))
  {
    var i := FirstIndex(q, Newline);
    PrefixWithoutNewline(q, e + [Newline], e, i);
    assert q == e + [Newline];
    DeliveredEmpty(segs);
    assert segs + later == later;
    ReadLineOrRestAt(Conn(q, later), |e|);
  }

  /** Where the buffer fill holding byte `i` of an arrival ends: fills take
      `BufCapacity` bytes at a time from the arrival's start. */
  function FillEnd(i: nat): (n: nat)
    ensures i < n <= i + BufCapacity
  {
    if i < BufCapacity then BufCapacity else BufCapacity + FillEnd(i - BufCapacity)
  }

  /** What is still to arrive of arrival `b` once its first `n` bytes are in. */
  function After(b: seq<Byte>, n: nat): (r: seq<Segment>)
    requires n <= |b|
    ensures Delivered(r) == b[n..] && !Breaks(r)
  {
    if n < |b| then
      var t: Bytes1 := b[n..];
      assert Delivered([Data(t)]) == t + Delivered([]);
      [Data(t)]
    else []
  }

  /** `read_line` when the newline lies in the first fill of the arrival. */
  lemma FirstFillLine(p: seq<Byte>, b: Bytes1, i: nat)
    requires Newline !in p && i < |b| && i < BufCapacity && b[i] == Newline && Newline !in b[..i]
    ensures var n := Min(|b|, BufCapacity);
      ReadLineOrRest(Conn(p, [Data(b)])) == Some((p + b[..i + 1], Conn(b[i + 1..n], After(b, n))))
  {
    var n := Min(|b|, BufCapacity);
    var q := p + b[..n];
    assert [Data(b)][1..] == [];
    ReadLineOrRestFill(Conn(p, [Data(b)]));
    FillShape(b, []);
    if |b| > BufCapacity {
      assert [Data(b[BufCapacity..])] + [] == After(b, n);
    } else {
      assert b[..n] == b;
    }
    assert Fill(b, []) == (b[..n], After(b, n));
    assert q[..|p| + i] == p + b[..i];
    ReadLineOrRestAt(Conn(q, After(b, n)), |p| + i);
    assert q[..|p| + i + 1] == p + b[..i + 1];
    assert q[|p| + i + 1..] == b[i + 1..n];
  }

  /** `read_line` when the first fill of the arrival holds no newline: it goes
      on with that fill buffered and the rest of the arrival to come. */
  lemma SkipFirstFill(p: seq<Byte>, b: Bytes1)
    requires |b| > BufCapacity && Newline !in p + b[..BufCapacity]
    ensures var tail: Bytes1 := b[BufCapacity..];
      ReadLineOrRest(Conn(p, [Data(b)])) == ReadLineOrRest(Conn(p + b[..BufCapacity], [Data(tail)]))
  {
    assert [Data(b)][1..] == [];
    ReadLineOrRestFill(Conn(p, [Data(b)]));
    FillShape(b, []);
    assert [Data(b[BufCapacity..])] + [] == [Data(b[BufCapacity..])];
  }

  /** Positions in the arrival past its first fill, seen from that fill's end. */
  lemma ShiftFill(b: Bytes1, i: nat)
    requires BufCapacity <= i < |b|
    ensures var tail := b[BufCapacity..];
      var j := i - BufCapacity;
      var m := Min(|tail|, FillEnd(j));
      var n := Min(|b|, FillEnd(i));
      && n == m + BufCapacity
      && tail[j + 1..m] == b[i + 1..n]
      && After(tail, m) == After(b, n)
  {
  }

  /** `read_line` on a single arrival `b` whose first newline is at `i`: the line
      runs to the newline, the buffer keeps the rest of that fill, and only the
      bytes after the fill stay on the connection. */
  lemma {:induction false} SingleArrivalLine(p: seq<Byte>, b: Bytes1, i: nat)
    requires Newline !in p && i < |b| && b[i] == Newline && Newline !in b[..i]
    ensures var n := Min(|b|, FillEnd(i));
      ReadLineOrRest(Conn(p, [Data(b)])) == Some((p + b[..i + 1], Conn(b[i + 1..n], After(b, n))))
    decreases |b|
  {
    if i < BufCapacity {
      FirstFillLine(p, b, i);
    } else {
      var tail: Bytes1 := b[BufCapacity..];
      var j := i - BufCapacity;
      var q := p + b[..BufCapacity];
      assert Newline !in q by {
        assert b[..BufCapacity] == b[..i][..BufCapacity];
      }
      assert Newline !in tail[..j] by {
        assert tail[..j] == b[..i][BufCapacity..];
      }
      SkipFirstFill(p, b);
      SingleArrivalLine(q, tail, j);
      ShiftFill(b, i);
      assert q + tail[..j + 1] == p + b[..i + 1];
    }
  }

  /** `read_line` on an arrival that starts with one line: the bytes after the
      line's fill are all that the connection still delivers. */
  lemma ArrivalLine(e: seq<Byte>, data: seq<Byte>)
    requires Newline !in e
    ensures var bytes := e + [Newline] + data;
      var n := Min(|bytes|, FillEnd(|e|));
      ReadLineOrRest(Carrying(bytes)) == Some((e + [Newline], Conn(bytes[|e| + 1..n], After(bytes, n))))
  {
    var bytes := e + [Newline] + data;
    assert bytes[..|e|] == e;
    assert bytes[..|e| + 1] == e + [Newline];
    assert Carrying(bytes) == Conn([], [Data(bytes)]);
    SingleArrivalLine([], bytes, |e|);
    assert [] + bytes[..|e| + 1] == e + [Newline];
  }

  /** Bytes that arrive together with the offer line are lost to the receiver
      exactly when they fall into the same buffer fill as the line's newline:
      `into_inner` drops the rest of that fill, fewer than `BufCapacity` bytes,
      and the receiver reads everything after it. With an offer line of at most
      8 KiB, the lost bytes are those among the first 8 KiB of the arrival. */
  lemma CoalescedDataIsDropped(marshal: TransferMessage -> seq<Byte>, unmarshal: seq<Byte> -> Option<TransferMessage>,
                               m: TransferMessage, data: seq<Byte>)
    requires WellBehaved(marshal, unmarshal)
    ensures var line := TransferToBytes(marshal, m);
      var n := Min(|line + data|, FillEnd(|marshal(m)|));
      && |line| <= n < |line| + BufCapacity
      && (|line| <= BufCapacity ==> n == Min(|line + data|, BufCapacity))
      && ReadMessageOrRest(Carrying(line + data), unmarshal).Line?
      && ReadMessageOrRest(Carrying(line + data), unmarshal).msg == m
      && Remaining(Unbuffered(ReadMessageOrRest(Carrying(line + data), unmarshal).rest)) == (line + data)[n..]
  {
    var e := marshal(m);
    var line := TransferToBytes(marshal, m);
    assert line == e + [Newline];
    var bytes := line + data;
    var n := Min(|bytes|, FillEnd(|e|));
    ArrivalLine(e, data);
    DecodeLineOf(marshal, unmarshal, m, Carrying(bytes), Conn(bytes[|e| + 1..n], After(bytes, n)));
  }
}
