/**
 * internal/transfer/transfer.go, the earlier Go revision of the transfer: the
 * sender offers the file and streams it only on `Accept`; the receiver checks
 * for a `FileOffer`, accepts every offer, and receives into `outputDir`.
 * Nothing is logged in this revision.
 */
module LegacyTransfer {
  import opened Wrappers
  import opened Framing
  import opened Stream
  import opened Paths
  import opened LegacyProtocol
  import opened Chunked

  /** `SendFile`: returns the error result and every byte written to the
      connection; the peer's answer arrives on `conn`. A `Reject`, and any
      other answer but `Accept`, ends the call without an error. */
  method SendFile(addr: string, filePath: string, file: FileOpen, dialOK: bool, offerWriteOK: bool,
                  conn: Conn, dataWriteFailAt: Option<nat>,
                  marshal: TransferMessage -> seq<Byte>, unmarshal: seq<Byte> -> Option<TransferMessage>)
    returns (r: Result<()>, wire: seq<Byte>)
    ensures !Offers(file, dialOK, offerWriteOK) ==> r.Err? && wire == []
    ensures Offers(file, dialOK, offerWriteOK) ==>
      var offer := TransferToBytes(marshal, NewFileOfferMessage(Base(filePath), file.size));
      var answer := ReadMessage(conn, unmarshal);
      && (!answer.Line? ==> r.Err? && wire == offer)
      && (answer.Line? && answer.msg.Type != AcceptType ==> r == Ok(()) && wire == offer)
      && (answer.Line? && answer.msg.Type == AcceptType ==>
            && (r.Ok? <==> !AnyFailed(file.results) && (dataWriteFailAt.None? || dataWriteFailAt.value >= |file.results|))
            && (exists k :: 0 <= k <= |Chunks(file.results)| && wire == offer + Concat(Chunks(file.results)[..k]))
            && (r.Ok? ==> wire == offer + FileBytes(file.results)))
  {
    if !file.Opened? {
      return Err(if file.OpenFailed? then "failed to open file" else "failed to get file info"), [];
    }
    if !dialOK {
      return Err("failed to connect"), [];
    }
    if !offerWriteOK {
      return Err("failed to send file offer"), [];
    }
    var offer := TransferToBytes(marshal, NewFileOfferMessage(Base(filePath), file.size));
    wire := offer;
    var line := ReadLine(conn);
    if line.None? {
      return Err("failed to read response"), wire;
    }
    var response := ParseTransferMessage(unmarshal, TrimSpace(line.value.0));
    if response.Err? {
      return Err("invalid response"), wire;
    }
    if response.value.Type == RejectType {
      return Ok(()), wire;
    } else if response.value.Type != AcceptType {
      return Ok(()), wire;
    }
    var end, sent := SendChunks(file.results, dataWriteFailAt);
    wire := offer + Concat(sent);
    assert wire == offer + Concat(Chunks(file.results)[..|sent|]);
    if end == ReadFailed {
      return Err("failed to read file"), wire;
    } else if end == WriteFailed {
      return Err("failed to send data"), wire;
    }
    r := Ok(());
  }

  /** Whether the first line is a well-formed `FileOffer`. */
  predicate IsOffer(first: LineRead<TransferMessage>)
  {
    first.Line? && first.msg.Type == FileOfferType
  }

  /** `handleIncomingTransfer`: returns the error result, the bytes written back
      to the sender, and the created file's path and contents, if one was created. */
  method HandleIncomingTransfer(conn: Conn, outputDir: string, acceptWriteOK: bool, createOK: bool,
                                writeFailAt: Option<nat>,
                                marshal: TransferMessage -> seq<Byte>, unmarshal: seq<Byte> -> Option<TransferMessage>)
    returns (r: Result<()>, response: seq<Byte>, saved: Option<(string, seq<Byte>)>)
    ensures !IsOffer(ReadMessage(conn, unmarshal)) ==> r.Err? && response == [] && saved == None
    ensures IsOffer(ReadMessage(conn, unmarshal)) ==>
      var first := ReadMessage(conn, unmarshal);
      && response == (if acceptWriteOK then TransferToBytes(marshal, NewAcceptMessage()) else [])
      && (!(acceptWriteOK && createOK) ==> r.Err? && saved == None)
      && (acceptWriteOK && createOK ==>
            && saved.Some? && saved.value.0 == JoinPath(outputDir, first.msg.Filename)
            && |saved.value.1| <= first.msg.Size && saved.value.1 <= Remaining(first.rest)
            && saved.value.1 <= Expected(first.rest, first.msg.Size)
            && (r.Ok? || |saved.value.1| == first.msg.Size ==> r.Ok? && saved.value.1 == Expected(first.rest, first.msg.Size))
            && (writeFailAt.None? ==>
                  && saved.value.1 == Expected(first.rest, first.msg.Size)
                  && (r.Ok? <==> |Remaining(first.rest)| >= first.msg.Size || !Breaks(first.rest.arrivals))))
  {
    var line := ReadLine(conn);
    if line.None? {
      return Err("failed to read offer"), [], None;
    }
    var parsed := ParseTransferMessage(unmarshal, TrimSpace(line.value.0));
    if parsed.Err? {
      return Err("invalid offer"), [], None;
    }
    var offer := parsed.value;
    var reader := line.value.1;
    if offer.Type != FileOfferType {
      return Err("expected file offer, got " + offer.Type), [], None;
    }
    if !acceptWriteOK {
      return Err("failed to send accept"), [], None;
    }
    response := TransferToBytes(marshal, NewAcceptMessage());
    var outputPath := JoinPath(outputDir, offer.Filename);
    if !createOK {
      return Err("failed to create file"), response, None;
    }
    var end, written, writes, offsets, requests, rest := ReceiveInto(reader, offer.Size, ChunkSize, writeFailAt);
    ReceivedPrefix(reader, offer.Size, written, rest);
    if end != WriteFailed {
      ReceiveExpected(reader, offer.Size, end, written, rest);
    }
    saved := Some((outputPath, written));
    if end == Completed {
      r := Ok(());
    } else {
      r := Err(if end == ReadFailed then "failed to read data" else "failed to write file");
    }
  }
}
