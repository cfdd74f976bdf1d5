/**
 * internal/dali/transfer.go: the sender's offer, the classification of the
 * receiver's answer and the send loop; the receiver's offer check, its
 * accept/reject decision and the receive loop; and the activity-log record
 * each outcome leaves.
 *
 * The connection, the file system and the clock are inputs: what the peer
 * sends is a `Conn`, whether opening, dialling, creating or a given write
 * fails is a parameter, and the timestamp is the string `now`.
 */
module DaliTransfer {
  import opened Wrappers
  import opened Text
  import opened Framing
  import opened Stream
  import opened Paths
  import opened DaliMessage
  import opened DaliNode
  import opened Chunked

  /** Transfer chunk size: 64 KiB. */
  const ChunkSize: nat := 64 * 1024

  // ------------------------------------------------------------ the log record

  /** The event literal: timestamp, kind, an empty result slot, path, size in
      decimal, sender and receiver. */
  function TransferEvent(now: string, kind: string, path: string, size: nat, from: string, to: string): Event
  {
    [now, kind, "", path, NatToString(size), from, to]
  }

  /** `addLog` stores the outcome at index 1 of the event: that slot, and only
      that slot, changes. */
  function Logged(event: Event, result: string): (e: Event)
    ensures e[1] == result
    ensures forall i :: 0 <= i < |e| && i != 1 ==> e[i] == event[i]
  {
    event[1 := result]
  }

  /** Because the outcome overwrites the kind, a logged send and a logged
      receive with the same path, size and parties are the same record, and the
      result slot stays empty. */
  lemma LoggedForgetsKind(now: string, path: string, size: nat, from: string, to: string, result: string)
    ensures Logged(TransferEvent(now, "send", path, size, from, to), result)
         == Logged(TransferEvent(now, "receive", path, size, from, to), result)
    ensures Logged(TransferEvent(now, "send", path, size, from, to), result)[2] == ""
  {
  }

  /** `addLog`: append the event, with its outcome, to the node's log. Saving the
      configuration to disk is not part of this model. */
  method AddLog(node: Node, event: Event, result: string)
    modifies node.Config
    ensures node.Config.Logs == old(node.Config.Logs) + [Logged(event, result)]
    ensures node.Config.Name == old(node.Config.Name) && node.Config.Timeout == old(node.Config.Timeout)
  {
    node.Config.AddLog(Logged(event, result));
  }

  // ------------------------------------------------------------ sending

  /** The offer line for a file: the sender's name, the path's base name and its size. */
  function OfferLine(marshal: TransferMessage -> seq<Byte>, sender: string, filePath: string, size: U64): seq<Byte>
  {
    TransferToBytes(marshal, NewOfferMessage(sender, Base(filePath), size))
  }

  /** `sendFile`: returns the error result and every byte written to the
      connection (`wire`). The peer's answer arrives on `conn`. */
  method SendFile(
    node: Node, peer: Peer, filePath: string, file: FileOpen, dialOK: bool, offerWriteOK: bool,
    conn: Conn, dataWriteFailAt: Option<nat>, now: string,
    marshal: TransferMessage -> seq<Byte>, unmarshal: seq<Byte> -> Option<TransferMessage>)
    returns (r: Result<()>, wire: seq<Byte>)
    modifies node.Config
    ensures node.Config.Name == old(node.Config.Name) && node.Config.Timeout == old(node.Config.Timeout)
    ensures !Offers(file, dialOK, offerWriteOK) ==>
      r.Err? && wire == [] && node.Config.Logs == old(node.Config.Logs)
    ensures Offers(file, dialOK, offerWriteOK) && !ReadMessage(conn, unmarshal).Line? ==>
      && r.Err? && node.Config.Logs == old(node.Config.Logs)
      && wire == OfferLine(marshal, old(node.Config.Name), filePath, file.size)
    ensures Offers(file, dialOK, offerWriteOK) && ReadMessage(conn, unmarshal).Line? ==>
      var offer := OfferLine(marshal, old(node.Config.Name), filePath, file.size);
      var event := TransferEvent(now, "send", filePath, file.size, old(node.Config.Name), peer.Name);
      var answer := ReadMessage(conn, unmarshal).msg.Type;
      && (answer == RejectType ==>
            r == Ok(()) && wire == offer && node.Config.Logs == old(node.Config.Logs) + [Logged(event, RejectType)])
      && (answer != AcceptType && answer != RejectType ==>
            r.Err? && wire == offer && node.Config.Logs == old(node.Config.Logs) + [Logged(event, "invalid")])
      && (answer == AcceptType ==>
            && node.Config.Logs == old(node.Config.Logs) + [Logged(event, if r.Ok? then "ok" else "fail")]
            && (r.Ok? <==> !AnyFailed(file.results) && (dataWriteFailAt.None? || dataWriteFailAt.value >= |file.results|))
            && (exists k :: 0 <= k <= |Chunks(file.results)| && wire == offer + Concat(Chunks(file.results)[..k]))
            && (r.Ok? ==> wire == offer + FileBytes(file.results)))
  {
    if !file.Opened? {
      return Err(if file.OpenFailed? then "failed to open file" else "failed to get file info"), [];
    }
    if !dialOK {
      return Err("failed to connect"), [];
    }
    if !offerWriteOK {
      return Err("failed to send file offer"), [];
    }
    wire := OfferLine(marshal, node.Config.Name, filePath, file.size);
    var line := ReadLine(conn);
    if line.None? {
      return Err("failed to read response"), wire;
    }
    var response := ParseMessage(unmarshal, TrimSpace(line.value.0));
    if response.Err? {
      return Err("invalid response"), wire;
    }
    var event := TransferEvent(now, "send", filePath, file.size, node.Config.Name, peer.Name);
    if response.value.Type == RejectType {
      AddLog(node, event, RejectType);
      return Ok(()), wire;
    } else if response.value.Type != AcceptType {
      AddLog(node, event, "invalid");
      return Err("invalid response from peer: " + response.value.Type), wire;
    }
    var offer := wire;
    var end, sent := SendChunks(file.results, dataWriteFailAt);
    wire := offer + Concat(sent);
    assert wire == offer + Concat(Chunks(file.results)[..|sent|]);
    if end == ReadFailed {
      AddLog(node, event, "fail");
      return Err("failed to read file"), wire;
    } else if end == WriteFailed {
      AddLog(node, event, "fail");
      return Err("failed to send data"), wire;
    }
    AddLog(node, event, "ok");
    r := Ok(());
  }

  // ------------------------------------------------------------ receiving

  /** The receiver's decision: it rejects only when it asks and the answer,
      trimmed, is `N` or `n`. */
  predicate Rejects(autoAccept: bool, input: string)
  {
    !autoAccept && (Trim(input) == "N" || Trim(input) == "n")
  }

  /** The answer the receiver writes back. */
  function Answer(autoAccept: bool, input: string): (m: TransferMessage)
    ensures m.Type == RejectType <==> Rejects(autoAccept, input)
    ensures m.Type == AcceptType <==> !Rejects(autoAccept, input)
    ensures m == NewRejectMessage() || m == NewAcceptMessage()
  {
    if Rejects(autoAccept, input) then NewRejectMessage() else NewAcceptMessage()
  }

  /** Whether the first line is a well-formed offer. */
  predicate IsOffer(first: LineRead<TransferMessage>)
  {
    first.Line? && first.msg.Type == OfferType
  }

  /** `handleIncomingTransfer`: returns the error result, the bytes written back
      to the sender, and the created file's path and contents, if one was created.
      `input` is the line typed at the prompt. */
  method HandleIncomingTransfer(
    node: Node, conn: Conn, outputDir: string, autoAccept: bool, input: string,
    responseWriteOK: bool, createOK: bool, writeFailAt: Option<nat>, now: string,
    marshal: TransferMessage -> seq<Byte>, unmarshal: seq<Byte> -> Option<TransferMessage>)
    returns (r: Result<()>, response: seq<Byte>, saved: Option<(string, seq<Byte>)>)
    modifies node.Config
    ensures node.Config.Name == old(node.Config.Name) && node.Config.Timeout == old(node.Config.Timeout)
    ensures !IsOffer(ReadMessage(conn, unmarshal)) ==>
      r.Err? && response == [] && saved == None && node.Config.Logs == old(node.Config.Logs)
    ensures IsOffer(ReadMessage(conn, unmarshal)) ==>
      var first := ReadMessage(conn, unmarshal);
      var path := JoinPath(outputDir, first.msg.Filename);
      var event := TransferEvent(now, "receive", path, first.msg.Size, first.msg.Sender, old(node.Config.Name));
      && response == (if responseWriteOK then TransferToBytes(marshal, Answer(autoAccept, input)) else [])
      && (!responseWriteOK ==> r.Err? && saved == None && node.Config.Logs == old(node.Config.Logs))
      && (responseWriteOK && Rejects(autoAccept, input) ==>
            r == Ok(()) && saved == None && node.Config.Logs == old(node.Config.Logs) + [Logged(event, RejectType)])
      && (responseWriteOK && !Rejects(autoAccept, input) && !createOK ==>
            r.Err? && saved == None && node.Config.Logs == old(node.Config.Logs) + [Logged(event, "fail")])
      && (responseWriteOK && !Rejects(autoAccept, input) && createOK ==>
            && saved.Some? && saved.value.0 == path
            && |saved.value.1| <= first.msg.Size && saved.value.1 <= Remaining(first.rest)
            && saved.value.1 <= Expected(first.rest, first.msg.Size)
            && (r.Ok? || |saved.value.1| == first.msg.Size ==> r.Ok? && saved.value.1 == Expected(first.rest, first.msg.Size))
            && node.Config.Logs == old(node.Config.Logs) + [Logged(event, if r.Ok? then "ok" else "fail")]
            && (writeFailAt.None? ==>
                  && saved.value.1 == Expected(first.rest, first.msg.Size)
                  && (r.Ok? <==> |Remaining(first.rest)| >= first.msg.Size || !Breaks(first.rest.arrivals))))
  {
    var line := ReadLine(conn);
    if line.None? {
      return Err("failed to read offer"), [], None;
    }
    var parsed := ParseMessage(unmarshal, TrimSpace(line.value.0));
    if parsed.Err? {
      return Err("invalid offer"), [], None;
    }
    var offer := parsed.value;
    var reader := line.value.1;
    if offer.Type != OfferType {
      return Err("expected file offer, got " + offer.Type), [], None;
    }
    var rejected := false;
    var msg: TransferMessage;
    if autoAccept {
      msg := NewAcceptMessage();
    } else {
      var answer := Trim(input);
      if answer == "N" || answer == "n" {
        msg := NewRejectMessage();
        rejected := true;
      } else {
        msg := NewAcceptMessage();
      }
    }
    if !responseWriteOK {
      return Err("failed to send response"), [], None;
    }
    response := TransferToBytes(marshal, msg);
    var outputPath := JoinPath(outputDir, offer.Filename);
    var event := TransferEvent(now, "receive", outputPath, offer.Size, offer.Sender, node.Config.Name);
    if rejected {
      AddLog(node, event, RejectType);
      return Ok(()), response, None;
    }
    if !createOK {
      AddLog(node, event, "fail");
      return Err("failed to create file"), response, None;
    }
    var end, written, writes, offsets, requests, rest := ReceiveInto(reader, offer.Size, ChunkSize, writeFailAt);
    ReceivedPrefix(reader, offer.Size, written, rest);
    if end != WriteFailed {
      ReceiveExpected(reader, offer.Size, end, written, rest);
    }
    saved := Some((outputPath, written));
    if end == Completed {
      AddLog(node, event, "ok");
      r := Ok(());
    } else {
      AddLog(node, event, "fail");
      r := Err(if end == ReadFailed then "failed to read data" else "failed to write file");
    }
  }
}
