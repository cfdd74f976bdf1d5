/**
 * Types and constants shared by the `dali` package (internal/dali): the peer
 * record of discovery.go, kept here so that every module can use it, the
 * wildcard, and the messages of internal/dali/message.go with their
 * constructors and framing.
 */
module DaliMessage {
  import opened Wrappers
  import opened Framing

  /** A discovered peer: its name and its `ip:port` transfer address. */
  datatype Peer = Peer(Name: string, Addr: string)

  /** The wildcard used for names and addresses. */
  const Anything: string := "*"

  const QueryType: string := "query"
  const AnnounceType: string := "announce"
  const OfferType: string := "offer"
  const AcceptType: string := "accept"
  const RejectType: string := "reject"

  /** A decoded discovery datagram; `Type` is whatever string the sender put there. */
  datatype DiscoveryMessage = DiscoveryMessage(Type: string, Name: string, Addr: string, TransferPort: Port)

  /** A decoded transfer line. */
  datatype TransferMessage = TransferMessage(Type: string, Sender: string, Filename: string, Size: U64)

  function NewQueryMessage(): (m: DiscoveryMessage)
    ensures m.Type == QueryType && m.Name == "" && m.Addr == "" && m.TransferPort == 0
  {
    DiscoveryMessage(QueryType, "", "", 0)
  }

  function NewAnnounceMessage(name: string, addr: string, transferPort: Port): (m: DiscoveryMessage)
    ensures m.Type == AnnounceType && m.Name == name && m.Addr == addr && m.TransferPort == transferPort
  {
    DiscoveryMessage(AnnounceType, name, addr, transferPort)
  }

  function NewOfferMessage(sender: string, filename: string, size: U64): (m: TransferMessage)
    ensures m.Type == OfferType && m.Sender == sender && m.Filename == filename && m.Size == size
  {
    TransferMessage(OfferType, sender, filename, size)
  }

  function NewAcceptMessage(): (m: TransferMessage)
    ensures m.Type == AcceptType && m.Sender == "" && m.Filename == "" && m.Size == 0
  {
    TransferMessage(AcceptType, "", "", 0)
  }

  function NewRejectMessage(): (m: TransferMessage)
    ensures m.Type == RejectType && m.Sender == "" && m.Filename == "" && m.Size == 0
  {
    TransferMessage(RejectType, "", "", 0)
  }

  /** The five type tags are pairwise distinct, so each constructor's message is
      told apart from every other constructor's by its tag alone. */
  lemma TypeTagsDistinct()
    ensures |{QueryType, AnnounceType, OfferType, AcceptType, RejectType}| == 5
    ensures NewQueryMessage().Type != NewAnnounceMessage("", "", 0).Type
    ensures forall s, f, z ::
      && NewOfferMessage(s, f, z).Type != NewAcceptMessage().Type
      && NewOfferMessage(s, f, z).Type != NewRejectMessage().Type
    ensures NewAcceptMessage().Type != NewRejectMessage().Type
  {
    assert QueryType[0] == 'q' && AnnounceType[0] == 'a' && OfferType[0] == 'o';
    assert AcceptType[0] == 'a' && RejectType[0] == 'r' && AnnounceType[1] == 'n' && AcceptType[1] == 'c';
  }

  /** `parseMessage[T]`: the decoded message with a nil error, or nil with the error. */
  function ParseMessage<T>(unmarshal: seq<Byte> -> Option<T>, data: seq<Byte>): (r: Result<T>)
    ensures r.Ok? <==> unmarshal(data).Some?
    ensures r.Ok? ==> Some(r.value) == unmarshal(data)
  {
    match unmarshal(data)
    case Some(m) => Ok(m)
    case None => Err("invalid character in JSON input")
  }

  /** `DiscoveryMessage.ToBytes`: the encoding, with no delimiter. */
  function DiscoveryToBytes(marshal: DiscoveryMessage -> seq<Byte>, m: DiscoveryMessage): seq<Byte>
  {
    DatagramBytes(marshal, m)
  }

  /** `TransferMessage.ToBytes`: the encoding followed by one newline byte. */
  function TransferToBytes(marshal: TransferMessage -> seq<Byte>, m: TransferMessage): seq<Byte>
  {
    LineBytes(marshal, m)
  }

  /** A datagram holds exactly one message: parsing the bytes `ToBytes` produced gives it back. */
  lemma DiscoveryRoundTrip(marshal: DiscoveryMessage -> seq<Byte>, unmarshal: seq<Byte> -> Option<DiscoveryMessage>, m: DiscoveryMessage)
    requires WellBehaved(marshal, unmarshal)
    ensures ParseMessage(unmarshal, DiscoveryToBytes(marshal, m)) == Ok(m)
  {
  }

  /** A transfer line holds exactly one message: once its newline and the white
      space around it are trimmed, as the receiver does, parsing gives it back. */
  lemma TransferRoundTrip(marshal: TransferMessage -> seq<Byte>, unmarshal: seq<Byte> -> Option<TransferMessage>, m: TransferMessage)
    requires WellBehaved(marshal, unmarshal)
    ensures ParseMessage(unmarshal, TrimSpace(TransferToBytes(marshal, m))) == Ok(m)
  {
    TrimSpaceOfLine(marshal(m));
  }
}
