/**
 * internal/protocol/protocol.go, the earlier Go revision of the wire format:
 * its ports and chunk size, its message records with their constructors, the
 * framing of `ToBytes`, and the result shape of the two parse functions.
 */
module LegacyProtocol {
  import opened Wrappers
  import opened Framing

  const DiscoveryPort: Port := 45678
  const TransferPort: Port := 45679
  const ChunkSize: nat := 64 * 1024

  const QueryType: string := "Query"
  const AnnounceType: string := "Announce"
  const FileOfferType: string := "FileOffer"
  const AcceptType: string := "Accept"
  const RejectType: string := "Reject"

  /** A discovery datagram: the type tag, the announcer's name and transfer port. */
  datatype DiscoveryMessage = DiscoveryMessage(Type: string, Name: string, TransferPort: Port)

  /** A discovered peer: its name and its `ip:port` transfer address. */
  datatype Peer = Peer(Name: string, Addr: string)

  /** A transfer line: the type tag, the offered file's base name and size. */
  datatype TransferMessage = TransferMessage(Type: string, Filename: string, Size: U64)

  /** The discovery and transfer ports, and 64 KiB chunks. */
  lemma Constants()
    ensures DiscoveryPort == 45678 && TransferPort == 45679 && DiscoveryPort != TransferPort
    ensures ChunkSize == 65536
  {
  }

  function NewQueryMessage(): (m: DiscoveryMessage)
    ensures m.Type == QueryType && m.Name == "" && m.TransferPort == 0
  {
    DiscoveryMessage(QueryType, "", 0)
  }

  function NewAnnounceMessage(name: string, transferPort: Port): (m: DiscoveryMessage)
    ensures m.Type == AnnounceType && m.Name == name && m.TransferPort == transferPort
  {
    DiscoveryMessage(AnnounceType, name, transferPort)
  }

  function NewFileOfferMessage(filename: string, size: U64): (m: TransferMessage)
    ensures m.Type == FileOfferType && m.Filename == filename && m.Size == size
  {
    TransferMessage(FileOfferType, filename, size)
  }

  function NewAcceptMessage(): (m: TransferMessage)
    ensures m.Type == AcceptType && m.Filename == "" && m.Size == 0
  {
    TransferMessage(AcceptType, "", 0)
  }

  function NewRejectMessage(): (m: TransferMessage)
    ensures m.Type == RejectType && m.Filename == "" && m.Size == 0
  {
    TransferMessage(RejectType, "", 0)
  }

  /** The five tags are pairwise distinct. */
  lemma TypeTagsDistinct()
    ensures |{QueryType, AnnounceType, FileOfferType, AcceptType, RejectType}| == 5
  {
    assert QueryType[0] == 'Q' && AnnounceType[0] == 'A' && FileOfferType[0] == 'F';
    assert AcceptType[0] == 'A' && RejectType[0] == 'R' && AnnounceType[1] == 'n' && AcceptType[1] == 'c';
  }

  /** `DiscoveryMessage.ToBytes`: the encoding, with no delimiter. */
  function DiscoveryToBytes(marshal: DiscoveryMessage -> seq<Byte>, m: DiscoveryMessage): seq<Byte>
  {
    DatagramBytes(marshal, m)
  }

  /** `TransferMessage.ToBytes`: the encoding followed by one newline byte. */
  function TransferToBytes(marshal: TransferMessage -> seq<Byte>, m: TransferMessage): seq<Byte>
  {
    LineBytes(marshal, m)
  }

  /** `ParseDiscoveryMessage`: the message and a nil error, or nil and the error. */
  function ParseDiscoveryMessage(unmarshal: seq<Byte> -> Option<DiscoveryMessage>, data: seq<Byte>): (r: Result<DiscoveryMessage>)
    ensures r.Ok? <==> unmarshal(data).Some?
    ensures r.Ok? ==> Some(r.value) == unmarshal(data)
  {
    match unmarshal(data)
    case Some(m) => Ok(m)
    case None => Err("invalid character in JSON input")
  }

  /** `ParseTransferMessage`: the message and a nil error, or nil and the error. */
  function ParseTransferMessage(unmarshal: seq<Byte> -> Option<TransferMessage>, data: seq<Byte>): (r: Result<TransferMessage>)
    ensures r.Ok? <==> unmarshal(data).Some?
    ensures r.Ok? ==> Some(r.value) == unmarshal(data)
  {
    match unmarshal(data)
    case Some(m) => Ok(m)
    case None => Err("invalid character in JSON input")
  }

  /** Parsing what `ToBytes` produced gives the message back: a datagram as it
      is, a transfer line once its newline is trimmed. */
  lemma RoundTrips(dm: DiscoveryMessage -> seq<Byte>, du: seq<Byte> -> Option<DiscoveryMessage>,
                   tm: TransferMessage -> seq<Byte>, tu: seq<Byte> -> Option<TransferMessage>,
                   d: DiscoveryMessage, t: TransferMessage)
    requires WellBehaved(dm, du) && WellBehaved(tm, tu)
    ensures ParseDiscoveryMessage(du, DiscoveryToBytes(dm, d)) == Ok(d)
    ensures ParseTransferMessage(tu, TrimSpace(TransferToBytes(tm, t))) == Ok(t)
  {
    TrimSpaceOfLine(tm(t));
  }
}
