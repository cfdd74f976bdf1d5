/**
 * src/protocol.rs, the Rust revision of the wire format: its ports, the two
 * message enums, and the framing of `to_bytes` / `from_bytes`. Serde's JSON
 * encoding is a parameter; `from_bytes` is that decoder, which yields `None`
 * rather than an error on any input it cannot decode.
 */
module RustProtocol {
  import opened Wrappers
  import opened Framing
  import opened Datagrams

  const DiscoveryPort: Port := 45678
  const TransferPort: Port := 45679

  /** A discovery datagram: a peer's announce, with its name and transfer port,
      or a query. */
  datatype DiscoveryMessage = Announce(name: string, transfer_port: Port) | Query

  /** A discovered peer: its name and its transfer socket address. */
  datatype Peer = Peer(name: string, addr: Endpoint)

  /** A transfer line. Only an offer carries data. */
  datatype TransferMessage = FileOffer(filename: string, size: U64) | Accept | Reject | Complete

  /** The discovery and transfer ports. */
  lemma Constants()
    ensures DiscoveryPort == 45678 && TransferPort == 45679 && DiscoveryPort != TransferPort
  {
  }

  /** `DiscoveryMessage::to_bytes`: the encoding, with no delimiter. */
  function DiscoveryToBytes(marshal: DiscoveryMessage -> seq<Byte>, m: DiscoveryMessage): seq<Byte>
  {
    DatagramBytes(marshal, m)
  }

  /** `TransferMessage::to_bytes`: the encoding with one newline pushed onto it. */
  function TransferToBytes(marshal: TransferMessage -> seq<Byte>, m: TransferMessage): seq<Byte>
  {
    LineBytes(marshal, m)
  }

  /** Decoding what `to_bytes` produced gives the message back: a datagram as
      it is, a transfer line once it is trimmed; and a transfer line holds
      exactly one newline, as its last byte. */
  lemma RoundTrips(dm: DiscoveryMessage -> seq<Byte>, du: seq<Byte> -> Option<DiscoveryMessage>,
                   tm: TransferMessage -> seq<Byte>, tu: seq<Byte> -> Option<TransferMessage>,
                   d: DiscoveryMessage, t: TransferMessage)
    requires WellBehaved(dm, du) && WellBehaved(tm, tu)
    ensures du(DiscoveryToBytes(dm, d)) == Some(d)
    ensures tu(TrimSpace(TransferToBytes(tm, t))) == Some(t)
    ensures CountByte(TransferToBytes(tm, t), Newline) == 1
    ensures TransferToBytes(tm, t)[|TransferToBytes(tm, t)| - 1] == Newline
  {
    TrimSpaceOfLine(tm(t));
    LineBytesHasOneNewline(tm, t);
  }
}
