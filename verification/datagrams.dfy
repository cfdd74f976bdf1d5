/**
 * The UDP side of discovery, shared by every revision: what one read of the
 * socket yields, the replies a listener sends, and the senders of the
 * datagrams that decode to a wanted kind of message.
 */
module Datagrams {
  import opened Wrappers
  import opened Framing

  /** A UDP endpoint: IP text and port. */
  datatype Endpoint = Endpoint(ip: string, port: Port)

  /** One outcome of reading the socket: an error (including an expired read
      deadline) or a datagram with its sender. */
  datatype Received = ReadFailed | Datagram(payload: seq<Byte>, source: Endpoint)

  /** How the socket setup before a discovery round ended: ready, the socket
      could not be created, or the broadcast query could not be sent. */
  datatype Setup = Ready | BindFailed | QueryFailed

  /** A datagram a listener sends back: the destination and the message. */
  datatype Reply<M> = Reply(to: Endpoint, message: M)

  /** A datagram that decodes to a message of the wanted kind. */
  predicate Decodes<M>(ev: Received, unmarshal: seq<Byte> -> Option<M>, wanted: M -> bool)
  {
    ev.Datagram? && unmarshal(ev.payload).Some? && wanted(unmarshal(ev.payload).value)
  }

  /** The senders of the wanted messages, in order of arrival. */
  function Senders<M>(events: seq<Received>, unmarshal: seq<Byte> -> Option<M>, wanted: M -> bool): seq<Endpoint>
  {
    if events == [] then []
    else
      var head := if Decodes(events[0], unmarshal, wanted) then [events[0].source] else [];
      head + Senders(events[1..], unmarshal, wanted)
  }

  lemma {:induction false} SendersAppend<M>(a: seq<Received>, b: seq<Received>,
                                            unmarshal: seq<Byte> -> Option<M>, wanted: M -> bool)
    ensures Senders(a + b, unmarshal, wanted) == Senders(a, unmarshal, wanted) + Senders(b, unmarshal, wanted)
  {
    if a == [] {
      assert a + b == b;
    } else {
      var ab := a + b;
      assert ab[0] == a[0] && ab[1..] == a[1..] + b;
      SendersAppend(a[1..], b, unmarshal, wanted);
      assert Senders(ab, unmarshal, wanted)
          == (if Decodes(a[0], unmarshal, wanted) then [a[0].source] else []) + Senders(ab[1..], unmarshal, wanted);
    }
  }

  /** One more datagram adds its sender exactly when it is wanted. */
  lemma SendersSnoc<M>(events: seq<Received>, i: nat, unmarshal: seq<Byte> -> Option<M>, wanted: M -> bool)
    requires i < |events|
    ensures Senders(events[..i + 1], unmarshal, wanted)
         == Senders(events[..i], unmarshal, wanted)
            + (if Decodes(events[i], unmarshal, wanted) then [events[i].source] else [])
  {
    assert events[..i + 1] == events[..i] + [events[i]];
    SendersAppend(events[..i], [events[i]], unmarshal, wanted);
    assert [events[i]][1..] == [];
  }

  /** `x` is a subsequence of `y`. */
  predicate IsSubseq<T(==)>(x: seq<T>, y: seq<T>)
  {
    x == [] || (y != [] && ((x[0] == y[0] && IsSubseq(x[1..], y[1..])) || IsSubseq(x, y[1..])))
  }

  lemma SubseqOfCons<T>(x: seq<T>, h: T, y: seq<T>)
    requires IsSubseq(x, y)
    ensures IsSubseq(x, [h] + y)
  {
    assert ([h] + y)[1..] == y;
  }
}
