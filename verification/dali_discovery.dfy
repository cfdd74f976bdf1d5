/**
 * internal/dali/discovery.go: collecting peers from the announce datagrams
 * received during one discovery round, and answering queries.
 * The received datagrams (and read errors, including an expired 100 ms read
 * deadline) are an input sequence; its end stands for the overall timeout.
 */
module DaliDiscovery {
  import opened Wrappers
  import opened Text
  import opened Framing
  import opened DaliMessage
  import opened DaliUtils
  import opened Datagrams

  /** `fmt.Sprintf("%s:%d", msg.Addr, msg.TransferPort)`. */
  function PeerAddr(msg: DiscoveryMessage): string
  {
    msg.Addr + ":" + NatToString(msg.TransferPort)
  }

  /** `list.Any(peers, p.Addr == addr)`. */
  predicate HasAddr(peers: seq<Peer>, addr: string)
  {
    exists j :: 0 <= j < |peers| && peers[j].Addr == addr
  }

  /** At most one peer per address. */
  ghost predicate UniqueAddrs(peers: seq<Peer>)
  {
    forall i, j :: 0 <= i < j < |peers| ==> peers[i].Addr != peers[j].Addr
  }

  /** Whether a filter restricts anything. */
  predicate FilterSet(filter: Peer)
  {
    filter.Name != Anything || filter.Addr != Anything
  }

  /** A peer satisfies the filter: same name ignoring case, address starting with `Addr:`. */
  predicate Matches(filter: Peer, p: Peer)
  {
    && (filter.Name == Anything || Lower(p.Name) == Lower(filter.Name))
    && (filter.Addr == Anything || HasPrefix(p.Addr, filter.Addr + ":"))
  }

  /** The peer a received datagram announces: only a decodable `announce`. */
  function AnnouncedPeer(ev: Received, unmarshal: seq<Byte> -> Option<DiscoveryMessage>): (r: Option<Peer>)
  {
    match ev
    case ReadFailed => None
    case Datagram(payload, _) =>
      match unmarshal(payload)
      case None => None
      case Some(msg) => if msg.Type != AnnounceType then None else Some(Peer(msg.Name, PeerAddr(msg)))
  }

  /** Every announced peer, in arrival order, before deduplication and filtering. */
  function Announced(events: seq<Received>, unmarshal: seq<Byte> -> Option<DiscoveryMessage>): seq<Peer>
  {
    if events == [] then []
    else
      (match AnnouncedPeer(events[0], unmarshal) case Some(p) => [p] case None => [])
      + Announced(events[1..], unmarshal)
  }

  datatype Step = Continue(peers: seq<Peer>) | Stop(peers: seq<Peer>)

  /** What one received datagram does to the list. */
  function CollectStep(peers: seq<Peer>, ev: Received, filter: Peer, endASAP: bool,
                       unmarshal: seq<Byte> -> Option<DiscoveryMessage>): Step
  {
    match AnnouncedPeer(ev, unmarshal)
    case None => Continue(peers)
    case Some(p) =>
      if HasAddr(peers, p.Addr) then Continue(peers)
      else if filter.Name != Anything && Lower(p.Name) != Lower(filter.Name) then Continue(peers)
      else if filter.Addr != Anything && !HasPrefix(p.Addr, filter.Addr + ":") then Continue(peers)
      else if FilterSet(filter) && endASAP then Stop(peers + [p])
      else Continue(peers + [p])
  }

  /** The list a round ends with, starting from `peers`. */
  function Collect(events: seq<Received>, peers: seq<Peer>, filter: Peer, endASAP: bool,
                   unmarshal: seq<Byte> -> Option<DiscoveryMessage>): seq<Peer>
  {
    if events == [] then peers
    else match CollectStep(peers, events[0], filter, endASAP, unmarshal)
      case Stop(p) => p
      case Continue(p) => Collect(events[1..], p, filter, endASAP, unmarshal)
  }

  /** `discoverPeers`: after the socket is set up and the query broadcast, the
      collection loop over the received datagrams. */
  method DiscoverPeers(setup: Setup, events: seq<Received>, filter: Peer, endASAP: bool,
                       unmarshal: seq<Byte> -> Option<DiscoveryMessage>) returns (r: Result<seq<Peer>>)
    ensures setup != Ready <==> r.Err?
    ensures setup == Ready ==> r.value == Collect(events, [], filter, endASAP, unmarshal)
  {
    if setup == BindFailed {
      return Err("failed to create UDP socket");
    } else if setup == QueryFailed {
      return Err("failed to send discovery query");
    }
    var peers: seq<Peer> := [];
    var targetName := Lower(filter.Name);
    var targetAddr := filter.Addr + ":";
    var i := 0;
    while i < |events|
      invariant 0 <= i <= |events|
      invariant Collect(events[i..], peers, filter, endASAP, unmarshal) == Collect(events, [], filter, endASAP, unmarshal)
    {
      var ev := events[i];
      assert events[i..][1..] == events[i + 1..];
      i := i + 1;
      if ev.ReadFailed? {
        continue;
      }
      var msg := ParseMessage(unmarshal, ev.payload);
      if msg.Err? || msg.value.Type != AnnounceType {
        continue;
      }
      var peerAddr := msg.value.Addr + ":" + NatToString(msg.value.TransferPort);
      var known := exists j | 0 <= j < |peers| :: peers[j].Addr == peerAddr;
      if known {
        continue;
      }
      if filter.Name != Anything && Lower(msg.value.Name) != targetName {
        continue;
      }
      if filter.Addr != Anything && !HasPrefix(peerAddr, targetAddr) {
        continue;
      }
      peers := peers + [Peer(msg.value.Name, peerAddr)];
      if (filter.Name != Anything || filter.Addr != Anything) && endASAP {
        break;
      }
    }
    return Ok(peers);
  }

  /** No two peers in the result share an address. */
  lemma {:induction false} CollectUniqueAddrs(events: seq<Received>, peers: seq<Peer>, filter: Peer, endASAP: bool,
                                              unmarshal: seq<Byte> -> Option<DiscoveryMessage>)
    requires UniqueAddrs(peers)
    ensures UniqueAddrs(Collect(events, peers, filter, endASAP, unmarshal))
  {
    if events != [] {
      var step := CollectStep(peers, events[0], filter, endASAP, unmarshal);
      assert UniqueAddrs(step.peers);
      if step.Continue? {
        CollectUniqueAddrs(events[1..], step.peers, filter, endASAP, unmarshal);
      }
    }
  }

  /** With a name filter every result peer has that name up to case; with an
      address filter every result peer's address starts with `filter.Addr + ":"`. */
  lemma {:induction false} CollectMatchesFilter(events: seq<Received>, peers: seq<Peer>, filter: Peer, endASAP: bool,
                                                unmarshal: seq<Byte> -> Option<DiscoveryMessage>)
    requires forall p :: p in peers ==> Matches(filter, p)
    ensures forall p :: p in Collect(events, peers, filter, endASAP, unmarshal) ==> Matches(filter, p)
  {
    if events != [] {
      var step := CollectStep(peers, events[0], filter, endASAP, unmarshal);
      if step.Continue? {
        CollectMatchesFilter(events[1..], step.peers, filter, endASAP, unmarshal);
      }
    }
  }

  /** The round only ever appends: the starting list is a prefix of the result, and
      what is appended is a subsequence of the announced peers, so peers appear in
      the order first accepted and each carries an announce's name and
      `Addr:TransferPort`. */
  lemma {:induction false} CollectAppendsAnnounced(events: seq<Received>, peers: seq<Peer>, filter: Peer, endASAP: bool,
                                                   unmarshal: seq<Byte> -> Option<DiscoveryMessage>)
    ensures var r := Collect(events, peers, filter, endASAP, unmarshal);
      |peers| <= |r| && r[..|peers|] == peers && IsSubseq(r[|peers|..], Announced(events, unmarshal))
  {
    var r := Collect(events, peers, filter, endASAP, unmarshal);
    if events == [] {
      assert r[|peers|..] == [];
    } else {
      var step := CollectStep(peers, events[0], filter, endASAP, unmarshal);
      var ann := Announced(events, unmarshal);
      var rest := Announced(events[1..], unmarshal);
      var a := AnnouncedPeer(events[0], unmarshal);
      if step.peers == peers {
        assert step.Continue?;
        CollectAppendsAnnounced(events[1..], peers, filter, endASAP, unmarshal);
        if a.Some? {
          assert ann == [a.value] + rest;
          SubseqOfCons(r[|peers|..], a.value, rest);
        } else {
          assert ann == rest;
        }
      } else {
        assert a.Some? && step.peers == peers + [a.value];
        assert ann == [a.value] + rest;
        if step.Continue? {
          CollectAppendsAnnounced(events[1..], step.peers, filter, endASAP, unmarshal);
          var tail := r[|step.peers|..];
          assert r[..|step.peers|] == peers + [a.value];
          assert r[|peers|..] == [a.value] + tail;
          assert r[|peers|..][1..] == tail;
        } else {
          assert r == peers + [a.value];
          assert r[|peers|..] == [a.value];
          assert r[|peers|..][1..] == [];
        }
      }
    }
  }

  /** Without the early stop, the collector loses no peer: for every announce that
      passes the filter, some result peer has its address (the first one accepted
      with that address). */
  lemma {:induction false} CollectComplete(events: seq<Received>, peers: seq<Peer>, filter: Peer, endASAP: bool,
                                           unmarshal: seq<Byte> -> Option<DiscoveryMessage>, p: Peer)
    requires !(FilterSet(filter) && endASAP)
    requires p in Announced(events, unmarshal) && Matches(filter, p)
    ensures HasAddr(Collect(events, peers, filter, endASAP, unmarshal), p.Addr)
  {
    var step := CollectStep(peers, events[0], filter, endASAP, unmarshal);
    var a := AnnouncedPeer(events[0], unmarshal);
    var rest := Announced(events[1..], unmarshal);
    var r := Collect(events, peers, filter, endASAP, unmarshal);
    CollectAppendsAnnounced(events[1..], step.peers, filter, endASAP, unmarshal);
    if a == Some(p) {
      assert HasAddr(step.peers, p.Addr) by {
        if !HasAddr(peers, p.Addr) {
          assert step.peers[|peers|] == p;
        }
      }
      var j :| 0 <= j < |step.peers| && step.peers[j].Addr == p.Addr;
      assert r[j] == r[..|step.peers|][j] == step.peers[j];
    } else {
      assert p in rest;
      CollectComplete(events[1..], step.peers, filter, endASAP, unmarshal, p);
    }
  }

  /** First announce wins: an announce that passes the filter and whose address
      is not yet in the list when it arrives is in the result, and it is the
      only peer there with that address; later announces of the address do not
      replace it. With a filter and `endASAP`, this holds while the round has
      not stopped, that is, while nothing has been added. */
  lemma {:induction false} CollectKeepsFirst(before: seq<Received>, ev: Received, after: seq<Received>,
                                             peers: seq<Peer>, filter: Peer, endASAP: bool,
                                             unmarshal: seq<Byte> -> Option<DiscoveryMessage>, p: Peer)
    requires AnnouncedPeer(ev, unmarshal) == Some(p) && Matches(filter, p)
    requires !HasAddr(Collect(before, peers, filter, endASAP, unmarshal), p.Addr)
    requires FilterSet(filter) && endASAP ==> |Collect(before, peers, filter, endASAP, unmarshal)| == |peers|
    requires UniqueAddrs(peers)
    ensures var r := Collect(before + [ev] + after, peers, filter, endASAP, unmarshal);
      p in r && forall q :: q in r && q.Addr == p.Addr ==> q == p
  {
    var events := before + [ev] + after;
    var r := Collect(events, peers, filter, endASAP, unmarshal);
    CollectUniqueAddrs(events, peers, filter, endASAP, unmarshal);
    if before == [] {
      assert events == [ev] + after && events[1..] == after;
      var step := CollectStep(peers, ev, filter, endASAP, unmarshal);
      assert step.peers == peers + [p];
      CollectAppendsAnnounced(events[1..], step.peers, filter, endASAP, unmarshal);
      assert r[|peers|] == step.peers[|peers|] == p;
    } else {
      var step := CollectStep(peers, before[0], filter, endASAP, unmarshal);
      assert events[0] == before[0] && events[1..] == before[1..] + [ev] + after;
      assert step.Continue?;
      assert FilterSet(filter) && endASAP ==> step.peers == peers;
      CollectUniqueAddrs([before[0]], peers, filter, endASAP, unmarshal);
      assert UniqueAddrs(step.peers);
      CollectKeepsFirst(before[1..], ev, after, step.peers, filter, endASAP, unmarshal, p);
    }
    var k :| 0 <= k < |r| && r[k] == p;
    forall q | q in r && q.Addr == p.Addr
      ensures q == p
    {
      var j :| 0 <= j < |r| && r[j] == q;
      assert j == k;
    }
  }

  /** With a filter set and `endASAP`, collection stops right after the first
      addition: at most one peer is ever added. */
  lemma {:induction false} CollectStopsEarly(events: seq<Received>, peers: seq<Peer>, filter: Peer, endASAP: bool,
                                             unmarshal: seq<Byte> -> Option<DiscoveryMessage>)
    requires FilterSet(filter) && endASAP
    ensures |Collect(events, peers, filter, endASAP, unmarshal)| <= |peers| + 1
  {
    if events != [] {
      var step := CollectStep(peers, events[0], filter, endASAP, unmarshal);
      if step.Continue? {
        assert step.peers == peers;
        CollectStopsEarly(events[1..], peers, filter, endASAP, unmarshal);
      }
    }
  }

  /** A read error, an undecodable datagram or a message that is not an announce,
      wherever it arrives, changes nothing and raises no error. */
  lemma {:induction false} CollectIgnoresNoise(before: seq<Received>, noise: Received, after: seq<Received>,
                                               peers: seq<Peer>, filter: Peer, endASAP: bool,
                                               unmarshal: seq<Byte> -> Option<DiscoveryMessage>)
    requires AnnouncedPeer(noise, unmarshal).None?
    ensures Collect(before + [noise] + after, peers, filter, endASAP, unmarshal)
         == Collect(before + after, peers, filter, endASAP, unmarshal)
  {
    if before == [] {
      assert before + [noise] + after == [noise] + after;
      assert ([noise] + after)[1..] == after;
      assert before + after == after;
    } else {
      var step := CollectStep(peers, before[0], filter, endASAP, unmarshal);
      assert (before + [noise] + after)[0] == before[0] && (before + after)[0] == before[0];
      assert (before + [noise] + after)[1..] == before[1..] + [noise] + after;
      assert (before + after)[1..] == before[1..] + after;
      if step.Continue? {
        CollectIgnoresNoise(before[1..], noise, after, step.peers, filter, endASAP, unmarshal);
      }
    }
  }

  /** A decoded `query`. */
  predicate IsQuery(m: DiscoveryMessage)
  {
    m.Type == QueryType
  }

  /** `runDiscoveryListener` over the datagrams it receives: every `query` is
      answered, to its sender, with an announce of the compressed node name, the
      node's address and the transfer port; nothing else is answered. */
  method RunDiscoveryListener(bound: bool, nodeName: string, nodeAddr: string, transferPort: Port,
                              events: seq<Received>, unmarshal: seq<Byte> -> Option<DiscoveryMessage>)
    returns (r: Result<seq<Reply<DiscoveryMessage>>>)
    ensures !bound <==> r.Err?
    ensures bound ==> |r.value| == |Senders(events, unmarshal, IsQuery)|
    ensures bound ==> forall j :: 0 <= j < |r.value| ==>
      r.value[j] == Reply(Senders(events, unmarshal, IsQuery)[j],
                          NewAnnounceMessage(CompressName(nodeName), nodeAddr, transferPort))
  {
    if !bound {
      return Err("failed to bind discovery port");
    }
    var replies: seq<Reply<DiscoveryMessage>> := [];
    ghost var qs: seq<Endpoint> := [];
    ghost var reply := NewAnnounceMessage(CompressName(nodeName), nodeAddr, transferPort);
    var i := 0;
    while i < |events|
      invariant 0 <= i <= |events|
      invariant qs == Senders(events[..i], unmarshal, IsQuery)
      invariant |replies| == |qs|
      invariant forall j :: 0 <= j < |replies| ==> replies[j] == Reply(qs[j], reply)
    {
      SendersSnoc(events, i, unmarshal, IsQuery);
      var ev := events[i];
      i := i + 1;
      if ev.ReadFailed? {
        continue;
      }
      var msg := ParseMessage(unmarshal, ev.payload);
      if msg.Err? || msg.value.Type != QueryType {
        continue;
      }
      var name := CompressName(nodeName);
      var announce := NewAnnounceMessage(name, nodeAddr, transferPort);
      replies := replies + [Reply(ev.source, announce)];
      qs := qs + [ev.source];
    }
    assert events[..i] == events;
    return Ok(replies);
  }
}
