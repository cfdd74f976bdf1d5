/**
 * internal/discovery/discovery.go, the earlier Go revision of discovery: the
 * peers of one round are keyed by the datagram's source IP and the announced
 * transfer port, appended only when their address is new; the listener
 * answers every `Query` with an announce.
 */
module LegacyDiscovery {
  import opened Wrappers
  import opened Text
  import opened Framing
  import opened Datagrams
  import opened LegacyProtocol

  /** `fmt.Sprintf("%s:%d", addr.IP.String(), msg.TransferPort)`: the sender's IP,
      not any address inside the message. */
  function PeerAddr(source: Endpoint, msg: DiscoveryMessage): string
  {
    source.ip + ":" + NatToString(msg.TransferPort)
  }

  /** The peer a received datagram announces: only a decodable `Announce`. */
  function AnnouncedPeer(ev: Received, unmarshal: seq<Byte> -> Option<DiscoveryMessage>): Option<Peer>
  {
    match ev
    case ReadFailed => None
    case Datagram(payload, source) =>
      match unmarshal(payload)
      case None => None
      case Some(msg) => if msg.Type == AnnounceType then Some(Peer(msg.Name, PeerAddr(source, msg))) else None
  }

  /** Every announced peer, in arrival order, duplicates included. */
  function Announced(events: seq<Received>, unmarshal: seq<Byte> -> Option<DiscoveryMessage>): seq<Peer>
  {
    if events == [] then []
    else
      var head := match AnnouncedPeer(events[0], unmarshal) case Some(p) => [p] case None => [];
      head + Announced(events[1..], unmarshal)
  }

  predicate HasAddr(peers: seq<Peer>, addr: string)
  {
    exists j :: 0 <= j < |peers| && peers[j].Addr == addr
  }

  ghost predicate UniqueAddrs(peers: seq<Peer>)
  {
    forall i, j :: 0 <= i < j < |peers| ==> peers[i].Addr != peers[j].Addr
  }

  /** The list after the remaining datagrams, starting from `peers`: a new address
      is appended, a known one is skipped. */
  function Collected(events: seq<Received>, peers: seq<Peer>, unmarshal: seq<Byte> -> Option<DiscoveryMessage>): seq<Peer>
  {
    if events == [] then peers
    else
      var next := match AnnouncedPeer(events[0], unmarshal)
        case None => peers
        case Some(p) => if HasAddr(peers, p.Addr) then peers else peers + [p];
      Collected(events[1..], next, unmarshal)
  }

  /** `DiscoverPeers`: socket setup and broadcast, then the collection loop, with
      the inner loop that looks for the address among the peers so far. */
  method DiscoverPeers(setup: Setup, events: seq<Received>, unmarshal: seq<Byte> -> Option<DiscoveryMessage>)
    returns (r: Result<seq<Peer>>)
    ensures setup != Ready <==> r.Err?
    ensures setup == Ready ==> r.value == Collected(events, [], unmarshal)
  {
    if setup == BindFailed {
      return Err("failed to create UDP socket");
    } else if setup == QueryFailed {
      return Err("failed to send discovery query");
    }
    var peers: seq<Peer> := [];
    var i := 0;
    while i < |events|
      invariant 0 <= i <= |events|
      invariant Collected(events[i..], peers, unmarshal) == Collected(events, [], unmarshal)
    {
      var ev := events[i];
      assert events[i..][1..] == events[i + 1..];
      i := i + 1;
      if ev.ReadFailed? {
        continue;
      }
      var msg := ParseDiscoveryMessage(unmarshal, ev.payload);
      if msg.Err? {
        continue;
      }
      if msg.value.Type == AnnounceType {
        var peerAddr := ev.source.ip + ":" + NatToString(msg.value.TransferPort);
        var known := false;
        var k := 0;
        while k < |peers|
          invariant 0 <= k <= |peers|
          invariant !known ==> forall j :: 0 <= j < k ==> peers[j].Addr != peerAddr
          invariant known ==> HasAddr(peers, peerAddr)
        {
          if peers[k].Addr == peerAddr {
            known := true;
            break;
          }
          k := k + 1;
        }
        if !known {
          peers := peers + [Peer(msg.value.Name, peerAddr)];
        }
      }
    }
    return Ok(peers);
  }

  /** No address appears twice in the list. */
  lemma {:induction false} CollectedUnique(events: seq<Received>, peers: seq<Peer>, unmarshal: seq<Byte> -> Option<DiscoveryMessage>)
    requires UniqueAddrs(peers)
    ensures UniqueAddrs(Collected(events, peers, unmarshal))
  {
    if events != [] {
      var next := match AnnouncedPeer(events[0], unmarshal)
        case None => peers
        case Some(p) => if HasAddr(peers, p.Addr) then peers else peers + [p];
      assert UniqueAddrs(next);
      CollectedUnique(events[1..], next, unmarshal);
    }
  }

  /** The list only grows at its end, every peer in it was already there or
      was announced, under the sender's IP and the announced port, and the
      added peers keep the order in which they were announced. */
  lemma {:induction false} CollectedSound(events: seq<Received>, peers: seq<Peer>, unmarshal: seq<Byte> -> Option<DiscoveryMessage>)
    ensures |peers| <= |Collected(events, peers, unmarshal)|
    ensures Collected(events, peers, unmarshal)[..|peers|] == peers
    ensures forall p :: p in Collected(events, peers, unmarshal) ==> p in peers || p in Announced(events, unmarshal)
    ensures IsSubseq(Collected(events, peers, unmarshal)[|peers|..], Announced(events, unmarshal))
  {
    var r := Collected(events, peers, unmarshal);
    if events == [] {
      assert r[|peers|..] == [];
    } else {
      var a := AnnouncedPeer(events[0], unmarshal);
      var next := match a
        case None => peers
        case Some(p) => if HasAddr(peers, p.Addr) then peers else peers + [p];
      var rest := Announced(events[1..], unmarshal);
      CollectedSound(events[1..], next, unmarshal);
      assert next[..|peers|] == peers;
      if next == peers {
        if a.Some? {
          assert Announced(events, unmarshal) == [a.value] + rest;
          SubseqOfCons(r[|peers|..], a.value, rest);
        } else {
          assert Announced(events, unmarshal) == rest;
        }
      } else {
        assert a.Some? && next == peers + [a.value];
        assert Announced(events, unmarshal) == [a.value] + rest;
        var tail := r[|next|..];
        assert r[..|next|] == next;
        assert r[|peers|..] == [a.value] + tail;
        assert r[|peers|..][1..] == tail;
      }
    }
  }

  /** First announce wins: an announce whose address is not yet in the list when
      it arrives is in the result, and it is the only peer there with that
      address; later announces of the address do not replace it. */
  lemma {:induction false} CollectedKeepsFirst(before: seq<Received>, ev: Received, after: seq<Received>,
                                               peers: seq<Peer>, unmarshal: seq<Byte> -> Option<DiscoveryMessage>, p: Peer)
    requires AnnouncedPeer(ev, unmarshal) == Some(p)
    requires !HasAddr(Collected(before, peers, unmarshal), p.Addr)
    requires UniqueAddrs(peers)
    ensures var r := Collected(before + [ev] + after, peers, unmarshal);
      p in r && forall q :: q in r && q.Addr == p.Addr ==> q == p
  {
    var events := before + [ev] + after;
    var r := Collected(events, peers, unmarshal);
    CollectedUnique(events, peers, unmarshal);
    if before == [] {
      assert events == [ev] + after && events[1..] == after;
      var next := peers + [p];
      CollectedSound(after, next, unmarshal);
      assert r[|peers|] == next[|peers|] == p;
    } else {
      var next := match AnnouncedPeer(before[0], unmarshal)
        case None => peers
        case Some(x) => if HasAddr(peers, x.Addr) then peers else peers + [x];
      assert events[0] == before[0] && events[1..] == before[1..] + [ev] + after;
      assert UniqueAddrs(next);
      CollectedKeepsFirst(before[1..], ev, after, next, unmarshal, p);
    }
    var k :| 0 <= k < |r| && r[k] == p;
    forall q | q in r && q.Addr == p.Addr
      ensures q == p
    {
      var j :| 0 <= j < |r| && r[j] == q;
      assert j == k;
    }
  }

  /** Every announced address ends up in the list. */
  lemma {:induction false} CollectedComplete(events: seq<Received>, peers: seq<Peer>, unmarshal: seq<Byte> -> Option<DiscoveryMessage>)
    ensures forall p :: p in peers ==> HasAddr(Collected(events, peers, unmarshal), p.Addr)
    ensures forall p :: p in Announced(events, unmarshal) ==> HasAddr(Collected(events, peers, unmarshal), p.Addr)
  {
    if events != [] {
      var next := match AnnouncedPeer(events[0], unmarshal)
        case None => peers
        case Some(p) => if HasAddr(peers, p.Addr) then peers else peers + [p];
      CollectedComplete(events[1..], next, unmarshal);
      var r := Collected(events, peers, unmarshal);
      forall p | p in peers
        ensures HasAddr(r, p.Addr)
      {
        var j :| 0 <= j < |peers| && peers[j] == p;
        assert next[j] == p;
      }
      forall p | p in Announced(events, unmarshal)
        ensures HasAddr(r, p.Addr)
      {
        if p !in Announced(events[1..], unmarshal) {
          assert AnnouncedPeer(events[0], unmarshal) == Some(p);
          if HasAddr(peers, p.Addr) {
            var j :| 0 <= j < |peers| && peers[j].Addr == p.Addr;
            assert next[j] == peers[j] && next[j] in next;
          } else {
            assert next[|peers|] == p && p in next;
          }
        }
      }
    }
  }

  /** A decoded `Query`. */
  predicate IsQuery(m: DiscoveryMessage)
  {
    m.Type == QueryType
  }

  /** `RunDiscoveryListener`: every `Query` is answered, to its sender, with an
      announce of the given name and transfer port; nothing else is answered. */
  method RunDiscoveryListener(bound: bool, name: string, transferPort: Port,
                              events: seq<Received>, unmarshal: seq<Byte> -> Option<DiscoveryMessage>)
    returns (r: Result<seq<Reply<DiscoveryMessage>>>)
    ensures !bound <==> r.Err?
    ensures bound ==> |r.value| == |Senders(events, unmarshal, IsQuery)|
    ensures bound ==> forall j :: 0 <= j < |r.value| ==>
      r.value[j] == Reply(Senders(events, unmarshal, IsQuery)[j], NewAnnounceMessage(name, transferPort))
  {
    if !bound {
      return Err("failed to bind discovery port");
    }
    var replies: seq<Reply<DiscoveryMessage>> := [];
    ghost var qs: seq<Endpoint> := [];
    var i := 0;
    while i < |events|
      invariant 0 <= i <= |events|
      invariant qs == Senders(events[..i], unmarshal, IsQuery)
      invariant |replies| == |qs|
      invariant forall j :: 0 <= j < |replies| ==> replies[j] == Reply(qs[j], NewAnnounceMessage(name, transferPort))
    {
      SendersSnoc(events, i, unmarshal, IsQuery);
      var ev := events[i];
      i := i + 1;
      if ev.ReadFailed? {
        continue;
      }
      var msg := ParseDiscoveryMessage(unmarshal, ev.payload);
      if msg.Err? {
        continue;
      }
      if msg.value.Type == QueryType {
        var announce := NewAnnounceMessage(name, transferPort);
        replies := replies + [Reply(ev.source, announce)];
        qs := qs + [ev.source];
      }
    }
    assert events[..i] == events;
    return Ok(replies);
  }
}
