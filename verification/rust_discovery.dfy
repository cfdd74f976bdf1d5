/**
 * src/discovery.rs, the Rust revision of discovery. A round keeps a map from
 * the sender's IP text to the peer it announced, so a later announce from the
 * same IP replaces an earlier one, and the round's result is the map's values
 * in the map's own (unspecified) order. The listener answers every `Query`
 * with an announce and stops at the first failed receive.
 */
module RustDiscovery {
  import opened Wrappers
  import opened Framing
  import opened Datagrams
  import opened RustProtocol

  /** The peer a received datagram announces: only a decodable `Announce`, at
      the sender's IP and the announced transfer port. */
  function AnnouncedPeer(ev: Received, unmarshal: seq<Byte> -> Option<DiscoveryMessage>): (r: Option<Peer>)
    ensures r.Some? <==> ev.Datagram? && unmarshal(ev.payload).Some? && unmarshal(ev.payload).value.Announce?
    ensures r.Some? ==>
      var msg := unmarshal(ev.payload).value;
      r.value == Peer(msg.name, Endpoint(ev.source.ip, msg.transfer_port))
  {
    match ev
    case ReadFailed => None
    case Datagram(payload, source) =>
      match unmarshal(payload)
      case Some(Announce(name, port)) => Some(Peer(name, Endpoint(source.ip, port)))
      case _ => None
  }

  /** Whether a datagram announces a peer at the given IP. */
  predicate Announces(ev: Received, unmarshal: seq<Byte> -> Option<DiscoveryMessage>, ip: string)
  {
    AnnouncedPeer(ev, unmarshal).Some? && AnnouncedPeer(ev, unmarshal).value.addr.ip == ip
  }

  /** The map after the given datagrams: each announce is inserted under its
      sender's IP. */
  function Table(events: seq<Received>, unmarshal: seq<Byte> -> Option<DiscoveryMessage>): map<string, Peer>
  {
    if events == [] then map[]
    else
      var before := Table(events[..|events| - 1], unmarshal);
      match AnnouncedPeer(events[|events| - 1], unmarshal)
      case None => before
      case Some(p) => before[p.addr.ip := p]
  }

  /** Reference definition: the last peer announced from `ip`, if any. */
  function LastAnnounce(events: seq<Received>, unmarshal: seq<Byte> -> Option<DiscoveryMessage>, ip: string): Option<Peer>
  {
    if events == [] then None
    else if Announces(events[|events| - 1], unmarshal, ip) then AnnouncedPeer(events[|events| - 1], unmarshal)
    else LastAnnounce(events[..|events| - 1], unmarshal, ip)
  }

  /** The last write wins: `LastAnnounce` is the peer of an announce from `ip`
      that no later datagram from `ip` overrides, and there is none exactly when
      nothing was announced from `ip`. */
  lemma {:induction false} LastAnnounceIsLast(events: seq<Received>, unmarshal: seq<Byte> -> Option<DiscoveryMessage>, ip: string)
    ensures LastAnnounce(events, unmarshal, ip).None? <==>
      forall j :: 0 <= j < |events| ==> !Announces(events[j], unmarshal, ip)
    ensures LastAnnounce(events, unmarshal, ip).Some? ==>
      exists j :: 0 <= j < |events| && AnnouncedPeer(events[j], unmarshal) == LastAnnounce(events, unmarshal, ip)
        && forall k :: j < k < |events| ==> !Announces(events[k], unmarshal, ip)
  {
    if events != [] {
      var n := |events| - 1;
      var init := events[..n];
      LastAnnounceIsLast(init, unmarshal, ip);
      if Announces(events[n], unmarshal, ip) {
        assert AnnouncedPeer(events[n], unmarshal) == LastAnnounce(events, unmarshal, ip);
      } else {
        assert LastAnnounce(events, unmarshal, ip) == LastAnnounce(init, unmarshal, ip);
        assert forall j :: 0 <= j < n ==> init[j] == events[j];
        if LastAnnounce(init, unmarshal, ip).Some? {
          var j :| 0 <= j < n && AnnouncedPeer(init[j], unmarshal) == LastAnnounce(init, unmarshal, ip)
            && forall k :: j < k < n ==> !Announces(init[k], unmarshal, ip);
          assert AnnouncedPeer(events[j], unmarshal) == LastAnnounce(events, unmarshal, ip);
        }
      }
    }
  }

  /** The map holds an entry for exactly the IPs something was announced from,
      and that entry is the last announce from the IP. */
  lemma {:induction false} TableIsLastAnnounce(events: seq<Received>, unmarshal: seq<Byte> -> Option<DiscoveryMessage>)
    ensures forall ip :: ip in Table(events, unmarshal) <==> LastAnnounce(events, unmarshal, ip).Some?
    ensures forall ip :: ip in Table(events, unmarshal) ==>
      Table(events, unmarshal)[ip] == LastAnnounce(events, unmarshal, ip).value
  {
    if events != [] {
      TableIsLastAnnounce(events[..|events| - 1], unmarshal);
    }
  }

  /** Every peer in the map sits under its own IP. */
  lemma TableKeys(events: seq<Received>, unmarshal: seq<Byte> -> Option<DiscoveryMessage>)
    ensures forall ip :: ip in Table(events, unmarshal) ==> Table(events, unmarshal)[ip].addr.ip == ip
  {
    TableIsLastAnnounce(events, unmarshal);
    forall ip | ip in Table(events, unmarshal)
      ensures Table(events, unmarshal)[ip].addr.ip == ip
    {
      LastAnnounceIsLast(events, unmarshal, ip);
    }
  }

  lemma TableSnoc(events: seq<Received>, i: nat, unmarshal: seq<Byte> -> Option<DiscoveryMessage>)
    requires i < |events|
    ensures Table(events[..i + 1], unmarshal) ==
      match AnnouncedPeer(events[i], unmarshal)
      case None => Table(events[..i], unmarshal)
      case Some(p) => Table(events[..i], unmarshal)[p.addr.ip := p]
  {
    assert events[..i + 1][..i] == events[..i];
  }

  /** `discover_peers`: socket setup and the broadcast query (any failure is an
      error), the map-filling receive loop (a failed receive is skipped), then
      the map's values in an order the map chooses. The result has one peer per
      announcing IP, and that peer is the IP's last announce. */
  method DiscoverPeers(setup: Setup, events: seq<Received>, unmarshal: seq<Byte> -> Option<DiscoveryMessage>)
    returns (r: Result<seq<Peer>>)
    ensures setup != Ready <==> r.Err?
    ensures setup == Ready ==> forall j :: 0 <= j < |r.value| ==>
      LastAnnounce(events, unmarshal, r.value[j].addr.ip) == Some(r.value[j])
    ensures setup == Ready ==> forall ip :: LastAnnounce(events, unmarshal, ip).Some? ==>
      exists j :: 0 <= j < |r.value| && r.value[j] == LastAnnounce(events, unmarshal, ip).value
    ensures setup == Ready ==> forall i, j :: 0 <= i < j < |r.value| ==> r.value[i].addr.ip != r.value[j].addr.ip
  {
    if setup == BindFailed {
      return Err("failed to bind socket");
    } else if setup == QueryFailed {
      return Err("failed to send query");
    }
    var peers: map<string, Peer> := map[];
    var i := 0;
    while i < |events|
      invariant 0 <= i <= |events|
      invariant peers == Table(events[..i], unmarshal)
    {
      TableSnoc(events, i, unmarshal);
      var ev := events[i];
      if ev.Datagram? {
        var msg := unmarshal(ev.payload);
        if msg.Some? && msg.value.Announce? {
          peers := peers[ev.source.ip := Peer(msg.value.name, Endpoint(ev.source.ip, msg.value.transfer_port))];
        }
      }
      i := i + 1;
    }
    assert events[..i] == events;
    TableKeys(events, unmarshal);
    TableIsLastAnnounce(events, unmarshal);
    var out := Values(peers);
    return Ok(out);
  }

  /** `values().cloned().collect()` on a map whose peers sit under their own IP:
      every value once, in an order the map chooses. */
  method Values(peers: map<string, Peer>) returns (out: seq<Peer>)
    requires forall ip :: ip in peers ==> peers[ip].addr.ip == ip
    ensures forall j :: 0 <= j < |out| ==> out[j].addr.ip in peers && peers[out[j].addr.ip] == out[j]
    ensures forall ip :: ip in peers ==> exists j :: 0 <= j < |out| && out[j] == peers[ip]
    ensures forall i, j :: 0 <= i < j < |out| ==> out[i].addr.ip != out[j].addr.ip
  {
    out := [];
    var left := peers.Keys;
    while left != {}
      invariant left <= peers.Keys
      invariant forall j :: 0 <= j < |out| ==> out[j].addr.ip in peers && out[j].addr.ip !in left && peers[out[j].addr.ip] == out[j]
      invariant forall ip :: ip in peers && ip !in left ==> exists j :: 0 <= j < |out| && out[j] == peers[ip]
      invariant forall a, b :: 0 <= a < b < |out| ==> out[a].addr.ip != out[b].addr.ip
      decreases left
    {
      var ip :| ip in left;
      ghost var before := out;
      out := out + [peers[ip]];
      left := left - {ip};
      forall k | k in peers && k !in left
        ensures exists j :: 0 <= j < |out| && out[j] == peers[k]
      {
        if k == ip {
          assert out[|out| - 1] == peers[k];
        } else {
          var j :| 0 <= j < |before| && before[j] == peers[k];
          assert out[j] == peers[k];
        }
      }
    }
  }

  /** The first failed receive, or the number of datagrams when none fails. */
  function FirstFailure(events: seq<Received>): (n: nat)
    ensures n <= |events|
    ensures n < |events| ==> events[n].ReadFailed?
    ensures forall j :: 0 <= j < n ==> events[j].Datagram?
  {
    if events == [] || events[0].ReadFailed? then 0 else 1 + FirstFailure(events[1..])
  }

  /** A decoded `Query`. */
  predicate IsQuery(m: DiscoveryMessage)
  {
    m.Query?
  }

  /** `run_discovery_listener`: binding failure is an error; afterwards every
      `Query` that arrives before the first failed receive is answered, to its
      sender, with an announce of the given name and port (whether that send
      succeeds is ignored), and the first failed receive ends the listener with
      an error. `stopped` is false when the listener is still waiting after the
      given datagrams. */
  method RunDiscoveryListener(bound: bool, name: string, transferPort: Port,
                              events: seq<Received>, unmarshal: seq<Byte> -> Option<DiscoveryMessage>)
    returns (stopped: bool, replies: seq<Reply<DiscoveryMessage>>)
    ensures !bound ==> stopped && replies == []
    ensures bound ==> (stopped <==> FirstFailure(events) < |events|)
    ensures bound ==> |replies| == |Senders(events[..FirstFailure(events)], unmarshal, IsQuery)|
    ensures bound ==> forall j :: 0 <= j < |replies| ==>
      replies[j] == Reply(Senders(events[..FirstFailure(events)], unmarshal, IsQuery)[j], Announce(name, transferPort))
  {
    if !bound {
      return true, [];
    }
    replies := [];
    ghost var qs: seq<Endpoint> := [];
    var i := 0;
    while i < |events|
      invariant 0 <= i <= FirstFailure(events)
      invariant qs == Senders(events[..i], unmarshal, IsQuery)
      invariant |replies| == |qs|
      invariant forall j :: 0 <= j < |replies| ==> replies[j] == Reply(qs[j], Announce(name, transferPort))
    {
      var ev := events[i];
      if ev.ReadFailed? {
        return true, replies;
      }
      SendersSnoc(events, i, unmarshal, IsQuery);
      var msg := unmarshal(ev.payload);
      if msg.Some? && msg.value.Query? {
        replies := replies + [Reply(ev.source, Announce(name, transferPort))];
        qs := qs + [ev.source];
      }
      i := i + 1;
    }
    return false, replies;
  }
}
