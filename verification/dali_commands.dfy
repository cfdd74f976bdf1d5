/**
 * internal/dali/dali.go: how the `set`, `open` and `send` commands apply their
 * `key=value` options, and how `send` picks its recipient. The options arrive
 * as a map, which Go ranges over in no fixed order; the loops below take the
 * keys in an arbitrary order to match. Discovery, the existence check on the
 * file, the typed selection and integer parsing are inputs; `minTimeout`,
 * `transferPort` and `anyone` are not defined in the files of this model and
 * are parameters.
 */
module DaliCommands {
  import opened Wrappers
  import opened Text
  import opened Framing
  import opened DaliMessage
  import opened DaliNode
  import opened DaliUtils

  // ------------------------------------------------------------ set

  /** `max(minTimeout, n)`: the requested timeout, floored at `minTimeout`. */
  function ClipTimeout(minTimeout: int, n: int): (t: int)
    ensures t >= minTimeout
    ensures n >= minTimeout ==> t == n
    ensures n < minTimeout ==> t == minTimeout
  {
    if n > minTimeout then n else minTimeout
  }

  /** Whether option `k` is present and `timeout` is the value it sets. */
  predicate TimeoutFrom(options: map<string, string>, k: string, timeout: int, minTimeout: int, parseInt: string -> int)
  {
    k in options && timeout == ClipTimeout(minTimeout, parseInt(options[k]))
  }

  /** `cmdSet`: a `name` option stores the name without whitespace; `timeout`
      and `wait` store the parsed value floored at `minTimeout` (when both are
      given, whichever the map yields last); other keys change nothing. The
      configuration is updated in memory even when saving it fails. */
  method CmdSet(node: Node, options: map<string, string>, minTimeout: int, parseInt: string -> int, saveOK: bool)
    returns (r: Result<()>)
    modifies node.Config
    ensures r.Ok? <==> saveOK
    ensures node.Config.Logs == old(node.Config.Logs)
    ensures node.Config.Name == (if "name" in options then CompressName(options["name"]) else old(node.Config.Name))
    ensures "timeout" !in options && "wait" !in options ==> node.Config.Timeout == old(node.Config.Timeout)
    ensures "timeout" in options || "wait" in options ==>
      && node.Config.Timeout >= minTimeout
      && (TimeoutFrom(options, "timeout", node.Config.Timeout, minTimeout, parseInt)
          || TimeoutFrom(options, "wait", node.Config.Timeout, minTimeout, parseInt))
  {
    var cfg := node.Config;
    var left := options.Keys;
    while left != {}
      invariant left <= options.Keys
      invariant cfg.Logs == old(cfg.Logs)
      invariant cfg.Name == (if "name" in options && "name" !in left then CompressName(options["name"]) else old(cfg.Name))
      invariant ("timeout" !in options || "timeout" in left) && ("wait" !in options || "wait" in left) ==>
        cfg.Timeout == old(cfg.Timeout)
      invariant ("timeout" in options && "timeout" !in left) || ("wait" in options && "wait" !in left) ==>
        && cfg.Timeout >= minTimeout
        && (("timeout" !in left && TimeoutFrom(options, "timeout", cfg.Timeout, minTimeout, parseInt))
            || ("wait" !in left && TimeoutFrom(options, "wait", cfg.Timeout, minTimeout, parseInt)))
      decreases left
    {
      var k :| k in left;
      var v := options[k];
      if k == "name" {
        cfg.Name := CompressName(v);
      } else if k == "timeout" || k == "wait" {
        cfg.Timeout := ClipTimeout(minTimeout, parseInt(v));
      }
      left := left - {k};
    }
    if !saveOK {
      return Err("failed to save config");
    }
    return Ok(());
  }

  // ------------------------------------------------------------ open

  /** The option loop of `cmdOpen`: the listening port and the output folder.
      A `port` option counts only when it parses to a positive number, which
      is then converted to 16 bits, so 65536 becomes port 0. */
  method OpenSettings(options: map<string, string>, transferPort: Port, parseInt: string -> int)
    returns (listenPort: Port, outputDir: string)
    ensures "port" in options && 0 < parseInt(options["port"]) < 0x1_0000 ==> listenPort == parseInt(options["port"])
    ensures "port" in options && parseInt(options["port"]) > 0 ==> listenPort == parseInt(options["port"]) % 0x1_0000
    ensures "port" in options && parseInt(options["port"]) == 0x1_0000 ==> listenPort == 0
    ensures !("port" in options && parseInt(options["port"]) > 0) ==> listenPort == transferPort
    ensures "output" !in options && "out" !in options ==> outputDir == "."
    ensures "output" in options || "out" in options ==>
      ("output" in options && outputDir == options["output"]) || ("out" in options && outputDir == options["out"])
  {
    listenPort, outputDir := transferPort, ".";
    var left := options.Keys;
    while left != {}
      invariant left <= options.Keys
      invariant listenPort == (if "port" in options && "port" !in left && parseInt(options["port"]) > 0
                               then parseInt(options["port"]) % 0x1_0000 else transferPort)
      invariant ("output" !in options || "output" in left) && ("out" !in options || "out" in left) ==> outputDir == "."
      invariant ("output" in options && "output" !in left) || ("out" in options && "out" !in left) ==>
        ("output" in options && "output" !in left && outputDir == options["output"])
        || ("out" in options && "out" !in left && outputDir == options["out"])
      decreases left
    {
      var k :| k in left;
      var v := options[k];
      if k == "port" {
        var customPort := parseInt(v);
        if customPort > 0 {
          listenPort := customPort % 0x1_0000;
        }
      } else if k == "output" || k == "out" {
        outputDir := v;
      }
      left := left - {k};
    }
  }

  // ------------------------------------------------------------ send

  /** `list.Filter` with the case-insensitive name test of `cmdSend`. */
  function NamedPeers(peers: seq<Peer>, name: string): (r: seq<Peer>)
    ensures |r| <= |peers|
    ensures forall p :: p in r <==> p in peers && Lower(p.Name) == Lower(name)
  {
    if peers == [] then []
    else
      var rest := NamedPeers(peers[1..], name);
      assert forall p :: p in peers <==> p == peers[0] || p in peers[1..];
      if Lower(peers[0].Name) == Lower(name) then [peers[0]] + rest else rest
  }

  /** How the recipient search ends: no peers at all, no peer with the name,
      a selection outside the list, or the chosen peer. */
  datatype Choice = NoPeers | NotFound | Invalid | Chosen(peer: Peer)

  /** The recipient among the discovered peers: with a name (anything but
      `anyone`) only the matching peers remain, and a single match is taken
      without asking; otherwise the 1-based `choice` must lie within the list. */
  function Choose(found: seq<Peer>, peerName: string, anyone: string, choice: int): (r: Choice)
    ensures r.NoPeers? <==> found == []
    ensures r.NotFound? <==> found != [] && peerName != anyone && forall p :: p in found ==> Lower(p.Name) != Lower(peerName)
    ensures r.Chosen? ==> r.peer in found && (peerName != anyone ==> Lower(r.peer.Name) == Lower(peerName))
    ensures found != [] && peerName == anyone ==>
      (r.Chosen? <==> 1 <= choice <= |found|) && (r.Chosen? ==> r.peer == found[choice - 1])
  {
    if found == [] then NoPeers
    else
      var peers := if peerName != anyone then NamedPeers(found, peerName) else found;
      if peers == [] then
        assert forall p :: p in found ==> (p in peers <==> Lower(p.Name) == Lower(peerName));
        NotFound
      else
        assert peerName != anyone ==> peers[0] in found && Lower(peers[0].Name) == Lower(peerName);
        if peerName != anyone && |peers| == 1 then Chosen(peers[0])
      else if choice < 1 || choice > |peers| then Invalid
      else Chosen(peers[choice - 1])
  }

  /** With a name that exactly one discovered peer matches, the typed choice is
      never consulted; with two or more matches it always is, and only a choice
      within the matches selects one of them. */
  lemma ChoiceNeededUnlessOneMatch(found: seq<Peer>, peerName: string, anyone: string, c: int, d: int)
    requires found != [] && peerName != anyone
    ensures |NamedPeers(found, peerName)| == 1 ==>
      Choose(found, peerName, anyone, c) == Choose(found, peerName, anyone, d) == Chosen(NamedPeers(found, peerName)[0])
    ensures |NamedPeers(found, peerName)| > 1 ==>
      (Choose(found, peerName, anyone, c).Chosen? <==> 1 <= c <= |NamedPeers(found, peerName)|)
      && (Choose(found, peerName, anyone, c).Chosen? ==> Choose(found, peerName, anyone, c).peer == NamedPeers(found, peerName)[c - 1])
  {
  }

  /** What `cmdSend` ends with: an error before sending (missing path, missing
      file, failed discovery, invalid selection), a quiet return (no peers, no
      peer with the name), or the `sendFile` call with its path, the name it
      reports and the address. */
  datatype SendPlan = MissingFilePath | FileDoesNotExist | DiscoveryFailed | InvalidSelection
                    | NoPeersFound | PeerNotFound
                    | Send(filePath: string, peerName: string, peerAddr: string)

  /** The option value for `k`, or a default. */
  function OptionOr(options: map<string, string>, k: string, default: string): string
  {
    if k in options then options[k] else default
  }

  /** `cmdSend`, up to the `sendFile` call. `pathExists` is the file-system
      check, `discovered` what discovery would return, and `choice` the number
      the user would type. A non-empty `to` address skips discovery. */
  method CmdSend(options: map<string, string>, anyone: string, pathExists: string -> bool,
                 discovered: Result<seq<Peer>>, choice: int)
    returns (plan: SendPlan)
    ensures OptionOr(options, "file", "") == "" ==> plan == MissingFilePath
    ensures OptionOr(options, "file", "") != "" && !pathExists(OptionOr(options, "file", "")) ==> plan == FileDoesNotExist
    ensures OptionOr(options, "file", "") != "" && pathExists(OptionOr(options, "file", "")) ==>
      var file := OptionOr(options, "file", "");
      var name := OptionOr(options, "for", anyone);
      && (OptionOr(options, "to", "") != "" ==> plan == Send(file, name, OptionOr(options, "to", "")))
      && (OptionOr(options, "to", "") == "" && discovered.Err? ==> plan == DiscoveryFailed)
      && (OptionOr(options, "to", "") == "" && discovered.Ok? ==>
            match Choose(discovered.value, name, anyone, choice)
            case NoPeers => plan == NoPeersFound
            case NotFound => plan == PeerNotFound
            case Invalid => plan == InvalidSelection
            case Chosen(p) => plan == Send(file, p.Name, p.Addr))
  {
    var filePath, peerAddr, peerName := "", "", anyone;
    var left := options.Keys;
    while left != {}
      invariant left <= options.Keys
      invariant filePath == (if "file" in options && "file" !in left then options["file"] else "")
      invariant peerAddr == (if "to" in options && "to" !in left then options["to"] else "")
      invariant peerName == (if "for" in options && "for" !in left then options["for"] else anyone)
      decreases left
    {
      var k :| k in left;
      if k == "file" {
        filePath := options[k];
      } else if k == "to" {
        peerAddr := options[k];
      } else if k == "for" {
        peerName := options[k];
      }
      left := left - {k};
    }
    if filePath == "" {
      return MissingFilePath;
    }
    if !pathExists(filePath) {
      return FileDoesNotExist;
    }
    if peerAddr == "" {
      if discovered.Err? {
        return DiscoveryFailed;
      }
      var peers := discovered.value;
      if |peers| == 0 {
        return NoPeersFound;
      }
      var autoSelect := false;
      if peerName != anyone {
        autoSelect := true;
        peers := NamedPeers(peers, peerName);
        if |peers| == 0 {
          return PeerNotFound;
        }
      }
      var peerIdx: int;
      if autoSelect && |peers| == 1 {
        peerIdx := 0;
      } else {
        if choice < 1 || choice > |peers| {
          return InvalidSelection;
        }
        peerIdx := choice - 1;
      }
      var peer := peers[peerIdx];
      peerName, peerAddr := peer.Name, peer.Addr;
    }
    return Send(filePath, peerName, peerAddr);
  }
}
