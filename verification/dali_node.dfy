/**
 * The user's node in the `dali` package: the saved configuration (name,
 * discovery timeout, activity log) and the node that embeds it together
 * with its local address (internal/dali/identity.go, internal/dali/config.go).
 */
module DaliNode {
  /** One activity-log record: the seven strings of the event literal. */
  type Event = e: seq<string> | |e| == 7 witness ["", "", "", "", "", "", ""]

  /** The saved configuration. Commands and transfers update it in place. */
  class Config {
    var Name: string
    var Timeout: int
    var Logs: seq<Event>

    constructor (name: string, timeout: int)
      ensures Name == name && Timeout == timeout && Logs == []
    {
      Name := name;
      Timeout := timeout;
      Logs := [];
    }

    /** Appends one record to the activity log and changes nothing else. */
    method AddLog(e: Event)
      modifies this
      ensures Logs == old(Logs) + [e]
      ensures Name == old(Name) && Timeout == old(Timeout)
    {
      Logs := Logs + [e];
    }
  }

  /** `Node` holds the configuration by reference, so every holder of the node
      sees the configuration's updates. */
  class Node {
    const Config: Config
    const Addr: string

    constructor (config: Config, addr: string)
      ensures Config == config && Addr == addr
    {
      Config := config;
      Addr := addr;
    }
  }
}
