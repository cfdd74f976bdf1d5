# dali, modelled in Dafny

`dali` shares files between machines on one local network. A node
broadcasts a discovery query over UDP, and every node running `dali open`
answers with an announce carrying its name and transfer port. The sender
then opens a TCP connection to the chosen peer and sends a one-line JSON
file offer. It waits for a one-line answer (accept or reject) and, on
accept, streams the file in 64 KiB chunks. The receiver reads up to the
offered size into a file in its output folder. The repository holds three
revisions of this protocol, and each is modelled against its own code:

- the current Go package `internal/dali`;
- the older Go packages `internal/discovery`, `internal/transfer` and
  `internal/protocol`;
- the Rust crate under `src/`.

The model lifts the decision logic out of the socket and disk code. What
the network, the disk or the user supplies becomes an explicit input:

- **Datagrams.** The datagrams a socket receives are a finite `seq<Received>`; its end stands for the timeout.
- **Stream connections.** A TCP connection is a `Conn`: bytes already buffered, then arrivals, each a run of bytes or a reset. The end of the arrivals is the peer closing.
- **Files.** The reads of the file being sent are a `seq<FileRead>`.
- **Failures.** Each failing open, dial, create or write is a flag or a planned failure index.
- **Other inputs.** The typed answer at a prompt, the set of existing paths, and the results of JSON encoding, JSON decoding and integer parsing are all parameters.

JSON encoding is never executed. A pair `(marshal, unmarshal)` is assumed
well behaved only where a lemma needs it: decoding an encoding gives the
message back, and an encoding holds no newline and no leading or trailing
white space.

Modules:

- **Shared:**
  - `Wrappers`: Option and Result.
  - `Text`: white space, ASCII case folding, decimal printing, `strings.Split`/`Join`.
  - `Paths`: `filepath.Base/Dir/Ext/Join`, Rust's `Path::file_name` and `Path::join`.
  - `Framing`: `ToBytes` framing and `TrimSpace`.
  - `Stream`: connections, `Read`, `ReadString('\n')` and Rust's `read_line`.
  - `Datagrams`: received datagrams and listener replies.
  - `Chunked`: the receive and send loops, shared by all three revisions.
- **`internal/dali`:**
  - `DaliMessage`: message.go.
  - `DaliNode`: the `Node` and `Config` records.
  - `DaliUtils`: utils.go.
  - `DaliDiscovery`: discovery.go.
  - `DaliTransfer`: transfer.go.
  - `DaliCommands`: dali.go.
- **Older Go packages:** `LegacyProtocol`, `LegacyDiscovery` and `LegacyTransfer`.
- **Rust crate:** `RustProtocol`, `RustDiscovery` and `RustTransfer`.
- **Command line:** `MainCli`, from main.go.

The configuration and node are classes whose fields the commands and the
transfer log update in place. Every loop of the source is a `method` with
its invariants, proved against a specification function on values. Go's
map iteration order is unspecified, so loops over an option map take the
keys in an arbitrary order (`:|`).

Where the code and its comments disagree, the model follows the code:

- `addLog` overwrites slot 1 of the event (the kind), not the empty result slot.
- `handleIncomingTransfer` joins the output folder and the offered name directly, without `getOutputPath`.
- `cmdOpen`'s `uint16(customPort)` keeps only the low 16 bits: `port=65536` listens on port 0.
- Rust's `into_inner` discards bytes the line reader had buffered past the offer line. tokio's `BufReader` fills its 8 KiB buffer from one socket read at a time, so what is lost is the rest of the fill that held the newline: fewer than 8192 bytes.

## Model

| member | source | states |
|---|---|---|
| Text.Lower | internal/dali/discovery.go:47 | ASCII lower-casing, position by position, length kept |
| Text.TrimStart | internal/dali/utils.go:155 | the suffix left after dropping the leading white space; all dropped characters are white space |
| Text.TrimEnd | internal/dali/utils.go:155 | the prefix left after dropping the trailing white space; all dropped characters are white space |
| Text.NatToString | internal/dali/transfer.go:34 | `%d` text: non-empty, digits only |
| Text.NatToStringValue | internal/dali/transfer.go:34 | the digits denote exactly the number, with no leading zero |
| Text.NatToStringInjective | internal/dali/utils.go:188 | distinct numbers print differently |
| Text.Split | main.go:180 | `strings.Split`: at least one piece, no piece holds the separator |
| Text.SplitJoin | main.go:180 | joining the pieces gives the string back; there is one piece more than separators |
| Text.SplitsInTwo | main.go:181 | two pieces exactly when the string holds exactly one separator |
| Text.JoinSplit | main.go:180 | splitting a join of separator-free pieces gives the pieces back |
| Paths.LastIndex | internal/dali/utils.go:182-183 | the last occurrence, or none when absent |
| Paths.LastName | internal/transfer/transfer.go:32 | what follows the last separator is the separator-free suffix that starts the path or follows a separator |
| Paths.Base | internal/dali/transfer.go:33 | `filepath.Base`: `.` for the empty path, `/` for separators only, otherwise the last element once trailing separators are dropped; never empty |
| Paths.BaseTrailingSeparator | internal/dali/utils.go:183 | a trailing separator does not change the base name, except for a lone `/` |
| Paths.Ext | internal/dali/utils.go:184 | a suffix of the name that starts with its only dot and holds no separator |
| Paths.ExtEmptyIffNoDot | internal/dali/utils.go:184 | the extension is empty exactly when the last element has no dot |
| Paths.Stem | internal/dali/utils.go:185 | stem followed by extension is the name |
| Paths.JoinInjective | internal/dali/utils.go:189 | joining to one folder keeps distinct names distinct |
| Paths.SplitLast | src/transfer.rs:18-19 | the last `/`-piece is the separator-free suffix that starts the path or follows a separator |
| Paths.MaximalSuffixUnique | internal/transfer/transfer.go:32 | only one suffix has that property |
| Paths.NormalParts | src/transfer.rs:18-19 | kept components come from the path and are never empty or `.` |
| Paths.FileName | src/transfer.rs:18-19 | `Path::file_name`: when present, never empty, `.` or `..`, and separator-free |
| Paths.FileNameIsBase | src/transfer.rs:18-22 | for a path ending in a plain name, Rust's file name is Go's `filepath.Base` |
| Paths.PathJoinPlacement | src/transfer.rs:129 | an absolute offered name replaces the output folder; a plain name lands in it as its base name |
| Framing.DatagramBytes | internal/dali/message.go:75-78 | a discovery datagram is exactly the encoding, no delimiter |
| Framing.LineBytes | internal/dali/message.go:81-85 | a transfer line is the encoding followed by one newline |
| Framing.LineBytesHasOneNewline | internal/protocol/protocol.go:84-88 | a framed line holds exactly one newline, its last byte |
| Framing.TrimLeft | internal/dali/transfer.go:57 | a suffix that starts with no white space |
| Framing.TrimLeftDropsSpace | internal/dali/transfer.go:57 | every byte `TrimLeft` drops is white space |
| Framing.TrimRight | internal/dali/transfer.go:57 | a prefix that ends with no white space |
| Framing.TrimRightDropsSpace | internal/dali/transfer.go:57 | every byte `TrimRight` drops is white space |
| Framing.TrimSpaceOfLine | internal/dali/transfer.go:53-59 | trimming a framed line gives back the bare encoding |
| Stream.Carrying | src/transfer.rs:109-110 | a connection delivering exactly the given bytes, then closed |
| Stream.ReadSize | internal/dali/transfer.go:205 | a read hands over at most the buffer's size and never zero bytes before EOF |
| Stream.ReadSpec | internal/dali/transfer.go:205-209 | a read takes bytes off the front of what remains; EOF and error only when nothing remains |
| Stream.FirstIndex | internal/dali/transfer.go:53 | the first newline's index |
| Stream.ReadLineFraming | internal/dali/transfer.go:138-144 | `ReadString('\n')` returns exactly the first line and leaves exactly what follows |
| Stream.MessageRoundTrip | internal/transfer/transfer.go:140-148 | a framed message is read back whole by Go's and by Rust's line reader, and the bytes after it still reach the connection |
| Stream.FillSpec | src/transfer.rs:108-110 | one buffer fill takes at most 8 KiB from the front of an arrival, keeps the rest and any reset ahead, and shrinks what is left to arrive |
| Stream.ReadLineOrRestFraming | src/transfer.rs:108-110 | `read_line` returns exactly the first line, and the bytes after it are in the buffer or still to arrive |
| Datagrams.SendersAppend | internal/discovery/discovery.go:101-116 | the senders of wanted datagrams distribute over concatenation |
| Chunked.Expected | internal/dali/transfer.go:199-222 | what a receiver should get: the offered size, or all that arrived if less |
| Chunked.PlannedReads | internal/dali/transfer.go:199-203 | each read asks for `min(chunk, size - received)` bytes, never zero and never past the size |
| Chunked.ReceiveStep | internal/dali/transfer.go:205-220 | one read keeps the loop invariant: written bytes plus what remains equal the original stream |
| Chunked.ReceiveInto | internal/dali/transfer.go:196-222 | the receive loop: planned requests only, at most `size` bytes written, one write per read; it fails on a write exactly when write number `writeFailAt` is reached with data still to come; otherwise how it ended |
| Chunked.ReceivedPrefix | internal/dali/transfer.go:205-220 | whatever was written is the start of `Expected` |
| Chunked.ReceiveExpected | internal/dali/transfer.go:199-224 | without a write failure the file gets `Expected`; the loop completes unless a reset comes before `size` bytes |
| Chunked.DeliversAfterLine | internal/transfer/transfer.go:140-213 | an offer line followed by enough data gives the receiver exactly the file bytes |
| Chunked.Chunks | internal/dali/transfer.go:83-99 | the chunks the reads deliver, up to the first failed read |
| Chunked.ConcatChunks | internal/dali/transfer.go:83-99 | writing every chunk puts exactly the file's bytes on the wire |
| Chunked.ChunksStopAtFailure | internal/dali/transfer.go:88-91 | the chunks stop exactly at the first failed read |
| Chunked.SendChunks | internal/dali/transfer.go:83-99 | the send loop: writes a prefix of the chunks; completes exactly when no read or write fails, having sent the whole file |
| DaliMessage.NewQueryMessage | internal/dali/message.go:28-32 | type `query`, every other field empty |
| DaliMessage.NewAnnounceMessage | internal/dali/message.go:35-42 | type `announce` with exactly the given name, address and port |
| DaliMessage.NewOfferMessage | internal/dali/message.go:45-52 | type `offer` with exactly the given sender, file name and size |
| DaliMessage.NewAcceptMessage | internal/dali/message.go:55-57 | type `accept`, every other field empty |
| DaliMessage.NewRejectMessage | internal/dali/message.go:60-62 | type `reject`, every other field empty |
| DaliMessage.TypeTagsDistinct | internal/dali/message.go:5-11 | the five tags are pairwise distinct |
| DaliMessage.ParseMessage | internal/dali/message.go:65-72 | a message with no error exactly when decoding succeeds, otherwise only an error |
| DaliMessage.DiscoveryRoundTrip | internal/dali/message.go:65-78 | parsing a datagram `ToBytes` produced gives the message back |
| DaliMessage.TransferRoundTrip | internal/dali/message.go:80-85 | parsing a transfer line `ToBytes` produced, once trimmed, gives the message back |
| DaliNode.Config.AddLog | internal/dali/transfer.go:231 | appends one record and changes nothing else |
| DaliNode.Node.constructor | internal/dali/identity.go:12-15 | a node holds a shared configuration and an address |
| DaliUtils.RemoveSpaces | internal/dali/utils.go:24-26 | reference meaning of compression: no white space left, never longer |
| DaliUtils.FieldsJoin | internal/dali/utils.go:25 | joining `strings.Fields` with `""` drops exactly the white space |
| DaliUtils.CompressName | internal/dali/utils.go:24-26 | the name without white space, other characters in order |
| DaliUtils.CompressNameIdempotent | internal/dali/utils.go:24-26 | compressing twice equals compressing once |
| DaliUtils.MaxPeerNameLength | internal/dali/utils.go:29-33 | for a non-empty list, the byte length of some name and at least every name's (main.go:189-193 is an identical copy) |
| DaliUtils.IPv4 | internal/dali/utils.go:44 | `net.IPv4` gives a 16-byte address |
| DaliUtils.To4 | internal/dali/utils.go:61 | `To4` gives four bytes or nothing |
| DaliUtils.NewIPv4 | internal/dali/utils.go:41-45 | defined exactly when there are at least four dot-separated parts; then the IPv4 address whose bytes are the first four parts, parsed and truncated to a byte |
| DaliUtils.Octets | internal/dali/utils.go:42 | an IPv4 text has four dot-free fields |
| DaliUtils.NewIPv4OfString | internal/dali/utils.go:41-45 | `newIPv4` reads back the text `ip.String()` prints |
| DaliUtils.CandidatesSound | internal/dali/utils.go:59-64 | every candidate is the text of a non-loopback IPv4 host address |
| DaliUtils.NotLoopbackText | internal/dali/utils.go:61 | a non-loopback IPv4 text never starts with `127.` |
| DaliUtils.CollectLocalIPv4 | internal/dali/utils.go:59-64 | the loop keeps exactly the candidates, in lookup order |
| DaliUtils.GetLocalIPv4Address | internal/dali/utils.go:48-91 | all candidates joined by `", "`, or for one IP: none, the single one, or the chosen one in 1..n; any other choice is an error |
| DaliUtils.CandidateInjective | internal/dali/utils.go:188-189 | different suffix numbers give different paths |
| DaliUtils.GetOutputPath | internal/dali/utils.go:178-195 | never an existing path; the path itself when free; otherwise `name_N.ext` for the smallest free N >= 1 |
| DaliDiscovery.DiscoverPeers | internal/dali/discovery.go:20-101 | a setup failure is an error; otherwise the loop's list is the collection function's result |
| DaliDiscovery.CollectUniqueAddrs | internal/dali/discovery.go:74-79 | no two peers share an address |
| DaliDiscovery.CollectMatchesFilter | internal/dali/discovery.go:81-87 | every peer matches the name filter up to case and the `Addr:` prefix filter |
| DaliDiscovery.CollectAppendsAnnounced | internal/dali/discovery.go:71-92 | the list only grows at its end, and what it appends is a subsequence of the announced peers, in arrival order |
| DaliDiscovery.CollectComplete | internal/dali/discovery.go:54-98 | without the early stop, every matching announce's address is in the result |
| DaliDiscovery.CollectKeepsFirst | internal/dali/discovery.go:74-79 | first announce wins: a matching announce whose address is new when it arrives is in the result and is the only peer there with that address |
| DaliDiscovery.CollectStopsEarly | internal/dali/discovery.go:94-96 | with a filter and `endASAP`, at most one peer is added |
| DaliDiscovery.CollectIgnoresNoise | internal/dali/discovery.go:60-69 | read errors, undecodable datagrams and non-announces change nothing |
| DaliDiscovery.RunDiscoveryListener | internal/dali/discovery.go:104-134 | each `query` is answered, in order, with an announce of the compressed name, the node address and the port; nothing else is answered |
| DaliTransfer.Logged | internal/dali/transfer.go:229-230 | the outcome replaces slot 1 and every other slot is kept |
| DaliTransfer.LoggedForgetsKind | internal/dali/transfer.go:229-233 | a logged send and a logged receive are the same record, and slot 2 stays empty |
| DaliTransfer.AddLog | internal/dali/transfer.go:229-233 | the log grows by the event with its outcome; name and timeout unchanged |
| DaliTransfer.SendFile | internal/dali/transfer.go:19-104 | no answer: an error, no log; `reject`: logged, nil; other type: `invalid` logged, an error; `accept`: a prefix of the chunks sent, the whole file exactly when no read or write fails, outcome logged |
| DaliTransfer.Answer | internal/dali/transfer.go:156-170 | reject exactly when prompting and the trimmed input is `N` or `n`; accept otherwise |
| DaliTransfer.HandleIncomingTransfer | internal/dali/transfer.go:134-227 | a non-offer first line is an error with no response; a rejection is logged before any file exists; otherwise the file at folder/name gets `Expected` bytes, and an early close still logs `ok`; under a failing write a prefix of them, and `ok` only with all of them |
| DaliCommands.ClipTimeout | internal/dali/dali.go:111 | at least `minTimeout`, and the requested value when it is not below |
| DaliCommands.CmdSet | internal/dali/dali.go:102-121 | `name` stores the compressed name; `timeout`/`wait` store a value at least `minTimeout` taken from one of them; nothing else changes; the error is the save's |
| DaliCommands.OpenSettings | internal/dali/dali.go:147-161 | the default port unless `port` parses positive, then that value mod 65536 (65536 gives 0); `.` unless `output`/`out` is given (main.go:59-73 has the same loop) |
| DaliCommands.NamedPeers | internal/dali/dali.go:215-221 | exactly the peers whose lower-cased name equals the target's |
| DaliCommands.Choose | internal/dali/dali.go:209-248 | no peers; no match for a name; a single match taken without asking; otherwise only a choice in 1..n, selecting `peers[choice-1]` (main.go:115-161 has the same selection) |
| DaliCommands.CmdSend | internal/dali/dali.go:178-256 | a missing or absent file fails before discovery; a `to=` address skips discovery; otherwise the outcome is `Choose`'s |
| MainCli.GetCommandArgs | main.go:172-187 | no arguments: `help` and no options; otherwise the first argument and the options of the rest |
| MainCli.OptionsFreeOfEquals | main.go:180-184 | no option key or value holds `=` |
| MainCli.OptionsLastWins | main.go:179-185 | a key is set exactly when some argument is a pair with it, and its value comes from the last such pair |
| MainCli.MalformedSkipped | main.go:181-183 | an argument without exactly one `=` sets nothing |
| MainCli.PairRoundTrip | main.go:180-184 | `k=v` with `=`-free halves sets `k` to `v` |
| LegacyProtocol.Constants | internal/protocol/protocol.go:5-12 | ports 45678 and 45679, 64 KiB chunks |
| LegacyProtocol.NewQueryMessage | internal/protocol/protocol.go:35-37 | type `Query`, other fields empty |
| LegacyProtocol.NewAnnounceMessage | internal/protocol/protocol.go:40-46 | type `Announce` with the given name and port |
| LegacyProtocol.NewFileOfferMessage | internal/protocol/protocol.go:49-55 | type `FileOffer` with the given file name and size |
| LegacyProtocol.NewAcceptMessage | internal/protocol/protocol.go:58-60 | type `Accept`, other fields empty |
| LegacyProtocol.NewRejectMessage | internal/protocol/protocol.go:63-65 | type `Reject`, other fields empty |
| LegacyProtocol.TypeTagsDistinct | internal/protocol/protocol.go:36-64 | the five tags are pairwise distinct |
| LegacyProtocol.ParseDiscoveryMessage | internal/protocol/protocol.go:74-81 | a message exactly when decoding succeeds, otherwise only the error |
| LegacyProtocol.ParseTransferMessage | internal/protocol/protocol.go:91-98 | a message exactly when decoding succeeds, otherwise only the error |
| LegacyProtocol.RoundTrips | internal/protocol/protocol.go:68-98 | parsing what `ToBytes` produced, trimmed for a line, gives the message back |
| LegacyDiscovery.DiscoverPeers | internal/discovery/discovery.go:13-84 | a setup failure is an error; otherwise the loop's list is the collection function's result |
| LegacyDiscovery.CollectedUnique | internal/discovery/discovery.go:59-72 | no address appears twice |
| LegacyDiscovery.CollectedSound | internal/discovery/discovery.go:56-71 | the list only grows at its end, and what it appends is a subsequence of the announced peers, in arrival order |
| LegacyDiscovery.CollectedKeepsFirst | internal/discovery/discovery.go:61-66 | first announce wins: an announce whose address is new when it arrives is in the result and is the only peer there with that address |
| LegacyDiscovery.CollectedComplete | internal/discovery/discovery.go:46-72 | every announced address ends up in the list |
| LegacyDiscovery.RunDiscoveryListener | internal/discovery/discovery.go:87-118 | each `Query` is answered, in order, with `NewAnnounceMessage(name, port)`; a bind failure is an error |
| LegacyTransfer.SendFile | internal/transfer/transfer.go:18-107 | the offer carries the base name and size; any answer but `Accept` returns nil; on `Accept`, a prefix of the chunks is sent, the whole file exactly when nothing fails |
| LegacyTransfer.HandleIncomingTransfer | internal/transfer/transfer.go:136-217 | a non-`FileOffer` first line is an error with no response; every offer is accepted; the file gets `Expected` bytes and an early close returns nil; under a failing write a prefix of them, and nil only with all of them |
| RustProtocol.Constants | src/protocol.rs:4-8 | ports 45678 and 45679, distinct |
| RustProtocol.RoundTrips | src/protocol.rs:42-62 | `from_bytes` of `to_bytes`, trimmed for a line, gives the message back; a line ends in its only newline |
| RustDiscovery.AnnouncedPeer | src/discovery.rs:26-30 | a peer exactly for a datagram that decodes to an `Announce`: its name, at the sender's IP and the announced port |
| RustDiscovery.LastAnnounceIsLast | src/discovery.rs:32 | last write wins: the kept peer is an announce from that IP that no later one overrides; none exactly when nothing was announced from it |
| RustDiscovery.TableIsLastAnnounce | src/discovery.rs:19-36 | the map's keys are the announcing IPs and each value is that IP's last announce |
| RustDiscovery.TableKeys | src/discovery.rs:32 | every peer sits under its own IP |
| RustDiscovery.DiscoverPeers | src/discovery.rs:9-44 | a setup failure is an error; otherwise one peer per announcing IP, each its last announce, and every such IP is present |
| RustDiscovery.Values | src/discovery.rs:42-43 | every map value exactly once, with distinct IPs |
| RustDiscovery.FirstFailure | src/discovery.rs:57 | the index of the first failed receive, all earlier receives succeeded |
| RustDiscovery.RunDiscoveryListener | src/discovery.rs:47-75 | every `Query` before the first failed receive is answered with `Announce(name, port)`; that failure stops the listener |
| RustTransfer.OfferedName | src/transfer.rs:18-22 | the path's file name, or `unknown`; never empty and separator-free |
| RustTransfer.SendFile | src/transfer.rs:11-80 | an unopenable file or failed dial is an error with nothing sent; a reset before the answer line is an error, while a close without one returns `Ok`; `Reject`, other answers and undecodable lines return `Ok`; on `Accept` a failed reopen is an error, otherwise the file is streamed |
| RustTransfer.StreamFile | src/transfer.rs:63-79 | a prefix of the chunks is sent, the whole file exactly when no read or write fails |
| RustTransfer.Unbuffered | src/transfer.rs:124 | `into_inner` keeps only the unread arrivals |
| RustTransfer.HandleIncomingTransfer | src/transfer.rs:104-156 | a non-`FileOffer` line is an error with no response; every offer is accepted; the file at `Path::join(folder, name)` gets the bytes after the line's buffer fill; under a failing write a prefix of them, and `Ok` only with all of them |
| RustTransfer.OfferAloneLosesNothing | src/transfer.rs:108-124 | when the offer line ends its segment, the receiver reads exactly the later segments |
| RustTransfer.SingleArrivalLine | src/transfer.rs:108-110 | on one arrival, `read_line` returns up to the first newline and buffers the rest of that newline's 8 KiB fill; the bytes after the fill stay on the connection |
| RustTransfer.ArrivalLine | src/transfer.rs:108-110 | the same for an arrival that starts with a line |
| RustTransfer.CoalescedDataIsDropped | src/transfer.rs:108-124 | file bytes arriving in the same read as the offer line are lost exactly up to the end of the newline's buffer fill, fewer than 8192 bytes (the first 8 KiB of the arrival for a short offer); the receiver gets every byte after it |
| RustTransfer.LineAtBoundary | src/transfer.rs:110 | `read_line` over segments that make up exactly one line leaves only the later segments |

## Left out

- Sockets, deadlines, timers, broadcast, dial, listen and accept loops: the received datagrams and the connection contents are inputs, and the end of a datagram sequence stands for the timeout.
- Goroutines, the mutex-protected list, the background listener, tokio `spawn`/`abort`: each loop is modelled as one sequential pass.
- `encoding/json` and `serde_json`: marshal and unmarshal are parameters, with round trip and compact output assumed through `WellBehaved`.
- UDP receive buffers hold 1024 bytes; a longer datagram is truncated by the socket, which the model does not represent (a datagram is its whole payload).
- `number.ParseInt` and Rust parsing: `parseInt` is a parameter.
- `filepath.Join` and `filepath.Dir` cleaning (`..`, repeated separators): `Paths.JoinPath` places a name after the folder and one separator as it is, so `JoinPath("out", "/x")` is `out//x` where Go gives `out/x`, the same file.
- Paths.Base: `/` is the only separator; Windows volume names and `\` are not modelled.
- Text.Lower: ASCII letters only, where Go's `strings.ToLower` folds all of Unicode.
- Framing.TrimSpace (with Framing.TrimLeft and Framing.TrimRight): Go's `strings.TrimSpace` and Rust's `str::trim` also drop Unicode white space such as U+0085, U+00A0 and U+3000 at a line's ends; the byte version drops only ASCII white space. A line whose text starts or ends with such a character is trimmed differently; the lines written by `ToBytes` do not, since an encoding starts and ends with non-white-space bytes.
- Text.Utf8Len: stands for Go's `len` on a string; the model counts code points of up to four bytes, so exact byte lengths of invalid text are not modelled.
- Rust `to_str` on a non-UTF-8 file name and `read_line`'s UTF-8 error are not modelled (names are strings).
- `computeFileSize` (floating point), progress bars, printing, help and version output, and `Node.String`.
- Configuration loading, `LoadNode`, `os.Hostname`, `net.LookupIP`, `net.Interfaces`. The `AddLog` and `Save` methods that the commands call are not defined in config.go. `Config.AddLog` models the call as appending to the log, and a failing save is the `saveOK` flag of `CmdSet`.
- internal/dali/network.go declares a second `getLocalIPv4Address` in the same package, which returns the first IPv4 address, loopback included. The model follows the one in internal/dali/utils.go.
- internal/dali/update.go (release notes) and src/main.rs (clap and tokio glue).
- `minTimeout`, `transferPort`, `anyone` and `dali.Any` are not defined in the files of this model; they are parameters.
- main.go's `set` branch calls `node.Config.Update`, which is not part of this model; its `find` branch is printing only; its `send` branch stops at a TODO before sending, so the model ends it at the chosen recipient.
- dali.go calls `discoverPeers` and `sendFile` with signatures that differ from their definitions; each function is modelled against its own signature, and `CmdSend` ends at the `sendFile` call.
- config.go declares `Event` as six strings while transfer.go builds seven; the model follows transfer.go's seven-string literal.
- Partial writes: a write either succeeds whole or fails at a planned index.
- Error texts are approximations; only whether a result is an error is specified.
- RustTransfer.SendFile: the file is opened twice; the model assumes the second open reads the same contents as the first, since a file changing in between is not represented.
- RustTransfer.HandleIncomingTransfer: Rust's `Path::join` lets an offered name with a leading `/` replace the output folder, and keeps `..` components, so a peer can place the file outside the folder; `Paths.PathJoinPlacement` states the absolute case, and the model does not restrict names.
- DaliTransfer.HandleIncomingTransfer and LegacyTransfer.HandleIncomingTransfer: Go's `filepath.Join` keeps a leading-`/` name inside the folder but resolves `..` against it, so `../x` still lands outside; the model joins without cleaning and does not restrict names.
- DaliTransfer.HandleIncomingTransfer, LegacyTransfer.HandleIncomingTransfer and RustTransfer.HandleIncomingTransfer: with a failing file write they state that the file holds a prefix of `Expected` and that only a file with all of it is a success; how long the prefix is depends on how the bytes arrive, and `Chunked.ReceiveInto` states it write by write.
