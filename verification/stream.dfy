/**
 * The environment of a transfer, as values: the receive side of a TCP
 * connection and the successive results of reading a file from disk.
 * A read on a connection returns at most as many bytes as the buffer it is
 * given and at most as many as have arrived; bytes not taken stay buffered.
 */
module Stream {
  import opened Wrappers
  import opened Framing

  /** A non-empty run of bytes: a TCP read never delivers zero bytes before EOF. */
  type Bytes1 = s: seq<Byte> | |s| > 0 witness [0]

  /** One arrival on a connection: a run of bytes, or a reset of the connection. */
  datatype Segment = Data(bytes: Bytes1) | Broken

  /** The receive side of a connection: arrived but unread bytes, then later arrivals.
      Running out of arrivals means the peer closed the connection. */
  datatype Conn = Conn(pending: seq<Byte>, arrivals: seq<Segment>)

  /** Outcome of one `Read(buf[:k])`. */
  datatype ReadResult = Got(bytes: seq<Byte>) | EOF | ReadError

  /** Bytes delivered before the connection is reset or closed. */
  function Delivered(arrivals: seq<Segment>): seq<Byte>
  {
    if arrivals == [] then []
    else match arrivals[0]
      case Broken => []
      case Data(b) => b + Delivered(arrivals[1..])
  }

  /** Whether the connection is reset (rather than closed) after its data. */
  predicate Breaks(arrivals: seq<Segment>)
  {
    arrivals != [] && (arrivals[0].Broken? || Breaks(arrivals[1..]))
  }

  /** Every byte a reader can still obtain from the connection. */
  function Remaining(c: Conn): seq<Byte>
  {
    c.pending + Delivered(c.arrivals)
  }

  /** A connection over which the given bytes arrive in one piece and the peer then closes. */
  function Carrying(bytes: seq<Byte>): (c: Conn)
    ensures Remaining(c) == bytes && !Breaks(c.arrivals)
  {
    if bytes == [] then Conn([], [])
    else
      var arrivals := [Data(bytes)];
      assert arrivals[1..] == [];
      assert Delivered(arrivals) == bytes + Delivered([]);
      assert !Breaks(arrivals[1..]);
      Conn([], arrivals)
  }

  /** `conn.Read(buf[:k])` (Go) or `stream.read(&mut buf[..k])` (Rust): buffered
      bytes first, otherwise the next arrival. */
  function Read(c: Conn, k: nat): (ReadResult, Conn)
  {
    if c.pending != [] then Take(c.pending, c.arrivals, k)
    else if c.arrivals == [] then (EOF, c)
    else if c.arrivals[0].Broken? then (ReadError, c)
    else Take(c.arrivals[0].bytes, c.arrivals[1..], k)
  }

  /** Hands over up to `k` bytes of `buf`, keeping the rest buffered. */
  function Take(buf: seq<Byte>, arrivals: seq<Segment>, k: nat): (ReadResult, Conn)
  {
    if k < |buf| then (Got(buf[..k]), Conn(buf[k..], arrivals)) else (Got(buf), Conn([], arrivals))
  }

  /** A read hands over at most the buffer's size, and at least one byte when the
      buffer is not empty. */
  lemma ReadSize(c: Conn, k: nat)
    ensures Read(c, k).0.Got? ==> |Read(c, k).0.bytes| <= k && (k > 0 ==> Read(c, k).0.bytes != [])
  {
  }

  /** What a read hands over comes off the front of the remaining bytes and leaves
      the rest readable. EOF is reported only when nothing is left and the peer
      closed; an error only when nothing is left and the connection was reset. */
  lemma ReadSpec(c: Conn, k: nat)
    ensures Read(c, k).0.Got? ==>
      && Remaining(c) == Read(c, k).0.bytes + Remaining(Read(c, k).1)
      && Breaks(Read(c, k).1.arrivals) == Breaks(c.arrivals)
    ensures Read(c, k).0.EOF? ==> Remaining(c) == [] && !Breaks(c.arrivals)
    ensures Read(c, k).0.ReadError? ==> Remaining(c) == [] && Breaks(c.arrivals)
  {
    if c.pending != [] {
      if k < |c.pending| {
        assert c.pending == c.pending[..k] + c.pending[k..];
      }
    } else if c.arrivals != [] && c.arrivals[0].Data? {
      var b := c.arrivals[0].bytes;
      assert Remaining(c) == b + Delivered(c.arrivals[1..]);
      if k < |b| {
        assert b == b[..k] + b[k..];
      }
    }
  }

  /** `bufio.Reader.ReadString('\n')`: the bytes up to and including the first newline,
      or an error when the connection closes or resets before one arrives. */
  function ReadLine(c: Conn): (r: Option<(seq<Byte>, Conn)>)
    decreases |c.arrivals|
  {
    if Newline in c.pending then
      var i := FirstIndex(c.pending, Newline);
      Some((c.pending[..i + 1], Conn(c.pending[i + 1..], c.arrivals)))
    else if c.arrivals == [] || c.arrivals[0].Broken? then None
    else ReadLine(Conn(c.pending + c.arrivals[0].bytes, c.arrivals[1..]))
  }

  /** The capacity of tokio's `BufReader::new`: one fill of its buffer takes at
      most this many bytes off the connection. */
  const BufCapacity: nat := 8192

  /** Bytes still to arrive, counted for termination. */
  function ArrivingBytes(arrivals: seq<Segment>): nat
  {
    if arrivals == [] then 0
    else match arrivals[0]
      case Broken => 0
      case Data(b) => |b| + ArrivingBytes(arrivals[1..])
  }

  /** One fill of the line reader's buffer from the next arrival: at most
      `BufCapacity` bytes of it, the rest of that arrival staying on the
      connection. */
  function Fill(b: Bytes1, later: seq<Segment>): (Bytes1, seq<Segment>)
  {
    if |b| <= BufCapacity then (b, later)
    else
      var tail: Bytes1 := b[BufCapacity..];
      (b[..BufCapacity], [Data(tail)] + later)
  }

  /** A fill takes the front of the arrival, at most `BufCapacity` bytes,
      leaves the rest readable and a reset still ahead, and shrinks what is left
      to arrive. */
  lemma FillSpec(b: Bytes1, later: seq<Segment>)
    ensures Fill(b, later).0 + Delivered(Fill(b, later).1) == b + Delivered(later)
    ensures Breaks(Fill(b, later).1) == Breaks(later)
    ensures |Fill(b, later).0| <= BufCapacity
    ensures ArrivingBytes(Fill(b, later).1) < |b| + ArrivingBytes(later)
  {
    if |b| > BufCapacity {
      var r := Fill(b, later).1;
      assert r[1..] == later;
      assert b == b[..BufCapacity] + b[BufCapacity..];
    }
  }

  /** `BufReader::read_line` (Rust): like `ReadLine`, except that a close before any
      newline yields whatever arrived, only a reset is an error, and the buffer is
      filled at most `BufCapacity` bytes at a time, so what it holds past the
      newline comes from the last fill only. */
  function ReadLineOrRest(c: Conn): (r: Option<(seq<Byte>, Conn)>)
    decreases ArrivingBytes(c.arrivals)
  {
    if Newline in c.pending then
      var i := FirstIndex(c.pending, Newline);
      Some((c.pending[..i + 1], Conn(c.pending[i + 1..], c.arrivals)))
    else if c.arrivals == [] then Some((c.pending, Conn([], [])))
    else if c.arrivals[0].Broken? then None
    else
      var f := Fill(c.arrivals[0].bytes, c.arrivals[1..]);
      FillSpec(c.arrivals[0].bytes, c.arrivals[1..]);
      ReadLineOrRest(Conn(c.pending + f.0, f.1))
  }

  /** The two shapes of a fill: the whole arrival, or its first `BufCapacity`
      bytes with the remainder left as the next arrival. */
  lemma FillShape(b: Bytes1, later: seq<Segment>)
    ensures |b| <= BufCapacity ==> Fill(b, later) == (b, later)
    ensures |b| > BufCapacity ==>
      Fill(b, later).0 == b[..BufCapacity] && Fill(b, later).1 == [Data(b[BufCapacity..])] + later
  {
  }

  /** `read_line` with no newline buffered fills the buffer once and goes on. */
  lemma ReadLineOrRestFill(c: Conn)
    requires Newline !in c.pending && c.arrivals != [] && c.arrivals[0].Data?
    ensures ReadLineOrRest(c) ==
      ReadLineOrRest(Conn(c.pending + Fill(c.arrivals[0].bytes, c.arrivals[1..]).0,
                          Fill(c.arrivals[0].bytes, c.arrivals[1..]).1))
  {
  }

  /** One fill taken from `segs` while `later` waits behind them: `read_line`
      goes on with the filled buffer, and the bytes and the reset still to come
      are unchanged. */
  lemma FillAhead(p: seq<Byte>, segs: seq<Segment>, later: seq<Segment>)
    requires Newline !in p && segs != [] && segs[0].Data?
    ensures var f := Fill(segs[0].bytes, segs[1..]);
      && ReadLineOrRest(Conn(p, segs + later)) == ReadLineOrRest(Conn(p + f.0, f.1 + later))
      && f.0 + Delivered(f.1) == Delivered(segs)
      && Breaks(f.1) == Breaks(segs)
      && ArrivingBytes(f.1) < ArrivingBytes(segs)
  {
    FillAheadRead(p, segs, later);
    FillSpec(segs[0].bytes, segs[1..]);
  }

  lemma FillAheadRead(p: seq<Byte>, segs: seq<Segment>, later: seq<Segment>)
    requires Newline !in p && segs != [] && segs[0].Data?
    ensures var f := Fill(segs[0].bytes, segs[1..]);
      ReadLineOrRest(Conn(p, segs + later)) == ReadLineOrRest(Conn(p + f.0, f.1 + later))
  {
    var b := segs[0].bytes;
    var c := Conn(p, segs + later);
    assert c.arrivals[0] == segs[0] && c.arrivals[1..] == segs[1..] + later;
    ReadLineOrRestFill(c);
    FillShape(b, segs[1..]);
    FillShape(b, segs[1..] + later);
    if |b| > BufCapacity {
      assert [Data(b[BufCapacity..])] + (segs[1..] + later) == ([Data(b[BufCapacity..])] + segs[1..]) + later;
    }
  }

  /** `read_line` with a newline at `k` of the buffer, and none before it. */
  lemma ReadLineOrRestAt(c: Conn, k: nat)
    requires k < |c.pending| && c.pending[k] == Newline && Newline !in c.pending[..k]
    ensures ReadLineOrRest(c) == Some((c.pending[..k + 1], Conn(c.pending[k + 1..], c.arrivals)))
  {
    FirstOf(c.pending, k);
  }

  /** The first newline is at `i` when it is at `i` and not before. */
  lemma FirstOf(s: seq<Byte>, i: nat)
    requires i < |s| && s[i] == Newline && Newline !in s[..i]
    ensures FirstIndex(s, Newline) == i
  {
  }

  function FirstIndex(s: seq<Byte>, b: Byte): (i: nat)
    requires b in s
    ensures i < |s| && s[i] == b && b !in s[..i]
  {
    if s[0] == b then 0 else 1 + FirstIndex(s[1..], b)
  }

  /** Framing round trip on a stream: when a line `e + "\n"` (with no newline inside `e`)
      is followed by further bytes, reading a line yields exactly `e + "\n"` and leaves
      exactly the further bytes to be read, however the bytes were split into arrivals. */
  lemma {:induction false} ReadLineFraming(c: Conn, e: seq<Byte>, rest: seq<Byte>)
    requires Newline !in e
    requires Remaining(c) == e + [Newline] + rest
    ensures ReadLine(c).Some?
    ensures ReadLine(c).value.0 == e + [Newline]
    ensures Remaining(ReadLine(c).value.1) == rest
    ensures Breaks(ReadLine(c).value.1.arrivals) == Breaks(c.arrivals)
    decreases |c.arrivals|
  {
    if Newline in c.pending {
      LineInPending(c, e, rest);
    } else {
      assert Remaining(c)[|e|] == Newline;
      assert |c.pending| <= |e|;
      assert c.arrivals != [] && c.arrivals[0].Data?;
      var c' := Conn(c.pending + c.arrivals[0].bytes, c.arrivals[1..]);
      assert Remaining(c') == Remaining(c);
      ReadLineFraming(c', e, rest);
    }
  }

  /** The case of `ReadLineFraming` where the newline is already buffered. */
  lemma LineInPending(c: Conn, e: seq<Byte>, rest: seq<Byte>)
    requires Newline !in e && Newline in c.pending
    requires Remaining(c) == e + [Newline] + rest
    ensures ReadLine(c).Some?
    ensures ReadLine(c).value.0 == e + [Newline]
    ensures Remaining(ReadLine(c).value.1) == rest
    ensures ReadLine(c).value.1.arrivals == c.arrivals
  {
    SplitAtFirstNewline(c.pending, Delivered(c.arrivals), e, rest);
  }

  /** When `p + d` is `e + "\n" + rest` and `p` holds a newline, the first newline
      of `p` ends `e`, and what follows it in `p`, then `d`, is `rest`. */
  lemma SplitAtFirstNewline(p: seq<Byte>, d: seq<Byte>, e: seq<Byte>, rest: seq<Byte>)
    requires Newline !in e && Newline in p
    requires p + d == e + [Newline] + rest
    ensures FirstIndex(p, Newline) == |e|
    ensures p[..|e| + 1] == e + [Newline] && p[|e| + 1..] + d == rest
  {
    var s := p + d;
    var i := FirstIndex(p, Newline);
    assert s[..|e| + 1] == e + [Newline];
    assert p == s[..|p|];
    PrefixWithoutNewline(p, s, e, i);
    assert s == p[..i + 1] + (p[i + 1..] + d) by {
      assert p == p[..i + 1] + p[i + 1..];
    }
  }

  /** Helper: in `s == e + "\n" + ...` the first newline sits right after `e`. */
  lemma PrefixWithoutNewline(p: seq<Byte>, s: seq<Byte>, e: seq<Byte>, i: nat)
    requires Newline !in e
    requires |s| > |e| && s[..|e| + 1] == e + [Newline]
    requires i < |p| <= |s| && p == s[..|p|] && p[i] == Newline && Newline !in p[..i]
    ensures i == |e| && p[..i + 1] == e + [Newline]
  {
    assert forall j :: 0 <= j < |e| && j < |p| ==> p[j] == s[j] == e[j] != Newline;
    assert forall j :: 0 <= j < i ==> p[j] == p[..i][j] != Newline;
    assert |e| < |p| ==> p[|e|] == s[|e|] == Newline;
    assert p[..i + 1] == s[..i + 1];
  }

  /** What reading one message line off a connection gives: no line (the
      connection ended first), a line that does not decode, or the message with
      the connection after the line. */
  datatype LineRead<M> = NoLine | BadLine | Line(msg: M, rest: Conn)

  /** Trimming and decoding a line that was read. */
  function DecodeLine<M>(read: Option<(seq<Byte>, Conn)>, unmarshal: seq<Byte> -> Option<M>): LineRead<M>
  {
    match read
    case None => NoLine
    case Some((line, rest)) =>
      match unmarshal(TrimSpace(line))
      case Some(m) => Line(m, rest)
      case None => BadLine
  }

  /** Go: `reader.ReadString('\n')`, `strings.TrimSpace`, then decoding. */
  function ReadMessage<M>(c: Conn, unmarshal: seq<Byte> -> Option<M>): LineRead<M>
  {
    DecodeLine(ReadLine(c), unmarshal)
  }

  /** Rust: `read_line`, `trim`, then `from_bytes`. */
  function ReadMessageOrRest<M>(c: Conn, unmarshal: seq<Byte> -> Option<M>): LineRead<M>
  {
    DecodeLine(ReadLineOrRest(c), unmarshal)
  }

  /** A message written with `LineBytes` is read back whole on the other side,
      whatever follows it and however the bytes arrive: exactly the following
      bytes are left, a reset after them is still ahead, and Rust's reader
      returns the same message with the same bytes still readable. */
  lemma MessageRoundTrip<M(!new)>(marshal: M -> seq<Byte>, unmarshal: seq<Byte> -> Option<M>,
                                  m: M, c: Conn, data: seq<Byte>)
    requires WellBehaved(marshal, unmarshal)
    requires Remaining(c) == LineBytes(marshal, m) + data
    ensures ReadMessage(c, unmarshal).Line? && ReadMessage(c, unmarshal).msg == m
    ensures Remaining(ReadMessage(c, unmarshal).rest) == data
    ensures Breaks(ReadMessage(c, unmarshal).rest.arrivals) == Breaks(c.arrivals)
    ensures ReadMessageOrRest(c, unmarshal).Line? && ReadMessageOrRest(c, unmarshal).msg == m
    ensures Remaining(ReadMessageOrRest(c, unmarshal).rest) == data
  {
    var e := marshal(m);
    ReadLineFraming(c, e, data);
    ReadLineOrRestFraming(c, e, data);
    TrimSpaceOfLine(e);
  }

  /** The same framing for Rust's `read_line`: whatever the fills, the line is
      `e + "\n"` and exactly `rest` can still be read, from the buffer or the
      connection. */
  lemma {:induction false} ReadLineOrRestFraming(c: Conn, e: seq<Byte>, rest: seq<Byte>)
    requires Newline !in e
    requires Remaining(c) == e + [Newline] + rest
    ensures ReadLineOrRest(c).Some?
    ensures ReadLineOrRest(c).value.0 == e + [Newline]
    ensures Remaining(ReadLineOrRest(c).value.1) == rest
    ensures Breaks(ReadLineOrRest(c).value.1.arrivals) == Breaks(c.arrivals)
    decreases ArrivingBytes(c.arrivals)
  {
    if Newline in c.pending {
      SplitAtFirstNewline(c.pending, Delivered(c.arrivals), e, rest);
    } else {
      assert Remaining(c)[|e|] == Newline;
      assert |c.pending| <= |e|;
      assert c.arrivals != [] && c.arrivals[0].Data?;
      var f := Fill(c.arrivals[0].bytes, c.arrivals[1..]);
      FillSpec(c.arrivals[0].bytes, c.arrivals[1..]);
      var c' := Conn(c.pending + f.0, f.1);
      assert Delivered(c.arrivals) == c.arrivals[0].bytes + Delivered(c.arrivals[1..]);
      assert Remaining(c') == Remaining(c);
      assert Breaks(c.arrivals) == Breaks(c.arrivals[1..]);
      ReadLineOrRestFraming(c', e, rest);
    }
  }

  /** One result of reading the file being sent: some bytes, or an error. Neither
      Go's `os.File.Read` nor Rust's `read` hands over zero bytes except at the
      end of the file, which the end of the sequence of results stands for. */
  datatype FileRead = Chunk(bytes: Bytes1) | Failed

  /** Opening the file to send: it fails, its size cannot be read, or it opens
      with a size and the results its reads will return. */
  datatype FileOpen = OpenFailed | StatFailed | Opened(size: U64, results: seq<FileRead>)

  /** Whether a sender gets as far as writing its offer: the file opens, the peer
      answers the dial, and the offer is written. */
  predicate Offers(file: FileOpen, dialOK: bool, offerWriteOK: bool)
  {
    file.Opened? && dialOK && offerWriteOK
  }

  /** The file's bytes as the reads deliver them, up to the first failed read. */
  function FileBytes(rs: seq<FileRead>): seq<Byte>
  {
    if rs == [] then []
    else match rs[0]
      case Failed => []
      case Chunk(b) => b + FileBytes(rs[1..])
  }

  predicate AnyFailed(rs: seq<FileRead>)
  {
    exists i :: 0 <= i < |rs| && rs[i].Failed?
  }
}
