/**
 * Byte-level framing shared by every revision: a transfer message travels as its
 * encoding followed by one newline byte, a discovery message as its bare encoding.
 * The JSON encoders themselves (`encoding/json`, `serde_json`) are not modelled:
 * they enter as function parameters.
 */
module Framing {
  import opened Wrappers

  type Byte = b: int | 0 <= b < 256

  /** Go's `uint16` / Rust's `u16` (ports) and `uint64` / `u64` (sizes). */
  type Port = x: int | 0 <= x < 0x1_0000
  type U64 = x: int | 0 <= x < 0x1_0000_0000_0000_0000

  const Newline: Byte := 10

  /** `DiscoveryMessage.ToBytes` / `to_bytes`: one datagram, no delimiter. */
  function DatagramBytes<M>(encode: M -> seq<Byte>, m: M): (r: seq<Byte>)
    ensures |r| == |encode(m)|
    ensures forall i :: 0 <= i < |r| ==> r[i] == encode(m)[i]
  {
    encode(m)
  }

  /** `TransferMessage.ToBytes` / `to_bytes`: the encoding, then one newline byte. */
  function LineBytes<M>(encode: M -> seq<Byte>, m: M): (r: seq<Byte>)
    ensures |r| == |encode(m)| + 1
    ensures r[..|r| - 1] == encode(m) && r[|r| - 1] == Newline
  {
    encode(m) + [Newline]
  }

  function CountByte(s: seq<Byte>, b: Byte): nat
  {
    if s == [] then 0 else (if s[0] == b then 1 else 0) + CountByte(s[1..], b)
  }

  lemma {:induction false} CountByteAppend(s: seq<Byte>, t: seq<Byte>, b: Byte)
    ensures CountByte(s + t, b) == CountByte(s, b) + CountByte(t, b)
  {
    if s == [] {
      assert s + t == t;
    } else {
      assert (s + t)[1..] == s[1..] + t;
      CountByteAppend(s[1..], t, b);
    }
  }

  lemma {:induction false} CountByteAbsent(s: seq<Byte>, b: Byte)
    requires b !in s
    ensures CountByte(s, b) == 0
  {
    if s != [] {
      CountByteAbsent(s[1..], b);
    }
  }

  /** A compact encoding holds no raw newline, so the framed message holds exactly
      one newline, and it is the last byte. */
  lemma LineBytesHasOneNewline<M>(encode: M -> seq<Byte>, m: M)
    requires Newline !in encode(m)
    ensures CountByte(LineBytes(encode, m), Newline) == 1
    ensures forall i :: 0 <= i < |LineBytes(encode, m)| - 1 ==> LineBytes(encode, m)[i] != Newline
  {
    CountByteAppend(encode(m), [Newline], Newline);
    CountByteAbsent(encode(m), Newline);
    assert CountByte([Newline], Newline) == 1 by {
      assert [Newline][1..] == [];
    }
  }

  /** The bytes `bytes.TrimSpace` / `str::trim` remove: ASCII white space. */
  predicate IsSpaceByte(b: Byte)
  {
    b == 32 || (9 <= b <= 13)
  }

  function TrimLeft(s: seq<Byte>): (r: seq<Byte>)
    ensures |r| <= |s| && r == s[|s| - |r|..]
    ensures r == [] || !IsSpaceByte(r[0])
  {
    if s != [] && IsSpaceByte(s[0]) then TrimLeft(s[1..]) else s
  }

  function TrimRight(s: seq<Byte>): (r: seq<Byte>)
    ensures |r| <= |s| && r == s[..|r|]
    ensures r == [] || !IsSpaceByte(r[|r| - 1])
  {
    if s != [] && IsSpaceByte(s[|s| - 1]) then TrimRight(s[..|s| - 1]) else s
  }

  /** `TrimLeft` drops white space only. */
  lemma {:induction false} TrimLeftDropsSpace(s: seq<Byte>)
    ensures forall i :: 0 <= i < |s| - |TrimLeft(s)| ==> IsSpaceByte(s[i])
  {
    if s != [] && IsSpaceByte(s[0]) {
      TrimLeftDropsSpace(s[1..]);
      assert forall i :: 1 <= i < |s| - |TrimLeft(s)| ==> s[i] == s[1..][i - 1];
    }
  }

  /** `TrimRight` drops white space only. */
  lemma {:induction false} TrimRightDropsSpace(s: seq<Byte>)
    ensures forall i :: |TrimRight(s)| <= i < |s| ==> IsSpaceByte(s[i])
  {
    if s != [] && IsSpaceByte(s[|s| - 1]) {
      TrimRightDropsSpace(s[..|s| - 1]);
    }
  }

  /** `strings.TrimSpace` on a line read from a stream. */
  function TrimSpace(s: seq<Byte>): seq<Byte>
  {
    TrimLeft(TrimRight(s))
  }

  /** An encoding that neither starts nor ends with white space comes back from
      `TrimSpace` unchanged once its newline is stripped. */
  lemma TrimSpaceOfLine(e: seq<Byte>)
    requires e != [] && !IsSpaceByte(e[0]) && !IsSpaceByte(e[|e| - 1])
    ensures TrimSpace(e + [Newline]) == e
  {
    var s := e + [Newline];
    assert s[..|s| - 1] == e;
    assert TrimRight(s) == TrimRight(e) == e;
  }

  /** What a JSON encoder of this kind guarantees about its output: no raw newline,
      no white space at either end, and decoding gives the message back. */
  ghost predicate WellBehaved<M(!new)>(marshal: M -> seq<Byte>, unmarshal: seq<Byte> -> Option<M>)
  {
    forall m: M ::
      && marshal(m) != []
      && Newline !in marshal(m)
      && !IsSpaceByte(marshal(m)[0]) && !IsSpaceByte(marshal(m)[|marshal(m)| - 1])
      && unmarshal(marshal(m)) == Some(m)
  }
}
