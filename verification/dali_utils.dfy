/**
 * internal/dali/utils.go: name compression, the longest peer name, IPv4
 * parsing and formatting, the choice of the local address, and the search
 * for a free output path.
 */
module DaliUtils {
  import opened Wrappers
  import opened Text
  import opened Framing
  import opened Paths
  import opened DaliMessage

  // ---------------------------------------------------------------- names

  /** Reference meaning of name compression: every non-space character, in order. */
  function RemoveSpaces(s: string): (r: string)
    ensures |r| <= |s|
    ensures forall i :: 0 <= i < |r| ==> !IsSpace(r[i])
  {
    if s == [] then [] else (if IsSpace(s[0]) then [] else [s[0]]) + RemoveSpaces(s[1..])
  }

  /** `strings.Fields`, scanning with the word `cur` collected so far. */
  function FieldsFrom(s: string, cur: string): seq<string>
  {
    if s == [] then (if cur == [] then [] else [cur])
    else if IsSpace(s[0]) then (if cur == [] then [] else [cur]) + FieldsFrom(s[1..], [])
    else FieldsFrom(s[1..], cur + [s[0]])
  }

  /** `strings.Fields`: the maximal runs of non-space characters. */
  function Fields(s: string): seq<string>
  {
    FieldsFrom(s, [])
  }

  /** Gluing the fields back together drops exactly the white space. */
  lemma {:induction false} FieldsJoin(s: string, cur: string)
    ensures Join(FieldsFrom(s, cur), "") == cur + RemoveSpaces(s)
  {
    if s == [] {
    } else if IsSpace(s[0]) {
      var head: seq<string> := if cur == [] then [] else [cur];
      FieldsJoin(s[1..], []);
      JoinEmptyAppend(head, FieldsFrom(s[1..], []));
    } else {
      FieldsJoin(s[1..], cur + [s[0]]);
    }
  }

  /** `compressName`: `strings.Join(strings.Fields(name), "")`. The result has no
      white space and keeps every other character of the name, in order. */
  function CompressName(name: string): (r: string)
    ensures r == RemoveSpaces(name)
    ensures forall i :: 0 <= i < |r| ==> !IsSpace(r[i])
  {
    FieldsJoin(name, []);
    Join(Fields(name), "")
  }

  /** A name without white space is left as it is. */
  lemma {:induction false} RemoveSpacesNoop(s: string)
    requires forall i :: 0 <= i < |s| ==> !IsSpace(s[i])
    ensures RemoveSpaces(s) == s
  {
    if s != [] {
      RemoveSpacesNoop(s[1..]);
      assert s == [s[0]] + s[1..];
    }
  }

  /** Compressing twice is compressing once. */
  lemma CompressNameIdempotent(name: string)
    ensures CompressName(CompressName(name)) == CompressName(name)
  {
    RemoveSpacesNoop(CompressName(name));
  }

  // ---------------------------------------------------------------- peers

  /** `maxPeerNameLength`: the byte length of the longest name; callers pass a
      non-empty list (`slices.Max` panics on an empty one). */
  function MaxPeerNameLength(peers: seq<Peer>): (m: nat)
    requires |peers| > 0
    ensures forall i :: 0 <= i < |peers| ==> Utf8Len(peers[i].Name) <= m
    ensures exists i :: 0 <= i < |peers| && Utf8Len(peers[i].Name) == m
  {
    if |peers| == 1 then Utf8Len(peers[0].Name)
    else
      var rest := MaxPeerNameLength(peers[1..]);
      var first := Utf8Len(peers[0].Name);
      assert forall i :: 1 <= i < |peers| ==> peers[i] == peers[1..][i - 1];
      if first >= rest then first else rest
  }

  // ---------------------------------------------------------------- IPv4

  /** A `net.IP`: 4 bytes, or 16 bytes of which an IPv4 address may be the tail. */
  type IP = seq<Byte>

  /** The 16-byte IPv4-in-IPv6 form that `net.IPv4(a, b, c, d)` returns. */
  function IPv4(a: Byte, b: Byte, c: Byte, d: Byte): (ip: IP)
    ensures |ip| == 16
  {
    [0, 0, 0, 0, 0, 0, 0, 0, 0, 0, 255, 255, a, b, c, d]
  }

  /** `ip.To4()`: the four IPv4 bytes, or nothing for a genuine IPv6 address. */
  function To4(ip: IP): (r: Option<IP>)
    ensures r.Some? ==> |r.value| == 4
  {
    if |ip| == 4 then Some(ip)
    else if |ip| == 16 && ip[..10] == [0, 0, 0, 0, 0, 0, 0, 0, 0, 0] && ip[10] == 255 && ip[11] == 255
    then Some(ip[12..])
    else None
  }

  /** `IsLoopback` for an IPv4 address: 127.0.0.0/8. */
  predicate IsLoopback4(ip4: IP)
    requires |ip4| == 4
  {
    ip4[0] == 127
  }

  /** `ip.String()` for an IPv4 address: dotted decimal. */
  function IPv4String(ip4: IP): string
    requires |ip4| == 4
  {
    Text.Join(Octets(ip4), ".")
  }

  /** Go's `byte(n)` conversion: the low eight bits. */
  function ToByte(n: int): Byte
  {
    n % 256
  }

  /** `newIPv4`: the first four dot-separated parts, each parsed with `number.ParseInt`
      and truncated to a byte; `None` stands for the index panic when the address has
      fewer than four parts. */
  function NewIPv4(addr: string, parseInt: string -> int): (r: Option<IP>)
    ensures r.Some? <==> |Split(addr, '.')| >= 4
    ensures r.Some? ==> |r.value| == 16 && To4(r.value).Some?
    ensures r.Some? ==> var parts := Split(addr, '.');
      To4(r.value).value == [ToByte(parseInt(parts[0])), ToByte(parseInt(parts[1])),
                             ToByte(parseInt(parts[2])), ToByte(parseInt(parts[3]))]
  {
    var parts := Split(addr, '.');
    if |parts| < 4 then None
    else Some(IPv4(ToByte(parseInt(parts[0])), ToByte(parseInt(parts[1])),
                   ToByte(parseInt(parts[2])), ToByte(parseInt(parts[3]))))
  }

  /** The four decimal fields of an IPv4 address. */
  function Octets(ip4: IP): (parts: seq<string>)
    requires |ip4| == 4
    ensures |parts| == 4 && forall i :: 0 <= i < 4 ==> '.' !in parts[i]
  {
    var parts := [NatToString(ip4[0]), NatToString(ip4[1]), NatToString(ip4[2]), NatToString(ip4[3])];
    assert forall i :: 0 <= i < 4 ==> forall k :: 0 <= k < |parts[i]| ==> IsDigitChar(parts[i][k]);
    parts
  }

  /** `newIPv4` inverts IPv4 formatting: given a parser that reads back decimal
      numbers below 256, the address parsed from an IPv4 string is that IPv4 address. */
  lemma NewIPv4OfString(ip4: IP, parseInt: string -> int)
    requires |ip4| == 4
    requires forall n: nat :: n < 256 ==> parseInt(NatToString(n)) == n
    ensures NewIPv4(IPv4String(ip4), parseInt) == Some(IPv4(ip4[0], ip4[1], ip4[2], ip4[3]))
    ensures To4(NewIPv4(IPv4String(ip4), parseInt).value) == Some(ip4)
  {
    JoinSplit(Octets(ip4), '.');
    var ip := IPv4(ip4[0], ip4[1], ip4[2], ip4[3]);
    assert ip[12..] == ip4;
  }

  /** A host address that is IPv4 and not loopback. */
  predicate UsableV4(ip: IP)
  {
    To4(ip).Some? && !IsLoopback4(To4(ip).value)
  }

  /** `s` is the text of one of the usable addresses in `addrs`. */
  ghost predicate TextOfUsable(addrs: seq<IP>, s: string)
  {
    exists i :: 0 <= i < |addrs| && UsableV4(addrs[i]) && s == IPv4String(To4(addrs[i]).value)
  }

  /** The text of every non-loopback IPv4 host address, in lookup order. */
  function Candidates(addrs: seq<IP>): seq<string>
  {
    if addrs == [] then []
    else (if UsableV4(addrs[0]) then [IPv4String(To4(addrs[0]).value)] else []) + Candidates(addrs[1..])
  }

  /** Every candidate is the dotted text of a non-loopback IPv4 host address, and
      none of them reads as a 127.x.y.z address. */
  lemma {:induction false} CandidatesSound(addrs: seq<IP>)
    ensures forall s :: s in Candidates(addrs) ==> TextOfUsable(addrs, s) && !HasPrefix(s, "127.")
  {
    if addrs != [] {
      CandidatesSound(addrs[1..]);
      var head := if UsableV4(addrs[0]) then [IPv4String(To4(addrs[0]).value)] else [];
      forall s | s in Candidates(addrs)
        ensures TextOfUsable(addrs, s) && !HasPrefix(s, "127.")
      {
        if s in head {
          NotLoopbackText(To4(addrs[0]).value);
        } else {
          assert s in Candidates(addrs[1..]);
          var i :| 0 <= i < |addrs[1..]| && UsableV4(addrs[1..][i]) && s == IPv4String(To4(addrs[1..][i]).value);
          assert addrs[1..][i] == addrs[i + 1];
        }
      }
    }
  }

  /** The text of an address whose first byte is not 127 does not begin with "127.". */
  lemma NotLoopbackText(ip4: IP)
    requires |ip4| == 4 && !IsLoopback4(ip4)
    ensures !HasPrefix(IPv4String(ip4), "127.")
  {
    var w := NatToString(ip4[0]);
    var s := IPv4String(ip4);
    assert s == w + "." + Text.Join(Octets(ip4)[1..], ".");
    if HasPrefix(s, "127.") {
      assert s[..4] == "127.";
      assert forall i :: 0 <= i < |w| ==> s[i] == w[i] && IsDigitChar(s[i]);
      assert s[3] == '.' && !IsDigitChar(s[3]);
      assert s[|w|] == '.';
      assert IsDigitChar(s[0]) && IsDigitChar(s[1]) && IsDigitChar(s[2]);
      assert |w| == 3;
      assert w == s[..3] == "127";
      assert NatToString(127) == "127";
      NatToStringInjective(ip4[0], 127);
    }
  }

  /** The loop of `getLocalIPv4Address` that keeps the non-loopback IPv4 addresses. */
  method CollectLocalIPv4(addrs: seq<IP>) returns (ips: seq<string>)
    ensures ips == Candidates(addrs)
  {
    ips := [];
    var k := 0;
    while k < |addrs|
      invariant 0 <= k <= |addrs|
      invariant ips + Candidates(addrs[k..]) == Candidates(addrs)
    {
      assert addrs[k..][1..] == addrs[k + 1..];
      var ipv4 := To4(addrs[k]);
      if ipv4.Some? && !IsLoopback4(ipv4.value) {
        ips := ips + [IPv4String(ipv4.value)];
      }
      assert UsableV4(addrs[k]) <==> ipv4.Some? && !IsLoopback4(ipv4.value);
      k := k + 1;
    }
  }

  /** `getLocalIPv4Address(soloIP)`. `lookup` is the result of `net.LookupIP(os.Hostname())`
      (`None` when either call fails); `choice` is the number the user types, read only
      when there are two or more candidates. */
  method GetLocalIPv4Address(lookup: Option<seq<IP>>, soloIP: bool, choice: int) returns (r: Result<string>)
    ensures lookup.None? ==> r.Err?
    ensures lookup.Some? && !soloIP ==> r == Ok(Join(Candidates(lookup.value), ", "))
    ensures lookup.Some? && soloIP ==>
      var ips := Candidates(lookup.value);
      && (|ips| == 0 ==> r == Ok(""))
      && (|ips| == 1 ==> r == Ok(ips[0]))
      && (|ips| >= 2 ==> (r.Ok? <==> 1 <= choice <= |ips|))
      && (|ips| >= 2 && r.Ok? ==> r.value == ips[choice - 1])
    ensures soloIP && r.Ok? && r.value != "" ==>
      TextOfUsable(lookup.value, r.value) && !HasPrefix(r.value, "127.")
  {
    if lookup.None? {
      return Err("failed to get host IP addresses");
    }
    var ips := CollectLocalIPv4(lookup.value);
    CandidatesSound(lookup.value);
    if !soloIP {
      return Ok(Join(ips, ", "));
    }
    if |ips| == 0 {
      r := Ok("");
    } else if |ips| == 1 {
      r := Ok(ips[0]);
    } else if choice < 1 || choice > |ips| {
      r := Err("invalid selection");
    } else {
      r := Ok(ips[choice - 1]);
    }
  }

  // ---------------------------------------------------------------- output path

  /** `name_N.ext` in `folder`. */
  function Numbered(folder: string, name: string, ext: string, n: nat): string
  {
    JoinPath(folder, name + "_" + NatToString(n) + ext)
  }

  /** The `N`-th alternative name `getOutputPath` tries: `name_N.ext` beside the original. */
  function Candidate(path: string, n: nat): string
  {
    Numbered(Dir(path), Stem(Base(path)), Ext(Base(path)), n)
  }

  /** Different suffix numbers give different paths. */
  lemma NumberedInjective(folder: string, name: string, ext: string, a: nat, b: nat)
    requires Numbered(folder, name, ext, a) == Numbered(folder, name, ext, b)
    ensures a == b
  {
    var x := name + "_" + NatToString(a) + ext;
    var y := name + "_" + NatToString(b) + ext;
    JoinInjective(folder, x, y);
    var k := |name| + 1;
    assert NatToString(a) == x[k..|x| - |ext|] == y[k..|y| - |ext|] == NatToString(b);
    NatToStringInjective(a, b);
  }

  /** Different suffix numbers give different paths. */
  lemma CandidateInjective(path: string, a: nat, b: nat)
    requires Candidate(path, a) == Candidate(path, b)
    ensures a == b
  {
    NumberedInjective(Dir(path), Stem(Base(path)), Ext(Base(path)), a, b);
  }

  /** `getOutputPath`, with `existing` the finite set of paths that exist on disk:
      the path itself when free, otherwise the first `name_N.ext` (N = 1, 2, ...)
      in the same folder that is free. */
  method GetOutputPath(path: string, existing: set<string>) returns (r: string)
    ensures r !in existing
    ensures path !in existing ==> r == path
    ensures path in existing ==>
      exists n: nat :: 1 <= n && r == Candidate(path, n)
                       && forall m: nat :: 1 <= m < n ==> Candidate(path, m) in existing
  {
    if path !in existing {
      return path;
    }
    var folder := Dir(path);
    var filename := Base(path);
    var ext := Ext(filename);
    var name := Stem(filename);
    var suffix: nat := 1;
    while true
      invariant 1 <= suffix <= |existing| + 1
      invariant forall m: nat :: 1 <= m < suffix ==> Numbered(folder, name, ext, m) in existing
      decreases |existing| + 1 - suffix
    {
      var path2 := JoinPath(folder, name + "_" + NatToString(suffix) + ext);
      assert path2 == Numbered(folder, name, ext, suffix);
      if path2 !in existing {
        forall m: nat | 1 <= m <= suffix
          ensures Candidate(path, m) == Numbered(folder, name, ext, m)
        {
        }
        return path2;
      }
      NumberedCounted(folder, name, ext, existing, suffix + 1);
      suffix := suffix + 1;
    }
  }

  /** The names numbered `1` .. `n - 1`. */
  ghost function NumberedBelow(folder: string, name: string, ext: string, n: nat): set<string>
  {
    if n <= 1 then {} else NumberedBelow(folder, name, ext, n - 1) + {Numbered(folder, name, ext, n - 1)}
  }

  lemma {:induction false} NumberedNotBelow(folder: string, name: string, ext: string, n: nat, k: nat)
    requires n <= k
    ensures Numbered(folder, name, ext, k) !in NumberedBelow(folder, name, ext, n)
  {
    if n > 1 {
      NumberedNotBelow(folder, name, ext, n - 1, k);
      if Numbered(folder, name, ext, k) == Numbered(folder, name, ext, n - 1) {
        NumberedInjective(folder, name, ext, k, n - 1);
      }
    }
  }

  lemma {:induction false} NumberedBelowIn(folder: string, name: string, ext: string, existing: set<string>, n: nat)
    requires forall m: nat :: 1 <= m < n ==> Numbered(folder, name, ext, m) in existing
    ensures NumberedBelow(folder, name, ext, n) <= existing
    ensures |NumberedBelow(folder, name, ext, n)| == if n <= 1 then 0 else n - 1
  {
    if n > 1 {
      NumberedBelowIn(folder, name, ext, existing, n - 1);
      NumberedNotBelow(folder, name, ext, n - 1, n - 1);
    }
  }

  /** When the first `n - 1` numbered names are all taken, `existing` holds at least `n - 1` paths. */
  lemma NumberedCounted(folder: string, name: string, ext: string, existing: set<string>, n: nat)
    requires forall m: nat :: 1 <= m < n ==> Numbered(folder, name, ext, m) in existing
    ensures n <= |existing| + 1
  {
    NumberedBelowIn(folder, name, ext, existing, n);
    SubsetSize(NumberedBelow(folder, name, ext, n), existing);
  }

  lemma {:induction false} SubsetSize<T>(a: set<T>, b: set<T>)
    requires a <= b
    ensures |a| <= |b|
  {
    if a != {} {
      var x :| x in a;
      SubsetSize(a - {x}, b - {x});
    }
  }
}
