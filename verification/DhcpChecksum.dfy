/** `dhcp_flag_bcast` in `rtw_br_ext.c`: setting the broadcast flag of a DHCP request and patching its UDP checksum. */
module DhcpChecksum {
  import opened Bytes

  const ETH_HLEN := 14
  const SERVER_PORT := 67
  const CLIENT_PORT := 68
  const IPPROTO_UDP: byte := 17
  /** Offsets from the UDP header. */
  const CHECK_AT := 6
  const FLAGS_AT := 18
  const COOKIE_AT := 244
  const DHCP_MAGIC := [0x63, 0x82, 0x53, 0x63]
  /** Bytes of the UDP and DHCP headers that the routine looks at. */
  const LOOKED_AT := 248

  // ----- one's complement sums

  /** The sum of the 16-bit words of a datagram in network order, an odd last byte padded with zero (RFC 1071). */
  function WordSum(s: seq<byte>): nat {
    if |s| == 0 then 0
    else if |s| == 1 then Be16(s[0], 0)
    else Be16(s[0], s[1]) + WordSum(s[2..])
  }

  /** Replacing one aligned word moves the sum by the difference. */
  lemma {:induction false} WordSumPatch(s: seq<byte>, at: nat, t: seq<byte>)
    requires |t| == 2 && at % 2 == 0 && at + 2 <= |s|
    ensures WordSum(Patch(s, at, t)) == WordSum(s) - Be16(s[at], s[at + 1]) + Be16(t[0], t[1])
  {
    if at == 0 {
      assert Patch(s, 0, t)[2..] == s[2..];
    } else {
      assert Patch(s, at, t)[2..] == Patch(s[2..], at - 2, t);
      WordSumPatch(s[2..], at - 2, t);
    }
  }

  /** A 16-bit field as the host's CPU loads it. */
  function HostWord(bigEndian: bool, b0: byte, b1: byte): (n: nat)
    ensures n < 0x1_0000
  {
    if bigEndian then Be16(b0, b1) else Be16(b1, b0)
  }

  function PutHost(bigEndian: bool, n: nat): (s: seq<byte>)
    requires n < 0x1_0000
    ensures |s| == 2 && HostWord(bigEndian, s[0], s[1]) == n
  {
    if bigEndian then PutBe16(n) else [n % 256, n / 256]
  }

  /** Byte order is a factor of 256 modulo 65535 (RFC 1071, section 2(B)). */
  function Scaled(bigEndian: bool, x: int): int {
    if bigEndian then x else 256 * x
  }

  lemma HostWordResidue(bigEndian: bool, b0: byte, b1: byte)
    ensures HostWord(bigEndian, b0, b1) == Scaled(bigEndian, Be16(b0, b1)) - 65535 * (if bigEndian then 0 else b0)
  {
  }

  lemma MultipleOf(k: int)
    ensures 65535 * k % 65535 == 0
  {
  }

  /** And the factor can be divided out again: 256 * 256 is 65535 + 1. */
  lemma FactorCancels(bigEndian: bool, x: int, q: int)
    requires Scaled(bigEndian, x) == 65535 * q
    ensures x % 65535 == 0
  {
    if bigEndian {
      MultipleOf(q);
    } else {
      assert x == 65535 * (256 * q - x);
      MultipleOf(256 * q - x);
    }
  }

  // ----- the loop

  /** Folds the carries of a sum back in: the result is one 16-bit word of the same residue. */
  method FoldCarries(sum0: nat) returns (sum: nat)
    ensures sum < 0x1_0000
    ensures sum % 65535 == sum0 % 65535
    ensures sum == 0 <==> sum0 == 0
  {
    sum := sum0;
    while sum / 0x1_0000 != 0
      invariant sum % 65535 == sum0 % 65535
      invariant sum == 0 <==> sum0 == 0
      decreases sum
    {
      sum := sum % 0x1_0000 + sum / 0x1_0000;
    }
  }

  // ----- the patch

  /** `htons(BROADCAST_FLAG)` */
  function BroadcastFlag(bigEndian: bool): nat {
    HostWord(bigEndian, 0x80, 0)
  }

  predicate HasFlag(flags: nat, flag: nat)
    requires flag > 0
  {
    flags / flag % 2 == 1
  }

  /** The checksum after `flags` was added in: the folded sum's complement, as 16 bits. */
  function PatchedCheck(check: nat, flags: nat): (n: nat)
    requires check < 0x1_0000 && 0 < flags < 0x1_0000
    ensures n < 0x1_0000
  {
    0xFFFF - (1 + (0xFFFF - check + flags - 1) % 65535)
  }

  /** Where the IP header puts the UDP header. */
  function UdpAt(f: seq<byte>): nat
    requires |f| > ETH_HLEN
  {
    ETH_HLEN + f[ETH_HLEN] % 16 * 4
  }

  predicate IsIp(f: seq<byte>)
    requires |f| >= ETH_HLEN
  {
    f[12..14] == [8, 0]
  }

  predicate FromClient(f: seq<byte>, udp: nat)
    requires udp + 2 <= |f|
  {
    Be16(f[udp], f[udp + 1]) == CLIENT_PORT
  }

  predicate IsDhcpRequest(f: seq<byte>, udp: nat)
    requires udp + 2 <= |f| && (FromClient(f, udp) ==> udp + 4 <= |f|)
  {
    FromClient(f, udp) && Be16(f[udp + 2], f[udp + 3]) == SERVER_PORT
  }

  /** The frame has every byte that the routine, which checks no length, gets to read. */
  predicate LongEnough(f: seq<byte>) {
    && |f| >= ETH_HLEN
    && (IsIp(f) ==>
          && |f| >= ETH_HLEN + 10
          && (f[ETH_HLEN + 9] == IPPROTO_UDP ==>
                && UdpAt(f) + 2 <= |f|
                && (FromClient(f, UdpAt(f)) ==> UdpAt(f) + 4 <= |f|)
                && (IsDhcpRequest(f, UdpAt(f)) ==> UdpAt(f) + LOOKED_AT <= |f|)))
  }

  /** Whether `dhcp_flag_bcast` edits the frame: an IPv4 UDP DHCP request without the broadcast flag. */
  predicate Applies(f: seq<byte>)
    requires LongEnough(f)
  {
    && IsIp(f)
    && f[ETH_HLEN + 9] == IPPROTO_UDP
    && IsDhcpRequest(f, UdpAt(f))
    && f[UdpAt(f) + COOKIE_AT..UdpAt(f) + COOKIE_AT + 4] == DHCP_MAGIC
    && f[UdpAt(f) + FLAGS_AT] < 0x80
  }

  lemma FlagIs(bigEndian: bool)
    ensures BroadcastFlag(bigEndian) == if bigEndian then 0x8000 else 0x80
  {
  }

  lemma Halves(n: nat)
    requires n < 0x1_0000
    ensures n / 0x8000 == if n < 0x8000 then 0 else 1
  {
  }

  lemma HighBit(b0: byte, b1: byte)
    ensures Be16(b0, b1) / 0x8000 % 2 == 1 <==> b0 >= 0x80
    ensures b0 < 0x80 ==> Be16(b0, b1) + 0x8000 == Be16(b0 + 0x80, b1) > 0
  {
    Halves(Be16(b0, b1));
    assert Be16(b0, b1) < 0x8000 <==> b0 < 0x80;
  }

  lemma MiddleBit(b0: byte, b1: byte)
    ensures Be16(b1, b0) / 0x80 % 2 == 1 <==> b0 >= 0x80
    ensures b0 < 0x80 ==> Be16(b1, b0) + 0x80 == Be16(b1, b0 + 0x80) > 0
  {
    assert Be16(b1, b0) / 0x80 == 2 * b1 + b0 / 0x80;
  }

  /** Setting a clear flag is adding it: in network order it is the top bit either way. */
  lemma FlagBound(bigEndian: bool, b0: byte, b1: byte)
    ensures !HasFlag(HostWord(bigEndian, b0, b1), BroadcastFlag(bigEndian)) <==> b0 < 0x80
    ensures b0 < 0x80 ==>
              HostWord(bigEndian, b0, b1) + BroadcastFlag(bigEndian) == HostWord(bigEndian, b0 + 0x80, b1) > 0
  {
    hide Be16, BroadcastFlag;
    FlagIs(bigEndian);
    if bigEndian {
      HighBit(b0, b1);
    } else {
      MiddleBit(b0, b1);
    }
  }

  lemma PortIs(hi: byte, lo: byte)
    ensures Be16(hi, lo) == 68 <==> hi == 0 && lo == 68
    ensures Be16(hi, lo) == 67 <==> hi == 0 && lo == 67
  {
  }

  lemma FourBytes(f: seq<byte>, at: nat)
    requires at + 4 <= |f|
    ensures f[at..at + 4] == [f[at], f[at + 1], f[at + 2], f[at + 3]]
  {
  }

  /**
   Which frames are edited, byte by byte: an IPv4 frame with protocol 17 whose UDP header, where the header length in
   the first byte puts it, names ports 68 and 67, with the DHCP magic and the top bit of the flags clear.
   */
  lemma AppliesIff(f: seq<byte>)
    requires LongEnough(f)
    ensures Applies(f) <==>
              && f[12] == 8 && f[13] == 0 && f[23] == 17
              && var u := 14 + 4 * (f[14] % 16);
                 && f[u] == 0 && f[u + 1] == 68 && f[u + 2] == 0 && f[u + 3] == 67
                 && f[u + 244] == 0x63 && f[u + 245] == 0x82 && f[u + 246] == 0x53 && f[u + 247] == 0x63
                 && f[u + 18] < 0x80
  {
    assert f[12..14] == [f[12], f[13]];
    if IsIp(f) && f[23] == IPPROTO_UDP {
      PortIs(f[UdpAt(f)], f[UdpAt(f) + 1]);
      if FromClient(f, UdpAt(f)) {
        PortIs(f[UdpAt(f) + 2], f[UdpAt(f) + 3]);
        if IsDhcpRequest(f, UdpAt(f)) {
          FourBytes(f, UdpAt(f) + COOKIE_AT);
        }
      }
    }
  }

  /** The UDP datagram after the patch. */
  function Patched(d: seq<byte>, bigEndian: bool): (r: seq<byte>)
    requires |d| >= LOOKED_AT && d[FLAGS_AT] < 0x80
    ensures |r| == |d|
  {
    FlagBound(bigEndian, d[FLAGS_AT], d[FLAGS_AT + 1]);
    var flags := HostWord(bigEndian, d[FLAGS_AT], d[FLAGS_AT + 1]) + BroadcastFlag(bigEndian);
    var check := PatchedCheck(HostWord(bigEndian, d[CHECK_AT], d[CHECK_AT + 1]), flags);
    Patch(Patch(d, FLAGS_AT, PutHost(bigEndian, flags)), CHECK_AT, PutHost(bigEndian, check))
  }

  lemma PatchElsewhere(s: seq<byte>, at: nat, t: seq<byte>, i: nat)
    requires at + |t| <= |s| && i + 1 < at
    ensures Patch(s, at, t)[i] == s[i] && Patch(s, at, t)[i + 1] == s[i + 1]
  {
  }

  lemma PatchSuffix(f: seq<byte>, at: nat, k: nat, t: seq<byte>)
    requires at + k + |t| <= |f|
    ensures Patch(f, at + k, t)[..at] == f[..at] && Patch(f, at + k, t)[at..] == Patch(f[at..], k, t)
  {
    var r := Patch(f, at + k, t);
    assert forall i :: 0 <= i < at + k ==> r[i] == f[i];
    assert forall i :: 0 <= i < |t| ==> r[at + k + i] == t[i];
    assert forall i :: at + k + |t| <= i < |f| ==> r[i] == f[i];
    hide Patch;
    PatchIs(r[at..], f[at..], k, t);
  }

  lemma BothPatches(f: seq<byte>, at: nat, i: nat, t: seq<byte>, j: nat, u: seq<byte>)
    requires at + i + |t| <= |f| && at + j + |u| <= |f|
    ensures Patch(Patch(f, at + i, t), at + j, u) == f[..at] + Patch(Patch(f[at..], i, t), j, u)
  {
    hide Patch;
    var g := Patch(f, at + i, t);
    PatchSuffix(f, at, i, t);
    PatchSuffix(g, at, j, u);
    var h := Patch(g, at + j, u);
    assert h == h[..at] + h[at..];
  }

  /** The two stores, seen from the datagram. */
  lemma PatchTwice(f: seq<byte>, udp: nat, flags: nat, bigEndian: bool) returns (g: seq<byte>)
    requires udp + LOOKED_AT <= |f| && f[udp + FLAGS_AT] < 0x80 && 0 < flags < 0x1_0000
    requires flags == HostWord(bigEndian, f[udp + FLAGS_AT], f[udp + FLAGS_AT + 1]) + BroadcastFlag(bigEndian)
    ensures g == Patch(f, udp + FLAGS_AT, PutHost(bigEndian, flags))
    ensures g[udp + CHECK_AT] == f[udp + CHECK_AT] && g[udp + CHECK_AT + 1] == f[udp + CHECK_AT + 1]
    ensures var check := PatchedCheck(HostWord(bigEndian, f[udp + CHECK_AT], f[udp + CHECK_AT + 1]), flags);
            Patch(g, udp + CHECK_AT, PutHost(bigEndian, check)) == f[..udp] + Patched(f[udp..], bigEndian)
  {
    hide HostWord, PutHost, PatchedCheck, BroadcastFlag, Patch;
    PatchElsewhere(f, udp + FLAGS_AT, PutHost(bigEndian, flags), udp + CHECK_AT);
    g := Patch(f, udp + FLAGS_AT, PutHost(bigEndian, flags));
    var check := PatchedCheck(HostWord(bigEndian, f[udp + CHECK_AT], f[udp + CHECK_AT + 1]), flags);
    BothPatches(f, udp, FLAGS_AT, PutHost(bigEndian, flags), CHECK_AT, PutHost(bigEndian, check));
    assert f[udp..][FLAGS_AT] == f[udp + FLAGS_AT] && f[udp..][FLAGS_AT + 1] == f[udp + FLAGS_AT + 1];
    assert f[udp..][CHECK_AT] == f[udp + CHECK_AT] && f[udp..][CHECK_AT + 1] == f[udp + CHECK_AT + 1];
  }

  lemma FoldedOnce(x: nat, sum: nat)
    requires 0 < x && 0 < sum < 0x1_0000 && sum % 65535 == x % 65535
    ensures sum == 1 + (x - 1) % 65535
  {
  }

  method SetFlag(frame: array<byte>, udp: nat, bigEndian: bool)
    requires udp + LOOKED_AT <= frame.Length
    requires frame[udp + FLAGS_AT] < 0x80
    modifies frame
    ensures frame[..] == old(frame[..udp]) + Patched(old(frame[udp..]), bigEndian)
  {
    hide HostWord, PutHost, Patch, HasFlag;
    ghost var f := frame[..];
    var flags := HostWord(bigEndian, frame[udp + FLAGS_AT], frame[udp + FLAGS_AT + 1]);
    FlagBound(bigEndian, frame[udp + FLAGS_AT], frame[udp + FLAGS_AT + 1]);
    flags := flags + BroadcastFlag(bigEndian);
    ghost var g := PatchTwice(f, udp, flags, bigEndian);
    Store(frame, udp + FLAGS_AT, PutHost(bigEndian, flags));
    assert frame[..] == g;
    var check := HostWord(bigEndian, frame[udp + CHECK_AT], frame[udp + CHECK_AT + 1]);
    var sum := FoldCarries(0xFFFF - check + flags);
    FoldedOnce(0xFFFF - check + flags, sum);
    Store(frame, udp + CHECK_AT, PutHost(bigEndian, 0xFFFF - sum));
  }

  /** `dhcp_flag_bcast` */
  method DhcpFlagBcast(frame: array<byte>, bigEndian: bool, dhcpBcstDisable: bool)
    requires dhcpBcstDisable || LongEnough(frame[..])
    modifies frame
    ensures var f := old(frame[..]);
            frame[..] == if !dhcpBcstDisable && Applies(f) then f[..UdpAt(f)] + Patched(f[UdpAt(f)..], bigEndian) else f
  {
    hide Patched, HasFlag;
    ghost var f := frame[..];
    if dhcpBcstDisable || frame[12..14] != [8, 0] {
      return;
    }
    if frame[ETH_HLEN + 9] != IPPROTO_UDP {
      return;
    }
    var udp := ETH_HLEN + frame[ETH_HLEN] % 16 * 4;
    if Be16(frame[udp], frame[udp + 1]) != CLIENT_PORT || Be16(frame[udp + 2], frame[udp + 3]) != SERVER_PORT {
      return;
    }
    if frame[udp + COOKIE_AT..udp + COOKIE_AT + 4] != DHCP_MAGIC {
      return;
    }
    FlagBound(bigEndian, frame[udp + FLAGS_AT], frame[udp + FLAGS_AT + 1]);
    if !HasFlag(HostWord(bigEndian, frame[udp + FLAGS_AT], frame[udp + FLAGS_AT + 1]), BroadcastFlag(bigEndian)) {
      SetFlag(frame, udp, bigEndian);
    }
  }

  // ----- what the patch does to the datagram's sum

  lemma PatchedCheckResidue(check: nat, flags: nat)
    requires check < 0x1_0000 && 0 < flags < 0x1_0000
    ensures (PatchedCheck(check, flags) - check + flags) % 65535 == 0
    ensures PatchedCheck(check, flags) == 0 <==> check == flags || (check == 0 && flags == 0xFFFF)
  {
  }

  lemma PutHostOf(bigEndian: bool, b0: byte, b1: byte)
    ensures PutHost(bigEndian, HostWord(bigEndian, b0, b1)) == [b0, b1]
  {
  }

  /** The two words that the patch writes, and how they relate to those that were there. */
  lemma PatchedWords(d: seq<byte>, bigEndian: bool) returns (f: seq<byte>, c: seq<byte>)
    requires |d| >= LOOKED_AT
    requires d[FLAGS_AT] < 0x80
    ensures |f| == |c| == 2 && Patched(d, bigEndian) == Patch(Patch(d, FLAGS_AT, f), CHECK_AT, c)
    ensures d[FLAGS_AT] < 0x80 && f == [d[FLAGS_AT] + 0x80, d[FLAGS_AT + 1]]
    ensures var check, flags := HostWord(bigEndian, d[CHECK_AT], d[CHECK_AT + 1]), HostWord(bigEndian, f[0], f[1]);
            flags > 0 && HostWord(bigEndian, c[0], c[1]) == PatchedCheck(check, flags)
  {
    hide HostWord, PutHost, PatchedCheck, Patch, HasFlag;
    FlagBound(bigEndian, d[FLAGS_AT], d[FLAGS_AT + 1]);
    PutHostOf(bigEndian, d[FLAGS_AT] + 0x80, d[FLAGS_AT + 1]);
    var flags := HostWord(bigEndian, d[FLAGS_AT], d[FLAGS_AT + 1]) + BroadcastFlag(bigEndian);
    f := PutHost(bigEndian, flags);
    c := PutHost(bigEndian, PatchedCheck(HostWord(bigEndian, d[CHECK_AT], d[CHECK_AT + 1]), flags));
  }

  lemma SumOfWords(bigEndian: bool, f: int, c': int, c: int, hf: int, hc': int, hc: int, p: int, q: int, r: int)
    requires hf == Scaled(bigEndian, f) - 65535 * p
    requires hc' == Scaled(bigEndian, c') - 65535 * q
    requires hc == Scaled(bigEndian, c) - 65535 * r
    requires (hc' - hc + hf) % 65535 == 0
    ensures (c' - c + f) % 65535 == 0
  {
    var x := c' - c + f;
    var k := (hc' - hc + hf) / 65535;
    assert Scaled(bigEndian, x) == 65535 * (k + p + q - r);
    FactorCancels(bigEndian, x, k + p + q - r);
  }

  /**
   Patching moves the datagram's sum by exactly the flags word that was there before: the code never takes that out.
   */
  lemma PatchMovesSum(d: seq<byte>, bigEndian: bool)
    requires |d| >= LOOKED_AT
    requires d[FLAGS_AT] < 0x80
    ensures (WordSum(Patched(d, bigEndian)) + Be16(d[FLAGS_AT], d[FLAGS_AT + 1]) - WordSum(d)) % 65535 == 0
  {
    hide WordSum, HasFlag, HostWord, PatchedCheck, Patched;
    var f, c := PatchedWords(d, bigEndian);
    var check, flags := HostWord(bigEndian, d[CHECK_AT], d[CHECK_AT + 1]), HostWord(bigEndian, f[0], f[1]);
    WordSumPatch(d, FLAGS_AT, f);
    WordSumPatch(Patch(d, FLAGS_AT, f), CHECK_AT, c);
    PatchedCheckResidue(check, flags);
    HostWordResidue(bigEndian, f[0], f[1]);
    HostWordResidue(bigEndian, c[0], c[1]);
    HostWordResidue(bigEndian, d[CHECK_AT], d[CHECK_AT + 1]);
    var m := if bigEndian then 0 else 1;
    SumOfWords(bigEndian, Be16(f[0], f[1]), Be16(c[0], c[1]), Be16(d[CHECK_AT], d[CHECK_AT + 1]),
               flags, PatchedCheck(check, flags), check, m * f[0], m * c[0], m * d[CHECK_AT]);
  }

  /** The checksum of a datagram with pseudo header sum `pseudo` is in order (RFC 768). */
  predicate SumsUp(pseudo: nat, d: seq<byte>) {
    (pseudo + WordSum(d)) % 65535 == 0
  }

  lemma SameResidue(a: nat, b: nat, f: nat)
    requires a % 65535 == 0 && (b + f - a) % 65535 == 0 && f < 0x8000
    ensures b % 65535 == 0 <==> f == 0
  {
    var q, k := a / 65535, (b + f - a) / 65535;
    assert b + f == 65535 * (q + k);
    if f > 0 {
      assert b == 65535 * (q + k - 1) + (65535 - f);
    }
  }

  /**
   A datagram whose checksum is in order keeps it through the patch exactly when its flags were all zero, as section 2
   of RFC 2131 has them, on hosts of either byte order and for every datagram length.
   */
  lemma PatchKeepsChecksum(d: seq<byte>, bigEndian: bool, pseudo: nat)
    requires |d| >= LOOKED_AT && SumsUp(pseudo, d)
    requires d[FLAGS_AT] < 0x80
    ensures SumsUp(pseudo, Patched(d, bigEndian)) <==> d[FLAGS_AT] == d[FLAGS_AT + 1] == 0
  {
    hide WordSum, Patched;
    PatchMovesSum(d, bigEndian);
    FlagBound(bigEndian, d[FLAGS_AT], d[FLAGS_AT + 1]);
    SameResidue(pseudo + WordSum(d), pseudo + WordSum(Patched(d, bigEndian)), Be16(d[FLAGS_AT], d[FLAGS_AT + 1]));
  }

  predicate NoChecksum(d: seq<byte>)
    requires |d| >= LOOKED_AT
  {
    d[CHECK_AT] == d[CHECK_AT + 1] == 0
  }

  lemma ShiftedResidue(a: nat, b: nat, f: nat)
    requires (b + f - a) % 65535 == 0 && f < 0x8000
    ensures b % 65535 == 0 <==> a % 65535 == f
  {
    var k, p, q := (b + f - a) / 65535, a / 65535, b / 65535;
    assert a % 65535 - b % 65535 == f + 65535 * (q - p - k);
  }

  /**
   A request sent without a checksum gets one all the same, worked out from the zero field. It is right exactly when the
   sum of the datagram was its flags word: the code does not ask whether there is a checksum to keep.
   */
  lemma PatchInventsChecksum(d: seq<byte>, bigEndian: bool, pseudo: nat)
    requires |d| >= LOOKED_AT && NoChecksum(d) && d[FLAGS_AT] < 0x80
    ensures SumsUp(pseudo, Patched(d, bigEndian)) <==>
            (pseudo + WordSum(d)) % 65535 == Be16(d[FLAGS_AT], d[FLAGS_AT + 1])
  {
    hide WordSum, Patched;
    PatchMovesSum(d, bigEndian);
    ShiftedResidue(pseudo + WordSum(d), pseudo + WordSum(Patched(d, bigEndian)), Be16(d[FLAGS_AT], d[FLAGS_AT + 1]));
  }

  lemma LastPatch(s: seq<byte>, at: nat, t: seq<byte>)
    requires at + |t| <= |s| && |t| == 2
    ensures Patch(s, at, t)[at] == t[0] && Patch(s, at, t)[at + 1] == t[1]
  {
  }

  lemma HostWordsDiffer(bigEndian: bool, a: byte, b: byte, c: byte, d: byte)
    ensures HostWord(bigEndian, a, b) == HostWord(bigEndian, c, d) <==> a == c && b == d
    ensures HostWord(bigEndian, 0, 0) == 0
  {
  }

  /**
   The patched checksum can come out as zero, which on the wire means that there is none: from a set checksum, exactly
   when it equals the new flags word. RFC 768 would send 0xFFFF instead.
   */
  lemma PatchDropsChecksum(d: seq<byte>, bigEndian: bool)
    requires |d| >= LOOKED_AT && !NoChecksum(d)
    requires d[FLAGS_AT] < 0x80
    ensures NoChecksum(Patched(d, bigEndian))
       <==> d[CHECK_AT] == d[FLAGS_AT] + 0x80 && d[CHECK_AT + 1] == d[FLAGS_AT + 1]
  {
    hide WordSum, HostWord, Patched, PatchedCheck;
    var f, c := PatchedWords(d, bigEndian);
    PatchedCheckResidue(HostWord(bigEndian, d[CHECK_AT], d[CHECK_AT + 1]), HostWord(bigEndian, f[0], f[1]));
    LastPatch(Patch(d, FLAGS_AT, f), CHECK_AT, c);
    HostWordsDiffer(bigEndian, c[0], c[1], 0, 0);
    HostWordsDiffer(bigEndian, d[CHECK_AT], d[CHECK_AT + 1], 0, 0);
    HostWordsDiffer(bigEndian, d[CHECK_AT], d[CHECK_AT + 1], f[0], f[1]);
  }
}
