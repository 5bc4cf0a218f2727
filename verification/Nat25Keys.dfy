/** The keys of the NAT2.5 table: which never collide, and which of their bytes the bucket depends on. */
module Nat25Keys {
  import opened Bytes
  import opened Nat25Model

  /**
   The bytes that hold the address in the keys of a protocol; with PPPoE and unknown protocols the first byte counts
   too.
   */
  predicate InAddress(family: byte, i: nat) {
    match family
    case 1 => 7 <= i <= 10
    case 2 => 1 <= i <= 16
    case 3 => 1 <= i <= 10
    case 4 => 1 <= i <= 3
    case 5 => 0 <= i <= 8
    case _ => 0 <= i <= 16
  }

  function Xor(x: byte, y: byte): bv8 {
    (x as bv8) ^ (y as bv8)
  }

  lemma Regroup(x: bv8, y: bv8, r: bv8, q: bv8)
    ensures y ^ r == (x ^ r) ^ (x ^ y)
    ensures x ^ (r ^ q) == (x ^ r) ^ q
    ensures r ^ 0 == r
  {
  }

  lemma {:induction false} XorUpdated(a: seq<byte>, lo: nat, hi: nat, i: nat, v: byte)
    requires lo <= hi <= |a| && i < |a|
    ensures XorRange(a[i := v], lo, hi) == XorRange(a, lo, hi) ^ (if lo <= i < hi then Xor(a[i], v) else 0)
    decreases hi - lo
  {
    if lo == hi {
      Regroup(0, 0, XorRange(a, lo, hi), 0);
    } else {
      XorUpdated(a, lo + 1, hi, i, v);
      var r := XorRange(a, lo + 1, hi);
      if i == lo {
        Regroup(a[lo] as bv8, v as bv8, r, 0);
      } else {
        Regroup(a[lo] as bv8, 0, r, if lo + 1 <= i < hi then Xor(a[i], v) else 0);
      }
    }
  }

  lemma LowBits(x: bv8, y: bv8)
    ensures x & 0xF == (x ^ y) & 0xF <==> y & 0xF == 0
  {
  }

  lemma BucketsDiffer(x: bv8, y: bv8)
    ensures (x & 0xF) as int == (y & 0xF) as int <==> x & 0xF == y & 0xF
  {
  }

  /**
   Changing one byte of a key changes its bucket exactly if the byte is one of the address and its low half changes.
   */
  lemma BucketSees(a: NetAddr, i: nat, v: byte)
    requires 0 < i < 17
    ensures NetworkHash(a[i := v]) == NetworkHash(a) <==> !InAddress(a[0], i) || Xor(a[i], v) & 0xF == 0
  {
    hide XorRange, Xor;
    var r := HashRange(a[0]);
    XorUpdated(a, r.0, r.1, i, v);
    var x, y := XorRange(a, r.0, r.1), if r.0 <= i < r.1 then Xor(a[i], v) else 0;
    LowBits(x, y);
    BucketsDiffer(x, x ^ y);
    assert a[i := v][0] == a[0];
  }

  lemma {:induction false} XorOfZeros(a: seq<byte>, lo: nat, hi: nat)
    requires lo <= hi <= |a| && forall k :: lo <= k < hi ==> a[k] == 0
    ensures XorRange(a, lo, hi) == 0
    decreases hi - lo
  {
    if lo < hi {
      XorOfZeros(a, lo + 1, hi);
      Regroup(0, 0, 0, 0);
    }
  }

  lemma FirstByte(a: seq<byte>, hi: nat)
    requires 0 < hi <= |a|
    ensures XorRange(a, 0, hi) == (a[0] as bv8) ^ XorRange(a, 1, hi)
  {
  }

  /** The bucket of a key without address bytes: zero, or the low half of the protocol byte. */
  lemma EmptyBucket(family: byte)
    ensures NetworkHash([family] + Zeros(16)) == if family in {1, 2, 3, 4} then 0 else ((family as bv8) & 0xF) as int
  {
    hide XorRange;
    var a, r := [family] + Zeros(16), HashRange(family);
    assert a[0] == family && forall k :: 0 < k < 17 ==> a[k] == 0;
    XorOfZeros(a, if r.0 == 0 then 1 else r.0, r.1);
    FirstByte(a, r.1);
    Regroup(0, 0, family as bv8, 0);
  }

  /**
   Network addresses of different protocols never collide, and within one protocol the address fields can be read back.
   */
  lemma KeysAreDistinct(ip: seq<byte>, ip': seq<byte>, net: seq<byte>, node: byte, net': seq<byte>, node': byte,
                        ac: Mac, sid: seq<byte>, ac': Mac, sid': seq<byte>)
    requires |ip| == |ip'| == 4 && |net| == |net'| == |sid| == |sid'| == 2
    ensures Ipv4Addr(ip) == Ipv4Addr(ip') <==> ip == ip'
    ensures AppleAddr(net, node) == AppleAddr(net', node') <==> net == net' && node == node'
    ensures PppoeAddr(ac, sid) == PppoeAddr(ac', sid') <==> ac == ac' && sid == sid'
    ensures Ipv4Addr(ip) != AppleAddr(net, node)
    ensures Ipv4Addr(ip) != PppoeAddr(ac, sid)
    ensures AppleAddr(net, node) != PppoeAddr(ac, sid)
  {
    var a, a' := Ipv4Addr(ip), Ipv4Addr(ip');
    assert a[7..11] == ip && a'[7..11] == ip' && a[0] == NAT25_IPV4;
    var b, b' := AppleAddr(net, node), AppleAddr(net', node');
    assert b[1..3] == net && b'[1..3] == net' && b[3] == node && b'[3] == node' && b[0] == NAT25_APPLE;
    var c, c' := PppoeAddr(ac, sid), PppoeAddr(ac', sid');
    assert c[1..3] == sid && c'[1..3] == sid' && c[3..9] == ac && c'[3..9] == ac' && c[0] == NAT25_PPPOE;
  }

  /** The two IPX keys share one family byte: a node key is a socket key when the node's last four bytes are zero. */
  lemma IpxKeysCollide(net: seq<byte>, node: seq<byte>, net': seq<byte>, socket: seq<byte>)
    requires |net| == |net'| == 4 && |node| == 6 && |socket| == 2
    ensures IpxNodeAddr(net, node) == IpxSocketAddr(net', socket) <==> net == net' && node == socket + Zeros(4)
  {
    var a, b := IpxNodeAddr(net, node), IpxSocketAddr(net', socket);
    assert a[1..5] == net && a[5..11] == node && a[11..] == Zeros(6);
    assert b[1..5] == net' && b[5..11] == socket + Zeros(4) && b[11..] == Zeros(6);
    if net == net' && node == socket + Zeros(4) {
      assert a == a[..1] + a[1..5] + a[5..11] + a[11..];
      assert b == b[..1] + b[1..5] + b[5..11] + b[11..];
      assert a[..1] == b[..1];
    }
  }
}
