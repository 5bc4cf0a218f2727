/** Bytes, byte order and raw buffer moves, shared by every module that edits a frame or a beacon in place. */
module Bytes {

  type byte = x: int | 0 <= x < 256

  type Mac = s: seq<byte> | |s| == 6 witness [0, 0, 0, 0, 0, 0]

  datatype Option<+T> = None | Some(value: T)

  /** Two bytes in network order. */
  function Be16(hi: byte, lo: byte): (n: nat)
    ensures n < 0x1_0000
  {
    hi * 256 + lo
  }

  function PutBe16(n: nat): (s: seq<byte>)
    requires n < 0x1_0000
    ensures |s| == 2 && Be16(s[0], s[1]) == n
  {
    [n / 256, n % 256]
  }

  /** The value of the 16-bit field that `htons` produces from `n`, read back without `ntohs`. */
  function Swap16(n: nat): (m: nat)
    requires n < 0x1_0000
    ensures m < 0x1_0000
  {
    n % 256 * 256 + n / 256
  }

  /** `s` with the bytes from `at` on overwritten by `t`. */
  function Patch(s: seq<byte>, at: nat, t: seq<byte>): (r: seq<byte>)
    requires at + |t| <= |s|
    ensures |r| == |s|
  {
    s[..at] + t + s[at + |t|..]
  }

  function Zeros(n: nat): (z: seq<byte>)
    ensures |z| == n
  {
    seq(n, _ => 0)
  }

  /** A slice of a slice. */
  lemma SliceOfSlice(s: seq<byte>, a: nat, b: nat, i: nat, j: nat)
    requires a <= b <= |s| && i <= j <= b - a
    ensures s[a..b][i..j] == s[a + i..a + j]
  {
    var t, u := s[a..b][i..j], s[a + i..a + j];
    assert |t| == |u|;
    assert forall k :: 0 <= k < |t| ==> t[k] == u[k];
  }

  lemma SliceOfConcat(p: seq<byte>, q: seq<byte>, i: nat, j: nat)
    requires i <= |p| && j <= |q|
    ensures (p + q)[i..|p| + j] == p[i..] + q[..j]
  {
    var t, u := (p + q)[i..|p| + j], p[i..] + q[..j];
    assert |t| == |u|;
    assert forall k :: 0 <= k < |t| ==> t[k] == u[k];
  }

  lemma DropConcat(p: seq<byte>, q: seq<byte>, n: nat)
    requires n <= |q|
    ensures (p + q)[..|p|] == p && (p + q)[|p| + n..] == q[n..]
  {
    var t, u := (p + q)[|p| + n..], q[n..];
    assert |t| == |u|;
    assert forall k :: 0 <= k < |t| ==> t[k] == u[k];
  }

  /** A slice of a suffix. */
  lemma SliceOfSuffix(s: seq<byte>, i: nat, n: nat)
    requires i + n <= |s|
    ensures s[i..][..n] == s[i..i + n] && s[i..][n..] == s[i + n..]
  {
  }

  lemma SliceOfDrop(s: seq<byte>, a: nat, i: nat, j: nat)
    requires i <= j && a + j <= |s|
    ensures s[a..][i..j] == s[a + i..a + j]
  {
    var t, u := s[a..][i..j], s[a + i..a + j];
    assert forall k :: 0 <= k < |t| ==> t[k] == u[k];
  }

  /** What a patch leaves in front of it and behind it. */
  lemma PatchParts(s: seq<byte>, at: nat, t: seq<byte>)
    requires at + |t| <= |s|
    ensures var r := Patch(s, at, t);
            && r == s[..at] + t + s[at + |t|..]
            && r[..at] == s[..at] && r[..at + |t|] == s[..at] + t && r[at + |t|..] == s[at + |t|..]
  {
    var p := s[..at] + t;
    assert (p + s[at + |t|..])[..|p|] == p && p[..at] == s[..at];
  }

  /** A patch, byte by byte. */
  lemma PatchIs(r: seq<byte>, s: seq<byte>, at: nat, t: seq<byte>)
    requires at + |t| <= |s| == |r|
    requires forall k :: 0 <= k < at || at + |t| <= k < |s| ==> r[k] == s[k]
    requires forall k :: at <= k < at + |t| ==> r[k] == t[k - at]
    ensures r == Patch(s, at, t)
  {
    var p := Patch(s, at, t);
    forall k | 0 <= k < |s| ensures r[k] == p[k] {
      if k < at {
      } else if k < at + |t| {
        assert p[k] == t[k - at];
      } else {
        assert p[k] == s[at + |t|..][k - at - |t|];
      }
    }
  }

  /** `memcpy`, as an ascending byte copy. Also right when the regions overlap with the destination first. */
  method CopyDown(a: array<byte>, dst: nat, src: nat, n: nat)
    requires dst <= src && src + n <= a.Length
    modifies a
    ensures a[..] == Patch(old(a[..]), dst, old(a[src..src + n]))
  {
    hide Patch;
    ghost var s := a[..];
    for i := 0 to n
      invariant forall k :: 0 <= k < dst || dst + i <= k < a.Length ==> a[k] == s[k]
      invariant forall k :: dst <= k < dst + i ==> a[k] == s[k - dst + src]
    {
      a[dst + i] := a[src + i];
    }
    PatchIs(a[..], s, dst, s[src..src + n]);
  }

  /** `memmove` towards higher addresses: the copy runs from the last byte down. */
  method CopyUp(a: array<byte>, dst: nat, src: nat, n: nat)
    requires src <= dst && dst + n <= a.Length
    modifies a
    ensures a[..] == Patch(old(a[..]), dst, old(a[src..src + n]))
  {
    hide Patch;
    ghost var s := a[..];
    for i := n downto 0
      invariant forall k :: 0 <= k < dst + i || dst + n <= k < a.Length ==> a[k] == s[k]
      invariant forall k :: dst + i <= k < dst + n ==> a[k] == s[k - dst + src]
    {
      assert a[src + i] == s[src + i];
      a[dst + i] := a[src + i];
    }
    PatchIs(a[..], s, dst, s[src..src + n]);
  }

  /** `memcpy` from another buffer. */
  method Store(a: array<byte>, dst: nat, t: seq<byte>)
    requires dst + |t| <= a.Length
    modifies a
    ensures a[..] == Patch(old(a[..]), dst, t)
  {
    hide Patch;
    ghost var s := a[..];
    for i := 0 to |t|
      invariant forall k :: 0 <= k < dst || dst + i <= k < a.Length ==> a[k] == s[k]
      invariant forall k :: dst <= k < dst + i ==> a[k] == t[k - dst]
    {
      a[dst + i] := t[i];
    }
    PatchIs(a[..], s, dst, t);
  }
}
