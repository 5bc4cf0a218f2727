/** The PPPoE cases of `nat25_db_handle` in `rtw_br_ext.c`, editing the frame in its socket buffer. */
module PppoeRelay {
  import opened Bytes
  import opened Tlv
  import opened PppoeTags

  const ETH_ALEN := 6
  const ETH_HLEN := 14
  /** Offsets of the discovery header's fields and of its first tag. */
  const CODE_AT := 15
  const SID_AT := 16
  const LENGTH_AT := 18
  const TAGS_AT := 20

  const PADI_CODE: byte := 0x09
  const PADO_CODE: byte := 0x07
  const PADR_CODE: byte := 0x19
  const PADS_CODE: byte := 0x65

  /** What the host takes for the whole length of a tag. */
  function LengthRead(t: Item, bigEndian: bool): nat
    requires PppoeTag.Ok(t)
  {
    (if bigEndian then |t.data| else Swap16(|t.data|)) + TAG_HDR_LEN
  }

  /** The first `n` bytes of a tag and what lies behind it in memory, in front of the other tags. */
  function Led(t: Item, behind: seq<byte>, n: nat, rest: seq<Item>): seq<byte>
    requires n <= |EncodeItem(PppoeTag, t)| + |behind|
  {
    (EncodeItem(PppoeTag, t) + behind)[..n] + EncodeTags(rest)
  }

  /** The tags after they moved up, the length field was rewritten and the new tag was copied in front. */
  lemma OpenGap(s0: seq<byte>, s1: seq<byte>, s2: seq<byte>, t: seq<byte>, n: nat)
    requires |s0| == |s1| == |s2| && TAGS_AT + |t| + n <= |s0|
    requires s1 == Patch(s0, TAGS_AT + |t|, s0[TAGS_AT..TAGS_AT + n])
    requires s2[..LENGTH_AT] == s1[..LENGTH_AT] && s2[TAGS_AT..] == s1[TAGS_AT..]
    ensures var s3 := Patch(s2, TAGS_AT, t);
            && s3[..LENGTH_AT] == s0[..LENGTH_AT] && s3[LENGTH_AT..TAGS_AT] == s2[LENGTH_AT..TAGS_AT]
            && s3[TAGS_AT..TAGS_AT + |t| + n] == t + s0[TAGS_AT..TAGS_AT + n]
  {
    var s3 := Patch(s2, TAGS_AT, t);
    assert s3[..LENGTH_AT] == s2[..LENGTH_AT] == s1[..LENGTH_AT] == s0[..LENGTH_AT];
    assert s3[TAGS_AT + |t|..] == s2[TAGS_AT..][|t|..] == s1[TAGS_AT + |t|..];
    assert s1[TAGS_AT + |t|..TAGS_AT + |t| + n] == s0[TAGS_AT..TAGS_AT + n];
    assert s3[TAGS_AT..TAGS_AT + |t| + n] == s3[TAGS_AT..TAGS_AT + |t|] + s3[TAGS_AT + |t|..][..n];
  }

  lemma HeaderInFrame(s: seq<byte>, b: seq<byte>, o: nat)
    requires TAGS_AT + |b| <= |s| && s[TAGS_AT..TAGS_AT + |b|] == b && o + TAG_HDR_LEN <= |b|
    ensures b[o] == s[TAGS_AT + o] && b[o + 1] == s[TAGS_AT + o + 1]
    ensures b[o + 2] == s[TAGS_AT + o + 2] && b[o + 3] == s[TAGS_AT + o + 3]
  {
  }

  lemma OldRelayIs(ts: seq<Item>)
    ensures var k := First(ts, PTT_RELAY_SID);
            OldRelay(ts) == (if k < |ts| then ts[k].data else []) && (k == |ts| ==> Without(ts, k) == ts)
  {
    hide First;
  }

  lemma SameLength(s: seq<byte>, t: seq<byte>)
    requires |s| >= TAGS_AT && |t| >= TAGS_AT && s[LENGTH_AT..TAGS_AT] == t[LENGTH_AT..TAGS_AT]
    ensures s[LENGTH_AT] == t[LENGTH_AT] && s[LENGTH_AT + 1] == t[LENGTH_AT + 1]
  {
    assert s[LENGTH_AT..TAGS_AT][0] == t[LENGTH_AT..TAGS_AT][0] && s[LENGTH_AT..TAGS_AT][1] == t[LENGTH_AT..TAGS_AT][1];
  }

  /** Where tag k is in a frame that holds the tags, and what its bytes are. */
  lemma TagInFrame(s: seq<byte>, ts: seq<Item>, k: nat)
    requires AllOk(PppoeTag, ts) && k < |ts|
    requires TAGS_AT + |EncodeTags(ts)| <= |s| && s[TAGS_AT..TAGS_AT + |EncodeTags(ts)|] == EncodeTags(ts)
    ensures var o, n := Offset(PppoeTag, ts, k), |ts[k].data|;
            var p := TAGS_AT + o;
            && o + TAG_HDR_LEN + n <= |EncodeTags(ts)|
            && Be16(s[p], s[p + 1]) == ts[k].kind && Be16(s[p + 2], s[p + 3]) == n
            && s[p + TAG_HDR_LEN..p + TAG_HDR_LEN + n] == ts[k].data
            && Offset(PppoeTag, ts, k + 1) == o + TAG_HDR_LEN + n
  {
    hide Encode, Offset;
    ItemAt(PppoeTag, ts, k);
    var b, o, n := EncodeTags(ts), Offset(PppoeTag, ts, k), |ts[k].data|;
    HeaderInFrame(s, b, o);
    SliceOfSlice(s, TAGS_AT, TAGS_AT + |b|, o + TAG_HDR_LEN, o + TAG_HDR_LEN + n);
  }

  lemma PrefixSlices(s: seq<byte>, t: seq<byte>)
    requires |s| >= LENGTH_AT && |t| >= LENGTH_AT && s[..LENGTH_AT] == t[..LENGTH_AT]
    ensures s[..ETH_ALEN] == t[..ETH_ALEN] && s[ETH_ALEN..LENGTH_AT] == t[ETH_ALEN..LENGTH_AT]
    ensures s[ETH_ALEN..2 * ETH_ALEN] == t[ETH_ALEN..2 * ETH_ALEN]
  {
    SliceOfSlice(s, 0, LENGTH_AT, 0, ETH_ALEN);
    SliceOfSlice(t, 0, LENGTH_AT, 0, ETH_ALEN);
    SliceOfSlice(s, 0, LENGTH_AT, ETH_ALEN, LENGTH_AT);
    SliceOfSlice(t, 0, LENGTH_AT, ETH_ALEN, LENGTH_AT);
    SliceOfSlice(s, 0, LENGTH_AT, ETH_ALEN, 2 * ETH_ALEN);
    SliceOfSlice(t, 0, LENGTH_AT, ETH_ALEN, 2 * ETH_ALEN);
  }

  /** Overwriting the destination address. */
  lemma NewDestination(s: seq<byte>, mac: seq<byte>, n: nat)
    requires |mac| == ETH_ALEN && TAGS_AT + n <= |s|
    ensures var r := Patch(s, 0, mac);
            && r[..ETH_ALEN] == mac && r[ETH_ALEN..LENGTH_AT] == s[ETH_ALEN..LENGTH_AT]
            && r[LENGTH_AT] == s[LENGTH_AT] && r[LENGTH_AT + 1] == s[LENGTH_AT + 1]
            && r[TAGS_AT..TAGS_AT + n] == s[TAGS_AT..TAGS_AT + n]
  {
    var r := Patch(s, 0, mac);
    assert r == mac + s[ETH_ALEN..];
    assert forall k :: ETH_ALEN <= k < |s| ==> r[k] == s[k];
    var t, u := r[TAGS_AT..TAGS_AT + n], s[TAGS_AT..TAGS_AT + n];
    assert forall k :: 0 <= k < n ==> t[k] == u[k];
    var v, w := r[ETH_ALEN..LENGTH_AT], s[ETH_ALEN..LENGTH_AT];
    assert forall k :: 0 <= k < |v| ==> v[k] == w[k];
  }

  lemma ShorterIsOk(ts: seq<Item>, k: nat, n: nat)
    requires AllOk(PppoeTag, ts) && k < |ts| && n <= |ts[k].data|
    ensures AllOk(PppoeTag, ts[k := Item(ts[k].kind, ts[k].data[n..])])
  {
  }

  /** Of the lengths a relay tag can have, none reads the same in either byte order. */
  lemma LengthIsRight(t: Item, bigEndian: bool)
    requires PppoeTag.Ok(t) && 0 < |t.data| <= TAG_BUF
    ensures LengthRead(t, bigEndian) == |EncodeItem(PppoeTag, t)| <==> bigEndian
  {
  }

  lemma FirstWord(s: seq<byte>, at: nat, d: seq<byte>)
    requires 2 <= |d| && at + |d| <= |s| && s[at..at + |d|] == d
    ensures s[at] == d[0] && s[at + 1] == d[1]
  {
  }

  lemma PatchTags(s: seq<byte>, n: nat, at: nat, t: seq<byte>)
    requires at + |t| <= n && TAGS_AT + n <= |s|
    ensures var r := Patch(s, TAGS_AT + at, t);
            && r[..TAGS_AT] == s[..TAGS_AT] && r[..LENGTH_AT] == s[..LENGTH_AT]
            && r[LENGTH_AT] == s[LENGTH_AT] && r[LENGTH_AT + 1] == s[LENGTH_AT + 1]
            && r[TAGS_AT..TAGS_AT + n] == Patch(s[TAGS_AT..TAGS_AT + n], at, t)
  {
    var r, b := Patch(s, TAGS_AT + at, t), s[TAGS_AT..TAGS_AT + n];
    assert forall k :: 0 <= k < TAGS_AT + at ==> r[k] == s[k];
    assert forall k :: 0 <= k < |t| ==> r[TAGS_AT + at + k] == t[k];
    assert forall k :: TAGS_AT + at + |t| <= k < |s| ==> r[k] == s[k];
    hide Patch;
    PatchIs(r[TAGS_AT..TAGS_AT + n], b, at, t);
  }

  /** The bytes behind the first `base`, of a sequence that starts with p and then q. */
  lemma TagsOfConcat(s: seq<byte>, p: seq<byte>, q: seq<byte>, base: nat, m: nat)
    requires base <= |p| && m <= |q| && |p| + |q| <= |s| && s[..|p| + |q|] == p + q
    ensures s[base..|p| + m] == p[base..] + q[..m]
  {
    SliceOfSlice(s, 0, |p| + |q|, base, |p| + m);
    SliceOfConcat(p, q, base, m);
  }

  lemma SamePrefix(s: seq<byte>, t: seq<byte>, n: nat, k: nat)
    requires k <= n <= |s| && n <= |t| && s[0..n] == t[..n]
    ensures s[..k] == t[..k]
  {
    assert s[..k] == s[0..n][..k];
  }

  lemma TwoParts(s: seq<byte>, base: nat, at: nat, n: nat, length: nat, used: nat)
    requires at + n <= length && base + length <= used <= |s|
    ensures var b := s[base..base + length];
            && s[..base + at][base..] == b[..at]
            && s[base + at + n..used][..length - n - at] == b[at + n..]
  {
    SliceOfSlice(s, base, base + length, 0, at);
    SliceOfSlice(s, base, base + length, at + n, length);
    SliceOfSlice(s, base + at + n, used, 0, length - n - at);
    SliceOfSlice(s, 0, base + at, base, base + at);
  }

  lemma CloseGap(s0: seq<byte>, s1: seq<byte>, at: nat, n: nat, length: nat, used: nat)
    requires at + n <= length && TAGS_AT + length <= used <= |s0| == |s1|
    requires s1[..used - n] == s0[..TAGS_AT + at] + s0[TAGS_AT + at + n..used]
    ensures s1[..LENGTH_AT] == s0[..LENGTH_AT]
    ensures var b := s0[TAGS_AT..TAGS_AT + length]; s1[TAGS_AT..][..length - n] == b[..at] + b[at + n..]
  {
    var p, q, m := s0[..TAGS_AT + at], s0[TAGS_AT + at + n..used], length - n - at;
    TagsOfConcat(s1, p, q, 0, 0);
    SamePrefix(s1, s0, TAGS_AT + at, LENGTH_AT);
    TagsOfConcat(s1, p, q, TAGS_AT, m);
    SliceOfSuffix(s1, TAGS_AT, length - n);
    TwoParts(s0, TAGS_AT, at, n, length, used);
  }

  /** The frame before the cut, after the bytes were taken out, and with the length field corrected. */
  lemma TagsAreCut(s0: seq<byte>, s1: seq<byte>, s2: seq<byte>, at: nat, n: nat, length: nat, used: nat)
    requires at + n <= length && TAGS_AT + length <= used <= |s0| == |s1| == |s2|
    requires s1[..used - n] == s0[..TAGS_AT + at] + s0[TAGS_AT + at + n..used]
    requires s2[..LENGTH_AT] == s1[..LENGTH_AT] && s2[TAGS_AT..] == s1[TAGS_AT..]
    ensures s2[..LENGTH_AT] == s0[..LENGTH_AT]
    ensures var b := s0[TAGS_AT..TAGS_AT + length];
            s2[TAGS_AT..TAGS_AT + (length - n)] == b[..at] + b[at + n..]
  {
    CloseGap(s0, s1, at, n, length, used);
    SliceOfSuffix(s2, TAGS_AT, length - n);
  }

  /**
   `struct sk_buff` of a frame: `data` from the Ethernet header to the end of the buffer, of which `len` bytes are in
   use.
   */
  class SkBuff {
    const data: array<byte>
    var len: nat

    ghost predicate Valid()
      reads this
    {
      len <= data.Length < 0x1_0000
    }

    constructor (data: array<byte>, len: nat)
      requires len <= data.Length < 0x1_0000
      ensures Valid() && this.data == data && this.len == len
    {
      this.data := data;
      this.len := len;
    }

    function Tailroom(): nat
      requires Valid()
      reads this
    {
      data.Length - len
    }

    function HeaderLength(): nat
      requires data.Length >= TAGS_AT
      reads data
    {
      Be16(data[LENGTH_AT], data[LENGTH_AT + 1])
    }

    /** The frame is a discovery frame whose length field covers exactly the tags `ts`. */
    ghost predicate Holds(ts: seq<Item>)
      requires Valid()
      reads this, data
    {
      && AllOk(PppoeTag, ts)
      && TAGS_AT <= len
      && TAGS_AT + HeaderLength() <= len
      && data[TAGS_AT..TAGS_AT + HeaderLength()] == EncodeTags(ts)
    }

    method SetHeaderLength(n: nat)
      requires data.Length >= TAGS_AT && n < 0x1_0000
      modifies data
      ensures HeaderLength() == n
      ensures data[..LENGTH_AT] == old(data[..LENGTH_AT]) && data[TAGS_AT..] == old(data[TAGS_AT..])
    {
      data[LENGTH_AT] := n / 256;
      data[LENGTH_AT + 1] := n % 256;
    }

    /** The bytes that the length field covers. */
    ghost predicate Shows(b: seq<byte>)
      requires Valid()
      reads this, data
    {
      TAGS_AT <= len && TAGS_AT + HeaderLength() <= len && data[TAGS_AT..TAGS_AT + HeaderLength()] == b
    }

    /** `__nat25_find_pppoe_tag` */
    method FindTag(kind: nat, ghost ts: seq<Item>) returns (p: Option<nat>)
      requires Valid() && Holds(ts)
      ensures var k := First(ts, kind);
              p == if k < |ts| then Some(TAGS_AT + Offset(PppoeTag, ts, k)) else None
    {
      hide Encode, First;
      var cur := TAGS_AT;
      ghost var k := 0;
      OffsetEnd(PppoeTag, ts);
      OffsetZero(PppoeTag, ts);
      while cur - TAGS_AT < HeaderLength()
        invariant 0 <= k <= |ts| && cur == TAGS_AT + Offset(PppoeTag, ts, k)
        invariant forall j :: 0 <= j < k ==> ts[j].kind != kind
        decreases |ts| - k
      {
        TagInFrame(data[..], ts, k);
        var tagType := Be16(data[cur], data[cur + 1]);
        var tagLen := Be16(data[cur + 2], data[cur + 3]);
        if tagType == kind {
          FirstIs(ts, kind, k);
          return Some(cur);
        }
        cur := cur + TAG_HDR_LEN + tagLen;
        k := k + 1;
      }
      if k < |ts| {
        TagInFrame(data[..], ts, k);
      }
      FirstIs(ts, kind, k);
      return None;
    }

    /** `skb_pull_and_merge`: takes `n` bytes out at `src`, closing the gap from the frame's tail. */
    method PullAndMerge(src: nat, n: nat) returns (ret: int)
      requires Valid()
      modifies this, data
      ensures Valid() && ret == if src + n <= old(len) then 0 else -1
      ensures ret == 0 ==> len == old(len) - n && data[..len] == old(data[..src]) + old(data[src + n..len])
      ensures ret < 0 ==> len == old(len) && data[..] == old(data[..])
    {
      if src + n > len || len < n {
        return -1;
      }
      var end, tail := src + n, len;
      var tailLen := tail - end;
      CopyDown(data, src, end, tailLen);
      len := len - n;
      return 0;
    }

    /**
     `__nat25_add_pppoe_tag`. Line 110 takes `tag->tag_len` in the host's byte order, so a little-endian host asks for
     far too much room, and if there is that much, copies what lies `behind` the tag in memory along with it.
     */
    method AddTag(t: Item, bigEndian: bool, behind: seq<byte>) returns (ret: int)
      requires Valid() && TAGS_AT <= len && TAGS_AT + HeaderLength() <= len
      requires PppoeTag.Ok(t) && |behind| >= 0x1_0000
      modifies this, data
      ensures Valid()
      ensures ret == if old(Tailroom()) >= LengthRead(t, bigEndian) then LengthRead(t, bigEndian) else -1
      ensures ret < 0 ==> len == old(len) && data[..] == old(data[..])
      ensures ret >= 0 ==>
                && ret <= |EncodeItem(PppoeTag, t)| + |behind| && len == old(len) + ret
                && data[..LENGTH_AT] == old(data[..LENGTH_AT])
                && HeaderLength() == old(HeaderLength()) + ret && TAGS_AT + HeaderLength() <= len
                && data[TAGS_AT..TAGS_AT + HeaderLength()] ==
                   (EncodeItem(PppoeTag, t) + behind)[..ret] + old(data[TAGS_AT..TAGS_AT + HeaderLength()])
    {
      hide Patch, EncodeItem, Be16;
      var dataLen := LengthRead(t, bigEndian);
      if Tailroom() < dataLen {
        return -1;
      }
      var n, memory := HeaderLength(), EncodeItem(PppoeTag, t) + behind;
      len := len + dataLen;
      ghost var s0 := data[..];
      CopyUp(data, TAGS_AT + dataLen, TAGS_AT, n);
      ghost var s1 := data[..];
      SetHeaderLength(n + dataLen);
      ghost var s2 := data[..];
      Store(data, TAGS_AT, memory[..dataLen]);
      OpenGap(s0, s1, s2, memory[..dataLen], n);
      ghost var s3 := data[..];
      SameLength(s3, s2);
      assert HeaderLength() == n + dataLen;
      assert data[..LENGTH_AT] == s3[..LENGTH_AT];
      assert data[TAGS_AT..TAGS_AT + dataLen + n] == s3[TAGS_AT..TAGS_AT + dataLen + n];
      assert old(data[TAGS_AT..TAGS_AT + HeaderLength()]) == s0[TAGS_AT..TAGS_AT + n];
      return dataLen;
    }

    /** Takes `n` bytes out of the tag area, `at` bytes into it, and out of the length field. */
    method CutTags(at: nat, n: nat) returns (ret: int)
      requires Valid() && TAGS_AT <= len && TAGS_AT + HeaderLength() <= len && at + n <= HeaderLength()
      modifies this, data
      ensures Valid() && ret == 0 && len == old(len) - n
      ensures data[..LENGTH_AT] == old(data[..LENGTH_AT])
      ensures HeaderLength() == old(HeaderLength()) - n && TAGS_AT + HeaderLength() <= len
      ensures var b := old(data[TAGS_AT..TAGS_AT + HeaderLength()]);
              data[TAGS_AT..TAGS_AT + HeaderLength()] == b[..at] + b[at + n..]
    {
      hide HeaderLength;
      var length := HeaderLength();
      ghost var s0, used := data[..], len;
      ret := PullAndMerge(TAGS_AT + at, n);
      ghost var s1 := data[..];
      assert s1[..used - n] == s0[..TAGS_AT + at] + s0[TAGS_AT + at + n..used];
      SetHeaderLength(length - n);
      TagsAreCut(s0, s1, data[..], at, n, length, used);
    }

    /** Takes a whole tag out. */
    method CutTag(at: nat, n: nat, ghost ts: seq<Item>, ghost k: nat) returns (ret: int)
      requires Valid() && Holds(ts) && k < |ts| && at == Offset(PppoeTag, ts, k) && n == TAG_HDR_LEN + |ts[k].data|
      modifies this, data
      ensures Valid() && ret == 0 && Holds(Without(ts, k))
      ensures len == old(len) + |EncodeTags(Without(ts, k))| - |EncodeTags(ts)|
      ensures data[..LENGTH_AT] == old(data[..LENGTH_AT])
    {
      hide Encode, Without, EncodeTags, Offset, Be16, AllOk;
      WithoutOk(PppoeTag, ts, k);
      TagsWithout(ts, k);
      ret := CutTags(at, n);
    }

    /** Copies the data of an earlier relay's tag, if there is one, and takes the tag out of the frame. */
    method TakeOldRelay(ghost ts: seq<Item>) returns (ret: int, d: seq<byte>)
      requires Valid() && Holds(ts)
      modifies this, data
      ensures Valid()
      ensures ret == if Fits(OldRelay(ts)) then 0 else -1
      ensures ret < 0 ==> len == old(len) && data[..] == old(data[..])
      ensures var rest := Without(ts, First(ts, PTT_RELAY_SID));
              ret == 0 ==> d == OldRelay(ts) && Holds(rest) && len == old(len) + |EncodeTags(rest)| - |EncodeTags(ts)|
      ensures data[..LENGTH_AT] == old(data[..LENGTH_AT])
    {
      hide Encode, First, Without, EncodeTags, Offset, Be16, OldRelay, AllOk;
      ghost var k := First(ts, PTT_RELAY_SID);
      OldRelayIs(ts);
      d := [];
      var oldTag := FindTag(PTT_RELAY_SID, ts);
      if oldTag == None {
        return 0, d;
      }
      TagInFrame(data[..], ts, k);
      var p := oldTag.value;
      var dLen := Be16(data[p + 2], data[p + 3]);
      if dLen + TAG_HDR_LEN + MAGIC_CODE_LEN + RTL_RELAY_TAG_LEN > TAG_BUF {
        return -1, d;
      }
      d := data[p + TAG_HDR_LEN..p + TAG_HDR_LEN + dLen];
      ret := CutTag(p - TAGS_AT, TAG_HDR_LEN + dLen, ts, k);
    }

    predicate Asked(ts: seq<Item>)
      requires data.Length >= TAGS_AT
      reads data
    {
      data[CODE_AT] in [PADI_CODE, PADR_CODE] && Fits(OldRelay(ts))
    }

    /** The relay tag in front of the others. */
    method AddRelayTag(t: Item, bigEndian: bool, behind: seq<byte>, ghost rest: seq<Item>) returns (ret: int)
      requires Valid() && Holds(rest) && PppoeTag.Ok(t) && |behind| >= 0x1_0000
      requires MAGIC_CODE_LEN + RTL_RELAY_TAG_LEN <= |t.data| <= TAG_BUF
      modifies this, data
      ensures Valid() && data[..LENGTH_AT] == old(data[..LENGTH_AT])
      ensures ret == if old(Tailroom()) >= LengthRead(t, bigEndian) then 0 else -1
      ensures ret != 0 ==> Holds(rest) && len == old(len)
      ensures ret == 0 ==>
                && len == old(len) + LengthRead(t, bigEndian) && (Holds([t] + rest) <==> bigEndian)
                && Shows(Led(t, behind, LengthRead(t, bigEndian), rest))
    {
      hide Encode, EncodeItem, Be16, LengthRead;
      LengthIsRight(t, bigEndian);
      EncodeCons(PppoeTag, t, rest);
      assert forall k :: 0 <= k < |rest| ==> ([t] + rest)[k + 1] == rest[k];
      ret := AddTag(t, bigEndian, behind);
      if ret >= 0 && bigEndian {
        DropConcat(EncodeItem(PppoeTag, t), behind, 0);
      }
      ret := if ret < 0 then -1 else 0;
    }

    /**
     NAT25_INSERT of a discovery frame, with `addPPPoETag` set. The frame comes out with the relay tag added exactly
     when there is room and the host is big-endian.
     */
    method InsertDiscovery(bigEndian: bool, behind: seq<byte>, ghost ts: seq<Item>) returns (ret: int)
      requires Valid() && Holds(ts) && data[SID_AT] == data[SID_AT + 1] == 0 && |behind| >= 0x1_0000
      modifies this, data
      ensures Valid()
      ensures !old(Asked(ts)) ==> ret == -1 && len == old(len) && data[..] == old(data[..])
      ensures old(Asked(ts)) ==>
                var sent := AddRelay(ts, old(data[ETH_ALEN..2 * ETH_ALEN]));
                var rest, n := sent[1..], LengthRead(sent[0], bigEndian);
                && (ret == 0 <==> n + |EncodeTags(rest)| <= |EncodeTags(ts)| + old(Tailroom()))
                && (ret != 0 ==> ret == -1 && Holds(rest) && len == old(len) + |EncodeTags(rest)| - |EncodeTags(ts)|)
                && (ret == 0 ==>
                      && len == old(len) + n + |EncodeTags(rest)| - |EncodeTags(ts)|
                      && (Holds(sent) <==> bigEndian)
                      && Shows(Led(sent[0], behind, n, rest)))
      ensures data[..LENGTH_AT] == old(data[..LENGTH_AT])
    {
      hide Encode, First, EncodeItem, EncodeTags, AddRelay, OldRelay, RelayData, LengthRead, Without, Be16;
      var code := data[CODE_AT];
      if code != PADI_CODE && code != PADR_CODE {
        return -1;
      }
      var d;
      ret, d := TakeOldRelay(ts);
      if ret < 0 {
        return -1;
      }
      PrefixSlices(data[..], old(data[..]));
      SentTags(ts, data[ETH_ALEN..2 * ETH_ALEN]);
      ret := AddRelayTag(RelayTag(RelayData(data[ETH_ALEN..2 * ETH_ALEN], d)), bigEndian, behind,
        Without(ts, First(ts, PTT_RELAY_SID)));
    }

    /** The client's address in the tag becomes the destination. */
    method ReturnToClient(ghost ts: seq<Item>, ghost k: nat, ptr: nat)
      requires Valid() && Holds(ts) && k < |ts| && ptr == TAGS_AT + Offset(PppoeTag, ts, k)
      requires |ts[k].data| >= MAGIC_CODE_LEN + RTL_RELAY_TAG_LEN
      modifies data
      ensures Holds(ts)
      ensures data[..ETH_ALEN] == ts[k].data[2..8] && data[ETH_ALEN..LENGTH_AT] == old(data[ETH_ALEN..LENGTH_AT])
    {
      hide Encode, EncodeTags, Offset, Patch, Be16;
      TagInFrame(data[..], ts, k);
      ghost var s0 := data[..];
      var mac := data[ptr + TAG_HDR_LEN + MAGIC_CODE_LEN..ptr + TAG_HDR_LEN + MAGIC_CODE_LEN + ETH_ALEN];
      SliceOfSlice(s0, ptr + TAG_HDR_LEN, ptr + TAG_HDR_LEN + |ts[k].data|, 2, 8);
      ghost var n := HeaderLength();
      NewDestination(s0, mac, n);
      Store(data, 0, mac);
      ghost var s1 := data[..];
      assert HeaderLength() == n;
      assert data[TAGS_AT..TAGS_AT + n] == s1[TAGS_AT..TAGS_AT + n] && data[..ETH_ALEN] == s1[..ETH_ALEN];
      assert data[ETH_ALEN..LENGTH_AT] == s1[ETH_ALEN..LENGTH_AT];
    }

    method SetTagLength(at: nat, n: nat)
      requires data.Length >= TAGS_AT && n < 0x1_0000
      requires at + 2 <= HeaderLength() && TAGS_AT + HeaderLength() <= data.Length
      modifies data
      ensures data[..LENGTH_AT] == old(data[..LENGTH_AT]) && HeaderLength() == old(HeaderLength())
      ensures data[TAGS_AT..TAGS_AT + HeaderLength()] ==
              Patch(old(data[TAGS_AT..TAGS_AT + HeaderLength()]), at, PutBe16(n))
    {
      hide Patch, PutBe16;
      PatchTags(data[..], HeaderLength(), at, PutBe16(n));
      Store(data, TAGS_AT + at, PutBe16(n));
    }

    /** Takes the bridge's part out of the relay tag, or the whole tag when nothing else is in it. */
    method CutRelay(ghost ts: seq<Item>, ghost k: nat, ptr: nat, tagLen: nat) returns (ret: int)
      requires Valid() && Holds(ts) && k < |ts| && ptr == TAGS_AT + Offset(PppoeTag, ts, k)
      requires tagLen == |ts[k].data| >= MAGIC_CODE_LEN + RTL_RELAY_TAG_LEN
      modifies this, data
      ensures Valid()
      ensures var us := if tagLen > 8 then ts[k := Item(ts[k].kind, ts[k].data[8..])] else Without(ts, k);
              ret == 0 && Holds(us) && len == old(len) + |EncodeTags(us)| - |EncodeTags(ts)|
      ensures data[..LENGTH_AT] == old(data[..LENGTH_AT])
    {
      hide Encode, EncodeItem, EncodeTags, Offset, Without, Patch;
      WithoutOk(PppoeTag, ts, k);
      TagsWithout(ts, k);
      EncodeShorter(ts, k, MAGIC_CODE_LEN + RTL_RELAY_TAG_LEN);
      var offset := if tagLen > MAGIC_CODE_LEN + RTL_RELAY_TAG_LEN then TAG_HDR_LEN else 0;
      ret := CutTags(ptr - TAGS_AT + offset, TAG_HDR_LEN + MAGIC_CODE_LEN + RTL_RELAY_TAG_LEN - offset);
      if offset > 0 {
        SetTagLength(ptr + 2 - TAGS_AT, tagLen - MAGIC_CODE_LEN - RTL_RELAY_TAG_LEN);
        ShorterIsOk(ts, k, MAGIC_CODE_LEN + RTL_RELAY_TAG_LEN);
      }
    }

    /** The second half of the lookup, once the relay tag at `ptr` is known to be the bridge's own. */
    method StripFound(ghost ts: seq<Item>, ghost k: nat, ptr: nat, tagLen: nat) returns (ret: int)
      requires Valid() && Holds(ts) && k < |ts| && ptr == TAGS_AT + Offset(PppoeTag, ts, k)
      requires tagLen == |ts[k].data| >= MAGIC_CODE_LEN + RTL_RELAY_TAG_LEN
      modifies this, data
      ensures Valid()
      ensures var us := if tagLen > 8 then ts[k := Item(ts[k].kind, ts[k].data[8..])] else Without(ts, k);
              && ret == 0 && Holds(us) && len == old(len) + |EncodeTags(us)| - |EncodeTags(ts)|
              && data[..ETH_ALEN] == ts[k].data[2..8] && data[ETH_ALEN..LENGTH_AT] == old(data[ETH_ALEN..LENGTH_AT])
    {
      hide Encode, EncodeTags, Offset, Without, Be16;
      ReturnToClient(ts, k, ptr);
      ghost var s1 := data[..];
      ret := CutRelay(ts, k, ptr, tagLen);
      PrefixSlices(data[..], s1);
    }

    /** NAT25_LOOKUP of an offer or a session confirmation, with `addPPPoETag` set. */
    method LookupDiscovery(ghost ts: seq<Item>) returns (ret: int)
      requires Valid() && Holds(ts) && data[CODE_AT] in [PADO_CODE, PADS_CODE]
      modifies this, data
      ensures Valid()
      ensures ret == if CarriesMagic(ts) then 0 else -1
      ensures ret < 0 ==> len == old(len) && data[..] == old(data[..])
      ensures match StripRelay(ts)
              case None => ret == -1 && len == old(len) && data[..] == old(data[..])
              case Some(r) =>
                && ret == 0 && Holds(r.1) && len == old(len) + |EncodeTags(r.1)| - |EncodeTags(ts)|
                && data[..ETH_ALEN] == r.0 && data[ETH_ALEN..LENGTH_AT] == old(data[ETH_ALEN..LENGTH_AT])
    {
      hide Encode, First, Without, EncodeTags, Offset, Be16, CarriesMagic;
      RefusedIff(ts);
      ghost var k := First(ts, PTT_RELAY_SID);
      var found := FindTag(PTT_RELAY_SID, ts);
      if found == None {
        return -1;
      }
      TagInFrame(data[..], ts, k);
      var ptr := found.value;
      var tagLen := Be16(data[ptr + 2], data[ptr + 3]);
      if tagLen < MAGIC_CODE_LEN + RTL_RELAY_TAG_LEN {
        return -1;
      }
      FirstWord(data[..], ptr + TAG_HDR_LEN, ts[k].data);
      if Be16(data[ptr + TAG_HDR_LEN], data[ptr + TAG_HDR_LEN + 1]) != MAGIC_CODE {
        return -1;
      }
      ret := StripFound(ts, k, ptr, tagLen);
    }
  }

  /** Another header in front of the length field. */
  lemma NewHeader(s: seq<byte>, header: seq<byte>, n: nat)
    requires |header| == LENGTH_AT && TAGS_AT + n <= |s|
    ensures var r := Patch(s, 0, header);
            && r[..LENGTH_AT] == header && r[CODE_AT] == header[CODE_AT]
            && r[ETH_ALEN..LENGTH_AT] == header[ETH_ALEN..]
            && r[LENGTH_AT] == s[LENGTH_AT] && r[LENGTH_AT + 1] == s[LENGTH_AT + 1]
            && r[TAGS_AT..TAGS_AT + n] == s[TAGS_AT..TAGS_AT + n]
  {
    var r := Patch(s, 0, header);
    assert r == header + s[LENGTH_AT..];
    var t, u := r[TAGS_AT..TAGS_AT + n], s[TAGS_AT..TAGS_AT + n];
    assert forall k :: 0 <= k < n ==> t[k] == u[k];
  }

  /** A frame that comes back under another header. */
  method AnswerAndBack(skb: SkBuff, header: seq<byte>, ghost sent: seq<Item>) returns (ret: int)
    requires skb.Valid() && skb.Holds(sent) && StripRelay(sent).Some?
    requires |header| == LENGTH_AT && header[CODE_AT] in [PADO_CODE, PADS_CODE]
    modifies skb, skb.data
    ensures skb.Valid() && ret == 0
    ensures var (mac, us) := StripRelay(sent).value;
            skb.data[..ETH_ALEN] == mac && skb.data[ETH_ALEN..LENGTH_AT] == header[ETH_ALEN..] && skb.Holds(us)
  {
    hide EncodeTags, StripRelay, Patch, Be16;
    NewHeader(skb.data[..], header, skb.HeaderLength());
    Store(skb.data, 0, header);
    ret := skb.LookupDiscovery(sent);
  }

  /**
   The round trip through the two byte-level routines: a query goes out with the relay tag, the concentrator answers
   with a header of its own in front of the tags it was sent, and the answer comes back addressed to the client that
   asked, with the tags that were there, the relay tag moved to the front. It needs a big-endian host.
   */
  method RelayAndBack(skb: SkBuff, header: seq<byte>, behind: seq<byte>, ghost ts: seq<Item>) returns (ret: int)
    requires skb.Valid() && skb.Holds(ts) && skb.Asked(ts) && skb.data[SID_AT] == skb.data[SID_AT + 1] == 0
    requires |EncodeTags(AddRelay(ts, skb.data[ETH_ALEN..2 * ETH_ALEN]))| <= |EncodeTags(ts)| + skb.Tailroom()
    requires |header| == LENGTH_AT && header[CODE_AT] in [PADO_CODE, PADS_CODE] && |behind| >= 0x1_0000
    modifies skb, skb.data
    ensures skb.Valid() && ret == 0
    ensures skb.data[..ETH_ALEN] == old(skb.data[ETH_ALEN..2 * ETH_ALEN])
    ensures skb.data[ETH_ALEN..LENGTH_AT] == header[ETH_ALEN..]
    ensures var k := First(ts, PTT_RELAY_SID);
            var rest := Without(ts, k);
            skb.Holds(if OldRelay(ts) == [] then rest else [ts[k]] + rest)
  {
    hide Encode, EncodeItem, First, Without, OldRelay, AddRelay, LengthRead, Led, StripRelay, skb.Shows;
    ghost var mac := skb.data[ETH_ALEN..2 * ETH_ALEN];
    ghost var sent := AddRelay(ts, mac);
    SentTags(ts, mac);
    EncodeCons(PppoeTag, sent[0], sent[1..]);
    LengthIsRight(sent[0], true);
    EchoRoundTrip(ts, mac);
    ret := skb.InsertDiscovery(true, behind, ts);
    ret := AnswerAndBack(skb, header, sent);
  }

  /** A length read in the wrong byte order is the number with its bytes exchanged. */
  lemma LengthReadSays(t: Item, hi: byte, lo: byte)
    requires PppoeTag.Ok(t) && |t.data| == 256 * hi + lo
    ensures LengthRead(t, true) == 256 * hi + lo + 4
    ensures LengthRead(t, false) == 256 * lo + hi + 4
  {
  }
}
