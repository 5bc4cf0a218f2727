/**
 Removing a P2P attribute from inside an element inside a beacon: `rtw_get_p2p_attr` to
 `rtw_WLAN_BSSID_EX_remove_p2p_attr`.
 */
module P2pAttributes {
  import opened Bytes
  import opened Tlv
  import opened ElementSearch
  import opened Bssid

  /** A P2P element: the OUI with its type, and then attributes. */
  function P2pElement(attrs: seq<Item>): (e: Item)
    ensures IsP2p(e)
  {
    Item(WLAN_EID_VENDOR_SPECIFIC, P2P_OUI + Encode(P2pAttribute, attrs))
  }

  /** The attributes that are not of a given kind, in order. */
  function WithoutKind(ts: seq<Item>, kind: nat): seq<Item> {
    if ts == [] then []
    else (if ts[0].kind == kind then [] else [ts[0]]) + WithoutKind(ts[1..], kind)
  }

  lemma KindCons(ts: seq<Item>, kind: nat)
    requires ts != []
    ensures WithoutKind(ts, kind) == if ts[0].kind == kind then WithoutKind(ts[1..], kind)
                                     else [ts[0]] + WithoutKind(ts[1..], kind)
  {
  }

  lemma FirstCons(ts: seq<Item>, kind: nat)
    requires ts != []
    ensures First(ts, kind) == if ts[0].kind == kind then 0 else 1 + First(ts[1..], kind)
  {
  }

  lemma NoneLeft(kind: nat)
    ensures WithoutKind([], kind) == [] && Without([], First([], kind)) == []
  {
  }

  lemma WithoutTail(ts: seq<Item>, k: nat)
    requires 0 < |ts| && k <= |ts|
    ensures k == 0 ==> Without(ts, k) == ts[1..]
    ensures k > 0 ==> var us := Without(ts, k); us != [] && us[0] == ts[0] && us[1..] == Without(ts[1..], k - 1)
  {
  }

  /** Removing the first of a kind, while there is one, is filtering. */
  lemma {:induction false} RemoveFirst(ts: seq<Item>, kind: nat)
    ensures First(ts, kind) == |ts| ==> WithoutKind(ts, kind) == ts
    ensures WithoutKind(Without(ts, First(ts, kind)), kind) == WithoutKind(ts, kind)
  {
    hide First, Without, WithoutKind;
    if ts == [] {
      NoneLeft(kind);
    } else {
      var us := Without(ts, First(ts, kind));
      FirstCons(ts, kind);
      KindCons(ts, kind);
      WithoutTail(ts, First(ts, kind));
      if ts[0].kind != kind {
        RemoveFirst(ts[1..], kind);
        KindCons(us, kind);
        assert ts == [ts[0]] + ts[1..];
      }
    }
  }

  lemma {:induction false} WithoutKindOk(f: Format, ts: seq<Item>, kind: nat)
    requires AllOk(f, ts)
    ensures AllOk(f, WithoutKind(ts, kind)) && |Encode(f, WithoutKind(ts, kind))| <= |Encode(f, ts)|
  {
    if ts != [] {
      WithoutKindOk(f, ts[1..], kind);
      var rest := WithoutKind(ts[1..], kind);
      if ts[0].kind == kind {
        assert WithoutKind(ts, kind) == rest;
      } else {
        EncodeCons(f, ts[0], rest);
      }
    }
  }

  // ----- one attribute inside one element

  /** The buffer holds the P2P element of `attrs` at `ie`. */
  ghost predicate HoldsP2p(b: seq<byte>, ie: nat, ielen: nat, attrs: seq<Item>) {
    && ie + ielen <= |b|
    && AllOk(P2pAttribute, attrs)
    && ielen == 6 + |Encode(P2pAttribute, attrs)| < 258
    && b[ie..ie + ielen] == EncodeItem(InfoElement, P2pElement(attrs))
  }

  /** The header, the OUI and the k-th attribute of a P2P element, byte by byte. */
  lemma AttrBytes(b: seq<byte>, ie: nat, ielen: nat, attrs: seq<Item>, k: nat)
    requires HoldsP2p(b, ie, ielen, attrs)
    ensures b[ie] == WLAN_EID_VENDOR_SPECIFIC && b[ie + 1] == ielen - 2 && b[ie + 2..ie + 6] == P2P_OUI
    ensures b[ie + 6..ie + ielen] == Encode(P2pAttribute, attrs)
    ensures k < |attrs| ==>
              var o := 6 + Offset(P2pAttribute, attrs, k);
              && o + 3 + |attrs[k].data| <= ielen
              && b[ie + o] == attrs[k].kind && Be16(b[ie + o + 2], b[ie + o + 1]) == |attrs[k].data|
              && 6 + Offset(P2pAttribute, attrs, k + 1) == o + 3 + |attrs[k].data|
  {
    hide Encode;
    var e, a := EncodeItem(InfoElement, P2pElement(attrs)), Encode(P2pAttribute, attrs);
    assert e[..2] == [WLAN_EID_VENDOR_SPECIFIC, ielen - 2] && e[2..6] == P2P_OUI && e[6..] == a;
    assert b[ie + 2..ie + 6] == b[ie..ie + ielen][2..6];
    assert b[ie + 6..ie + ielen] == b[ie..ie + ielen][6..];
    assert b[ie] == e[0] && b[ie + 1] == e[1];
    if k < |attrs| {
      ItemAt(P2pAttribute, attrs, k);
      var o := Offset(P2pAttribute, attrs, k);
      assert b[ie + 6 + o] == a[o] && b[ie + 6 + o + 1] == a[o + 1] && b[ie + 6 + o + 2] == a[o + 2];
    }
  }

  /** `rtw_get_p2p_attr`: where the first attribute of an id is in a P2P element, and its whole length. */
  method GetP2pAttr(buf: array<byte>, ie: nat, ielen: nat, id: nat, ghost attrs: seq<Item>)
    returns (r: Option<(nat, nat)>)
    requires HoldsP2p(buf[..], ie, ielen, attrs)
    ensures var k := First(attrs, id);
            r == if k < |attrs| then Some((ie + 6 + Offset(P2pAttribute, attrs, k), 3 + |attrs[k].data|)) else None
  {
    hide Encode, First, P2pElement;
    ghost var b, k := buf[..], 0;
    AttrBytes(b, ie, ielen, attrs, 0);
    OffsetZero(P2pAttribute, attrs);
    OffsetEnd(P2pAttribute, attrs);
    assert buf[ie + 2..ie + 6] == b[ie + 2..ie + 6];
    if buf[ie] != WLAN_EID_VENDOR_SPECIFIC || buf[ie + 2..ie + 6] != P2P_OUI {
      return None;
    }
    var attr := ie + 6;
    while attr - ie < ielen
      invariant 0 <= k <= |attrs| && attr == ie + 6 + Offset(P2pAttribute, attrs, k)
      invariant forall j :: 0 <= j < k ==> attrs[j].kind != id
      decreases |attrs| - k
    {
      AttrBytes(b, ie, ielen, attrs, k);
      var attrId, attrLen := buf[attr], Be16(buf[attr + 2], buf[attr + 1]) + 3;
      if attrId == id {
        FirstIs(attrs, id, k);
        return Some((attr, attrLen));
      }
      attr := attr + attrLen;
      k := k + 1;
    }
    AttrBytes(b, ie, ielen, attrs, k);
    FirstIs(attrs, id, k);
    return None;
  }

  /**
   The buffer with the element at `ie`, `L` bytes long, made to hold `attrs` instead, and zeros in the room that leaves.
   */
  function Rewritten(b: seq<byte>, ie: nat, L: nat, attrs: seq<Item>): (r: seq<byte>)
    requires ie + L <= |b| && 6 + |Encode(P2pAttribute, attrs)| <= L
    ensures |r| == |b|
  {
    var e := EncodeItem(InfoElement, P2pElement(attrs));
    b[..ie] + e + Zeros(L - |e|) + b[ie + L..]
  }

  /** The four stores that take attribute bytes [t, t + n) out of an element, on plain bytes. */
  function Excised(b: seq<byte>, ie: nat, ielen: nat, t: nat, n: nat): (r: seq<byte>)
    requires ie + 6 <= t && t + n <= ie + ielen <= |b| && n <= b[ie + 1]
    ensures |r| == |b|
  {
    Patch(b[..t] + b[t + n..ie + ielen] + Zeros(n) + b[ie + ielen..], ie + 1, [b[ie + 1] - n])
  }

  /** `memset`, `memcpy`, `memset`: the tail moves up and the room it leaves is zeroed. */
  lemma ThreeStores(b: seq<byte>, t: nat, n: nat, m: nat)
    requires t + n + m <= |b|
    ensures var s1 := Patch(b, t, Zeros(n));
            var s2 := Patch(s1, t, s1[t + n..t + n + m]);
            Patch(s2, t + m, Zeros(n)) == b[..t] + b[t + n..t + n + m] + Zeros(n) + b[t + n + m..]
  {
    hide Patch, Zeros;
    var s1, c := Patch(b, t, Zeros(n)), b[t + n..t + n + m];
    PatchParts(b, t, Zeros(n));
    SliceOfSuffix(b, t + n, m);
    SliceOfSuffix(s1, t + n, m);
    var s2 := Patch(s1, t, c);
    PatchParts(s1, t, c);
    SliceOfSuffix(s1, t + m, n);
    SliceOfSuffix(s2, t + m, n);
    PatchParts(s2, t + m, Zeros(n));
  }

  /** One round of the loop in `rtw_p2p_attr_remove`. */
  method ExciseAttr(buf: array<byte>, ie: nat, ielen: nat, t: nat, n: nat)
    requires ie + 6 <= t && t + n <= ie + ielen <= buf.Length && n <= buf[ie + 1]
    modifies buf
    ensures buf[..] == Excised(old(buf[..]), ie, ielen, t, n)
  {
    hide Patch, Zeros;
    ghost var b := buf[..];
    var remain := ielen - (t + n - ie);
    Store(buf, t, Zeros(n));
    CopyDown(buf, t, t + n, remain);
    Store(buf, t + remain, Zeros(n));
    ThreeStores(b, t, n, remain);
    Store(buf, ie + 1, [buf[ie + 1] - n]);
  }

  /** The first six bytes of a P2P element with `n` bytes of attributes. */
  function P2pHead(n: nat): (h: seq<byte>)
    requires n < 252
    ensures |h| == 6
  {
    [WLAN_EID_VENDOR_SPECIFIC, 4 + n] + P2P_OUI
  }

  lemma P2pHeadOf(a: seq<byte>)
    requires |a| < 252
    ensures EncodeItem(InfoElement, Item(WLAN_EID_VENDOR_SPECIFIC, P2P_OUI + a)) == P2pHead(|a|) + a
    ensures P2pHead(|a|)[1] == 4 + |a|
  {
  }

  lemma RewrittenShape(b: seq<byte>, ie: nat, L: nat, attrs: seq<Item>)
    requires ie + L <= |b| && L < 258 && 6 + |Encode(P2pAttribute, attrs)| <= L
    ensures var a := Encode(P2pAttribute, attrs);
            Rewritten(b, ie, L, attrs) == b[..ie] + P2pHead(|a|) + a + Zeros(L - 6 - |a|) + b[ie + L..]
  {
    hide Encode, EncodeItem, Zeros, P2pHead;
    var a := Encode(P2pAttribute, attrs);
    P2pHeadOf(a);
    assert b[..ie] + (P2pHead(|a|) + a) == b[..ie] + P2pHead(|a|) + a;
  }

  /** Rewriting an element with its own attributes changes nothing. */
  lemma RewrittenSame(b: seq<byte>, ie: nat, L: nat, attrs: seq<Item>)
    requires HoldsP2p(b, ie, L, attrs)
    ensures Rewritten(b, ie, L, attrs) == b
  {
    assert b == b[..ie] + b[ie..ie + L] + b[ie + L..];
  }

  lemma RewrittenHolds(b: seq<byte>, ie: nat, L: nat, attrs: seq<Item>)
    requires ie + L <= |b| && L < 258 && AllOk(P2pAttribute, attrs) && 6 + |Encode(P2pAttribute, attrs)| <= L
    ensures HoldsP2p(Rewritten(b, ie, L, attrs), ie, 6 + |Encode(P2pAttribute, attrs)|, attrs)
  {
    hide Encode, Zeros;
  }

  lemma Regroup(pre: seq<byte>, h: seq<byte>, x: seq<byte>, y: seq<byte>, z: seq<byte>, z': seq<byte>, post: seq<byte>)
    ensures ((pre + h) + x) + y + z + (z' + post) == pre + h + ((x + y) + (z + z') + post)
  {
  }

  lemma ZerosAdd(n: nat, z: nat)
    ensures Zeros(n) + Zeros(z) == Zeros(z + n)
  {
  }

  lemma HeadPatch(pre: seq<byte>, len: nat, n: nat, rest: seq<byte>)
    requires n <= len < 252
    ensures Patch(pre + P2pHead(len) + rest, |pre| + 1, [4 + len - n]) == pre + P2pHead(len - n) + rest
  {
  }

  lemma CutOut(p: seq<byte>, a: seq<byte>, s: seq<byte>, o: nat, n: nat)
    requires o + n <= |a|
    ensures var b := p + a + s;
            b[..|p| + o] == p + a[..o] && b[|p| + o + n..|p| + |a|] == a[o + n..] && b[|p| + |a|..] == s
            && b[|p|..|p| + |a|] == a
  {
    var b := p + a + s;
    assert b == p + (a + s);
    SliceOfConcat(p, a + s, 0, o);
    DropConcat(p, a + s, |a|);
    assert (a + s)[..o] == a[..o] && (a + s)[|a|..] == s && (a + s)[..|a|] == a;
    assert b[..|p| + o] == p + a[..o];
    var m, c := b[|p|..|p| + |a|], b[|p| + o + n..|p| + |a|];
    assert forall k :: 0 <= k < |m| ==> m[k] == a[k];
    assert forall k :: 0 <= k < |c| ==> c[k] == a[o + n + k];
  }

  /** Where the parts of an element are in the buffer, and those of its attributes around bytes [o, o + n). */
  lemma PartsInPlace(pre: seq<byte>, h: seq<byte>, a: seq<byte>, z: seq<byte>, post: seq<byte>, o: nat, n: nat)
    requires |h| == 6 && o + n <= |a|
    ensures var b, t := pre + h + a + z + post, |pre| + 6;
            && b[|pre|..t + |a|] == h + a && b[|pre| + 1] == h[1]
            && b[..t + o] == (pre + h) + a[..o] && b[t + o + n..t + |a|] == a[o + n..] && b[t + |a|..] == z + post
  {
    var b := pre + h + a + z + post;
    assert b == (pre + h) + a + (z + post) && b == pre + (h + a) + (z + post);
    CutOut(pre + h, a, z + post, o, n);
    CutOut(pre, h + a, z + post, 0, 0);
    assert b[|pre| + 1] == b[|pre|..|pre| + |h + a|][1];
  }

  lemma Ungroup(p: seq<byte>, x: seq<byte>, y: seq<byte>, z: seq<byte>)
    ensures p + (x + y + z) == p + x + y + z
  {
  }

  lemma ExciseBytes(pre: seq<byte>, a: seq<byte>, o: nat, n: nat, z: nat, post: seq<byte>)
    requires o + n <= |a| < 252
    ensures var b := pre + P2pHead(|a|) + a + Zeros(z) + post;
            && b[|pre|..|pre| + 6 + |a|] == P2pHead(|a|) + a
            && b[|pre| + 1] == 4 + |a|
            && Excised(b, |pre|, 6 + |a|, |pre| + 6 + o, n)
            == pre + P2pHead(|a| - n) + (a[..o] + a[o + n..]) + Zeros(z + n) + post
  {
    hide P2pHead, Zeros, Patch;
    var h, mid := P2pHead(|a|), a[..o] + a[o + n..];
    P2pHeadOf(a);
    PartsInPlace(pre, h, a, Zeros(z), post, o, n);
    ZerosAdd(n, z);
    Regroup(pre, h, a[..o], a[o + n..], Zeros(n), Zeros(z), post);
    HeadPatch(pre, |a|, n, mid + Zeros(z + n) + post);
    Ungroup(pre + P2pHead(|a| - n), mid, Zeros(z + n), post);
  }

  /** Excising the bytes of attribute k from the element is what `Without` says. */
  lemma ExcisedIsWithout(b0: seq<byte>, ie: nat, L: nat, attrs: seq<Item>, k: nat)
    requires ie + L <= |b0| && L < 258 && AllOk(P2pAttribute, attrs) && k < |attrs|
    requires 6 + |Encode(P2pAttribute, attrs)| <= L
    ensures var b, ielen, t, n := Rewritten(b0, ie, L, attrs), 6 + |Encode(P2pAttribute, attrs)|,
                                  ie + 6 + Offset(P2pAttribute, attrs, k), 3 + |attrs[k].data|;
            && t + n <= ie + ielen && n <= b[ie + 1]
            && |Encode(P2pAttribute, Without(attrs, k))| == ielen - 6 - n
            && Excised(b, ie, ielen, t, n) == Rewritten(b0, ie, L, Without(attrs, k))
  {
    hide Encode, Without, EncodeItem, P2pHead, Zeros, Excised, Rewritten;
    ItemAt(P2pAttribute, attrs, k);
    EncodeWithout(P2pAttribute, attrs, k);
    RewrittenShape(b0, ie, L, attrs);
    RewrittenShape(b0, ie, L, Without(attrs, k));
    var a := Encode(P2pAttribute, attrs);
    ExciseBytes(b0[..ie], a, Offset(P2pAttribute, attrs, k), 3 + |attrs[k].data|, L - 6 - |a|, b0[ie + L..]);
  }

  /** `rtw_p2p_attr_remove` */
  method AttrRemove(buf: array<byte>, ie: nat, ielenOri: nat, id: nat, ghost attrs: seq<Item>) returns (ielen: nat)
    requires HoldsP2p(buf[..], ie, ielenOri, attrs)
    modifies buf
    ensures 6 + |Encode(P2pAttribute, WithoutKind(attrs, id))| == ielen <= ielenOri
    ensures buf[..] == Rewritten(old(buf[..]), ie, ielenOri, WithoutKind(attrs, id))
  {
    hide Encode, Without, Rewritten, Excised, EncodeItem, First, WithoutKind;
    ghost var b0, cur := buf[..], attrs;
    ielen := ielenOri;
    RewrittenSame(b0, ie, ielenOri, attrs);
    while true
      invariant AllOk(P2pAttribute, cur) && ielen == 6 + |Encode(P2pAttribute, cur)| <= ielenOri
      invariant WithoutKind(cur, id) == WithoutKind(attrs, id)
      invariant buf[..] == Rewritten(b0, ie, ielenOri, cur)
      decreases |cur|
    {
      ghost var k := First(cur, id);
      RemoveFirst(cur, id);
      RewrittenHolds(b0, ie, ielenOri, cur);
      var target := GetP2pAttr(buf, ie, ielen, id, cur);
      if target == None {
        break;
      }
      ExcisedIsWithout(b0, ie, ielenOri, cur, k);
      ExciseAttr(buf, ie, ielen, target.value.0, target.value.1);
      ielen := ielen - target.value.1;
      WithoutOk(P2pAttribute, cur, k);
      cur := Without(cur, k);
    }
  }

  // ----- that element inside a beacon

  /** Moves what lies `d` bytes past `at` down to it, zeroing the room left at the end. */
  method CloseUp(bss: BssidEx, at: nat, d: nat)
    requires at + d <= bss.IELength <= bss.IEs.Length
    modifies bss, bss.IEs
    ensures bss.IELength == old(bss.IELength) - d
    ensures var b, n := old(bss.IEs[..]), old(bss.IELength);
            bss.IEs[..] == Patch(Patch(b, at, b[at + d..n]), n - d, Zeros(d))
  {
    hide Patch, Zeros;
    var remain := bss.IELength - (at + d);
    CopyDown(bss.IEs, at, at + d, remain);
    Store(bss.IEs, at + remain, Zeros(d));
    bss.IELength := bss.IELength - d;
  }

  lemma Unfiltered(b: seq<byte>, n: nat, es: seq<Item>)
    requires FIXED_IE_LENGTH <= n && HoldsElements(b, FIXED_IE_LENGTH, n - FIXED_IE_LENGTH, es)
    ensures n == FIXED_IE_LENGTH + |Encode(InfoElement, es)|
    ensures b == b[..FIXED_IE_LENGTH] + Encode(InfoElement, es) + Zeros(0) + b[n..]
  {
    hide Encode;
    assert b == b[..FIXED_IE_LENGTH] + b[FIXED_IE_LENGTH..n] + b[n..];
    assert Zeros(0) == [];
  }

  lemma InPlace(b: seq<byte>, fixed: seq<byte>, p: seq<byte>, e: seq<byte>, s: seq<byte>, post: seq<byte>)
    requires b == fixed + (p + e + s) + post
    ensures b[|fixed| + |p|..|fixed| + |p| + |e|] == e
    ensures b[..|fixed| + |p|] == fixed + p
    ensures b[|fixed| + |p| + |e|..|fixed| + |p| + |e| + |s|] == s
  {
    assert b == (fixed + p) + e + (s + post) && b == (fixed + p + e) + s + post;
    CutOut(fixed + p, e, s + post, 0, 0);
    CutOut(fixed + p + e, s, post, 0, 0);
  }

  /** The first P2P element, in place between the elements before and after it. */
  lemma P2pIn(b: seq<byte>, n: nat, es: seq<Item>, k: nat, attrs: seq<Item>)
    requires FIXED_IE_LENGTH <= n && HoldsElements(b, FIXED_IE_LENGTH, n - FIXED_IE_LENGTH, es)
    requires k < |es| && es[k] == P2pElement(attrs) && AllOk(P2pAttribute, attrs)
    ensures var p, L := FIXED_IE_LENGTH + Offset(InfoElement, es, k), |es[k].data| + 2;
            && p + L <= n && HoldsP2p(b, p, L, attrs)
            && b[..p] == b[..FIXED_IE_LENGTH] + Encode(InfoElement, es[..k])
            && b[p + L..n] == Encode(InfoElement, es[k + 1..])
  {
    hide Encode, EncodeItem;
    assert InfoElement.Ok(es[k]);
    EncodeAt(InfoElement, es, k);
    InPlace(b, b[..FIXED_IE_LENGTH], Encode(InfoElement, es[..k]), EncodeItem(InfoElement, es[k]),
            Encode(InfoElement, es[k + 1..]), b[n..]);
  }

  lemma PatchSelf(p: seq<byte>, t: seq<byte>, s: seq<byte>)
    ensures Patch(p + t + s, |p|, t) == p + t + s
  {
  }

  lemma RefillBytes(fixed: seq<byte>, p: seq<byte>, e: seq<byte>, d: nat, s: seq<byte>, post: seq<byte>)
    ensures var b1, t := (fixed + p) + e + Zeros(d) + (s + post), |fixed| + |p| + |e|;
            var b2 := Patch(b1, t, b1[t + d..t + d + |s|]);
            && Patch(b2, t + |s|, Zeros(d)) == fixed + (p + e + s) + Zeros(d) + post
            && (d == 0 ==> b1 == fixed + (p + e + s) + Zeros(d) + post)
  {
    hide Patch, Zeros;
    var b1, t := (fixed + p) + e + Zeros(d) + (s + post), |fixed| + |p| + |e|;
    PatchSelf((fixed + p) + e, Zeros(d), s + post);
    ThreeStores(b1, t, d, |s|);
    assert b1[..t] == fixed + p + e && b1[t + d..t + d + |s|] == s && b1[t + d + |s|..] == post;
  }

  /** The rewritten element between the elements before and after it. */
  lemma RewrittenBetween(b: seq<byte>, n: nat, es: seq<Item>, k: nat, attrs: seq<Item>, attrs': seq<Item>)
    requires FIXED_IE_LENGTH <= n && HoldsElements(b, FIXED_IE_LENGTH, n - FIXED_IE_LENGTH, es)
    requires k < |es| && es[k] == P2pElement(attrs) && AllOk(P2pAttribute, attrs)
    requires |Encode(P2pAttribute, attrs')| <= |Encode(P2pAttribute, attrs)|
    ensures var p, L := FIXED_IE_LENGTH + Offset(InfoElement, es, k), |es[k].data| + 2;
            var e := EncodeItem(InfoElement, P2pElement(attrs'));
            && |e| <= L && p + L <= n <= |b| && |e| == 6 + |Encode(P2pAttribute, attrs')|
            && p == |b[..FIXED_IE_LENGTH] + Encode(InfoElement, es[..k])|
            && n == p + L + |Encode(InfoElement, es[k + 1..])|
            && Rewritten(b, p, L, attrs') ==
               (b[..FIXED_IE_LENGTH] + Encode(InfoElement, es[..k])) + e + Zeros(L - |e|)
               + (Encode(InfoElement, es[k + 1..]) + b[n..])
  {
    hide Encode, EncodeItem, Zeros, Offset;
    P2pIn(b, n, es, k, attrs);
    var p, L := FIXED_IE_LENGTH + Offset(InfoElement, es, k), |es[k].data| + 2;
    assert b[p + L..] == b[p + L..n] + b[n..];
  }

  lemma StillOk(es: seq<Item>, k: nat, attrs: seq<Item>, attrs': seq<Item>)
    requires k < |es| && AllOk(InfoElement, es) && es[k] == P2pElement(attrs)
    requires |Encode(P2pAttribute, attrs')| <= |Encode(P2pAttribute, attrs)|
    ensures AllOk(InfoElement, es[k := P2pElement(attrs')])
  {
    hide Encode;
    assert InfoElement.Ok(es[k]);
  }

  lemma HoldsOk(b: seq<byte>, n: nat, es: seq<Item>)
    requires FIXED_IE_LENGTH <= n && HoldsElements(b, FIXED_IE_LENGTH, n - FIXED_IE_LENGTH, es)
    ensures AllOk(InfoElement, es)
  {
  }

  /** The rewritten element with the elements after it moved up behind it and the room left at the end zeroed. */
  lemma Refilled(b: seq<byte>, n: nat, es: seq<Item>, k: nat, attrs: seq<Item>, attrs': seq<Item>)
    requires FIXED_IE_LENGTH <= n && HoldsElements(b, FIXED_IE_LENGTH, n - FIXED_IE_LENGTH, es)
    requires k < |es| && es[k] == P2pElement(attrs) && AllOk(P2pAttribute, attrs)
    requires |Encode(P2pAttribute, attrs')| <= |Encode(P2pAttribute, attrs)|
    ensures var p, L := FIXED_IE_LENGTH + Offset(InfoElement, es, k), |es[k].data| + 2;
            var L' := 6 + |Encode(P2pAttribute, attrs')|;
            && L' <= L && p + L <= n <= |b|
            && AllOk(InfoElement, es[k := P2pElement(attrs')])
            && var b1, d, e := Rewritten(b, p, L, attrs'), L - L', Encode(InfoElement, es[k := P2pElement(attrs')]);
            && n == FIXED_IE_LENGTH + |e| + d
            && var b2 := Patch(b1, p + L', b1[p + L..n]);
            && Patch(b2, n - d, Zeros(d)) == b[..FIXED_IE_LENGTH] + e + Zeros(d) + b[n..]
            && (d == 0 ==> b1 == b[..FIXED_IE_LENGTH] + e + Zeros(d) + b[n..])
  {
    hide Encode, EncodeItem, Rewritten, Patch, Zeros, Offset, P2pElement, HoldsElements;
    RewrittenBetween(b, n, es, k, attrs, attrs');
    assert AllOk(InfoElement, es) by { HoldsOk(b, n, es); }
    StillOk(es, k, attrs, attrs');
    EncodeReplace(InfoElement, es, k, P2pElement(attrs'));
    var e := EncodeItem(InfoElement, P2pElement(attrs'));
    RefillBytes(b[..FIXED_IE_LENGTH], Encode(InfoElement, es[..k]), e, |es[k].data| + 2 - |e|,
                Encode(InfoElement, es[k + 1..]), b[n..]);
  }

  lemma P2pHeld(b: seq<byte>, n: nat, es: seq<Item>, k: nat, attrs: seq<Item>)
    requires FIXED_IE_LENGTH <= n && HoldsElements(b, FIXED_IE_LENGTH, n - FIXED_IE_LENGTH, es)
    requires k < |es| && es[k] == P2pElement(attrs) && AllOk(P2pAttribute, attrs)
    ensures HoldsP2p(b, FIXED_IE_LENGTH + Offset(InfoElement, es, k), |es[k].data| + 2, attrs)
  {
    hide Encode, EncodeItem, Offset, HoldsElements, HoldsP2p;
    P2pIn(b, n, es, k, attrs);
  }

  /** The elements with the matching attributes gone from the first P2P element, everything else as it was. */
  function FilteredElements(es: seq<Item>, attrs: seq<Item>, id: nat): seq<Item> {
    var k := FirstP2p(es);
    if k < |es| then es[k := P2pElement(WithoutKind(attrs, id))] else es
  }

  lemma FilteredIs(es: seq<Item>, attrs: seq<Item>, id: nat)
    ensures var k := FirstP2p(es);
            FilteredElements(es, attrs, id) == if k < |es| then es[k := P2pElement(WithoutKind(attrs, id))] else es
  {
  }

  /** The edit of the P2P element once it is found: its attributes, then what lies behind it. */
  method RemoveFromElement(bss: BssidEx, id: nat, p2pIe: nat, ielenOri: nat, ghost es: seq<Item>,
          ghost attrs: seq<Item>)
    requires bss.Holds(es) && AllOk(P2pAttribute, attrs)
    requires var k := FirstP2p(es);
             && k < |es| && es[k] == P2pElement(attrs)
             && p2pIe == FIXED_IE_LENGTH + Offset(InfoElement, es, k) && ielenOri == |es[k].data| + 2
    modifies bss, bss.IEs
    ensures var fs := FilteredElements(es, attrs, id);
            && AllOk(InfoElement, fs)
            && bss.IELength == FIXED_IE_LENGTH + |Encode(InfoElement, fs)| <= old(bss.IELength)
            && bss.IEs[..] == old(bss.IEs[..FIXED_IE_LENGTH]) + Encode(InfoElement, fs)
                              + Zeros(old(bss.IELength) - bss.IELength) + old(bss.IEs[bss.IELength..])
  {
    hide Encode, Offset, EncodeItem, FirstP2p, Rewritten, WithoutKind, P2pElement, Patch, Zeros, HoldsElements,
      FilteredElements, HoldsP2p;
    ghost var b0, n0, k := bss.IEs[..], bss.IELength, FirstP2p(es);
    FilteredIs(es, attrs, id);
    P2pHeld(b0, n0, es, k, attrs);
    WithoutKindOk(P2pAttribute, attrs, id);
    Refilled(b0, n0, es, k, attrs, WithoutKind(attrs, id));
    var ielen := AttrRemove(bss.IEs, p2pIe, ielenOri, id, attrs);
    assert bss.IEs[..] == Rewritten(b0, p2pIe, ielenOri, WithoutKind(attrs, id));
    assert b0[..FIXED_IE_LENGTH] == old(bss.IEs[..FIXED_IE_LENGTH]) && b0[n0..] == old(bss.IEs[bss.IELength..]);
    if ielen != ielenOri {
      CloseUp(bss, p2pIe + ielen, ielenOri - ielen);
    }
  }

  /** `rtw_WLAN_BSSID_EX_remove_p2p_attr`; `attrs` are the attributes of the first P2P element. */
  method RemoveP2pAttr(bss: BssidEx, id: nat, ghost es: seq<Item>, ghost attrs: seq<Item>)
    requires bss.Holds(es) && VendorsHaveOui(es) && AllOk(P2pAttribute, attrs)
    requires FirstP2p(es) < |es| ==> es[FirstP2p(es)] == P2pElement(attrs)
    modifies bss, bss.IEs
    ensures bss.Holds(FilteredElements(es, attrs, id))
    ensures var e := Encode(InfoElement, FilteredElements(es, attrs, id));
            && bss.IELength == FIXED_IE_LENGTH + |e| <= old(bss.IELength)
            && bss.IEs[..] == old(bss.IEs[..FIXED_IE_LENGTH]) + e
                              + Zeros(old(bss.IELength) - bss.IELength) + old(bss.IEs[bss.IELength..])
  {
    hide Encode, Offset, EncodeItem, FirstP2p, Rewritten, WithoutKind, P2pElement, Patch, Zeros, HoldsElements,
      FilteredElements;
    ghost var b0, n0 := bss.IEs[..], bss.IELength;
    FilteredIs(es, attrs, id);
    var found := GetP2pIe(bss.IEs, FIXED_IE_LENGTH, bss.IELength - FIXED_IE_LENGTH, es);
    if found == None {
      Unfiltered(b0, n0, es);
      return;
    }
    RemoveFromElement(bss, id, found.value.0, found.value.1, es, attrs);
    HoldsFixed(b0, bss.IEs[..], bss.IELength, FilteredElements(es, attrs, id));
  }
}
