/** Searching information elements in a buffer: `rtw_get_ie` and `rtw_get_p2p_ie` of `rtw_ieee80211.c`. */
module ElementSearch {
  import opened Bytes
  import opened Tlv

  const WLAN_EID_VENDOR_SPECIFIC := 221
  const P2P_OUI: seq<byte> := [0x50, 0x6F, 0x9A, 0x09]
  const MAX_IE_SZ := 768

  /** The bytes of a buffer from `base` on are exactly the elements `es`. */
  ghost predicate HoldsElements(b: seq<byte>, base: nat, limit: nat, es: seq<Item>) {
    && base + limit <= |b|
    && AllOk(InfoElement, es)
    && b[base..base + limit] == Encode(InfoElement, es)
  }

  /** An element's two header bytes, where the search finds them. */
  lemma HeaderBytes(b: seq<byte>, base: nat, limit: nat, es: seq<Item>, k: nat)
    requires HoldsElements(b, base, limit, es) && k < |es|
    ensures var o := Offset(InfoElement, es, k);
            && base + o + 2 + |es[k].data| <= base + limit
            && b[base + o] == es[k].kind && b[base + o + 1] == |es[k].data|
            && b[base + o + 2..base + o + 2 + |es[k].data|] == es[k].data
            && Offset(InfoElement, es, k + 1) == o + 2 + |es[k].data|
  {
    hide Encode, Offset;
    ItemAt(InfoElement, es, k);
    var o, e := Offset(InfoElement, es, k), Encode(InfoElement, es);
    assert b[base + o] == e[o] && b[base + o + 1] == e[o + 1];
    SliceOfSlice(b, base, base + limit, o + 2, o + 2 + |es[k].data|);
  }

  lemma EndOfElements(b: seq<byte>, base: nat, limit: nat, es: seq<Item>, k: nat)
    requires HoldsElements(b, base, limit, es) && k <= |es|
    ensures Offset(InfoElement, es, k) >= limit <==> k == |es|
    ensures k < |es| ==> Offset(InfoElement, es, k) + 2 <= limit
  {
    if k < |es| {
      HeaderBytes(b, base, limit, es, k);
    } else {
      OffsetEnd(InfoElement, es);
    }
  }

  /** `rtw_get_ie`: where the first element of an id is, and the length of its body. */
  method GetIe(buf: array<byte>, base: nat, index: nat, limit: nat, ghost es: seq<Item>) returns (r: Option<(nat, nat)>)
    requires HoldsElements(buf[..], base, limit, es)
    ensures var k := First(es, index);
            r == if k < |es| then Some((base + Offset(InfoElement, es, k), |es[k].data|)) else None
  {
    hide Encode, First;
    ghost var b, k := buf[..], 0;
    OffsetZero(InfoElement, es);
    EndOfElements(b, base, limit, es, 0);
    if limit < 1 {
      FirstIs(es, index, 0);
      return None;
    }
    var p, i := base, 0;
    while true
      invariant 0 <= k < |es| && i == Offset(InfoElement, es, k) && p == base + i && i + 2 <= limit
      invariant forall j :: 0 <= j < k ==> es[j].kind != index
      decreases |es| - k
    {
      HeaderBytes(b, base, limit, es, k);
      if buf[p] == index {
        FirstIs(es, index, k);
        return Some((p, buf[p + 1]));
      }
      var tmp: nat := buf[p + 1];
      p := p + tmp + 2;
      i := i + tmp + 2;
      k := k + 1;
      EndOfElements(b, base, limit, es, k);
      if i >= limit {
        break;
      }
    }
    FirstIs(es, index, |es|);
    return None;
  }

  // ----- P2P elements

  predicate IsP2p(e: Item) {
    e.kind == WLAN_EID_VENDOR_SPECIFIC && |e.data| >= 4 && e.data[..4] == P2P_OUI
  }

  function FirstP2p(es: seq<Item>): (k: nat)
    ensures k <= |es|
    ensures k < |es| ==> IsP2p(es[k])
    ensures forall j :: 0 <= j < k ==> !IsP2p(es[j])
  {
    if es == [] || IsP2p(es[0]) then 0 else 1 + FirstP2p(es[1..])
  }

  /** Every vendor element is long enough for the four bytes that the search compares. */
  ghost predicate VendorsHaveOui(es: seq<Item>) {
    forall k :: 0 <= k < |es| && es[k].kind == WLAN_EID_VENDOR_SPECIFIC ==> |es[k].data| >= 4
  }

  lemma FirstP2pIs(es: seq<Item>, k: nat)
    requires k <= |es| && (forall j :: 0 <= j < k ==> !IsP2p(es[j])) && (k < |es| ==> IsP2p(es[k]))
    ensures FirstP2p(es) == k
  {
  }

  /** `rtw_get_p2p_ie`: where the first P2P element is, and its whole length. */
  method GetP2pIe(buf: array<byte>, base: nat, len: nat, ghost es: seq<Item>) returns (r: Option<(nat, nat)>)
    requires HoldsElements(buf[..], base, len, es) && VendorsHaveOui(es) && len <= 768
    ensures var k := FirstP2p(es);
            r == if k < |es| then Some((base + Offset(InfoElement, es, k), |es[k].data| + 2)) else None
  {
    hide Encode, FirstP2p;
    ghost var b, k := buf[..], 0;
    OffsetZero(InfoElement, es);
    EndOfElements(b, base, len, es, 0);
    var cnt := 0;
    while cnt < len
      invariant 0 <= k <= |es| && cnt == Offset(InfoElement, es, k)
      invariant forall j :: 0 <= j < k ==> !IsP2p(es[j])
      decreases |es| - k
    {
      EndOfElements(b, base, len, es, k);
      HeaderBytes(b, base, len, es, k);
      var p := base + cnt;
      var n: nat := buf[p + 1];
      if buf[p] == WLAN_EID_VENDOR_SPECIFIC {
        assert buf[p + 2..p + 6] == es[k].data[..4];
        if buf[p + 2..p + 6] == P2P_OUI {
          FirstP2pIs(es, k);
          return Some((p, n + 2));
        }
      }
      cnt := cnt + n + 2;
      k := k + 1;
    }
    EndOfElements(b, base, len, es, k);
    FirstP2pIs(es, k);
    return None;
  }

  /** A P2P element is a vendor element whose body starts with the Wi-Fi Alliance's OUI and type 9. */
  lemma P2pIff(e: Item)
    ensures IsP2p(e) <==> e.kind == 221 && [0x50, 0x6F, 0x9A, 0x09] <= e.data
  {
    assert |e.data| >= 4 ==> e.data[..4] == [e.data[0], e.data[1], e.data[2], e.data[3]];
  }
}
