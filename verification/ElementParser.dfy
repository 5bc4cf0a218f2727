/** `rtw_ieee802_11_parse_elems` of `rtw_ieee80211.c`: one pass that fills a slot for each known element. */
module ElementParser {
  import opened Bytes
  import opened Tlv
  import opened ElementSearch

  // ----- what a complete list of elements is

  function Prepend(es: seq<Item>, r: Option<seq<Item>>): Option<seq<Item>> {
    match r
    case None => None
    case Some(fs) => Some(es + fs)
  }

  function Decode(s: seq<byte>): Option<seq<Item>> {
    if s == [] then Some([])
    else if |s| < 2 || 2 + s[1] > |s| then None
    else Prepend([Item(s[0], s[2..2 + s[1]])], Decode(s[2 + s[1]..]))
  }

  lemma DecodeFront(e: Item, rest: seq<byte>)
    requires InfoElement.Ok(e)
    ensures var s := EncodeItem(InfoElement, e) + rest;
            && |s| >= 2 && s[0] == e.kind && s[1] == |e.data| && 2 + s[1] <= |s|
            && s[2..2 + s[1]] == e.data && s[2 + s[1]..] == rest
  {
  }

  lemma DecodeOne(s: seq<byte>)
    requires |s| >= 2 && 2 + s[1] <= |s|
    ensures Decode(s) == Prepend([Item(s[0], s[2..2 + s[1]])], Decode(s[2 + s[1]..]))
  {
  }

  lemma DecodeNone()
    ensures Decode([]) == Some([])
  {
  }

  lemma {:induction false} DecodeEncode(es: seq<Item>)
    requires AllOk(InfoElement, es)
    ensures Decode(Encode(InfoElement, es)) == Some(es)
  {
    hide Decode, EncodeItem;
    if es == [] {
      DecodeNone();
    } else {
      DecodeEncode(es[1..]);
      DecodeFront(es[0], Encode(InfoElement, es[1..]));
      DecodeOne(Encode(InfoElement, es));
      assert es == [es[0]] + es[1..];
    }
  }

  lemma EncodeFront(s: seq<byte>)
    requires |s| >= 2 && 2 + s[1] <= |s|
    ensures s == EncodeItem(InfoElement, Item(s[0], s[2..2 + s[1]])) + s[2 + s[1]..]
  {
    assert s == s[..2] + s[2..2 + s[1]] + s[2 + s[1]..];
  }

  lemma OkFront(e: Item, es: seq<Item>)
    requires InfoElement.Ok(e) && AllOk(InfoElement, es)
    ensures AllOk(InfoElement, [e] + es)
  {
  }

  lemma {:induction false} EncodeDecode(s: seq<byte>)
    ensures match Decode(s)
            case None => true
            case Some(es) => AllOk(InfoElement, es) && Encode(InfoElement, es) == s
  {
    hide Encode, EncodeItem;
    if |s| >= 2 && 2 + s[1] <= |s| {
      var e, rest := Item(s[0], s[2..2 + s[1]]), s[2 + s[1]..];
      EncodeDecode(rest);
      if Decode(rest).Some? {
        EncodeCons(InfoElement, e, Decode(rest).value);
        EncodeFront(s);
        OkFront(e, Decode(rest).value);
      }
    } else {
      EncodeNone(InfoElement);
    }
  }

  // ----- which slot an element goes to

  /** `Handled` are the pointer fields filled by element id; the others are vendor-specific. */
  datatype Slot = Handled(id: nat) | WpaIe | Wme | WmeTspec | WpsIe | VendorHtCap

  const HANDLED_IDS: set<nat> := {0, 1, 2, 3, 4, 5, 6, 16, 33, 36, 42, 45, 48, 50, 54, 55, 56, 61}

  const OUI_MICROSOFT: seq<byte> := [0x00, 0x50, 0xF2]
  const OUI_BROADCOM: seq<byte> := [0x00, 0x90, 0x4C]

  /** `rtw_ieee802_11_parse_vendor_specific` */
  function VendorSlot(d: seq<byte>): Option<Slot> {
    if |d| < 4 then None
    else if d[..3] == OUI_MICROSOFT then
      if d[3] == 1 then Some(WpaIe)
      else if d[3] == 2 then
        if |d| < 5 then None
        else if d[4] == 0 || d[4] == 1 then Some(Wme)
        else if d[4] == 2 then Some(WmeTspec)
        else None
      else if d[3] == 4 then Some(WpsIe)
      else None
    else if d[..3] == OUI_BROADCOM && d[3] == 0x33 then Some(VendorHtCap)
    else None
  }

  function SlotOf(e: Item): Option<Slot> {
    if e.kind == WLAN_EID_VENDOR_SPECIFIC then VendorSlot(e.data)
    else if e.kind in HANDLED_IDS then Some(Handled(e.kind))
    else None
  }

  /** Which element goes to which slot: by its id, or for vendor elements by the first bytes of the body. */
  lemma SlotSays(e: Item, id: nat)
    ensures var s, vendor, d := SlotOf(e), e.kind == 221, e.data;
            && (s == Some(Handled(id)) <==>
                  e.kind == id && id in {0, 1, 2, 3, 4, 5, 6, 16, 33, 36, 42, 45, 48, 50, 54, 55, 56, 61})
            && (s == Some(WpaIe) <==> vendor && [0x00, 0x50, 0xF2, 0x01] <= d)
            && (s == Some(Wme) <==>
                  vendor && ([0x00, 0x50, 0xF2, 0x02, 0x00] <= d || [0x00, 0x50, 0xF2, 0x02, 0x01] <= d))
            && (s == Some(WmeTspec) <==> vendor && [0x00, 0x50, 0xF2, 0x02, 0x02] <= d)
            && (s == Some(WpsIe) <==> vendor && [0x00, 0x50, 0xF2, 0x04] <= d)
            && (s == Some(VendorHtCap) <==> vendor && [0x00, 0x90, 0x4C, 0x33] <= d)
  {
    var d := e.data;
    assert |d| >= 4 ==> d[..3] == [d[0], d[1], d[2]];
  }

  type Elems = map<Slot, (nat, nat)>

  /** The slots after the first n elements: where the body starts, and how long it is. */
  function Slots(es: seq<Item>, n: nat): Elems
    requires n <= |es|
  {
    if n == 0 then map[]
    else
      match SlotOf(es[n - 1])
      case None => Slots(es, n - 1)
      case Some(slot) => Slots(es, n - 1)[slot := (Offset(InfoElement, es, n - 1) + 2, |es[n - 1].data|)]
  }

  datatype ParseRes = ParseOK | ParseUnknown | ParseFailed

  lemma DecodeStep(s: seq<byte>, pos: nat)
    requires pos + 2 <= |s|
    ensures var next := pos + 2 + s[pos + 1];
            Decode(s[pos..]) ==
            if next > |s| then None else Prepend([Item(s[pos], s[pos + 2..next])], Decode(s[next..]))
  {
    var t := s[pos..];
    if pos + 2 + s[pos + 1] <= |s| {
      assert t[2..2 + t[1]] == s[pos + 2..pos + 2 + s[pos + 1]] && t[2 + t[1]..] == s[pos + 2 + s[pos + 1]..];
    }
  }

  lemma DecodeEnd(t: seq<byte>)
    requires |t| < 2
    ensures Decode(t) == if |t| == 0 then Some([]) else None
  {
  }

  lemma PrependNone(r: Option<seq<Item>>)
    ensures Prepend([], r) == r
  {
    if r.Some? {
      assert [] + r.value == r.value;
    }
  }

  lemma PrependTwice(es: seq<Item>, fs: seq<Item>, r: Option<seq<Item>>)
    ensures Prepend(es, Prepend(fs, r)) == Prepend(es + fs, r)
  {
    if r.Some? {
      assert es + (fs + r.value) == (es + fs) + r.value;
    }
  }

  lemma EncodeAppend(es: seq<Item>, e: Item)
    ensures |Encode(InfoElement, es + [e])| == |Encode(InfoElement, es)| + 2 + |e.data|
  {
    EncodeSplit(InfoElement, es, [e]);
    EncodeCons(InfoElement, e, []);
    EncodeNone(InfoElement);
    assert [e] == [e] + [];
  }

  lemma {:induction false} SlotsPrefix(es: seq<Item>, e: Item, n: nat)
    requires n <= |es|
    ensures Slots(es + [e], n) == Slots(es, n)
  {
    hide SlotOf;
    if n > 0 {
      SlotsPrefix(es, e, n - 1);
      assert (es + [e])[..n - 1] == es[..n - 1];
    }
  }

  lemma SlotsAppend(es: seq<Item>, e: Item)
    ensures Slots(es + [e], |es| + 1)
         == match SlotOf(e)
            case None => Slots(es, |es|)
            case Some(slot) => Slots(es, |es|)[slot := (|Encode(InfoElement, es)| + 2, |e.data|)]
  {
    hide SlotOf, Encode;
    SlotsPrefix(es, e, |es|);
    assert (es + [e])[..|es|] == es;
  }

  method ParseElems(s: seq<byte>) returns (res: ParseRes, elems: Elems)
    ensures match Decode(s)
            case None => res == ParseFailed
            case Some(es) =>
              && elems == Slots(es, |es|)
              && res == if exists k :: 0 <= k < |es| && SlotOf(es[k]) == None then ParseUnknown else ParseOK
  {
    hide Encode, Decode, SlotOf, EncodeItem;
    var left, pos, unknown: nat := |s|, 0, 0;
    elems := map[];
    ghost var seen: seq<Item> := [];
    EncodeNone(InfoElement);
    assert s[0..] == s;
    PrependNone(Decode(s));
    while left >= 2
      invariant 0 <= pos && 0 <= left && pos + left == |s| && pos == |Encode(InfoElement, seen)|
      invariant Decode(s) == Prepend(seen, Decode(s[pos..]))
      invariant elems == Slots(seen, |seen|)
      invariant unknown > 0 <==> exists k :: 0 <= k < |seen| && SlotOf(seen[k]) == None
      decreases left
    {
      DecodeStep(s, pos);
      var id, elen: nat := s[pos], s[pos + 1];
      pos := pos + 2;
      left := left - 2;
      if elen > left {
        return ParseFailed, elems;
      }
      ghost var e := Item(id, s[pos..pos + elen]);
      SlotsAppend(seen, e);
      EncodeAppend(seen, e);
      PrependTwice(seen, [e], Decode(s[pos + elen..]));
      match SlotOf(Item(id, s[pos..pos + elen])) {
        case None => unknown := unknown + 1;
        case Some(slot) => elems := elems[slot := (pos, elen)];
      }
      left := left - elen;
      pos := pos + elen;
      seen := seen + [e];
      assert forall k :: 0 <= k < |seen| - 1 ==> seen[k] == seen[..|seen| - 1][k];
    }
    DecodeEnd(s[pos..]);
    assert seen + [] == seen;
    if left > 0 {
      return ParseFailed, elems;
    }
    return if unknown > 0 then ParseUnknown else ParseOK, elems;
  }

  // ----- what the parser promises

  /** It fails exactly on buffers that are not a concatenation of complete elements. */
  lemma ParsesExactlyCompleteLists(s: seq<byte>)
    ensures Decode(s).Some? <==> exists es :: AllOk(InfoElement, es) && Encode(InfoElement, es) == s
  {
    EncodeDecode(s);
    forall es | AllOk(InfoElement, es) && Encode(InfoElement, es) == s ensures Decode(s).Some? {
      DecodeEncode(es);
    }
  }

  /** The last of the first n elements that goes to a slot; -1 when none does. */
  function Last(es: seq<Item>, n: nat, slot: Slot): (k: int)
    requires n <= |es|
    ensures -1 <= k < n
    ensures k >= 0 ==> SlotOf(es[k]) == Some(slot)
    ensures forall j :: k < j < n ==> SlotOf(es[j]) != Some(slot)
  {
    if n == 0 then -1 else if SlotOf(es[n - 1]) == Some(slot) then n - 1 else Last(es, n - 1, slot)
  }

  /** Each slot describes the body of the last element that goes to it, and lies inside the buffer. */
  lemma {:induction false} SlotIsLast(es: seq<Item>, n: nat, slot: Slot)
    requires n <= |es|
    ensures var k := Last(es, n, slot);
            && (slot in Slots(es, n) <==> k >= 0)
            && (k >= 0 ==>
                  && Slots(es, n)[slot] == (Offset(InfoElement, es, k) + 2, |es[k].data|)
                  && Slots(es, n)[slot].0 + Slots(es, n)[slot].1 <= |Encode(InfoElement, es)|)
  {
    hide SlotOf, Encode;
    if n > 0 {
      SlotIsLast(es, n - 1, slot);
      ItemAt(InfoElement, es, n - 1);
    }
  }

  lemma HandledSlot(e: Item, id: nat)
    requires id in HANDLED_IDS
    ensures SlotOf(e) == Some(Handled(id)) <==> e.kind == id
  {
  }

  lemma {:induction false} OffsetGrows(es: seq<Item>, j: nat, k: nat)
    requires j < k < |es|
    ensures Offset(InfoElement, es, j) < Offset(InfoElement, es, k)
    decreases k - j
  {
    hide Encode;
    ItemAt(InfoElement, es, j);
    if j + 1 < k {
      OffsetGrows(es, j + 1, k);
    }
  }

  /**
   The parser keeps the last element of an id where `rtw_get_ie` finds the first, so the two agree exactly on the ids
   that do not occur twice.
   */
  lemma ParsersAgree(es: seq<Item>, id: nat)
    requires AllOk(InfoElement, es) && id in HANDLED_IDS
    ensures var elems, k := Slots(es, |es|), First(es, id);
            && (Handled(id) in elems <==> k < |es|)
            && (k < |es| ==>
                  (elems[Handled(id)] == (Offset(InfoElement, es, k) + 2, |es[k].data|)
                   <==> forall j :: k < j < |es| ==> es[j].kind != id))
  {
    hide Encode, SlotOf, Slots, First, Last;
    var n, k := |es|, First(es, id);
    var last := Last(es, n, Handled(id));
    SlotIsLast(es, n, Handled(id));
    forall j | 0 <= j < n ensures SlotOf(es[j]) == Some(Handled(id)) <==> es[j].kind == id {
      HandledSlot(es[j], id);
    }
    if k < n && k < last {
      OffsetGrows(es, k, last);
    }
  }
}
