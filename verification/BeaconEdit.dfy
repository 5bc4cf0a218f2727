/**
 Splicing elements into a beacon in place: `rtw_add_bcn_ie`, `rtw_remove_bcn_ie` and `update_BCNTIM` of `rtw_ap.c`.
 */
module BeaconEdit {
  import opened Bytes
  import opened Tlv
  import opened ElementSearch
  import opened Bssid

  const TIM_IE := 5
  const SSID_IE := 0
  const SUPPORTEDRATES_IE := 1
  const DSSET_IE := 3

  // ----- what the edits mean on a list of elements

  /** The number of leading elements with a smaller id: where an element of this id belongs. */
  function Place(es: seq<Item>, id: nat): (k: nat)
    ensures k <= |es|
    ensures forall j :: 0 <= j < k ==> es[j].kind < id
    ensures k < |es| ==> es[k].kind >= id
  {
    if es == [] || es[0].kind >= id then 0 else 1 + Place(es[1..], id)
  }

  predicate Present(es: seq<Item>, id: nat) {
    var k := Place(es, id); k < |es| && es[k].kind == id
  }

  function Added(es: seq<Item>, id: nat, data: seq<byte>): seq<Item> {
    var k := Place(es, id);
    if Present(es, id) then es[k := Item(id, data)] else es[..k] + [Item(id, data)] + es[k..]
  }

  function Removed(es: seq<Item>, id: nat): seq<Item> {
    var k := First(es, id);
    if k < |es| && es[k].data != [] then Without(es, k) else es
  }

  // ----- the splice all three share

  /**
   `b` with bytes [at, at + cut) of its first `n` replaced by `t`, the rest of those moved to fit; nothing else is
   written.
   */
  function Spliced(b: seq<byte>, n: nat, at: nat, cut: nat, t: seq<byte>): (r: seq<byte>)
    requires at + cut <= n <= |b| && n - cut + |t| <= |b|
    ensures |r| == |b|
  {
    b[..at] + t + b[at + cut..n] + b[n - cut + |t|..]
  }

  lemma SplicedIs(b: seq<byte>, n: nat, at: nat, cut: nat, t: seq<byte>, end: nat)
    requires at + cut <= n <= |b| && end == n - cut + |t| <= |b|
    ensures Spliced(b, n, at, cut, t) == b[..at] + t + b[at + cut..n] + b[end..]
  {
  }

  lemma TwoStores(b: seq<byte>, n: nat, at: nat, cut: nat, t: seq<byte>)
    requires at + cut <= n <= |b| && n - cut + |t| <= |b|
    ensures Patch(Patch(b, at, t), at + |t|, b[at + cut..n]) == Spliced(b, n, at, cut, t)
  {
    hide Patch, Spliced;
    var r, s1 := b[at + cut..n], Patch(b, at, t);
    PatchParts(b, at, t);
    SliceOfSuffix(b, at + |t|, |r|);
    SliceOfSuffix(s1, at + |t|, |r|);
    PatchParts(s1, at + |t|, r);
    SplicedIs(b, n, at, cut, t, at + |t| + |r|);
  }

  /** The remainder is backed up, the new bytes are stored, and the remainder is put back behind them. */
  method Splice(bss: BssidEx, at: nat, cut: nat, t: seq<byte>)
    requires at + cut <= bss.IELength <= bss.IEs.Length && bss.IELength - cut + |t| <= bss.IEs.Length
    modifies bss, bss.IEs
    ensures bss.IELength == old(bss.IELength) - cut + |t|
    ensures bss.IEs[..] == Spliced(old(bss.IEs[..]), old(bss.IELength), at, cut, t)
  {
    hide Patch, Spliced;
    var remainder := bss.IEs[at + cut..bss.IELength];
    TwoStores(bss.IEs[..], bss.IELength, at, cut, t);
    Store(bss.IEs, at, t);
    Store(bss.IEs, at + |t|, remainder);
    bss.IELength := at + |t| + |remainder|;
  }

  lemma SplicedBytes(fixed: seq<byte>, p: seq<byte>, c: seq<byte>, s: seq<byte>, post: seq<byte>, t: seq<byte>)
    requires |t| <= |c| + |post|
    ensures var b, n := fixed + (p + c + s) + post, |fixed| + |p| + |c| + |s|;
            var b' := Spliced(b, n, |fixed| + |p|, |c|, t);
            && b'[..|fixed|] == fixed
            && b'[|fixed|..|fixed| + |p| + |t| + |s|] == p + t + s
  {
    var b, n := fixed + (p + c + s) + post, |fixed| + |p| + |c| + |s|;
    assert b[..|fixed| + |p|] == fixed + p && b[|fixed| + |p| + |c|..n] == s;
  }

  /** A list in three parts. */
  lemma ThreeParts(es: seq<Item>, i: nat, j: nat)
    requires i <= j <= |es|
    ensures var p, c := Encode(InfoElement, es[..i]), Encode(InfoElement, es[i..j]);
            && Encode(InfoElement, es) == p + c + Encode(InfoElement, es[j..])
            && Offset(InfoElement, es, i) == |p| && Offset(InfoElement, es, j) == |p| + |c|
  {
    hide Encode;
    EncodeSplit(InfoElement, es[..i], es[i..j]);
    EncodeSplit(InfoElement, es[..j], es[j..]);
    assert es[..i] + es[i..j] == es[..j] && es[..j] + es[j..] == es;
  }

  /** Replacing the encodings of es[i..j] by that of `mid` is replacing those elements. */
  lemma SplicedElements(b: seq<byte>, n: nat, es: seq<Item>, i: nat, j: nat, mid: seq<Item>)
    requires FIXED_IE_LENGTH <= n && HoldsElements(b, FIXED_IE_LENGTH, n - FIXED_IE_LENGTH, es)
    requires i <= j <= |es| && AllOk(InfoElement, mid)
    ensures var at, end := Offset(InfoElement, es, i), Offset(InfoElement, es, j);
            && at <= end <= n - FIXED_IE_LENGTH
            && var t, es' := Encode(InfoElement, mid), es[..i] + mid + es[j..];
            && |Encode(InfoElement, es')| == n - FIXED_IE_LENGTH - (end - at) + |t|
            && (n - (end - at) + |t| <= |b| ==>
                  && var b' := Spliced(b, n, FIXED_IE_LENGTH + at, end - at, t);
                  && b'[..FIXED_IE_LENGTH] == b[..FIXED_IE_LENGTH]
                  && HoldsElements(b', FIXED_IE_LENGTH, |Encode(InfoElement, es')|, es'))
  {
    hide Encode, Offset;
    ThreeParts(es, i, j);
    EncodeSplit(InfoElement, es[..i], mid);
    EncodeSplit(InfoElement, es[..i] + mid, es[j..]);
    var p, c, s := Encode(InfoElement, es[..i]), Encode(InfoElement, es[i..j]), Encode(InfoElement, es[j..]);
    var t := Encode(InfoElement, mid);
    assert b == b[..FIXED_IE_LENGTH] + (p + c + s) + b[n..];
    if n - |c| + |t| <= |b| {
      SplicedBytes(b[..FIXED_IE_LENGTH], p, c, s, b[n..], t);
    }
  }

  // ----- adding and removing an element

  /**
   What `rtw_add_bcn_ie` needs of the list: an element to splice at or behind, with a body. Otherwise it follows
   pointers that it has not set.
   */
  ghost predicate HasAnchor(es: seq<Item>, id: nat) {
    var k := Place(es, id);
    if Present(es, id) then es[k].data != [] else k > 0 && es[k - 1].data != []
  }

  /** The search loop of `rtw_add_bcn_ie`: the element of the id, or the last one before its place. */
  method FindAnchor(bss: BssidEx, index: byte, ghost es: seq<Item>) returns (bmatch: bool, p: nat, ielen: nat)
    requires bss.Holds(es)
    ensures bmatch == Present(es, index)
    ensures var k := Place(es, index);
            && (bmatch ==> p == FIXED_IE_LENGTH + Offset(InfoElement, es, k) && ielen == |es[k].data|)
            && (!bmatch && k > 0 ==> p == FIXED_IE_LENGTH + Offset(InfoElement, es, k - 1) && ielen == |es[k - 1].data|)
  {
    hide Encode, Offset, Place, HoldsElements;
    ghost var b, n, k, j := bss.IEs[..], bss.IELength, Place(es, index), 0;
    bmatch, p, ielen := false, 0, 0;
    var i: nat := FIXED_IE_LENGTH;
    OffsetZero(InfoElement, es);
    while i < bss.IELength
      invariant 0 <= j <= k && !bmatch
      invariant i == FIXED_IE_LENGTH + Offset(InfoElement, es, j)
      invariant j > 0 ==> p == FIXED_IE_LENGTH + Offset(InfoElement, es, j - 1) && ielen == |es[j - 1].data|
      decreases |es| - j
    {
      EndOfElements(b, FIXED_IE_LENGTH, n - FIXED_IE_LENGTH, es, j);
      HeaderBytes(b, FIXED_IE_LENGTH, n - FIXED_IE_LENGTH, es, j);
      var id, len: nat := bss.IEs[i], bss.IEs[i + 1];
      if id > index {
        return;
      } else if id == index {
        p, ielen, bmatch := i, len, true;
        return;
      }
      assert j < k;
      p, ielen := i, len;
      i := i + (len + 2);
      j := j + 1;
    }
    EndOfElements(b, FIXED_IE_LENGTH, n - FIXED_IE_LENGTH, es, j);
  }

  lemma AddedIs(es: seq<Item>, id: nat, data: seq<byte>)
    ensures var k := Place(es, id);
            Added(es, id, data) == es[..k] + [Item(id, data)] + es[if Present(es, id) then k + 1 else k..]
  {
    hide Place;
    if Present(es, id) {
      UpdateSplit(es, Place(es, id), Item(id, data));
    }
  }

  lemma EncodeOne(e: Item)
    requires InfoElement.Ok(e)
    ensures Encode(InfoElement, [e]) == [e.kind, |e.data|] + e.data
  {
    EncodeCons(InfoElement, e, []);
    EncodeNone(InfoElement);
    assert [e] == [e] + [];
  }

  lemma SplicedTail(b: seq<byte>, n: nat, at: nat, cut: nat, t: seq<byte>)
    requires at + cut <= n <= |b| && n - cut + |t| <= |b|
    ensures Spliced(b, n, at, cut, t)[n - cut + |t|..] == b[n - cut + |t|..]
  {
  }

  /** `rtw_add_bcn_ie` */
  method AddBcnIe(bss: BssidEx, index: byte, data: seq<byte>, ghost es: seq<Item>)
    requires bss.Holds(es) && |data| < 256 && HasAnchor(es, index)
    requires FIXED_IE_LENGTH + |Encode(InfoElement, Added(es, index, data))| <= MAX_IE_SZ
    modifies bss, bss.IEs
    ensures bss.Holds(Added(es, index, data))
    ensures bss.IEs[..FIXED_IE_LENGTH] == old(bss.IEs[..FIXED_IE_LENGTH])
    ensures bss.IEs[bss.IELength..] == old(bss.IEs[..])[bss.IELength..]
  {
    hide Encode, Offset, Place, HoldsElements, Spliced, Added;
    ghost var b, n, k := bss.IEs[..], bss.IELength, Place(es, index);
    var bmatch, p, ielen := FindAnchor(bss, index, es);
    ghost var m := if bmatch then k + 1 else k;
    ghost var e := Item(index, data);
    HeaderBytes(b, FIXED_IE_LENGTH, n - FIXED_IE_LENGTH, es, if bmatch then k else k - 1);
    EncodeOne(e);
    SplicedElements(b, n, es, k, m, [e]);
    AddedIs(es, index, data);
    if ielen > 0 {
      var dst := if bmatch then p else p + ielen + 2;
      Splice(bss, dst, p + ielen + 2 - dst, [index, |data|] + data);
      SplicedTail(b, n, dst, p + ielen + 2 - dst, [index, |data|] + data);
    }
  }

  /** `rtw_remove_bcn_ie` */
  method RemoveBcnIe(bss: BssidEx, index: byte, ghost es: seq<Item>)
    requires bss.Holds(es)
    modifies bss, bss.IEs
    ensures bss.Holds(Removed(es, index))
    ensures bss.IEs[..FIXED_IE_LENGTH] == old(bss.IEs[..FIXED_IE_LENGTH])
  {
    hide Encode, Offset, First, HoldsElements, Spliced;
    ghost var b, n, k := bss.IEs[..], bss.IELength, First(es, index);
    var found := GetIe(bss.IEs, FIXED_IE_LENGTH, index, bss.IELength - FIXED_IE_LENGTH, es);
    if found == None || found.value.1 == 0 {
      return;
    }
    var (p, ielen) := found.value;
    HeaderBytes(b, FIXED_IE_LENGTH, n - FIXED_IE_LENGTH, es, k);
    EncodeNone(InfoElement);
    SplicedElements(b, n, es, k, k + 1, []);
    assert Removed(es, index) == es[..k] + [] + es[k + 1..];
    Splice(bss, p, ielen + 2, []);
  }

  // ----- the traffic indication map

  /** Where `update_BCNTIM` puts a new TIM element: past as many bytes as SSID, rates and a DS element take. */
  function TimOffset(es: seq<Item>): nat {
    var s, r := First(es, SSID_IE), First(es, SUPPORTEDRATES_IE);
    (if s < |es| then |es[s].data| + 2 else 0) + (if r < |es| then |es[r].data| + 2 else 0) + 3
  }

  /** The body of the TIM element: DTIM count and period, bitmap control, and one or two bytes of the bitmap. */
  function TimBody(bitmap: nat): (d: seq<byte>)
    requires bitmap < 0x1_0000
    ensures 4 <= |d| <= 5
  {
    [0, 1, bitmap % 2, bitmap % 256] + if bitmap >= 0x100 && bitmap % 256 / 4 != 0 then [bitmap / 256] else []
  }

  predicate HasTim(es: seq<Item>) {
    var k := First(es, TIM_IE); k < |es| && es[k].data != []
  }

  function WithTim(es: seq<Item>, m: nat, bitmap: nat): seq<Item>
    requires m <= |es| && bitmap < 0x1_0000
  {
    var e := Item(TIM_IE, TimBody(bitmap));
    if HasTim(es) then es[First(es, TIM_IE) := e] else es[..m] + [e] + es[m..]
  }

  /** The bytes of the beacon that a TIM element takes the place of: the old one, or none where a new one goes. */
  function TimRegion(es: seq<Item>): (r: (nat, nat))
  {
    var k := First(es, TIM_IE);
    if HasTim(es) then (FIXED_IE_LENGTH + Offset(InfoElement, es, k), |es[k].data| + 2)
    else (FIXED_IE_LENGTH + TimOffset(es), 0)
  }

  /** A boundary between elements at which the code puts a new TIM element, if it needs one. */
  predicate TimBoundary(es: seq<Item>, m: nat) {
    m <= |es| && (HasTim(es) || Offset(InfoElement, es, m) == TimOffset(es))
  }

  function TimBytes(bitmap: nat): (t: seq<byte>)
    requires bitmap < 0x1_0000
  {
    [TIM_IE, |TimBody(bitmap)|] + TimBody(bitmap)
  }

  lemma TimIndex(es: seq<Item>)
    requires HasTim(es)
    ensures First(es, TIM_IE) < |es|
  {
  }

  lemma WithTimIs(es: seq<Item>, m: nat, bitmap: nat)
    requires m <= |es| && bitmap < 0x1_0000
    ensures var i := if HasTim(es) then First(es, TIM_IE) else m;
            var j := if HasTim(es) then i + 1 else m;
            i <= j <= |es| && WithTim(es, m, bitmap) == es[..i] + [Item(TIM_IE, TimBody(bitmap))] + es[j..]
  {
    hide First, TimBody, HasTim;
    if HasTim(es) {
      TimIndex(es);
      UpdateSplit(es, First(es, TIM_IE), Item(TIM_IE, TimBody(bitmap)));
    }
  }

  lemma SplicedTim(b: seq<byte>, n: nat, es: seq<Item>, m: nat, bitmap: nat)
    requires FIXED_IE_LENGTH <= n && HoldsElements(b, FIXED_IE_LENGTH, n - FIXED_IE_LENGTH, es)
    requires bitmap < 0x1_0000 && TimBoundary(es, m)
    requires TimRegion(es).0 + TimRegion(es).1 <= n && n - TimRegion(es).1 + |TimBytes(bitmap)| <= |b|
    ensures var n' := n - TimRegion(es).1 + |TimBytes(bitmap)|;
            && FIXED_IE_LENGTH <= n'
            && HoldsElements(Spliced(b, n, TimRegion(es).0, TimRegion(es).1, TimBytes(bitmap)),
                             FIXED_IE_LENGTH, n' - FIXED_IE_LENGTH, WithTim(es, m, bitmap))
  {
    hide Encode, Offset, First, HoldsElements, Spliced, WithTim, TimBody;
    var e := Item(TIM_IE, TimBody(bitmap));
    var i := if HasTim(es) then First(es, TIM_IE) else m;
    var j := if HasTim(es) then i + 1 else m;
    if HasTim(es) {
      HeaderBytes(b, FIXED_IE_LENGTH, n - FIXED_IE_LENGTH, es, i);
    }
    EncodeOne(e);
    SplicedElements(b, n, es, i, j, [e]);
    WithTimIs(es, m, bitmap);
  }

  /** The first half of `update_BCNTIM`: where the TIM element is and how long, or where a new one goes. */
  method FindTim(bss: BssidEx, ghost es: seq<Item>) returns (dst: nat, timIelen: nat)
    requires bss.Holds(es)
    ensures var k := First(es, TIM_IE);
            if HasTim(es) then dst == FIXED_IE_LENGTH + Offset(InfoElement, es, k) && timIelen == |es[k].data| + 2
            else dst == FIXED_IE_LENGTH + TimOffset(es) && timIelen == 0
  {
    hide Encode, Offset, First, HoldsElements;
    var limit := bss.IELength - FIXED_IE_LENGTH;
    var tim := GetIe(bss.IEs, FIXED_IE_LENGTH, TIM_IE, limit, es);
    if tim.Some? && tim.value.1 > 0 {
      return tim.value.0, tim.value.1 + 2;
    }
    var offset := FIXED_IE_LENGTH;
    var ssid := GetIe(bss.IEs, FIXED_IE_LENGTH, SSID_IE, limit, es);
    if ssid.Some? {
      offset := offset + ssid.value.1 + 2;
    }
    var rates := GetIe(bss.IEs, FIXED_IE_LENGTH, SUPPORTEDRATES_IE, limit, es);
    if rates.Some? {
      offset := offset + rates.value.1 + 2;
    }
    return offset + 3, 0;
  }

  /**
   `update_BCNTIM`: the one splice it does, for any list long enough, and what that is on the list when there is a
   boundary where the code takes one to be.
   */
  method UpdateBcnTim(bss: BssidEx, bitmap: nat, ghost es: seq<Item>, ghost m: nat)
    requires bss.Holds(es) && bitmap < 0x1_0000
    requires TimRegion(es).0 + TimRegion(es).1 <= bss.IELength
    requires bss.IELength - TimRegion(es).1 + |TimBytes(bitmap)| <= MAX_IE_SZ
    modifies bss, bss.IEs
    ensures bss.IELength == old(bss.IELength) - TimRegion(es).1 + |TimBytes(bitmap)|
    ensures bss.IEs[..] ==
            Spliced(old(bss.IEs[..]), old(bss.IELength), TimRegion(es).0, TimRegion(es).1, TimBytes(bitmap))
    ensures TimBoundary(es, m) ==> bss.Holds(WithTim(es, m, bitmap))
  {
    hide Encode, Offset, First, HoldsElements, Spliced, WithTim, TimBody, TimBoundary;
    ghost var b, n := bss.IEs[..], bss.IELength;
    var dst, timIelen := FindTim(bss, es);
    var body := TimBody(bitmap);
    Splice(bss, dst, timIelen, [TIM_IE, |body|] + body);
    if TimBoundary(es, m) {
      SplicedTim(b, n, es, m, bitmap);
    }
  }

  // ----- laws of the edits

  predicate Ascending(es: seq<Item>) {
    forall i, j :: 0 <= i < j < |es| ==> es[i].kind <= es[j].kind
  }

  lemma WithoutAdded(es: seq<Item>, id: nat, data: seq<byte>)
    ensures Without(Added(es, id, data), Place(es, id)) == Without(es, if Present(es, id) then Place(es, id) else |es|)
  {
    hide Place, Without;
    WithoutInserted(es, Place(es, id), Item(id, data));
    WithoutNone(es);
  }

  /** On an ascending list, an id's place is its first element, if it has one. */
  lemma PlaceIsFirst(es: seq<Item>, id: nat)
    requires Ascending(es)
    ensures First(es, id) == if Present(es, id) then Place(es, id) else |es|
  {
    FirstIs(es, id, if Present(es, id) then Place(es, id) else |es|);
  }

  /** On an ascending list, adding sets the first element of that id, keeps the order, and keeps every other element. */
  lemma AddedOnAscending(es: seq<Item>, id: nat, data: seq<byte>)
    requires Ascending(es)
    ensures var es', k := Added(es, id, data), First(Added(es, id, data), id);
            && Ascending(es')
            && k < |es'| && es'[k] == Item(id, data)
            && Without(es', k) == Without(es, First(es, id))
  {
    hide Place, First, Without;
    PlaceIsFirst(es, id);
    var k, es' := Place(es, id), Added(es, id, data);
    assert forall j :: 0 <= j < k ==> es'[j] == es[j];
    FirstIs(es', id, k);
    WithoutAdded(es, id, data);
  }

  /**
   Removing undoes adding a new id exactly when the element added has a body: `rtw_remove_bcn_ie` leaves empty ones.
   */
  lemma RemoveUndoesAdd(es: seq<Item>, id: nat, data: seq<byte>)
    requires First(es, id) == |es|
    ensures Removed(Added(es, id, data), id) == es <==> data != []
  {
    hide Place, First, Without;
    var k := Place(es, id);
    var es' := Added(es, id, data);
    assert forall j :: 0 <= j < |es| ==> es[j].kind != id;
    assert forall j :: 0 <= j < k ==> es'[j] == es[j];
    FirstIs(es', id, k);
    WithoutInserted(es, k, Item(id, data));
    assert |es'| == |es| + 1;
  }

  lemma PlaceIs(es: seq<Item>, id: nat, k: nat)
    requires k < |es| && es[k].kind == id && forall j :: 0 <= j < k ==> es[j].kind < id
    ensures Place(es, id) == k
  {
  }

  /** Adding the same element twice is adding it once. */
  lemma AddIsIdempotent(es: seq<Item>, id: nat, data: seq<byte>)
    ensures Added(Added(es, id, data), id, data) == Added(es, id, data)
  {
    var k, es' := Place(es, id), Added(es, id, data);
    PlaceIs(es', id, k);
  }

  /**
   With a fixed bitmap, updating twice is updating once exactly when the second update finds the TIM element the first
   one wrote: an empty TIM element in front of it makes every update insert another.
   */
  lemma TimUpdateIsIdempotent(es: seq<Item>, m: nat, m': nat, bitmap: nat)
    requires m <= |es| && bitmap < 0x1_0000 && m' <= |WithTim(es, m, bitmap)|
    ensures WithTim(WithTim(es, m, bitmap), m', bitmap) == WithTim(es, m, bitmap)
       <==> HasTim(es) || m <= First(es, TIM_IE)
  {
    var es' := WithTim(es, m, bitmap);
    var k := First(es, TIM_IE);
    if HasTim(es) {
      FirstIs(es', TIM_IE, k);
    } else if m <= k {
      FirstIs(es', TIM_IE, m);
    } else {
      FirstIs(es', TIM_IE, k);
      assert es'[k] == es[k];
    }
  }

  /** The list opens with an SSID element, supported rates and a one-byte DS element, the first two optional. */
  ghost predicate OpensWith(es: seq<Item>, ssid: nat, rates: nat) {
    && ssid <= 1 && rates <= 1 && ssid + rates < |es|
    && (ssid == 1 ==> es[0].kind == SSID_IE)
    && (rates == 1 ==> es[ssid].kind == SUPPORTEDRATES_IE)
    && es[ssid + rates].kind == DSSET_IE && |es[ssid + rates].data| == 1
    && (ssid == 0 ==> First(es, SSID_IE) == |es|)
    && (rates == 0 ==> First(es, SUPPORTEDRATES_IE) == |es|)
  }

  /**
   Behind such an opening the new TIM element falls on a boundary, right after the DS element, and updating is
   idempotent.
   */
  lemma TimGoesBehindDs(es: seq<Item>, ssid: nat, rates: nat)
    requires OpensWith(es, ssid, rates)
    ensures Offset(InfoElement, es, ssid + rates + 1) == TimOffset(es)
    ensures ssid + rates + 1 <= First(es, TIM_IE)
  {
    hide Encode;
    OffsetZero(InfoElement, es);
    if ssid == 1 {
      FirstIs(es, SSID_IE, 0);
      ItemAt(InfoElement, es, 0);
    }
    if rates == 1 {
      FirstIs(es, SUPPORTEDRATES_IE, ssid);
      ItemAt(InfoElement, es, ssid);
    }
    ItemAt(InfoElement, es, ssid + rates);
  }

  /** SSID and rates elements, as far as the list has them, are its first `j`. */
  predicate RatesInFront(es: seq<Item>, j: nat) {
    var s, r := First(es, SSID_IE), First(es, SUPPORTEDRATES_IE);
    && j == (if s < |es| then 1 else 0) + (if r < |es| then 1 else 0)
    && (s < |es| ==> s < j) && (r < |es| ==> r < j)
  }

  lemma RatesTakeRoom(es: seq<Item>, j: nat)
    requires RatesInFront(es, j)
    ensures j <= |es| && TimOffset(es) == Offset(InfoElement, es, j) + 3
  {
    hide Encode, First, Offset;
    OffsetZero(InfoElement, es);
    if j > 0 { ItemAt(InfoElement, es, 0); }
    if j > 1 { ItemAt(InfoElement, es, 1); }
  }

  lemma {:induction false} OffsetsGrow(es: seq<Item>, i: nat, k: nat)
    requires i <= k <= |es|
    ensures Offset(InfoElement, es, k) >= Offset(InfoElement, es, i) + 2 * (k - i)
  {
    hide Encode, Offset;
    if i < k {
      OffsetsGrow(es, i, k - 1);
      ItemAt(InfoElement, es, k - 1);
    }
  }

  /**
   With SSID and rates in front there is a boundary where the code takes one to be exactly when the next element has one
   byte, whatever its id: the code does not look at that element.
   */
  lemma TimBoundaryIff(es: seq<Item>, j: nat)
    requires !HasTim(es) && RatesInFront(es, j)
    ensures (exists m: nat :: TimBoundary(es, m)) <==> j < |es| && |es[j].data| == 1
  {
    hide Encode, First, Offset, HasTim, TimOffset, RatesInFront;
    RatesTakeRoom(es, j);
    if j < |es| {
      ItemAt(InfoElement, es, j);
    }
    if j < |es| && |es[j].data| == 1 {
      assert TimBoundary(es, j + 1);
    } else {
      forall m: nat ensures !TimBoundary(es, m) {
        if j < m <= |es| {
          OffsetsGrow(es, j + 1, m);
        } else if m <= j {
          OffsetsGrow(es, m, j);
        }
      }
    }
  }

  lemma NoTim(es: seq<Item>)
    requires First(es, TIM_IE) == |es|
    ensures !HasTim(es)
  {
  }

  /** An ascending list without a DS element: the new TIM element lands inside the element behind the rates. */
  lemma TimLandsInside(ssid: byte, rate: byte, body: seq<byte>)
    requires |body| == 4
    ensures var es := [Item(SSID_IE, [ssid]), Item(SUPPORTEDRATES_IE, [rate]), Item(50, body)];
            && Ascending(es) && (forall m: nat :: !TimBoundary(es, m))
            && Offset(InfoElement, es, 2) < TimOffset(es) < Offset(InfoElement, es, 3)
  {
    hide Encode, Offset, HasTim, TimOffset, TimBoundary;
    var es := [Item(SSID_IE, [ssid]), Item(SUPPORTEDRATES_IE, [rate]), Item(50, body)];
    FirstIs(es, SSID_IE, 0);
    FirstIs(es, SUPPORTEDRATES_IE, 1);
    FirstIs(es, TIM_IE, 3);
    NoTim(es);
    RatesTakeRoom(es, 2);
    ItemAt(InfoElement, es, 2);
    TimBoundaryIff(es, 2);
  }

  /** Whether frames are waiting for the station with this association id. */
  predicate AidBit(bitmap: nat, aid: nat) {
    if aid == 0 then bitmap % 2 == 1 else AidBit(bitmap / 2, aid - 1)
  }

  function Pow2(n: nat): (p: nat)
    ensures p > 0
  {
    if n == 0 then 1 else 2 * Pow2(n - 1)
  }

  /** A number below 2^n that is not zero has a bit among the lowest n, whatever lies above. */
  lemma {:induction false} LowestBit(x: nat, high: nat, n: nat) returns (aid: nat)
    requires 0 < x < Pow2(n)
    ensures aid < n && AidBit(x + Pow2(n) * high, aid)
  {
    if x % 2 == 1 {
      aid := 0;
      assert x + Pow2(n) * high == x + 2 * (Pow2(n - 1) * high);
    } else {
      aid := LowestBit(x / 2, high, n - 1);
      assert (x + Pow2(n) * high) / 2 == x / 2 + Pow2(n - 1) * high by {
        assert x + Pow2(n) * high == 2 * (x / 2 + Pow2(n - 1) * high);
      }
      aid := aid + 1;
    }
  }

  lemma {:induction false} NoBits(high: nat, n: nat)
    ensures forall aid :: 0 <= aid < n ==> !AidBit(Pow2(n) * high, aid)
  {
    if n > 0 {
      NoBits(high, n - 1);
      assert Pow2(n) * high == 2 * (Pow2(n - 1) * high);
    }
  }

  /**
   Frames waiting for stations 8 to 15 are announced exactly while one is waiting for a station from 2 to 7 as well.
   */
  lemma TimShowsHighStations(bitmap: nat)
    requires 0x100 <= bitmap < 0x1_0000
    ensures (|TimBody(bitmap)| == 5 && TimBody(bitmap)[4] == bitmap / 256)
       <==> exists aid :: 2 <= aid < 8 && AidBit(bitmap, aid)
  {
    var x := bitmap % 256 / 4;
    assert Pow2(6) == 64;
    assert bitmap / 2 / 2 == x + 64 * (bitmap / 256);
    forall aid: nat | 2 <= aid ensures AidBit(bitmap, aid) == AidBit(x + 64 * (bitmap / 256), aid - 2) {
      assert AidBit(bitmap, aid) == AidBit(bitmap / 2, aid - 1);
    }
    if x != 0 {
      var aid := LowestBit(x, bitmap / 256, 6);
      assert 2 <= aid + 2 < 8 && AidBit(bitmap, aid + 2);
      assert |TimBody(bitmap)| == 5;
      assert TimBody(bitmap)[4] == bitmap / 256;
      assert exists aid :: 2 <= aid < 8 && AidBit(bitmap, aid);
    } else {
      NoBits(bitmap / 256, 6);
      forall aid | 2 <= aid < 8 ensures !AidBit(bitmap, aid) {
        assert !AidBit(Pow2(6) * (bitmap / 256), aid - 2);
      }
      assert |TimBody(bitmap)| == 4;
      assert !exists aid :: 2 <= aid < 8 && AidBit(bitmap, aid);
    }
  }

  lemma {:induction false} LowBits(x: nat, high: nat, n: nat, aid: nat)
    requires aid < n
    ensures AidBit(x + Pow2(n) * high, aid) <==> AidBit(x, aid)
  {
    assert x + Pow2(n) * high == x + 2 * (Pow2(n - 1) * high);
    if aid > 0 {
      assert (x + 2 * (Pow2(n - 1) * high)) / 2 == x / 2 + Pow2(n - 1) * high;
      LowBits(x / 2, high, n - 1, aid - 1);
    }
  }

  lemma {:induction false} HighBits(q: nat, r: nat, n: nat, aid: nat)
    requires r < Pow2(n)
    ensures AidBit(r + Pow2(n) * q, n + aid) <==> AidBit(q, aid)
  {
    if n > 0 {
      assert r + Pow2(n) * q == r + 2 * (Pow2(n - 1) * q);
      assert (r + 2 * (Pow2(n - 1) * q)) / 2 == r / 2 + Pow2(n - 1) * q;
      HighBits(q, r / 2, n - 1, aid);
    }
  }

  /**
   The TIM element, station by station: DTIM count 0 and period 1, the group bit in the control byte, each station up to
   7 in the first bitmap byte, and each from 8 on in the second if there is one.
   */
  lemma TimBodySays(bitmap: nat)
    requires bitmap < 0x1_0000
    ensures var d := TimBody(bitmap);
            && d[0] == 0 && d[1] == 1 && d[2] == (if AidBit(bitmap, 0) then 1 else 0)
            && (forall aid: nat :: aid < 8 ==> (AidBit(d[3], aid) <==> AidBit(bitmap, aid)))
            && (|d| == 5 ==> forall aid: nat :: aid < 8 ==> (AidBit(d[4], aid) <==> AidBit(bitmap, 8 + aid)))
  {
    assert Pow2(8) == 256 by { assert Pow2(4) == 16; assert Pow2(8) == 16 * Pow2(4); }
    forall aid: nat | aid < 8 ensures AidBit(bitmap % 256, aid) <==> AidBit(bitmap, aid) {
      LowBits(bitmap % 256, bitmap / 256, 8, aid);
    }
    forall aid: nat ensures AidBit(bitmap, 8 + aid) <==> AidBit(bitmap / 256, aid) {
      HighBits(bitmap / 256, bitmap % 256, 8, aid);
    }
  }
}
