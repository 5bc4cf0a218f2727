/**
 The three type-length-value encodings the driver walks: information elements of management frames (IEEE 802.11-2012,
 section 8.4.2.1), attributes inside a P2P element, and tags of PPPoE discovery frames (RFC 2516, section 4).
 */
module Tlv {
  import opened Bytes

  datatype Item = Item(kind: nat, data: seq<byte>)

  datatype Format = InfoElement | P2pAttribute | PppoeTag {
    function HeaderLen(): nat {
      match this
      case InfoElement => 2
      case P2pAttribute => 3
      case PppoeTag => 4
    }

    /** One past the largest kind, and one past the longest data. */
    function Kinds(): nat {
      if PppoeTag? then 0x1_0000 else 0x100
    }

    function Lengths(): nat {
      if InfoElement? then 0x100 else 0x1_0000
    }

    function Header(kind: nat, len: nat): (h: seq<byte>)
      ensures |h| == HeaderLen()
    {
      match this
      case InfoElement => [kind % 256, len % 256]
      case P2pAttribute => [kind % 256, len % 256, len / 256 % 256]
      case PppoeTag => PutBe16(kind % 0x1_0000) + PutBe16(len % 0x1_0000)
    }

    /** The fields of a header, read back as the driver's loops do. */
    function KindAt(b: seq<byte>, o: nat): nat
      requires o + HeaderLen() <= |b|
    {
      if PppoeTag? then Be16(b[o], b[o + 1]) else b[o]
    }

    function LenAt(b: seq<byte>, o: nat): nat
      requires o + HeaderLen() <= |b|
    {
      match this
      case InfoElement => b[o + 1]
      case P2pAttribute => Be16(b[o + 2], b[o + 1])
      case PppoeTag => Be16(b[o + 2], b[o + 3])
    }

    predicate Ok(t: Item) {
      t.kind < Kinds() && |t.data| < Lengths()
    }
  }

  ghost predicate AllOk(f: Format, ts: seq<Item>) {
    forall k :: 0 <= k < |ts| ==> f.Ok(ts[k])
  }

  function EncodeItem(f: Format, t: Item): (b: seq<byte>)
    ensures |b| == f.HeaderLen() + |t.data|
  {
    f.Header(t.kind, |t.data|) + t.data
  }

  function Encode(f: Format, ts: seq<Item>): seq<byte> {
    if ts == [] then [] else EncodeItem(f, ts[0]) + Encode(f, ts[1..])
  }

  /** Where item k starts in the encoded list. */
  function Offset(f: Format, ts: seq<Item>, k: nat): nat
    requires k <= |ts|
  {
    |Encode(f, ts[..k])|
  }

  /** The index of the first item of a kind; the length of the list when there is none. */
  function First(ts: seq<Item>, kind: nat): (k: nat)
    ensures k <= |ts|
    ensures k < |ts| ==> ts[k].kind == kind
    ensures forall j :: 0 <= j < k ==> ts[j].kind != kind
  {
    if ts == [] || ts[0].kind == kind then 0 else 1 + First(ts[1..], kind)
  }

  function Without(ts: seq<Item>, k: nat): seq<Item>
    requires k <= |ts|
  {
    if k < |ts| then ts[..k] + ts[k + 1..] else ts
  }

  lemma FirstIs(ts: seq<Item>, kind: nat, k: nat)
    requires k <= |ts| && (forall j :: 0 <= j < k ==> ts[j].kind != kind)
    requires k < |ts| ==> ts[k].kind == kind
    ensures First(ts, kind) == k
  {
  }

  lemma UpdateSplit(ts: seq<Item>, k: nat, t: Item)
    requires k < |ts|
    ensures ts[k := t] == ts[..k] + [t] + ts[k + 1..]
  {
  }

  /** Taking out what was put in at place k, or put in its stead. */
  lemma WithoutInserted(ts: seq<Item>, k: nat, t: Item)
    requires k <= |ts|
    ensures Without(ts[..k] + [t] + ts[k..], k) == ts
    ensures k < |ts| ==> Without(ts[k := t], k) == Without(ts, k)
  {
    var us := ts[..k] + [t] + ts[k..];
    assert us[..k] == ts[..k] && us[k + 1..] == ts[k..];
    if k < |ts| {
      assert ts[k := t][..k] == ts[..k] && ts[k := t][k + 1..] == ts[k + 1..];
    }
  }

  lemma WithoutNone(ts: seq<Item>)
    ensures Without(ts, |ts|) == ts
  {
  }

  lemma WithoutOk(f: Format, ts: seq<Item>, k: nat)
    requires AllOk(f, ts) && k <= |ts|
    ensures AllOk(f, Without(ts, k)) && |Without(ts, k)| == if k < |ts| then |ts| - 1 else |ts|
  {
  }

  lemma {:induction false} EncodeSplit(f: Format, ts: seq<Item>, us: seq<Item>)
    ensures Encode(f, ts + us) == Encode(f, ts) + Encode(f, us)
  {
    if ts == [] {
      assert ts + us == us;
    } else {
      assert (ts + us)[1..] == ts[1..] + us;
      EncodeSplit(f, ts[1..], us);
    }
  }

  lemma EncodeCons(f: Format, t: Item, ts: seq<Item>)
    ensures Encode(f, [t] + ts) == EncodeItem(f, t) + Encode(f, ts)
  {
    assert ([t] + ts)[1..] == ts;
  }

  lemma EncodeNone(f: Format)
    ensures Encode(f, []) == []
  {
  }

  /** Item k sits between the encodings of the items before and after it. */
  lemma EncodeAt(f: Format, ts: seq<Item>, k: nat)
    requires k < |ts|
    ensures Encode(f, ts) == Encode(f, ts[..k]) + EncodeItem(f, ts[k]) + Encode(f, ts[k + 1..])
  {
    assert ts == ts[..k] + ts[k..];
    EncodeSplit(f, ts[..k], ts[k..]);
  }

  lemma HighAndLow(n: nat)
    requires n < 0x1_0000
    ensures n / 256 % 256 == n / 256 && Be16(n / 256, n % 256) == n
  {
  }

  lemma HeaderFields(f: Format, kind: nat, n: nat)
    requires kind < f.Kinds() && n < f.Lengths()
    ensures f.KindAt(f.Header(kind, n), 0) == kind && f.LenAt(f.Header(kind, n), 0) == n
  {
    hide PutBe16, Be16;
    HighAndLow(n);
    var h := f.Header(kind, n);
    match f
    case InfoElement =>
    case P2pAttribute => assert h[0] == kind && h[1] == n % 256 && h[2] == n / 256;
    case PppoeTag =>
      assert h[0] == PutBe16(kind)[0] && h[1] == PutBe16(kind)[1];
      assert h[2] == PutBe16(n)[0] && h[3] == PutBe16(n)[1];
  }

  lemma FieldsOfPrefix(f: Format, h: seq<byte>, d: seq<byte>)
    requires |h| == f.HeaderLen()
    ensures f.KindAt(h + d, 0) == f.KindAt(h, 0) && f.LenAt(h + d, 0) == f.LenAt(h, 0)
  {
    hide Be16;
  }

  lemma ItemHeader(f: Format, t: Item)
    ensures var e := EncodeItem(f, t);
            && e[f.HeaderLen()..] == t.data
            && (f.Ok(t) ==> f.KindAt(e, 0) == t.kind && f.LenAt(e, 0) == |t.data|)
  {
    hide f.Header, f.KindAt, f.LenAt;
    var h := f.Header(t.kind, |t.data|);
    DropConcat(h, t.data, 0);
    FieldsOfPrefix(f, h, t.data);
    if f.Ok(t) {
      HeaderFields(f, t.kind, |t.data|);
    }
  }

  /** An encoded item between other bytes. */
  lemma ItemBytes(f: Format, b: seq<byte>, p: seq<byte>, t: Item, s: seq<byte>)
    requires b == p + EncodeItem(f, t) + s
    ensures var o := |p|;
            && |b| == o + f.HeaderLen() + |t.data| + |s|
            && (f.Ok(t) ==> f.KindAt(b, o) == t.kind && f.LenAt(b, o) == |t.data|)
            && b[o + f.HeaderLen()..o + f.HeaderLen() + |t.data|] == t.data
  {
    hide EncodeItem;
    var e := EncodeItem(f, t);
    ItemHeader(f, t);
    assert forall i :: 0 <= i < |e| ==> b[|p| + i] == e[i];
    assert b[|p|..|p| + |e|] == e;
    SliceOfSlice(b, |p|, |p| + |e|, f.HeaderLen(), |e|);
  }

  lemma OffsetNext(f: Format, ts: seq<Item>, k: nat)
    requires k < |ts|
    ensures Offset(f, ts, k + 1) == Offset(f, ts, k) + f.HeaderLen() + |ts[k].data|
  {
    hide Encode, EncodeItem;
    EncodeAt(f, ts[..k + 1], k);
    EncodeNone(f);
    assert ts[..k + 1][..k] == ts[..k] && ts[..k + 1][k + 1..] == [];
  }

  /** Where item k's header and data are in the encoded list, and where the next item starts. */
  lemma ItemAt(f: Format, ts: seq<Item>, k: nat)
    requires k < |ts|
    ensures var b, o := Encode(f, ts), Offset(f, ts, k);
            && o + f.HeaderLen() + |ts[k].data| <= |b|
            && (f.Ok(ts[k]) ==> f.KindAt(b, o) == ts[k].kind && f.LenAt(b, o) == |ts[k].data|)
            && b[o + f.HeaderLen()..o + f.HeaderLen() + |ts[k].data|] == ts[k].data
            && Offset(f, ts, k + 1) == o + f.HeaderLen() + |ts[k].data|
  {
    hide Encode, EncodeItem, f.KindAt, f.LenAt, f.Ok;
    EncodeAt(f, ts, k);
    OffsetNext(f, ts, k);
    ItemBytes(f, Encode(f, ts), Encode(f, ts[..k]), ts[k], Encode(f, ts[k + 1..]));
  }

  lemma OffsetZero(f: Format, ts: seq<Item>)
    ensures Offset(f, ts, 0) == 0
  {
  }

  lemma OffsetEnd(f: Format, ts: seq<Item>)
    ensures Offset(f, ts, |ts|) == |Encode(f, ts)|
  {
    assert ts[..|ts|] == ts;
  }

  /** Putting another item in place of item k changes nothing before or after it. */
  lemma EncodeReplace(f: Format, ts: seq<Item>, k: nat, t: Item)
    requires k < |ts|
    ensures Encode(f, ts[k := t]) == Encode(f, ts[..k]) + EncodeItem(f, t) + Encode(f, ts[k + 1..])
  {
    EncodeAt(f, ts[k := t], k);
    assert ts[k := t][..k] == ts[..k] && ts[k := t][k + 1..] == ts[k + 1..];
  }

  lemma DropMiddle(p: seq<byte>, t: seq<byte>, s: seq<byte>)
    ensures p + s == (p + t + s)[..|p|] + (p + t + s)[|p| + |t|..]
  {
  }

  /** Taking item k out of the encoded list. */
  lemma EncodeWithout(f: Format, ts: seq<Item>, k: nat)
    requires k < |ts|
    ensures var b, o, n := Encode(f, ts), Offset(f, ts, k), f.HeaderLen() + |ts[k].data|;
            && o + n <= |b|
            && Encode(f, Without(ts, k)) == b[..o] + b[o + n..]
  {
    EncodeAt(f, ts, k);
    EncodeSplit(f, ts[..k], ts[k + 1..]);
    hide Encode, EncodeItem;
    DropMiddle(Encode(f, ts[..k]), EncodeItem(f, ts[k]), Encode(f, ts[k + 1..]));
  }

  function Number(low: int, high: int): int {
    low + 256 * high
  }

  lemma PutBe16Is(n: nat)
    requires n < 65536
    ensures |PutBe16(n)| == 2 && Number(PutBe16(n)[1], PutBe16(n)[0]) == n && n % 0x1_0000 == n
  {
  }

  /** The headers as the standards give them: one-byte ids but for PPPoE, and lengths in either byte order. */
  lemma HeaderSays(kind: nat, n: nat)
    ensures kind < 256 && n < 256 ==> InfoElement.Header(kind, n) == [kind, n]
    ensures var h := P2pAttribute.Header(kind, n);
            kind < 256 && n < 65536 ==> |h| == 3 && h[0] == kind && Number(h[1], h[2]) == n
    ensures var h := PppoeTag.Header(kind, n);
            kind < 65536 && n < 65536 ==> |h| == 4 && Number(h[1], h[0]) == kind && Number(h[3], h[2]) == n
  {
    hide PutBe16;
    if kind < 65536 { PutBe16Is(kind); }
    if n < 65536 {
      PutBe16Is(n);
      assert n / 256 % 256 == n / 256;
    }
  }
}
