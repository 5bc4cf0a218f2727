/** Removing every element of an id, or of an id and vendor, from a buffer: `rtw_get_ie_ex` and `rtw_ies_remove_ie`. */
module ElementRemoval {
  import opened Bytes
  import opened Tlv
  import opened ElementSearch

  /** What is to go: an element id, and the first bytes of the body unless they do not matter. */
  datatype Pattern = Pattern(eid: nat, oui: Option<seq<byte>>)

  predicate Hit(e: Item, p: Pattern) {
    e.kind == p.eid && (p.oui.Some? ==> p.oui.value <= e.data)
  }

  /** Elements of the id have room for the bytes that are compared. */
  ghost predicate Comparable(es: seq<Item>, p: Pattern) {
    forall k :: 0 <= k < |es| && es[k].kind == p.eid && p.oui.Some? ==> |es[k].data| >= |p.oui.value|
  }

  function FirstHit(es: seq<Item>, p: Pattern): (k: nat)
    ensures k <= |es| && (k < |es| ==> Hit(es[k], p)) && (forall j :: 0 <= j < k ==> !Hit(es[j], p))
  {
    if es == [] || Hit(es[0], p) then 0 else 1 + FirstHit(es[1..], p)
  }

  function Kept(es: seq<Item>, p: Pattern): seq<Item> {
    if es == [] then [] else (if Hit(es[0], p) then [] else [es[0]]) + Kept(es[1..], p)
  }

  lemma FirstHitIs(es: seq<Item>, p: Pattern, k: nat)
    requires k <= |es| && (k < |es| ==> Hit(es[k], p)) && (forall j :: 0 <= j < k ==> !Hit(es[j], p))
    ensures FirstHit(es, p) == k
  {
  }

  lemma FirstOfKept(es: seq<Item>, p: Pattern)
    ensures FirstHit(es, p) == if es == [] || Hit(es[0], p) then 0 else 1 + FirstHit(es[1..], p)
    ensures Kept(es, p) ==
            if es == [] then [] else if Hit(es[0], p) then Kept(es[1..], p) else [es[0]] + Kept(es[1..], p)
  {
  }

  /** What is kept before the first hit is everything; then it is left out, and the rest is kept in the same way. */
  lemma {:induction false} KeptAround(es: seq<Item>, p: Pattern)
    ensures var k := FirstHit(es, p); Kept(es, p) == if k < |es| then es[..k] + Kept(es[k + 1..], p) else es
  {
    hide Kept, FirstHit, Hit;
    FirstOfKept(es, p);
    if es != [] && !Hit(es[0], p) {
      KeptAround(es[1..], p);
      var k := FirstHit(es, p);
      if k < |es| {
        assert es[1..][k..] == es[k + 1..];
        assert [es[0]] + es[1..][..k - 1] == es[..k];
      }
    }
  }

  lemma {:induction false} KeptHasNoHit(es: seq<Item>, p: Pattern)
    ensures forall e :: e in Kept(es, p) <==> e in es && !Hit(e, p)
  {
    if es != [] {
      KeptHasNoHit(es[1..], p);
    }
  }

  /** What a pattern matches: its id, and any body that goes on from its leading bytes. */
  lemma HitIff(e: Item, p: Pattern)
    ensures Hit(e, p) <==>
              e.kind == p.eid && match p.oui case None => true case Some(oui) => exists rest :: e.data == oui + rest
  {
    if p.oui.Some? && p.oui.value <= e.data {
      assert e.data == p.oui.value + e.data[|p.oui.value|..];
    }
  }

  /** What is kept is kept one by one, in order. */
  lemma {:induction false} KeptOneByOne(es: seq<Item>, fs: seq<Item>, e: Item, p: Pattern)
    ensures Kept(es + fs, p) == Kept(es, p) + Kept(fs, p)
    ensures Kept([e], p) == if Hit(e, p) then [] else [e]
  {
    hide Hit;
    assert [e][1..] == [];
    if es == [] {
      assert es + fs == fs;
    } else {
      assert (es + fs)[1..] == es[1..] + fs;
      KeptOneByOne(es[1..], fs, e, p);
    }
  }

  /** `rtw_get_ie_ex` */
  method GetIeEx(buf: array<byte>, base: nat, len: nat, p: Pattern, ghost es: seq<Item>) returns (r: Option<(nat, nat)>)
    requires HoldsElements(buf[..], base, len, es) && Comparable(es, p)
    ensures var k := FirstHit(es, p);
            r == if k < |es| then Some((base + Offset(InfoElement, es, k), |es[k].data| + 2)) else None
  {
    hide Encode, FirstHit, Offset;
    ghost var b, k := buf[..], 0;
    OffsetZero(InfoElement, es);
    EndOfElements(b, base, len, es, 0);
    var cnt := 0;
    while cnt < len
      invariant 0 <= k <= |es| && cnt == Offset(InfoElement, es, k)
      invariant forall j :: 0 <= j < k ==> !Hit(es[j], p)
      decreases |es| - k
    {
      EndOfElements(b, base, len, es, k);
      HeaderBytes(b, base, len, es, k);
      var at := base + cnt;
      var n: nat := buf[at + 1];
      if buf[at] == p.eid {
        assert p.oui.Some? ==> buf[at + 2..at + 2 + |p.oui.value|] == es[k].data[..|p.oui.value|];
        if p.oui.None? || buf[at + 2..at + 2 + |p.oui.value|] == p.oui.value {
          FirstHitIs(es, p, k);
          return Some((at, n + 2));
        }
      }
      cnt := cnt + n + 2;
      k := k + 1;
    }
    EndOfElements(b, base, len, es, k);
    FirstHitIs(es, p, k);
    return None;
  }

  /** The buffer starts with `prefix`, and the elements `rest` follow. */
  ghost predicate Split(b: seq<byte>, prefix: seq<byte>, len: nat, rest: seq<Item>) {
    && |prefix| + len <= |b|
    && b[..|prefix|] == prefix
    && HoldsElements(b, |prefix|, len, rest)
  }

  lemma SplitBytes(b: seq<byte>, prefix: seq<byte>, x: seq<byte>, y: seq<byte>, z: seq<byte>)
    requires |prefix| + |x| + |y| + |z| <= |b| && b[..|prefix|] == prefix
    requires b[|prefix|..|prefix| + |x| + |y| + |z|] == x + y + z
    ensures var t := |prefix| + |x|;
            && b[t + |y|..t + |y| + |z|] == z
            && Patch(b, t, z)[..t] == prefix + x && Patch(b, t, z)[t..t + |z|] == z
  {
    var t := |prefix| + |x|;
    var m := b[|prefix|..|prefix| + |x| + |y| + |z|];
    assert m[..|x|] == x;
    assert b[..t] == b[..|prefix|] + m[..|x|];
    assert Patch(b, t, z)[..t] == b[..t];
    assert b[t + |y|..t + |y| + |z|] == m[|x| + |y|..];
  }

  /** Moving the elements behind element k over it. */
  lemma SplitAfter(b: seq<byte>, prefix: seq<byte>, len: nat, rest: seq<Item>, k: nat)
    requires Split(b, prefix, len, rest) && k < |rest|
    ensures var target, n := |prefix| + Offset(InfoElement, rest, k), |rest[k].data| + 2;
            var remain := len - (target - |prefix|) - n;
            && remain >= 0 && target + n + remain <= |b|
            && var b' := Patch(b, target, b[target + n..target + n + remain]);
               Split(b', prefix + Encode(InfoElement, rest[..k]), remain, rest[k + 1..])
  {
    hide Encode, Patch, EncodeItem;
    EncodeAt(InfoElement, rest, k);
    var x, y, z := Encode(InfoElement, rest[..k]), EncodeItem(InfoElement, rest[k]), Encode(InfoElement, rest[k + 1..]);
    assert b[|prefix|..|prefix| + len] == x + y + z;
    SplitBytes(b, prefix, x, y, z);
  }

  lemma EncodeIsLong(es: seq<Item>)
    ensures es != [] ==> |Encode(InfoElement, es)| >= 2
  {
  }

  lemma Finished(b: seq<byte>, prefix: seq<byte>, len: nat, rest: seq<Item>)
    requires Split(b, prefix, len, rest)
    ensures b[..|prefix| + len] == prefix + Encode(InfoElement, rest)
  {
    assert b[..|prefix| + len] == b[..|prefix|] + b[|prefix|..|prefix| + len];
  }

  lemma ComparableTail(es: seq<Item>, p: Pattern, k: nat)
    requires Comparable(es, p) && k <= |es|
    ensures Comparable(es[k..], p)
  {
  }

  lemma OffsetIs(es: seq<Item>, k: nat)
    requires k <= |es|
    ensures Offset(InfoElement, es, k) == |Encode(InfoElement, es[..k])|
  {
  }

  lemma {:induction false} KeptIsShorter(es: seq<Item>, p: Pattern)
    ensures |Kept(es, p)| <= |es|
  {
    if es != [] {
      KeptIsShorter(es[1..], p);
    }
  }

  lemma KeptLoses(es: seq<Item>, p: Pattern)
    requires FirstHit(es, p) < |es|
    ensures Kept(es, p) != es
  {
    var k := FirstHit(es, p);
    KeptAround(es, p);
    KeptIsShorter(es[k + 1..], p);
  }

  /**
   How far a removal has come: behind `front` stand the elements `done`, and from `start` on the elements `rest`, which
   are still to be searched.
   */
  ghost predicate Removing(b: seq<byte>, front: seq<byte>, es: seq<Item>, p: Pattern, done: seq<Item>, rest: seq<Item>,
                           start: nat, len: nat) {
    && start == |front + Encode(InfoElement, done)|
    && Split(b, front + Encode(InfoElement, done), len, rest)
    && Comparable(rest, p)
    && done + Kept(rest, p) == Kept(es, p)
  }

  lemma RemovingStarts(b: seq<byte>, offset: nat, len: nat, es: seq<Item>, p: Pattern)
    requires HoldsElements(b, offset, len, es) && Comparable(es, p)
    ensures Removing(b, b[..offset], es, p, [], es, offset, len)
    ensures len == 0 ==> Kept(es, p) == es && b[..offset] == b[..offset] + Encode(InfoElement, Kept(es, p))
  {
    hide Comparable, FirstHit;
    EncodeNone(InfoElement);
    EncodeIsLong(es);
    assert b[..offset] + [] == b[..offset] && [] + Kept(es, p) == Kept(es, p);
  }

  lemma RemovingHolds(b: seq<byte>, front: seq<byte>, es: seq<Item>, p: Pattern, done: seq<Item>, rest: seq<Item>,
                      start: nat, len: nat)
    requires Removing(b, front, es, p, done, rest, start, len)
    ensures HoldsElements(b, start, len, rest) && Comparable(rest, p)
  {
    hide HoldsElements, Comparable, Encode, Kept;
  }

  lemma RemovingEnds(b: seq<byte>, front: seq<byte>, es: seq<Item>, p: Pattern, done: seq<Item>, rest: seq<Item>,
                     start: nat, len: nat)
    requires Removing(b, front, es, p, done, rest, start, len) && FirstHit(rest, p) == |rest|
    ensures start + len <= |b| && b[..start + len] == front + Encode(InfoElement, Kept(es, p))
    ensures done == [] && rest == es ==> Kept(es, p) == es
  {
    hide HoldsElements, Comparable, Encode, Kept, FirstHit, Hit;
    KeptAround(rest, p);
    EncodeSplit(InfoElement, done, rest);
    Finished(b, front + Encode(InfoElement, done), len, rest);
    assert [] + rest == rest;
  }

  /** One round: the first hit is cut out, and what stood before it is done with. */
  lemma RemovingGoesOn(b: seq<byte>, front: seq<byte>, es: seq<Item>, p: Pattern, done: seq<Item>, rest: seq<Item>,
                       start: nat, len: nat)
    requires Removing(b, front, es, p, done, rest, start, len) && FirstHit(rest, p) < |rest|
    ensures var k := FirstHit(rest, p);
            var at, n := start + Offset(InfoElement, rest, k), |rest[k].data| + 2;
            var remain := len - (at - start) - n;
            && remain >= 0 && at + n + remain <= |b|
            && Removing(Patch(b, at, b[at + n..at + n + remain]), front, es, p,
                        done + rest[..k], rest[k + 1..], at, remain)
    ensures rest == es ==> Kept(es, p) != es
  {
    hide HoldsElements, Comparable, Encode, Kept, FirstHit, Hit, Patch, Split, Offset;
    var k := FirstHit(rest, p);
    KeptAround(rest, p);
    KeptLoses(rest, p);
    SplitAfter(b, front + Encode(InfoElement, done), len, rest, k);
    EncodeSplit(InfoElement, done, rest[..k]);
    assert front + Encode(InfoElement, done) + Encode(InfoElement, rest[..k])
        == front + Encode(InfoElement, done + rest[..k]);
    ComparableTail(rest, p, k + 1);
    OffsetIs(rest, k);
    assert done + rest[..k] + Kept(rest[k + 1..], p) == done + (rest[..k] + Kept(rest[k + 1..], p));
  }

  /** `rtw_ies_remove_ie`: behind `offset` only the elements that are no hit remain, in order and byte for byte. */
  method IesRemoveIe(ies: array<byte>, iesLen: nat, offset: nat, p: Pattern, ghost es: seq<Item>)
    returns (newLen: nat, ok: bool)
    requires offset <= iesLen <= ies.Length && iesLen - offset <= MAX_IE_SZ
    requires HoldsElements(ies[..], offset, iesLen - offset, es) && Comparable(es, p)
    modifies ies
    ensures newLen <= iesLen && ies[..newLen] == old(ies[..offset]) + Encode(InfoElement, Kept(es, p))
    ensures ok <==> Kept(es, p) != es
  {
    hide Encode, Patch, HoldsElements, Comparable, FirstHit, Kept, Offset, Removing;
    newLen, ok := iesLen, false;
    RemovingStarts(ies[..], offset, iesLen - offset, es, p);
    if iesLen <= offset { return; }
    ghost var front, done, rest := ies[..offset], [], es;
    var start: nat, searchLen: nat := offset, iesLen - offset;
    while true
      invariant newLen == start + searchLen <= iesLen
      invariant Removing(ies[..], front, es, p, done, rest, start, searchLen)
      invariant if ok then Kept(es, p) != es else rest == es && done == []
      decreases |rest|
    {
      RemovingHolds(ies[..], front, es, p, done, rest, start, searchLen);
      ghost var k := FirstHit(rest, p);
      var target := GetIeEx(ies, start, searchLen, p, rest);
      if target.None? {
        RemovingEnds(ies[..], front, es, p, done, rest, start, searchLen);
        return;
      }
      var (at, n) := target.value;
      RemovingGoesOn(ies[..], front, es, p, done, rest, start, searchLen);
      CopyDown(ies, at, at + n, searchLen - (at - start) - n);
      newLen := newLen - n;
      searchLen := searchLen - (at - start) - n;
      start := at;
      done, rest := done + rest[..k], rest[k + 1..];
      ok := true;
    }
  }
}
