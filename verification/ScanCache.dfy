/** The scan-result cache itself: a fixed pool of slots that move between the free pool and the scanned queue. */
module ScanCache {
  import opened Bytes
  import opened Clock
  import opened ScanModel

  /** `SCANQUEUE_LIFETIME`, in seconds */
  const SCANQUEUE_LIFETIME := 20

  ghost predicate NoDuplicates(s: seq<nat>) {
    forall j, k :: 0 <= j < k < |s| ==> s[j] != s[k]
  }

  ghost predicate InRange(s: seq<nat>, n: nat) {
    forall j :: 0 <= j < |s| ==> s[j] < n
  }

  /** Each slot is in exactly one of the two queues, once, or is held by nobody but its allocator. */
  ghost predicate Partition(free: seq<nat>, scanned: seq<nat>, held: set<nat>) {
    && NoDuplicates(free) && NoDuplicates(scanned)
    && InRange(free, MAX_BSS_CNT) && InRange(scanned, MAX_BSS_CNT) && (forall k <- held :: k < MAX_BSS_CNT)
    && (forall j :: 0 <= j < |free| ==> free[j] !in scanned && free[j] !in held)
    && (forall j :: 0 <= j < |scanned| ==> scanned[j] !in held)
    && (forall k: nat :: k < MAX_BSS_CNT ==> k in free || k in scanned || k in held)
  }

  /** The networks of a queue, in its order. */
  ghost function View(slots: seq<Network>, queue: seq<nat>): (es: seq<Network>)
    requires InRange(queue, |slots|)
    ensures |es| == |queue| && forall j :: 0 <= j < |queue| ==> es[j] == slots[queue[j]]
  {
    if queue == [] then [] else View(slots, queue[..|queue| - 1]) + [slots[queue[|queue| - 1]]]
  }

  function Elements(s: seq<nat>): set<nat> {
    set k | k in s
  }

  lemma {:induction false} ElementsCount(s: seq<nat>)
    requires NoDuplicates(s)
    ensures |Elements(s)| == |s|
  {
    if s != [] {
      ElementsCount(s[1..]);
      assert s == [s[0]] + s[1..];
      assert Elements(s) == {s[0]} + Elements(s[1..]);
    }
  }

  function UpTo(n: nat): (s: set<nat>)
    ensures |s| == n && forall k: nat :: k in s <==> k < n
  {
    if n == 0 then {} else UpTo(n - 1) + {n - 1}
  }

  /** The queues account for all the slots between them, so one that is empty leaves the rest to the others. */
  lemma PartitionCounts(free: seq<nat>, scanned: seq<nat>, held: set<nat>)
    requires Partition(free, scanned, held)
    ensures |free| + |scanned| + |held| == MAX_BSS_CNT
  {
    hide UpTo;
    ElementsCount(free);
    ElementsCount(scanned);
    assert Elements(free) !! Elements(scanned) && (Elements(free) + Elements(scanned)) !! held;
    assert UpTo(MAX_BSS_CNT) == Elements(free) + Elements(scanned) + held by {
      forall k: nat | k < MAX_BSS_CNT ensures k in Elements(free) + Elements(scanned) + held {}
    }
  }

  lemma ViewSet(slots: seq<Network>, queue: seq<nat>, i: nat, n: Network)
    requires InRange(queue, |slots|) && NoDuplicates(queue) && i < |queue|
    ensures View(slots[queue[i] := n], queue) == View(slots, queue)[i := n]
  {
    hide View;
  }

  lemma ViewSkip(slots: seq<Network>, queue: seq<nat>, k: nat, n: Network)
    requires InRange(queue, |slots|) && k < |slots| && k !in queue
    ensures View(slots[k := n], queue) == View(slots, queue)
  {
    hide View;
    forall j | 0 <= j < |queue| ensures View(slots[k := n], queue)[j] == View(slots, queue)[j] {
      assert queue[j] in queue;
    }
  }

  lemma ViewAppend(slots: seq<Network>, queue: seq<nat>, k: nat)
    requires InRange(queue, |slots|) && k < |slots|
    ensures View(slots, queue + [k]) == View(slots, queue) + [slots[k]]
  {
    assert (queue + [k])[..|queue|] == queue;
  }

  lemma TakeFree(free: seq<nat>, scanned: seq<nat>)
    requires Partition(free, scanned, {}) && free != []
    ensures Partition(free[1..], scanned, {free[0]})
  {
    var k, rest := free[0], free[1..];
    forall x: nat | x < MAX_BSS_CNT ensures x in rest || x in scanned || x in {k} {
      if x in free {
        var j :| 0 <= j < |free| && free[j] == x;
        if j > 0 { assert rest[j - 1] == x; }
      }
    }
  }

  lemma PutScanned(free: seq<nat>, scanned: seq<nat>, k: nat)
    requires Partition(free, scanned, {k})
    ensures Partition(free, scanned + [k], {})
  {
  }

  /** What the sweep does to one network: fixed ones stay, and unless everything goes, recent ones do too. */
  predicate Stays(n: Network, freeAll: bool, now: Tick, hz: nat, adhoc: bool)
    requires hz > 0
  {
    n.isFixed || (!freeAll && Age(n.lastScanned, now) / hz < if adhoc then 1 else SCANQUEUE_LIFETIME)
  }

  function Swept(es: seq<Network>, freeAll: bool, now: Tick, hz: nat, adhoc: bool): (r: seq<Network>)
    requires hz > 0
    ensures forall n :: n in r <==> n in es && Stays(n, freeAll, now, hz, adhoc)
  {
    if es == [] then []
    else
      var n := es[|es| - 1];
      Swept(es[..|es| - 1], freeAll, now, hz, adhoc) + if Stays(n, freeAll, now, hz, adhoc) then [n] else []
  }

  /** The sweep has seen `seen` networks, of which the first i of the queue are those that stayed. */
  predicate SweptSoFar(es: seq<Network>, seen: nat, queue: seq<Network>, i: nat, freeAll: bool, now: Tick, hz: nat,
          adhoc: bool)
    requires seen <= |es| && hz > 0
  {
    var r := Swept(es[..seen], freeAll, now, hz, adhoc);
    |r| == i && queue == r + es[seen..]
  }

  lemma SweepStarts(es: seq<Network>, freeAll: bool, now: Tick, hz: nat, adhoc: bool)
    requires hz > 0
    ensures SweptSoFar(es, 0, es, 0, freeAll, now, hz, adhoc)
  {
  }

  lemma SweepEnds(es: seq<Network>, queue: seq<Network>, i: nat, freeAll: bool, now: Tick, hz: nat, adhoc: bool)
    requires hz > 0 && SweptSoFar(es, |es|, queue, i, freeAll, now, hz, adhoc)
    ensures queue == Swept(es, freeAll, now, hz, adhoc)
  {
    assert es[..|es|] == es;
  }

  lemma SweptNext(es: seq<Network>, seen: nat, freeAll: bool, now: Tick, hz: nat, adhoc: bool)
    requires seen < |es| && hz > 0
    ensures Swept(es[..seen + 1], freeAll, now, hz, adhoc) ==
            Swept(es[..seen], freeAll, now, hz, adhoc)
            + if Stays(es[seen], freeAll, now, hz, adhoc) then [es[seen]] else []
  {
    hide Stays;
    assert es[..seen + 1][..seen] == es[..seen];
  }

  /** At the next network: it stays behind the ones that stayed, or is cut out. */
  lemma SweepGoesOn(es: seq<Network>, seen: nat, queue: seq<Network>, i: nat, freeAll: bool, now: Tick, hz: nat,
          adhoc: bool)
    requires seen < |es| && hz > 0 && SweptSoFar(es, seen, queue, i, freeAll, now, hz, adhoc)
    ensures i < |queue| && queue[i] == es[seen]
    ensures if Stays(es[seen], freeAll, now, hz, adhoc)
            then SweptSoFar(es, seen + 1, queue, i + 1, freeAll, now, hz, adhoc)
            else SweptSoFar(es, seen + 1, queue[..i] + queue[i + 1..], i, freeAll, now, hz, adhoc)
  {
    hide Stays, Swept;
    SweptNext(es, seen, freeAll, now, hz, adhoc);
    var r := Swept(es[..seen], freeAll, now, hz, adhoc);
    assert es[seen..] == [es[seen]] + es[seen + 1..];
    assert queue[..i] == r && queue[i + 1..] == es[seen + 1..];
    assert queue == r + [es[seen]] + es[seen + 1..];
  }

  lemma {:induction false} SweptIsShorter(es: seq<Network>, freeAll: bool, now: Tick, hz: nat, adhoc: bool)
    requires hz > 0
    ensures |Swept(es, freeAll, now, hz, adhoc)| <= |es|
  {
    if es != [] {
      SweptIsShorter(es[..|es| - 1], freeAll, now, hz, adhoc);
    }
  }

  lemma {:induction false} SweptKeepsUnique(es: seq<Network>, freeAll: bool, now: Tick, hz: nat, adhoc: bool)
    requires Unique(es) && hz > 0
    ensures Unique(Swept(es, freeAll, now, hz, adhoc))
  {
    hide Stays;
    if es != [] {
      var f, n := es[..|es| - 1], es[|es| - 1];
      SweptKeepsUnique(f, freeAll, now, hz, adhoc);
      var r := Swept(f, freeAll, now, hz, adhoc);
      forall k | 0 <= k < |r| ensures Id(r[k].bss) != Id(n.bss) {
        assert r[k] in f;
        var j :| 0 <= j < |f| && f[j] == r[k];
        assert es[j] == f[j];
      }
    }
  }

  /** As a map, a sweep keeps exactly the networks that stay, and does not touch those. */
  lemma SweepIsRestriction(es: seq<Network>, freeAll: bool, now: Tick, hz: nat, adhoc: bool)
    requires Unique(es) && hz > 0
    ensures AsMap(Swept(es, freeAll, now, hz, adhoc)) ==
            map id | id in AsMap(es) && Stays(AsMap(es)[id], freeAll, now, hz, adhoc) :: AsMap(es)[id]
  {
    hide AsMap, FindSame, Stays, Id, Swept;
    var r := Swept(es, freeAll, now, hz, adhoc);
    var m := map id | id in AsMap(es) && Stays(AsMap(es)[id], freeAll, now, hz, adhoc) :: AsMap(es)[id];
    SweptKeepsUnique(es, freeAll, now, hz, adhoc);
    MapOf(es);
    forall k | 0 <= k < |r| ensures Id(r[k].bss) in m && m[Id(r[k].bss)] == r[k] {
      assert r[k] in r;
      var j :| 0 <= j < |es| && es[j] == r[k];
    }
    forall id | id in m ensures FindSame(r, id) < |r| {
      var j := FindSame(es, id);
      assert es[j] in r;
      var k :| 0 <= k < |r| && r[k] == es[j];
      Found(r, k, id);
    }
    MapIs(r, m);
  }

  lemma NoDuplicatesWithout(s: seq<nat>, i: nat)
    requires NoDuplicates(s) && i < |s|
    ensures NoDuplicates(s[..i] + s[i + 1..])
  {
    var rest := s[..i] + s[i + 1..];
    assert forall j :: 0 <= j < |rest| ==> rest[j] == s[if j < i then j else j + 1];
  }

  lemma RestOf(s: seq<nat>, i: nat)
    requires NoDuplicates(s) && i < |s|
    ensures var rest := s[..i] + s[i + 1..];
            NoDuplicates(rest) && forall x :: x in rest <==> x in s && x != s[i]
  {
    var rest := s[..i] + s[i + 1..];
    NoDuplicatesWithout(s, i);
    assert forall j :: 0 <= j < |rest| ==> rest[j] == s[if j < i then j else j + 1];
    forall x | x in s && x != s[i] ensures x in rest {
      var j :| 0 <= j < |s| && s[j] == x;
      assert rest[if j < i then j else j - 1] == x;
    }
  }

  lemma MoveToFree(free: seq<nat>, scanned: seq<nat>, i: nat)
    requires Partition(free, scanned, {}) && i < |scanned|
    ensures Partition(free + [scanned[i]], scanned[..i] + scanned[i + 1..], {})
  {
    var k, all, rest := scanned[i], free + [scanned[i]], scanned[..i] + scanned[i + 1..];
    RestOf(scanned, i);
    assert forall j :: 0 <= j < |rest| ==> rest[j] in rest;
    assert forall j :: 0 <= j < |all| ==> all[j] == if j < |free| then free[j] else k;
    forall j | 0 <= j < |free| ensures free[j] != k { assert free[j] !in scanned; }
    forall x: nat | x < MAX_BSS_CNT ensures x in all || x in rest {
      assert x in free || x in scanned;
    }
  }

  lemma ViewWithout(slots: seq<Network>, queue: seq<nat>, i: nat)
    requires InRange(queue, |slots|) && i < |queue|
    ensures var rest := queue[..i] + queue[i + 1..];
            && InRange(rest, |slots|)
            && View(slots, rest) == View(slots, queue)[..i] + View(slots, queue)[i + 1..]
  {
    hide View;
    var rest := queue[..i] + queue[i + 1..];
    assert forall j :: 0 <= j < |rest| ==> rest[j] == queue[if j < i then j else j + 1];
  }

  lemma FoundByMac(es: seq<Network>, i: nat, mac: Mac)
    requires i <= |es| && (forall j :: 0 <= j < i ==> mac == Zeros(6) || es[j].bss.mac != mac)
    requires i < |es| ==> mac != Zeros(6) && es[i].bss.mac == mac
    ensures FindMac(es, mac) == i
  {
  }

  lemma FoundAt(es: seq<Network>, i: nat, target: Bss)
    requires i <= |es| && forall j :: 0 <= j < i ==> Id(es[j].bss) != Id(target)
    requires i < |es| ==> IsSameNetwork(es[i].bss, target)
    ensures FindSame(es, Id(target)) == i
  {
    hide FindSame;
    if i < |es| { SameNetworkIsIdentity(es[i].bss, target); }
  }

  lemma OldestNext(es: seq<Network>, i: nat)
    requires i < |es|
    ensures Oldest(es, i + 1) ==
            if i == 0 || TimeAfter(es[Oldest(es, i)].lastScanned, es[i].lastScanned) then i else Oldest(es, i)
  {
  }

  class ScanCache {
    const slots: array<Network>
    var free: seq<nat>
    var scanned: seq<nat>
    var numOfScanned: nat

    ghost predicate Holding(held: set<nat>)
      reads this
    {
      && slots.Length == MAX_BSS_CNT
      && Partition(free, scanned, held)
      && numOfScanned == |scanned| + |held|
    }

    ghost predicate Valid()
      reads this
    {
      Holding({})
    }

    ghost function Entries(): seq<Network>
      requires InRange(scanned, slots.Length)
      reads this, slots
    {
      View(slots[..], scanned)
    }

    constructor ()
      ensures Valid() && fresh(slots) && scanned == [] && Entries() == []
      ensures free == seq(MAX_BSS_CNT, i => i)
    {
      var noBss: Bss := RawBss.Bss([0, 0, 0, 0, 0, 0], [], false, 0, 0, 0, seq(12, _ => 0));
      slots := new Network[MAX_BSS_CNT](_ => Network(noBss, 0, false, 0, 0, 0));
      free, scanned, numOfScanned := [], [], 0;
      new;
      var i := 0;
      while i < MAX_BSS_CNT
        invariant 0 <= i <= MAX_BSS_CNT
        invariant free == seq(i, j => j)
        invariant scanned == [] && numOfScanned == 0
      {
        free := free + [i];
        i := i + 1;
      }
      forall k: nat | k < MAX_BSS_CNT ensures k in free { assert free[k] == k; }
      assert Holding({});
    }

    /** `_rtw_alloc_network`: the first free slot, which is then in neither queue; nothing when there is none. */
    method Alloc(now: Tick) returns (k: Option<nat>)
      requires Valid()
      modifies this`free, this`numOfScanned, slots
      ensures old(free) == [] ==>
                k == None && free == [] && slots[..] == old(slots[..]) && numOfScanned == old(numOfScanned)
      ensures old(free) != [] ==>
                && k == Some(old(free[0])) && free == old(free)[1..] && numOfScanned == old(numOfScanned) + 1
                && Holding({k.value}) && Entries() == old(Entries())
                && slots[..] == old(slots[..])[k.value := Network(old(slots[free[0]].bss), now, false, 0, 0, 0)]
    {
      if free == [] { return None; }
      TakeFree(free, scanned);
      var p := free[0];
      ViewSkip(slots[..], scanned, p, Network(slots[p].bss, now, false, 0, 0, 0));
      free := free[1..];
      slots[p] := Network(slots[p].bss, now, false, 0, 0, 0);
      numOfScanned := numOfScanned + 1;
      assert Holding({p});
      return Some(p);
    }

    /** `_rtw_free_network` with `_rtw_free_network_nolock`, on the i-th network of the scanned queue. */
    method FreeNetwork(i: nat, freeAll: bool, now: Tick, hz: nat, adhoc: bool)
      requires Valid() && i < |scanned| && hz > 0
      modifies this`free, this`scanned, this`numOfScanned
      ensures Valid()
      ensures if old(Stays(Entries()[i], freeAll, now, hz, adhoc))
              then free == old(free) && scanned == old(scanned)
              else free == old(free + [scanned[i]]) && scanned == old(scanned[..i] + scanned[i + 1..])
    {
      var k := scanned[i];
      if slots[k].isFixed { return; }
      var lifetime := if adhoc then 1 else SCANQUEUE_LIFETIME;
      if !freeAll && (now - slots[k].lastScanned) % ULONG / hz < lifetime { return; }
      MoveToFree(free, scanned, i);
      scanned := scanned[..i] + scanned[i + 1..];
      free := free + [k];
      numOfScanned := numOfScanned - 1;
    }

    lemma SlotsInRange()
      requires Valid()
      ensures InRange(scanned, slots.Length)
    {
    }

    /** `_rtw_free_network_queue`: what stays, stays in order, and the slots of the rest go to the free pool. */
    method FreeNetworkQueue(freeAll: bool, now: Tick, hz: nat, adhoc: bool)
      requires Valid() && hz > 0
      modifies this`free, this`scanned, this`numOfScanned
      ensures Valid()
      ensures Entries() == Swept(old(Entries()), freeAll, now, hz, adhoc)
    {
      hide View, Partition, Swept, Stays, SweptSoFar;
      SlotsInRange();
      ghost var es, seen := Entries(), 0;
      var i := 0;
      SweepStarts(es, freeAll, now, hz, adhoc);
      while i < |scanned|
        invariant Valid() && InRange(scanned, slots.Length)
        invariant i <= |scanned| && seen <= |es| && |es| - seen == |scanned| - i
        invariant SweptSoFar(es, seen, Entries(), i, freeAll, now, hz, adhoc)
        decreases |scanned| - i
      {
        SweepGoesOn(es, seen, Entries(), i, freeAll, now, hz, adhoc);
        ViewWithout(slots[..], scanned, i);
        var count := |scanned|;
        FreeNetwork(i, freeAll, now, hz, adhoc);
        SlotsInRange();
        if |scanned| == count {
          i := i + 1;
        }
        seen := seen + 1;
      }
      SweepEnds(es, Entries(), i, freeAll, now, hz, adhoc);
    }

    /** `free_scanqueue`: every network goes, the fixed ones too. */
    method FreeScanQueue()
      requires Valid()
      modifies this`free, this`scanned, this`numOfScanned
      ensures Valid() && scanned == [] && free == old(free) + old(scanned) && Entries() == []
    {
      assert Holding({});
      ghost var all := scanned;
      ghost var n := 0;
      while scanned != []
        invariant n <= |all| && scanned == all[n..] && free == old(free) + all[..n]
        invariant Valid()
        decreases |scanned|
      {
        MoveToFree(free, scanned, 0);
        assert scanned[..0] + scanned[1..] == scanned[1..];
        free := free + [scanned[0]];
        scanned := scanned[1..];
        numOfScanned := numOfScanned - 1;
        n := n + 1;
      }
    }

    lemma ScannedOnce()
      requires Valid()
      ensures NoDuplicates(scanned)
    {
    }

    /** `rtw_find_network`, and what its callers do to the network found. */
    method SetFixed(addr: Mac, isFixed: bool)
      requires Valid()
      modifies slots
      ensures Valid() && InRange(scanned, slots.Length)
      ensures Entries() == Pinned(old(Entries()), addr, isFixed)
    {
      hide View, Partition, FindMac;
      SlotsInRange();
      if addr == Zeros(6) {
        FoundByMac(Entries(), |scanned|, addr);
        return;
      }
      var i := 0;
      while i < |scanned| && slots[scanned[i]].bss.mac != addr
        invariant i <= |scanned|
        invariant forall j :: 0 <= j < i ==> Entries()[j].bss.mac != addr
      {
        i := i + 1;
      }
      FoundByMac(Entries(), i, addr);
      if i < |scanned| {
        var k := scanned[i];
        ScannedOnce();
        ViewSet(slots[..], scanned, i, slots[k].(isFixed := isFixed));
        slots[k] := slots[k].(isFixed := isFixed);
      }
    }

    /** The search of `rtw_update_scanned_network`: the first entry of the same network, and the oldest one passed. */
    method Search(target: Bss) returns (i: nat, oldest: Option<nat>)
      requires InRange(scanned, slots.Length)
      ensures i == FindSame(Entries(), Id(target)) <= |scanned|
      ensures oldest == if i == 0 then None else Some(scanned[Oldest(Entries(), i)])
    {
      hide FindSame, Id, View, Oldest, TimeAfter, IsSameNetwork;
      i, oldest := 0, None;
      while i < |scanned| && !IsSameNetwork(slots[scanned[i]].bss, target)
        invariant i <= |scanned|
        invariant forall j :: 0 <= j < i ==> Id(Entries()[j].bss) != Id(target)
        invariant oldest == if i == 0 then None else Some(scanned[Oldest(Entries(), i)])
      {
        SameNetworkIsIdentity(slots[scanned[i]].bss, target);
        OldestNext(Entries(), i);
        if oldest.None? || TimeAfter(slots[oldest.value].lastScanned, slots[scanned[i]].lastScanned) {
          oldest := Some(scanned[i]);
        }
        i := i + 1;
      }
      FoundAt(Entries(), i, target);
    }

    /**
     `rtw_update_scanned_network`. That an entry to evict exists when the pool is empty is part of what is checked: the
     queue then holds every slot.
     */
    method UpdateScannedNetwork(target: Bss, now: Tick, c: Connection)
      requires Valid()
      modifies this`free, this`scanned, this`numOfScanned, slots
      ensures Valid()
      ensures InRange(old(scanned), slots.Length) && InRange(scanned, slots.Length)
      ensures Entries() == Survey(old(Entries()), target, now, c)
      ensures old(free) == [] ==> free == [] && scanned == old(scanned)
    {
      hide View, FindSame, Oldest, Refreshed, UpdateNetwork, Id, Quality;
      PartitionCounts(free, scanned, {});
      var i, oldest := Search(target);
      if i < |scanned| {
        var k := scanned[i];
        ViewSet(slots[..], scanned, i, Refreshed(slots[k], target, now, c));
        slots[k] := Refreshed(slots[k], target, now, c);
      } else if free == [] {
        var k := oldest.value;
        ViewSet(slots[..], scanned, Oldest(Entries(), i), Fresh(target, now));
        slots[k] := Fresh(target, now);
      } else {
        var p := Alloc(now);
        var k := p.value;
        var n := slots[k].(bss := target.(quality := Quality(target)), lastScanned := now);
        ViewSkip(slots[..], scanned, k, n);
        slots[k] := n;
        ViewAppend(slots[..], scanned, k);
        PutScanned(free, scanned, k);
        scanned := scanned + [k];
      }
    }
  }
}
