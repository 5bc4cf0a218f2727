/**
 The chained hash table of `rtw_br_ext.c`. Entries live in a memory indexed by pointers: `rtw_malloc` adds one,
 `rtw_mfree` removes it, so every access below is also proved not to touch freed memory.
 */
module Nat25Table {
  import opened Bytes
  import opened Clock
  import opened M = Nat25Model

  type Ptr = nat
  const NULL: Ptr := 0

  /** What `pprev_hash` points at: a bucket head, or the `next_hash` of another entry. */
  datatype Slot = NoSlot | Head(bucket: nat) | NextOf(owner: Ptr)

  /** `struct nat25_network_db_entry` */
  datatype Entry = Entry(next: Ptr, pprev: Slot, networkAddr: NetAddr, rec: Rec)

  type Memory = map<Ptr, Entry>

  /** The proofs need nothing of the hash but that it picks a bucket. */
  type Hasher = NetAddr -> Bucket

  // ----- what a well-formed table is

  function At(c: seq<Ptr>, k: nat): Ptr {
    if k < |c| then c[k] else NULL
  }

  /** The k-th entry of bucket b points at the next one, and its `pprev_hash` at the one slot that points at it. */
  ghost predicate Hooked(hash: Hasher, mem: Memory, b: nat, c: seq<Ptr>, k: nat)
    requires k < |c|
  {
    && c[k] in mem
    && mem[c[k]].next == At(c, k + 1)
    && mem[c[k]].pprev == (if k == 0 then Head(b) else NextOf(c[k - 1]))
    && hash(mem[c[k]].networkAddr) == b
  }

  ghost predicate ChainOk(hash: Hasher, mem: Memory, b: nat, head: Ptr, c: seq<Ptr>) {
    && head == At(c, 0)
    && (forall k :: 0 <= k < |c| ==> Hooked(hash, mem, b, c, k))
    && (forall j, k :: 0 <= j < k < |c| ==> c[j] != c[k])
  }

  /** `index` lists exactly the entries in memory, each under its own key. */
  ghost predicate Indexed(mem: Memory, index: map<NetAddr, Ptr>) {
    && (forall p <- mem :: mem[p].networkAddr in index && index[mem[p].networkAddr] == p)
    && (forall a <- index :: index[a] in mem && mem[index[a]].networkAddr == a)
  }

  ghost predicate Chained(hash: Hasher, nethash: seq<Ptr>, mem: Memory, chains: seq<seq<Ptr>>) {
    && |nethash| == |chains| == NAT25_HASH_SIZE
    && forall b :: 0 <= b < NAT25_HASH_SIZE ==> ChainOk(hash, mem, b, nethash[b], chains[b])
  }

  /** Every live entry can be reached from its bucket. */
  ghost predicate Covered(hash: Hasher, mem: Memory, chains: seq<seq<Ptr>>) {
    && |chains| == NAT25_HASH_SIZE
    && forall p <- mem :: p in chains[hash(mem[p].networkAddr)]
  }

  ghost predicate TableOk(hash: Hasher, nethash: seq<Ptr>, mem: Memory, chains: seq<seq<Ptr>>,
                          index: map<NetAddr, Ptr>) {
    && |nethash| == |chains| == NAT25_HASH_SIZE
    && NULL !in mem
    && Indexed(mem, index)
    && Chained(hash, nethash, mem, chains)
    && Covered(hash, mem, chains)
  }

  ghost function ViewOf(mem: Memory, index: map<NetAddr, Ptr>): View
    requires forall a <- index :: index[a] in mem
  {
    map a | a in index :: mem[index[a]].rec
  }

  // ----- the two link operations, on values

  ghost predicate SameLinks(e: Entry, f: Entry) {
    e.next == f.next && e.pprev == f.pprev && e.networkAddr == f.networkAddr
  }

  /** A chain none of whose entries changed its links is still a chain. */
  lemma ChainFrame(hash: Hasher, mem: Memory, mem': Memory, b: nat, head: Ptr, c: seq<Ptr>)
    requires ChainOk(hash, mem, b, head, c)
    requires forall k :: 0 <= k < |c| ==> c[k] in mem && c[k] in mem' && SameLinks(mem[c[k]], mem'[c[k]])
    ensures ChainOk(hash, mem', b, head, c)
  {
    forall k | 0 <= k < |c| ensures Hooked(hash, mem', b, c, k) {
      assert Hooked(hash, mem, b, c, k);
    }
  }

  /** Memory after `__network_hash_link` put `ent` in front of `head`. */
  ghost function LinkFront(mem: Memory, ent: Ptr, head: Ptr, b: nat): Memory
    requires ent in mem && (head != NULL ==> head in mem) && head != ent
  {
    var m := mem[ent := mem[ent].(next := head, pprev := Head(b))];
    if head != NULL then m[head := m[head].(pprev := NextOf(ent))] else m
  }

  lemma LinkFrontChain(hash: Hasher, mem: Memory, b: nat, head: Ptr, c: seq<Ptr>, ent: Ptr)
    requires ChainOk(hash, mem, b, head, c)
    requires ent in mem && ent !in c && NULL !in mem && hash(mem[ent].networkAddr) == b
    requires head != NULL ==> head in mem
    ensures head != ent && ChainOk(hash, LinkFront(mem, ent, head, b), b, ent, [ent] + c)
  {
    var m := LinkFront(mem, ent, head, b);
    var d := [ent] + c;
    forall k | 0 <= k < |d| ensures Hooked(hash, m, b, d, k) {
      if k > 0 {
        assert d[k] == c[k - 1] && Hooked(hash, mem, b, c, k - 1);
      }
      if k > 1 {
        assert d[k - 1] == c[k - 2] && c[k - 1] != c[0];
      }
    }
  }

  /** Memory after `__network_hash_unlink` of c[k]: only the neighbours' links change. */
  ghost function UnlinkAt(mem: Memory, c: seq<Ptr>, k: nat): Memory
    requires k < |c| && forall i :: 0 <= i < |c| ==> c[i] in mem
  {
    var e := mem[c[k]];
    var m := if k > 0 then mem[c[k - 1] := mem[c[k - 1]].(next := e.next)] else mem;
    var n := if k + 1 < |c| then m[c[k + 1] := m[c[k + 1]].(pprev := e.pprev)] else m;
    n[c[k] := n[c[k]].(next := NULL, pprev := NoSlot)]
  }

  lemma UnlinkAtEntry(hash: Hasher, mem: Memory, b: nat, head: Ptr, c: seq<Ptr>, k: nat, i: nat)
    requires ChainOk(hash, mem, b, head, c) && k < |c| && i < |c| && i != k
    requires forall i :: 0 <= i < |c| ==> c[i] in mem
    ensures var m := UnlinkAt(mem, c, k);
            && c[i] in m && m[c[i]].networkAddr == mem[c[i]].networkAddr
            && m[c[i]].next == (if i + 1 == k then mem[c[k]].next else mem[c[i]].next)
            && m[c[i]].pprev == (if i == k + 1 then mem[c[k]].pprev else mem[c[i]].pprev)
  {
  }

  lemma UnlinkAtChain(hash: Hasher, mem: Memory, b: nat, head: Ptr, c: seq<Ptr>, k: nat)
    requires ChainOk(hash, mem, b, head, c) && k < |c|
    requires forall i :: 0 <= i < |c| ==> c[i] in mem
    ensures ChainOk(hash, UnlinkAt(mem, c, k), b, if k == 0 then mem[c[0]].next else head, c[..k] + c[k + 1..])
  {
    var m := UnlinkAt(mem, c, k);
    var d := c[..k] + c[k + 1..];
    assert Hooked(hash, mem, b, c, k);
    forall i | 0 <= i < |d| ensures Hooked(hash, m, b, d, i) {
      var i' := if i < k then i else i + 1;
      assert d[i] == c[i'] && c[i'] != c[k] && Hooked(hash, mem, b, c, i');
      UnlinkAtEntry(hash, mem, b, head, c, k, i');
      assert At(d, i + 1) == if i' + 1 == k then At(c, k + 1) else At(c, i' + 1);
      if i > 0 {
        assert d[i - 1] == if i' == k + 1 then c[k - 1] else c[i' - 1];
      }
    }
  }

  // ----- and on the whole table

  /** What bucket b's chain holds lives in memory and hashes to b, so it is in no other chain. */
  lemma InBucket(hash: Hasher, nethash: seq<Ptr>, mem: Memory, chains: seq<seq<Ptr>>, b: nat)
    requires Chained(hash, nethash, mem, chains) && b < NAT25_HASH_SIZE
    ensures forall k :: 0 <= k < |chains[b]| ==> chains[b][k] in mem && hash(mem[chains[b][k]].networkAddr) == b
  {
    forall k | 0 <= k < |chains[b]|
      ensures chains[b][k] in mem && hash(mem[chains[b][k]].networkAddr) == b
    {
      assert ChainOk(hash, mem, b, nethash[b], chains[b]) && Hooked(hash, mem, b, chains[b], k);
    }
  }

  lemma BucketHead(hash: Hasher, nethash: seq<Ptr>, mem: Memory, chains: seq<seq<Ptr>>, b: nat)
    requires Chained(hash, nethash, mem, chains) && b < NAT25_HASH_SIZE
    ensures nethash[b] == At(chains[b], 0)
  {
    assert ChainOk(hash, mem, b, nethash[b], chains[b]);
  }

  lemma BucketNext(hash: Hasher, nethash: seq<Ptr>, mem: Memory, chains: seq<seq<Ptr>>, b: nat, k: nat)
    requires Chained(hash, nethash, mem, chains) && b < NAT25_HASH_SIZE && k < |chains[b]|
    ensures chains[b][k] in mem && mem[chains[b][k]].next == At(chains[b], k + 1)
    ensures hash(mem[chains[b][k]].networkAddr) == b
  {
    assert ChainOk(hash, mem, b, nethash[b], chains[b]) && Hooked(hash, mem, b, chains[b], k);
  }

  lemma InOwnBucket(hash: Hasher, nethash: seq<Ptr>, mem: Memory, chains: seq<seq<Ptr>>, index: map<NetAddr, Ptr>,
          a: NetAddr)
    requires TableOk(hash, nethash, mem, chains, index)
    ensures a in index ==> index[a] in chains[hash(a)][0..]
  {
    hide Chained;
    assert chains[hash(a)][0..] == chains[hash(a)];
  }

  lemma AtIs(c: seq<Ptr>, k: nat)
    ensures At(c, k) != NULL ==> k < |c| && c[k] == At(c, k)
  {
  }

  lemma KeyOf(mem: Memory, index: map<NetAddr, Ptr>, p: Ptr)
    requires Indexed(mem, index) && p in mem
    ensures mem[p].networkAddr in index && index[mem[p].networkAddr] == p
  {
  }

  lemma NotYet(mem: Memory, index: map<NetAddr, Ptr>, a: NetAddr, c: seq<Ptr>, k: nat)
    requires Indexed(mem, index) && k < |c| && c[k] in mem && mem[c[k]].networkAddr != a
    requires a in index ==> index[a] in c[k..]
    ensures a in index ==> index[a] in c[k + 1..]
  {
    assert c[k..] == [c[k]] + c[k + 1..];
  }

  lemma NullAtEnd(hash: Hasher, nethash: seq<Ptr>, mem: Memory, chains: seq<seq<Ptr>>, index: map<NetAddr, Ptr>,
          b: nat, k: nat)
    requires TableOk(hash, nethash, mem, chains, index) && b < NAT25_HASH_SIZE
    requires k <= |chains[b]| && At(chains[b], k) == NULL
    ensures k == |chains[b]|
  {
    hide Chained, Covered;
    if k < |chains[b]| {
      BucketNext(hash, nethash, mem, chains, b, k);
    }
  }

  ghost function AddrsOf(mem: Memory, c: seq<Ptr>): (r: seq<NetAddr>)
    requires forall j :: 0 <= j < |c| ==> c[j] in mem
    ensures |r| == |c| && forall j :: 0 <= j < |c| ==> r[j] == mem[c[j]].networkAddr
  {
    seq(|c|, j requires 0 <= j < |c| => mem[c[j]].networkAddr)
  }

  /** A bucket's chain lists every key of its hash, once. */
  lemma BucketKeys(hash: Hasher, nethash: seq<Ptr>, mem: Memory, chains: seq<seq<Ptr>>, index: map<NetAddr, Ptr>,
          b: nat)
    requires TableOk(hash, nethash, mem, chains, index) && b < NAT25_HASH_SIZE
    ensures forall j :: 0 <= j < |chains[b]| ==> chains[b][j] in mem
    ensures var addrs := AddrsOf(mem, chains[b]);
            && (forall a <- index :: hash(a) == b ==> a in addrs)
            && (forall a <- addrs :: a in index && hash(a) == b)
            && (forall j, k :: 0 <= j < k < |addrs| ==> addrs[j] != addrs[k])
  {
    InBucket(hash, nethash, mem, chains, b);
    var c := chains[b];
    var addrs := AddrsOf(mem, c);
    assert ChainOk(hash, mem, b, nethash[b], c);
    forall a | a in index && hash(a) == b ensures a in addrs {
      assert index[a] in c;
      var j :| 0 <= j < |c| && c[j] == index[a];
      assert addrs[j] == a;
    }
  }

  lemma LinkChains(hash: Hasher, nethash: seq<Ptr>, mem: Memory, chains: seq<seq<Ptr>>, ent: Ptr, e: Entry, h: nat)
    requires Chained(hash, nethash, mem, chains) && NULL !in mem
    requires ent != NULL && ent !in mem && h == hash(e.networkAddr)
    ensures nethash[h] != ent && (nethash[h] != NULL ==> nethash[h] in mem)
    ensures Chained(hash, nethash[h := ent], LinkFront(mem[ent := e], ent, nethash[h], h),
            chains[h := [ent] + chains[h]])
  {
    InBucket(hash, nethash, mem, chains, h);
    assert ChainOk(hash, mem, h, nethash[h], chains[h]);
    var mem1 := mem[ent := e];
    var m := LinkFront(mem1, ent, nethash[h], h);
    var heads := nethash[h := ent];
    var chains' := chains[h := [ent] + chains[h]];
    forall b | 0 <= b < NAT25_HASH_SIZE ensures ChainOk(hash, m, b, heads[b], chains'[b]) {
      InBucket(hash, nethash, mem, chains, b);
      if b == h {
        ChainFrame(hash, mem, mem1, b, nethash[b], chains[b]);
        LinkFrontChain(hash, mem1, h, nethash[h], chains[h], ent);
      } else {
        ChainFrame(hash, mem, m, b, nethash[b], chains[b]);
      }
    }
  }

  lemma LinkCovered(hash: Hasher, mem: Memory, chains: seq<seq<Ptr>>, ent: Ptr, e: Entry, h: nat, m: Memory)
    requires Covered(hash, mem, chains) && ent !in mem && h == hash(e.networkAddr)
    requires m.Keys == mem.Keys + {ent} && m[ent].networkAddr == e.networkAddr
    requires forall p <- mem :: m[p].networkAddr == mem[p].networkAddr
    ensures Covered(hash, m, chains[h := [ent] + chains[h]])
  {
    var chains' := chains[h := [ent] + chains[h]];
    forall p | p in m ensures p in chains'[hash(m[p].networkAddr)] {
      if p == ent {
        assert chains'[h][0] == ent;
      } else {
        assert p in chains[hash(mem[p].networkAddr)];
      }
    }
  }

  lemma IndexedAdd(mem: Memory, index: map<NetAddr, Ptr>, ent: Ptr, a: NetAddr, m: Memory)
    requires Indexed(mem, index) && ent !in mem && a !in index
    requires m.Keys == mem.Keys + {ent} && m[ent].networkAddr == a
    requires forall p <- mem :: m[p].networkAddr == mem[p].networkAddr
    ensures Indexed(m, index[a := ent])
  {
  }

  /** Allocating an entry for an absent key and linking it in front of its bucket keeps the table. */
  lemma LinkTable(hash: Hasher, nethash: seq<Ptr>, mem: Memory, chains: seq<seq<Ptr>>, index: map<NetAddr, Ptr>,
          ent: Ptr, e: Entry, h: nat)
    requires TableOk(hash, nethash, mem, chains, index)
    requires ent != NULL && ent !in mem && e.networkAddr !in index && h == hash(e.networkAddr)
    ensures nethash[h] != ent && (nethash[h] != NULL ==> nethash[h] in mem)
    ensures TableOk(hash, nethash[h := ent], LinkFront(mem[ent := e], ent, nethash[h], h),
            chains[h := [ent] + chains[h]],
                    index[e.networkAddr := ent])
  {
    LinkChains(hash, nethash, mem, chains, ent, e, h);
    var m := LinkFront(mem[ent := e], ent, nethash[h], h);
    LinkCovered(hash, mem, chains, ent, e, h, m);
    IndexedAdd(mem, index, ent, e.networkAddr, m);
  }

  lemma LinkView(mem: Memory, index: map<NetAddr, Ptr>, ent: Ptr, e: Entry, head: Ptr, h: nat)
    requires Indexed(mem, index) && ent !in mem && ent != NULL && (head != NULL ==> head in mem)
    ensures var m := LinkFront(mem[ent := e], ent, head, h);
            && m.Keys == mem.Keys + {ent}
            && (forall p <- mem :: m[p].rec == mem[p].rec && m[p].networkAddr == mem[p].networkAddr)
            && m[ent].rec == e.rec
            && ViewOf(m, index[e.networkAddr := ent]) == ViewOf(mem, index)[e.networkAddr := e.rec]
  {
  }

  lemma UnlinkChains(hash: Hasher, nethash: seq<Ptr>, mem: Memory, chains: seq<seq<Ptr>>, b: nat, k: nat)
    requires Chained(hash, nethash, mem, chains)
    requires b < NAT25_HASH_SIZE && k < |chains[b]|
    ensures forall i :: 0 <= i < |chains[b]| ==> chains[b][i] in mem
    ensures var c := chains[b];
            Chained(hash, if k == 0 then nethash[b := mem[c[0]].next] else nethash, UnlinkAt(mem, c, k) - {c[k]},
                    chains[b := c[..k] + c[k + 1..]])
  {
    InBucket(hash, nethash, mem, chains, b);
    var c := chains[b];
    var m := UnlinkAt(mem, c, k);
    var m' := m - {c[k]};
    var heads := if k == 0 then nethash[b := mem[c[0]].next] else nethash;
    var chains' := chains[b := c[..k] + c[k + 1..]];
    forall b' | 0 <= b' < NAT25_HASH_SIZE ensures ChainOk(hash, m', b', heads[b'], chains'[b']) {
      InBucket(hash, nethash, mem, chains, b');
      assert ChainOk(hash, mem, b', nethash[b'], chains[b']);
      if b' == b {
        UnlinkAtChain(hash, mem, b, nethash[b], c, k);
        forall i | 0 <= i < |chains'[b]| ensures chains'[b][i] in m && chains'[b][i] != c[k] {
          assert Hooked(hash, m, b, chains'[b], i);
        }
        ChainFrame(hash, m, m', b, heads[b], chains'[b]);
      } else {
        ChainFrame(hash, mem, m', b', nethash[b'], chains[b']);
      }
    }
  }

  lemma UnlinkCovered(hash: Hasher, mem: Memory, chains: seq<seq<Ptr>>, b: nat, k: nat, m: Memory)
    requires Covered(hash, mem, chains) && b < NAT25_HASH_SIZE && k < |chains[b]|
    requires m.Keys == mem.Keys - {chains[b][k]}
    requires forall p <- m :: m[p].networkAddr == mem[p].networkAddr
    ensures Covered(hash, m, chains[b := chains[b][..k] + chains[b][k + 1..]])
  {
    var c := chains[b];
    var d := c[..k] + c[k + 1..];
    forall p | p in m ensures p in chains[b := d][hash(m[p].networkAddr)] {
      assert p in chains[hash(mem[p].networkAddr)];
      if p in c {
        var i :| 0 <= i < |c| && c[i] == p;
        assert d[if i < k then i else i - 1] == p;
      }
    }
  }

  lemma UnlinkKeys(mem: Memory, c: seq<Ptr>, k: nat)
    requires k < |c| && forall i :: 0 <= i < |c| ==> c[i] in mem
    ensures var m := UnlinkAt(mem, c, k) - {c[k]};
            && m.Keys == mem.Keys - {c[k]}
            && (forall p <- m :: m[p].networkAddr == mem[p].networkAddr && m[p].rec == mem[p].rec)
  {
  }

  lemma UnlinkView(mem: Memory, index: map<NetAddr, Ptr>, f: Ptr, m: Memory)
    requires Indexed(mem, index) && f in mem && m.Keys == mem.Keys - {f}
    requires forall p <- m :: m[p].networkAddr == mem[p].networkAddr && m[p].rec == mem[p].rec
    ensures var index' := index - {mem[f].networkAddr};
            && Indexed(m, index')
            && ViewOf(m, index') == ViewOf(mem, index) - {mem[f].networkAddr}
  {
  }

  lemma IndexedRemove(mem: Memory, index: map<NetAddr, Ptr>, ent: Ptr, m: Memory)
    requires Indexed(mem, index) && ent in mem && m.Keys == mem.Keys - {ent}
    requires forall p <- m :: m[p].networkAddr == mem[p].networkAddr
    ensures Indexed(m, index - {mem[ent].networkAddr})
  {
  }

  /** Unlinking and freeing an entry keeps the table. */
  lemma UnlinkTable(hash: Hasher, nethash: seq<Ptr>, mem: Memory, chains: seq<seq<Ptr>>, index: map<NetAddr, Ptr>,
          b: nat, k: nat)
    requires TableOk(hash, nethash, mem, chains, index)
    requires b < NAT25_HASH_SIZE && k < |chains[b]|
    ensures forall i :: 0 <= i < |chains[b]| ==> chains[b][i] in mem
    ensures var c := chains[b];
            TableOk(hash, if k == 0 then nethash[b := mem[c[0]].next] else nethash, UnlinkAt(mem, c, k) - {c[k]},
                    chains[b := c[..k] + c[k + 1..]], index - {mem[c[k]].networkAddr})
  {
    UnlinkChains(hash, nethash, mem, chains, b, k);
    UnlinkKeys(mem, chains[b], k);
    var m := UnlinkAt(mem, chains[b], k) - {chains[b][k]};
    UnlinkCovered(hash, mem, chains, b, k, m);
    IndexedRemove(mem, index, chains[b][k], m);
  }

  /** Changing an entry's payload leaves the links alone. */
  lemma PayloadTable(hash: Hasher, nethash: seq<Ptr>, mem: Memory, chains: seq<seq<Ptr>>, index: map<NetAddr, Ptr>,
          p: Ptr, r: Rec)
    requires TableOk(hash, nethash, mem, chains, index) && p in mem
    ensures TableOk(hash, nethash, mem[p := mem[p].(rec := r)], chains, index)
  {
    var m := mem[p := mem[p].(rec := r)];
    forall b | 0 <= b < NAT25_HASH_SIZE ensures ChainOk(hash, m, b, nethash[b], chains[b]) {
      InBucket(hash, nethash, mem, chains, b);
      ChainFrame(hash, mem, m, b, nethash[b], chains[b]);
    }
  }

  ghost function KeysBelow(hash: Hasher, v: View, b: nat): set<NetAddr> {
    set a | a in v && hash(a) < b
  }

  /** The keys a walk along `addrs` has visited after i steps, on top of those visited before it. */
  ghost function Seen(done: set<NetAddr>, addrs: seq<NetAddr>, i: nat): set<NetAddr>
    requires i <= |addrs|
  {
    done + set j | 0 <= j < i :: addrs[j]
  }

  /** What a walk has still to visit is new. */
  ghost predicate Unseen(done: set<NetAddr>, addrs: seq<NetAddr>, todo: set<NetAddr>) {
    && (forall j :: 0 <= j < |addrs| ==> addrs[j] in todo && addrs[j] !in done)
    && (forall j, k :: 0 <= j < k < |addrs| ==> addrs[j] != addrs[k])
  }

  lemma SeenNext(done: set<NetAddr>, addrs: seq<NetAddr>, todo: set<NetAddr>, i: nat)
    requires Unseen(done, addrs, todo) && i < |addrs|
    ensures addrs[i] in todo && addrs[i] !in Seen(done, addrs, i)
    ensures Seen(done, addrs, i + 1) == Seen(done, addrs, i) + {addrs[i]}
  {
  }

  lemma WalkCovers(hash: Hasher, v: View, done: set<NetAddr>, b: nat, addrs: seq<NetAddr>, cur: View)
    requires done == KeysBelow(hash, v, b)
    requires cur.Keys <= v.Keys && v.Keys - done <= cur.Keys
    requires forall a <- cur :: hash(a) == b ==> a in addrs
    requires forall a <- addrs :: a in cur && hash(a) == b
    requires forall j, k :: 0 <= j < k < |addrs| ==> addrs[j] != addrs[k]
    ensures Unseen(done, addrs, v.Keys)
    ensures Seen(done, addrs, 0) == done
    ensures Seen(done, addrs, |addrs|) == KeysBelow(hash, v, b + 1)
  {
  }

  /** A list split at the walker, with the walker's entry dropped or passed. */
  lemma Splice(kept: seq<Ptr>, c: seq<Ptr>, i: nat)
    requires i < |c|
    ensures (kept + c[i..])[|kept|] == c[i]
    ensures At(kept + c[i..], |kept| + 1) == At(c, i + 1)
    ensures (kept + c[i..])[..|kept|] + (kept + c[i..])[|kept| + 1..] == kept + c[i + 1..]
    ensures kept + c[i..] == kept + [c[i]] + c[i + 1..]
  {
  }

  lemma WithoutHead(s: seq<seq<Ptr>>, b: nat, rest: seq<Ptr>)
    requires b < |s|
    ensures rest != [] ==> s[b := rest][b := rest[..0] + rest[1..]] == s[b := rest[1..]]
    ensures rest != [] ==> At(rest, 1) == At(rest[1..], 0)
    ensures At(rest, 0) != NULL ==> rest != []
  {
    if rest != [] {
      assert rest[..0] + rest[1..] == rest[1..];
      assert s[b := rest][b := rest[1..]] == s[b := rest[1..]];
    }
  }

  lemma Remaining(kept: seq<Ptr>, c: seq<Ptr>, i: nat)
    requires i <= |c|
    ensures forall j :: i <= j < |c| ==> c[j] in kept + c[i..]
  {
    forall j | i <= j < |c| ensures c[j] in kept + c[i..] {
      assert (kept + c[i..])[|kept| + j - i] == c[j];
    }
  }

  /** What a walk along the list `c` has before it after i steps: live entries with the addresses it started with. */
  ghost predicate Ahead(mem: Memory, c: seq<Ptr>, addrs: seq<NetAddr>, i: nat) {
    && |addrs| == |c|
    && forall j :: i <= j < |c| ==> c[j] != NULL && c[j] in mem && mem[c[j]].networkAddr == addrs[j]
  }

  lemma NextAhead(mem: Memory, c: seq<Ptr>, addrs: seq<NetAddr>, i: nat)
    requires Ahead(mem, c, addrs, i)
    ensures |addrs| == |c| && (i < |c| ==> c[i] != NULL && c[i] in mem && mem[c[i]].networkAddr == addrs[i])
    ensures At(c, i) == NULL <==> i >= |c|
  {
  }

  lemma StillAhead(mem: Memory, mem': Memory, kept: seq<Ptr>, c: seq<Ptr>, addrs: seq<NetAddr>, i: nat)
    requires 0 < i <= |c| && Ahead(mem, c, addrs, i - 1)
    requires forall p <- mem' :: p in mem && mem'[p].networkAddr == mem[p].networkAddr
    requires forall p <- kept + c[i..] :: p in mem'
    ensures Ahead(mem', c, addrs, i) && (At(c, i) == NULL <==> i == |c|)
  {
    Remaining(kept, c, i);
  }

  // ----- the operations

  class Nat25Db {
    const nethash: array<Ptr>
    const hz: nat
    const hash: Hasher
    var mem: Memory
    var scdbEntry: Ptr
    var scdbMac: Mac
    var scdbIp: seq<byte>
    ghost var chains: seq<seq<Ptr>>
    ghost var index: map<NetAddr, Ptr>

    ghost predicate Valid()
      reads this, nethash
    {
      && nethash.Length == NAT25_HASH_SIZE
      && TableOk(hash, nethash[..], mem, chains, index)
      && (forall p <- mem :: mem[p].rec.useCount >= 1)
      && (scdbEntry != NULL ==> scdbEntry in mem)
    }

    /** What the table stands for. */
    ghost function Contents(): Db
      requires Valid()
      reads this, nethash
    {
      Db(ViewOf(mem, index), if scdbEntry == NULL then None else Some(mem[scdbEntry].networkAddr), scdbMac, scdbIp)
    }

    constructor (hz: nat)
      ensures Valid() && fresh(nethash) && this.hz == hz && hash == NetworkHash
      ensures Contents() == Db(map[], None, Zeros(6), Zeros(4))
    {
      nethash := new Ptr[NAT25_HASH_SIZE](_ => NULL);
      this.hz := hz;
      hash := NetworkHash;
      mem := map[];
      scdbEntry, scdbMac, scdbIp := NULL, Zeros(6), Zeros(4);
      chains := seq(NAT25_HASH_SIZE, _ => []);
      index := map[];
    }

    /** The walk that lookup, insert and `scdb_findEntry` share. */
    method Find(a: NetAddr) returns (db: Ptr)
      requires Valid()
      ensures db == if a in index then index[a] else NULL
    {
      hide Chained, Covered, Indexed, At;
      var h := hash(a);
      ghost var c := chains[h];
      ghost var k := 0;
      BucketHead(hash, nethash[..], mem, chains, h);
      InOwnBucket(hash, nethash[..], mem, chains, index, a);
      db := nethash[h];
      while db != NULL
        invariant 0 <= k <= |c| && db == At(c, k)
        invariant a in index ==> index[a] in c[k..]
        decreases |c| - k
      {
        AtIs(c, k);
        BucketNext(hash, nethash[..], mem, chains, h, k);
        if mem[db].networkAddr == a {
          KeyOf(mem, index, db);
          return;
        }
        NotYet(mem, index, a, c, k);
        db := mem[db].next;
        k := k + 1;
      }
      NullAtEnd(hash, nethash[..], mem, chains, index, h, k);
    }

    /** Writing an entry's payload in place. */
    method SetRec(p: Ptr, r: Rec)
      requires Valid() && p in mem && r.useCount >= 1
      modifies `mem
      ensures Valid() && mem == old(mem)[p := old(mem)[p].(rec := r)]
      ensures Contents() == old(Contents()).(view := old(Contents()).view[mem[p].networkAddr := r])
    {
      hide Chained, Covered;
      PayloadTable(hash, nethash[..], mem, chains, index, p, r);
      mem := mem[p := mem[p].(rec := r)];
    }

    /** `__nat25_db_network_lookup_and_replace`: the destination address is the frame's first six bytes. */
    method LookupAndReplace(frame: array<byte>, a: NetAddr, now: Tick) returns (ret: int)
      requires Valid() && frame.Length >= 6
      modifies `mem, frame
      ensures Valid()
      ensures ret == if a in old(Contents()).view then 1 else 0
      ensures Contents() == old(Contents()).(view := Lookup(old(Contents()).view, a, now, hz))
      ensures var v := old(Contents()).view;
              frame[..] ==
              if a in v && !HasExpired(v[a].ageing, now, hz) then Patch(old(frame[..]), 0, v[a].mac) else old(frame[..])
    {
      hide Chained, Covered;
      var db := Find(a);
      if db == NULL {
        return 0;
      }
      var r := mem[db].rec;
      if !HasExpired(r.ageing, now, hz) {
        Store(frame, 0, r.mac);
        SetRec(db, r.(useCount := r.useCount + 1));
      }
      return 1;
    }

    /** `__network_hash_link`: `ent` is allocated but in no bucket yet. */
    method HashLink(ent: Ptr, h: Bucket)
      requires nethash.Length == NAT25_HASH_SIZE && ent in mem && nethash[h] != ent
      requires nethash[h] != NULL ==> nethash[h] in mem
      modifies nethash, `mem
      ensures mem == LinkFront(old(mem), ent, old(nethash[h]), h)
      ensures nethash[..] == old(nethash[..])[h := ent]
    {
      mem := mem[ent := mem[ent].(next := nethash[h])];
      if mem[ent].next != NULL {
        mem := mem[mem[ent].next := mem[mem[ent].next].(pprev := NextOf(ent))];
      }
      nethash[h] := ent;
      mem := mem[ent := mem[ent].(pprev := Head(h))];
    }

    /** `__network_hash_unlink`: `*(ent->pprev_hash)` is the slot before `ent`, whichever kind that is. */
    method HashUnlink(ent: Ptr, ghost b: nat, ghost k: nat)
      requires Valid() && b < NAT25_HASH_SIZE && k < |chains[b]| && ent == chains[b][k]
      modifies nethash, `mem
      ensures forall i :: 0 <= i < |chains[b]| ==> chains[b][i] in old(mem)
      ensures mem == UnlinkAt(old(mem), chains[b], k)
      ensures nethash[..] == if k == 0 then old(nethash[..])[b := old(mem)[ent].next] else old(nethash[..])
    {
      ghost var c := chains[b];
      InBucket(hash, nethash[..], mem, chains, b);
      assert ChainOk(hash, mem, b, nethash[b], c) && Hooked(hash, mem, b, c, k);
      match mem[ent].pprev {
        case Head(h) => nethash[h] := mem[ent].next;
        case NextOf(p) => mem := mem[p := mem[p].(next := mem[ent].next)];
        case NoSlot => assert false;
      }
      var e := mem[ent];
      if e.next != NULL {
        mem := mem[e.next := mem[e.next].(pprev := e.pprev)];
      }
      mem := mem[ent := mem[ent].(next := NULL, pprev := NoSlot)];
    }

    method AddEntry(mac: Mac, a: NetAddr, now: Tick, block: Ptr)
      requires Valid() && block != NULL && block !in mem && a !in index
      modifies nethash, `mem, `chains, `index
      ensures Valid()
      ensures Contents() == old(Contents()).(view := old(Contents()).view[a := Rec(mac, now, 1)])
    {
      hide Chained, Covered, LinkFront, ViewOf;
      var e := Entry(NULL, NoSlot, a, Rec(mac, now, 1));
      var h := hash(a);
      LinkTable(hash, nethash[..], mem, chains, index, block, e, h);
      LinkView(mem, index, block, e, nethash[h], h);
      mem := mem[block := e];
      HashLink(block, h);
      chains := chains[h := [block] + chains[h]];
      index := index[a := block];
    }

    /** `__nat25_db_network_insert`; `block` is what `rtw_malloc` returns. */
    method Insert(mac: Mac, a: NetAddr, now: Tick, block: Ptr)
      requires Valid() && block !in mem
      modifies nethash, `mem, `chains, `index
      ensures Valid()
      ensures Contents() == old(Contents()).(view := M.Insert(old(Contents()).view, a, mac, now, block != NULL))
    {
      hide Chained, Covered;
      var db := Find(a);
      if db != NULL {
        SetRec(db, mem[db].rec.(mac := mac, ageing := now));
        return;
      }
      if block != NULL {
        AddEntry(mac, a, now, block);
      }
    }

    /** Unlinks and frees entry f. */
    method UnlinkAndFree(f: Ptr, ghost b: nat, ghost k: nat)
      requires Valid() && b < NAT25_HASH_SIZE && k < |chains[b]| && f == chains[b][k] && f != scdbEntry
      modifies nethash, `mem, `chains, `index
      ensures Valid() && f in old(mem)
      ensures chains == old(chains)[b := old(chains)[b][..k] + old(chains)[b][k + 1..]]
      ensures Contents() == old(Contents()).(view := old(Contents()).view - {old(mem)[f].networkAddr})
      ensures forall p <- mem :: p in old(mem) && mem[p].networkAddr == old(mem)[p].networkAddr
    {
      hide Chained, Covered, UnlinkAt, ViewOf;
      UnlinkTable(hash, nethash[..], mem, chains, index, b, k);
      UnlinkKeys(mem, chains[b], k);
      UnlinkView(mem, index, f, UnlinkAt(mem, chains[b], k) - {f});
      ghost var a := mem[f].networkAddr;
      HashUnlink(f, b, k);
      mem := mem - {f};
      chains := chains[b := chains[b][..k] + chains[b][k + 1..]];
      index := index - {a};
    }

    /**
     What both expiry and cleanup do with a dead entry: drop the transmit path's cache when it points at it, then free
     it.
     */
    method FreeEntry(f: Ptr, ghost b: nat, ghost k: nat)
      requires Valid() && b < NAT25_HASH_SIZE && k < |chains[b]| && f == chains[b][k]
      modifies nethash, `mem, `chains, `index, `scdbEntry, `scdbMac, `scdbIp
      ensures Valid() && f in old(mem)
      ensures chains == old(chains)[b := old(chains)[b][..k] + old(chains)[b][k + 1..]]
      ensures Contents() == DropScdb(old(Contents()), old(Contents()).view - {old(mem)[f].networkAddr})
      ensures forall p <- mem :: p in old(mem) && mem[p].networkAddr == old(mem)[p].networkAddr
    {
      hide Chained, Covered;
      InBucket(hash, nethash[..], mem, chains, b);
      if scdbEntry == f {
        scdbMac := Zeros(6);
        scdbIp := Zeros(4);
        scdbEntry := NULL;
      }
      UnlinkAndFree(f, b, k);
    }

    lemma ContentsOk()
      requires Valid()
      ensures DbOk(Contents())
    {
    }

    lemma EntryInContents(f: Ptr)
      requires Valid() && f in mem
      ensures mem[f].networkAddr in Contents().view && Contents().view[mem[f].networkAddr] == mem[f].rec
      ensures mem[f].rec.useCount >= 1
    {
    }

    /** Bucket b's list as the loops walk it, and its keys. */
    lemma BucketList(b: nat)
      requires Valid() && b < NAT25_HASH_SIZE
      ensures b < nethash.Length && b < |chains|
      ensures var c := chains[b];
              && nethash[b] == At(c, 0)
              && (forall k :: 0 <= k < |c| ==> c[k] != NULL && c[k] in mem)
              && (forall k :: 0 <= k < |c| ==> mem[c[k]].next == At(c, k + 1))
              && var addrs := AddrsOf(mem, c);
              && (forall a <- Contents().view :: hash(a) == b ==> a in addrs)
              && (forall a <- addrs :: a in Contents().view && hash(a) == b)
              && (forall j, k :: 0 <= j < k < |addrs| ==> addrs[j] != addrs[k])
    {
      hide Chained, Covered;
      BucketKeys(hash, nethash[..], mem, chains, index, b);
      BucketHead(hash, nethash[..], mem, chains, b);
      forall k | 0 <= k < |chains[b]|
        ensures mem[chains[b][k]].next == At(chains[b], k + 1)
      {
        BucketNext(hash, nethash[..], mem, chains, b, k);
      }
    }

    /** The body of the expire loop, for the entry at position k of bucket b. */
    method ExpireEntry(f: Ptr, now: Tick, ghost b: nat, ghost k: nat, ghost d0: Db, ghost seen: set<NetAddr>)
      returns (ghost freed: bool)
      requires Valid() && b < NAT25_HASH_SIZE && k < |chains[b]| && f == chains[b][k] && f in mem
      requires mem[f].networkAddr in d0.view && mem[f].networkAddr !in seen
      requires Contents() == DropScdb(d0, ExpireSome(d0.view, seen, now, hz))
      modifies nethash, `mem, `chains, `index, `scdbEntry, `scdbMac, `scdbIp
      ensures Valid()
      ensures chains == if freed then old(chains)[b := old(chains)[b][..k] + old(chains)[b][k + 1..]] else old(chains)
      ensures Contents() == DropScdb(d0, ExpireSome(d0.view, seen + {old(mem)[f].networkAddr}, now, hz))
      ensures forall p <- mem :: p in old(mem) && mem[p].networkAddr == old(mem)[p].networkAddr
    {
      hide Valid, Contents, DropScdb, ExpireSome;
      EntryInContents(f);
      ExpireOneDb(d0, seen, mem[f].networkAddr, now, hz);
      freed := false;
      var r := mem[f].rec;
      if HasExpired(r.ageing, now, hz) {
        if r.useCount - 1 == 0 {
          FreeEntry(f, b, k);
          freed := true;
        } else {
          SetRec(f, r.(useCount := r.useCount - 1));
        }
      }
    }

    /** The k-th step of a walk along bucket b. */
    lemma BucketStep(b: nat, k: nat)
      requires Valid() && b < NAT25_HASH_SIZE
      ensures |chains| == NAT25_HASH_SIZE && b < nethash.Length
      ensures forall p <- chains[b] :: p in mem
      ensures k < |chains[b]| ==>
                var p := chains[b][k]; p != NULL && p in mem && mem[p].next == At(chains[b], k + 1)
    {
      BucketList(b);
    }

    /** What one bucket's walk has to visit at the start of its part of an expire pass. */
    lemma WalkStart(b: nat, d0: Db, done: set<NetAddr>, now: Tick) returns (addrs: seq<NetAddr>)
      requires Valid() && b < NAT25_HASH_SIZE
      requires done == KeysBelow(hash, d0.view, b)
      requires Contents() == DropScdb(d0, ExpireSome(d0.view, done, now, hz))
      ensures |chains| == NAT25_HASH_SIZE && b < nethash.Length && nethash[b] == At(chains[b], 0)
      ensures |addrs| == |chains[b]| && Ahead(mem, chains[b], addrs, 0)
      ensures Unseen(done, addrs, d0.view.Keys)
      ensures Seen(done, addrs, 0) == done
      ensures Seen(done, addrs, |addrs|) == KeysBelow(hash, d0.view, b + 1)
    {
      hide Valid, Contents, DropScdb, ExpireSome, Seen, Unseen;
      BucketList(b);
      BucketStep(b, 0);
      ExpireKeys(d0, done, now, hz);
      addrs := AddrsOf(mem, chains[b]);
      WalkCovers(hash, d0.view, done, b, addrs, Contents().view);
    }

    /**
     One round of the expire loop along bucket b, whose list was `c`: `kept` is what the walk has left behind, and `g`
     where it goes on.
     */
    method ExpireNext(f: Ptr, now: Tick, ghost b: nat, ghost d0: Db, ghost done: set<NetAddr>, ghost kept: seq<Ptr>,
                      ghost c: seq<Ptr>, ghost addrs: seq<NetAddr>, ghost i: nat)
      returns (g: Ptr, ghost kept': seq<Ptr>)
      requires Valid() && b < NAT25_HASH_SIZE == |chains|
      requires i < |c| && f == c[i] && chains[b] == kept + c[i..]
      requires Ahead(mem, c, addrs, i) && Unseen(done, addrs, d0.view.Keys)
      requires Contents() == DropScdb(d0, ExpireSome(d0.view, Seen(done, addrs, i), now, hz))
      modifies nethash, `mem, `chains, `index, `scdbEntry, `scdbMac, `scdbIp
      ensures Valid() && |chains| == NAT25_HASH_SIZE
      ensures g == At(c, i + 1) && chains[b] == kept' + c[i + 1..]
      ensures Ahead(mem, c, addrs, i + 1)
      ensures Contents() == DropScdb(d0, ExpireSome(d0.view, Seen(done, addrs, i + 1), now, hz))
    {
      hide Valid, Contents, DropScdb, ExpireSome, Seen, Unseen, Ahead;
      ghost var before := mem;
      BucketStep(b, |kept|);
      Splice(kept, c, i);
      NextAhead(mem, c, addrs, i);
      SeenNext(done, addrs, d0.view.Keys, i);
      g := mem[f].next;
      ghost var freed := ExpireEntry(f, now, b, |kept|, d0, Seen(done, addrs, i));
      kept' := if freed then kept else kept + [f];
      assert chains[b] == kept' + c[i + 1..];
      BucketStep(b, |kept'|);
      StillAhead(before, mem, kept', c, addrs, i + 1);
    }

    /** One bucket's part of an expire pass that began at `d0` and has visited the keys in `done`. */
    method ExpireBucket(b: nat, now: Tick, ghost d0: Db, ghost done: set<NetAddr>)
      requires Valid() && b < NAT25_HASH_SIZE
      requires done == KeysBelow(hash, d0.view, b)
      requires Contents() == DropScdb(d0, ExpireSome(d0.view, done, now, hz))
      modifies nethash, `mem, `chains, `index, `scdbEntry, `scdbMac, `scdbIp
      ensures Valid()
      ensures Contents() == DropScdb(d0, ExpireSome(d0.view, KeysBelow(hash, d0.view, b + 1), now, hz))
    {
      hide Valid, Contents, DropScdb, ExpireSome, Seen, Unseen, Ahead, KeysBelow;
      ghost var addrs := WalkStart(b, d0, done, now);
      ghost var c, kept, i := chains[b], [], 0;
      var f := nethash[b];
      NextAhead(mem, c, addrs, 0);
      while f != NULL
        invariant Valid() && |chains| == NAT25_HASH_SIZE
        invariant 0 <= i <= |c| && f == At(c, i) && chains[b] == kept + c[i..]
        invariant Ahead(mem, c, addrs, i)
        invariant Contents() == DropScdb(d0, ExpireSome(d0.view, Seen(done, addrs, i), now, hz))
        decreases |c| - i
      {
        f, kept := ExpireNext(f, now, b, d0, done, kept, c, addrs, i);
        i := i + 1;
      }
      NextAhead(mem, c, addrs, i);
    }

    /** `nat25_db_expire` */
    method Expire(now: Tick)
      requires Valid()
      modifies nethash, `mem, `chains, `index, `scdbEntry, `scdbMac, `scdbIp
      ensures Valid()
      ensures Contents() == DropScdb(old(Contents()), M.Expire(old(Contents()).view, now, hz))
    {
      hide Valid, Contents, DropScdb, ExpireSome;
      ghost var d0 := Contents();
      ContentsOk();
      ExpireNone(d0, now, hz);
      assert KeysBelow(hash, d0.view, 0) == {};
      for b := 0 to NAT25_HASH_SIZE
        invariant Valid()
        invariant Contents() == DropScdb(d0, ExpireSome(d0.view, KeysBelow(hash, d0.view, b), now, hz))
      {
        ExpireBucket(b, now, d0, KeysBelow(hash, d0.view, b));
      }
      assert KeysBelow(hash, d0.view, NAT25_HASH_SIZE) == d0.view.Keys;
    }

    lemma EmptyChains()
      requires Valid() && forall b :: 0 <= b < NAT25_HASH_SIZE ==> chains[b] == []
      ensures Contents().view == map[]
    {
    }

    lemma BucketStart(b: nat)
      requires Valid() && b < NAT25_HASH_SIZE
      ensures |chains| == NAT25_HASH_SIZE && b < nethash.Length && nethash[b] == At(chains[b], 0)
      ensures nethash[b] == NULL ==> chains[b] == []
    {
      BucketList(b);
    }

    /** One bucket's part of a cleanup. */
    method CleanupBucket(b: nat, ghost d0: Db)
      requires Valid() && b < NAT25_HASH_SIZE && b < |chains| && Contents() == DropScdb(d0, Contents().view)
      modifies nethash, `mem, `chains, `index, `scdbEntry, `scdbMac, `scdbIp
      ensures Valid() && Contents() == DropScdb(d0, Contents().view)
      ensures chains == old(chains)[b := []]
    {
      hide Valid, Contents, DropScdb;
      BucketStart(b);
      ghost var rest := chains[b];
      var f := nethash[b];
      while f != NULL
        invariant Valid() && b < |chains| && chains == old(chains)[b := rest]
        invariant f == At(rest, 0) && (f == NULL ==> rest == [])
        invariant Contents() == DropScdb(d0, Contents().view)
        decreases |rest|
      {
        BucketStep(b, 0);
        WithoutHead(old(chains), b, rest);
        var g := mem[f].next;
        DropDrop(d0, Contents(), {mem[f].networkAddr});
        FreeEntry(f, b, 0);
        f := g;
        rest := rest[1..];
        BucketStep(b, 0);
      }
    }

    /** `nat25_db_cleanup` */
    method Cleanup()
      requires Valid()
      modifies nethash, `mem, `chains, `index, `scdbEntry, `scdbMac, `scdbIp
      ensures Valid()
      ensures Contents() == DropScdb(old(Contents()), map[])
    {
      hide Valid, Contents, DropScdb;
      ghost var d0 := Contents();
      ContentsOk();
      DropNothing(d0);
      BucketStep(0, 0);
      for b := 0 to NAT25_HASH_SIZE
        invariant Valid() && |chains| == NAT25_HASH_SIZE
        invariant forall b' :: 0 <= b' < b ==> chains[b'] == []
        invariant Contents() == DropScdb(d0, Contents().view)
      {
        CleanupBucket(b, d0);
      }
      EmptyChains();
    }

    /** `scdb_findEntry`: the MAC address it is given plays no part. */
    method ScdbFindEntry(ip: seq<byte>) returns (db: Ptr)
      requires Valid() && |ip| == 4
      ensures db != NULL <==> Ipv4Addr(ip) in Contents().view
      ensures db != NULL ==> db in mem && mem[db].networkAddr == Ipv4Addr(ip)
    {
      hide Chained, Covered, Ipv4Addr;
      db := Find(Ipv4Addr(ip));
    }

    /** Refreshing the entry the transmit path's cache points at. */
    method TouchScdb(now: Tick)
      requires Valid() && scdbEntry != NULL
      modifies `mem
      ensures Valid() && scdbEntry in mem && mem.Keys == old(mem).Keys
      ensures Contents() == old(Contents()).(view := Touch(old(Contents()).view, mem[scdbEntry].networkAddr, now))
    {
      SetRec(scdbEntry, mem[scdbEntry].rec.(ageing := now));
    }

    /** What `rtw_br_client_tx` does to the table for an untagged IPv4 frame; `block` is what `rtw_malloc` returns. */
    method TxIpv4(mac: Mac, ip: seq<byte>, now: Tick, block: Ptr)
      requires Valid() && |ip| == 4 && block !in mem
      modifies nethash, `mem, `chains, `index, `scdbEntry, `scdbMac, `scdbIp
      ensures Valid()
      ensures Contents() == M.TxIpv4(old(Contents()), mac, ip, now, block != NULL)
    {
      hide Chained, Covered, Ipv4Addr;
      ContentsOk();
      var doNat25 := true;
      if scdbMac != mac {
        scdbEntry := ScdbFindEntry(ip);
        if scdbEntry != NULL {
          scdbMac, scdbIp := mac, ip;
          TouchScdb(now);
          doNat25 := false;
        }
      } else if scdbEntry != NULL {
        TouchScdb(now);
        doNat25 := false;
      } else {
        scdbMac, scdbIp := Zeros(6), Zeros(4);
      }
      if doNat25 && ip != Zeros(4) {
        Insert(mac, Ipv4Addr(ip), now, block);
      }
    }
  }
}
