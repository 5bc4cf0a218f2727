/**
 The scan-result cache of `rtw_mlme.c` as a list of networks, and the bounded least-recently-seen map it stands for.
 */
module ScanModel {
  import opened Bytes
  import opened Clock

  const MAX_BSS_CNT := 128
  /** The quality that marks a frame heard on a neighbouring channel. */
  const WRONG_CHANNEL: byte := 101

  type Bss = b: RawBss | |b.ies| >= 12 && |b.ssid| <= 32
    witness Bss([0, 0, 0, 0, 0, 0], [], false, 0, 0, 0, seq(12, _ => 0))

  /** `WLAN_BSSID_EX`: the capabilities are bytes 10 and 11 of the fixed fields in front of the elements. */
  datatype RawBss = Bss(
    mac: Mac, ssid: seq<byte>, isBeacon: bool, rssi: int, strength: byte, quality: byte, ies: seq<byte>)

  datatype Network = Network(bss: Bss, lastScanned: Tick, isFixed: bool, networkType: int, aid: int, joinRes: int)

  /** What the driver knows of the network it is connected to. */
  datatype Connection = Connection(linked: bool, current: Bss, strength: byte, quality: byte)

  /** `is_same_network` compares these and nothing else. */
  datatype Identity = Identity(mac: Mac, ssid: seq<byte>, infrastructure: bool, ibss: bool)

  function Id(b: Bss): Identity {
    Identity(b.mac, b.ssid, b.ies[10] % 2 == 1, b.ies[10] / 2 % 2 == 1)
  }

  /** `is_same_network`, field by field. */
  predicate IsSameNetwork(a: Bss, b: Bss) {
    && |a.ssid| == |b.ssid|
    && a.mac == b.mac
    && a.ssid == b.ssid
    && a.ies[10] / 2 % 2 == b.ies[10] / 2 % 2
    && a.ies[10] % 2 == b.ies[10] % 2
  }

  lemma SameNetworkIsIdentity(a: Bss, b: Bss)
    ensures IsSameNetwork(a, b) <==> Id(a) == Id(b)
  {
  }

  // ----- the wrapping clock

  /** Of two times one is after the other, but equal ones are not, and times half the clock range apart are both. */
  lemma OneIsAfter(a: Tick, b: Tick)
    ensures TimeAfter(a, b) && TimeAfter(b, a) <==> Age(a, b) == ULONG / 2
    ensures !TimeAfter(a, b) && !TimeAfter(b, a) <==> a == b
  {
  }

  /** For times less than half the clock range old, being later is being younger. */
  lemma LaterIsYounger(a: Tick, b: Tick, now: Tick)
    requires Age(a, now) < ULONG / 2 && Age(b, now) < ULONG / 2
    ensures TimeAfter(a, b) <==> Age(a, now) < Age(b, now)
  {
    var x, y, p, q := now - a, now - b, (now - a) / ULONG, (now - b) / ULONG;
    assert b - a == Age(a, now) - Age(b, now) + (p - q) * ULONG;
  }

  /** The two capability bits are the lowest of byte 10: infrastructure and independent. */
  lemma CapabilityBits(b: Bss)
    ensures Id(b).infrastructure <==> (b.ies[10] as bv8) & 1 != 0
    ensures Id(b).ibss <==> (b.ies[10] as bv8) & 2 != 0
    ensures Id(b).mac == b.mac && Id(b).ssid == b.ssid
  {
  }

  // ----- signal smoothing

  /** One fifth the sample, four fifths history, in unsigned arithmetic. */
  function Smooth(sample: byte, history: byte): (r: byte)
    ensures sample <= r <= history || history <= r <= sample
  {
    (sample + history * 4) / 5
  }

  /** C's division, which drops the fraction whatever the sign. */
  function TruncDiv(x: int, y: int): int
    requires y > 0
  {
    if x < 0 then -((-x) / y) else x / y
  }

  /**
   A steady signal stops moving the average exactly when it lies less than five above it: from below the average never
   reaches the sample, from above it always does.
   */
  lemma SmoothStalls(sample: byte, history: byte)
    ensures Smooth(sample, history) == history <==> history <= sample < history + 5
  {
  }

  // ----- what one survey result does

  function Quality(b: Bss): byte {
    if b.quality == WRONG_CHANNEL then 0 else b.quality
  }

  /** A slot filled afresh from a survey result. */
  function Fresh(target: Bss, now: Tick): Network {
    Network(target.(quality := Quality(target)), now, false, 0, 0, 0)
  }

  /** `update_network`: smoothed signals, or the connection's own, over a copy of the new frame or the old one. */
  function UpdateNetwork(dst: Bss, src: Bss, c: Connection, updateIe: bool): Bss {
    var rightChannel := src.quality != WRONG_CHANNEL;
    var rssi := if rightChannel then TruncDiv(src.rssi + dst.rssi * 4, 5) else dst.rssi;
    var connected := c.linked && Id(c.current) == Id(src);
    var strength :=
      if connected then c.strength else if rightChannel then Smooth(src.strength, dst.strength) else dst.strength;
    var quality :=
      if connected then c.quality else if rightChannel then Smooth(src.quality, dst.quality) else dst.quality;
    (if updateIe then src else dst).(strength := strength, quality := quality, rssi := rssi)
  }

  function Refreshed(n: Network, target: Bss, now: Tick, c: Connection): Network {
    var updateIe := !(|n.bss.ies| > |target.ies| && target.isBeacon);
    n.(lastScanned := now, bss := UpdateNetwork(n.bss, target, c, updateIe))
  }

  predicate Between(a: int, x: int, b: int) {
    a <= x <= b || b <= x <= a
  }

  lemma TruncStaysBetween(a: int, b: int)
    ensures Between(a, TruncDiv(a + b * 4, 5), b)
  {
  }

  /**
   An update never moves a signal past the sample or away from it, and a frame heard on a neighbouring channel moves
   none; only a connected network's strength and quality come from elsewhere.
   */
  lemma SignalsStayBetween(dst: Bss, src: Bss, c: Connection, updateIe: bool)
    ensures var r := UpdateNetwork(dst, src, c, updateIe);
            && Between(dst.rssi, r.rssi, src.rssi)
            && (src.quality == WRONG_CHANNEL ==> r.rssi == dst.rssi)
            && (!(c.linked && IsSameNetwork(c.current, src)) ==>
                  && Between(dst.strength, r.strength, src.strength) && Between(dst.quality, r.quality, src.quality)
                  && (src.quality == WRONG_CHANNEL ==> r.strength == dst.strength && r.quality == dst.quality))
  {
    hide TruncDiv;
    SameNetworkIsIdentity(c.current, src);
    TruncStaysBetween(src.rssi, dst.rssi);
  }

  /** `r` is the integer part of a fifth of x: rounded towards zero. */
  predicate IsFifth(r: int, x: int) {
    if x >= 0 then 5 * r <= x < 5 * r + 5 else 5 * r - 5 < x <= 5 * r
  }

  /**
   The signals after an update. A connected network takes strength and quality from the link. Otherwise a frame of its
   own channel counts one fifth and the history four, and one of a neighbouring channel does not count; and it is so
   with the signal in dBm whether connected or not.
   */
  lemma SignalsAfterUpdate(dst: Bss, src: Bss, c: Connection, updateIe: bool)
    ensures var r := UpdateNetwork(dst, src, c, updateIe);
            && (if src.quality != 101 then IsFifth(r.rssi, src.rssi + 4 * dst.rssi) else r.rssi == dst.rssi)
            && (if c.linked && IsSameNetwork(c.current, src) then r.strength == c.strength && r.quality == c.quality
                else if src.quality != 101
                then && IsFifth(r.strength, src.strength + 4 * dst.strength)
                     && IsFifth(r.quality, src.quality + 4 * dst.quality)
                else r.strength == dst.strength && r.quality == dst.quality)
  {
    SameNetworkIsIdentity(c.current, src);
  }

  predicate SameContents(a: Bss, b: Bss) {
    a.mac == b.mac && a.ssid == b.ssid && a.isBeacon == b.isBeacon && a.ies == b.ies
  }

  predicate SameBookkeeping(a: Network, b: Network) {
    a.isFixed == b.isFixed && a.networkType == b.networkType && a.aid == b.aid && a.joinRes == b.joinRes
  }

  /**
   A known network is stamped and keeps its bookkeeping. Its contents are those of the new frame, but a beacon with
   fewer bytes of elements than are stored does not replace them.
   */
  lemma RefreshedContents(n: Network, target: Bss, now: Tick, c: Connection)
    ensures var r := Refreshed(n, target, now, c);
            && r.lastScanned == now && SameBookkeeping(r, n)
            && SameContents(r.bss, if |n.bss.ies| > |target.ies| && target.isBeacon then n.bss else target)
  {
  }

  /**
   A network that is new comes in as it was received, except that the mark of a wrong channel counts as quality zero.
   */
  lemma FreshContents(target: Bss, now: Tick)
    ensures var r := Fresh(target, now);
            && r.lastScanned == now && !r.isFixed && r.networkType == r.aid == r.joinRes == 0
            && SameContents(r.bss, target) && r.bss.rssi == target.rssi && r.bss.strength == target.strength
            && r.bss.quality == if target.quality == 101 then 0 else target.quality
  {
  }

  function FindSame(es: seq<Network>, id: Identity): (k: nat)
    ensures k <= |es|
    ensures k < |es| ==> Id(es[k].bss) == id
    ensures forall j :: 0 <= j < k ==> Id(es[j].bss) != id
  {
    if es == [] || Id(es[0].bss) == id then 0 else 1 + FindSame(es[1..], id)
  }

  /** The entry the eviction loop ends up with after n entries: it moves on whenever the one it has is later. */
  function Oldest(es: seq<Network>, n: nat): (k: nat)
    requires 0 < n <= |es|
    ensures k < n
  {
    if n == 1 then 0
    else
      var k := Oldest(es, n - 1);
      if TimeAfter(es[k].lastScanned, es[n - 1].lastScanned) then n - 1 else k
  }

  function Survey(es: seq<Network>, target: Bss, now: Tick, c: Connection): (r: seq<Network>)
    ensures |r| <= if |es| < MAX_BSS_CNT then |es| + 1 else |es|
  {
    var k := FindSame(es, Id(target));
    if k < |es| then es[k := Refreshed(es[k], target, now, c)]
    else if |es| < MAX_BSS_CNT then es + [Fresh(target, now)]
    else es[Oldest(es, |es|) := Fresh(target, now)]
  }

  /** `_rtw_find_network`: the first entry of an address, and none for the zero address. */
  function FindMac(es: seq<Network>, mac: Mac): (k: nat)
    ensures k <= |es|
    ensures k < |es| ==> es[k].bss.mac == mac != Zeros(6)
    ensures mac != Zeros(6) ==> forall j :: 0 <= j < k ==> es[j].bss.mac != mac
  {
    if es == [] then 0
    else if mac == Zeros(6) then |es|
    else if es[0].bss.mac == mac then 0
    else 1 + FindMac(es[1..], mac)
  }

  /** The network that is found by its address, marked fixed or no longer. */
  function Pinned(es: seq<Network>, mac: Mac, isFixed: bool): seq<Network> {
    var k := FindMac(es, mac);
    if k < |es| then es[k := es[k].(isFixed := isFixed)] else es
  }

  /** Where a survey result goes, and that nothing else moves or changes. */
  lemma SurveyInPlace(es: seq<Network>, target: Bss, now: Tick, c: Connection)
    ensures var r, k := Survey(es, target, now, c), FindSame(es, Id(target));
            if k < |es|
            then && |r| == |es| && (forall j :: 0 <= j < |es| && j != k ==> r[j] == es[j])
                 && r[k].lastScanned == now && SameBookkeeping(r[k], es[k])
                 && var keep := |es[k].bss.ies| > |target.ies| && target.isBeacon;
                    SameContents(r[k].bss, if keep then es[k].bss else target)
            else var at := if |es| < 128 then |es| else Oldest(es, |es|);
                 && |r| == (if |es| < 128 then |es| + 1 else |es|)
                 && (forall j :: 0 <= j < |es| && j != at ==> r[j] == es[j])
                 && r[at].lastScanned == now && !r[at].isFixed && SameContents(r[at].bss, target)
  {
    hide FindSame, Oldest, Refreshed, Fresh, SameContents, Id;
    var k := FindSame(es, Id(target));
    FreshContents(target, now);
    if k < |es| {
      RefreshedContents(es[k], target, now, c);
    }
  }

  // ----- the map it stands for

  ghost predicate Unique(es: seq<Network>) {
    forall j, k :: 0 <= j < k < |es| ==> Id(es[j].bss) != Id(es[k].bss)
  }

  function Ids(es: seq<Network>): set<Identity> {
    set k | 0 <= k < |es| :: Id(es[k].bss)
  }

  function AsMap(es: seq<Network>): map<Identity, Network> {
    map id | id in Ids(es) :: es[if FindSame(es, id) < |es| then FindSame(es, id) else 0]
  }

  lemma FindSameIs(es: seq<Network>, k: nat)
    requires Unique(es) && k < |es|
    ensures FindSame(es, Id(es[k].bss)) == k
  {
  }

  lemma Found(es: seq<Network>, k: nat, id: Identity)
    requires k < |es| && Id(es[k].bss) == id
    ensures FindSame(es, id) < |es|
  {
  }

  lemma AsMapLooksUp(es: seq<Network>, k: nat)
    requires Unique(es) && k < |es|
    ensures Id(es[k].bss) in AsMap(es) && AsMap(es)[Id(es[k].bss)] == es[k]
  {
    FindSameIs(es, k);
  }

  /** The map read both ways. */
  lemma MapOf(es: seq<Network>)
    requires Unique(es)
    ensures forall k :: 0 <= k < |es| ==> Id(es[k].bss) in AsMap(es) && AsMap(es)[Id(es[k].bss)] == es[k]
    ensures forall id <- AsMap(es) :: FindSame(es, id) < |es|
  {
    forall k | 0 <= k < |es| ensures Id(es[k].bss) in AsMap(es) && AsMap(es)[Id(es[k].bss)] == es[k] {
      AsMapLooksUp(es, k);
    }
  }

  lemma FreshIsNew(target: Bss, now: Tick)
    ensures Id(Fresh(target, now).bss) == Id(target) && Fresh(target, now).lastScanned == now
  {
  }

  lemma IdsAppend(es: seq<Network>)
    requires es != []
    ensures Ids(es) == Ids(es[..|es| - 1]) + {Id(es[|es| - 1].bss)}
  {
    var f := es[..|es| - 1];
    forall id | id in Ids(es) ensures id in Ids(f) + {Id(es[|es| - 1].bss)} {
      var k :| 0 <= k < |es| && Id(es[k].bss) == id;
      if k < |f| { assert f[k] == es[k]; }
    }
    forall id | id in Ids(f) ensures id in Ids(es) {
      var k :| 0 <= k < |f| && Id(f[k].bss) == id;
      assert es[k] == f[k];
    }
  }

  lemma {:induction false} UniqueCounts(es: seq<Network>)
    requires Unique(es)
    ensures |Ids(es)| == |es|
  {
    if es != [] {
      var f, id := es[..|es| - 1], Id(es[|es| - 1].bss);
      UniqueCounts(f);
      IdsAppend(es);
      forall k | 0 <= k < |f| ensures Id(f[k].bss) != id { assert f[k] == es[k]; }
    }
  }

  /** A map that agrees with the list both ways is its map. */
  lemma MapIs(es: seq<Network>, m: map<Identity, Network>)
    requires Unique(es)
    requires forall k :: 0 <= k < |es| ==> Id(es[k].bss) in m && m[Id(es[k].bss)] == es[k]
    requires forall id <- m :: FindSame(es, id) < |es|
    ensures AsMap(es) == m
  {
    hide AsMap, FindSame, Id, Unique;
    MapOf(es);
    var n := AsMap(es);
    forall id | id in m ensures id in n && n[id] == m[id] {
      assert Id(es[FindSame(es, id)].bss) == id;
    }
    forall id | id in n ensures id in m {
      assert Id(es[FindSame(es, id)].bss) == id;
    }
    assert n == m;
  }

  /** Putting a network of the same identity in place of entry k. */
  lemma MapSet(es: seq<Network>, k: nat, n: Network)
    requires Unique(es) && k < |es| && Id(n.bss) == Id(es[k].bss)
    ensures AsMap(es[k := n]) == AsMap(es)[Id(n.bss) := n]
  {
    hide AsMap, FindSame;
    MapOf(es);
    var fs := es[k := n];
    assert forall j :: 0 <= j < |es| ==> Id(fs[j].bss) == Id(es[j].bss);
    forall id | id in AsMap(es)[Id(n.bss) := n] ensures FindSame(fs, id) < |fs| {
      Found(fs, if id == Id(n.bss) then k else FindSame(es, id), id);
    }
    MapIs(fs, AsMap(es)[Id(n.bss) := n]);
  }

  /** Putting a network of a new identity in place of entry k. */
  lemma MapReplace(es: seq<Network>, k: nat, n: Network)
    requires Unique(es) && k < |es| && FindSame(es, Id(n.bss)) == |es|
    ensures AsMap(es[k := n]) == (AsMap(es) - {Id(es[k].bss)})[Id(n.bss) := n]
  {
    hide AsMap, FindSame;
    MapOf(es);
    var fs, m := es[k := n], (AsMap(es) - {Id(es[k].bss)})[Id(n.bss) := n];
    assert forall j :: 0 <= j < |es| && j != k ==> fs[j] == es[j];
    forall id | id in m ensures FindSame(fs, id) < |fs| {
      Found(fs, if id == Id(n.bss) then k else FindSame(es, id), id);
    }
    MapIs(fs, m);
  }

  lemma UniqueAppend(es: seq<Network>, n: Network)
    requires Unique(es) && FindSame(es, Id(n.bss)) == |es|
    ensures Unique(es + [n])
    ensures forall k :: 0 <= k < |es| ==> Id(es[k].bss) != Id(n.bss)
  {
    hide FindSame, Id;
  }

  /** Appending a network of a new identity. */
  lemma MapAppend(es: seq<Network>, n: Network)
    requires Unique(es) && FindSame(es, Id(n.bss)) == |es|
    ensures AsMap(es + [n]) == AsMap(es)[Id(n.bss) := n]
  {
    hide AsMap, FindSame, Id;
    MapOf(es);
    var fs, m := es + [n], AsMap(es)[Id(n.bss) := n];
    UniqueAppend(es, n);
    forall id | id in m ensures FindSame(fs, id) < |fs| {
      var j := if id == Id(n.bss) then |es| else FindSame(es, id);
      assert fs[j] == if j == |es| then n else es[j];
      Found(fs, j, id);
    }
    forall k | 0 <= k < |fs| ensures Id(fs[k].bss) in m && m[Id(fs[k].bss)] == fs[k] {
      if k < |es| {
        assert fs[k] == es[k] && Id(es[k].bss) in AsMap(es);
      }
    }
    MapIs(fs, m);
  }

  /** Refreshing or replacing keeps a network's identity. */
  lemma RefreshedKeepsIdentity(n: Network, target: Bss, now: Tick, c: Connection)
    requires Id(n.bss) == Id(target)
    ensures Id(Refreshed(n, target, now, c).bss) == Id(target) && Refreshed(n, target, now, c).lastScanned == now
    ensures Id(Fresh(target, now).bss) == Id(target)
  {
  }

  lemma SurveyKeepsUnique(es: seq<Network>, target: Bss, now: Tick, c: Connection)
    requires Unique(es)
    ensures Unique(Survey(es, target, now, c))
  {
    var k := FindSame(es, Id(target));
    if k < |es| {
      RefreshedKeepsIdentity(es[k], target, now, c);
    }
  }

  /** Marking a network changes the map there and nowhere else. */
  lemma PinIsMapUpdate(es: seq<Network>, mac: Mac, isFixed: bool)
    requires Unique(es)
    ensures Unique(Pinned(es, mac, isFixed))
    ensures var k := FindMac(es, mac);
            AsMap(Pinned(es, mac, isFixed)) ==
            if k < |es| then AsMap(es)[Id(es[k].bss) := es[k].(isFixed := isFixed)] else AsMap(es)
  {
    hide AsMap, FindMac;
    var k := FindMac(es, mac);
    if k < |es| {
      MapSet(es, k, es[k].(isFixed := isFixed));
    }
  }

  /** Of entries less than half the clock range old, the one evicted is of the greatest age. */
  lemma {:induction false} OldestIsOldest(es: seq<Network>, n: nat, now: Tick)
    requires 0 < n <= |es|
    requires forall k :: 0 <= k < n ==> Age(es[k].lastScanned, now) < ULONG / 2
    ensures forall k :: 0 <= k < n ==> Age(es[k].lastScanned, now) <= Age(es[Oldest(es, n)].lastScanned, now)
  {
    if n > 1 {
      OldestIsOldest(es, n - 1, now);
      LaterIsYounger(es[Oldest(es, n - 1)].lastScanned, es[n - 1].lastScanned, now);
    }
  }

  lemma MapCount(es: seq<Network>)
    ensures |AsMap(es)| == |Ids(es)|
  {
    assert AsMap(es).Keys == Ids(es);
  }

  lemma NotInMap(es: seq<Network>, id: Identity)
    requires FindSame(es, id) == |es|
    ensures id !in AsMap(es)
  {
  }

  lemma EvictedIsOldest(es: seq<Network>, now: Tick)
    requires Unique(es) && es != []
    ensures var m, v := AsMap(es), es[Oldest(es, |es|)];
            (forall i <- m :: Age(m[i].lastScanned, now) < ULONG / 2) ==>
              forall i <- m :: Age(m[i].lastScanned, now) <= Age(v.lastScanned, now)
  {
    hide AsMap, FindSame, Oldest, Age;
    MapOf(es);
    var m := AsMap(es);
    if forall i <- m :: Age(m[i].lastScanned, now) < ULONG / 2 {
      OldestIsOldest(es, |es|, now);
      forall i | i in m ensures Age(m[i].lastScanned, now) <= Age(es[Oldest(es, |es|)].lastScanned, now) {
        var k := FindSame(es, i);
        assert Id(es[k].bss) == i && m[i] == es[k];
      }
    }
  }

  /**
   A survey result updates the map at its own network. Only when the network is new and all the slots are in use does
   another one go, and that is an entry of greatest age, as long as every entry is less than half the clock range old.
   */
  lemma SurveyIsMapUpdate(es: seq<Network>, target: Bss, now: Tick, c: Connection)
    requires Unique(es) && |es| <= MAX_BSS_CNT
    ensures var m, m', id := AsMap(es), AsMap(Survey(es, target, now, c)), Id(target);
            && |m| == |es| && id in m' && m'[id].lastScanned == now
            && (id in m ==> m' == m[id := Refreshed(m[id], target, now, c)])
            && (id !in m && |m| < MAX_BSS_CNT ==> m' == m[id := Fresh(target, now)])
            && (id !in m && |m| == MAX_BSS_CNT ==>
                  var victim := es[Oldest(es, |es|)];
                  && m' == (m - {Id(victim.bss)})[id := Fresh(target, now)]
                  && ((forall i <- m :: Age(m[i].lastScanned, now) < ULONG / 2) ==>
                        forall i <- m :: Age(m[i].lastScanned, now) <= Age(victim.lastScanned, now)))
  {
    hide FindSame, Oldest, Refreshed, Fresh, AsMap;
    var id, k := Id(target), FindSame(es, Id(target));
    UniqueCounts(es);
    MapCount(es);
    MapOf(es);
    FreshIsNew(target, now);
    if k < |es| {
      RefreshedKeepsIdentity(es[k], target, now, c);
      MapSet(es, k, Refreshed(es[k], target, now, c));
    } else {
      NotInMap(es, id);
      if |es| < MAX_BSS_CNT {
        MapAppend(es, Fresh(target, now));
      } else {
        MapReplace(es, Oldest(es, |es|), Fresh(target, now));
        EvictedIsOldest(es, now);
      }
    }
  }

  lemma {:induction false} OldestIsFirst(es: seq<Network>, n: nat, now: Tick)
    requires 0 < n <= |es|
    requires forall j :: 0 <= j < n ==> Age(es[j].lastScanned, now) < ULONG / 2
    ensures forall j :: 0 <= j < Oldest(es, n) ==> Age(es[j].lastScanned, now) < Age(es[Oldest(es, n)].lastScanned, now)
  {
    hide Age, TimeAfter;
    if n > 1 {
      OldestIsFirst(es, n - 1, now);
      OldestIsOldest(es, n - 1, now);
      LaterIsYounger(es[Oldest(es, n - 1)].lastScanned, es[n - 1].lastScanned, now);
    }
  }

  /**
   The loop's choice, exactly, for entries less than half the clock range old: the first of greatest age, so everything
   before it is younger and nothing behind it is older.
   */
  lemma OldestIs(es: seq<Network>, n: nat, k: nat, now: Tick)
    requires k < n <= |es|
    requires forall j :: 0 <= j < n ==> Age(es[j].lastScanned, now) < ULONG / 2
    ensures Oldest(es, n) == k <==>
              && (forall j :: 0 <= j < k ==> Age(es[j].lastScanned, now) < Age(es[k].lastScanned, now))
              && (forall j :: k < j < n ==> Age(es[j].lastScanned, now) <= Age(es[k].lastScanned, now))
  {
    hide Age, Oldest;
    OldestIsOldest(es, n, now);
    OldestIsFirst(es, n, now);
    var o := Oldest(es, n);
    if k < o {
      assert Age(es[k].lastScanned, now) < Age(es[o].lastScanned, now);
    } else if k > o {
      assert Age(es[k].lastScanned, now) <= Age(es[o].lastScanned, now);
    }
  }

  lemma SameIndex(es: seq<Network>, j: nat, k: nat)
    requires Unique(es) && j < |es| && k < |es|
    ensures Id(es[j].bss) == Id(es[k].bss) <==> j == k
  {
  }

  /**
   When a network loses its entry to a survey result: exactly when all slots are in use, the result is of a network that
   has none, and the loop chose this one. That it is marked fixed, which a sweep would respect, is no part of it.
   */
  lemma EvictedIff(es: seq<Network>, k: nat, target: Bss, now: Tick, c: Connection)
    requires Unique(es) && k < |es| <= MAX_BSS_CNT
    ensures Id(es[k].bss) !in AsMap(Survey(es, target, now, c)) <==>
              |es| == MAX_BSS_CNT && FindSame(es, Id(target)) == |es| && k == Oldest(es, |es|)
  {
    hide FindSame, Oldest, Refreshed, Fresh, AsMap, Id, Age, Survey, Unique;
    var m, id, own := AsMap(es), Id(target), Id(es[k].bss);
    SurveyIsMapUpdate(es, target, now, c);
    AsMapLooksUp(es, k);
    UniqueCounts(es);
    MapCount(es);
    if FindSame(es, id) == |es| {
      NotInMap(es, id);
      if |es| == MAX_BSS_CNT {
        SameIndex(es, k, Oldest(es, |es|));
      }
    } else {
      AsMapLooksUp(es, FindSame(es, id));
    }
  }

  function NetworkAt(mac: Mac): (b: Bss)
    ensures b.mac == mac
  {
    RawBss.Bss(mac, [], true, 0, 50, 50, seq(12, _ => 0))
  }

  /** A full cache in which everything but the first network, which is marked fixed, was seen later. */
  function FullCache(n: nat): (es: seq<Network>)
    requires n <= MAX_BSS_CNT
    ensures |es| == n
    ensures forall k :: 0 <= k < n ==>
              es[k].bss.mac == [0, 0, 0, 0, 0, k] && es[k].lastScanned == k && es[k].isFixed == (k == 0)
  {
    seq(n, k requires 0 <= k < n => Network(NetworkAt([0, 0, 0, 0, 0, k]), k, k == 0, 0, 0, 0))
  }

  /** A fixed network does go: the next network seen takes its slot. */
  lemma FixedIsEvicted(target: Bss, c: Connection)
    requires target.mac == [0, 0, 0, 0, 1, 0]
    ensures var es := FullCache(MAX_BSS_CNT);
            && Unique(es) && es[0].isFixed && Id(es[0].bss) in AsMap(es)
            && Id(es[0].bss) !in AsMap(Survey(es, target, MAX_BSS_CNT, c))
  {
    hide FullCache, AsMap, Oldest, Survey, FindSame;
    var es := FullCache(MAX_BSS_CNT);
    forall j, k | 0 <= j < k < |es| ensures Id(es[j].bss) != Id(es[k].bss) {
      assert es[j].bss.mac[5] != es[k].bss.mac[5];
    }
    MapOf(es);
    forall k | 0 <= k < |es|
      ensures Id(es[k].bss) != Id(target) && Age(es[k].lastScanned, MAX_BSS_CNT) == MAX_BSS_CNT - k
    {
      assert es[k].bss.mac[4] != target.mac[4];
    }
    OldestIs(es, |es|, 0, MAX_BSS_CNT);
    EvictedIff(es, 0, target, MAX_BSS_CNT, c);
  }
}
