/** What the NAT2.5 table of `rtw_br_ext.c` stands for: a map from network address to client MAC that ages. */
module Nat25Model {
  import opened Bytes
  import opened Clock

  const MAX_NETWORK_ADDR_LEN := 17
  const NAT25_HASH_SIZE := 16
  const NAT25_AGEING_TIME := 300

  type NetAddr = s: seq<byte> | |s| == MAX_NETWORK_ADDR_LEN witness seq(17, _ => 0)

  const NAT25_IPV4: byte := 1
  const NAT25_IPV6: byte := 2
  const NAT25_IPX: byte := 3
  const NAT25_APPLE: byte := 4
  const NAT25_PPPOE: byte := 5

  /** One entry's payload; the links are the table's business. */
  datatype Rec = Rec(mac: Mac, ageing: Tick, useCount: int)

  type View = map<NetAddr, Rec>

  // ----- network addresses and their hash

  function Ipv4Addr(ip: seq<byte>): NetAddr
    requires |ip| == 4
  {
    [NAT25_IPV4] + Zeros(6) + ip + Zeros(6)
  }

  function IpxNodeAddr(net: seq<byte>, node: seq<byte>): NetAddr
    requires |net| == 4 && |node| == 6
  {
    [NAT25_IPX] + net + node + Zeros(6)
  }

  function IpxSocketAddr(net: seq<byte>, socket: seq<byte>): NetAddr
    requires |net| == 4 && |socket| == 2
  {
    [NAT25_IPX] + net + socket + Zeros(10)
  }

  function AppleAddr(network: seq<byte>, node: byte): NetAddr
    requires |network| == 2
  {
    [NAT25_APPLE] + network + [node] + Zeros(13)
  }

  function PppoeAddr(acMac: Mac, sid: seq<byte>): NetAddr
    requires |sid| == 2
  {
    [NAT25_PPPOE] + sid + acMac + Zeros(8)
  }

  /** The exclusive or of a[lo..hi]. */
  function XorRange(a: seq<byte>, lo: nat, hi: nat): bv8
    requires lo <= hi <= |a|
    decreases hi - lo
  {
    if lo == hi then 0 else (a[lo] as bv8) ^ XorRange(a, lo + 1, hi)
  }

  /** Which bytes the hash of each address family covers. */
  function HashRange(family: byte): (r: (nat, nat))
    ensures r.0 <= r.1 <= MAX_NETWORK_ADDR_LEN
  {
    if family == NAT25_IPV4 then (7, 11)
    else if family == NAT25_IPX then (1, 11)
    else if family == NAT25_APPLE then (1, 4)
    else if family == NAT25_PPPOE then (0, 9)
    else if family == NAT25_IPV6 then (1, 17)
    else (0, 17)
  }

  type Bucket = b: nat | b < NAT25_HASH_SIZE

  /** `__nat25_network_hash` */
  function NetworkHash(a: NetAddr): Bucket {
    var r := HashRange(a[0]);
    var x := XorRange(a, r.0, r.1) & 0xF;
    assert x < 16;
    x as nat
  }

  // ----- ageing

  /** `__nat25_timeout`: the clock, moved back by the ageing time, wrapping. */
  function Timeout(now: Tick, hz: nat): Tick {
    (now - NAT25_AGEING_TIME * hz) % ULONG
  }

  predicate HasExpired(ageing: Tick, now: Tick, hz: nat) {
    TimeBeforeEq(ageing, Timeout(now, hz))
  }

  // ----- the table as a map, and what each operation does to it

  /** The map with the single-entry cache of the transmit path: `scdb` is the key `scdb_entry` points at. */
  datatype Db = Db(view: View, scdb: Option<NetAddr>, scdbMac: Mac, scdbIp: seq<byte>)

  ghost predicate DbOk(d: Db) {
    && (forall a <- d.view :: d.view[a].useCount >= 1)
    && (d.scdb.Some? ==> d.scdb.value in d.view)
  }

  /** A present key keeps its use count; an absent one starts at 1, if memory can be had. */
  function Insert(v: View, a: NetAddr, mac: Mac, now: Tick, allocOk: bool): View {
    if a in v then v[a := v[a].(mac := mac, ageing := now)]
    else if allocOk then v[a := Rec(mac, now, 1)]
    else v
  }

  function Lookup(v: View, a: NetAddr, now: Tick, hz: nat): View {
    if a in v && !HasExpired(v[a].ageing, now, hz) then v[a := v[a].(useCount := v[a].useCount + 1)] else v
  }

  /** What one expire pass leaves of an entry. */
  function ExpireRec(r: Rec, now: Tick, hz: nat): Option<Rec> {
    if !HasExpired(r.ageing, now, hz) then Some(r)
    else if r.useCount - 1 == 0 then None
    else Some(r.(useCount := r.useCount - 1))
  }

  /** One expire pass over the keys in `done`; the others are not visited yet. */
  function ExpireSome(v: View, done: set<NetAddr>, now: Tick, hz: nat): View {
    map a | a in v && (a in done ==> ExpireRec(v[a], now, hz).Some?) ::
      if a in done then ExpireRec(v[a], now, hz).value else v[a]
  }

  function Expire(v: View, now: Tick, hz: nat): View {
    ExpireSome(v, v.Keys, now, hz)
  }

  function Touch(v: View, a: NetAddr, now: Tick): View
    requires a in v
  {
    v[a := v[a].(ageing := now)]
  }

  /** Freeing an entry clears the cache that points at it. */
  function DropScdb(d: Db, v: View): Db {
    if d.scdb.Some? && d.scdb.value !in v then Db(v, None, Zeros(6), Zeros(4)) else d.(view := v)
  }

  /**
   The transmit path's part: a frame from the MAC address it has cached refreshes the cached entry; another MAC address
   whose source IP address is on record takes the cache over; only the rest reach the table's insert.
   */
  function TxIpv4(d: Db, mac: Mac, ip: seq<byte>, now: Tick, allocOk: bool): Db
    requires |ip| == 4 && DbOk(d)
  {
    var a := Ipv4Addr(ip);
    var learnt := if ip == Zeros(4) then d.view else Insert(d.view, a, mac, now, allocOk);
    if d.scdbMac != mac then
      if a in d.view then Db(Touch(d.view, a, now), Some(a), mac, ip)
      else Db(learnt, None, d.scdbMac, d.scdbIp)
    else if d.scdb.Some? then d.(view := Touch(d.view, d.scdb.value, now))
    else Db(learnt, None, Zeros(6), Zeros(4))
  }

  /** Visiting one more key. */
  lemma ExpireOne(v: View, done: set<NetAddr>, a: NetAddr, now: Tick, hz: nat)
    requires a in v && a !in done
    ensures a in ExpireSome(v, done, now, hz) && ExpireSome(v, done, now, hz)[a] == v[a]
    ensures ExpireSome(v, done + {a}, now, hz)
         == match ExpireRec(v[a], now, hz)
            case None => ExpireSome(v, done, now, hz) - {a}
            case Some(r) => ExpireSome(v, done, now, hz)[a := r]
  {
  }

  /** Visiting one more key, with the transmit path's cache. */
  lemma ExpireOneDb(d0: Db, done: set<NetAddr>, a: NetAddr, now: Tick, hz: nat)
    requires a in d0.view && a !in done
    ensures var d := DropScdb(d0, ExpireSome(d0.view, done, now, hz));
            && a in d.view && d.view[a] == d0.view[a]
            && DropScdb(d0, ExpireSome(d0.view, done + {a}, now, hz))
            == match ExpireRec(d.view[a], now, hz)
               case None => DropScdb(d, d.view - {a})
               case Some(r) => d.(view := d.view[a := r])
  {
    ExpireOne(d0.view, done, a, now, hz);
  }

  lemma ExpireNone(d0: Db, now: Tick, hz: nat)
    requires DbOk(d0)
    ensures DropScdb(d0, ExpireSome(d0.view, {}, now, hz)) == d0
  {
    assert ExpireSome(d0.view, {}, now, hz) == d0.view;
  }

  lemma ExpireKeys(d0: Db, done: set<NetAddr>, now: Tick, hz: nat)
    ensures var d := DropScdb(d0, ExpireSome(d0.view, done, now, hz));
            d.view.Keys <= d0.view.Keys && d0.view.Keys - done <= d.view.Keys
  {
  }

  lemma DropNothing(d: Db)
    requires DbOk(d)
    ensures d == DropScdb(d, d.view)
  {
  }

  /** Dropping entries one at a time clears the cache just as dropping them at once. */
  lemma DropDrop(d0: Db, d: Db, keys: set<NetAddr>)
    requires d == DropScdb(d0, d.view)
    ensures var d' := DropScdb(d, d.view - keys); d' == DropScdb(d0, d'.view)
  {
  }
}
