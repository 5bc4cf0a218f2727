/** What holds over whole runs of the NAT2.5 table: ageing, draining, and who an address is delivered to. */
module Nat25Runs {
  import opened Bytes
  import opened Clock
  import opened M = Nat25Model

  // ----- the wrapping clock

  lemma WrapShift(x: int, q: int)
    ensures (x + q * ULONG) % ULONG == x % ULONG
  {
  }

  /** `__nat25_has_expired` sees the true age less the ageing time, modulo the clock range. */
  lemma ExpiredByAge(t0: nat, t: nat, hz: nat)
    ensures HasExpired(t0 % ULONG, t % ULONG, hz) <==> (t - t0 - NAT25_AGEING_TIME * hz) % ULONG < ULONG / 2
  {
    var now, ageing := t % ULONG, t0 % ULONG;
    var x := now - NAT25_AGEING_TIME * hz;
    var q, p, r := t / ULONG, t0 / ULONG, x / ULONG;
    assert Timeout(now, hz) - ageing == t - t0 - NAT25_AGEING_TIME * hz + (p - q - r) * ULONG;
    WrapShift(t - t0 - NAT25_AGEING_TIME * hz, p - q - r);
  }

  /**
   So it is right for every age up to half the clock range past the deadline, and only that far: half a range past it,
   a dead entry counts as alive again.
   */
  lemma ExpiryWindow(t0: nat, t: nat, hz: nat)
    requires t0 <= t && NAT25_AGEING_TIME * hz <= ULONG / 2
    requires t - t0 < NAT25_AGEING_TIME * hz + ULONG
    ensures (HasExpired(t0 % ULONG, t % ULONG, hz) <==> t - t0 >= NAT25_AGEING_TIME * hz)
       <==> t - t0 < NAT25_AGEING_TIME * hz + ULONG / 2
  {
    ExpiredByAge(t0, t, hz);
    var x := t - t0 - NAT25_AGEING_TIME * hz;
    if x < 0 {
      WrapShift(x, 1);
    }
  }

  // ----- runs

  datatype Op =
    | OpInsert(a: NetAddr, mac: Mac, allocOk: bool)
    | OpLookup(a: NetAddr)
    | OpExpire
    | OpTx(mac: Mac, ip: seq<byte>, allocOk: bool)
    | OpCleanup

  /** An operation and the absolute time at which it happens. */
  datatype Event = Event(op: Op, time: nat)

  ghost predicate WellFormed(e: Event) {
    e.op.OpTx? ==> |e.op.ip| == 4
  }

  /** One operation of the table; each method of the table class is proved to do exactly this. */
  function Step(d: Db, e: Event, hz: nat): Db
    requires DbOk(d) && WellFormed(e)
  {
    var now := e.time % ULONG;
    match e.op
    case OpInsert(a, mac, allocOk) => d.(view := Insert(d.view, a, mac, now, allocOk))
    case OpLookup(a) => d.(view := Lookup(d.view, a, now, hz))
    case OpExpire => DropScdb(d, Expire(d.view, now, hz))
    case OpTx(mac, ip, allocOk) => TxIpv4(d, mac, ip, now, allocOk)
    case OpCleanup => DropScdb(d, map[])
  }

  /** No operation stores a use count below 1 or leaves the cache pointing at a freed entry. */
  lemma StepKeepsOk(d: Db, e: Event, hz: nat)
    requires DbOk(d) && WellFormed(e)
    ensures DbOk(Step(d, e, hz))
  {
    var now := e.time % ULONG;
    if e.op.OpExpire? {
      var v := Expire(d.view, now, hz);
      forall a | a in v ensures v[a].useCount >= 1 {
        assert v[a] == ExpireRec(d.view[a], now, hz).value;
      }
    }
  }

  function Run(d: Db, run: seq<Event>, hz: nat): (r: Db)
    requires DbOk(d) && forall e <- run :: WellFormed(e)
    ensures DbOk(r)
    decreases |run|
  {
    if run == [] then d
    else
      StepKeepsOk(d, run[0], hz);
      Run(Step(d, run[0], hz), run[1..], hz)
  }

  /** The event does not refresh a's entry, nor wipe the table. */
  ghost predicate Leaves(d: Db, e: Event, a: NetAddr)
    requires WellFormed(e)
  {
    match e.op
    case OpInsert(b, _, _) => b != a
    case OpTx(mac, ip, _) => Ipv4Addr(ip) != a && d.scdb != Some(a)
    case OpCleanup => false
    case _ => true
  }

  ghost predicate RunLeaves(d: Db, run: seq<Event>, a: NetAddr, hz: nat)
    requires DbOk(d) && forall e <- run :: WellFormed(e)
    decreases |run|
  {
    run == [] ||
    (StepKeepsOk(d, run[0], hz);
     Leaves(d, run[0], a) && RunLeaves(Step(d, run[0], hz), run[1..], a, hz))
  }

  function Expires(run: seq<Event>): nat {
    if run == [] then 0 else (if run[0].op.OpExpire? then 1 else 0) + Expires(run[1..])
  }

  function Lookups(run: seq<Event>, a: NetAddr): nat {
    if run == [] then 0 else (if run[0].op == OpLookup(a) then 1 else 0) + Lookups(run[1..], a)
  }

  /** The times at which an entry last refreshed at t0 is certainly alive, and certainly dead. */
  ghost predicate During(run: seq<Event>, from: nat, to: nat) {
    forall e <- run :: from <= e.time < to
  }

  /** What one operation does to an entry that it does not refresh: fresh, the entry counts lookups. */
  lemma StepOnFresh(d: Db, e: Event, a: NetAddr, hz: nat)
    requires DbOk(d) && WellFormed(e) && Leaves(d, e, a) && a in d.view
    requires !HasExpired(d.view[a].ageing, e.time % ULONG, hz)
    ensures var d' := Step(d, e, hz);
            && a in d'.view
            && d'.view[a] == d.view[a].(useCount := d.view[a].useCount + if e.op == OpLookup(a) then 1 else 0)
  {
    hide HasExpired;
  }

  /** Dead, it loses one use with every expire pass, and goes with the last; nothing brings it back. */
  lemma StepOnDead(d: Db, e: Event, a: NetAddr, hz: nat)
    requires DbOk(d) && WellFormed(e) && Leaves(d, e, a)
    requires a in d.view ==> HasExpired(d.view[a].ageing, e.time % ULONG, hz)
    ensures var d', n := Step(d, e, hz), if e.op.OpExpire? then 1 else 0;
            && (a in d'.view <==> a in d.view && n < d.view[a].useCount)
            && (a in d'.view ==> d'.view[a] == d.view[a].(useCount := d.view[a].useCount - n))
  {
    hide HasExpired;
  }

  /** While it is fresh, an entry is never freed, keeps its MAC address, and counts its lookups. */
  lemma {:induction false} FreshEntryStays(d: Db, run: seq<Event>, a: NetAddr, t0: nat, hz: nat)
    requires DbOk(d) && (forall e <- run :: WellFormed(e)) && RunLeaves(d, run, a, hz)
    requires NAT25_AGEING_TIME * hz <= ULONG / 2
    requires a in d.view && d.view[a].ageing == t0 % ULONG
    requires During(run, t0, t0 + NAT25_AGEING_TIME * hz)
    ensures var d' := Run(d, run, hz);
            a in d'.view && d'.view[a] == d.view[a].(useCount := d.view[a].useCount + Lookups(run, a))
    decreases |run|
  {
    hide Step, Leaves, HasExpired;
    if run != [] {
      var e := run[0];
      StepKeepsOk(d, e, hz);
      assert e in run;
      ExpiryWindow(t0, e.time, hz);
      StepOnFresh(d, e, a, hz);
      FreshEntryStays(Step(d, e, hz), run[1..], a, t0, hz);
    }
  }

  /** Once dead and not refreshed, it survives exactly `useCount - 1` expire passes and no lookup can prolong that. */
  lemma {:induction false} DeadEntryDrains(d: Db, run: seq<Event>, a: NetAddr, t0: nat, hz: nat)
    requires DbOk(d) && (forall e <- run :: WellFormed(e)) && RunLeaves(d, run, a, hz)
    requires NAT25_AGEING_TIME * hz <= ULONG / 2
    requires a in d.view ==> d.view[a].ageing == t0 % ULONG
    requires During(run, t0 + NAT25_AGEING_TIME * hz, t0 + NAT25_AGEING_TIME * hz + ULONG / 2)
    ensures var d' := Run(d, run, hz);
            a in d'.view <==> a in d.view && Expires(run) < d.view[a].useCount
    ensures var d' := Run(d, run, hz);
            a in d'.view ==> d'.view[a] == d.view[a].(useCount := d.view[a].useCount - Expires(run))
    decreases |run|
  {
    hide Step, Leaves, HasExpired;
    if run != [] {
      var e := run[0];
      StepKeepsOk(d, e, hz);
      assert e in run;
      ExpiryWindow(t0, e.time, hz);
      StepOnDead(d, e, a, hz);
      DeadEntryDrains(Step(d, e, hz), run[1..], a, t0, hz);
    }
  }

  /** The record that an insert leaves under its key: the sender, the time, and one use unless there was a record. */
  lemma InsertStamps(d: Db, a: NetAddr, mac: Mac, allocOk: bool, t: nat, hz: nat)
    requires DbOk(d)
    ensures var d' := Step(d, Event(OpInsert(a, mac, allocOk), t), hz);
            && (a in d.view ==> a in d'.view && d'.view[a] == Rec(mac, t % ULONG, d.view[a].useCount))
            && (a !in d.view && allocOk ==> a in d'.view && d'.view[a] == Rec(mac, t % ULONG, 1))
            && (a !in d.view && !allocOk ==> a !in d'.view)
            && d'.view - {a} == d.view - {a}
            && d'.scdb == d.scdb && d'.scdbMac == d.scdbMac && d'.scdbIp == d.scdbIp
  {
  }

  /**
   From an insert to the end: the entry outlives as many passes as it had uses by then, or one if it is new, plus the
   lookups while it is fresh; and as long as it is there the address belongs to the client that was inserted.
   */
  lemma EntryLifetime(d: Db, mac: Mac, allocOk: bool, fresh': seq<Event>, dead: seq<Event>, a: NetAddr, t0: nat,
          hz: nat)
    requires DbOk(d) && (a in d.view || allocOk)
    requires (forall e <- fresh' :: WellFormed(e)) && (forall e <- dead :: WellFormed(e))
    requires var d0 := Step(d, Event(OpInsert(a, mac, allocOk), t0), hz);
             DbOk(d0) && RunLeaves(d0, fresh', a, hz) && RunLeaves(Run(d0, fresh', hz), dead, a, hz)
    requires NAT25_AGEING_TIME * hz <= ULONG / 2
    requires During(fresh', t0, t0 + NAT25_AGEING_TIME * hz)
    requires During(dead, t0 + NAT25_AGEING_TIME * hz, t0 + NAT25_AGEING_TIME * hz + ULONG / 2)
    ensures var d0 := Step(d, Event(OpInsert(a, mac, allocOk), t0), hz);
            var uses := (if a in d.view then d.view[a].useCount else 1) + Lookups(fresh', a);
            var d1, d2 := Run(d0, fresh', hz), Run(Run(d0, fresh', hz), dead, hz);
            && a in d1.view && d1.view[a] == Rec(mac, t0 % ULONG, uses)
            && (a in d2.view <==> Expires(dead) < uses)
            && (a in d2.view ==> d2.view[a] == Rec(mac, t0 % ULONG, uses - Expires(dead)))
  {
    hide Step, RunLeaves, Run;
    InsertStamps(d, a, mac, allocOk, t0, hz);
    var d0 := Step(d, Event(OpInsert(a, mac, allocOk), t0), hz);
    FreshEntryStays(d0, fresh', a, t0, hz);
    DeadEntryDrains(Run(d0, fresh', hz), dead, a, t0, hz);
  }

  /** Whether the transmit path skips the table's insert. */
  predicate Shortcut(d: Db, mac: Mac, a: NetAddr) {
    if d.scdbMac == mac then d.scdb.Some? else a in d.view
  }

  /** Which entry a frame on the transmit path refreshes: the cached one, if its sender is cached, else its source's. */
  function Refreshed(d: Db, mac: Mac, ip: seq<byte>): Option<NetAddr>
    requires |ip| == 4
  {
    if d.scdbMac == mac && d.scdb.Some? then d.scdb
    else if d.scdbMac == mac && ip == Zeros(4) then None
    else if Ipv4Addr(ip) in d.view || ip != Zeros(4) then Some(Ipv4Addr(ip))
    else None
  }

  /**
   What a frame does to the entries: the one it refreshes gets its time, with the uses it had, and the frame's sender
   only where the shortcut is not taken; every other entry stays as it is.
   */
  lemma TxStamps(d: Db, mac: Mac, ip: seq<byte>, allocOk: bool, t: nat, hz: nat, b: NetAddr)
    requires DbOk(d) && |ip| == 4
    ensures var d' := Step(d, Event(OpTx(mac, ip, allocOk), t), hz);
            && (b in d.view ==>
                  && b in d'.view && d'.view[b].useCount == d.view[b].useCount
                  && d'.view[b].ageing == (if Refreshed(d, mac, ip) == Some(b) then t % ULONG else d.view[b].ageing)
                  && d'.view[b].mac ==
                     (if b == Ipv4Addr(ip) && ip != Zeros(4) && !Shortcut(d, mac, b) then mac else d.view[b].mac))
            && (b !in d.view ==>
                  && (b in d'.view <==> Refreshed(d, mac, ip) == Some(b) && allocOk)
                  && (b in d'.view ==> d'.view[b] == Rec(mac, t % ULONG, 1)))
  {
  }

  /** What a frame does to the cache: a sender found by its address takes it over, a cached sender keeps it. */
  lemma TxCaches(d: Db, mac: Mac, ip: seq<byte>, allocOk: bool, t: nat, hz: nat)
    requires DbOk(d) && |ip| == 4
    ensures var d' := Step(d, Event(OpTx(mac, ip, allocOk), t), hz);
            if d.scdbMac == mac && d.scdb.Some? then d'.(view := d.view) == d
            else if d.scdbMac == mac then d'.scdb == None && d'.scdbMac == Zeros(6) && d'.scdbIp == Zeros(4)
            else if Ipv4Addr(ip) in d.view then d'.scdb == Some(Ipv4Addr(ip)) && d'.scdbMac == mac && d'.scdbIp == ip
            else d'.scdb == None && d'.scdbMac == d.scdbMac && d'.scdbIp == d.scdbIp
  {
  }

  /** An expire pass and a cleanup clear the cache exactly when its entry goes. */
  lemma CacheGoesWithEntry(d: Db, e: Event, hz: nat)
    requires DbOk(d) && (e.op.OpExpire? || e.op.OpCleanup?)
    ensures var d' := Step(d, e, hz);
            && (e.op.OpCleanup? ==> d'.view == map[])
            && if d.scdb.Some? && d.scdb.value !in d'.view
               then d'.scdb == None && d'.scdbMac == Zeros(6) && d'.scdbIp == Zeros(4)
               else d'.scdb == d.scdb && d'.scdbMac == d.scdbMac && d'.scdbIp == d.scdbIp
  {
  }

  // ----- who an address is delivered to

  /**
   After an IPv4 frame from `mac`, its source address is delivered to `mac` exactly when the shortcut was not taken and
   there was an entry or memory for one, or the address already belonged to `mac`. `scdb_findEntry` compares no MAC
   address, so a client that takes over the IP address of another never becomes its owner while the old entry lives.
   */
  lemma TxLearnsSender(d: Db, mac: Mac, ip: seq<byte>, now: Tick, allocOk: bool)
    requires DbOk(d) && |ip| == 4 && ip != Zeros(4)
    ensures var a := Ipv4Addr(ip);
            var v := TxIpv4(d, mac, ip, now, allocOk).view;
            (a in v && v[a].mac == mac) <==>
              || (!Shortcut(d, mac, a) && (a in d.view || allocOk))
              || (a in d.view && d.view[a].mac == mac)
  {
  }

  /** A run in which it goes wrong: the second client's frames leave the first one's MAC address on record. */
  lemma TakeoverIsNotLearnt(ip: seq<byte>, first: Mac, second: Mac, hz: nat)
    requires |ip| == 4 && ip != Zeros(4) && first != second && first != Zeros(6) && second != Zeros(6)
    ensures var frame := OpTx(second, ip, true);
            var run := [Event(OpTx(first, ip, true), 0), Event(frame, 1), Event(frame, 2)];
            var d := Run(Db(map[], None, Zeros(6), Zeros(4)), run, hz);
            Ipv4Addr(ip) in d.view && d.view[Ipv4Addr(ip)].mac == first && d.scdbMac == second
  {
    var a := Ipv4Addr(ip);
    var frame := OpTx(second, ip, true);
    var e0, e1, e2 := Event(OpTx(first, ip, true), 0), Event(frame, 1), Event(frame, 2);
    var d0 := Db(map[], None, Zeros(6), Zeros(4));
    var d1 := Step(d0, e0, hz);
    assert d1 == Db(map[a := Rec(first, 0, 1)], None, Zeros(6), Zeros(4));
    var d2 := Step(d1, e1, hz);
    assert d2 == Db(map[a := Rec(first, 1, 1)], Some(a), second, ip);
    assert [e0, e1, e2][1..] == [e1, e2] && [e1, e2][1..] == [e2] && [e2][1..] == [];
    assert Run(d2, [e2], hz) == Run(Step(d2, e2, hz), [], hz);
    assert Run(d1, [e1, e2], hz) == Run(d2, [e2], hz);
  }
}
