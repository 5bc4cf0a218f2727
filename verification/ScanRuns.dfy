/** Whole runs of survey results, sweeps and clearings through the scan cache. */
module ScanRuns {
  import opened Bytes
  import opened Clock
  import opened ScanCache
  import opened ScanModel

  type Hz = n: nat | n > 0 witness 1

  /**
   What happens to the cache, at times counted without wrapping: a survey result with the connection at that moment, a
   sweep, the clearing of the whole queue, and a network marked fixed or no longer.
   */
  datatype Event =
    | Seen(at: nat, target: Bss, c: Connection)
    | Sweep(at: nat, freeAll: bool, hz: Hz, adhoc: bool)
    | Clear(at: nat)
    | Pin(at: nat, mac: Mac, isFixed: bool)

  function Step(es: seq<Network>, e: Event): seq<Network> {
    match e
    case Seen(at, target, c) => Survey(es, target, at % ULONG, c)
    case Sweep(at, freeAll, hz, adhoc) => Swept(es, freeAll, at % ULONG, hz, adhoc)
    case Clear(_) => []
    case Pin(_, mac, isFixed) => Pinned(es, mac, isFixed)
  }

  function After(log: seq<Event>): (es: seq<Network>) {
    if log == [] then [] else Step(After(log[..|log| - 1]), log[|log| - 1])
  }

  predicate Sees(e: Event, id: Identity) {
    e.Seen? && Id(e.target) == id
  }

  /** The time an identity was last seen. */
  function Last(log: seq<Event>, id: Identity): Option<nat> {
    if log == [] then None
    else if Sees(log[|log| - 1], id) then Some(log[|log| - 1].at)
    else Last(log[..|log| - 1], id)
  }

  /** The identities seen at a time or later. */
  ghost function Since(log: seq<Event>, t: nat): set<Identity> {
    set k | 0 <= k < |log| && log[k].Seen? && log[k].at >= t :: Id(log[k].target)
  }

  /** Time does not run backwards, and the whole run takes less than half the clock's range. */
  ghost predicate Timely(log: seq<Event>) {
    forall j, k :: 0 <= j <= k < |log| ==> log[j].at <= log[k].at < log[j].at + ULONG / 2
  }

  lemma StepIsBounded(es: seq<Network>, e: Event)
    requires Unique(es) && |es| <= MAX_BSS_CNT
    ensures Unique(Step(es, e)) && |Step(es, e)| <= MAX_BSS_CNT
  {
    match e
    case Seen(at, target, c) => SurveyKeepsUnique(es, target, at % ULONG, c);
    case Sweep(at, freeAll, hz, adhoc) =>
      SweptKeepsUnique(es, freeAll, at % ULONG, hz, adhoc);
      SweptIsShorter(es, freeAll, at % ULONG, hz, adhoc);
    case Clear(_) =>
    case Pin(_, mac, isFixed) => PinIsMapUpdate(es, mac, isFixed);
  }

  /** One entry per network and never more than the slots, after any run whatever the clock does. */
  lemma {:induction false} AfterIsBounded(log: seq<Event>)
    ensures Unique(After(log)) && |After(log)| <= MAX_BSS_CNT
  {
    hide Step;
    if log != [] {
      AfterIsBounded(log[..|log| - 1]);
      StepIsBounded(After(log[..|log| - 1]), log[|log| - 1]);
    }
  }

  ghost predicate Unmarked(es: seq<Network>) {
    forall k :: 0 <= k < |es| ==> es[k].bss.quality <= 100
  }

  lemma SeenStep(es: seq<Network>, e: Event)
    requires e.Seen?
    ensures Step(es, e) == Survey(es, e.target, e.at % ULONG, e.c)
  {
  }

  lemma OthersKeepUnmarked(es: seq<Network>, e: Event)
    requires Unmarked(es) && !e.Seen?
    ensures Unmarked(Step(es, e))
  {
    hide Swept, FindMac;
    var r := Step(es, e);
    if e.Sweep? {
      forall k | 0 <= k < |r| ensures r[k].bss.quality <= 100 {
        assert r[k] in r;
      }
    }
  }

  predicate Connected(c: Connection, target: Bss) {
    c.linked && IsSameNetwork(c.current, target)
  }

  lemma RefreshedUnmarkedIff(n: Network, target: Bss, now: Tick, c: Connection)
    requires n.bss.quality <= 100 && target.quality <= WRONG_CHANNEL
    ensures Refreshed(n, target, now, c).bss.quality <= 100 <==> !(Connected(c, target) && c.quality > 100)
  {
    hide Id;
    SameNetworkIsIdentity(c.current, target);
  }

  /**
   One result keeps the cache free of marks exactly unless it refreshes the connected network with a link quality above
   100.
   */
  lemma SurveyUnmarkedIff(es: seq<Network>, target: Bss, now: Tick, c: Connection)
    requires Unmarked(es) && target.quality <= WRONG_CHANNEL
    ensures Unmarked(Survey(es, target, now, c)) <==>
              !(FindSame(es, Id(target)) < |es| && Connected(c, target) && c.quality > 100)
  {
    hide FindSame, Oldest, Id, Refreshed;
    var k := FindSame(es, Id(target));
    if k < |es| {
      RefreshedUnmarkedIff(es[k], target, now, c);
      assert Survey(es, target, now, c)[k] == Refreshed(es[k], target, now, c);
    }
  }

  /**
   The mark of a wrong channel is never stored, as long as samples are at most the mark and the receiver's own quality,
   which a connected network takes over, at most 100.
   */
  lemma {:induction false} MarkIsNeverStored(log: seq<Event>)
    requires forall k :: 0 <= k < |log| && log[k].Seen? ==>
             log[k].target.quality <= WRONG_CHANNEL && log[k].c.quality <= 100
    ensures Unmarked(After(log))
  {
    hide Step;
    if log != [] {
      var e, es := log[|log| - 1], After(log[..|log| - 1]);
      MarkIsNeverStored(log[..|log| - 1]);
      if e.Seen? {
        SurveyUnmarkedIff(es, e.target, e.at % ULONG, e.c);
        SeenStep(es, e);
      } else {
        OthersKeepUnmarked(es, e);
      }
    }
  }

  lemma MarkTaken(n: Network, target: Bss, now: Tick, c: Connection)
    requires Connected(c, target)
    ensures Refreshed(n, target, now, c).bss.quality == c.quality
  {
    SameNetworkIsIdentity(c.current, target);
  }

  /** So the bound on the link's quality is needed: a connected network seen twice gets the mark stored. */
  lemma MarkIsStored(at: nat, target: Bss, before: Connection, c: Connection)
    requires target.quality <= 100 && Connected(c, target) && c.quality == WRONG_CHANNEL
    ensures var es := After([Seen(at, target, before), Seen(at, target, c)]);
            es != [] && es[0].bss.quality == WRONG_CHANNEL
  {
    hide Refreshed, Fresh;
    var log, first := [Seen(at, target, before), Seen(at, target, c)], Fresh(target, at % ULONG);
    assert log[..1] == [Seen(at, target, before)] && log[..1][..0] == [];
    FreshIsNew(target, at % ULONG);
    assert After(log[..1]) == [first];
    MarkTaken(first, target, at % ULONG, c);
  }

  /** Every entry carries the time its network was last seen. */
  ghost predicate Stamped(m: map<Identity, Network>, log: seq<Event>) {
    forall id <- m :: Last(log, id).Some? && m[id].lastScanned == Last(log, id).value % ULONG
  }

  lemma {:induction false} LastIsInLog(log: seq<Event>, id: Identity)
    requires Last(log, id).Some?
    ensures exists k :: 0 <= k < |log| && log[k].at == Last(log, id).value && Sees(log[k], id)
    ensures forall t: nat :: t <= Last(log, id).value ==> id in Since(log, t)
  {
    var l := log[..|log| - 1];
    if !Sees(log[|log| - 1], id) {
      LastIsInLog(l, id);
      var k :| 0 <= k < |l| && l[k].at == Last(l, id).value && Sees(l[k], id);
      assert log[k] == l[k];
    }
  }

  lemma EmptyMap()
    ensures AsMap([]) == map[]
  {
  }

  /** What an event does to the map: nothing but a survey result adds or stamps an entry. */
  lemma StepOnMap(es: seq<Network>, e: Event)
    requires Unique(es) && !e.Seen?
    ensures var m, m' := AsMap(es), AsMap(Step(es, e));
            && (forall id <- m' :: id in m && m'[id].lastScanned == m[id].lastScanned)
            && (e.Clear? ==> m' == map[])
            && (e.Pin? ==> m'.Keys == m.Keys)
            && (e.Sweep? ==> forall id <- m :: id in m' <==> Stays(m[id], e.freeAll, e.at % ULONG, e.hz, e.adhoc))
  {
    hide AsMap, Swept, Stays, Pinned, FindMac;
    match e
    case Sweep(at, freeAll, hz, adhoc) => SweepIsRestriction(es, freeAll, at % ULONG, hz, adhoc);
    case Clear(_) => EmptyMap();
    case Pin(_, mac, isFixed) =>
      PinIsMapUpdate(es, mac, isFixed);
      if FindMac(es, mac) < |es| { AsMapLooksUp(es, FindMac(es, mac)); }
  }

  /** What a survey result does to the map, as far as stamps and places go. */
  lemma SeenOnMap(es: seq<Network>, e: Event)
    requires Unique(es) && |es| <= MAX_BSS_CNT && e.Seen?
    ensures var m, m', id := AsMap(es), AsMap(Step(es, e)), Id(e.target);
            && id in m' && m'[id].lastScanned == e.at % ULONG
            && (forall i <- m' :: i == id || (i in m && m'[i] == m[i]))
            && (forall i <- m :: i in m' ||
                  (id !in m && |m| == MAX_BSS_CNT && i == Id(es[Oldest(es, |es|)].bss)))
  {
    hide AsMap, Survey, Refreshed, Fresh, FindSame, Oldest, Id, Age, Step, Unique;
    SeenStep(es, e);
    SurveyIsMapUpdate(es, e.target, e.at % ULONG, e.c);
    var m, id := AsMap(es), Id(e.target);
    if id in m {
    } else if |m| < MAX_BSS_CNT {
    } else {
      assert es != [];
    }
  }

  lemma {:induction false} EntriesAreStamped(log: seq<Event>)
    ensures Stamped(AsMap(After(log)), log)
  {
    hide AsMap, Survey, Refreshed, Fresh, FindSame, Oldest, Id, Step;
    if log == [] {
      EmptyMap();
    } else {
      var e, l := log[|log| - 1], log[..|log| - 1];
      AfterIsBounded(l);
      EntriesAreStamped(l);
      if e.Seen? {
        SeenOnMap(After(l), e);
      } else {
        StepOnMap(After(l), e);
      }
    }
  }

  /** Inside half the clock's range, age on the wrapping clock is elapsed time. */
  lemma AgeIsElapsed(before: nat, now: nat)
    requires before <= now < before + ULONG / 2
    ensures Age(before % ULONG, now % ULONG) == now - before
  {
    var x, y := before / ULONG, now / ULONG;
    assert now % ULONG - before % ULONG == (now - before) - (y - x) * ULONG;
  }

  lemma AgeOfEntry(log: seq<Event>, e: Event, m: map<Identity, Network>, i: Identity)
    requires Timely(log + [e]) && Stamped(m, log) && i in m
    ensures Last(log, i).value <= e.at
    ensures Age(m[i].lastScanned, e.at % ULONG) == e.at - Last(log, i).value < ULONG / 2
  {
    hide Since, Age, Last;
    LastIsInLog(log, i);
    var k :| 0 <= k < |log| && log[k].at == Last(log, i).value && Sees(log[k], i);
    assert (log + [e])[k] == log[k] && (log + [e])[|log|] == e;
    AgeIsElapsed(log[k].at, e.at);
  }

  /** The victim has been unseen the longest, so everything else in the cache was seen no earlier. */
  lemma OthersSeenSince(log: seq<Event>, e: Event, m: map<Identity, Network>, id: Identity)
    requires Timely(log + [e]) && Stamped(m, log) && id in m
    requires forall i <- m :: Age(m[i].lastScanned, e.at % ULONG) <= Age(m[id].lastScanned, e.at % ULONG)
    ensures m.Keys <= Since(log, Last(log, id).value)
  {
    hide Since, Age, Last;
    forall i | i in m ensures i in Since(log, Last(log, id).value) {
      AgeOfEntry(log, e, m, i);
      AgeOfEntry(log, e, m, id);
      LastIsInLog(log, i);
    }
  }

  lemma SinceGrows(log: seq<Event>, e: Event, t: nat)
    ensures Since(log, t) <= Since(log + [e], t)
    ensures e.Seen? && e.at >= t ==> Id(e.target) in Since(log + [e], t)
  {
    var more := log + [e];
    forall id | id in Since(log, t) ensures id in Since(more, t) {
      var k :| 0 <= k < |log| && log[k].Seen? && log[k].at >= t && Id(log[k].target) == id;
      assert more[k] == log[k];
    }
    assert more[|log|] == e;
  }

  lemma {:induction false} CardinalityIsMonotone<T>(a: set<T>, b: set<T>)
    requires a <= b
    ensures |a| <= |b|
  {
    if a != {} {
      var x :| x in a;
      CardinalityIsMonotone(a - {x}, b - {x});
    }
  }

  lemma CountOthers(m: map<Identity, Network>, other: Identity, id: Identity, seen: set<Identity>)
    requires id in m && other !in m && m.Keys <= seen && other in seen
    ensures |seen - {id}| >= |m|
  {
    var others := m.Keys + {other} - {id};
    assert |m.Keys + {other}| == |m| + 1 && |others| == |m|;
    assert others <= seen - {id};
    CardinalityIsMonotone(others, seen - {id});
  }

  ghost predicate IsFixed(log: seq<Event>, id: Identity) {
    id in AsMap(After(log)) && AsMap(After(log))[id].isFixed
  }

  /** Whether an event spares a network last seen at time `seen`: a sweep does if it is fixed by then, or young. */
  ghost predicate Spares(e: Event, isFixed: bool, seen: nat) {
    match e
    case Sweep(at, freeAll, hz, adhoc) =>
      isFixed || (!freeAll && (at - seen) / hz < if adhoc then 1 else SCANQUEUE_LIFETIME)
    case Clear(_) => false
    case _ => true
  }

  /** Every event since the network was last seen has spared it. */
  ghost predicate Spared(log: seq<Event>, id: Identity) {
    log != [] &&
    var e, l := log[|log| - 1], log[..|log| - 1];
    Sees(e, id) || (Spared(l, id) && Last(l, id).Some? && Spares(e, IsFixed(l, id), Last(l, id).value))
  }

  lemma EarlierIsTimely(log: seq<Event>, e: Event)
    requires Timely(log + [e])
    ensures Timely(log)
  {
    var more := log + [e];
    forall j, k | 0 <= j <= k < |log| ensures log[j].at <= log[k].at < log[j].at + ULONG / 2 {
      assert more[j] == log[j] && more[k] == log[k];
    }
  }

  lemma KeptIfSpared(log: seq<Event>, e: Event, id: Identity)
    requires Timely(log + [e]) && !e.Seen? && Last(log, id).Some?
    ensures id in AsMap(Step(After(log), e)) <==>
              id in AsMap(After(log)) && Spares(e, IsFixed(log, id), Last(log, id).value)
  {
    hide AsMap, Step, Id, Timely, Age;
    AfterIsBounded(log);
    StepOnMap(After(log), e);
    if id in AsMap(After(log)) {
      EntriesAreStamped(log);
      AgeOfEntry(log, e, AsMap(After(log)), id);
    }
  }

  lemma VictimIsNot(log: seq<Event>, e: Event, id: Identity)
    requires Timely(log + [e]) && e.Seen?
    requires Last(log, id).Some? && id in AsMap(After(log)) && Id(e.target) !in AsMap(After(log))
    requires |After(log)| == MAX_BSS_CNT
    requires |Since(log + [e], Last(log, id).value) - {id}| < MAX_BSS_CNT
    ensures Id(After(log)[Oldest(After(log), MAX_BSS_CNT)].bss) != id
  {
    hide AsMap, Survey, Refreshed, Fresh, FindSame, Oldest, Id, Since, Timely, Age;
    var es, m, t := After(log), AsMap(After(log)), Last(log, id).value;
    AfterIsBounded(log);
    EntriesAreStamped(log);
    forall i | i in m ensures Age(m[i].lastScanned, e.at % ULONG) < ULONG / 2 {
      AgeOfEntry(log, e, m, i);
    }
    SurveyIsMapUpdate(es, e.target, e.at % ULONG, e.c);
    var k := Oldest(es, MAX_BSS_CNT);
    MapOf(es);
    if Id(es[k].bss) == id {
      AgeOfEntry(log, e, m, id);
      OthersSeenSince(log, e, m, id);
      SinceGrows(log, e, t);
      CountOthers(m, Id(e.target), id, Since(log + [e], t));
      assert false;
    }
  }

  lemma KeptWhenOthersAreSeen(log: seq<Event>, e: Event, id: Identity)
    requires Timely(log + [e]) && e.Seen? && Id(e.target) != id && Last(log, id).Some?
    requires |Since(log + [e], Last(log, id).value) - {id}| < MAX_BSS_CNT
    ensures id in AsMap(Step(After(log), e)) <==> id in AsMap(After(log))
    ensures Spares(e, IsFixed(log, id), Last(log, id).value)
  {
    hide AsMap, Step, Oldest, Id, Since, Timely;
    var m := AsMap(After(log));
    AfterIsBounded(log);
    SeenOnMap(After(log), e);
    UniqueCounts(After(log));
    MapCount(After(log));
    if id in m && Id(e.target) !in m && |m| == MAX_BSS_CNT {
      VictimIsNot(log, e, id);
    }
  }

  /**
   The cache keeps the most recently seen networks: of a network since whose last sighting fewer others were seen than
   there are slots, it has an entry, stamped with that sighting, exactly when no sweep since found it neither fixed nor
   young and the queue was not cleared.
   */
  lemma {:induction false} RecentlySeenIsKept(log: seq<Event>, id: Identity)
    requires Timely(log) && Last(log, id).Some?
    requires |Since(log, Last(log, id).value) - {id}| < MAX_BSS_CNT
    ensures id in AsMap(After(log)) <==> Spared(log, id)
    ensures id in AsMap(After(log)) ==> AsMap(After(log))[id].lastScanned == Last(log, id).value % ULONG
  {
    hide AsMap, Step, Oldest, Id, Since, Timely, Stays, Spares;
    EntriesAreStamped(log);
    var e, l := log[|log| - 1], log[..|log| - 1];
    assert log == l + [e];
    AfterIsBounded(l);
    if Sees(e, id) {
      SeenOnMap(After(l), e);
    } else {
      var t := Last(l, id).value;
      EarlierIsTimely(l, e);
      SinceGrows(l, e, t);
      CardinalityIsMonotone(Since(l, t) - {id}, Since(log, t) - {id});
      RecentlySeenIsKept(l, id);
      if e.Seen? {
        KeptWhenOthersAreSeen(l, e, id);
      } else {
        KeptIfSpared(l, e, id);
      }
    }
  }
}
