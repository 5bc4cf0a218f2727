/**
 Whole runs of stations that authenticate, join, leave and time out: what the counters of an access point come to, and
 when they stop being numbers of associated stations.
 */
module ApRuns {
  import opened ApRules

  datatype Station = Station(marks: set<Mark>, associated: bool)

  datatype Event<S> =
    | Authenticates(s: S)
    | Joins(s: S, c: Capability)
    | Leaves(s: S)
    | TimesOut(s: S)

  /** The stations that have a structure, and what went with structures that were freed without being uncounted. */
  datatype Stations<S> = Stations(of: map<S, Station>, lost: Counts)

  /** The marks of a station that goes, counted as lost. */
  function PlusMarks(n: Counts, marks: set<Mark>): (r: Counts)
    ensures forall m: Mark :: r.Of(m) == n.Of(m) + if m in marks then 1 else 0
  {
    Counts(
      n.noShortPreamble + if NoShortPreamble in marks then 1 else 0, n.nonErp + if NonErp in marks then 1 else 0,
      n.noShortSlotTime + if NoShortSlotTime in marks then 1 else 0, n.htNoGf + if NoHtGf in marks then 1 else 0,
      n.noHt + if NoHt in marks then 1 else 0, n.ht20Mhz + if Ht20Mhz in marks then 1 else 0)
  }

  /**
   A station that authenticates gets a structure, or leaves the association list if it has one; joining puts it on the
   list with new marks; leaving uncounts its marks and frees the structure, and timing out frees it without that.
   */
  function Step<S(==)>(st: Stations<S>, e: Event<S>): Stations<S> {
    match e
    case Authenticates(s) =>
      st.(of := st.of[s := if s in st.of then st.of[s].(associated := false) else Station({}, false)])
    case Joins(s, c) =>
      if s in st.of then st.(of := st.of[s := Station(MarksAfterJoin(st.of[s].marks, c), true)]) else st
    case Leaves(s) => st.(of := st.of - {s})
    case TimesOut(s) =>
      if s in st.of && !st.of[s].associated then Stations(st.of - {s}, PlusMarks(st.lost, st.of[s].marks)) else st
  }

  function After<S(==)>(log: seq<Event<S>>): Stations<S> {
    if log == [] then Stations(map[], ZERO) else Step(After(log[..|log| - 1]), log[|log| - 1])
  }

  function Marked<S(==)>(m: Mark, of: map<S, Station>): set<S> {
    set s | s in of && m in of[s].marks
  }

  function Associated<S(==)>(m: Mark, of: map<S, Station>): set<S> {
    set s | s in of && m in of[s].marks && of[s].associated
  }

  /** Marked stations that are not on the association list. */
  function Strays<S(==)>(m: Mark, of: map<S, Station>): set<S> {
    set s | s in of && m in of[s].marks && !of[s].associated
  }

  /** What the counter of a mark stands at. */
  function Counter<S(==)>(st: Stations<S>, m: Mark): nat {
    |Marked(m, st.of)| + st.lost.Of(m)
  }

  predicate Right<S(==)>(st: Stations<S>, m: Mark) {
    Counter(st, m) == |Associated(m, st.of)|
  }

  /** A counter exceeds the number of associated stations with its mark by the strays and the marks lost. */
  lemma CounterIs<S>(st: Stations<S>, m: Mark)
    ensures Counter(st, m) == |Associated(m, st.of)| + |Strays(m, st.of)| + st.lost.Of(m)
    ensures Right(st, m) <==> st.lost.Of(m) == 0 && Strays(m, st.of) == {}
  {
    var all, associated, strays := Marked(m, st.of), Associated(m, st.of), Strays(m, st.of);
    assert all == associated + strays && associated !! strays;
  }

  /** What one event does to the strays and the marks lost. */
  lemma StepOnStrays<S>(st: Stations<S>, e: Event<S>, m: Mark)
    ensures var before, after := Strays(m, st.of), Strays(m, Step(st, e).of);
            match e
            case Authenticates(s) => after == before + if s in Associated(m, st.of) then {s} else {}
            case _ => after == before - {e.s}
    ensures Step(st, e).lost.Of(m) == st.lost.Of(m) + if e.TimesOut? && e.s in Strays(m, st.of) then 1 else 0
  {
  }

  /** From a right counter, one event alone makes it wrong: an associated station with the mark authenticates again. */
  lemma StaysRightIff<S>(st: Stations<S>, e: Event<S>, m: Mark)
    requires Right(st, m)
    ensures Right(Step(st, e), m) <==> !(e.Authenticates? && e.s in Associated(m, st.of))
  {
    hide Right, Step, Strays;
    CounterIs(st, m);
    CounterIs(Step(st, e), m);
    StepOnStrays(st, e, m);
  }

  /**
   Who is on the association list after an event: who joined, or was on it and neither authenticated again nor left.
   */
  lemma AssociatedAfter<S>(st: Stations<S>, e: Event<S>, s: S)
    ensures var before, after := st.of, Step(st, e).of;
            && (s in after && after[s].associated <==>
                  || (e.Joins? && e.s == s && s in before)
                  || (s in before && before[s].associated && !(e.s == s && (e.Authenticates? || e.Leaves?))))
            && (s in after <==>
                  || (e.Authenticates? && e.s == s)
                  || (s in before && !(e.s == s && (e.Leaves? || (e.TimesOut? && !before[s].associated)))))
            && (s in after && s !in before ==> after[s].marks == {})
  {
  }

  // ----- over runs

  /** A mark lost is lost for good: whatever comes after, its counter stays above the number of associated stations. */
  lemma {:induction false} LostIsForGood<S>(log: seq<Event<S>>, more: seq<Event<S>>, m: Mark)
    ensures After(log + more).lost.Of(m) >= After(log).lost.Of(m)
    ensures After(log).lost.Of(m) > 0 ==> Counter(After(log + more), m) > |Associated(m, After(log + more).of)|
  {
    hide Step, Strays;
    CounterIs(After(log + more), m);
    if more == [] {
      assert log + more == log;
    } else {
      var last := |more| - 1;
      assert (log + more)[..|log + more| - 1] == log + more[..last];
      LostIsForGood(log, more[..last], m);
      StepOnStrays(After(log + more[..last]), more[last], m);
    }
  }

  /** At event i an associated station that carries the mark authenticates again. */
  predicate Strands<S(==)>(log: seq<Event<S>>, i: nat, m: Mark): (b: bool)
    ensures b ==> i < |log| && log[i].Authenticates?
  {
    i < |log| && log[i].Authenticates? && log[i].s in Associated(m, After(log[..i]).of)
  }

  datatype Fate = Pending | Settled | Abandoned

  /**
   What has become of the station of event i: it first joined again or left, or it first timed out, or neither yet.
   */
  function FateOf<S(==)>(log: seq<Event<S>>, i: nat): Fate
    requires i < |log|
  {
    var last := |log| - 1;
    if i == last then Pending
    else
      var f, e := FateOf(log[..last], i), log[last];
      if f != Pending || e.s != log[i].s || e.Authenticates? then f
      else if e.TimesOut? then Abandoned
      else Settled
  }

  lemma StrandsEarlier<S>(log: seq<Event<S>>, i: nat, m: Mark)
    requires log != [] && i < |log| - 1
    ensures Strands(log, i, m) <==> Strands(log[..|log| - 1], i, m)
  {
    assert log[..|log| - 1][..i] == log[..i];
  }

  lemma NobodyYet<S>(log: seq<Event<S>>, s: S, m: Mark)
    requires log == []
    ensures s !in Strays(m, After(log).of) && After(log).lost.Of(m) == 0
    ensures forall i: nat :: !Strands(log, i, m)
  {
    assert ZERO.Of(m) == 0;
  }

  lemma LastStrands<S>(log: seq<Event<S>>, m: Mark)
    requires log != []
    ensures var l, e := log[..|log| - 1], log[|log| - 1];
            Strands(log, |l|, m) <==> e.Authenticates? && e.s in Associated(m, After(l).of)
  {
  }

  /** Strays are the stations stranded with a pending fate. */
  lemma {:induction false} StrayIff<S>(log: seq<Event<S>>, s: S, m: Mark)
    ensures s in Strays(m, After(log).of) <==>
              exists i: nat :: Strands(log, i, m) && log[i].s == s && FateOf(log, i) == Pending
  {
    hide Step, Strays, Strands, Associated;
    if log == [] {
      NobodyYet(log, s, m);
    } else {
      var l, e := log[..|log| - 1], log[|log| - 1];
      StrayIff(l, s, m);
      StepOnStrays(After(l), e, m);
      LastStrands(log, m);
      forall i: nat | i < |l| ensures Strands(log, i, m) <==> Strands(l, i, m) { StrandsEarlier(log, i, m); }
      if s in Strays(m, After(log).of) {
        if s in Strays(m, After(l).of) {
          var i: nat :| Strands(l, i, m) && l[i].s == s && FateOf(l, i) == Pending;
            assert Strands(log, i, m) && FateOf(log, i) == Pending;
        } else {
          assert Strands(log, |l|, m) && FateOf(log, |l|) == Pending;
        }
      }
      forall i: nat | Strands(log, i, m) && log[i].s == s && FateOf(log, i) == Pending
        ensures s in Strays(m, After(log).of) {}
    }
  }

  /** A mark is lost exactly when a station stranded with it was abandoned. */
  lemma {:induction false} LostIff<S>(log: seq<Event<S>>, m: Mark)
    ensures After(log).lost.Of(m) > 0 <==> exists i: nat :: Strands(log, i, m) && FateOf(log, i) == Abandoned
  {
    hide Step, Strays, Strands, Associated;
    if log == [] {
      assert ZERO.Of(m) == 0;
    } else {
      var l, e := log[..|log| - 1], log[|log| - 1];
      LostIff(l, m);
      StrayIff(l, e.s, m);
      StepOnStrays(After(l), e, m);
      forall i: nat | i < |l| ensures Strands(log, i, m) <==> Strands(l, i, m) { StrandsEarlier(log, i, m); }
      if After(l).lost.Of(m) > 0 {
        var i: nat :| Strands(l, i, m) && FateOf(l, i) == Abandoned;
        assert Strands(log, i, m) && FateOf(log, i) == Abandoned;
      } else if After(log).lost.Of(m) > 0 {
        var i: nat :| Strands(l, i, m) && l[i].s == e.s && FateOf(l, i) == Pending;
        assert Strands(log, i, m) && FateOf(log, i) == Abandoned;
      }
      forall i: nat | Strands(log, i, m) && FateOf(log, i) == Abandoned ensures After(log).lost.Of(m) > 0 {}
    }
  }

  /**
   Over any run a counter is the number of associated stations with its mark exactly when every one of them that
   authenticated again has, before anything else became of it, joined again or left.
   */
  lemma RightIffAllSettled<S>(log: seq<Event<S>>, m: Mark)
    ensures Right(After(log), m) <==> forall i: nat :: Strands(log, i, m) ==> FateOf(log, i) == Settled
  {
    hide Strays, Strands, Right;
    CounterIs(After(log), m);
    LostIff(log, m);
    if s :| s in Strays(m, After(log).of) {
      StrayIff(log, s, m);
    }
    forall i: nat | Strands(log, i, m) && FateOf(log, i) == Pending ensures Strays(m, After(log).of) != {} {
      StrayIff(log, log[i].s, m);
    }
  }

  /** While nobody authenticates twice, all counters are right. */
  lemma NoRepeatsCountRight<S>(log: seq<Event<S>>, m: Mark)
    requires forall i :: 0 <= i < |log| && log[i].Authenticates? ==> log[i].s !in After(log[..i]).of
    ensures Right(After(log), m)
  {
    RightIffAllSettled(log, m);
  }
}
