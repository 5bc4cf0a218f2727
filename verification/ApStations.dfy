/**
 The stations of an access point: structures that carry marks, the list of those associated, and six counters that
 shadow the marks.
 */
module ApStations {
  import opened Bytes
  import opened ApRules
  import opened ApRuns

  /** What is fixed while the access point runs. */
  datatype Config = Config(htOption: bool, wide: bool, started: bool, erpEnable: bool, above11b: bool)

  class StaInfo {
    var marks: set<Mark>

    /** `_rtw_init_stainfo` */
    constructor ()
      ensures marks == {}
    {
      marks := {};
    }
  }

  function Bearers(m: Mark, marks: map<StaInfo, set<Mark>>): set<StaInfo> {
    set s | s in marks && m in marks[s]
  }

  /** Adding one mark to one station moves the number of stations with that mark by one, and no other. */
  lemma MarkAdded(marking: map<StaInfo, set<Mark>>, s: StaInfo, m: Mark, k: Mark)
    requires s in marking && m !in marking[s]
    ensures |Bearers(k, marking[s := marking[s] + {m}])| == |Bearers(k, marking)| + if k == m then 1 else 0
  {
    var before, after := Bearers(k, marking), Bearers(k, marking[s := marking[s] + {m}]);
    if k == m {
      assert after == before + {s} && s !in before;
    } else {
      assert after == before;
    }
  }

  lemma MarkDropped(marking: map<StaInfo, set<Mark>>, s: StaInfo, m: Mark, k: Mark)
    requires s in marking && m in marking[s]
    ensures |Bearers(k, marking[s := marking[s] - {m}])| == |Bearers(k, marking)| - if k == m then 1 else 0
    ensures |Bearers(m, marking)| > 0
  {
    var before, after := Bearers(k, marking), Bearers(k, marking[s := marking[s] - {m}]);
    if k == m {
      assert after == before - {s} && s in before;
    } else {
      assert after == before;
    }
    assert s in Bearers(m, marking);
  }

  /** A station without marks counts nowhere. */
  lemma UnmarkedCount(marking: map<StaInfo, set<Mark>>, s: StaInfo, k: Mark)
    ensures s !in marking ==> Bearers(k, marking[s := {}]) == Bearers(k, marking)
    ensures s in marking && marking[s] == {} ==> Bearers(k, marking - {s}) == Bearers(k, marking)
  {
  }

  /** A station that disappears takes its marks out of the numbers. */
  lemma StationGone(marking: map<StaInfo, set<Mark>>, s: StaInfo, k: Mark)
    requires s in marking
    ensures |Bearers(k, marking)| == |Bearers(k, marking - {s})| + if k in marking[s] then 1 else 0
  {
    var before, after := Bearers(k, marking), Bearers(k, marking - {s});
    if k in marking[s] {
      assert s in before && after == before - {s};
    } else {
      assert before == after;
    }
  }

  lemma PutSame(n: Counts, m: Mark)
    ensures n.Put(m, n.Of(m)) == n
  {
  }

  /** The HT counters play no part in the ERP byte or in what is reported. */
  lemma SameForLegacy(above11b: bool, before: Counts, between: Counts, after: Counts, erp: Option<bv8>)
    requires between.SameLegacy(after) || after.SameLegacy(between)
    ensures Reported(above11b, before, between) == Reported(above11b, before, after)
    ensures ErpStep(before, between, erp) == ErpStep(before, after, erp)
  {
    hide ErpByte;
  }

  lemma JoinedMarks(marks: set<Mark>, c: Capability)
    ensures MarksAfterJoin(marks, c) == HtMarks(LegacyMarks(marks, !c.shortPreamble, c.nonErp, !c.shortSlot), c)
  {
    forall m: Mark
      ensures m in MarksAfterJoin(marks, c) <==>
              m in HtMarks(LegacyMarks(marks, !c.shortPreamble, c.nonErp, !c.shortSlot), c)
    {
      match m
      case NoShortPreamble =>
      case NonErp =>
      case NoShortSlotTime =>
      case NoHtGf =>
      case NoHt =>
      case Ht20Mhz =>
    }
  }

  lemma AllMarks(marks: set<Mark>)
    ensures LegacyMarks(marks, false, false, false) - {NoHtGf} - {NoHt} - {Ht20Mhz} == {}
  {
    forall m | m in LegacyMarks(marks, false, false, false) - {NoHtGf} - {NoHt} - {Ht20Mhz} ensures false {
      match m
      case NoShortPreamble =>
      case NonErp =>
      case NoShortSlotTime =>
      case NoHtGf =>
      case NoHt =>
      case Ht20Mhz =>
    }
  }

  class Ap {
    var num: Counts
    var htOpMode: bv16
    /** The first data byte of the ERP element of the beacon, if there is one. */
    var erp: Option<bv8>
    var olbcHt: bool
    const htOption: bool
    const wide: bool
    const started: bool
    const erpEnable: bool
    const above11b: bool
    /** The stations that have a structure, and those of them on the association list. */
    var known: set<StaInfo>
    var asoc: set<StaInfo>
    /** How often a mark went with a structure that was freed without being uncounted. */
    ghost var lost: Counts

    ghost function Marking(): map<StaInfo, set<Mark>>
      reads this`known, known
    {
      map s | s in known :: s.marks
    }

    /** Each counter is the number of structures with its mark, and of marks lost. */
    ghost predicate Counted()
      reads this`num, this`known, this`lost, known
    {
      forall m: Mark :: num.Of(m) == |Bearers(m, Marking())| + lost.Of(m)
    }

    ghost predicate Valid()
      reads this, known
    {
      Counted() && asoc <= known && (!htOption ==> Unmanaged(htOpMode) == 0)
    }

    /** The stations, as the runs of events see them. */
    ghost function State(): Stations<StaInfo>
      reads this`known, this`asoc, this`lost, known
    {
      Stations(map s | s in known :: Station(s.marks, s in asoc), lost)
    }

    predicate Live() {
      started && erpEnable
    }

    /** `start_ap_mode`: no station is known. */
    constructor (config: Config, erp: Option<bv8>)
      ensures Valid() && State() == After([]) && known == {} && num == lost == ZERO && this.erp == erp
      ensures htOpMode == 0 && !olbcHt && htOpMode == ModeFor(num, olbcHt, wide)
      ensures htOption == config.htOption && wide == config.wide && started == config.started
      ensures erpEnable == config.erpEnable && above11b == config.above11b
    {
      num, lost, htOpMode, olbcHt, known, asoc, this.erp := ZERO, ZERO, 0, false, {}, {}, erp;
      htOption, wide, started := config.htOption, config.wide, config.started;
      erpEnable, above11b := config.erpEnable, config.above11b;
      new;
      forall m: Mark ensures ZERO.Of(m) == 0 && Bearers(m, Marking()) == {} {}
    }

    /** Sets a mark and counts it, unless it is set. */
    method SetMark(s: StaInfo, m: Mark) returns (changed: bool)
      requires Counted() && s in known
      modifies this`num, s
      ensures Counted()
      ensures changed == (m !in old(s.marks)) && s.marks == old(s.marks) + {m}
      ensures num == old(num).Put(m, old(num).Of(m) + if changed then 1 else 0)
    {
      hide Bearers;
      if m in s.marks {
        PutSame(num, m);
        return false;
      }
      ghost var before := Marking();
      forall k: Mark
        ensures |Bearers(k, before[s := before[s] + {m}])| == |Bearers(k, before)| + if k == m then 1 else 0
      {
        MarkAdded(before, s, m, k);
      }
      s.marks := s.marks + {m};
      num := num.Put(m, num.Of(m) + 1);
      assert Marking() == before[s := before[s] + {m}];
      return true;
    }

    /** Takes a mark away and uncounts it, if it is set; its counter is then positive. */
    method ClearMark(s: StaInfo, m: Mark) returns (changed: bool)
      requires Counted() && s in known
      modifies this`num, s
      ensures Counted()
      ensures changed == (m in old(s.marks)) && s.marks == old(s.marks) - {m}
      ensures old(num).Of(m) >= (if changed then 1 else 0)
      ensures num == old(num).Put(m, old(num).Of(m) - if changed then 1 else 0)
    {
      hide Bearers;
      if m !in s.marks {
        PutSame(num, m);
        return false;
      }
      ghost var before := Marking();
      forall k: Mark
        ensures |Bearers(k, before[s := before[s] - {m}])| == |Bearers(k, before)| - if k == m then 1 else 0
        ensures |Bearers(m, before)| > 0
      {
        MarkDropped(before, s, m, k);
      }
      s.marks := s.marks - {m};
      num := num.Put(m, num.Of(m) - 1);
      assert Marking() == before[s := before[s] - {m}];
      return true;
    }

    /**
     `update_beacon` for the ERP element, with `update_bcn_erpinfo_ie`. It asks whether the count is one, not positive.
     */
    method UpdateBeaconErp()
      modifies this`erp
      ensures erp == if Live() && old(erp).Some?
                     then Some(ErpByte(old(erp).value, num.nonErp == 1, num.noShortPreamble > 0))
                     else old(erp)
    {
      if !started { return; }
      if !erpEnable { return; }
      if erp.Some? {
        var data := erp.value;
        if num.nonErp == 1 {
          data := data | ERP_NON_ERP_AND_PROTECTION;
        } else {
          data := data & !ERP_NON_ERP_AND_PROTECTION;
        }
        if num.noShortPreamble > 0 {
          data := data | ERP_BARKER;
        } else {
          data := data & !ERP_BARKER;
        }
        erp := Some(data);
      }
    }

    /** `rtw_ht_operation_update` */
    method HtOperationUpdate() returns (changes: nat)
      modifies this`htOpMode
      ensures htOption ==> changes == 0 && htOpMode == old(htOpMode)
      ensures !htOption ==> htOpMode == Managed(old(htOpMode), ModeFor(num, olbcHt, wide))
      ensures changes == 0 <==> htOpMode == old(htOpMode)
    {
      hide Managed, OperationMode;
      if htOption { return 0; }
      htOpMode, changes := UpdateMode(htOpMode, num.htNoGf != 0, num.noHt != 0, num.ht20Mhz != 0, olbcHt, wide);
    }

    /** The update, on a mode that has only managed bits: history does not matter. */
    method RefreshMode()
      requires !htOption ==> Unmanaged(htOpMode) == 0
      modifies this`htOpMode
      ensures !htOption ==> Unmanaged(htOpMode) == 0 && htOpMode == ModeFor(num, olbcHt, wide)
      ensures htOption ==> htOpMode == old(htOpMode)
    {
      hide Managed, ModeFor, Unmanaged;
      if !htOption {
        UpdateForgets(htOpMode, num, olbcHt, wide);
      }
      var _ := HtOperationUpdate();
    }

    /** A mark set or taken away as asked; the answer is whether the count left or reached zero. */
    method UpdateMark(s: StaInfo, m: Mark, wanted: bool) returns (edge: bool)
      requires Counted() && s in known
      modifies this`num, s
      ensures Counted()
      ensures s.marks == WithMark(old(s.marks), wanted, m)
      ensures num == old(num).Put(m, num.Of(m))
      ensures edge == Edge(old(num), num, m)
      ensures edge ==> num.Of(m) == if wanted then 1 else 0
    {
      hide Counted;
      if wanted {
        edge := SetMark(s, m);
        edge := edge && num.Of(m) == 1;
      } else {
        edge := ClearMark(s, m);
        edge := edge && num.Of(m) == 0;
      }
    }

    /** The parts of join and leave before the HT features. */
    method UpdateLegacyMarks(s: StaInfo, noShortPreamble: bool, nonErp: bool, noShortSlot: bool) returns (updated: bool)
      requires Counted() && s in known
      modifies this`num, this`erp, s
      ensures Counted()
      ensures s.marks == LegacyMarks(old(s.marks), noShortPreamble, nonErp, noShortSlot)
      ensures num.SameHt(old(num))
      ensures updated == Reported(above11b, old(num), num)
      ensures erp == if Live() then ErpStep(old(num), num, old(erp)) else old(erp)
    {
      hide Counted, ErpByte;
      var edge := UpdateMark(s, NoShortPreamble, noShortPreamble);
      updated := edge && above11b;
      edge := UpdateMark(s, NonErp, nonErp);
      if edge {
        updated := true;
        UpdateBeaconErp();
      }
      edge := UpdateMark(s, NoShortSlotTime, noShortSlot);
      updated := updated || (edge && above11b);
    }

    /** The part of join about the HT features: two of the marks are set here but never taken away. */
    method UpdateHtMarks(s: StaInfo, c: Capability)
      requires Counted() && s in known
      modifies this`num, s
      ensures Counted() && s.marks == HtMarks(old(s.marks), c) && num.SameLegacy(old(num))
    {
      hide Counted;
      if c.ht {
        var _ := ClearMark(s, NoHt);
        if !c.greenfield { var _ := SetMark(s, NoHtGf); }
        if !c.width40 { var _ := SetMark(s, Ht20Mhz); }
      } else {
        var _ := SetMark(s, NoHt);
      }
    }

    method ClearHtMarks(s: StaInfo)
      requires Counted() && s in known
      modifies this`num, s
      ensures Counted() && s.marks == old(s.marks) - {NoHtGf} - {NoHt} - {Ht20Mhz} && num.SameLegacy(old(num))
    {
      hide Counted;
      var _ := ClearMark(s, NoHtGf);
      var _ := ClearMark(s, NoHt);
      var _ := ClearMark(s, Ht20Mhz);
    }

    /** The first authentication of a station: a structure without marks. */
    method Alloc() returns (s: StaInfo)
      requires Valid()
      modifies this`known
      ensures Valid() && fresh(s) && s.marks == {} && known == old(known) + {s}
      ensures State() == Step(old(State()), Authenticates(s))
    {
      hide Bearers, Unmanaged;
      ghost var before := Marking();
      s := new StaInfo();
      forall k: Mark ensures Bearers(k, before[s := {}]) == Bearers(k, before) { UnmarkedCount(before, s, k); }
      known := known + {s};
      assert Marking() == before[s := {}];
    }

    /** `OnAuth` for a station that has a structure: it leaves the association list, and nothing is uncounted. */
    method Reauthenticate(s: StaInfo)
      requires Valid() && s in known
      modifies this`asoc
      ensures Valid() && asoc == old(asoc) - {s}
      ensures State() == Step(old(State()), Authenticates(s))
    {
      asoc := asoc - {s};
    }

    method UpdateMarksOnJoin(s: StaInfo, c: Capability) returns (updated: bool)
      requires Counted() && s in known
      modifies this`num, this`erp, s
      ensures Counted() && s.marks == MarksAfterJoin(old(s.marks), c)
      ensures updated == Reported(above11b, old(num), num)
      ensures erp == if Live() then ErpStep(old(num), num, old(erp)) else old(erp)
      ensures Live() && Tracks(old(num), old(erp)) ==> Tracks(num, erp)
    {
      hide Counted, ErpStep, HtMarks, LegacyMarks, MarksAfterJoin, Reported, Tracks;
      updated := UpdateLegacyMarks(s, !c.shortPreamble, c.nonErp, !c.shortSlot);
      ghost var between := num;
      UpdateHtMarks(s, c);
      SameForLegacy(above11b, old(num), between, num, old(erp));
      if Live() && Tracks(old(num), old(erp)) {
        EdgesSuffice(old(num), num, old(erp));
      }
      JoinedMarks(old(s.marks), c);
    }

    /** `bss_cap_update_on_sta_join`, once the station is on the association list, for the first time or again. */
    method Join(s: StaInfo, c: Capability) returns (updated: bool)
      requires Valid() && s in known
      modifies this`num, this`erp, this`htOpMode, this`asoc, s
      ensures Valid() && asoc == old(asoc) + {s} && s.marks == MarksAfterJoin(old(s.marks), c)
      ensures if htOption then htOpMode == old(htOpMode) else htOpMode == ModeFor(num, olbcHt, wide)
      ensures updated == Reported(above11b, old(num), num)
      ensures erp == if Live() then ErpStep(old(num), num, old(erp)) else old(erp)
      ensures Live() && Tracks(old(num), old(erp)) ==> Tracks(num, erp)
      ensures State() == Step(old(State()), Joins(s, c))
    {
      hide Counted, Managed, ModeFor, Unmanaged, ErpStep, MarksAfterJoin, Tracks, Reported;
      asoc := asoc + {s};
      updated := UpdateMarksOnJoin(s, c);
      RefreshMode();
    }

    method UpdateMarksOnLeave(s: StaInfo) returns (updated: bool)
      requires Counted() && s in known
      modifies this`num, this`erp, s
      ensures Counted() && s.marks == {}
      ensures updated == Reported(above11b, old(num), num)
      ensures erp == if Live() then ErpStep(old(num), num, old(erp)) else old(erp)
      ensures Live() && Tracks(old(num), old(erp)) ==> Tracks(num, erp)
    {
      hide Counted, ErpStep, LegacyMarks, Reported, Tracks;
      updated := UpdateLegacyMarks(s, false, false, false);
      ghost var between := num;
      ClearHtMarks(s);
      SameForLegacy(above11b, old(num), between, num, old(erp));
      if Live() && Tracks(old(num), old(erp)) {
        EdgesSuffice(old(num), num, old(erp));
      }
      AllMarks(old(s.marks));
    }

    method ForgetUnmarked(s: StaInfo)
      requires Counted() && s in known && s.marks == {}
      modifies this`known, this`asoc
      ensures Counted() && known == old(known) - {s} && asoc == old(asoc) - {s}
    {
      hide Bearers;
      ghost var before := Marking();
      forall k: Mark ensures Bearers(k, before - {s}) == Bearers(k, before) { UnmarkedCount(before, s, k); }
      known, asoc := known - {s}, asoc - {s};
      assert Marking() == before - {s};
    }

    /** `ap_free_sta`, with `bss_cap_update_on_sta_leave`: no mark is left, so the structure can go. */
    method Leave(s: StaInfo) returns (updated: bool)
      requires Valid() && s in known
      modifies this`num, this`erp, this`htOpMode, this`asoc, this`known, s
      ensures Valid() && known == old(known) - {s} && asoc == old(asoc) - {s} && s.marks == {}
      ensures if htOption then htOpMode == old(htOpMode) else htOpMode == ModeFor(num, olbcHt, wide)
      ensures updated == Reported(above11b, old(num), num)
      ensures erp == if Live() then ErpStep(old(num), num, old(erp)) else old(erp)
      ensures Live() && Tracks(old(num), old(erp)) ==> Tracks(num, erp)
      ensures State() == Step(old(State()), Leaves(s))
    {
      hide Counted, Managed, ModeFor, Unmanaged, ErpStep, Tracks, Reported;
      updated := UpdateMarksOnLeave(s);
      RefreshMode();
      ForgetUnmarked(s);
    }

    /**
     A structure freed off the association list without `bss_cap_update_on_sta_leave`: when an authentication times out
     or fails, which a station that was associated before may go through. What it was counted for stays counted.
     */
    method FreeUnannounced(s: StaInfo)
      requires Valid() && s in known && s !in asoc
      modifies this`known, this`lost
      ensures Valid() && known == old(known) - {s}
      ensures forall m: Mark :: lost.Of(m) == old(lost).Of(m) + if m in s.marks then 1 else 0
      ensures State() == Step(old(State()), TimesOut(s))
    {
      hide Bearers, Unmanaged;
      ghost var before := Marking();
      forall k: Mark ensures |Bearers(k, before)| == |Bearers(k, before - {s})| + if k in before[s] then 1 else 0 {
        StationGone(before, s, k);
      }
      lost := PlusMarks(lost, s.marks);
      known := known - {s};
      assert Marking() == before - {s};
    }

    /** What the counters are, in terms of the stations; the runs say how far that is the number of those associated. */
    lemma CountersAre(m: Mark)
      requires Valid()
      ensures num.Of(m) == Counter(State(), m)
    {
      hide Unmanaged;
      assert Marked(m, State().of) == Bearers(m, Marking());
    }
  }

  lemma OnlyOne(ap: Ap)
    requires ap.Valid() && ap.known == {} && ap.lost.nonErp == 1
    ensures ap.num.nonErp == 1
  {
    assert Bearers(NonErp, ap.Marking()) == {};
    assert ap.num.Of(NonErp) == ap.num.nonErp && ap.lost.Of(NonErp) == ap.lost.nonErp;
  }

  /**
   A legacy station that associates, authenticates again and lets that time out leaves its mark behind, with no station
   left.
   */
  method MarkIsLost(config: Config, erp: bv8) returns (ap: Ap)
    requires config.started && config.erpEnable && Announces(erp, false)
    ensures ap.Valid() && ap.known == {} && ap.num.nonErp == 1
    ensures ap.erp.Some? && Announces(ap.erp.value, true)
  {
    hide Announces, ErpByte, Step, After, Ap.State, Ap.Counted, ModeFor;
    ap := new Ap(config, Some(erp));
    var s := ap.Alloc();
    var _ := ap.Join(s, Capability(true, true, true, true, true, true));
    ap.Reauthenticate(s);
    ap.FreeUnannounced(s);
    OnlyOne(ap);
  }

  lemma OneStation(ap: Ap, s: StaInfo)
    requires ap.Valid() && ap.known == {s} && ap.lost == ZERO && s.marks == {NoShortPreamble}
    ensures ap.num.noShortPreamble == 1 && ap.num.nonErp == 0
  {
    assert Bearers(NoShortPreamble, ap.Marking()) == {s} && Bearers(NonErp, ap.Marking()) == {};
    assert ap.num.Of(NoShortPreamble) == ap.num.noShortPreamble && ap.num.Of(NonErp) == ap.num.nonErp;
    assert ZERO.Of(NoShortPreamble) == ZERO.Of(NonErp) == 0;
  }

  /** The Barker bit goes stale: a first station with neither short preamble nor legacy rates does not get it set. */
  method BarkerGoesStale(config: Config, erp: bv8) returns (ap: Ap)
    requires config.started && config.erpEnable && Announces(erp, false) && !SaysBarker(erp)
    ensures ap.Valid() && ap.num.noShortPreamble == 1 && |ap.asoc| == 1
    ensures ap.erp == Some(erp) && !BarkerRight(ap.num, ap.erp)
  {
    hide Announces, ErpByte, SaysBarker, Step, After, Ap.State, Ap.Counted, ModeFor;
    ap := new Ap(config, Some(erp));
    var s := ap.Alloc();
    var _ := ap.Join(s, Capability(false, false, true, true, true, true));
    OneStation(ap, s);
    assert ap.asoc == {s};
  }
}
