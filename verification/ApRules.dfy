/** What an access point derives from counts of its stations: their marks, the HT operation mode and the ERP bits. */
module ApRules {
  import opened Bytes

  /** The `…_set` fields of `sta_info`; the counter of each is the `num_sta_…` field of the same name. */
  datatype Mark = NoShortPreamble | NonErp | NoShortSlotTime | NoHtGf | NoHt | Ht20Mhz

  /** What a station says of itself when it associates. */
  datatype Capability = Capability(
    shortPreamble: bool, nonErp: bool, shortSlot: bool, ht: bool, greenfield: bool, width40: bool)

  const ERP_NON_ERP_AND_PROTECTION: bv8 := 3
  const ERP_BARKER: bv8 := 4
  const NON_GF_DEVS_PRESENT: bv16 := 4
  const NON_HT_STA_PRESENT: bv16 := 16
  const OP_MODE_MASK: bv16 := 3
  const OP_MODE_PURE: bv16 := 0
  const OP_MODE_MAY_BE_LEGACY_STAS: bv16 := 1
  const OP_MODE_20MHZ_HT_STA_ASSOCED: bv16 := 2
  const OP_MODE_MIXED: bv16 := 3

  /** The six counters. */
  datatype Counts = Counts(
    noShortPreamble: nat, nonErp: nat, noShortSlotTime: nat, htNoGf: nat, noHt: nat, ht20Mhz: nat)
  {
    function Of(m: Mark): nat {
      match m
      case NoShortPreamble => noShortPreamble
      case NonErp => nonErp
      case NoShortSlotTime => noShortSlotTime
      case NoHtGf => htNoGf
      case NoHt => noHt
      case Ht20Mhz => ht20Mhz
    }

    function Put(m: Mark, n: nat): (r: Counts)
      ensures forall k: Mark :: r.Of(k) == if k == m then n else Of(k)
    {
      match m
      case NoShortPreamble => this.(noShortPreamble := n)
      case NonErp => this.(nonErp := n)
      case NoShortSlotTime => this.(noShortSlotTime := n)
      case NoHtGf => this.(htNoGf := n)
      case NoHt => this.(noHt := n)
      case Ht20Mhz => this.(ht20Mhz := n)
    }

    predicate SameLegacy(other: Counts) {
      noShortPreamble == other.noShortPreamble && nonErp == other.nonErp && noShortSlotTime == other.noShortSlotTime
    }

    predicate SameHt(other: Counts) {
      htNoGf == other.htNoGf && noHt == other.noHt && ht20Mhz == other.ht20Mhz
    }
  }

  const ZERO := Counts(0, 0, 0, 0, 0, 0)

  function If(b: bool, m: Mark): set<Mark> {
    if b then {m} else {}
  }

  /** The marks of a station that joins. The two about HT features are only ever added. */
  function MarksAfterJoin(marks: set<Mark>, c: Capability): set<Mark> {
    If(!c.shortPreamble, NoShortPreamble) + If(c.nonErp, NonErp) + If(!c.shortSlot, NoShortSlotTime)
    + If(!c.ht, NoHt) + If(c.ht && !c.greenfield, NoHtGf) + If(c.ht && !c.width40, Ht20Mhz)
    + (marks * {NoHtGf, Ht20Mhz})
  }

  /** Each mark of a station that joins, by what it says of itself and what it had before. */
  lemma JoinMarksSay(marks: set<Mark>, c: Capability)
    ensures var r := MarksAfterJoin(marks, c);
            && (NoShortPreamble in r <==> !c.shortPreamble) && (NonErp in r <==> c.nonErp)
            && (NoShortSlotTime in r <==> !c.shortSlot) && (NoHt in r <==> !c.ht)
            && (NoHtGf in r <==> NoHtGf in marks || (c.ht && !c.greenfield))
            && (Ht20Mhz in r <==> Ht20Mhz in marks || (c.ht && !c.width40))
  {
  }

  /** Those marks one step at a time, as the code sets and clears them. */
  function WithMark(marks: set<Mark>, wanted: bool, m: Mark): set<Mark> {
    if wanted then marks + {m} else marks - {m}
  }

  function LegacyMarks(marks: set<Mark>, noShortPreamble: bool, nonErp: bool, noShortSlot: bool): set<Mark> {
    WithMark(WithMark(WithMark(marks, noShortPreamble, NoShortPreamble), nonErp, NonErp), noShortSlot, NoShortSlotTime)
  }

  function HtMarks(marks: set<Mark>, c: Capability): set<Mark> {
    if !c.ht then marks + {NoHt}
    else
      var m := if c.greenfield then marks - {NoHt} else marks - {NoHt} + {NoHtGf};
      if c.width40 then m else m + {Ht20Mhz}
  }

  /**
   A station that joins again ends up as one that joins for the first time exactly when it had no mark about an HT
   feature which it does not earn again now.
   */
  lemma RejoinForgetsIff(marks: set<Mark>, c: Capability)
    ensures MarksAfterJoin(marks, c) == MarksAfterJoin({}, c)
            <==> (NoHtGf in marks ==> c.ht && !c.greenfield) && (Ht20Mhz in marks ==> c.ht && !c.width40)
  {
    assert MarksAfterJoin(marks, c) == MarksAfterJoin({}, c) + (marks * {NoHtGf, Ht20Mhz});
    assert NoHtGf in MarksAfterJoin({}, c) <==> c.ht && !c.greenfield;
    assert Ht20Mhz in MarksAfterJoin({}, c) <==> c.ht && !c.width40;
  }

  function Field(x: bv16): bv16 {
    x & OP_MODE_MASK
  }

  function ModeField(noGf: bool, noHt: bool, ht20: bool, olbcHt: bool, wide: bool): (mode: bv16)
    ensures Field(mode) == mode
  {
    if noHt || noGf then OP_MODE_MIXED
    else if wide && ht20 then OP_MODE_20MHZ_HT_STA_ASSOCED
    else if olbcHt then OP_MODE_MAY_BE_LEGACY_STAS
    else OP_MODE_PURE
  }

  /** The operation mode a set of counts calls for: no trace of the order of joins and leaves. */
  function OperationMode(noGf: bool, noHt: bool, ht20: bool, olbcHt: bool, wide: bool): bv16 {
    (if noGf then NON_GF_DEVS_PRESENT else 0)
    | (if noHt || olbcHt then NON_HT_STA_PRESENT else 0)
    | ModeField(noGf, noHt, ht20, olbcHt, wide)
  }

  function Set(x: bv16, bits: bv16): bv16 {
    x | bits
  }

  function Clear(x: bv16, bits: bv16): bv16 {
    x & !bits
  }

  predicate Has(x: bv16, bits: bv16) {
    x & bits != 0
  }

  /** The mode brought in line with the conditions, with every step counted that changed it. */
  function WithBit(x: bv16, bit: bv16, wanted: bool): bv16 {
    if wanted then Set(x, bit) else Clear(x, bit)
  }

  /** The bits of `ht_op_mode` that the update does not look after: all but bits 0, 1, 2 and 4. */
  function Unmanaged(x: bv16): bv16 {
    x & 0xffe8
  }

  /** The mode with the managed bits replaced. */
  function Managed(x: bv16, wanted: bv16): bv16 {
    Set(Unmanaged(x), wanted)
  }

  lemma BitFacts(x: bv16, bit: bv16)
    requires bit == NON_GF_DEVS_PRESENT || bit == NON_HT_STA_PRESENT
    ensures Has(x, bit) ==> Set(x, bit) == x && Clear(x, bit) != x
    ensures !Has(x, bit) ==> Set(x, bit) != x && Clear(x, bit) == x
  {
  }

  lemma GfBitSurvives(x: bv16, gf: bool, ht: bool)
    ensures Has(WithBit(WithBit(x, NON_GF_DEVS_PRESENT, gf), NON_HT_STA_PRESENT, ht), NON_GF_DEVS_PRESENT) == gf
  {
  }

  lemma FieldFacts(x: bv16, mode: bv16)
    requires Field(mode) == mode
    ensures Field(x) == mode <==> Set(Clear(x, OP_MODE_MASK), mode) == x
  {
  }

  function AllThree(x: bv16, gf: bool, ht: bool, mode: bv16): bv16 {
    Set(Clear(WithBit(WithBit(x, NON_GF_DEVS_PRESENT, gf), NON_HT_STA_PRESENT, ht), OP_MODE_MASK), mode)
  }

  lemma OthersSurvive(x: bv16, gf: bool)
    ensures var y := WithBit(x, NON_GF_DEVS_PRESENT, gf);
            Has(y, NON_HT_STA_PRESENT) == Has(x, NON_HT_STA_PRESENT) && Field(y) == Field(x)
  {
  }

  lemma FieldSurvives(x: bv16, ht: bool)
    ensures Field(WithBit(x, NON_HT_STA_PRESENT, ht)) == Field(x)
  {
  }

  lemma AllThreeIs(x: bv16, gf: bool, ht: bool, mode: bv16)
    requires Field(mode) == mode
    ensures AllThree(x, gf, ht, mode) == x ==>
              Has(x, NON_GF_DEVS_PRESENT) == gf && Has(x, NON_HT_STA_PRESENT) == ht && Field(x) == mode
  {
  }

  /** No step undoes another: the three together leave the mode as it was only if each of them does. */
  lemma StepsAreIndependent(x: bv16, gf: bool, ht: bool, mode: bv16)
    requires Field(mode) == mode
    ensures var y := WithBit(x, NON_GF_DEVS_PRESENT, gf);
            var z := WithBit(y, NON_HT_STA_PRESENT, ht);
            AllThree(x, gf, ht, mode) == x <==> y == x && z == y && Field(z) == mode
  {
    hide Has, Set, Clear, Field;
    var y := WithBit(x, NON_GF_DEVS_PRESENT, gf);
    AllThreeIs(x, gf, ht, mode);
    OthersSurvive(x, gf);
    FieldSurvives(y, ht);
    BitFacts(x, NON_GF_DEVS_PRESENT);
    BitFacts(y, NON_HT_STA_PRESENT);
    FieldFacts(WithBit(y, NON_HT_STA_PRESENT, ht), mode);
  }

  lemma StepsCombine(x: bv16, noGf: bool, noHt: bool, ht20: bool, olbcHt: bool, wide: bool)
    ensures AllThree(x, noGf, noHt || olbcHt, ModeField(noGf, noHt, ht20, olbcHt, wide))
            == Managed(x, OperationMode(noGf, noHt, ht20, olbcHt, wide))
  {
  }

  /** Brings one bit of the mode in line with a condition, and counts that if it was not. */
  method UpdateBit(mode: bv16, bit: bv16, wanted: bool) returns (r: bv16, changes: nat)
    requires bit == NON_GF_DEVS_PRESENT || bit == NON_HT_STA_PRESENT
    ensures r == WithBit(mode, bit, wanted)
    ensures changes == if r == mode then 0 else 1
  {
    hide Set, Clear, Has;
    BitFacts(mode, bit);
    if !Has(mode, bit) && wanted {
      return Set(mode, bit), 1;
    } else if Has(mode, bit) && !wanted {
      return Clear(mode, bit), 1;
    }
    return mode, 0;
  }

  /**
   The update of the operation mode. Of the old mode only the bits nobody manages survive; the rest follows from the
   conditions, and the number of changes is zero exactly when the mode stays as it was.
   */
  method UpdateMode(mode: bv16, noGf: bool, noHt: bool, ht20: bool, olbcHt: bool, wide: bool)
    returns (r: bv16, changes: nat)
    ensures r == Managed(mode, OperationMode(noGf, noHt, ht20, olbcHt, wide))
    ensures changes == 0 <==> r == mode
  {
    hide Set, Clear, Has, WithBit, OperationMode, Managed, Field;
    GfBitSurvives(mode, noGf, noHt || olbcHt);
    StepsAreIndependent(mode, noGf, noHt || olbcHt, ModeField(noGf, noHt, ht20, olbcHt, wide));
    StepsCombine(mode, noGf, noHt, ht20, olbcHt, wide);
    var more;
    r, changes := UpdateBit(mode, NON_GF_DEVS_PRESENT, noGf);
    r, more := UpdateBit(r, NON_HT_STA_PRESENT, noHt || olbcHt);
    changes := changes + more;
    var newMode := OP_MODE_PURE;
    if noHt || Has(r, NON_GF_DEVS_PRESENT) {
      newMode := OP_MODE_MIXED;
    } else if wide && ht20 {
      newMode := OP_MODE_20MHZ_HT_STA_ASSOCED;
    } else if olbcHt {
      newMode := OP_MODE_MAY_BE_LEGACY_STAS;
    }
    assert newMode == ModeField(noGf, noHt, ht20, olbcHt, wide);
    FieldFacts(r, newMode);
    if Field(r) != newMode {
      r := Set(Clear(r, OP_MODE_MASK), newMode);
      changes := changes + 1;
    }
  }

  lemma OperationModeIsManaged(noGf: bool, noHt: bool, ht20: bool, olbcHt: bool, wide: bool)
    ensures Unmanaged(OperationMode(noGf, noHt, ht20, olbcHt, wide)) == 0
  {
  }

  /** Nothing of a mode that had only managed bits survives an update. */
  lemma NothingSurvives(x: bv16, w: bv16)
    requires Unmanaged(x) == 0
    ensures Managed(x, w) == w
  {
  }

  /** The operation mode that counts call for. */
  function ModeFor(num: Counts, olbcHt: bool, wide: bool): bv16 {
    OperationMode(num.htNoGf != 0, num.noHt != 0, num.ht20Mhz != 0, olbcHt, wide)
  }

  lemma ModeBits(noGf: bool, noHt: bool, ht20: bool, olbcHt: bool, wide: bool)
    ensures var mode := OperationMode(noGf, noHt, ht20, olbcHt, wide);
            && (mode & 3 == 3 <==> noHt || noGf)
            && (mode & 3 == 2 <==> !noHt && !noGf && wide && ht20)
            && (mode & 3 == 1 <==> !noHt && !noGf && !(wide && ht20) && olbcHt)
            && (mode & 4 != 0 <==> noGf)
            && (mode & 16 != 0 <==> noHt || olbcHt)
            && mode & 0xffe8 == 0
  {
  }

  /**
   What the mode says, bit by bit. Field: mixed while a station without HT or without greenfield is counted, else 20 MHz
   stations on a wide channel, else overlapping legacy stations, else pure; one bit for stations without greenfield and
   one for those without HT, here or overlapping; and nothing else.
   */
  lemma ModeSays(num: Counts, olbcHt: bool, wide: bool)
    ensures var mode := ModeFor(num, olbcHt, wide);
            && (mode & 3 == 3 <==> num.noHt > 0 || num.htNoGf > 0)
            && (mode & 3 == 2 <==> num.noHt == 0 && num.htNoGf == 0 && wide && num.ht20Mhz > 0)
            && (mode & 3 == 1 <==> num.noHt == 0 && num.htNoGf == 0 && !(wide && num.ht20Mhz > 0) && olbcHt)
            && (mode & 4 != 0 <==> num.htNoGf > 0)
            && (mode & 16 != 0 <==> num.noHt > 0 || olbcHt)
            && mode & 0xffe8 == 0
  {
    hide OperationMode;
    ModeBits(num.htNoGf != 0, num.noHt != 0, num.ht20Mhz != 0, olbcHt, wide);
  }

  /** An update replaces bits 0, 1, 2 and 4 and leaves the others. */
  lemma ManagedBits(x: bv16, w: bv16)
    requires w & 0xffe8 == 0
    ensures Managed(x, w) & 0x17 == w & 0x17 && Managed(x, w) & 0xffe8 == x & 0xffe8
  {
  }

  /** One update keeps to the managed bits and forgets the mode before it. */
  lemma UpdateForgets(x: bv16, num: Counts, olbcHt: bool, wide: bool)
    requires Unmanaged(x) == 0
    ensures Managed(x, ModeFor(num, olbcHt, wide)) == ModeFor(num, olbcHt, wide)
    ensures Unmanaged(ModeFor(num, olbcHt, wide)) == 0
  {
    hide Unmanaged, Managed, OperationMode;
    NothingSurvives(x, ModeFor(num, olbcHt, wide));
    OperationModeIsManaged(num.htNoGf != 0, num.noHt != 0, num.ht20Mhz != 0, olbcHt, wide);
  }

  // ----- the ERP element

  /** Both bits, or neither. */
  predicate Announces(b: bv8, legacy: bool) {
    b & ERP_NON_ERP_AND_PROTECTION == if legacy then ERP_NON_ERP_AND_PROTECTION else 0
  }

  predicate SaysBarker(b: bv8) {
    b & ERP_BARKER != 0
  }

  function ErpByte(b: bv8, legacy: bool, barker: bool): (r: bv8)
    ensures Announces(r, legacy) && SaysBarker(r) == barker && r & 0xf8 == b & 0xf8
  {
    var d := if legacy then b | ERP_NON_ERP_AND_PROTECTION else b & !ERP_NON_ERP_AND_PROTECTION;
    if barker then d | ERP_BARKER else d & !ERP_BARKER
  }

  /** The count left zero or came back to it. */
  predicate Edge(before: Counts, after: Counts, m: Mark) {
    (before.Of(m) == 0) != (after.Of(m) == 0)
  }

  /** What a join or leave does to the ERP byte: nothing unless the first legacy station came or the last one went. */
  function ErpStep(before: Counts, after: Counts, erp: Option<bv8>): Option<bv8> {
    if erp.Some? && Edge(before, after, NonErp)
    then Some(ErpByte(erp.value, after.nonErp > 0, after.noShortPreamble > 0))
    else erp
  }

  /** Whether the beacon was updated, as a join or leave reports it. */
  predicate Reported(above11b: bool, before: Counts, after: Counts) {
    || Edge(before, after, NonErp)
    || (above11b && (Edge(before, after, NoShortPreamble) || Edge(before, after, NoShortSlotTime)))
  }

  /** When a join or leave reports an update: a count that matters reached or left zero. */
  lemma ReportedIff(above11b: bool, before: Counts, after: Counts)
    ensures Reported(above11b, before, after) <==>
              || (before.nonErp > 0) != (after.nonErp > 0)
              || (above11b && (before.noShortPreamble > 0) != (after.noShortPreamble > 0))
              || (above11b && (before.noShortSlotTime > 0) != (after.noShortSlotTime > 0))
  {
  }

  /**
   The bits are right: the beacon announces legacy stations and protection exactly while there are legacy stations.
   */
  predicate Tracks(num: Counts, erp: Option<bv8>) {
    erp.Some? ==> Announces(erp.value, num.nonErp > 0)
  }

  lemma EdgesSuffice(before: Counts, after: Counts, erp: Option<bv8>)
    requires Tracks(before, erp)
    ensures Tracks(after, ErpStep(before, after, erp))
  {
    hide Announces, ErpByte;
  }

  /** The Barker bit is right: it tells whether a station without short preamble is counted. */
  predicate BarkerRight(num: Counts, erp: Option<bv8>) {
    erp.Some? ==> SaysBarker(erp.value) == (num.noShortPreamble > 0)
  }

  /** From a right Barker bit, a step leaves it right exactly unless the short preamble count has an edge on its own. */
  lemma BarkerStaysRightIff(before: Counts, after: Counts, erp: Option<bv8>)
    requires erp.Some? && BarkerRight(before, erp)
    ensures BarkerRight(after, ErpStep(before, after, erp)) <==>
              Edge(before, after, NonErp) || !Edge(before, after, NoShortPreamble)
  {
    hide ErpByte, SaysBarker;
  }

  // ----- whole runs of joins and leaves

  /** The ERP byte after a run of counts, from the first of them on. */
  function ErpAfter(nums: seq<Counts>, erp: Option<bv8>): Option<bv8>
    requires nums != []
  {
    var last := |nums| - 1;
    if last == 0 then erp else ErpStep(nums[last - 1], nums[last], ErpAfter(nums[..last], erp))
  }

  /** The bits are right after every run, if they were before it. */
  lemma {:induction false} EdgesSufficeThroughout(nums: seq<Counts>, erp: Option<bv8>)
    requires nums != [] && Tracks(nums[0], erp)
    ensures Tracks(nums[|nums| - 1], ErpAfter(nums, erp))
  {
    hide Tracks, ErpStep;
    var last := |nums| - 1;
    if last > 0 {
      EdgesSufficeThroughout(nums[..last], erp);
      EdgesSuffice(nums[last - 1], nums[last], ErpAfter(nums[..last], erp));
    }
  }

  /** The last step of a run at which the legacy count had an edge; the start, when none had. */
  function LastEdge(nums: seq<Counts>): (k: nat)
    requires nums != []
    ensures k < |nums|
    ensures k > 0 ==> Edge(nums[k - 1], nums[k], NonErp)
    ensures forall j :: k < j < |nums| ==> !Edge(nums[j - 1], nums[j], NonErp)
  {
    var last := |nums| - 1;
    if last == 0 || Edge(nums[last - 1], nums[last], NonErp) then last else LastEdge(nums[..last])
  }

  /**
   Over a run, the Barker bit tells whether short preambles were missing at the last legacy edge, so it is right iff
   they still are.
   */
  lemma {:induction false} BarkerTellsLastEdge(nums: seq<Counts>, erp: Option<bv8>)
    requires nums != [] && erp.Some? && BarkerRight(nums[0], erp)
    ensures ErpAfter(nums, erp).Some?
    ensures SaysBarker(ErpAfter(nums, erp).value) == (nums[LastEdge(nums)].noShortPreamble > 0)
    ensures BarkerRight(nums[|nums| - 1], ErpAfter(nums, erp)) <==>
              (nums[LastEdge(nums)].noShortPreamble > 0) == (nums[|nums| - 1].noShortPreamble > 0)
  {
    hide SaysBarker, ErpByte;
    var last := |nums| - 1;
    if last > 0 {
      BarkerTellsLastEdge(nums[..last], erp);
    }
  }

  /** The operation mode after a run of updates, each for the counts and the overlap flag of its time. */
  function ModeAfter(nums: seq<Counts>, olbcHt: seq<bool>, wide: bool): bv16
    requires |nums| == |olbcHt|
  {
    if nums == [] then 0
    else
      var last := |nums| - 1;
      Managed(ModeAfter(nums[..last], olbcHt[..last], wide), ModeFor(nums[last], olbcHt[last], wide))
  }

  lemma NoBits()
    ensures Unmanaged(0) == 0
  {
  }

  /** History independence: from the start of the access point on, the mode is the one for the last counts. */
  lemma {:induction false} OnlyTheLastCounts(nums: seq<Counts>, olbcHt: seq<bool>, wide: bool)
    requires |nums| == |olbcHt| > 0
    ensures ModeAfter(nums, olbcHt, wide) == ModeFor(nums[|nums| - 1], olbcHt[|nums| - 1], wide)
  {
    hide Managed, ModeFor, Unmanaged;
    var last := |nums| - 1;
    if last == 0 {
      NoBits();
    } else {
      OnlyTheLastCounts(nums[..last], olbcHt[..last], wide);
      UpdateForgets(0, nums[last - 1], olbcHt[last - 1], wide) by { NoBits(); }
    }
    UpdateForgets(ModeAfter(nums[..last], olbcHt[..last], wide), nums[last], olbcHt[last], wide);
  }
}
