/** The interpreter of power-sequence tables (`HalPwrSeqCmd.c`). */
module PowerSequence {

  const READ := 0
  const WRITE := 1
  const POLLING := 2
  const DELAY := 3
  const END := 4
  const MAX_POLLING_CNT := 5000
  const DELAY_US: bv8 := 0
  const REGISTERS := 0x1_0000

  type Offset = o: int | 0 <= o < REGISTERS

  /** `WLAN_PWR_CFG` */
  datatype Cfg = Cfg(offset: Offset, cutMsk: bv8, fabMsk: bv8, intfMsk: bv8, cmd: nat, msk: bv8, value: bv8)

  datatype Chip = Chip(cut: bv8, fab: bv8, intf: bv8)

  predicate Overlap(x: bv8, y: bv8) {
    x & y != 0
  }

  predicate Matches(c: Cfg, chip: Chip) {
    Overlap(c.fabMsk, chip.fab) && Overlap(c.cutMsk, chip.cut) && Overlap(c.intfMsk, chip.intf)
  }

  function Masked(v: bv8, msk: bv8): bv8 {
    v & msk
  }

  function Merge(r: bv8, msk: bv8, value: bv8): bv8 {
    (r & !msk) | (value & msk)
  }

  /**
   What a read returns, from its number, the register, and what was last written there, which plain memory returns.
   */
  type Hardware = (nat, Offset, bv8) -> bv8

  function PlainMemory(): Hardware {
    (n: nat, o: Offset, v: bv8) => v
  }

  type Regs = r: seq<bv8> | |r| == REGISTERS witness seq(REGISTERS, _ => 0)

  /** Registers, reads so far, the polling count, and the microseconds spent waiting. */
  datatype Machine = Machine(regs: Regs, accesses: nat, polls: nat, waited: nat)

  function ReadAt(m: Machine, o: Offset, hw: Hardware): bv8 {
    hw(m.accesses, o, m.regs[o])
  }

  function AfterWrite(m: Machine, c: Cfg, hw: Hardware): Machine {
    m.(regs := m.regs[c.offset := Merge(ReadAt(m, c.offset, hw), c.msk, c.value)], accesses := m.accesses + 1)
  }

  function AfterDelay(m: Machine, c: Cfg): Machine {
    m.(waited := m.waited + if c.value == DELAY_US then c.offset else c.offset * 1000)
  }

  predicate Seen(m: Machine, c: Cfg, hw: Hardware) {
    Masked(ReadAt(m, c.offset, hw), c.msk) == Masked(c.value, c.msk)
  }

  /** One polling read: the count is checked after it and goes up whatever was read. */
  function AfterRead(m: Machine, c: Cfg, hw: Hardware): Machine {
    m.(accesses := m.accesses + 1, polls := m.polls + 1, waited := m.waited + if Seen(m, c, hw) then 0 else 10)
  }

  function Poll(m: Machine, c: Cfg, hw: Hardware): (Machine, bool)
    decreases MAX_POLLING_CNT + 1 - m.polls
  {
    if m.polls > MAX_POLLING_CNT then (AfterRead(m, c, hw), false)
    else if Seen(m, c, hw) then (AfterRead(m, c, hw), true)
    else Poll(AfterRead(m, c, hw), c, hw)
  }

  /** One command that matches and does not end the table. */
  function Execute(m: Machine, c: Cfg, hw: Hardware): (Machine, bool) {
    if c.cmd == WRITE then (AfterWrite(m, c, hw), true)
    else if c.cmd == POLLING then Poll(m, c, hw)
    else if c.cmd == DELAY then (AfterDelay(m, c), true)
    else (m, true)
  }

  predicate Ends(c: Cfg, chip: Chip) {
    Matches(c, chip) && c.cmd == END
  }

  /** A table is only meant for chips for which it has an end: otherwise the interpreter runs past it. */
  ghost predicate HasEnd(table: seq<Cfg>, chip: Chip) {
    exists k :: 0 <= k < |table| && Ends(table[k], chip)
  }

  lemma HasEndLater(table: seq<Cfg>, chip: Chip)
    requires HasEnd(table, chip)
    ensures table != [] && (!Ends(table[0], chip) ==> HasEnd(table[1..], chip))
  {
    var k :| 0 <= k < |table| && Ends(table[k], chip);
    if k > 0 { assert table[1..][k - 1] == table[k]; }
  }

  /** The effect of a table: the machine afterwards, and whether it was run to its end. */
  function Interpret(table: seq<Cfg>, m: Machine, chip: Chip, hw: Hardware): (Machine, bool)
    decreases |table|
  {
    if table == [] || Ends(table[0], chip) then (m, true)
    else if !Matches(table[0], chip) then Interpret(table[1..], m, chip, hw)
    else
      var (n, ok) := Execute(m, table[0], hw);
      if ok then Interpret(table[1..], n, chip, hw) else (n, false)
  }

  class Adapter {
    const regs: array<bv8>
    const hw: Hardware
    var accesses: nat
    var waited: nat

    constructor (hw: Hardware)
      ensures this.hw == hw && regs.Length == REGISTERS && fresh(regs) && accesses == 0 && waited == 0
    {
      this.hw, regs, accesses, waited := hw, new bv8[REGISTERS], 0, 0;
    }

    function Snapshot(polls: nat): Machine
      requires regs.Length == REGISTERS
      reads this, regs
    {
      Machine(regs[..], accesses, polls, waited)
    }

    method Read8(o: Offset) returns (v: bv8)
      requires regs.Length == REGISTERS
      modifies this`accesses
      ensures v == hw(old(accesses), o, regs[o]) && accesses == old(accesses) + 1
    {
      v := hw(accesses, o, regs[o]);
      accesses := accesses + 1;
    }

    method WriteMasked(c: Cfg, ghost polls: nat)
      requires regs.Length == REGISTERS
      modifies this`accesses, regs
      ensures Snapshot(polls) == AfterWrite(old(Snapshot(polls)), c, hw)
    {
      hide Merge;
      ghost var before := regs[..];
      var value := Read8(c.offset);
      regs[c.offset] := Merge(value, c.msk, c.value);
      assert regs[..] == before[c.offset := Merge(value, c.msk, c.value)];
    }

    method PollBit(c: Cfg, count: nat) returns (pollingCount: nat, ok: bool)
      requires regs.Length == REGISTERS
      modifies this`accesses, this`waited
      ensures (Snapshot(pollingCount), ok) == Poll(old(Snapshot(count)), c, hw)
    {
      hide Masked;
      pollingCount := count;
      var pollingBit := false;
      while !pollingBit
        invariant !pollingBit ==> Poll(Snapshot(pollingCount), c, hw) == Poll(old(Snapshot(count)), c, hw)
        invariant pollingBit ==> (Snapshot(pollingCount), true) == Poll(old(Snapshot(count)), c, hw)
        decreases !pollingBit, MAX_POLLING_CNT + 2 - pollingCount
      {
        ghost var m := Snapshot(pollingCount);
        var value := Read8(c.offset);
        if Masked(value, c.msk) == Masked(c.value, c.msk) {
          pollingBit := true;
        } else {
          waited := waited + 10;
        }
        pollingCount := pollingCount + 1;
        assert Snapshot(pollingCount) == AfterRead(m, c, hw);
        if pollingCount - 1 > MAX_POLLING_CNT {
          return pollingCount, false;
        }
      }
      ok := true;
    }

    /** `HalPwrSeqCmdParsing` */
    method HalPwrSeqCmdParsing(chip: Chip, table: seq<Cfg>) returns (ok: bool, ghost polls: nat)
      requires regs.Length == REGISTERS && HasEnd(table, chip)
      modifies this, regs
      ensures (Snapshot(polls), ok) == Interpret(table, old(Snapshot(0)), chip, hw)
    {
      hide Matches, HasEnd, Poll, AfterWrite;
      var pollingCount, i := 0, 0;
      assert table[0..] == table;
      while true
        invariant 0 <= i <= |table| && HasEnd(table[i..], chip)
        invariant Interpret(table[i..], Snapshot(pollingCount), chip, hw) ==
                  Interpret(table, old(Snapshot(0)), chip, hw)
        decreases |table| - i
      {
        HasEndLater(table[i..], chip);
        assert table[i..][1..] == table[i + 1..];
        var c := table[i];
        if Matches(c, chip) {
          if c.cmd == WRITE {
            WriteMasked(c, pollingCount);
          } else if c.cmd == POLLING {
            pollingCount, ok := PollBit(c, pollingCount);
            if !ok { return false, pollingCount; }
          } else if c.cmd == DELAY {
            waited := waited + if c.value == DELAY_US then c.offset else c.offset * 1000;
          } else if c.cmd == END {
            return true, pollingCount;
          }
        }
        i := i + 1;
      }
    }
  }

  // ----- tables

  function ForChip(table: seq<Cfg>, chip: Chip): seq<Cfg> {
    if table == [] then []
    else (if Matches(table[0], chip) then [table[0]] else []) + ForChip(table[1..], chip)
  }

  /** A table does to a chip what the commands meant for that chip do. */
  lemma {:induction false} OnlyMatchingCount(table: seq<Cfg>, m: Machine, chip: Chip, hw: Hardware)
    ensures Interpret(ForChip(table, chip), m, chip, hw) == Interpret(table, m, chip, hw)
  {
    hide Matches, Execute;
    if table != [] {
      var rest := ForChip(table[1..], chip);
      assert ForChip(table, chip) == if Matches(table[0], chip) then [table[0]] + rest else rest;
      assert Matches(table[0], chip) ==> ForChip(table, chip)[1..] == rest;
      var (n, ok) := Execute(m, table[0], hw);
      OnlyMatchingCount(table[1..], m, chip, hw);
      OnlyMatchingCount(table[1..], n, chip, hw);
    }
  }

  lemma {:induction false} PollCounts(m: Machine, c: Cfg, hw: Hardware)
    requires m.polls <= MAX_POLLING_CNT + 1
    ensures var (n, ok) := Poll(m, c, hw);
            && n.regs == m.regs && m.polls < n.polls <= MAX_POLLING_CNT + 2
            && (ok <==> n.polls <= MAX_POLLING_CNT + 1)
            && n.accesses == m.accesses + n.polls - m.polls
    decreases MAX_POLLING_CNT + 1 - m.polls
  {
    if m.polls <= MAX_POLLING_CNT && !Seen(m, c, hw) {
      PollCounts(AfterRead(m, c, hw), c, hw);
    }
  }

  /**
   The polling budget is one for the whole table, never reset: at most 5002 polling reads altogether, and the run fails
   exactly when it makes all of them.
   */
  lemma {:induction false} PollingIsBounded(table: seq<Cfg>, m: Machine, chip: Chip, hw: Hardware)
    requires m.polls <= MAX_POLLING_CNT + 1
    ensures var (n, ok) := Interpret(table, m, chip, hw);
            && m.polls <= n.polls <= MAX_POLLING_CNT + 2
            && (!ok <==> n.polls == MAX_POLLING_CNT + 2)
  {
    hide Matches, Poll;
    if table != [] && !Ends(table[0], chip) {
      if Matches(table[0], chip) {
        if table[0].cmd == POLLING {
          PollCounts(m, table[0], hw);
        }
        var (n, ok) := Execute(m, table[0], hw);
        if ok {
          PollingIsBounded(table[1..], n, chip, hw);
        }
      } else {
        PollingIsBounded(table[1..], m, chip, hw);
      }
    }
  }

  predicate IsBit(b: bv8) {
    b == 1 || b == 2 || b == 4 || b == 8 || b == 16 || b == 32 || b == 64 || b == 128
  }

  ghost predicate SharesBit(x: bv8, y: bv8) {
    exists b: bv8 :: IsBit(b) && Masked(x, b) != 0 && Masked(y, b) != 0
  }

  lemma BitOf(z: bv8) returns (b: bv8)
    requires z != 0
    ensures IsBit(b) && z & b != 0
  {
    b := if z & 1 != 0 then 1 else if z & 2 != 0 then 2 else if z & 4 != 0 then 4 else if z & 8 != 0 then 8
         else if z & 16 != 0 then 16 else if z & 32 != 0 then 32 else if z & 64 != 0 then 64 else 128;
  }

  lemma BitInBoth(x: bv8, y: bv8, b: bv8)
    requires IsBit(b) && Masked(x, b) != 0 && Masked(y, b) != 0
    ensures x & y != 0
  {
  }

  lemma CommonBit(x: bv8, y: bv8)
    ensures Overlap(x, y) <==> SharesBit(x, y)
  {
    if x & y != 0 {
      var b := BitOf(x & y);
      assert IsBit(b) && Masked(x, b) != 0 && Masked(y, b) != 0;
    }
    if b: bv8 :| IsBit(b) && Masked(x, b) != 0 && Masked(y, b) != 0 {
      BitInBoth(x, y, b);
    }
  }

  /** A command is meant for a chip if each of its three masks has a bit of what the chip is. */
  lemma MatchesIff(c: Cfg, chip: Chip)
    ensures Matches(c, chip) <==>
              SharesBit(c.fabMsk, chip.fab) && SharesBit(c.cutMsk, chip.cut) && SharesBit(c.intfMsk, chip.intf)
  {
    hide SharesBit, Overlap;
    CommonBit(c.fabMsk, chip.fab);
    CommonBit(c.cutMsk, chip.cut);
    CommonBit(c.intfMsk, chip.intf);
  }

  // ----- on plain memory

  predicate Covers(c: Cfg, o: Offset, bit: bv8) {
    c.cmd == WRITE && c.offset == o && Masked(c.msk, bit) != 0
  }

  /** The bit as the last command that writes it leaves it. */
  function LastWritten(cmds: seq<Cfg>, o: Offset, bit: bv8, initial: bv8): bv8 {
    if cmds == [] then Masked(initial, bit)
    else
      var c := cmds[|cmds| - 1];
      if Covers(c, o, bit) then Masked(c.value, bit) else LastWritten(cmds[..|cmds| - 1], o, bit, initial)
  }

  /** The commands a chip executes: those that match, up to the first end. */
  function Executed(table: seq<Cfg>, chip: Chip): seq<Cfg> {
    if table == [] || Ends(table[0], chip) then []
    else (if Matches(table[0], chip) then [table[0]] else []) + Executed(table[1..], chip)
  }

  lemma AllOrNothing(msk: bv8, bit: bv8)
    requires IsBit(bit)
    ensures Masked(msk, bit) == bit || Masked(msk, bit) == 0
    ensures bit != 0
  {
  }

  lemma CoveredBit(r: bv8, msk: bv8, value: bv8, bit: bv8)
    requires Masked(msk, bit) == bit
    ensures Masked(Merge(r, msk, value), bit) == Masked(value, bit)
  {
  }

  lemma UncoveredBit(r: bv8, msk: bv8, value: bv8, bit: bv8)
    requires Masked(msk, bit) == 0
    ensures Masked(Merge(r, msk, value), bit) == Masked(r, bit)
  {
  }

  lemma MergedBit(r: bv8, msk: bv8, value: bv8, bit: bv8)
    requires IsBit(bit)
    ensures Masked(Merge(r, msk, value), bit) == if Masked(msk, bit) != 0 then Masked(value, bit) else Masked(r, bit)
  {
    hide Merge, Masked, IsBit;
    AllOrNothing(msk, bit);
    if Masked(msk, bit) == bit {
      CoveredBit(r, msk, value, bit);
    } else {
      UncoveredBit(r, msk, value, bit);
    }
  }

  lemma {:induction false} LastWrittenCons(c: Cfg, cmds: seq<Cfg>, o: Offset, bit: bv8, initial: bv8, next: bv8)
    requires Masked(next, bit) == if Covers(c, o, bit) then Masked(c.value, bit) else Masked(initial, bit)
    ensures LastWritten([c] + cmds, o, bit, initial) == LastWritten(cmds, o, bit, next)
  {
    hide Masked, Covers;
    var all := [c] + cmds;
    if cmds == [] {
      assert all[..0] == [] && all[0] == c;
    } else {
      assert all[..|all| - 1] == [c] + cmds[..|cmds| - 1];
      LastWrittenCons(c, cmds[..|cmds| - 1], o, bit, initial, next);
    }
  }

  lemma ExecutedBit(m: Machine, c: Cfg, o: Offset, bit: bv8)
    requires IsBit(bit) && m.polls <= MAX_POLLING_CNT + 1
    ensures Masked(Execute(m, c, PlainMemory()).0.regs[o], bit) ==
            if Covers(c, o, bit) then Masked(c.value, bit) else Masked(m.regs[o], bit)
  {
    hide Masked, Merge, Poll, IsBit;
    if c.cmd == POLLING {
      PollCounts(m, c, PlainMemory());
    }
    MergedBit(m.regs[o], c.msk, c.value, bit);
  }

  lemma ExecuteCounts(m: Machine, c: Cfg)
    requires m.polls <= MAX_POLLING_CNT + 1
    ensures Execute(m, c, PlainMemory()).1 ==> Execute(m, c, PlainMemory()).0.polls <= MAX_POLLING_CNT + 1
  {
    hide Poll, Masked, Merge;
    if c.cmd == POLLING {
      PollCounts(m, c, PlainMemory());
    }
  }

  /**
   On plain memory, a run that succeeds leaves every bit of every register as the last executed write whose mask covers
   it sets it, or as it was when none does.
   */
  lemma {:induction false} LastWriteWins(table: seq<Cfg>, m: Machine, chip: Chip, o: Offset, bit: bv8)
    requires IsBit(bit) && m.polls <= MAX_POLLING_CNT + 1
    requires Interpret(table, m, chip, PlainMemory()).1
    ensures Masked(Interpret(table, m, chip, PlainMemory()).0.regs[o], bit) ==
            LastWritten(Executed(table, chip), o, bit, m.regs[o])
  {
    hide Masked, Matches, Execute, Covers, IsBit;
    if table != [] && !Ends(table[0], chip) {
      var c, rest := table[0], Executed(table[1..], chip);
      if Matches(c, chip) {
        var n := Execute(m, c, PlainMemory()).0;
        ExecutedBit(m, c, o, bit);
        ExecuteCounts(m, c);
        LastWriteWins(table[1..], n, chip, o, bit);
        LastWrittenCons(c, rest, o, bit, m.regs[o], n.regs[o]);
      } else {
        assert Executed(table, chip) == rest;
        LastWriteWins(table[1..], m, chip, o, bit);
      }
    }
  }

  /** Every poll finds its value in what the commands before it have written. */
  predicate AllSeen(cmds: seq<Cfg>, regs: Regs) {
    cmds == [] ||
    var c := cmds[0];
    && (c.cmd == POLLING ==> Masked(regs[c.offset], c.msk) == Masked(c.value, c.msk))
    && AllSeen(cmds[1..], if c.cmd == WRITE then regs[c.offset := Merge(regs[c.offset], c.msk, c.value)] else regs)
  }

  function Polls(cmds: seq<Cfg>): nat {
    if cmds == [] then 0 else (if cmds[0].cmd == POLLING then 1 else 0) + Polls(cmds[1..])
  }

  lemma {:induction false} PollOnPlainMemory(m: Machine, c: Cfg)
    requires m.polls <= MAX_POLLING_CNT + 1
    ensures Poll(m, c, PlainMemory()).1 <==> Seen(m, c, PlainMemory()) && m.polls <= MAX_POLLING_CNT
    ensures Poll(m, c, PlainMemory()).1 ==> Poll(m, c, PlainMemory()).0.polls == m.polls + 1
    decreases MAX_POLLING_CNT + 1 - m.polls
  {
    if m.polls <= MAX_POLLING_CNT && !Seen(m, c, PlainMemory()) {
      PollOnPlainMemory(AfterRead(m, c, PlainMemory()), c);
    }
  }

  /** On plain memory a table succeeds exactly when all its polls do at once and there are at most 5001 of them. */
  lemma {:induction false} SucceedsIff(table: seq<Cfg>, m: Machine, chip: Chip)
    requires m.polls <= MAX_POLLING_CNT + 1
    ensures Interpret(table, m, chip, PlainMemory()).1 <==>
              AllSeen(Executed(table, chip), m.regs) && m.polls + Polls(Executed(table, chip)) <= MAX_POLLING_CNT + 1
  {
    hide Masked, Merge, Matches, Poll;
    if table != [] && !Ends(table[0], chip) {
      var c, rest := table[0], Executed(table[1..], chip);
      if Matches(c, chip) {
        assert Executed(table, chip) == [c] + rest && ([c] + rest)[1..] == rest;
        var (n, ok) := Execute(m, c, PlainMemory());
        if c.cmd == POLLING {
          PollOnPlainMemory(m, c);
          PollCounts(m, c, PlainMemory());
        }
        if ok {
          SucceedsIff(table[1..], n, chip);
        }
      } else {
        assert Executed(table, chip) == rest;
        SucceedsIff(table[1..], m, chip);
      }
    }
  }

  /**
   The microseconds that the delays among some commands take: as many as the offset says, or a thousand times that.
   */
  function Delays(cmds: seq<Cfg>): nat {
    if cmds == [] then 0
    else (if cmds[0].cmd != 3 then 0 else if cmds[0].value == 0 then cmds[0].offset else 1000 * cmds[0].offset)
         + Delays(cmds[1..])
  }

  function Accesses(cmds: seq<Cfg>): nat {
    if cmds == [] then 0 else (if cmds[0].cmd == 1 || cmds[0].cmd == 2 then 1 else 0) + Accesses(cmds[1..])
  }

  lemma ExecuteCosts(m: Machine, c: Cfg)
    requires m.polls <= MAX_POLLING_CNT + 1 && Execute(m, c, PlainMemory()).1
    ensures var n := Execute(m, c, PlainMemory()).0;
            && n.waited == m.waited + Delays([c]) && n.accesses == m.accesses + Accesses([c])
            && n.polls <= MAX_POLLING_CNT + 1
  {
    hide Masked, Merge;
    ExecuteCounts(m, c);
    assert [c][1..] == [];
    if c.cmd == POLLING {
      PollOnPlainMemory(m, c);
      assert Poll(m, c, PlainMemory()).0 == AfterRead(m, c, PlainMemory());
    }
  }

  /**
   What a successful run on plain memory costs: its delays and nothing else to wait, one read for each write and poll.
   */
  lemma {:induction false} RunCosts(table: seq<Cfg>, m: Machine, chip: Chip)
    requires m.polls <= MAX_POLLING_CNT + 1 && Interpret(table, m, chip, PlainMemory()).1
    ensures var n, cmds := Interpret(table, m, chip, PlainMemory()).0, Executed(table, chip);
            n.waited == m.waited + Delays(cmds) && n.accesses == m.accesses + Accesses(cmds)
  {
    hide Masked, Matches, Execute;
    if table != [] && !Ends(table[0], chip) {
      var c, rest := table[0], Executed(table[1..], chip);
      if Matches(c, chip) {
        assert Executed(table, chip) == [c] + rest && ([c] + rest)[1..] == rest && [c][1..] == [];
        ExecuteCosts(m, c);
        RunCosts(table[1..], Execute(m, c, PlainMemory()).0, chip);
      } else {
        assert Executed(table, chip) == rest;
        RunCosts(table[1..], m, chip);
      }
    }
  }

  /**
   Polling waits ten microseconds for each read that does not show the value, so for all but the last if that does.
   */
  lemma {:induction false} PollWaits(m: Machine, c: Cfg, hw: Hardware)
    requires m.polls <= MAX_POLLING_CNT + 1
    ensures var (n, ok) := Poll(m, c, hw);
            && m.polls < n.polls
            && (ok ==> n.waited == m.waited + 10 * (n.polls - m.polls - 1))
            && (!ok ==> m.waited + 10 * (n.polls - m.polls - 1) <= n.waited <= m.waited + 10 * (n.polls - m.polls))
    decreases MAX_POLLING_CNT + 1 - m.polls
  {
    if m.polls <= MAX_POLLING_CNT && !Seen(m, c, hw) {
      PollWaits(AfterRead(m, c, hw), c, hw);
    }
  }

  /** A matching command with code 4 ends a table: what comes behind it makes no difference. */
  lemma {:induction false} EndCutsOff(pre: seq<Cfg>, c: Cfg, post: seq<Cfg>, m: Machine, chip: Chip, hw: Hardware)
    requires Matches(c, chip) && c.cmd == 4
    ensures Interpret(pre + [c] + post, m, chip, hw) == Interpret(pre, m, chip, hw)
    decreases |pre|
  {
    hide Matches, Execute;
    if pre == [] {
      assert (pre + [c] + post)[0] == c;
    } else {
      assert (pre + [c] + post)[1..] == pre[1..] + [c] + post;
      var (n, ok) := Execute(m, pre[0], hw);
      EndCutsOff(pre[1..], c, post, m, chip, hw);
      EndCutsOff(pre[1..], c, post, n, chip, hw);
    }
  }

  /** And nothing else does: without such a command every matching one is executed. */
  lemma {:induction false} NothingElseEnds(table: seq<Cfg>, chip: Chip)
    requires forall k :: 0 <= k < |table| && Matches(table[k], chip) ==> table[k].cmd != 4
    ensures Executed(table, chip) == ForChip(table, chip)
  {
    hide Matches;
    if table != [] {
      assert forall k :: 0 <= k < |table| - 1 ==> table[1..][k] == table[k + 1];
      NothingElseEnds(table[1..], chip);
    }
  }
}
