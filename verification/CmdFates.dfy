/**
 What becomes of each command over a whole schedule: which step of it frees, issues, hands over or leaks the command.
 */
module CmdFates {
  import opened Bytes
  import opened CmdMachine
  import opened CmdRuns

  /** What one step can do to a command. */
  datatype Deed = Refused | Dropped | Rejected | Issued | Drained | Released | HandedOver | Leaked

  predicate HasCallback(c: Cmd) {
    c.code in {2, 4, 14, 15, 16, 18, 21, 22}
  }

  /**
   The filter lets everything through once the hardware is up, before that next to nothing, and nothing after the end.
   */
  predicate MayRun(s: State, c: Cmd) {
    if !s.running then false
    else if s.env.hwInitCompleted then true
    else c.code == 59 || (c.code == 57 && s.env.pinDetect && c.powerSaving)
  }

  predicate Does(d: Deed, s: State, e: Event, c: Cmd) {
    match d
    case Refused => e == Submit(c) && !MayRun(s, c)
    case Dropped => e.Thread? && s.pc == Filter(c) && !MayRun(s, c)
    case Rejected => e.Thread? && s.pc == FilterAgain(c) && !MayRun(s, c)
    case Issued => e.Thread? && s.pc == FilterAgain(c) && MayRun(s, c)
    case Drained => e.Thread? && s.pc.Drain? && s.queue != [] && s.queue[0] == c
    case Released => e.Thread? && s.pc == PostProcess(c) && c.code < 63 && !HasCallback(c)
    case HandedOver => e.Thread? && s.pc == PostProcess(c) && HasCallback(c)
    case Leaked => e.Thread? && s.pc == PostProcess(c) && c.code > 63
  }

  lemma PassesIff(s: State, c: Cmd)
    ensures Passes(s.env, s.running, c) <==> MayRun(s, c)
  {
  }

  predicate FreedBy(s: State, e: Event, c: Cmd) {
    Does(Refused, s, e, c) || Does(Rejected, s, e, c) || Does(Drained, s, e, c) || Does(Released, s, e, c)
  }

  function Count(b: bool): nat {
    if b then 1 else 0
  }

  /** The ledger entries of one command before and after a step that does to it what `s` and `e` say. */
  predicate Booked(l: Ledger, m: Ledger, s: State, e: Event, c: Cmd) {
    && m.freed[c] == l.freed[c] + Count(FreedBy(s, e, c))
    && m.issued[c] == l.issued[c] + Count(Does(Issued, s, e, c))
    && m.handed[c] == l.handed[c] + Count(Does(HandedOver, s, e, c))
    && m.leaked[c] == l.leaked[c] + Count(Does(Leaked, s, e, c))
  }

  lemma FreeBooks(l: Ledger, cmd: Cmd, c: Cmd)
    ensures var m := Free(l, cmd);
            && m.freed[c] == l.freed[c] + Count(c == cmd)
            && m.issued == l.issued && m.handed == l.handed && m.leaked == l.leaked
  {
  }

  lemma DisposeBooks(l: Ledger, cmd: Cmd, c: Cmd)
    ensures var m := Dispose(l, cmd);
            && m.issued == l.issued
            && m.freed[c] == l.freed[c] + Count(c == cmd && c.code <= 63 && !HasCallback(c))
            && m.handed[c] == l.handed[c] + Count(c == cmd && c.code <= 63 && HasCallback(c))
            && m.leaked[c] == l.leaked[c] + Count(c == cmd && c.code > 63)
  {
  }

  lemma FilterAgainBooks(s: State, cmd: Cmd, c: Cmd)
    requires s.pc == FilterAgain(cmd)
    ensures Booked(s.ledger, ThreadStep(s).ledger, s, Thread, c)
  {
    hide Passes, Free, MayRun;
    PassesIff(s, cmd);
    FreeBooks(s.ledger, cmd, c);
  }

  lemma PostProcessBooks(s: State, cmd: Cmd, c: Cmd)
    requires s.pc == PostProcess(cmd) && c.code != TABLE_LENGTH
    ensures Booked(s.ledger, ThreadStep(s).ledger, s, Thread, c)
  {
    hide Dispose, MayRun;
    DisposeBooks(s.ledger, cmd, c);
  }

  lemma DrainBooks(s: State, c: Cmd)
    requires s.pc.Drain?
    ensures Booked(s.ledger, ThreadStep(s).ledger, s, Thread, c)
  {
    hide Free, MayRun;
    if s.queue != [] {
      FreeBooks(Dequeue(s, Drain).ledger, s.queue[0], c);
    }
  }

  lemma OthersBook(s: State, c: Cmd)
    requires Enabled(s, Thread) && !s.pc.FilterAgain? && !s.pc.PostProcess? && !s.pc.Drain?
    ensures Booked(s.ledger, ThreadStep(s).ledger, s, Thread, c)
  {
    hide Passes, MayRun;
    if !s.pc.Next? {
      Moves(s);
    }
  }

  lemma ThreadBooks(s: State, c: Cmd)
    requires Enabled(s, Thread) && c.code != TABLE_LENGTH
    ensures Booked(s.ledger, ThreadStep(s).ledger, s, Thread, c)
  {
    hide Booked, ThreadStep;
    match s.pc
    case FilterAgain(cmd) => FilterAgainBooks(s, cmd, c);
    case PostProcess(cmd) => PostProcessBooks(s, cmd, c);
    case Drain => DrainBooks(s, c);
    case _ => OthersBook(s, c);
  }

  lemma SubmitBooks(s: State, cmd: Cmd, c: Cmd)
    requires Enabled(s, Submit(cmd))
    ensures Booked(s.ledger, Step(s, Submit(cmd)).ledger, s, Submit(cmd), c)
  {
    hide Passes, Free, MayRun, ThreadStep;
    PassesIff(s, cmd);
    FreeBooks(s.ledger.(submitted := s.ledger.submitted + multiset{cmd}), cmd, c);
  }

  lemma LedgerOfOthers(s: State, e: Event)
    requires Enabled(s, e) && !e.Submit? && !e.Thread?
    ensures var l, m := s.ledger, Step(s, e).ledger;
            m.freed == l.freed && m.issued == l.issued && m.handed == l.handed && m.leaked == l.leaked
  {
    hide ThreadStep, Free, Passes;
  }

  lemma OtherEventBooks(s: State, e: Event, c: Cmd)
    requires Enabled(s, e) && !e.Submit? && !e.Thread?
    ensures Booked(s.ledger, Step(s, e).ledger, s, e, c)
  {
    hide ThreadStep, MayRun, Free, Dequeue, Enabled, HasCallback;
    LedgerOfOthers(s, e);
  }

  /** Each step does exactly what the ledger books. */
  lemma StepBooks(s: State, e: Event, c: Cmd)
    requires Enabled(s, e) && c.code != TABLE_LENGTH
    ensures Booked(s.ledger, Step(s, e).ledger, s, e, c)
  {
    hide Booked, ThreadStep;
    match e
    case Submit(cmd) => SubmitBooks(s, cmd, c);
    case Thread => ThreadBooks(s, c);
    case _ => OtherEventBooks(s, e, c);
  }

  predicate DidAt(d: Deed, env: Env, schedule: seq<Event>, c: Cmd, i: nat)
    requires i < |schedule|
  {
    var before := Exec(Initial(env), schedule[..i]);
    before.Some? && Does(d, before.value, schedule[i], c)
  }

  /** At some step of the schedule it was done. */
  ghost predicate Did(d: Deed, env: Env, schedule: seq<Event>, c: Cmd) {
    exists i :: 0 <= i < |schedule| && DidAt(d, env, schedule, c, i)
  }

  lemma DidMore(d: Deed, env: Env, schedule: seq<Event>, c: Cmd, s: State)
    requires schedule != [] && Exec(Initial(env), schedule[..|schedule| - 1]) == Some(s)
    ensures Did(d, env, schedule, c) <==>
              Did(d, env, schedule[..|schedule| - 1], c) || Does(d, s, schedule[|schedule| - 1], c)
  {
    hide Does, Exec;
    var last := |schedule| - 1;
    var earlier := schedule[..last];
    forall i | 0 <= i < last ensures DidAt(d, env, earlier, c, i) <==> DidAt(d, env, schedule, c, i) {
      assert earlier[..i] == schedule[..i];
    }
    assert DidAt(d, env, schedule, c, last) <==> Does(d, s, schedule[last], c);
  }

  lemma NothingDone(env: Env, c: Cmd)
    ensures forall d :: !Did(d, env, [], c)
    ensures var l := Initial(env).ledger; l.freed[c] == l.issued[c] == l.handed[c] == l.leaked[c] == 0
  {
  }

  /** The ledger after a schedule, told by what was done during it. */
  lemma {:induction false} LedgerTells(s: State, env: Env, schedule: seq<Event>, c: Cmd)
    requires Reachable(s, env, schedule) && c.code != TABLE_LENGTH
    ensures s.ledger.freed[c] > 0 <==>
              || Did(Refused, env, schedule, c) || Did(Rejected, env, schedule, c)
              || Did(Drained, env, schedule, c) || Did(Released, env, schedule, c)
    ensures s.ledger.issued[c] > 0 <==> Did(Issued, env, schedule, c)
    ensures s.ledger.handed[c] > 0 <==> Did(HandedOver, env, schedule, c)
    ensures s.ledger.leaked[c] > 0 <==> Did(Leaked, env, schedule, c)
    decreases |schedule|
  {
    hide Step, Enabled, Does, Did, Initial;
    if schedule == [] {
      NothingDone(env, c);
    } else {
      var last := |schedule| - 1;
      var before := Exec(Initial(env), schedule[..last]).value;
      LedgerTells(before, env, schedule[..last], c);
      StepBooks(before, schedule[last], c);
      forall d ensures Did(d, env, schedule, c) <==>
                         Did(d, env, schedule[..last], c) || Does(d, before, schedule[last], c) {
        DidMore(d, env, schedule, c, before);
      }
    }
  }

  lemma NotReleased(env: Env, schedule: seq<Event>, c: Cmd)
    requires HasCallback(c)
    ensures !Did(Released, env, schedule, c)
  {
    hide Exec;
  }

  /**
   A command with a callback gets to it: once it is nowhere on its way, it was handed over unless it was refused when it
   was submitted, rejected by the second filter, or drained when the thread left.
   */
  lemma CallbackGetsIt(s: State, env: Env, schedule: seq<Event>, c: Cmd)
    requires Reachable(s, env, schedule) && c in s.ledger.submitted && HasCallback(c)
    requires c !in s.passed && c !in s.queue && c !in InHand(s.pc)
    ensures s.ledger.handed[c] == 1 <==>
              !(Did(Refused, env, schedule, c) || Did(Rejected, env, schedule, c) || Did(Drained, env, schedule, c))
  {
    hide Reachable, Did;
    LedgerTells(s, env, schedule, c);
    DisposedExactlyOnce(s, env, schedule, c);
    NotReleased(env, schedule, c);
  }

  // ----- handlers

  /** The command whose handler has been dealt with but which is not disposed of yet. */
  function PastHandler(pc: Pc): multiset<Cmd> {
    if pc.PostProcess? then multiset{pc.cmd} else multiset{}
  }

  lemma FreeSettles(l: Ledger, cmd: Cmd)
    ensures Free(l, cmd).issued == l.issued && Settled(l) <= Settled(Free(l, cmd))
  {
  }

  predicate IssuedSettles(s: State) {
    s.ledger.issued <= Settled(s.ledger) + PastHandler(s.pc)
  }

  lemma IssueSettles(s: State, cmd: Cmd)
    requires s.pc == FilterAgain(cmd) && IssuedSettles(s)
    ensures IssuedSettles(ThreadStep(s))
  {
    hide Passes, Free, Settled;
    FreeSettles(s.ledger, cmd);
    SettledIgnores(s.ledger, s.ledger.(issued := s.ledger.issued + multiset{cmd}));
  }

  lemma DisposalSettles(s: State, cmd: Cmd)
    requires s.pc == PostProcess(cmd) && IssuedSettles(s)
    ensures IssuedSettles(ThreadStep(s))
  {
    hide Dispose, Settled;
    DisposeSettles(s.ledger, cmd);
    DisposeBooks(s.ledger, cmd, cmd);
  }

  lemma TakingSettles(s: State)
    requires (s.pc.Next? || s.pc.Drain?) && IssuedSettles(s)
    ensures IssuedSettles(ThreadStep(s))
  {
    hide Free, Settled;
    if s.queue != [] {
      var l := s.ledger.(dequeued := s.ledger.dequeued + [s.queue[0]]);
      SettledIgnores(s.ledger, l);
      FreeSettles(l, s.queue[0]);
    }
    SettledIgnores(s.ledger, s.ledger.(doneAt := |s.ledger.inserted|));
  }

  lemma MovingSettles(s: State)
    requires Enabled(s, Thread) && IssuedSettles(s)
    requires s.pc.Start? || s.pc.Waiting? || s.pc.Woken? || s.pc.Filter? || s.pc.Leaving?
    ensures IssuedSettles(ThreadStep(s))
  {
    hide ThreadStep, Settled;
    Moves(s);
  }

  lemma ThreadKeepsIssued(s: State)
    requires Enabled(s, Thread) && IssuedSettles(s)
    ensures IssuedSettles(ThreadStep(s))
  {
    hide IssuedSettles, ThreadStep;
    match s.pc
    case FilterAgain(cmd) => IssueSettles(s, cmd);
    case PostProcess(cmd) => DisposalSettles(s, cmd);
    case Drain => TakingSettles(s);
    case Next => TakingSettles(s);
    case _ => MovingSettles(s);
  }

  lemma StepKeepsIssued(s: State, e: Event)
    requires Enabled(s, e) && IssuedSettles(s)
    ensures IssuedSettles(Step(s, e))
  {
    hide Passes, ThreadStep, Free, Settled;
    match e
    case Submit(cmd) =>
      var l := s.ledger.(submitted := s.ledger.submitted + multiset{cmd});
      SettledIgnores(s.ledger, l);
      FreeSettles(l, cmd);
    case Insert(cmd) => SettledIgnores(s.ledger, s.ledger.(inserted := s.ledger.inserted + [cmd]));
    case Thread => ThreadKeepsIssued(s);
    case _ =>
  }

  lemma {:induction false} IssuedIsPastHandler(s: State, env: Env, schedule: seq<Event>)
    requires Reachable(s, env, schedule)
    ensures IssuedSettles(s)
    decreases |schedule|
  {
    hide Step, Enabled, Settled;
    if schedule != [] {
      var before := Exec(Initial(env), schedule[..|schedule| - 1]).value;
      IssuedIsPastHandler(before, env, schedule[..|schedule| - 1]);
      StepKeepsIssued(before, schedule[|schedule| - 1]);
    }
  }

  /** A command goes to its handler at most once, and from there to its disposal and nowhere else. */
  lemma IssuedOnce(s: State, env: Env, schedule: seq<Event>, c: Cmd)
    requires Reachable(s, env, schedule)
    ensures s.ledger.issued[c] <= 1
    ensures c in s.ledger.issued ==> s.pc == PostProcess(c) || c in Settled(s.ledger)
    ensures c in s.ledger.issued ==> c !in s.passed && c !in s.queue
  {
    hide Reachable;
    InvHolds(s, env, schedule);
    IssuedIsPastHandler(s, env, schedule);
    CountOf(s, c);
    assert multiset(s.queue)[c] > 0 <==> c in s.queue;
  }

  // ----- what is decided about a command

  /** The five decisions of which a command gets one. */
  function Decisions(s: State, e: Event, c: Cmd): nat {
    Count(Does(Refused, s, e, c)) + Count(Does(Drained, s, e, c)) + Count(Does(Dropped, s, e, c))
    + Count(Does(Rejected, s, e, c)) + Count(Does(Issued, s, e, c))
  }

  function Decided(s: State, c: Cmd): nat {
    s.ledger.freed[c] + s.ledger.handed[c] + s.ledger.leaked[c] + PastHandler(s.pc)[c]
  }

  lemma FilterPc(s: State, cmd: Cmd)
    requires s.pc == Filter(cmd) || s.pc == FilterAgain(cmd)
    ensures ThreadStep(s).pc == if s.pc.Filter? then if MayRun(s, cmd) then FilterAgain(cmd) else PostProcess(cmd)
                                else if MayRun(s, cmd) then PostProcess(cmd) else Waiting
  {
    hide Passes, Free, MayRun;
    PassesIff(s, cmd);
  }

  lemma OtherPc(s: State, e: Event)
    requires Enabled(s, e) && (e.Thread? ==> !s.pc.Filter? && !s.pc.FilterAgain?)
    ensures if e.Thread? then !Step(s, e).pc.PostProcess? else Step(s, e).pc == s.pc || (e.Signal? && s.pc == Waiting)
    ensures e.Signal? ==> Step(s, e).pc == Leaving
  {
    hide Passes, Free, Dispose;
  }

  lemma PastHandlerMoves(s: State, e: Event, c: Cmd)
    requires Enabled(s, e)
    ensures PastHandler(Step(s, e).pc)[c] + Count(e.Thread? && s.pc == PostProcess(c)) ==
            PastHandler(s.pc)[c] + Count(Does(Dropped, s, e, c)) + Count(Does(Issued, s, e, c))
  {
    hide Enabled, ThreadStep, MayRun;
    if e.Thread? && (s.pc.Filter? || s.pc.FilterAgain?) {
      FilterPc(s, s.pc.cmd);
    } else {
      hide Step;
      OtherPc(s, e);
    }
  }

  /** Each step decides about a command exactly when it takes it out of the undecided. */
  lemma StepDecides(s: State, e: Event, c: Cmd)
    requires Enabled(s, e) && c.code != TABLE_LENGTH
    ensures Decided(Step(s, e), c) == Decided(s, c) + Decisions(s, e, c)
  {
    hide Step, Enabled, PastHandler, MayRun;
    StepBooks(s, e, c);
    PastHandlerMoves(s, e, c);
  }

  /** How often it was decided during a schedule. */
  function Times(env: Env, schedule: seq<Event>, c: Cmd): nat {
    if schedule == [] then 0
    else
      var last := |schedule| - 1;
      var before := Exec(Initial(env), schedule[..last]);
      Times(env, schedule[..last], c) + if before.Some? then Decisions(before.value, schedule[last], c) else 0
  }

  lemma {:induction false} TimesAdd(s: State, env: Env, schedule: seq<Event>, c: Cmd)
    requires Reachable(s, env, schedule) && c.code != TABLE_LENGTH
    ensures Times(env, schedule, c) == Decided(s, c)
    decreases |schedule|
  {
    hide Step, Enabled, Decisions;
    if schedule != [] {
      var last := |schedule| - 1;
      var before := Exec(Initial(env), schedule[..last]).value;
      TimesAdd(before, env, schedule[..last], c);
      StepDecides(before, schedule[last], c);
    }
  }

  /**
   About each command it is decided at most once, and exactly once about one that is nowhere on its way any more:
   refused when submitted, drained at the end, dropped by the first filter, rejected by the second, or issued.
   */
  lemma DecidedOnce(s: State, env: Env, schedule: seq<Event>, c: Cmd)
    requires Reachable(s, env, schedule) && c.code != TABLE_LENGTH
    ensures Times(env, schedule, c) <= 1
    ensures c in s.ledger.submitted && c !in s.passed && c !in s.queue && c !in InHand(s.pc) ==>
              Times(env, schedule, c) == 1
  {
    hide Reachable, Times;
    TimesAdd(s, env, schedule, c);
    InvHolds(s, env, schedule);
    CountOf(s, c);
    assert multiset(s.queue)[c] > 0 <==> c in s.queue;
  }
}
