/**
 The command thread of `rtw_cmd.c` and everybody who talks to it, as interleaved steps: the filter, the insertion and
 the semaphore up of an enqueuer are three steps, and so are the two of a stop request. Each step is one critical
 section or one read of shared flags.
 */
module CmdMachine {
  import opened Bytes

  /** Both `wlancmds` and `rtw_cmd_callback` have entries for the codes 0 to 62. */
  const TABLE_LENGTH := 63
  const SET_DRV_EXTRA := 57
  const SET_CHANNEL_PLAN := 59
  /** The codes whose callback is not null. */
  const CALLBACKS: set<nat> := {2, 4, 14, 15, 16, 18, 21, 22}

  /** A command object. The id stands for its address; `powerSaving` for the POWER_SAVING_CTRL_WK_CID parameter. */
  datatype Cmd = Cmd(id: nat, code: nat, powerSaving: bool)

  datatype Pc =
    | Start
    | Waiting
    | Woken
    | Next
    | Filter(cmd: Cmd)
    | FilterAgain(cmd: Cmd)
    | PostProcess(cmd: Cmd)
    | Leaving
    | Drain
    | Done

  /** What other code sets and this code only reads. */
  datatype Env = Env(hwInitCompleted: bool, stoppedOrRemoved: bool, pinDetect: bool)

  /** What has been done with the commands so far. */
  datatype Ledger = Ledger(
    submitted: multiset<Cmd>,
    inserted: seq<Cmd>,
    dequeued: seq<Cmd>,
    issued: multiset<Cmd>,
    freed: multiset<Cmd>,
    handed: multiset<Cmd>,
    leaked: multiset<Cmd>,
    doneAt: nat)

  datatype State = State(
    pc: Pc,
    queue: seq<Cmd>,
    sema: nat,
    running: bool,
    stopReq: bool,
    env: Env,
    passed: multiset<Cmd>,
    pendingUps: nat,
    pendingStopUp: bool,
    ledger: Ledger)

  datatype Event =
    | Submit(cmd: Cmd)
    | Insert(cmd: Cmd)
    | Up
    | RequestStop
    | StopUp
    | Change(env: Env)
    | Signal
    | Thread

  function Initial(env: Env): State {
    State(Start, [], 0, false, false, env, multiset{}, 0, false,
          Ledger(multiset{}, [], [], multiset{}, multiset{}, multiset{}, multiset{}, 0))
  }

  /** `rtw_cmd_filter` returns _SUCCESS. */
  predicate Passes(env: Env, running: bool, cmd: Cmd) {
    var allow := (env.pinDetect && cmd.code == SET_DRV_EXTRA && cmd.powerSaving) || cmd.code == SET_CHANNEL_PLAN;
    (env.hwInitCompleted || allow) && running
  }

  /** A code equal to the table length reads past both tables and is not part of the model. */
  predicate Enabled(s: State, e: Event) {
    match e
    case Submit(cmd) => cmd !in s.ledger.submitted && cmd.code != TABLE_LENGTH
    case Insert(cmd) => cmd in s.passed
    case Up => s.pendingUps > 0
    case RequestStop => s.running && !s.stopReq
    case StopUp => s.pendingStopUp
    case Change(_) => true
    case Signal => s.pc == Waiting
    case Thread => s.pc != Done && (s.pc == Waiting ==> s.sema > 0)
  }

  function Free(l: Ledger, cmd: Cmd): Ledger {
    l.(freed := l.freed + multiset{cmd})
  }

  /**
   The callback table: no callback frees the command, a callback takes it over, and a code beyond the table does
   neither.
   */
  function Dispose(l: Ledger, cmd: Cmd): Ledger {
    if cmd.code > TABLE_LENGTH then l.(leaked := l.leaked + multiset{cmd})
    else if cmd.code in CALLBACKS then l.(handed := l.handed + multiset{cmd})
    else Free(l, cmd)
  }

  function Dequeue(s: State, pc: Pc): State
    requires s.queue != []
  {
    s.(pc := pc, queue := s.queue[1..], ledger := s.ledger.(dequeued := s.ledger.dequeued + [s.queue[0]]))
  }

  function ThreadStep(s: State): State
    requires Enabled(s, Thread)
  {
    match s.pc
    case Start => s.(pc := Waiting, stopReq := false, running := true)
    case Waiting => s.(pc := Woken, sema := s.sema - 1)
    case Woken => s.(pc := if s.stopReq then Leaving else Next)
    case Next =>
      if s.env.stoppedOrRemoved then s.(pc := Leaving)
      else if s.queue == [] then s.(pc := Waiting)
      else Dequeue(s, Filter(s.queue[0]))
    case Filter(cmd) => s.(pc := if Passes(s.env, s.running, cmd) then FilterAgain(cmd) else PostProcess(cmd))
    case FilterAgain(cmd) =>
      if Passes(s.env, s.running, cmd)
      then s.(pc := PostProcess(cmd), ledger := s.ledger.(issued := s.ledger.issued + multiset{cmd}))
      else s.(pc := Waiting, ledger := Free(s.ledger, cmd))
    case PostProcess(cmd) => s.(pc := Next, ledger := Dispose(s.ledger, cmd))
    case Leaving => s.(pc := Drain, running := false)
    case Drain =>
      if s.queue == [] then s.(pc := Done, ledger := s.ledger.(doneAt := |s.ledger.inserted|))
      else
        var cmd := s.queue[0];
        var d := Dequeue(s, Drain);
        d.(ledger := Free(d.ledger, cmd))
  }

  function Step(s: State, e: Event): State
    requires Enabled(s, e)
  {
    match e
    case Submit(cmd) =>
      var l := s.ledger.(submitted := s.ledger.submitted + multiset{cmd});
      if Passes(s.env, s.running, cmd) then s.(passed := s.passed + multiset{cmd}, ledger := l)
      else s.(ledger := Free(l, cmd))
    case Insert(cmd) =>
      s.(passed := s.passed - multiset{cmd}, queue := s.queue + [cmd], pendingUps := s.pendingUps + 1,
         ledger := s.ledger.(inserted := s.ledger.inserted + [cmd]))
    case Up => s.(sema := s.sema + 1, pendingUps := s.pendingUps - 1)
    case RequestStop => s.(stopReq := true, pendingStopUp := true)
    case StopUp => s.(sema := s.sema + 1, pendingStopUp := false)
    case Change(env) => s.(env := env)
    case Signal => s.(pc := Leaving)
    case Thread => ThreadStep(s)
  }

  /** The state after a schedule, if every step of it was possible. */
  function Exec(s: State, schedule: seq<Event>): Option<State> {
    if schedule == [] then Some(s)
    else
      var before := Exec(s, schedule[..|schedule| - 1]);
      if before.Some? && Enabled(before.value, schedule[|schedule| - 1])
      then Some(Step(before.value, schedule[|schedule| - 1]))
      else None
  }

  /** A schedule followed by one more step, from one known state to the next. */
  lemma More(start: State, schedule: seq<Event>, s: State, e: Event, t: State) returns (more: seq<Event>)
    requires Exec(start, schedule) == Some(s) && Enabled(s, e) && t == Step(s, e)
    ensures more == schedule + [e] && Exec(start, more) == Some(t)
  {
    more := schedule + [e];
    assert more[..|schedule|] == schedule;
  }

  predicate Reachable(s: State, env: Env, schedule: seq<Event>) {
    Exec(Initial(env), schedule) == Some(s)
  }

  // ----- the invariant

  function InHand(pc: Pc): multiset<Cmd> {
    match pc
    case Filter(cmd) => multiset{cmd}
    case FilterAgain(cmd) => multiset{cmd}
    case PostProcess(cmd) => multiset{cmd}
    case _ => multiset{}
  }

  predicate Exiting(pc: Pc) {
    pc.Leaving? || pc.Drain? || pc.Done?
  }

  ghost predicate Once(m: multiset<Cmd>) {
    forall c :: m[c] <= 1
  }

  function Sum(a: multiset<Cmd>, b: multiset<Cmd>, c: multiset<Cmd>, d: multiset<Cmd>): multiset<Cmd> {
    a + b + c + d
  }

  function Settled(l: Ledger): multiset<Cmd> {
    l.freed + l.handed + l.leaked
  }

  function Places(s: State): multiset<Cmd> {
    Sum(s.passed, multiset(s.queue), InHand(s.pc), Settled(s.ledger))
  }

  /** Every command is in exactly one place, and there once. */
  ghost predicate Conserved(s: State) {
    Once(s.ledger.submitted) && Places(s) == s.ledger.submitted
  }

  /** There are never more commands queued than wake-ups on their way. */
  predicate Covered(s: State) {
    !Exiting(s.pc) ==> |s.queue| <= s.sema + s.pendingUps + if s.pc.Woken? || s.pc.Next? then 1 else 0
  }

  predicate InOrder(s: State) {
    s.ledger.inserted == s.ledger.dequeued + s.queue
  }

  predicate StopIsPending(s: State) {
    s.stopReq && !s.pendingStopUp && !s.pc.Woken? && !Exiting(s.pc) && !s.pc.Start? ==> s.sema > 0
  }

  predicate Tidy(s: State) {
    && s.running == !(s.pc.Start? || s.pc.Drain? || s.pc.Done?)
    && (s.pc.Start? ==> s.queue == [] && s.passed == multiset{} && s.pendingUps == 0 && !s.stopReq && !s.pendingStopUp)
    && (s.pc.Done? ==> |s.ledger.dequeued| == s.ledger.doneAt)
  }

  ghost predicate Sorted(l: Ledger) {
    && (forall c <- l.handed :: c.code in CALLBACKS)
    && (forall c <- l.leaked :: c.code > TABLE_LENGTH)
    && (forall c <- l.submitted :: c.code != TABLE_LENGTH)
  }

  ghost predicate Inv(s: State) {
    Conserved(s) && Covered(s) && InOrder(s) && StopIsPending(s) && Tidy(s) && Sorted(s.ledger)
  }

  lemma DisposeSettles(l: Ledger, cmd: Cmd)
    ensures Settled(Dispose(l, cmd)) == Settled(l) + multiset{cmd} == Settled(Free(l, cmd))
    ensures var d := Dispose(l, cmd);
            && d.submitted == l.submitted && d.inserted == l.inserted
            && d.dequeued == l.dequeued && d.doneAt == l.doneAt
            && (cmd.code != TABLE_LENGTH && cmd.code <= TABLE_LENGTH ==> d.leaked == l.leaked)
            && (cmd.code !in CALLBACKS ==> d.handed == l.handed)
  {
  }

  lemma TakeFirst(queue: seq<Cmd>)
    requires queue != []
    ensures multiset(queue) == multiset{queue[0]} + multiset(queue[1..])
  {
    assert queue == [queue[0]] + queue[1..];
  }

  /** How one command moves between the four places. */
  lemma SumMoves(a: multiset<Cmd>, b: multiset<Cmd>, d: multiset<Cmd>, x: Cmd)
    ensures Sum(a, b, multiset{}, d + multiset{x}) == Sum(a, b, multiset{}, d) + multiset{x}
    ensures Sum(a, b, multiset{x}, d) == Sum(a, b, multiset{}, d) + multiset{x}
    ensures Sum(a, multiset{x} + b, multiset{}, d) == Sum(a, b, multiset{}, d) + multiset{x}
  {
  }

  lemma SumGains(a: multiset<Cmd>, b: multiset<Cmd>, c: multiset<Cmd>, d: multiset<Cmd>, x: Cmd)
    ensures Sum(a + multiset{x}, b, c, d) == Sum(a, b, c, d) + multiset{x} == Sum(a, b, c, d + multiset{x})
  {
  }

  lemma SumPasses(a: multiset<Cmd>, b: seq<Cmd>, c: multiset<Cmd>, d: multiset<Cmd>, x: Cmd)
    requires x in a
    ensures Sum(a - multiset{x}, multiset(b + [x]), c, d) == Sum(a, multiset(b), c, d)
  {
    assert multiset(b + [x]) == multiset(b) + multiset{x};
  }

  lemma FreeIs(l: Ledger, cmd: Cmd)
    ensures Free(l, cmd).submitted == l.submitted && Free(l, cmd).inserted == l.inserted
    ensures Free(l, cmd).dequeued == l.dequeued && Free(l, cmd).doneAt == l.doneAt
    ensures Free(l, cmd).handed == l.handed && Free(l, cmd).leaked == l.leaked
  {
  }

  lemma SettledIgnores(l: Ledger, l': Ledger)
    requires l.freed == l'.freed && l.handed == l'.handed && l.leaked == l'.leaked
    ensures Settled(l) == Settled(l')
  {
  }

  lemma SubmitConserves(s: State, cmd: Cmd)
    requires Enabled(s, Submit(cmd))
    ensures Places(Step(s, Submit(cmd))) == Places(s) + multiset{cmd}
    ensures Step(s, Submit(cmd)).ledger.submitted == s.ledger.submitted + multiset{cmd}
  {
    hide Dispose, Free, Settled, Passes, Sum;
    var l := s.ledger.(submitted := s.ledger.submitted + multiset{cmd});
    DisposeSettles(l, cmd);
    SettledIgnores(s.ledger, l);
    FreeIs(l, cmd);
    SumGains(s.passed, multiset(s.queue), InHand(s.pc), Settled(s.ledger), cmd);
  }

  lemma OnceMore(m: multiset<Cmd>, x: Cmd)
    requires Once(m) && x !in m
    ensures Once(m + multiset{x})
  {
  }

  lemma NothingInHand(pc: Pc)
    ensures pc.Waiting? || pc.Leaving? ==> InHand(pc) == multiset{}
    ensures InHand(Leaving) == multiset{}
  {
  }

  lemma Moves(s: State)
    requires Enabled(s, Thread)
    requires s.pc.Start? || s.pc.Waiting? || s.pc.Woken? || s.pc.Filter? || s.pc.Leaving?
    ensures var t := ThreadStep(s);
            t.passed == s.passed && t.queue == s.queue && t.ledger == s.ledger && InHand(t.pc) == InHand(s.pc)
  {
    hide Passes;
  }

  /** The steps that only move the thread on. */
  lemma MoveConserves(s: State)
    requires Enabled(s, Thread)
    requires s.pc.Start? || s.pc.Waiting? || s.pc.Woken? || s.pc.Filter? || s.pc.Leaving?
    ensures Places(ThreadStep(s)) == Places(s) && ThreadStep(s).ledger.submitted == s.ledger.submitted
  {
    hide ThreadStep, InHand, Settled, Sum;
    Moves(s);
  }

  lemma FilteredConserves(s: State, cmd: Cmd)
    requires s.pc == FilterAgain(cmd)
    ensures Places(ThreadStep(s)) == Places(s) && ThreadStep(s).ledger.submitted == s.ledger.submitted
  {
    hide Dispose, Free, Settled, Passes, Sum;
    if Passes(s.env, s.running, cmd) {
      SettledIgnores(s.ledger, s.ledger.(issued := s.ledger.issued + multiset{cmd}));
    } else {
      FreeIs(s.ledger, cmd);
      DisposeSettles(s.ledger, cmd);
      SumMoves(s.passed, multiset(s.queue), Settled(s.ledger), cmd);
    }
  }

  lemma DisposalConserves(s: State, cmd: Cmd)
    requires s.pc == PostProcess(cmd)
    ensures Places(ThreadStep(s)) == Places(s) && ThreadStep(s).ledger.submitted == s.ledger.submitted
  {
    hide Dispose, Settled, Sum;
    DisposeSettles(s.ledger, cmd);
    SumMoves(s.passed, multiset(s.queue), Settled(s.ledger), cmd);
  }

  lemma NextConserves(s: State)
    requires s.pc.Next?
    ensures Places(ThreadStep(s)) == Places(s) && ThreadStep(s).ledger.submitted == s.ledger.submitted
  {
    hide Dispose, Free, Settled, Passes, Sum;
    if s.queue != [] {
      TakeFirst(s.queue);
      SettledIgnores(s.ledger, s.ledger.(dequeued := s.ledger.dequeued + [s.queue[0]]));
      SumMoves(s.passed, multiset(s.queue[1..]), Settled(s.ledger), s.queue[0]);
    }
  }

  lemma DrainConserves(s: State)
    requires s.pc.Drain?
    ensures Places(ThreadStep(s)) == Places(s) && ThreadStep(s).ledger.submitted == s.ledger.submitted
  {
    hide Dispose, Free, Settled, Passes, Sum;
    if s.queue != [] {
      TakeFirst(s.queue);
      var l := s.ledger.(dequeued := s.ledger.dequeued + [s.queue[0]]);
      SettledIgnores(s.ledger, l);
      DisposeSettles(l, s.queue[0]);
      FreeIs(l, s.queue[0]);
      SumMoves(s.passed, multiset(s.queue[1..]), Settled(s.ledger), s.queue[0]);
    } else {
      SettledIgnores(s.ledger, s.ledger.(doneAt := |s.ledger.inserted|));
    }
  }

  lemma ThreadConserves(s: State)
    requires Enabled(s, Thread)
    ensures Places(ThreadStep(s)) == Places(s) && ThreadStep(s).ledger.submitted == s.ledger.submitted
  {
    hide ThreadStep, Places;
    match s.pc
    case Next => NextConserves(s);
    case FilterAgain(cmd) => FilteredConserves(s, cmd);
    case PostProcess(cmd) => DisposalConserves(s, cmd);
    case Drain => DrainConserves(s);
    case _ => MoveConserves(s);
  }

  lemma StepKeepsConserved(s: State, e: Event)
    requires Conserved(s) && Enabled(s, e)
    ensures Conserved(Step(s, e))
  {
    hide Dispose, Free, Settled, Passes, Sum, Once, ThreadStep, InHand;
    match e
    case Submit(cmd) =>
      SubmitConserves(s, cmd);
      OnceMore(s.ledger.submitted, cmd);
    case Insert(cmd) =>
      SettledIgnores(s.ledger, s.ledger.(inserted := s.ledger.inserted + [cmd]));
      SumPasses(s.passed, s.queue, InHand(s.pc), Settled(s.ledger), cmd);
    case Thread => ThreadConserves(s);
    case Signal => NothingInHand(s.pc);
    case _ =>
  }

  lemma DisposeKeepsSorted(l: Ledger, cmd: Cmd)
    requires Sorted(l)
    ensures Sorted(Dispose(l, cmd)) && Sorted(Free(l, cmd))
  {
  }

  lemma SortedIgnores(l: Ledger, l': Ledger)
    requires Sorted(l) && l'.handed == l.handed && l'.leaked == l.leaked && l'.submitted == l.submitted
    ensures Sorted(l')
  {
  }

  lemma SubmitKeepsSorted(l: Ledger, cmd: Cmd)
    requires Sorted(l) && cmd.code != TABLE_LENGTH
    ensures Sorted(l.(submitted := l.submitted + multiset{cmd}))
  {
  }

  lemma ThreadKeepsSorted(s: State)
    requires Sorted(s.ledger) && Enabled(s, Thread)
    ensures Sorted(ThreadStep(s).ledger)
  {
    hide Passes, Dispose, Free, Sorted;
    match s.pc
    case Next => if s.queue != [] { SortedIgnores(s.ledger, Dequeue(s, Next).ledger); }
    case PostProcess(cmd) => DisposeKeepsSorted(s.ledger, cmd);
    case FilterAgain(cmd) =>
      DisposeKeepsSorted(s.ledger, cmd);
      SortedIgnores(s.ledger, s.ledger.(issued := s.ledger.issued + multiset{cmd}));
    case Drain =>
      if s.queue == [] {
        SortedIgnores(s.ledger, ThreadStep(s).ledger);
      } else {
        SortedIgnores(s.ledger, Dequeue(s, Drain).ledger);
        DisposeKeepsSorted(Dequeue(s, Drain).ledger, s.queue[0]);
      }
    case _ =>
  }

  lemma StepKeepsSorted(s: State, e: Event)
    requires Sorted(s.ledger) && Enabled(s, e)
    ensures Sorted(Step(s, e).ledger)
  {
    hide Passes, Dispose, Free, Sorted, ThreadStep;
    match e
    case Submit(cmd) =>
      var l := s.ledger.(submitted := s.ledger.submitted + multiset{cmd});
      SubmitKeepsSorted(s.ledger, cmd);
      DisposeKeepsSorted(l, cmd);
    case Insert(cmd) => SortedIgnores(s.ledger, s.ledger.(inserted := s.ledger.inserted + [cmd]));
    case Thread => ThreadKeepsSorted(s);
    case _ =>
  }

  lemma ThreadKeepsCovered(s: State)
    requires Covered(s) && Enabled(s, Thread)
    ensures Covered(ThreadStep(s))
  {
    hide Passes, Dispose, Free;
    match s.pc
    case Next =>
    case Drain =>
    case FilterAgain(cmd) =>
    case PostProcess(cmd) =>
    case _ => Moves(s);
  }

  lemma StepKeepsCovered(s: State, e: Event)
    requires Covered(s) && Enabled(s, e)
    ensures Covered(Step(s, e))
  {
    hide Passes, Free, ThreadStep;
    if e.Thread? {
      ThreadKeepsCovered(s);
    }
  }

  lemma TakenInPlace(s: State, pc: Pc)
    requires InOrder(s) && s.queue != []
    ensures InOrder(Dequeue(s, pc))
  {
    assert s.queue == [s.queue[0]] + s.queue[1..];
  }

  lemma OrderIgnores(s: State, t: State)
    requires InOrder(s) && t.queue == s.queue
    requires t.ledger.inserted == s.ledger.inserted && t.ledger.dequeued == s.ledger.dequeued
    ensures InOrder(t)
  {
  }

  lemma ThreadKeepsOrder(s: State)
    requires InOrder(s) && Enabled(s, Thread)
    ensures InOrder(ThreadStep(s))
  {
    hide Passes, Dispose, Free, InOrder, Dequeue;
    var t := ThreadStep(s);
    match s.pc
    case Next =>
      if s.env.stoppedOrRemoved || s.queue == [] {
        OrderIgnores(s, t);
      } else {
        TakenInPlace(s, Filter(s.queue[0]));
      }
    case Drain =>
      if s.queue != [] {
        TakenInPlace(s, Drain);
        FreeIs(Dequeue(s, Drain).ledger, s.queue[0]);
        OrderIgnores(Dequeue(s, Drain), t);
      } else {
        OrderIgnores(s, t);
      }
    case PostProcess(cmd) =>
      DisposeSettles(s.ledger, cmd);
      OrderIgnores(s, t);
    case FilterAgain(cmd) =>
      FreeIs(s.ledger, cmd);
      OrderIgnores(s, t);
    case _ =>
      Moves(s);
      OrderIgnores(s, t);
  }

  lemma StepKeepsOrder(s: State, e: Event)
    requires InOrder(s) && Enabled(s, e)
    ensures InOrder(Step(s, e))
  {
    hide Passes, Free, ThreadStep;
    match e
    case Thread => ThreadKeepsOrder(s);
    case Submit(cmd) => FreeIs(s.ledger.(submitted := s.ledger.submitted + multiset{cmd}), cmd);
    case _ =>
  }

  lemma StepKeepsStop(s: State, e: Event)
    requires StopIsPending(s) && Tidy(s) && Enabled(s, e)
    ensures StopIsPending(Step(s, e))
  {
    hide Passes, Dispose, Free;
  }

  lemma ThreadKeepsTidy(s: State)
    requires Tidy(s) && InOrder(s) && Enabled(s, Thread)
    ensures Tidy(ThreadStep(s))
  {
    hide Passes, Dispose, Free;
    if s.pc.Drain? && s.queue == [] {
      assert s.ledger.inserted == s.ledger.dequeued;
    }
  }

  lemma StepKeepsTidy(s: State, e: Event)
    requires Tidy(s) && InOrder(s) && Enabled(s, e)
    ensures Tidy(Step(s, e))
  {
    hide Free, ThreadStep;
    match e
    case Thread => ThreadKeepsTidy(s);
    case Submit(cmd) => FreeIs(s.ledger.(submitted := s.ledger.submitted + multiset{cmd}), cmd);
    case _ =>
  }

  lemma StepKeepsInv(s: State, e: Event)
    requires Inv(s) && Enabled(s, e)
    ensures Inv(Step(s, e))
  {
    hide Enabled, Step, Conserved, Covered, InOrder, StopIsPending, Tidy, Sorted;
    StepKeepsConserved(s, e);
    StepKeepsSorted(s, e);
    StepKeepsCovered(s, e);
    StepKeepsOrder(s, e);
    StepKeepsStop(s, e);
    StepKeepsTidy(s, e);
  }

  lemma InitialInv(env: Env)
    ensures Inv(Initial(env))
  {
  }

  lemma {:induction false} InvHolds(s: State, env: Env, schedule: seq<Event>)
    requires Reachable(s, env, schedule)
    ensures Inv(s)
    decreases |schedule|
  {
    hide Enabled, Step, Inv, Initial;
    if schedule == [] {
      InitialInv(env);
    } else {
      var before := Exec(Initial(env), schedule[..|schedule| - 1]).value;
      InvHolds(before, env, schedule[..|schedule| - 1]);
      StepKeepsInv(before, schedule[|schedule| - 1]);
    }
  }
}
