/** What holds in every reachable state of the command machine, and the one way a command is stranded. */
module CmdRuns {
  import opened Bytes
  import opened CmdMachine

  /** No wake-up is lost: a thread that would sleep, with no enqueuer between insertion and up, has nothing to do. */
  lemma NoLostWakeup(s: State, env: Env, schedule: seq<Event>)
    requires Reachable(s, env, schedule)
    requires s.pc.Waiting? && s.sema == 0 && s.pendingUps == 0
    ensures s.queue == []
  {
    hide Reachable;
    InvHolds(s, env, schedule);
  }

  /** A stop request whose up is done finds the thread out of its sleep, wherever the thread was. */
  lemma StopIsNotLost(s: State, env: Env, schedule: seq<Event>)
    requires Reachable(s, env, schedule)
    requires s.pc.Waiting? && s.stopReq && !s.pendingStopUp
    ensures s.sema > 0 && ThreadStep(ThreadStep(s)).pc.Leaving?
  {
    hide Reachable;
    InvHolds(s, env, schedule);
  }

  /** Commands are taken in the order they were inserted. */
  lemma TakenInOrder(s: State, env: Env, schedule: seq<Event>)
    requires Reachable(s, env, schedule)
    ensures s.ledger.dequeued <= s.ledger.inserted
    ensures s.queue == s.ledger.inserted[|s.ledger.dequeued|..]
  {
    hide Reachable;
    InvHolds(s, env, schedule);
  }

  lemma CountOf(s: State, c: Cmd)
    requires Conserved(s)
    ensures s.passed[c] + multiset(s.queue)[c] + InHand(s.pc)[c] + s.ledger.freed[c] + s.ledger.handed[c]
            + s.ledger.leaked[c]
            == s.ledger.submitted[c] <= 1
  {
  }

  /**
   A submitted command that is nowhere on its way any more has been freed, or handed to its callback, or leaked: exactly
   one of the three, once. It is leaked only if its code lies beyond the tables.
   */
  lemma DisposedExactlyOnce(s: State, env: Env, schedule: seq<Event>, c: Cmd)
    requires Reachable(s, env, schedule) && c in s.ledger.submitted
    ensures s.ledger.freed[c] + s.ledger.handed[c] + s.ledger.leaked[c] ==
            if c in s.passed || c in s.queue || c in InHand(s.pc) then 0 else 1
    ensures c.code < TABLE_LENGTH ==> s.ledger.leaked[c] == 0
    ensures c.code !in CALLBACKS ==> s.ledger.handed[c] == 0
  {
    hide Reachable;
    InvHolds(s, env, schedule);
    assert multiset(s.queue)[c] > 0 <==> c in s.queue;
    CountOf(s, c);
  }

  /** Once the thread is done, what is still queued is what was inserted after its last look. */
  lemma LateIsStranded(s: State, env: Env, schedule: seq<Event>)
    requires Reachable(s, env, schedule) && s.pc.Done?
    ensures s.ledger.doneAt <= |s.ledger.inserted| && s.queue == s.ledger.inserted[s.ledger.doneAt..]
  {
    hide Reachable;
    InvHolds(s, env, schedule);
  }

  /** Schedules one after the other. */
  lemma {:induction false} ExecTwice(s: State, before: seq<Event>, m: State, after: seq<Event>)
    requires Exec(s, before) == Some(m)
    ensures Exec(s, before + after) == Exec(m, after)
    decreases |after|
  {
    hide Step, Enabled;
    if after == [] {
      assert before + after == before;
    } else {
      var last := |after| - 1;
      assert (before + after)[..|before| + last] == before + after[..last];
      ExecTwice(s, before, m, after[..last]);
    }
  }

  /** The thread looks at its queue for the last time, after it has stopped accepting, and finds it empty. */
  predicate LastLook(s: State) {
    s.pc.Drain? && !s.running && s.queue == []
  }

  lemma StepAfterDone(s: State, e: Event)
    requires s.pc.Done? && !s.running && Enabled(s, e)
    ensures var t := Step(s, e);
            t.pc.Done? && !t.running && t.passed + multiset(t.queue) == s.passed + multiset(s.queue)
  {
    hide Free, Dispose, CALLBACKS;
    if e.Insert? {
      assert multiset(s.queue + [e.cmd]) == multiset(s.queue) + multiset{e.cmd};
    }
  }

  /**
   From then on nothing is accepted or taken any more, so the enqueuers that stood between filter and insertion at the
   last look are those that still stand there or have inserted since.
   */
  lemma {:induction false} LateArrivals(s0: State, schedule: seq<Event>, t: State)
    requires LastLook(s0) && Exec(ThreadStep(s0), schedule) == Some(t)
    ensures t.pc.Done? && !t.running && t.passed + multiset(t.queue) == s0.passed
    decreases |schedule|
  {
    if schedule != [] {
      var last := |schedule| - 1;
      var before := Exec(ThreadStep(s0), schedule[..last]).value;
      LateArrivals(s0, schedule[..last], before);
      StepAfterDone(before, schedule[last]);
    }
  }

  lemma AfterLastLook(s0: State, env: Env, before: seq<Event>, after: seq<Event>, t: State)
    returns (schedule: seq<Event>)
    requires Reachable(s0, env, before) && LastLook(s0) && Exec(ThreadStep(s0), after) == Some(t)
    ensures Reachable(t, env, schedule)
  {
    hide ThreadStep, Exec, Initial;
    var look := More(Initial(env), before, s0, Thread, ThreadStep(s0));
    schedule := look + after;
    ExecTwice(Initial(env), look, ThreadStep(s0), after);
  }

  lemma QueuedIsSubmitted(s: State, env: Env, schedule: seq<Event>, c: Cmd)
    requires Reachable(s, env, schedule) && c in s.queue
    ensures c in s.ledger.submitted
  {
    hide Reachable;
    InvHolds(s, env, schedule);
    CountOf(s, c);
    assert multiset(s.queue)[c] > 0;
  }

  /**
   Which commands end up stranded is settled at the last look: those of the enqueuers that stood between filter and
   insertion then. Once all enqueuers are through, every command that the tables know has been freed or handed over
   exactly when there was none.
   */
  lemma AllAccountedIffNoneLate(s0: State, env: Env, before: seq<Event>, after: seq<Event>, t: State)
    requires Reachable(s0, env, before) && LastLook(s0)
    requires Exec(ThreadStep(s0), after) == Some(t) && t.passed == multiset{}
    requires forall c <- t.ledger.submitted :: c.code < TABLE_LENGTH
    ensures multiset(t.queue) == s0.passed
    ensures (forall c <- t.ledger.submitted :: t.ledger.freed[c] + t.ledger.handed[c] == 1) <==> s0.passed == multiset{}
  {
    hide Conserved, Exec, ThreadStep, Reachable;
    LateArrivals(s0, after, t);
    var schedule := AfterLastLook(s0, env, before, after, t);
    forall c | c in t.ledger.submitted
      ensures t.ledger.freed[c] + t.ledger.handed[c] == if c in t.queue then 0 else 1
    {
      DisposedExactlyOnce(t, env, schedule, c);
    }
    if t.queue != [] {
      QueuedIsSubmitted(t, env, schedule, t.queue[0]);
      assert t.queue[0] in multiset(t.queue);
    }
  }

  lemma Then(env: Env, schedule: seq<Event>, s: State, e: Event, t: State) returns (more: seq<Event>)
    requires Reachable(s, env, schedule) && Enabled(s, e) && t == Step(s, e)
    ensures more == schedule + [e] && Reachable(t, env, more)
  {
    more := More(Initial(env), schedule, s, e, t);
  }

  /** An idle thread that is asked to stop goes straight to its end. */
  lemma StopWhenIdle(env: Env, schedule: seq<Event>, s: State) returns (log: seq<Event>, t: State)
    requires Reachable(s, env, schedule)
    requires s.pc.Waiting? && s.running && !s.stopReq && !s.pendingStopUp && s.queue == [] && s.sema == 0
    ensures Reachable(t, env, log) && t == s.(pc := Done, running := false, stopReq := true, ledger := t.ledger)
    ensures t.ledger == s.ledger.(doneAt := |s.ledger.inserted|)
  {
    hide Reachable, Dispose, Free, Passes;
    var s1 := s.(stopReq := true, pendingStopUp := true);
    log := Then(env, schedule, s, RequestStop, s1);
    var s2 := s1.(sema := 1, pendingStopUp := false);
    log := Then(env, log, s1, StopUp, s2);
    var s3 := s2.(pc := Woken, sema := 0);
    log := Then(env, log, s2, Thread, s3);
    log := Then(env, log, s3, Thread, s3.(pc := Leaving));
    var s5 := s3.(pc := Drain, running := false);
    log := Then(env, log, s3.(pc := Leaving), Thread, s5);
    t := s5.(pc := Done, ledger := s5.ledger.(doneAt := |s5.ledger.inserted|));
    log := Then(env, log, s5, Thread, t);
  }

  lemma Starts(env: Env)
    ensures Reachable(Initial(env), env, [])
  {
  }

  /** The guarantee does fail: an enqueuer that passed the filter before the thread stopped inserts after it is done. */
  lemma StrandedCommand(c: Cmd)
    requires c.code != TABLE_LENGTH
    ensures exists s, env, schedule ::
              Reachable(s, env, schedule) && s.pc.Done? && s.passed == multiset{} && s.pendingUps == 0
                                       && s.queue == [c]
  {
    hide Reachable, Dispose, Free;
    var env := Env(true, false, false);
    var s0 := Initial(env);
    Starts(env);
    var s1 := Step(s0, Thread);
    var log := Then(env, [], s0, Thread, s1);
    var s2 := Step(s1, Submit(c));
    log := Then(env, log, s1, Submit(c), s2);
    var s3;
    log, s3 := StopWhenIdle(env, log, s2);
    var s4 := Step(s3, Insert(c));
    log := Then(env, log, s3, Insert(c), s4);
    log := Then(env, log, s4, Up, Step(s4, Up));
  }

  // ----- where the thread goes

  /** The thread leaves for three reasons only, and for each of them it does. */
  lemma LeavesIff(s: State, e: Event)
    requires Enabled(s, e) && !s.pc.Leaving?
    ensures Step(s, e).pc.Leaving? <==>
              || (e.Thread? && s.pc.Woken? && s.stopReq)
              || (e.Thread? && s.pc.Next? && s.env.stoppedOrRemoved)
              || e.Signal?
  {
    hide Passes, Free, Dispose;
    if !e.Thread? {
      hide ThreadStep;
    } else if s.pc.Next? || s.pc.Drain? {
    } else {
      hide Dequeue;
    }
  }

  /** A bound on the steps that the thread takes, left alone, until it sleeps or is done. */
  function Rank(s: State): nat {
    match s.pc
    case Start => 1
    case Waiting => 0
    case Woken => 4 * |s.queue| + 5
    case Next => 4 * |s.queue| + 4
    case Filter(_) => 4 * |s.queue| + 7
    case FilterAgain(_) => 4 * |s.queue| + 6
    case PostProcess(_) => 4 * |s.queue| + 5
    case Leaving => |s.queue| + 2
    case Drain => |s.queue| + 1
    case Done => 0
  }

  lemma TakingRanks(s: State)
    requires s.pc.Next? || s.pc.Drain?
    ensures Rank(ThreadStep(s)) < Rank(s)
  {
    hide Free;
  }

  lemma StepRanks(s: State)
    requires Enabled(s, Thread) && !s.pc.Waiting?
    ensures Rank(ThreadStep(s)) < Rank(s)
  {
    if s.pc.Next? || s.pc.Drain? {
      hide ThreadStep, Rank;
      TakingRanks(s);
    } else {
      hide Passes, Free, Dispose, Dequeue;
    }
  }

  /** Left alone, the thread comes to sleep or to its end after as many steps, wherever it is. */
  lemma {:induction false} ThreadRests(s: State) returns (n: nat, t: State)
    ensures n <= Rank(s) && Exec(s, seq(n, _ => Thread)) == Some(t) && (t.pc.Waiting? || t.pc.Done?)
    decreases Rank(s)
  {
    hide ThreadStep, Rank;
    if s.pc.Waiting? || s.pc.Done? {
      n, t := 0, s;
    } else {
      StepRanks(s);
      n, t := ThreadRests(ThreadStep(s));
      var one, more := [Thread], seq(n, _ => Thread);
      assert one[..0] == [];
      assert Exec(s, one) == Some(ThreadStep(s));
      ExecTwice(s, one, ThreadStep(s), more);
      assert seq(n + 1, _ => Thread) == one + more;
      n := n + 1;
    }
  }

  // ----- what the steps add up to

  /** The flags of the environment that were set last. */
  function LatestEnv(env: Env, schedule: seq<Event>): Env {
    if schedule == [] then env
    else if schedule[|schedule| - 1].Change? then schedule[|schedule| - 1].env
    else LatestEnv(env, schedule[..|schedule| - 1])
  }

  lemma EnvStep(s: State, e: Event)
    requires Enabled(s, e)
    ensures Step(s, e).env == if e.Change? then e.env else s.env
  {
    hide Passes, Free, Dispose;
  }

  /** The steps of a schedule that raise the semaphore, and those that lower it. */
  function Ups(schedule: seq<Event>): nat {
    if schedule == [] then 0
    else Ups(schedule[..|schedule| - 1]) + if schedule[|schedule| - 1] in {Up, StopUp} then 1 else 0
  }

  function Wakes(env: Env, schedule: seq<Event>): nat {
    if schedule == [] then 0
    else
      var last := |schedule| - 1;
      var before := Exec(Initial(env), schedule[..last]);
      Wakes(env, schedule[..last])
      + if before.Some? && before.value.pc.Waiting? && schedule[last].Thread? then 1 else 0
  }

  lemma SemaStep(s: State, e: Event)
    requires Enabled(s, e)
    ensures Step(s, e).sema + (if s.pc.Waiting? && e.Thread? then 1 else 0) ==
            s.sema + (if e in {Up, StopUp} then 1 else 0)
  {
    if e.Thread? {
      hide Passes, Free, Dispose;
    } else {
      hide Passes, Free, ThreadStep;
    }
  }

  /** Over any schedule each wake-up was paid for by one up, and the thread goes by the flags set last. */
  lemma {:induction false} WakeupsAreCounted(s: State, env: Env, schedule: seq<Event>)
    requires Reachable(s, env, schedule)
    ensures s.sema + Wakes(env, schedule) == Ups(schedule)
    ensures s.env == LatestEnv(env, schedule)
    decreases |schedule|
  {
    hide Step, Enabled;
    if schedule != [] {
      var last := |schedule| - 1;
      var before := Exec(Initial(env), schedule[..last]).value;
      WakeupsAreCounted(before, env, schedule[..last]);
      SemaStep(before, schedule[last]);
      EnvStep(before, schedule[last]);
    }
  }
}
