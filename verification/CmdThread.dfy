/**
 The command queue as one object, with the code of the enqueuer and of the thread as they run between interruptions.
 */
module CmdThread {
  import opened Bytes
  import opened CmdMachine

  /** The steps of the thread and changes of the flags it only reads. */
  ghost predicate Quiet(log: seq<Event>) {
    forall k :: 0 <= k < |log| ==> log[k].Thread? || log[k].Change?
  }

  ghost predicate Run(start: State, log: seq<Event>, s: State) {
    Exec(start, log) == Some(s) && Quiet(log)
  }

  /** A quiet run and one more step. */
  lemma Quietly(start: State, log: seq<Event>, s: State, e: Event, t: State) returns (more: seq<Event>)
    requires Run(start, log, s) && (e.Thread? || e.Change?) && Enabled(s, e) && t == Step(s, e)
    ensures Run(start, more, t)
  {
    more := More(start, log, s, e, t);
  }

  /** What `rtw_enqueue_cmd` does when nothing comes between its steps. */
  ghost function Enqueued(s: State, cmd: Cmd): State {
    var l := s.ledger.(submitted := s.ledger.submitted + multiset{cmd});
    if Passes(s.env, s.running, cmd)
    then s.(queue := s.queue + [cmd], sema := s.sema + 1, ledger := l.(inserted := l.inserted + [cmd]))
    else s.(ledger := Free(l, cmd))
  }

  lemma EnqueuedIs(s: State, cmd: Cmd)
    ensures var t, l := Enqueued(s, cmd), s.ledger.(submitted := s.ledger.submitted + multiset{cmd});
            if Passes(s.env, s.running, cmd)
            then t == s.(queue := s.queue + [cmd], sema := s.sema + 1, ledger := l.(inserted := l.inserted + [cmd]))
            else t == s.(ledger := Free(l, cmd))
  {
  }

  lemma FilterSteps(s: State, cmd: Cmd)
    requires s.pc == Filter(cmd) || s.pc == FilterAgain(cmd)
    ensures Enabled(s, Thread)
    ensures Step(s, Thread) ==
            if !Passes(s.env, s.running, cmd) then
              if s.pc.Filter? then s.(pc := PostProcess(cmd)) else s.(pc := Waiting, ledger := Free(s.ledger, cmd))
            else if s.pc.Filter? then s.(pc := FilterAgain(cmd))
            else s.(pc := PostProcess(cmd), ledger := s.ledger.(issued := s.ledger.issued + multiset{cmd}))
  {
  }

  lemma PostSteps(s: State, cmd: Cmd)
    requires s.pc == PostProcess(cmd)
    ensures Enabled(s, Thread) && Step(s, Thread) == s.(pc := Next, ledger := Dispose(s.ledger, cmd))
  {
  }

  lemma StartHere(start: State)
    ensures Run(start, [], start)
  {
  }

  lemma {:induction false} InvFollows(start: State, log: seq<Event>, s: State)
    requires Inv(start) && Exec(start, log) == Some(s)
    ensures Inv(s)
    decreases |log|
  {
    hide Inv, Step, Enabled;
    if log != [] {
      var before := Exec(start, log[..|log| - 1]).value;
      InvFollows(start, log[..|log| - 1], before);
      StepKeepsInv(before, log[|log| - 1]);
    }
  }

  lemma RunKeepsInv(start: State, log: seq<Event>, s: State)
    requires Inv(start) && Run(start, log, s)
    ensures Inv(s)
  {
    InvFollows(start, log, s);
  }

  lemma SleepsWhenEmpty(s: State)
    requires Inv(s) && s.pc.Waiting? && s.sema == 0 && s.pendingUps == 0
    ensures s.queue == []
    ensures s.stopReq ==> s.pendingStopUp
  {
  }

  class CmdPriv {
    var queue: seq<Cmd>
    var sema: nat
    var running: bool
    var stopReq: bool
    var env: Env
    ghost var passed: multiset<Cmd>
    ghost var pendingUps: nat
    ghost var pendingStopUp: bool
    ghost var ledger: Ledger

    ghost function Snapshot(pc: Pc): State
      reads this
    {
      State(pc, queue, sema, running, stopReq, env, passed, pendingUps, pendingStopUp, ledger)
    }

    constructor (e: Env)
      ensures Snapshot(Start) == Initial(e)
    {
      queue, sema, running, stopReq, env := [], 0, false, false, e;
      passed, pendingUps, pendingStopUp := multiset{}, 0, false;
      ledger := Ledger(multiset{}, [], [], multiset{}, multiset{}, multiset{}, multiset{}, 0);
    }

    /** `rtw_cmd_filter` */
    predicate CmdFilter(cmd: Cmd)
      reads this
      ensures CmdFilter(cmd) == Passes(env, running, cmd)
    {
      var allow := (env.pinDetect && cmd.code == SET_DRV_EXTRA && cmd.powerSaving) || cmd.code == SET_CHANNEL_PLAN;
      if (!env.hwInitCompleted && !allow) || !running then false else true
    }

    /** `rtw_enqueue_cmd`, uninterrupted: refused and freed, or at the end of the queue with one more wake-up. */
    method EnqueueCmd(cmd: Cmd, ghost pc: Pc) returns (res: bool)
      requires cmd !in ledger.submitted && cmd.code != TABLE_LENGTH
      modifies this`queue, this`sema, this`ledger
      ensures res == Passes(env, running, cmd)
      ensures Snapshot(pc) == Enqueued(old(Snapshot(pc)), cmd)
    {
      hide Passes, Free;
      EnqueuedIs(Snapshot(pc), cmd);
      ledger := ledger.(submitted := ledger.submitted + multiset{cmd});
      if !CmdFilter(cmd) {
        ledger := Free(ledger, cmd);
        return false;
      }
      queue := queue + [cmd];
      ledger := ledger.(inserted := ledger.inserted + [cmd]);
      sema := sema + 1;
      return true;
    }

    /** `_rtw_dequeue_cmd` */
    method DequeueCmd() returns (cmd: Option<Cmd>)
      modifies this`queue, this`ledger
      ensures old(queue) == [] ==> cmd == None && queue == [] && ledger == old(ledger)
      ensures old(queue) != [] ==>
                && cmd == Some(old(queue[0])) && queue == old(queue)[1..]
                && ledger == old(ledger).(dequeued := old(ledger).dequeued + [old(queue[0])])
    {
      if queue == [] { return None; }
      cmd := Some(queue[0]);
      ledger := ledger.(dequeued := ledger.dequeued + [queue[0]]);
      queue := queue[1..];
    }

    /** The end of the loop body: the callback, if the table has one, or the release of the command. */
    method PostProcess(cmd: Cmd)
      requires cmd.code != TABLE_LENGTH
      modifies this`ledger
      ensures ledger == Dispose(old(ledger), cmd)
      ensures cmd.code in CALLBACKS ==> ledger == old(ledger).(handed := old(ledger).handed + multiset{cmd})
    {
      if cmd.code <= TABLE_LENGTH {
        if cmd.code in CALLBACKS {
          ledger := ledger.(handed := ledger.handed + multiset{cmd});
        } else {
          ledger := Free(ledger, cmd);
        }
      } else {
        ledger := ledger.(leaked := ledger.leaked + multiset{cmd});
      }
    }

    /** The end of a round: the command is disposed of. */
    method Finish(cmd: Cmd, ghost start: State, ghost before: seq<Event>) returns (ghost log: seq<Event>)
      requires Run(start, before, Snapshot(Pc.PostProcess(cmd))) && cmd.code != TABLE_LENGTH
      modifies this`ledger
      ensures Run(start, log, Snapshot(Next))
    {
      hide Run, Dispose, Step, Enabled;
      ghost var s := Snapshot(Pc.PostProcess(cmd));
      PostSteps(s, cmd);
      PostProcess(cmd);
      log := Quietly(start, before, s, Thread, Snapshot(Next));
    }

    method ReadFlags(ghost start: State, ghost before: seq<Event>, ghost pc: Pc, envAt: nat -> Env, read: nat)
      returns (ghost log: seq<Event>, count: nat)
      requires Run(start, before, Snapshot(pc))
      modifies this`env
      ensures Run(start, log, Snapshot(pc))
    {
      hide Run;
      ghost var s := Snapshot(pc);
      env := envAt(read);
      log := Quietly(start, before, s, Change(env), Snapshot(pc));
      count := read + 1;
    }

    /** One command, from its first filter to its disposal; the flags may change between the two filters. */
    method HandleCmd(cmd: Cmd, ghost start: State, ghost before: seq<Event>, envAt: nat -> Env, read: nat)
      returns (sleep: bool, count: nat, ghost log: seq<Event>)
      requires Run(start, before, Snapshot(Filter(cmd))) && cmd.code != TABLE_LENGTH
      modifies this`env, this`ledger
      ensures Run(start, log, Snapshot(if sleep then Waiting else Next))
    {
      hide Run, Free, Passes, Step, Enabled;
      sleep := false;
      log, count := ReadFlags(start, before, Filter(cmd), envAt, read);
      ghost var s := Snapshot(Filter(cmd));
      FilterSteps(s, cmd);
      if !CmdFilter(cmd) {
        log := Quietly(start, log, s, Thread, Snapshot(Pc.PostProcess(cmd)));
        log := Finish(cmd, start, log);
        return;
      }
      log := Quietly(start, log, s, Thread, Snapshot(FilterAgain(cmd)));
      log, count := ReadFlags(start, log, FilterAgain(cmd), envAt, count);
      s := Snapshot(FilterAgain(cmd));
      FilterSteps(s, cmd);
      if !CmdFilter(cmd) {
        ledger := Free(ledger, cmd);
        log := Quietly(start, log, s, Thread, Snapshot(Waiting));
        return true, count, log;
      }
      ledger := ledger.(issued := ledger.issued + multiset{cmd});
      log := Quietly(start, log, s, Thread, Snapshot(Pc.PostProcess(cmd)));
      log := Finish(cmd, start, log);
    }

    ghost predicate Codes(cmds: seq<Cmd>) {
      forall k :: 0 <= k < |cmds| ==> cmds[k].code != TABLE_LENGTH
    }

    /** From `_next` until the thread goes back to sleep or leaves. */
    method HandleQueue(ghost start: State, ghost before: seq<Event>, envAt: nat -> Env, read: nat)
      returns (leave: bool, count: nat, ghost log: seq<Event>)
      requires Run(start, before, Snapshot(Next)) && Codes(queue)
      modifies this`queue, this`env, this`ledger
      ensures Run(start, log, Snapshot(if leave then Leaving else Waiting))
      ensures Codes(queue)
    {
      hide Run, Dispose, Free, Passes;
      log, count := before, read;
      while true
        invariant Run(start, log, Snapshot(Next)) && Codes(queue)
        decreases |queue|
      {
        log, count := ReadFlags(start, log, Next, envAt, count);
        ghost var s := Snapshot(Next);
        if env.stoppedOrRemoved {
          log := Quietly(start, log, s, Thread, Snapshot(Leaving));
          return true, count, log;
        }
        var next := DequeueCmd();
        if next.None? {
          log := Quietly(start, log, s, Thread, Snapshot(Waiting));
          return false, count, log;
        }
        log := Quietly(start, log, s, Thread, Snapshot(Filter(next.value)));
        var sleep;
        sleep, count, log := HandleCmd(next.value, start, log, envAt, count);
        if sleep {
          return false, count, log;
        }
      }
    }

    /** What remains in the queue when the thread leaves is freed. */
    method DrainQueue(ghost start: State, ghost before: seq<Event>)
      returns (ghost log: seq<Event>)
      requires Run(start, before, Snapshot(Drain))
      modifies this`queue, this`ledger
      ensures Run(start, log, Snapshot(Done)) && queue == []
    {
      hide Run, Dispose, Free;
      log := before;
      while true
        invariant Run(start, log, Snapshot(Drain))
        decreases |queue|
      {
        ghost var s := Snapshot(Drain);
        var next := DequeueCmd();
        if next.None? {
          ledger := ledger.(doneAt := |ledger.inserted|);
          log := Quietly(start, log, s, Thread, Snapshot(Done));
          return;
        }
        ledger := Free(ledger, next.value);
        log := Quietly(start, log, s, Thread, Snapshot(Drain));
      }
    }

    /** The end of the thread: commands are refused from now on, and what is queued is freed. */
    method Leave(ghost start: State, ghost before: seq<Event>)
      returns (ghost log: seq<Event>)
      requires Run(start, before, Snapshot(Leaving))
      modifies this`queue, this`ledger, this`running
      ensures Run(start, log, Snapshot(Done)) && queue == []
    {
      hide Run;
      ghost var s := Snapshot(Leaving);
      running := false;
      log := Quietly(start, before, s, Thread, Snapshot(Drain));
      log := DrainQueue(start, log);
    }

    /**
     `rtw_cmd_thread` from a sleep, until it would sleep on an exhausted semaphore or is done. It gets there, the
     machine can take every one of its steps, and once it sleeps there is nothing left in the queue.
     */
    method CmdThread(envAt: nat -> Env) returns (done: bool, ghost log: seq<Event>)
      requires Inv(Snapshot(Waiting)) && pendingUps == 0 && Codes(queue)
      modifies this
      ensures Run(old(Snapshot(Waiting)), log, Snapshot(if done then Done else Waiting))
      ensures queue == [] && (!done ==> sema == 0)
      ensures old(stopReq) && !old(pendingStopUp) ==> done
    {
      hide Run, Dispose, Free, Passes, Inv;
      ghost var start := Snapshot(Waiting);
      log := [];
      StartHere(start);
      var count := 0;
      while true
        invariant Run(start, log, Snapshot(Waiting)) && Codes(queue) && pendingUps == 0
        invariant stopReq == old(stopReq) && pendingStopUp == old(pendingStopUp)
        decreases sema
      {
        RunKeepsInv(start, log, Snapshot(Waiting));
        ghost var s := Snapshot(Waiting);
        if sema == 0 {
          SleepsWhenEmpty(s);
          return false, log;
        }
        sema := sema - 1;
        log := Quietly(start, log, s, Thread, Snapshot(Woken));
        if stopReq {
          log := Quietly(start, log, Snapshot(Woken), Thread, Snapshot(Leaving));
          break;
        }
        log := Quietly(start, log, Snapshot(Woken), Thread, Snapshot(Next));
        var leave;
        leave, count, log := HandleQueue(start, log, envAt, count);
        if leave {
          break;
        }
      }
      log := Leave(start, log);
      done := true;
    }
  }

  lemma AddAndTake(m: multiset<Cmd>, x: Cmd)
    ensures m + multiset{x} - multiset{x} == m && x in m + multiset{x}
  {
  }

  /** It is one refused step, or the three steps in a row. */
  lemma EnqueuedIsThreeSteps(s: State, cmd: Cmd)
    requires Enabled(s, Submit(cmd))
    ensures Passes(s.env, s.running, cmd) ==>
              && Enabled(Step(s, Submit(cmd)), Insert(cmd))
              && Enabled(Step(Step(s, Submit(cmd)), Insert(cmd)), Up)
              && Enqueued(s, cmd) == Step(Step(Step(s, Submit(cmd)), Insert(cmd)), Up)
    ensures !Passes(s.env, s.running, cmd) ==> Enqueued(s, cmd) == Step(s, Submit(cmd))
  {
    hide Passes, Free;
    AddAndTake(s.passed, cmd);
  }
}
