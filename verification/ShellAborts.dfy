/** Runs of the shell that end in an abort: the two ways that the invariant leaves open both happen. */
module ShellAborts {
  import opened JobTable
  import opened ShellRuns

  function Last(run: seq<Shell>): Shell
    requires run != []
  {
    run[|run| - 1]
  }

  /** The run can go on from its last state. */
  lemma Extended(run: seq<Shell>, t: Shell)
    requires Run(run) && Next(Last(run), t) && Sized(t.table)
    ensures Run(run + [t]) && Last(run + [t]) == t
  {
    hide Next, Init;
    var more := run + [t];
    forall i {:trigger more[i]} | 0 <= i < |more|
      ensures Sized(more[i].table) && (i + 1 < |more| ==> Next(more[i], more[i + 1]))
    {
      if i < |run| { assert more[i] == run[i]; }
    }
  }

  /** bg or fg with the ID of a process that no job has: the shell aborts in its first command. */
  lemma UnknownProcess(p: int, state: JobState) returns (run: seq<Shell>)
    requires p != 0 && (state == FG || state == BG)
    ensures Run(run) && |run| == 2 && ResumeStep(run[0], run[1], PidArg(p), state, true)
    ensures Last(run).phase == Ended(Aborted(NoSuchJob))
  {
    hide Inv, Pids, FgJob, MaxJid;
    var s := Shell(EmptyTable(), map[], {}, Prompt);
    var t := s.(phase := Ended(Aborted(NoSuchJob)));
    EmptyInv();
    FoundByPid(s.table, p);
    StateOfNone(s.table, state);
    assert ResumeStep(s, t, PidArg(p), state, true);
    assert Run([s]);
    run := [s] + [t];
    Extended([s], t);
  }

  // ----- more children than the table has slots -----

  /** n background children, 1 to n, are running; those beyond the size of the table are untracked. */
  ghost predicate Children(s: Shell, n: int) {
    && s.phase == Prompt && (forall p :: p in s.children <==> 1 <= p <= n)
    && (forall p {:trigger s.children[p]} :: p in s.children ==> s.children[p] == Running)
    && (forall p :: p in s.untracked <==> 64 < p <= n)
    && s.table.nextjid == if n < 64 then n + 1 else 65
  }

  /** A further background child. */
  lemma ForkOne(run: seq<Shell>, n: nat) returns (f: Shell)
    requires Run(run) && Children(Last(run), n)
    ensures Run(run + [f]) && Last(run + [f]) == f
    ensures f == Last(run).(children := Last(run).children[n + 1 := Running], phase := Forked(n + 1, BG, ""))
  {
    hide Init, AddStep, TestStep, ResumeStep, ReapStep, ChildStep;
    RunSafe(run, |run| - 1);
    var s := Last(run);
    f := s.(children := s.children[n + 1 := Running], phase := Forked(n + 1, BG, ""));
    assert ForkStep(s, f, n + 1, BG, "");
    Extended(run, f);
  }

  /** It is entered in the table if there is room. */
  lemma AddOne(run: seq<Shell>, f: Shell, pid: int) returns (t: Shell)
    requires Run(run) && Last(run) == f && f.phase == Forked(pid, BG, "")
    ensures Run(run + [t]) && Last(run + [t]) == t
    ensures Sized(f.table) && t.children == f.children && t.phase == Prompt
    ensures t.table.nextjid == if f.table.nextjid > MAXJOBS then f.table.nextjid else f.table.nextjid + 1
    ensures t.untracked == if f.table.nextjid > MAXJOBS then f.untracked + {pid} else f.untracked
    ensures f.table.nextjid <= MAXJOBS + 1
  {
    hide Init, Inv, Pids, FgJob, IsFg, HasPid, JobFromPid, TestStep, ResumeStep, ReapStep, ChildStep;
    RunSafe(run, |run| - 1);
    NextJid(f.table);
    AddKeeps(f.table, pid, BG, "");
    var u := AddJob(f.table, pid, BG, "").1;
    t := f.(table := u, untracked := if f.table.nextjid > MAXJOBS then f.untracked + {pid} else f.untracked,
            phase := Prompt);
    assert AddStep(f, t);
    Extended(run, t);
  }

  lemma OneMore(run: seq<Shell>, n: nat) returns (more: seq<Shell>)
    requires Run(run) && Children(Last(run), n)
    ensures Run(more) && Children(Last(more), n + 1)
  {
    hide Next, Init;
    var f := ForkOne(run, n);
    var t := AddOne(run + [f], f, n + 1);
    more := run + [f] + [t];
  }

  lemma {:induction false} ManyChildren(n: nat) returns (run: seq<Shell>)
    ensures Run(run) && Children(Last(run), n)
  {
    if n == 0 {
      run := [Shell(EmptyTable(), map[], {}, Prompt)];
      hide Next;
      assert EmptyTable().nextjid == 1;
    } else {
      var before := ManyChildren(n - 1);
      run := OneMore(before, n - 1);
    }
  }

  /** Once an untracked child stops at the prompt, the handler aborts the shell. */
  lemma UntrackedStops(run: seq<Shell>, p: int) returns (more: seq<Shell>)
    requires Run(run) && Last(run).phase == Prompt && p in Last(run).untracked
    requires p in Last(run).children && Last(run).children[p] == Running
    ensures Run(more) && |run| < |more| && more[..|run|] == run
    ensures Last(more).phase == Ended(Aborted(NoSuchJob))
  {
    hide Init, Inv, Pids, JobFromPid, SetState, DeleteJob;
    var s := Last(run);
    var stopped := s.(children := s.children[p := Stopped(false)]);
    assert CanBecome(s.children[p], Stopped(false)) && ChildStep(s, stopped, p);
    Extended(run, stopped);
    var run1 := run + [stopped];
    var handling := stopped.(phase := Handling(Prompt));
    assert HandlerEnters(stopped, handling);
    Extended(run1, handling);
    var run2 := run1 + [handling];
    RunSafe(run2, |run2| - 1);
    FoundByPid(handling.table, p);
    StateOfNone(handling.table, ST);
    var t := handling.(phase := Ended(Aborted(NoSuchJob)));
    assert ReapStep(handling, t, p);
    Extended(run2, t);
    more := run2 + [t];
  }

  /** With one child more than the table has slots the shell can abort: the last child stops. */
  lemma OneTooMany() returns (run: seq<Shell>)
    ensures Run(run) && Last(run).phase == Ended(Aborted(NoSuchJob))
    ensures exists i {:trigger run[i]} :: 0 <= i < |run| && Children(run[i], 65)
  {
    hide Next, Init;
    var full := ManyChildren(65);
    run := UntrackedStops(full, 65);
    assert run[|full| - 1] == run[..|full|][|full| - 1];
  }

  // ----- the wait for a foreground job -----

  /** The child ends or stops during the wait, and the handler starts. */
  lemma ToHandler(run: seq<Shell>, p: int, c: Child) returns (t: Shell, more: seq<Shell>)
    requires Run(run) && Last(run).phase.Suspended? && p in Last(run).children
    requires Last(run).children[p] == Running && (c == Zombie || c == Stopped(false))
    ensures t == Last(run).(children := Last(run).children[p := c], phase := Handling(Last(run).phase))
    ensures Run(more) && |run| < |more| && more[..|run|] == run && Last(more) == t
  {
    hide AddStep, TestStep, ResumeStep, ReapStep, ForkStep, Init;
    var s := Last(run);
    var changed := s.(children := s.children[p := c]);
    assert CanBecome(s.children[p], c) && ChildStep(s, changed, p);
    Extended(run, changed);
    t := changed.(phase := Handling(s.phase));
    assert HandlerEnters(changed, t);
    Extended(run + [changed], t);
    more := run + [changed] + [t];
  }

  /** The handler returns, and the test of the wait fails. */
  lemma ToPrompt(run: seq<Shell>, jid: int) returns (t: Shell, more: seq<Shell>)
    requires Run(run) && Last(run).phase == Handling(Suspended(jid)) && !IsFg(Last(run).table, jid)
    requires forall q :: q in Last(run).children ==> !Reportable(Last(run).children[q])
    ensures t == Last(run).(phase := Prompt)
    ensures Run(more) && |run| < |more| && more[..|run|] == run && Last(more) == t
  {
    hide AddStep, ChildStep, ResumeStep, ReapStep, ForkStep, Init;
    var tested := Last(run).(phase := Testing(jid));
    assert HandlerReturns(Last(run), tested);
    Extended(run, tested);
    t := tested.(phase := Prompt);
    assert TestStep(tested, t);
    Extended(run + [tested], t);
    more := run + [tested] + [t];
  }

  /** While the shell waits for the job of a running child, and no other child has anything to report, the child's
      end or stop brings the prompt back: the job is gone, or listed as stopped. */
  lemma WaitEnds(run: seq<Shell>, p: int, stops: bool) returns (more: seq<Shell>)
    requires Run(run) && Last(run).phase.Suspended? && HasPid(Last(run).table, p, Last(run).phase.jid)
    requires p in Last(run).children && Last(run).children[p] == Running
    requires forall q :: q in Last(run).children ==> !Reportable(Last(run).children[q])
    ensures Run(more) && |run| < |more| && more[..|run|] == run && Last(more).phase == Prompt
    ensures Last(more).children.Keys == Last(run).children.Keys - if stops then {} else {p}
    ensures if stops then HasPid(Last(more).table, p, Last(run).phase.jid)
                          && Last(more).table.jobs[Last(run).phase.jid - 1].state == ST
            else p !in Pids(Last(more).table)
  {
    hide Pids, Next, Init;
    var jid := Last(run).phase.jid;
    var handling, run1 := ToHandler(run, p, if stops then Stopped(false) else Zombie);
    var reaped := Reaped(run1, p, jid, stops);
    var run2 := run1 + [reaped];
    var t, run3 := ToPrompt(run2, jid);
    more := run3;
    assert more[..|run|] == more[..|run2|][..|run|] == run2[..|run|] == run1[..|run|];
  }

  /** The handler's report of the child. */
  lemma Reaped(run: seq<Shell>, p: int, jid: int, stops: bool) returns (t: Shell)
    requires Run(run) && Last(run).phase == Handling(Suspended(jid)) && HasPid(Last(run).table, p, jid)
    requires p in Last(run).children && Last(run).children[p] == if stops then Stopped(false) else Zombie
    ensures Run(run + [t]) && Last(run + [t]) == t && Sized(t.table) && t.phase == Last(run).phase
    ensures t.children == if stops then Last(run).children[p := Stopped(true)] else Last(run).children - {p}
    ensures if stops then HasPid(t.table, p, jid) && t.table.jobs[jid - 1].state == ST
            else p !in Pids(t.table) && !Exists(t.table, jid)
  {
    hide Inv, Pids, JobFromPid, SetState, DeleteJob, FgJob, MaxJid, Next, Init;
    var s := Last(run);
    RunSafe(run, |run| - 1);
    AddedFound(s.table, p, jid);
    if stops {
      SetStateKeeps(s.table, jid, ST);
      t := s.(table := SetState(s.table, jid, ST).1, children := s.children[p := Stopped(true)]);
    } else {
      DeleteKeeps(s.table, jid);
      PidKnown(s, p);
      t := s.(table := DeleteJob(s.table, jid).1, children := s.children - {p}, untracked := s.untracked - {p});
    }
    assert ReapStep(s, t, p);
    IsNext(s, t, p);
    Extended(run, t);
  }

  lemma IsNext(s: Shell, t: Shell, p: int)
    requires Sized(s.table) && ReapStep(s, t, p)
    ensures Next(s, t)
  {
  }
}
