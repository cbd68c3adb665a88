/** Runs of the shell: the parent side of command evaluation, the children it forks, and the SIGCHLD
    handler, interleaved in every way that the signal mask allows.

    Job control signals are blocked from the start of a command to its end except inside sigsuspend, so
    the handler runs at the prompt and while the shell is suspended, and children change state at any
    time. `untracked` records the children that were forked while the job table was full. */
module ShellRuns {
  import opened JobTable

  /** What a child is doing; reported says whether waitpid has told about a stop. */
  datatype Child = Running | Stopped(reported: bool) | Zombie

  datatype End = Quit | Aborted(why: Failure)

  datatype Phase =
    | Prompt                                                   // between commands, signals unblocked
    | Forked(pid: int, state: JobState, cmdline: string)       // after fork, before add_job
    | Testing(jid: int)                                        // the test of the foreground wait
    | Suspended(jid: int)                                      // in sigsuspend, signals unblocked
    | Handling(back: Phase)                                    // in the SIGCHLD handler
    | Ended(end: End)

  datatype Shell = Shell(table: Table, children: map<int, Child>, untracked: set<int>, phase: Phase)

  /** The argument of bg and fg: absent or not a number, a job ID, or a process ID. */
  datatype Argument = Unusable | JobArg(jid: int) | PidArg(pid: int)

  ghost predicate Init(s: Shell) {
    s == Shell(EmptyTable(), map[], {}, Prompt)
  }

  // ----- the steps -----

  /** A child exits or is killed, stops, or is continued. */
  ghost predicate ChildStep(s: Shell, t: Shell, p: int) {
    && p in s.children && !s.phase.Ended?
    && exists c {:trigger CanBecome(s.children[p], c)} ::
       CanBecome(s.children[p], c)
       && t == s.(children := s.children[p := c])
  }

  predicate CanBecome(a: Child, b: Child) {
    !a.Zombie? && (b == Zombie || (a.Running? && b == Stopped(false)) || (a.Stopped? && b == Running))
  }

  /** A command line that is not built in. */
  ghost predicate ForkStep(s: Shell, t: Shell, pid: int, state: JobState, cmdline: string) {
    && s.phase == Prompt && pid > 0 && pid !in s.children && (state == FG || state == BG)
    && t == s.(children := s.children[pid := Running], phase := Forked(pid, state, cmdline))
  }

  ghost predicate AddStep(s: Shell, t: Shell)
    requires Sized(s.table)
  {
    && s.phase.Forked?
    && var (r, u) := AddJob(s.table, s.phase.pid, s.phase.state, s.phase.cmdline);
       t == if r.Aborts? then s.(phase := Ended(Aborted(r.why)))
            else s.(table := u,
                    untracked := if r.value == 0 then s.untracked + {s.phase.pid} else s.untracked,
                    phase := if s.phase.state == FG then Testing(JobFromPid(u, s.phase.pid)) else Prompt)
  }

  /** while (job_exists(jid) && job_get_state(jid) == FG) sigsuspend. */
  ghost predicate TestStep(s: Shell, t: Shell)
    requires Sized(s.table)
  {
    && s.phase.Testing?
    && t == s.(phase := if Exists(s.table, s.phase.jid) && s.table.jobs[s.phase.jid - 1].state == FG
                        then Suspended(s.phase.jid) else Prompt)
  }

  /** SIGINT or SIGTSTP: their handlers only signal children, and sigsuspend returns. */
  ghost predicate InterruptStep(s: Shell, t: Shell) {
    s.phase.Suspended? && t == s.(phase := Testing(s.phase.jid))
  }

  /** bg and fg; continued says what killpg did. */
  ghost predicate ResumeStep(s: Shell, t: Shell, arg: Argument, state: JobState, delivered: bool)
    requires Sized(s.table)
  {
    && s.phase == Prompt && (state == FG || state == BG)
    && match arg
       case Unusable => t == s
       case JobArg(j) => if Exists(s.table, j) then Resumed(s, t, j, s.table.jobs[j - 1].pid, state, delivered)
           else t == s
       case PidArg(p) => p != 0 && Resumed(s, t, JobFromPid(s.table, p), p, state, delivered)
  }

  ghost predicate Resumed(s: Shell, t: Shell, jid: int, pid: int, state: JobState, delivered: bool)
    requires Sized(s.table)
  {
    var (r, u) := SetState(s.table, jid, state);
    t == if r.Aborts? then s.(phase := Ended(Aborted(r.why)))
         else if !delivered then s.(table := u, phase := Ended(Quit))
         else s.(table := u, children := Continued(s.children, pid), phase := if state == FG then Testing(jid)
             else Prompt)
  }

  function Continued(c: map<int, Child>, pid: int): (d: map<int, Child>)
    ensures d.Keys == c.Keys
  {
    if pid in c && c[pid].Stopped? then c[pid := Running] else c
  }

  ghost predicate QuitStep(s: Shell, t: Shell) {
    s.phase == Prompt && t == s.(phase := Ended(Quit))
  }

  ghost predicate HandlerEnters(s: Shell, t: Shell) {
    (s.phase == Prompt || s.phase.Suspended?) && t == s.(phase := Handling(s.phase))
  }

  predicate Reportable(c: Child) {
    c.Zombie? || c == Stopped(false)
  }

  /** waitpid reports child p. */
  ghost predicate ReapStep(s: Shell, t: Shell, p: int)
    requires Sized(s.table)
  {
    && s.phase.Handling? && p in s.children && Reportable(s.children[p])
    && if s.children[p].Zombie? then
         t == s.(table := DeleteJob(s.table, JobFromPid(s.table, p)).1, children := s.children - {p},
             untracked := s.untracked - {p})
       else
         var (r, u) := SetState(s.table, JobFromPid(s.table, p), ST);
         t == if r.Aborts? then s.(phase := Ended(Aborted(r.why)))
              else s.(table := u, children := s.children[p := Stopped(true)])
  }

  /** waitpid has nothing more to report; sigsuspend returns after the handler. */
  ghost predicate HandlerReturns(s: Shell, t: Shell) {
    && s.phase.Handling? && (forall p :: p in s.children ==> !Reportable(s.children[p]))
    && t == s.(phase := if s.phase.back.Suspended? then Testing(s.phase.back.jid) else s.phase.back)
  }

  ghost predicate Next(s: Shell, t: Shell)
    requires Sized(s.table)
  {
    || (exists p :: ChildStep(s, t, p))
    || (exists pid, state, cmdline :: ForkStep(s, t, pid, state, cmdline))
    || AddStep(s, t) || TestStep(s, t) || InterruptStep(s, t)
    || (exists arg, state, delivered :: ResumeStep(s, t, arg, state, delivered))
    || QuitStep(s, t) || HandlerEnters(s, t) || (exists p :: ReapStep(s, t, p)) || HandlerReturns(s, t)
  }

  // ----- the invariant -----

  /** The children that the shell has forked and not yet entered in the table. */
  function InFlight(phase: Phase): set<int> {
    if phase.Forked? then {phase.pid} else {}
  }

  /** Every child is in the table, or untracked, or just forked, and nothing else is in the table. */
  ghost predicate Accounted(s: Shell)
    requires Sized(s.table)
  {
    && s.children.Keys == Pids(s.table) + s.untracked + InFlight(s.phase)
    && Pids(s.table) !! s.untracked && InFlight(s.phase) !! Pids(s.table) + s.untracked
  }

  /** The job that the shell is waiting for, or 0. */
  function Awaited(phase: Phase): int {
    match phase
    case Testing(j) => j
    case Suspended(j) => j
    case Handling(Suspended(j)) => j
    case _ => 0
  }

  ghost predicate PhaseOk(phase: Phase) {
    && (phase.Forked? ==> phase.pid > 0 && (phase.state == FG || phase.state == BG))
    && (phase.Handling? ==> phase.back == Prompt || phase.back.Suspended?)
    && (phase.Ended? && phase.end.Aborted? ==> phase.end.why == NoSuchJob)
  }

  /** Only the job that the shell is waiting for is in the foreground. */
  ghost predicate FgAwaited(s: Shell)
    requires Sized(s.table)
  {
    forall k {:trigger IsFg(s.table, k)} :: IsFg(s.table, k) ==> k == Awaited(s.phase)
  }

  /** A child whose stop has been reported has a job, and the job is stopped. */
  ghost predicate StopsListed(s: Shell)
    requires Sized(s.table)
  {
    forall p {:trigger s.children[p]} :: p in s.children && s.children[p] == Stopped(true) ==>
      exists k {:trigger HasPid(s.table, p, k)} :: HasPid(s.table, p, k) && s.table.jobs[k - 1].state == ST
  }

  ghost predicate Safe(s: Shell) {
    && Sized(s.table) && Inv(s.table) && PhaseOk(s.phase)
    && (!s.phase.Ended? ==> Accounted(s) && FgAwaited(s) && StopsListed(s))
  }

  // ----- every step keeps it -----

  /** A step that changes one job at most keeps the stopped ones listed, if that is listed right afterwards. */
  lemma StopsKept(s: Shell, t: Shell, jid: int)
    requires Sized(s.table) && Sized(t.table) && StopsListed(s) && OthersSame(s.table, t.table, jid)
    requires forall p {:trigger t.children[p]} :: p in t.children && t.children[p] == Stopped(true) ==>
               (p in s.children && s.children[p] == Stopped(true) && !HasPid(s.table, p, jid))
               || (HasPid(t.table, p, jid) && t.table.jobs[jid - 1].state == ST)
    ensures StopsListed(t)
  {
    forall p {:trigger t.children[p]} | p in t.children && t.children[p] == Stopped(true)
      ensures exists k {:trigger HasPid(t.table, p, k)} :: HasPid(t.table, p, k) && t.table.jobs[k - 1].state == ST
    {
      if !(HasPid(t.table, p, jid) && t.table.jobs[jid - 1].state == ST) {
        var k :| HasPid(s.table, p, k) && s.table.jobs[k - 1].state == ST;
        StillHas(s.table, t.table, jid, p, k);
      }
    }
  }

  lemma InitSafe(s: Shell)
    requires Init(s)
    ensures Safe(s)
  {
    EmptyInv();
    NoFg(s.table);
  }

  lemma AddSafe(s: Shell, t: Shell)
    requires Safe(s) && AddStep(s, t)
    ensures Safe(t) && !t.phase.Ended?
    ensures t.untracked == s.untracked <==> s.table.nextjid <= MAXJOBS
    ensures s.table.nextjid <= MAXJOBS ==>
              var job := t.table.jobs[s.table.nextjid - 1];
              && job == Job(s.phase.pid, s.table.nextjid, s.phase.state, s.phase.cmdline)
              && t.phase == if s.phase.state == FG then Testing(s.table.nextjid) else Prompt
  {
    hide Inv, Pids, AddJob, JobFromPid, IsFg, FgJob;
    assert forall p :: HasPid(s.table, p, s.table.nextjid) ==> Exists(s.table, s.table.nextjid);
    hide HasPid;
    NoFg(s.table);
    AddKeeps(s.table, s.phase.pid, s.phase.state, s.phase.cmdline);
    NextJid(s.table);
    var u := AddJob(s.table, s.phase.pid, s.phase.state, s.phase.cmdline).1;
    AddedFound(u, s.phase.pid, s.table.nextjid);
    FoundByPid(u, s.phase.pid);
    StopsKept(s, t, s.table.nextjid);
    PidOf(u, s.phase.pid, s.table.nextjid);
  }

  lemma PidOf(t: Table, pid: int, jid: int)
    requires Sized(t)
    ensures HasPid(t, pid, jid) ==> Exists(t, jid) && t.jobs[jid - 1].pid == pid
  {
  }

  lemma AddedFound(t: Table, pid: int, jid: int)
    requires Inv(t)
    ensures HasPid(t, pid, jid) ==> pid in Pids(t) && JobFromPid(t, pid) == jid
  {
    if HasPid(t, pid, jid) {
      PidsAre(t, pid);
      FoundByPid(t, pid);
    }
  }

  lemma ReapSafe(s: Shell, t: Shell, p: int)
    requires Safe(s) && ReapStep(s, t, p)
    ensures Safe(t)
    ensures t.phase.Ended? <==> s.children[p] == Stopped(false) && p in s.untracked
    ensures s.children[p].Zombie? ==> t.children == s.children - {p} && Pids(t.table) == Pids(s.table) - {p}
    ensures s.children[p] == Stopped(false) && p !in s.untracked ==>
              t.children == s.children[p := Stopped(true)]
              && exists k {:trigger HasPid(t.table, p, k)} :: HasPid(t.table, p, k) && t.table.jobs[k - 1].state == ST
  {
    hide Inv, Pids, DeleteJob, SetState, JobFromPid, IsFg, FgJob;
    FoundByPid(s.table, p);
    PidKnown(s, p);
    var j := JobFromPid(s.table, p);
    assert forall q :: q != p ==> !HasPid(s.table, q, j);
    if s.children[p].Zombie? {
      DeleteKeeps(s.table, j);
      assert j != 0 ==> Exists(s.table, j) && s.table.jobs[j - 1].pid == p;
      assert j == 0 ==> !Exists(s.table, j);
      StopsKept(s, t, j);
    } else if j != 0 {
      SetStateKeeps(s.table, j, ST);
      assert HasPid(t.table, p, j);
      StopsKept(s, t, j);
    } else {
      StateOfNone(s.table, ST);
    }
  }

  /** Except between a fork and the entry in the table, a child is tracked or untracked. */
  lemma PidKnown(s: Shell, p: int)
    requires Safe(s) && !s.phase.Ended? && !s.phase.Forked?
    ensures p in s.children <==> p in Pids(s.table) || p in s.untracked
    ensures p in s.untracked ==> p !in Pids(s.table)
  {
  }

  lemma StateOfNone(t: Table, state: JobState)
    requires Sized(t)
    ensures SetState(t, 0, state) == (Aborts(NoSuchJob), t)
  {
  }

  lemma ResumeSafe(s: Shell, t: Shell, arg: Argument, state: JobState, delivered: bool)
    requires Safe(s) && ResumeStep(s, t, arg, state, delivered)
    ensures Safe(t)
    ensures t.phase.Ended? && t.phase.end.Aborted? <==> arg.PidArg? && arg.pid !in Pids(s.table)
    ensures (arg.Unusable? || (arg.JobArg? && !Exists(s.table, arg.jid))) ==> t == s
    ensures forall p {:trigger Names(s, arg, p)} :: Names(s, arg, p) && !delivered ==> t.phase == Ended(Quit)
    ensures forall p {:trigger Names(s, arg, p)} :: Names(s, arg, p) && delivered ==>
              && p in t.children && !t.children[p].Stopped?
              && exists k {:trigger HasPid(t.table, p, k)} ::
                   HasPid(t.table, p, k) && t.table.jobs[k - 1].state == state
                   && t.phase == if state == FG then Testing(k) else Prompt
  {
    match arg
    case Unusable =>
    case JobArg(j) => if Exists(s.table, j) { ResumedSafe(s, t, j, s.table.jobs[j - 1].pid, state, delivered); }
    case PidArg(p) =>
      FoundByPid(s.table, p);
      ResumedSafe(s, t, JobFromPid(s.table, p), p, state, delivered);
  }

  /** The argument of bg or fg names the job of process p. */
  ghost predicate Names(s: Shell, arg: Argument, p: int)
    requires Sized(s.table)
  {
    (arg.JobArg? && HasPid(s.table, p, arg.jid)) || (arg.PidArg? && arg.pid == p && p in Pids(s.table))
  }

  lemma ResumedSafe(s: Shell, t: Shell, jid: int, pid: int, state: JobState, delivered: bool)
    requires Safe(s) && s.phase == Prompt && (state == FG || state == BG) && Resumed(s, t, jid, pid, state, delivered)
    requires jid != 0 ==> HasPid(s.table, pid, jid)
    ensures Safe(t)
    ensures t.phase.Ended? && t.phase.end.Aborted? <==> jid == 0
    ensures jid != 0 && !delivered ==> t.phase == Ended(Quit)
    ensures jid != 0 && delivered ==>
              && pid in t.children && !t.children[pid].Stopped?
              && HasPid(t.table, pid, jid) && t.table.jobs[jid - 1].state == state
              && t.phase == if state == FG then Testing(jid) else Prompt
  {
    hide Inv, Pids, SetState, JobFromPid, IsFg, FgJob;
    NoFg(s.table);
    if jid != 0 {
      SetStateKeeps(s.table, jid, state);
      AddedFound(s.table, pid, jid);
      PidKnown(s, pid);
      if delivered { StopsKept(s, t, jid); }
    } else {
      StateOfNone(s.table, state);
    }
  }

  lemma ChildSafe(s: Shell, t: Shell, p: int)
    requires Safe(s) && ChildStep(s, t, p)
    ensures Safe(t)
  {
    assert t.children.Keys == s.children.Keys;
  }

  lemma TestSafe(s: Shell, t: Shell)
    requires Safe(s) && TestStep(s, t)
    ensures Safe(t)
  {
  }

  /** Every step of the shell keeps the invariant. */
  lemma NextSafe(s: Shell, t: Shell)
    requires Safe(s) && Next(s, t)
    ensures Safe(t)
  {
    hide Inv, Pids, AddStep, TestStep, ResumeStep, ReapStep, ChildStep;
    if p :| ChildStep(s, t, p) { ChildSafe(s, t, p); }
    if p :| ReapStep(s, t, p) { ReapSafe(s, t, p); }
    if arg, state, delivered :| ResumeStep(s, t, arg, state, delivered) { ResumeSafe(s, t, arg, state, delivered); }
    if AddStep(s, t) { AddSafe(s, t); }
    if TestStep(s, t) { TestSafe(s, t); }
  }

  // ----- runs -----

  ghost predicate Run(run: seq<Shell>) {
    && |run| > 0 && Init(run[0])
    && forall i {:trigger run[i]} | 0 <= i < |run| ::
       Sized(run[i].table) && (i + 1 < |run| ==> Next(run[i], run[i + 1]))
  }

  lemma {:induction false} RunSafe(run: seq<Shell>, i: nat)
    requires Run(run) && i < |run|
    ensures Safe(run[i])
  {
    hide Safe, Next, Init;
    if i == 0 {
      InitSafe(run[0]);
    } else {
      RunSafe(run, i - 1);
      assert Next(run[i - 1], run[i - 1 + 1]);
      NextSafe(run[i - 1], run[i]);
    }
  }

  /** Whenever the handler can run, the table lists exactly the children not yet reaped, apart from those
      forked while it was full. */
  lemma TableIsChildren(run: seq<Shell>, i: nat)
    requires Run(run) && i < |run| && (run[i].phase == Prompt || run[i].phase.Suspended?)
    ensures Pids(run[i].table) == run[i].children.Keys - run[i].untracked
    ensures run[i].untracked == {} ==> Pids(run[i].table) == run[i].children.Keys
  {
    hide Run, Next, Init, Inv;
    RunSafe(run, i);
  }

  lemma StoppedJob(s: Shell, p: int)
    requires Safe(s) && !s.phase.Ended? && p in s.children && s.children[p] == Stopped(true)
    ensures var k := JobFromPid(s.table, p); HasPid(s.table, p, k) && s.table.jobs[k - 1].state == ST
  {
    hide Inv, Pids, JobFromPid, IsFg, FgJob;
    var k :| HasPid(s.table, p, k) && s.table.jobs[k - 1].state == ST;
    AddedFound(s.table, p, k);
  }

  /** Over every run, a child whose stop has been reported has a job in the table, in the stopped state. */
  lemma StoppedJobs(run: seq<Shell>, i: nat, p: int)
    requires Run(run) && i < |run| && !run[i].phase.Ended?
    requires p in run[i].children && run[i].children[p] == Stopped(true)
    ensures var t := run[i].table;
            HasPid(t, p, JobFromPid(t, p)) && t.jobs[JobFromPid(t, p) - 1].state == ST
  {
    hide Next, Init, Inv;
    RunSafe(run, i);
    StoppedJob(run[i], p);
  }

  /** At most one job is in the foreground; none is between commands, and during a wait only the job
      waited for. */
  lemma Foreground(run: seq<Shell>, i: nat)
    requires Run(run) && i < |run| && !run[i].phase.Ended?
    ensures run[i].phase == Prompt || run[i].phase.Forked? ==> FgJob(run[i].table) == 0
    ensures FgJob(run[i].table) == 0 || FgJob(run[i].table) == Awaited(run[i].phase)
  {
    hide Run, Next, Init, Inv;
    RunSafe(run, i);
    NoFg(run[i].table);
    NotZero(run[i].table);
  }

  lemma NotZero(t: Table)
    requires Sized(t)
    ensures !IsFg(t, 0)
  {
  }

  /** The only way in which job control can abort the shell: a job that is not in the table. */
  lemma OnlyUnknownJobs(run: seq<Shell>, i: nat)
    requires Run(run) && i < |run| && run[i].phase.Ended? && run[i].phase.end.Aborted?
    ensures run[i].phase.end.why == NoSuchJob
  {
    hide Run, Next, Init, Inv;
    RunSafe(run, i);
  }

  /** The table's own invariants hold throughout. */
  lemma TableInvariant(run: seq<Shell>, i: nat)
    requires Run(run) && i < |run|
    ensures Inv(run[i].table)
    ensures var t := run[i].table;
            && (t.nextjid == 1 || Exists(t, t.nextjid - 1))
            && forall k {:trigger Exists(t, k)} :: k >= t.nextjid ==> !Exists(t, k)
  {
    hide Run, Next, Init, Inv;
    RunSafe(run, i);
    NextJid(run[i].table);
  }
}
