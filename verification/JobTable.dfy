/** The shell's job table as a value, and what the operations on it do. */
module JobTable {

  const MAXJOBS: nat := 64

  datatype JobState = UNDEF | BG | FG | ST

  datatype Job = Job(pid: int, jid: int, state: JobState, cmdline: string)

  datatype Table = Table(jobs: seq<Job>, nextjid: int)

  /** The ways in which an operation ends the shell. */
  datatype Failure = NoSuchJob | SecondForeground | InvalidState | InvalidPid | SlotTaken | BadNextJid

  datatype Answer<T> = Returns(value: T) | Aborts(why: Failure)

  predicate Sized(t: Table) {
    |t.jobs| == MAXJOBS
  }

  predicate Exists(t: Table, jid: int)
    requires Sized(t)
  {
    1 <= jid <= MAXJOBS && t.jobs[jid - 1].state != UNDEF
  }

  // ----- searching -----

  /** The largest job ID in use up to j, or 0. */
  function LargestUpTo(t: Table, j: int): int
    requires Sized(t) && j <= MAXJOBS
    decreases j
  {
    if j < 1 then 0 else if Exists(t, j) then j else LargestUpTo(t, j - 1)
  }

  function MaxJid(t: Table): int
    requires Sized(t)
  {
    LargestUpTo(t, MAXJOBS)
  }

  lemma {:induction false} LargestIs(t: Table, j: int)
    requires Sized(t) && 0 <= j <= MAXJOBS
    ensures var m := LargestUpTo(t, j);
            && 0 <= m <= j && (m > 0 ==> Exists(t, m))
            && forall k {:trigger Exists(t, k)} :: m < k <= j ==> !Exists(t, k)
    decreases j
  {
    if j > 0 && !Exists(t, j) { LargestIs(t, j - 1); }
  }

  predicate IsFg(t: Table, jid: int)
    requires Sized(t)
  {
    1 <= jid <= MAXJOBS && t.jobs[jid - 1].state == FG
  }

  predicate HasPid(t: Table, pid: int, jid: int)
    requires Sized(t)
  {
    Exists(t, jid) && t.jobs[jid - 1].pid == pid
  }

  /** The first foreground job from j on, or 0. */
  function FgFrom(t: Table, j: int): int
    requires Sized(t) && 1 <= j <= MAXJOBS + 1
    decreases MAXJOBS + 1 - j
  {
    if j > MAXJOBS then 0 else if IsFg(t, j) then j else FgFrom(t, j + 1)
  }

  function FgJob(t: Table): int
    requires Sized(t)
  {
    FgFrom(t, 1)
  }

  function PidFrom(t: Table, pid: int, j: int): int
    requires Sized(t) && 1 <= j <= MAXJOBS + 1
    decreases MAXJOBS + 1 - j
  {
    if j > MAXJOBS then 0 else if HasPid(t, pid, j) then j else PidFrom(t, pid, j + 1)
  }

  /** The job with a process ID, or 0. */
  function JobFromPid(t: Table, pid: int): int
    requires Sized(t)
  {
    if pid < 1 then 0 else PidFrom(t, pid, 1)
  }

  lemma {:induction false} FgIs(t: Table, j: int)
    requires Sized(t) && 1 <= j <= MAXJOBS + 1
    ensures var f := FgFrom(t, j);
            && (f == 0 || (j <= f && IsFg(t, f)))
            && (f == 0 ==> forall k {:trigger IsFg(t, k)} :: j <= k ==> !IsFg(t, k))
    decreases MAXJOBS + 1 - j
  {
    if j <= MAXJOBS && !IsFg(t, j) { FgIs(t, j + 1); }
  }

  lemma {:induction false} PidIs(t: Table, pid: int, j: int)
    requires Sized(t) && 1 <= j <= MAXJOBS + 1
    ensures var f := PidFrom(t, pid, j);
            && (f == 0 || (j <= f && HasPid(t, pid, f)))
            && (f == 0 ==> forall k {:trigger HasPid(t, pid, k)} :: j <= k ==> !HasPid(t, pid, k))
    decreases MAXJOBS + 1 - j
  {
    if j <= MAXJOBS && !HasPid(t, pid, j) { PidIs(t, pid, j + 1); }
  }

  // ----- changing the table -----

  function Put(t: Table, jid: int, job: Job): Table
    requires Sized(t) && 1 <= jid <= MAXJOBS
  {
    t.(jobs := t.jobs[jid - 1 := job])
  }

  /** add_job: the new job ID, 0 if the table is full. */
  function AddJob(t: Table, pid: int, state: JobState, cmdline: string): (r: (Answer<int>, Table))
    requires Sized(t)
    ensures Sized(r.1)
  {
    if state == FG && FgJob(t) != 0 then (Aborts(SecondForeground), t)
    else if state == UNDEF then (Aborts(InvalidState), t)
    else if pid <= 0 then (Aborts(InvalidPid), t)
    else if t.nextjid <= 0 then (Aborts(BadNextJid), t)
    else if t.nextjid > MAXJOBS then (Returns(0), t)
    else if t.jobs[t.nextjid - 1].state != UNDEF then (Aborts(SlotTaken), t)
    else (Returns(t.nextjid), Put(t, t.nextjid, Job(pid, t.nextjid, state, cmdline)).(nextjid := t.nextjid + 1))
  }

  /** delete_job: was there such a job? */
  function DeleteJob(t: Table, jid: int): (r: (bool, Table))
    requires Sized(t)
    ensures Sized(r.1)
  {
    if !Exists(t, jid) then (false, t)
    else
      var cleared := Put(t, jid, Job(0, 0, UNDEF, t.jobs[jid - 1].cmdline));
      (true, cleared.(nextjid := MaxJid(cleared) + 1))
  }

  /** job_set_state. */
  function SetState(t: Table, jid: int, state: JobState): (r: (Answer<()>, Table))
    requires Sized(t)
    ensures Sized(r.1)
  {
    if !Exists(t, jid) then (Aborts(NoSuchJob), t)
    else if state == UNDEF then (Aborts(InvalidState), t)
    else if state == FG && FgJob(t) != 0 then (Aborts(SecondForeground), t)
    else (Returns(()), Put(t, jid, t.jobs[jid - 1].(state := state)))
  }

  function EmptyTable(): Table {
    Table(seq(MAXJOBS, _ => Job(0, 0, UNDEF, "")), 1)
  }

  // ----- the invariant -----

  ghost predicate SlotOk(t: Table, k: int)
    requires Sized(t)
  {
    Exists(t, k) ==> t.jobs[k - 1].jid == k && t.jobs[k - 1].pid > 0
  }

  /** Jobs are in the slots of their IDs, pids and the foreground are unique, and nextjid follows the
      largest ID in use. */
  ghost predicate Inv(t: Table) {
    && Sized(t) && t.nextjid == MaxJid(t) + 1
    && (forall k {:trigger SlotOk(t, k)} :: SlotOk(t, k))
    && (forall j, k, p {:trigger HasPid(t, p, j), HasPid(t, p, k)} :: HasPid(t, p, j) && HasPid(t, p, k) ==> j == k)
    && (forall j, k {:trigger IsFg(t, j), IsFg(t, k)} :: IsFg(t, j) && IsFg(t, k) ==> j == k)
  }

  /** The process IDs of the jobs. */
  ghost function Pids(t: Table): set<int>
    requires Sized(t)
  {
    set k | 1 <= k <= MAXJOBS && Exists(t, k) :: t.jobs[k - 1].pid
  }

  lemma PidsAre(t: Table, p: int)
    requires Sized(t)
    ensures p in Pids(t) <==> exists k {:trigger HasPid(t, p, k)} :: HasPid(t, p, k)
  {
    if k :| HasPid(t, p, k) { assert t.jobs[k - 1].pid in Pids(t); }
    if p in Pids(t) {
      var k :| 1 <= k <= MAXJOBS && Exists(t, k) && t.jobs[k - 1].pid == p;
      assert HasPid(t, p, k);
    }
  }

  /** nextjid is one more than the largest ID in use, and no slot from it on is in use. */
  lemma NextJid(t: Table)
    requires Inv(t)
    ensures 1 <= t.nextjid <= 65
    ensures t.nextjid > 1 ==> Exists(t, t.nextjid - 1)
    ensures forall k {:trigger Exists(t, k)} :: k >= t.nextjid ==> !Exists(t, k)
  {
    LargestIs(t, MAXJOBS);
  }

  lemma EmptyInv()
    ensures Inv(EmptyTable()) && Pids(EmptyTable()) == {} && FgJob(EmptyTable()) == 0
  {
    var t := EmptyTable();
    LargestIs(t, MAXJOBS);
    FgIs(t, 1);
    assert forall k :: !Exists(t, k);
  }

  /** Finding a job by its process ID. */
  lemma FoundByPid(t: Table, pid: int)
    requires Inv(t)
    ensures JobFromPid(t, pid) != 0 <==> pid in Pids(t)
    ensures JobFromPid(t, pid) != 0 ==> HasPid(t, pid, JobFromPid(t, pid))
  {
    PidIs(t, pid, 1);
    PidsAre(t, pid);
    if pid in Pids(t) {
      var k :| HasPid(t, pid, k);
      assert SlotOk(t, k);
    }
  }

  // ----- what each operation keeps -----

  /** All jobs but one are as before. */
  ghost predicate OthersSame(t: Table, u: Table, jid: int)
    requires Sized(t) && Sized(u)
  {
    forall k {:trigger Exists(u, k)} :: k != jid ==>
      (Exists(u, k) <==> Exists(t, k)) && (Exists(u, k) ==> u.jobs[k - 1] == t.jobs[k - 1])
  }

  /** One slot changed: everything about the others is as before. */
  lemma Changed(t: Table, jid: int, job: Job, n: int)
    requires Sized(t) && 1 <= jid <= MAXJOBS
    ensures var u := Put(t, jid, job).(nextjid := n);
            && Sized(u) && u.jobs[jid - 1] == job && OthersSame(t, u, jid)
            && (forall k {:trigger Exists(u, k)} :: Exists(u, k)
                 <==> if k == jid then job.state != UNDEF else Exists(t, k))
            && (forall p, k {:trigger HasPid(u, p, k)} ::
                 HasPid(u, p, k) <==> if k == jid then job.state != UNDEF && job.pid == p else HasPid(t, p, k))
            && (forall k {:trigger IsFg(u, k)} :: IsFg(u, k) <==> if k == jid then job.state == FG else IsFg(t, k))
            && (forall k {:trigger SlotOk(u, k)} ::
                 SlotOk(u, k) <==> if k == jid then job.state != UNDEF ==> job.jid == k && job.pid > 0
                                   else SlotOk(t, k))
  {
  }

  lemma PidsAdded(t: Table, u: Table, jid: int, pid: int)
    requires Sized(t) && Sized(u) && !Exists(t, jid)
    requires forall p, k {:trigger HasPid(u, p, k)} ::
        HasPid(u, p, k)
        <==> if k == jid then p == pid else HasPid(t, p, k)
    ensures Pids(u) == Pids(t) + {pid}
  {
    hide Pids;
    forall p ensures p in Pids(u) <==> p in Pids(t) || p == pid {
      PidsAre(t, p);
      PidsAre(u, p);
      assert HasPid(u, pid, jid);
      if k :| HasPid(t, p, k) { assert HasPid(u, p, k); }
    }
  }

  lemma PidsRemoved(t: Table, u: Table, jid: int, pid: int)
    requires Sized(t) && Sized(u) && HasPid(t, pid, jid)
    requires forall k {:trigger HasPid(t, pid, k)} :: HasPid(t, pid, k) ==> k == jid
    requires forall p, k {:trigger HasPid(u, p, k)} :: HasPid(u, p, k) <==> k != jid && HasPid(t, p, k)
    ensures Pids(u) == Pids(t) - {pid}
  {
    hide Pids;
    forall p ensures p in Pids(u) <==> p in Pids(t) && p != pid {
      PidsAre(t, p);
      PidsAre(u, p);
      if k :| HasPid(t, p, k) && p != pid { assert HasPid(u, p, k); }
    }
  }

  lemma PidsSame(t: Table, u: Table)
    requires Sized(t) && Sized(u)
    requires forall p, k {:trigger HasPid(u, p, k)} :: HasPid(u, p, k) <==> HasPid(t, p, k)
    ensures Pids(u) == Pids(t)
  {
    hide Pids;
    forall p ensures p in Pids(u) <==> p in Pids(t) {
      PidsAre(t, p);
      PidsAre(u, p);
      if k :| HasPid(t, p, k) { assert HasPid(u, p, k); }
    }
  }

  lemma NoFg(t: Table)
    requires Sized(t)
    ensures FgJob(t) == 0 <==> forall k {:trigger IsFg(t, k)} :: !IsFg(t, k)
    ensures FgJob(t) != 0 ==> IsFg(t, FgJob(t))
  {
    FgIs(t, 1);
  }

  /** Adding a job with a new process ID never hits an assertion and makes just this process known. */
  lemma AddKeeps(t: Table, pid: int, state: JobState, cmdline: string)
    requires Inv(t) && pid > 0 && pid !in Pids(t) && state != UNDEF && (state == FG ==> FgJob(t) == 0)
    ensures var (r, u) := AddJob(t, pid, state, cmdline);
            && Inv(u) && (r == Returns(0) || r == Returns(t.nextjid))
            && (r == Returns(0) <==> t.nextjid == MAXJOBS + 1) && (r == Returns(0) ==> u == t)
            && (r != Returns(0) ==>
                 && HasPid(u, pid, t.nextjid) && u.jobs[t.nextjid - 1].state == state
                 && u.jobs[t.nextjid - 1].cmdline == cmdline && u.jobs[t.nextjid - 1].jid == t.nextjid
                 && Pids(u) == Pids(t) + {pid} && OthersSame(t, u, t.nextjid))
            && (r != Returns(0) ==> forall k {:trigger IsFg(u, k)} ::
                 IsFg(u, k)
                 <==> if k == t.nextjid then state == FG else IsFg(t, k))
  {
    NextJid(t);
    NoFg(t);
    PidsAre(t, pid);
    hide MaxJid, FgJob, Pids, Put, SlotOk, IsFg;
    var j := t.nextjid;
    if j <= MAXJOBS {
      assert !Exists(t, j);
      var u := Put(t, j, Job(pid, j, state, cmdline)).(nextjid := j + 1);
      Changed(t, j, Job(pid, j, state, cmdline), j + 1);
      PidsAdded(t, u, j, pid);
      LargestAfter(u, j);
    }
  }

  /** Exactly when an operation on the table ends the shell, and why. */
  lemma AddAborts(t: Table, pid: int, state: JobState, cmdline: string)
    requires Inv(t)
    ensures var r := AddJob(t, pid, state, cmdline).0;
            && (r == Aborts(SecondForeground) <==> state == FG && exists k {:trigger IsFg(t, k)} :: IsFg(t, k))
            && (r == Aborts(InvalidState) <==> state == UNDEF)
            && (r == Aborts(InvalidPid) <==>
                  pid <= 0 && state != UNDEF && (state == FG ==> forall k {:trigger IsFg(t, k)} :: !IsFg(t, k)))
            && r != Aborts(BadNextJid) && r != Aborts(SlotTaken) && r != Aborts(NoSuchJob)
  {
    NextJid(t);
    NoFg(t);
    hide FgJob, Inv;
    assert t.nextjid <= MAXJOBS ==> !Exists(t, t.nextjid);
  }

  lemma SetAborts(t: Table, jid: int, state: JobState)
    requires Inv(t)
    ensures var r := SetState(t, jid, state).0;
            && (r == Aborts(NoSuchJob) <==> !Exists(t, jid))
            && (r == Aborts(InvalidState) <==> Exists(t, jid) && state == UNDEF)
            && (r == Aborts(SecondForeground) <==>
                  Exists(t, jid) && state == FG && exists k {:trigger IsFg(t, k)} :: IsFg(t, k))
            && r != Aborts(InvalidPid) && r != Aborts(BadNextJid) && r != Aborts(SlotTaken)
  {
    NoFg(t);
  }

  /** A process keeps its job unless that is the one changed. */
  lemma StillHas(t: Table, u: Table, jid: int, p: int, k: int)
    requires Sized(t) && Sized(u) && OthersSame(t, u, jid) && HasPid(t, p, k) && k != jid
    ensures HasPid(u, p, k) && u.jobs[k - 1] == t.jobs[k - 1]
  {
    assert Exists(u, k) <==> Exists(t, k);
  }

  lemma LargestAfter(u: Table, j: int)
    requires Sized(u) && Exists(u, j) && forall k {:trigger Exists(u, k)} :: k > j ==> !Exists(u, k)
    ensures MaxJid(u) == j
  {
    LargestIs(u, MAXJOBS);
  }

  /** Deleting a job forgets its process and frees every ID above the largest one left. */
  lemma DeleteKeeps(t: Table, jid: int)
    requires Inv(t)
    ensures var (r, u) := DeleteJob(t, jid);
            && Inv(u) && !Exists(u, jid) && (r <==> Exists(t, jid)) && (!r ==> u == t)
            && (Exists(t, jid) ==> Pids(u) == Pids(t) - {t.jobs[jid - 1].pid}) && OthersSame(t, u, jid)
            && (forall k {:trigger IsFg(u, k)} :: IsFg(u, k) <==> k != jid && IsFg(t, k))
  {
    hide MaxJid, FgJob, Pids, Put, SlotOk;
    if Exists(t, jid) {
      var u := DeleteJob(t, jid).1;
      var pid, none := t.jobs[jid - 1].pid, Job(0, 0, UNDEF, t.jobs[jid - 1].cmdline);
      Changed(t, jid, none, u.nextjid);
      assert HasPid(t, pid, jid);
      PidsRemoved(t, u, jid, pid);
      SameMax(Put(t, jid, none), u);
    }
  }

  lemma SameMax(t: Table, u: Table)
    requires Sized(t) && t.jobs == u.jobs
    ensures Sized(u) && MaxJid(u) == MaxJid(t)
  {
    LargestIs(t, MAXJOBS);
    LargestIs(u, MAXJOBS);
    var m, n := MaxJid(t), MaxJid(u);
    assert m > 0 ==> Exists(u, m);
    assert n > 0 ==> Exists(t, n);
  }

  /** Setting the state of a job changes nothing else about it, and no other job. */
  lemma SetStateKeeps(t: Table, jid: int, state: JobState)
    requires Inv(t) && Exists(t, jid) && state != UNDEF && (state == FG ==> FgJob(t) == 0)
    ensures var (r, u) := SetState(t, jid, state);
            && r.Returns? && Inv(u) && Pids(u) == Pids(t) && Exists(u, jid) && u.jobs[jid - 1].state == state
            && u.jobs[jid - 1].pid == t.jobs[jid - 1].pid && u.jobs[jid - 1].cmdline == t.jobs[jid - 1].cmdline
            && OthersSame(t, u, jid) && u.nextjid == t.nextjid
            && (forall k {:trigger IsFg(u, k)} :: IsFg(u, k) <==> if k == jid then state == FG else IsFg(t, k))
  {
    NoFg(t);
    hide MaxJid, FgJob, Pids, Put, SlotOk;
    var u := SetState(t, jid, state).1;
    assert SlotOk(t, jid);
    Changed(t, jid, t.jobs[jid - 1].(state := state), t.nextjid);
    assert u == Put(t, jid, t.jobs[jid - 1].(state := state)).(nextjid := t.nextjid);
    SlotOkIs(t, jid);
    PidsSame(t, u);
    SameExists(t, u);
  }

  lemma SlotOkIs(t: Table, k: int)
    requires Sized(t) && SlotOk(t, k) && Exists(t, k)
    ensures t.jobs[k - 1].jid == k && t.jobs[k - 1].pid > 0
  {
  }

  lemma SameExists(t: Table, u: Table)
    requires Sized(t) && Sized(u) && forall k {:trigger Exists(u, k)} :: Exists(u, k) <==> Exists(t, k)
    ensures MaxJid(t) == MaxJid(u)
  {
    LargestIs(t, MAXJOBS);
    LargestIs(u, MAXJOBS);
    var m, n := MaxJid(t), MaxJid(u);
    assert m > 0 ==> Exists(u, m);
    assert n > 0 ==> Exists(t, n);
  }
}
