/** The job list as the shell keeps it: a static array of job records updated in place, and nextjid. */
module JobList {
  import opened JobTable

  class Jobs {
    const list: array<Job>
    var nextjid: int

    ghost predicate Valid()
      reads this, list
    {
      list.Length == MAXJOBS
    }

    /** The list as a value. */
    ghost function Contents(): (t: Table)
      requires Valid()
      reads this, list
      ensures Sized(t)
    {
      Table(list[..], nextjid)
    }

    /** init_job_list. */
    constructor ()
      ensures Valid() && Contents() == EmptyTable() && fresh(list)
    {
      list := new Job[MAXJOBS](_ => Job(0, 0, UNDEF, ""));
      nextjid := 1;
    }

    method JobExists(jid: int) returns (b: bool)
      requires Valid()
      ensures b <==> Exists(Contents(), jid)
    {
      if jid < 1 || jid > MAXJOBS {
        return false;
      }
      return list[jid - 1].state != UNDEF;
    }

    method FindMaxJid() returns (m: int)
      requires Valid()
      ensures m == MaxJid(Contents())
    {
      var jid := MAXJOBS;
      while jid >= 1
        invariant 0 <= jid <= MAXJOBS && MaxJid(Contents()) == LargestUpTo(Contents(), jid)
      {
        var there := JobExists(jid);
        if there {
          return jid;
        }
        jid := jid - 1;
      }
      return 0;
    }

    method FindFgJob() returns (f: int)
      requires Valid()
      ensures f == FgJob(Contents())
    {
      var jid := 1;
      while jid <= MAXJOBS
        invariant 1 <= jid <= MAXJOBS + 1 && FgJob(Contents()) == FgFrom(Contents(), jid)
      {
        if list[jid - 1].state == FG {
          return jid;
        }
        jid := jid + 1;
      }
      return 0;
    }

    method FindJobFromPid(pid: int) returns (f: int)
      requires Valid()
      ensures f == JobFromPid(Contents(), pid)
    {
      if pid < 1 {
        return 0;
      }
      var jid := 1;
      while jid <= MAXJOBS
        invariant 1 <= jid <= MAXJOBS + 1 && JobFromPid(Contents(), pid) == PidFrom(Contents(), pid, jid)
      {
        if list[jid - 1].state != UNDEF && list[jid - 1].pid == pid {
          return jid;
        }
        jid := jid + 1;
      }
      return 0;
    }

    method Add(pid: int, state: JobState, cmdline: string) returns (r: Answer<int>)
      requires Valid()
      modifies this, list
      ensures Valid() && (r, Contents()) == AddJob(old(Contents()), pid, state, cmdline)
    {
      var fg := FindFgJob();
      if !((state == FG && fg == 0) || state == BG || state == ST) {
        if state == FG {
          return Aborts(SecondForeground);
        }
        return Aborts(InvalidState);
      }
      if pid <= 0 {
        return Aborts(InvalidPid);
      }
      if nextjid <= 0 {
        return Aborts(BadNextJid);
      }
      if nextjid > MAXJOBS {
        return Returns(0);
      }
      if list[nextjid - 1].state != UNDEF {
        return Aborts(SlotTaken);
      }
      Enter(nextjid, pid, state, cmdline);
      nextjid := nextjid + 1;
      return Returns(list[nextjid - 2].jid);
    }

    /** The end of add_job: the fields of a free slot are set one by one. */
    method Enter(jid: int, pid: int, state: JobState, cmdline: string)
      requires Valid() && 1 <= jid <= MAXJOBS
      modifies list
      ensures Contents() == Put(old(Contents()), jid, Job(pid, jid, state, cmdline))
    {
      list[jid - 1] := list[jid - 1].(jid := jid);
      list[jid - 1] := list[jid - 1].(pid := pid);
      list[jid - 1] := list[jid - 1].(state := state);
      list[jid - 1] := list[jid - 1].(cmdline := cmdline);
      assert list[..] == old(list[..])[jid - 1 := Job(pid, jid, state, cmdline)];
    }

    method Clear(jid: int)
      requires Valid() && 1 <= jid <= MAXJOBS
      modifies list
      ensures Contents() == Put(old(Contents()), jid, Job(0, 0, UNDEF, old(list[jid - 1].cmdline)))
    {
      list[jid - 1] := list[jid - 1].(pid := 0);
      list[jid - 1] := list[jid - 1].(jid := 0);
      list[jid - 1] := list[jid - 1].(state := UNDEF);
      assert list[..] == old(list[..])[jid - 1 := Job(0, 0, UNDEF, old(list[jid - 1].cmdline))];
    }

    method Delete(jid: int) returns (r: bool)
      requires Valid()
      modifies this, list
      ensures Valid() && (r, Contents()) == DeleteJob(old(Contents()), jid)
    {
      var there := JobExists(jid);
      if !there {
        return false;
      }
      Clear(jid);
      var max := FindMaxJid();
      nextjid := max + 1;
      return true;
    }

    method ChangeState(jid: int, state: JobState) returns (r: Answer<()>)
      requires Valid()
      modifies list
      ensures Valid() && (r, Contents()) == SetState(old(Contents()), jid, state)
    {
      var there := JobExists(jid);
      if !there {
        return Aborts(NoSuchJob);
      }
      if state != FG && state != BG && state != ST {
        return Aborts(InvalidState);
      }
      if state == FG {
        var fg := FindFgJob();
        if fg != 0 {
          return Aborts(SecondForeground);
        }
      }
      list[jid - 1] := list[jid - 1].(state := state);
      assert list[..] == old(list[..])[jid - 1 := old(list[jid - 1]).(state := state)];
      return Returns(());
    }
  }
}
