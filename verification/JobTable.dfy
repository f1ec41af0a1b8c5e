/** The job list of `lab4/tsh.c`: an array of 16 job records that its helpers search and
    change in place. */
module JobTable {

  const MAXJOBS: int := 16

  datatype JobState = UNDEF | FG | BG | ST

  datatype Job = Job(pid: int, jid: int, state: JobState, cmdline: string)

  const CLEARED := Job(0, 0, UNDEF, "")

  /** The job list and the next job id. */
  datatype Table = Table(jobs: seq<Job>, nextjid: int)

  /** The first slot at or after `i` that satisfies `p`, or the number of slots. */
  function FindFrom(js: seq<Job>, i: nat, p: Job -> bool): (k: nat)
    requires i <= |js|
    ensures i <= k <= |js|
    ensures k < |js| ==> p(js[k])
    ensures forall m :: i <= m < k ==> !p(js[m])
    decreases |js| - i
  {
    if i == |js| || p(js[i]) then i else FindFrom(js, i + 1, p)
  }

  function SlotOfPid(js: seq<Job>, pid: int): nat {
    FindFrom(js, 0, (j: Job) => j.pid == pid)
  }

  function SlotOfJid(js: seq<Job>, jid: int): nat {
    FindFrom(js, 0, (j: Job) => j.jid == jid)
  }

  function ForegroundSlot(js: seq<Job>): nat {
    FindFrom(js, 0, (j: Job) => j.state == FG)
  }

  /** `maxjid`: the largest job id, or 0. */
  function MaxJid(js: seq<Job>): int {
    if js == [] then 0 else
      var m := MaxJid(js[..|js| - 1]);
      if js[|js| - 1].jid > m then js[|js| - 1].jid else m
  }

  lemma {:induction false} MaxJidIsLargest(js: seq<Job>)
    ensures MaxJid(js) >= 0 && forall j :: j in js ==> j.jid <= MaxJid(js)
    ensures MaxJid(js) == 0 || exists j :: j in js && j.jid == MaxJid(js)
  {
    if js != [] {
      var init, last := js[..|js| - 1], js[|js| - 1];
      MaxJidIsLargest(init);
      assert js == init + [last];
    }
  }

  /** `addjob` of a positive pid: the first free slot takes the job and the next job id, and
      ids start over after 16. The table is unchanged when no slot is free. */
  function AddJob(t: Table, pid: int, state: JobState, cmdline: string): Table {
    var i := SlotOfPid(t.jobs, 0);
    if pid < 1 || i == |t.jobs| then t
    else Table(t.jobs[i := Job(pid, t.nextjid, state, cmdline)],
               if t.nextjid + 1 > MAXJOBS then 1 else t.nextjid + 1)
  }

  /** `deletejob`: clear the slot of `pid`, and restart ids after the largest one left. */
  function DeleteJob(t: Table, pid: int): Table {
    var i := SlotOfPid(t.jobs, pid);
    if pid < 1 || i == |t.jobs| then t
    else Table(t.jobs[i := CLEARED], MaxJid(t.jobs[i := CLEARED]) + 1)
  }

  /** No two slots hold the same nonzero pid. */
  predicate DistinctPids(js: seq<Job>) {
    forall j, k :: 0 <= j < k < |js| && js[j].pid != 0 ==> js[j].pid != js[k].pid
  }

  /** Deleting the job just added gives back the job list, when its slot was properly cleared. */
  lemma DeleteUndoesAdd(t: Table, pid: int, state: JobState, cmdline: string)
    requires pid >= 1 && forall k :: 0 <= k < |t.jobs| ==> t.jobs[k].pid != pid
    requires forall k :: 0 <= k < |t.jobs| && t.jobs[k].pid == 0 ==> t.jobs[k] == CLEARED
    ensures DeleteJob(AddJob(t, pid, state, cmdline), pid).jobs == t.jobs
  {
  }

  // ---------------------------------------------------------------- what the operations do

  /** The first slot with a pid, with a job id, and the first one in state FG. */
  lemma SlotsFound(js: seq<Job>, n: int)
    ensures var i := SlotOfPid(js, n);
            i <= |js| && (i < |js| ==> js[i].pid == n) && forall m :: 0 <= m < i ==> js[m].pid != n
    ensures var i := SlotOfJid(js, n);
            i <= |js| && (i < |js| ==> js[i].jid == n) && forall m :: 0 <= m < i ==> js[m].jid != n
    ensures var i := ForegroundSlot(js);
            i <= |js| && (i < |js| ==> js[i].state == FG) && forall m :: 0 <= m < i ==> js[m].state != FG
  {
  }

  /** A job takes the first slot without a pid and the next job id, and after id 16 or more the
      ids start over. */
  lemma AddJobTakes(t: Table, pid: int, state: JobState, cmdline: string, i: nat)
    requires pid >= 1 && i < |t.jobs| && t.jobs[i].pid == 0 && forall m :: 0 <= m < i ==> t.jobs[m].pid != 0
    ensures var u := AddJob(t, pid, state, cmdline);
            && u.jobs == t.jobs[i := Job(pid, t.nextjid, state, cmdline)]
            && u.nextjid == if t.nextjid >= 16 then 1 else t.nextjid + 1
  {
    SlotsFound(t.jobs, 0);
  }

  lemma AddJobRefuses(t: Table, pid: int, state: JobState, cmdline: string)
    requires pid < 1 || forall m :: 0 <= m < |t.jobs| ==> t.jobs[m].pid != 0
    ensures AddJob(t, pid, state, cmdline) == t
  {
    SlotsFound(t.jobs, 0);
  }

  /** A deleted job leaves an empty slot, and the next job id is one more than the largest that
      is left, or 1 when none is left. */
  lemma DeleteJobClears(t: Table, pid: int, i: nat)
    requires pid >= 1 && i < |t.jobs| && t.jobs[i].pid == pid && forall m :: 0 <= m < i ==> t.jobs[m].pid != pid
    ensures var u := DeleteJob(t, pid);
            && u.jobs == t.jobs[i := Job(0, 0, UNDEF, "")]
            && u.nextjid >= 1 && (forall j :: j in u.jobs ==> j.jid < u.nextjid)
            && (u.nextjid == 1 || exists j :: j in u.jobs && j.jid == u.nextjid - 1)
  {
    SlotsFound(t.jobs, pid);
    MaxJidIsLargest(t.jobs[i := CLEARED]);
  }

  lemma DeleteJobRefuses(t: Table, pid: int)
    requires pid < 1 || forall m :: 0 <= m < |t.jobs| ==> t.jobs[m].pid != pid
    ensures DeleteJob(t, pid) == t
  {
    SlotsFound(t.jobs, pid);
  }

  // ---------------------------------------------------------------- the C routines

  class JobList {
    const jobs: array<Job>
    var nextjid: int

    ghost predicate Valid() {
      jobs.Length == MAXJOBS
    }

    ghost function Contents(): Table
      reads this, jobs
    {
      Table(jobs[..], nextjid)
    }

    /** `initjobs` and the initial `nextjid`. */
    constructor ()
      ensures Valid() && fresh(jobs)
      ensures Contents() == Table(seq(16, _ => Job(0, 0, UNDEF, "")), 1)
    {
      jobs := new Job[MAXJOBS](_ => CLEARED);
      nextjid := 1;
    }

    /** `clearjob` */
    method ClearJob(i: nat)
      requires i < jobs.Length
      modifies jobs
      ensures jobs[..] == old(jobs[..])[i := Job(0, 0, UNDEF, "")]
    {
      jobs[i] := jobs[i].(pid := 0);
      jobs[i] := jobs[i].(jid := 0);
      jobs[i] := jobs[i].(state := UNDEF);
      jobs[i] := jobs[i].(cmdline := "");
    }

    /** `maxjid` */
    method ComputeMaxJid() returns (max: int)
      ensures max == MaxJid(jobs[..])
    {
      max := 0;
      for i := 0 to jobs.Length
        invariant max == MaxJid(jobs[..i])
      {
        assert jobs[..i + 1][..i] == jobs[..i];
        if jobs[i].jid > max {
          max := jobs[i].jid;
        }
      }
      assert jobs[..jobs.Length] == jobs[..];
    }

    /** `addjob` */
    method Add(pid: int, state: JobState, cmdline: string) returns (ok: bool)
      requires Valid()
      modifies this`nextjid, jobs
      ensures Contents() == AddJob(old(Contents()), pid, state, cmdline)
      ensures ok <==> pid >= 1 && SlotOfPid(old(jobs[..]), 0) < MAXJOBS
    {
      if pid < 1 {
        return false;
      }
      for i := 0 to MAXJOBS
        invariant Contents() == old(Contents())
        invariant SlotOfPid(jobs[..], 0) >= i
      {
        if jobs[i].pid == 0 {
          assert SlotOfPid(jobs[..], 0) == i;
          jobs[i] := jobs[i].(pid := pid);
          jobs[i] := jobs[i].(state := state);
          jobs[i] := jobs[i].(jid := nextjid);
          nextjid := nextjid + 1;
          if nextjid > MAXJOBS {
            nextjid := 1;
          }
          jobs[i] := jobs[i].(cmdline := cmdline);
          assert jobs[..] == old(jobs[..])[i := Job(pid, old(nextjid), state, cmdline)];
          return true;
        }
      }
      return false;
    }

    /** `deletejob` */
    method Delete(pid: int) returns (ok: bool)
      requires Valid()
      modifies this`nextjid, jobs
      ensures Contents() == DeleteJob(old(Contents()), pid)
      ensures ok <==> pid >= 1 && SlotOfPid(old(jobs[..]), pid) < MAXJOBS
    {
      if pid < 1 {
        return false;
      }
      for i := 0 to MAXJOBS
        invariant Contents() == old(Contents())
        invariant SlotOfPid(jobs[..], pid) >= i
      {
        if jobs[i].pid == pid {
          assert SlotOfPid(jobs[..], pid) == i;
          ClearJob(i);
          var max := ComputeMaxJid();
          nextjid := max + 1;
          return true;
        }
      }
      return false;
    }

    /** `fgpid`: the pid in the first slot in state FG, or 0. */
    method FgPid() returns (pid: int)
      requires Valid()
      ensures var k := ForegroundSlot(jobs[..]); pid == if k < MAXJOBS then jobs[k].pid else 0
      ensures || (pid == 0 && forall m :: 0 <= m < MAXJOBS ==> jobs[m].state != FG)
              || exists k :: && 0 <= k < MAXJOBS && jobs[k].state == FG && pid == jobs[k].pid
                             && forall m :: 0 <= m < k ==> jobs[m].state != FG
    {
      for i := 0 to MAXJOBS
        invariant ForegroundSlot(jobs[..]) >= i
      {
        if jobs[i].state == FG {
          return jobs[i].pid;
        }
      }
      return 0;
    }

    /** `getjobpid`: the slot of a pid, `MAXJOBS` for NULL. */
    method GetJobPid(pid: int) returns (i: nat)
      requires Valid()
      ensures i == if pid < 1 then MAXJOBS else SlotOfPid(jobs[..], pid)
      ensures i < MAXJOBS ==> pid >= 1 && jobs[i].pid == pid
      ensures pid >= 1 ==> i <= MAXJOBS && forall m :: 0 <= m < i ==> jobs[m].pid != pid
    {
      if pid < 1 {
        return MAXJOBS;
      }
      i := 0;
      while i < MAXJOBS
        invariant 0 <= i <= SlotOfPid(jobs[..], pid)
      {
        if jobs[i].pid == pid {
          return;
        }
        i := i + 1;
      }
    }

    /** `getjobjid`: the slot of a job id, `MAXJOBS` for NULL. */
    method GetJobJid(jid: int) returns (i: nat)
      requires Valid()
      ensures i == if jid < 1 then MAXJOBS else SlotOfJid(jobs[..], jid)
      ensures i < MAXJOBS ==> jid >= 1 && jobs[i].jid == jid
      ensures jid >= 1 ==> i <= MAXJOBS && forall m :: 0 <= m < i ==> jobs[m].jid != jid
    {
      if jid < 1 {
        return MAXJOBS;
      }
      i := 0;
      while i < MAXJOBS
        invariant 0 <= i <= SlotOfJid(jobs[..], jid)
      {
        if jobs[i].jid == jid {
          return;
        }
        i := i + 1;
      }
    }

    /** `pid2jid`: the job id of a pid, or 0. */
    method Pid2Jid(pid: int) returns (jid: int)
      requires Valid()
      ensures var k := SlotOfPid(jobs[..], pid);
              jid == if pid < 1 || k == MAXJOBS then 0 else jobs[k].jid
      ensures || (jid == 0 && (pid < 1 || forall m :: 0 <= m < MAXJOBS ==> jobs[m].pid != pid))
              || exists k :: && 0 <= k < MAXJOBS && jobs[k].pid == pid && jid == jobs[k].jid
                             && forall m :: 0 <= m < k ==> jobs[m].pid != pid
    {
      if pid < 1 {
        return 0;
      }
      for i := 0 to MAXJOBS
        invariant SlotOfPid(jobs[..], pid) >= i
      {
        if jobs[i].pid == pid {
          return jobs[i].jid;
        }
      }
      return 0;
    }
  }
}
