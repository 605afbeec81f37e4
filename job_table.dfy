/**
 * The job list of tsh: a fixed array of MAXJOBS slots, scanned linearly by
 * every routine, and the counter `nextjid` from which job IDs are handed out.
 *
 * `Table` is the value view of the list (the slots and the counter) on which
 * the effect of each routine is specified; `JobList` is the mutable list the
 * shell keeps, whose methods are proved to have exactly those effects.
 */
module JobTable {
  import opened Wrappers

  /** Number of slots in the job list (MAXJOBS). */
  const MAXJOBS: nat := 16

  /** The job states UNDEF, FG, BG and ST. */
  datatype JobState = Undef | Fg | Bg | St

  /** One slot; a slot whose pid is 0 is free. */
  datatype Job = Job(pid: int, jid: int, state: JobState, cmdline: string)

  /** What clearjob leaves in a slot: pid 0, jid 0, UNDEF, empty command line. */
  const Cleared: Job := Job(0, 0, Undef, "")

  /** The field a linear scan compares against. */
  datatype Key = ByPid(pid: int) | ByJid(jid: int) | ByState(state: JobState)

  predicate Matches(j: Job, key: Key) {
    match key
    case ByPid(p) => j.pid == p
    case ByJid(n) => j.jid == n
    case ByState(st) => j.state == st
  }

  /** Index of the first slot matching `key`, or |s| when none does. */
  function FirstMatch(s: seq<Job>, key: Key): (k: nat)
    ensures k <= |s|
    ensures forall i :: 0 <= i < k ==> !Matches(s[i], key)
    ensures k < |s| ==> Matches(s[k], key)
  {
    if |s| == 0 then 0
    else if Matches(s[0], key) then 0
    else 1 + FirstMatch(s[1..], key)
  }

  /** A slot found by a scan that met no earlier match is the first match. */
  lemma FirstMatchAt(s: seq<Job>, key: Key, k: nat)
    requires k < |s| && Matches(s[k], key)
    requires forall i :: 0 <= i < k ==> !Matches(s[i], key)
    ensures FirstMatch(s, key) == k
  {
  }

  /** The largest jid in the slots, 0 when none is positive. */
  function MaxJidOf(s: seq<Job>): (m: int)
    ensures m >= 0
    ensures forall i :: 0 <= i < |s| ==> s[i].jid <= m
    ensures m == 0 || exists i :: 0 <= i < |s| && s[i].jid == m
  {
    if |s| == 0 then 0
    else
      var m0 := MaxJidOf(s[..|s| - 1]);
      if s[|s| - 1].jid > m0 then s[|s| - 1].jid else m0
  }

  /** No slot is in the foreground. */
  predicate NoFg(s: seq<Job>) {
    forall i :: 0 <= i < |s| ==> s[i].state != Fg
  }

  /** "At most 1 job can be in the FG state." */
  predicate AtMostOneFg(s: seq<Job>) {
    forall i, j :: 0 <= i < |s| && 0 <= j < |s| && s[i].state == Fg && s[j].state == Fg ==> i == j
  }

  /** All slots cleared, the state `initjobs` leaves behind. */
  predicate AllCleared(s: seq<Job>) {
    forall i :: 0 <= i < |s| ==> s[i] == Cleared
  }

  /** The value of the job list: its slots and the next jid to allocate. */
  datatype Table = Table(slots: seq<Job>, nextjid: int) {

    /**
     * The shape every routine keeps: MAXJOBS slots, a positive counter, and
     * every slot either cleared or holding a positive pid and a positive jid.
     */
    predicate WellFormed() {
      && |slots| == MAXJOBS
      && nextjid >= 1
      && forall i :: 0 <= i < |slots| ==> slots[i] == Cleared || (slots[i].pid >= 1 && slots[i].jid >= 1)
    }

    /**
     * addjob: a pid below 1 or a full list fails and changes nothing;
     * otherwise the first free slot receives the job with the current
     * counter as its jid, and the counter advances, wrapping to 1 once it
     * exceeds MAXJOBS.
     */
    function Add(pid: int, state: JobState, cmdline: string): (r: (Table, bool))
      ensures var k := FirstMatch(slots, ByPid(0));
        && (r.1 <==> pid >= 1 && exists i :: 0 <= i < |slots| && slots[i].pid == 0)
        && (!r.1 ==> r.0 == this)
        && (r.1 ==> && |r.0.slots| == |slots|
                    && r.0.slots[k] == Job(pid, nextjid, state, cmdline)
                    && (forall i :: 0 <= i < |slots| && i != k ==> r.0.slots[i] == slots[i])
                    && r.0.nextjid == (if nextjid + 1 > MAXJOBS then 1 else nextjid + 1))
      ensures WellFormed() ==> r.0.WellFormed()
    {
      if pid < 1 then (this, false)
      else
        var k := FirstMatch(slots, ByPid(0));
        if k == |slots| then (this, false)
        else
          var next := nextjid + 1;
          (Table(slots[k := Job(pid, nextjid, state, cmdline)], if next > MAXJOBS then 1 else next), true)
    }

    /**
     * deletejob: a pid below 1 or one held by no slot fails and changes
     * nothing; otherwise the first slot holding it is cleared and the
     * counter is reset to one above the largest jid left.
     */
    function Delete(pid: int): (r: (Table, bool))
      ensures var k := FirstMatch(slots, ByPid(pid));
        && (r.1 <==> pid >= 1 && exists i :: 0 <= i < |slots| && slots[i].pid == pid)
        && (!r.1 ==> r.0 == this)
        && (r.1 ==> && |r.0.slots| == |slots|
                    && r.0.slots[k] == Cleared
                    && (forall i :: 0 <= i < |slots| && i != k ==> r.0.slots[i] == slots[i])
                    && r.0.nextjid == MaxJidOf(r.0.slots) + 1)
      ensures WellFormed() ==> r.0.WellFormed()
    {
      if pid < 1 then (this, false)
      else
        var k := FirstMatch(slots, ByPid(pid));
        if k == |slots| then (this, false)
        else
          var cleared := slots[k := Cleared];
          (Table(cleared, MaxJidOf(cleared) + 1), true)
    }
  }

  /** The job list at program start: zero-initialised slots, nextjid = 1. */
  const Initial: Table := Table(seq(MAXJOBS, _ => Cleared), 1)

  /** After initjobs there is no job: maxjid and fgpid both give 0 and every slot is free. */
  lemma {:induction false} ClearedTableQueries(s: seq<Job>)
    requires AllCleared(s)
    ensures MaxJidOf(s) == 0
    ensures FirstMatch(s, ByState(Fg)) == |s|
    ensures |s| > 0 ==> FirstMatch(s, ByPid(0)) == 0
  {
  }

  /** A job just added is what getjobpid finds for its pid, and it carries the old counter as jid. */
  lemma AddedJobIsFound(t: Table, pid: int, state: JobState, cmdline: string)
    requires t.WellFormed() && pid >= 1
    requires forall i :: 0 <= i < |t.slots| ==> t.slots[i].pid != pid
    requires exists i :: 0 <= i < |t.slots| && t.slots[i].pid == 0
    ensures var (t1, ok) := t.Add(pid, state, cmdline);
      var k := FirstMatch(t1.slots, ByPid(pid));
      ok && k == FirstMatch(t.slots, ByPid(0)) && k < |t1.slots| && t1.slots[k].jid == t.nextjid
  {
    var (t1, ok) := t.Add(pid, state, cmdline);
    var k := FirstMatch(t.slots, ByPid(0));
    FirstMatchAt(t1.slots, ByPid(pid), k);
  }

  /**
   * deletejob undoes addjob: adding a job for a fresh pid and deleting it
   * again restores every slot, and leaves the counter at one above the
   * largest jid left.
   */
  lemma AddThenDelete(t: Table, pid: int, state: JobState, cmdline: string)
    requires t.WellFormed() && pid >= 1
    requires forall i :: 0 <= i < |t.slots| ==> t.slots[i].pid != pid
    requires exists i :: 0 <= i < |t.slots| && t.slots[i].pid == 0
    ensures var (t1, ok) := t.Add(pid, state, cmdline);
      ok && t1.Delete(pid) == (Table(t.slots, MaxJidOf(t.slots) + 1), true)
  {
    var (t1, ok) := t.Add(pid, state, cmdline);
    var k := FirstMatch(t.slots, ByPid(0));
    assert ok && k < |t.slots| && t.slots[k] == Cleared;
    assert t1.slots == t.slots[k := Job(pid, t.nextjid, state, cmdline)];
    FirstMatchAt(t1.slots, ByPid(pid), k);
    assert t1.slots[k := Cleared] == t.slots;
    assert t1.Delete(pid).0 == Table(t1.slots[k := Cleared], MaxJidOf(t1.slots[k := Cleared]) + 1);
  }

  /**
   * After a deletion the next job added gets jid maxjid()+1: the jid is
   * larger than that of every other job then in the list.
   */
  lemma DeleteThenAddAllocatesAboveMax(t: Table, pid: int, pid2: int, state: JobState, cmdline: string)
    requires t.WellFormed() && t.Delete(pid).1
    requires t.Delete(pid).0.Add(pid2, state, cmdline).1
    ensures var t1 := t.Delete(pid).0;
      var t2 := t1.Add(pid2, state, cmdline).0;
      var k := FirstMatch(t1.slots, ByPid(0));
      && t2.slots[k].jid == MaxJidOf(t1.slots) + 1
      && forall i :: 0 <= i < |t2.slots| && i != k ==> t2.slots[i].jid < t2.slots[k].jid
  {
  }

  /**
   * Job IDs are not unique. Once the counter reaches MAXJOBS while a job with
   * jid 1 is still live and two slots are free (for instance: sixteen jobs,
   * the ones with jid 2 and 3 end, so the counter is reset to 17), two more
   * jobs make the counter wrap to 1 and hand out jid 1 a second time.
   */
  lemma WrapCanDuplicateJid(t: Table, pid1: int, pid2: int, st1: JobState, st2: JobState, c1: string, c2: string)
    requires t.WellFormed() && t.nextjid >= MAXJOBS
    requires exists m :: 0 <= m < |t.slots| && t.slots[m].jid == 1
    requires exists a, b :: 0 <= a < b < |t.slots| && t.slots[a].pid == 0 && t.slots[b].pid == 0
    requires pid1 >= 1 && pid2 >= 1
    ensures var (t1, ok1) := t.Add(pid1, st1, c1);
      var (t2, ok2) := t1.Add(pid2, st2, c2);
      && ok1 && ok2
      && exists i, j :: 0 <= i < j < |t2.slots| && t2.slots[i].jid == 1 && t2.slots[j].jid == 1
  {
    var (t1, ok1) := t.Add(pid1, st1, c1);
    var k1 := FirstMatch(t.slots, ByPid(0));
    var m :| 0 <= m < |t.slots| && t.slots[m].jid == 1;
    var a, b :| 0 <= a < b < |t.slots| && t.slots[a].pid == 0 && t.slots[b].pid == 0;
    var other := if a == k1 then b else a;
    assert t1.slots[other].pid == 0;
    assert t1.nextjid == 1;
    var (t2, ok2) := t1.Add(pid2, st2, c2);
    var k2 := FirstMatch(t1.slots, ByPid(0));
    assert t.slots[k1] == Cleared;
    assert m != k1;
    assert t1.slots[m].jid == 1;
    assert t1.slots[k2] == Cleared;
    assert m != k2;
    assert t2.slots[k2].jid == 1 && t2.slots[m].jid == 1;
    if m < k2 {
      assert 0 <= m < k2 < |t2.slots|;
    } else {
      assert 0 <= k2 < m < |t2.slots|;
    }
  }

  /**
   * The single-foreground rule survives addjob as eval uses it: a background
   * job may always be added, a foreground one when no job is in the foreground.
   */
  lemma AddKeepsOneFg(t: Table, pid: int, state: JobState, cmdline: string)
    requires AtMostOneFg(t.slots)
    requires state == Fg ==> NoFg(t.slots)
    ensures AtMostOneFg(t.Add(pid, state, cmdline).0.slots)
  {
  }

  /** The single-foreground rule survives deletejob. */
  lemma DeleteKeepsOneFg(t: Table, pid: int)
    requires AtMostOneFg(t.slots)
    ensures AtMostOneFg(t.Delete(pid).0.slots)
  {
  }

  /**
   * The shell's job list: the array `jobs` and the counter `nextjid`.
   * Every routine of tsh's job list is a method here.
   */
  class JobList {
    const jobs: array<Job>
    var nextjid: int

    ghost function Model(): Table
      reads this, jobs
    {
      Table(jobs[..], nextjid)
    }

    ghost predicate Valid()
      reads this, jobs
    {
      jobs.Length == MAXJOBS && Model().WellFormed()
    }

    /** The job list as the program starts: zeroed slots and nextjid = 1. */
    constructor ()
      ensures Valid() && fresh(jobs)
      ensures Model() == Initial
    {
      jobs := new Job[MAXJOBS](_ => Cleared);
      nextjid := 1;
    }

    /** clearjob: slot i becomes Cleared and no other slot changes. */
    method ClearJob(i: nat)
      requires Valid() && i < MAXJOBS
      modifies jobs
      ensures Valid()
      ensures jobs[..] == old(jobs[..])[i := Cleared]
    {
      jobs[i] := jobs[i].(pid := 0, jid := 0, state := Undef, cmdline := "");
    }

    /** initjobs: every slot is cleared; the counter is left as it was. */
    method InitJobs()
      requires Valid()
      modifies jobs
      ensures Valid()
      ensures AllCleared(jobs[..]) && nextjid == old(nextjid)
    {
      for i := 0 to MAXJOBS
        invariant Valid()
        invariant forall j :: 0 <= j < i ==> jobs[j] == Cleared
      {
        ClearJob(i);
      }
    }

    /** maxjid: the largest jid in the list, 0 if no jid is positive. */
    method MaxJid() returns (max: int)
      requires Valid()
      ensures max == MaxJidOf(jobs[..])
    {
      max := 0;
      for i := 0 to MAXJOBS
        invariant max == MaxJidOf(jobs[..i])
      {
        assert jobs[..i + 1][..i] == jobs[..i];
        if jobs[i].jid > max {
          max := jobs[i].jid;
        }
      }
      assert jobs[..MAXJOBS] == jobs[..];
    }

    /** addjob: the effect is that of Table.Add; the result is its success flag (1 or 0). */
    method AddJob(pid: int, state: JobState, cmdline: string) returns (ok: bool)
      requires Valid()
      modifies this, jobs
      ensures Valid()
      ensures (Model(), ok) == old(Model()).Add(pid, state, cmdline)
    {
      if pid < 1 {
        return false;
      }
      for i := 0 to MAXJOBS
        invariant Model() == old(Model())
        invariant forall j :: 0 <= j < i ==> jobs[j].pid != 0
      {
        if jobs[i].pid == 0 {
          FirstMatchAt(jobs[..], ByPid(0), i);
          ghost var before := Model();
          jobs[i] := jobs[i].(pid := pid, state := state, jid := nextjid);
          nextjid := nextjid + 1;
          if nextjid > MAXJOBS {
            nextjid := 1;
          }
          jobs[i] := jobs[i].(cmdline := cmdline);
          assert jobs[..] == before.slots[i := Job(pid, before.nextjid, state, cmdline)];
          return true;
        }
      }
      return false;
    }

    /** deletejob: the effect is that of Table.Delete; the result is its success flag. */
    method DeleteJob(pid: int) returns (ok: bool)
      requires Valid()
      modifies this, jobs
      ensures Valid()
      ensures (Model(), ok) == old(Model()).Delete(pid)
    {
      if pid < 1 {
        return false;
      }
      for i := 0 to MAXJOBS
        invariant Model() == old(Model())
        invariant forall j :: 0 <= j < i ==> jobs[j].pid != pid
      {
        if jobs[i].pid == pid {
          FirstMatchAt(jobs[..], ByPid(pid), i);
          ghost var before := Model();
          ClearJob(i);
          assert jobs[..] == before.slots[i := Cleared];
          var max := MaxJid();
          nextjid := max + 1;
          assert Model() == before.Delete(pid).0;
          return true;
        }
      }
      return false;
    }

    /** fgpid: the pid of the first slot in state FG, 0 if there is none. */
    method FgPid() returns (pid: int)
      requires Valid()
      ensures var k := FirstMatch(jobs[..], ByState(Fg));
        pid == if k < MAXJOBS then jobs[k].pid else 0
    {
      for i := 0 to MAXJOBS
        invariant forall j :: 0 <= j < i ==> jobs[j].state != Fg
      {
        if jobs[i].state == Fg {
          FirstMatchAt(jobs[..], ByState(Fg), i);
          return jobs[i].pid;
        }
      }
      return 0;
    }

    /** getjobpid: the first slot holding `pid`; None (NULL) for a pid below 1 or absent. */
    method GetJobPid(pid: int) returns (r: Option<nat>)
      requires Valid()
      ensures var k := FirstMatch(jobs[..], ByPid(pid));
        r == if pid < 1 || k == MAXJOBS then None else Some(k)
    {
      if pid < 1 {
        return None;
      }
      for i := 0 to MAXJOBS
        invariant forall j :: 0 <= j < i ==> jobs[j].pid != pid
      {
        if jobs[i].pid == pid {
          FirstMatchAt(jobs[..], ByPid(pid), i);
          return Some(i);
        }
      }
      return None;
    }

    /** getjobjid: the first slot holding `jid`; None (NULL) for a jid below 1 or absent. */
    method GetJobJid(jid: int) returns (r: Option<nat>)
      requires Valid()
      ensures var k := FirstMatch(jobs[..], ByJid(jid));
        r == if jid < 1 || k == MAXJOBS then None else Some(k)
    {
      if jid < 1 {
        return None;
      }
      for i := 0 to MAXJOBS
        invariant forall j :: 0 <= j < i ==> jobs[j].jid != jid
      {
        if jobs[i].jid == jid {
          FirstMatchAt(jobs[..], ByJid(jid), i);
          return Some(i);
        }
      }
      return None;
    }

    /** pid2jid: the jid of the first slot holding `pid`; 0 for a pid below 1 or absent. */
    method Pid2Jid(pid: int) returns (jid: int)
      requires Valid()
      ensures var k := FirstMatch(jobs[..], ByPid(pid));
        jid == if pid < 1 || k == MAXJOBS then 0 else jobs[k].jid
    {
      if pid < 1 {
        return 0;
      }
      for i := 0 to MAXJOBS
        invariant forall j :: 0 <= j < i ==> jobs[j].pid != pid
      {
        if jobs[i].pid == pid {
          FirstMatchAt(jobs[..], ByPid(pid), i);
          return jobs[i].jid;
        }
      }
      return 0;
    }
  }
}
