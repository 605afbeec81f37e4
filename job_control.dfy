/**
 * The effects of tsh's job-control code on the job list, with the operating
 * system calls abstracted away: one reaping step of sigchld_handler (the
 * child's pid and how it changed are inputs standing for what waitpid
 * reported) and the decision logic of the fg and bg built-ins (do_bgfg; the
 * selector is the already-parsed argument, the signals it sends are left out).
 */
module JobControl {
  import opened Wrappers
  import opened JobTable

  /** How waitpid reported the reaped child, in the order sigchld_handler tests it. */
  datatype ChildStatus = KilledBySigint | Stopped | OtherExit

  /** The values sigchld_handler leaves in `flag`: EXIT, INTR, TSTP. */
  datatype ExitFlag = Exit | Intr | Tstp

  /**
   * One reaping step: the child's job is first marked ST; a child killed by
   * SIGINT or otherwise terminated then has its job deleted, a stopped child
   * keeps it. The pid must be in the list (tsh.c dereferences getjobpid's
   * result without a NULL test).
   */
  function Reap(t: Table, pid: int, status: ChildStatus): (r: (Table, ExitFlag))
    requires pid >= 1 && FirstMatch(t.slots, ByPid(pid)) < |t.slots|
    ensures |r.0.slots| == |t.slots|
    ensures forall i :: 0 <= i < |t.slots| && i != FirstMatch(t.slots, ByPid(pid)) ==> r.0.slots[i] == t.slots[i]
    ensures status == Stopped ==>
      var k := FirstMatch(t.slots, ByPid(pid));
      r.1 == Tstp && r.0.slots[k] == t.slots[k].(state := St) && r.0.nextjid == t.nextjid
    ensures status == KilledBySigint ==>
      r.1 == Intr && r.0.slots[FirstMatch(t.slots, ByPid(pid))] == Cleared && r.0.nextjid == MaxJidOf(r.0.slots) + 1
    ensures status == OtherExit ==>
      r.1 == Exit && r.0.slots[FirstMatch(t.slots, ByPid(pid))] == Cleared && r.0.nextjid == MaxJidOf(r.0.slots) + 1
    ensures t.WellFormed() ==> r.0.WellFormed()
  {
    var k := FirstMatch(t.slots, ByPid(pid));
    var marked := Table(t.slots[k := t.slots[k].(state := St)], t.nextjid);
    FirstMatchAt(marked.slots, ByPid(pid), k);
    match status
    case KilledBySigint => (marked.Delete(pid).0, Intr)
    case Stopped => (marked, Tstp)
    case OtherExit => (marked.Delete(pid).0, Exit)
  }

  /** When pids are distinct, a terminated child's pid is no longer in the list after reaping. */
  lemma ReapRemovesTerminated(t: Table, pid: int, status: ChildStatus)
    requires pid >= 1 && FirstMatch(t.slots, ByPid(pid)) < |t.slots|
    requires forall i, j :: 0 <= i < j < |t.slots| && t.slots[i].pid == pid ==> t.slots[j].pid != pid
    requires status != Stopped
    ensures forall i :: 0 <= i < |t.slots| ==> Reap(t, pid, status).0.slots[i].pid != pid
  {
    var k := FirstMatch(t.slots, ByPid(pid));
    var r := Reap(t, pid, status).0;
    forall i | 0 <= i < |t.slots|
      ensures r.slots[i].pid != pid
    {
      if i != k {
        if i < k {
          assert !Matches(t.slots[i], ByPid(pid));
        } else {
          assert t.slots[k].pid == pid;
        }
      }
    }
  }

  /** Reaping never creates a foreground job, so the single-foreground rule survives it. */
  lemma ReapKeepsOneFg(t: Table, pid: int, status: ChildStatus)
    requires pid >= 1 && FirstMatch(t.slots, ByPid(pid)) < |t.slots|
    requires AtMostOneFg(t.slots)
    ensures AtMostOneFg(Reap(t, pid, status).0.slots)
  {
  }

  /** The sigchld_handler loop body for the first reaped child; the handler returns after it. */
  method SigchldStep(jl: JobList, pid: int, status: ChildStatus) returns (flag: ExitFlag)
    requires jl.Valid()
    requires pid >= 1 && FirstMatch(jl.jobs[..], ByPid(pid)) < MAXJOBS
    modifies jl, jl.jobs
    ensures jl.Valid()
    ensures (jl.Model(), flag) == Reap(old(jl.Model()), pid, status)
  {
    ghost var before := jl.Model();
    var job := jl.GetJobPid(pid);
    var k := job.value;
    jl.jobs[k] := jl.jobs[k].(state := St);
    ghost var marked := Table(before.slots[k := before.slots[k].(state := St)], before.nextjid);
    assert jl.Model() == marked;
    FirstMatchAt(marked.slots, ByPid(pid), k);
    if status == KilledBySigint {
      flag := Intr;
      var deleted := jl.DeleteJob(pid);
      return;
    }
    if status == Stopped {
      flag := Tstp;
      return;
    }
    flag := Exit;
    var deleted := jl.DeleteJob(pid);
  }

  /** The built-in being run: fg or bg. */
  datatype Command = FgCommand | BgCommand

  /** The parsed argument of fg/bg: `%jid` or a bare pid. */
  datatype Selector = JidArg(jid: int) | PidArg(pid: int)

  /** What do_bgfg reports: one of its four error messages, or the job it resumed. */
  datatype Outcome =
    | MissingArgument
    | NoSuchJob(jid: int)
    | NoSuchProcess(pid: int)
    | AlreadyForeground(pid: int)
    | Resumed(jid: int, pid: int)

  function KeyOf(sel: Selector): Key {
    match sel
    case JidArg(j) => ByJid(j)
    case PidArg(p) => ByPid(p)
  }

  function TargetState(cmd: Command): JobState {
    if cmd == FgCommand then Fg else Bg
  }

  /**
   * A `%jid` that passes the maxjid guard must name a job: do_bgfg
   * dereferences getjobjid's result with no NULL test.
   */
  predicate JidResolves(t: Table, arg: Option<Selector>) {
    arg.Some? && arg.value.JidArg? && arg.value.jid <= MaxJidOf(t.slots) ==>
      arg.value.jid >= 1 && FirstMatch(t.slots, ByJid(arg.value.jid)) < |t.slots|
  }

  /**
   * do_bgfg as written: a missing argument, a `%jid` above maxjid, a pid no
   * job holds, and (pid form only) a job already in FG are errors that change
   * nothing; otherwise the selected job's state becomes FG (fg) or BG (bg).
   */
  function BgFg(t: Table, cmd: Command, arg: Option<Selector>): (r: (Table, Outcome))
    requires JidResolves(t, arg)
    ensures (r.1 == MissingArgument) <==> arg.None?
    ensures r.1.NoSuchJob? <==> arg.Some? && arg.value.JidArg? && arg.value.jid > MaxJidOf(t.slots)
    ensures r.1.NoSuchProcess? <==>
      arg.Some? && arg.value.PidArg? &&
      (arg.value.pid < 1 || forall i :: 0 <= i < |t.slots| ==> t.slots[i].pid != arg.value.pid)
    ensures r.1.AlreadyForeground? <==>
      arg.Some? && arg.value.PidArg? && arg.value.pid >= 1 &&
      FirstMatch(t.slots, ByPid(arg.value.pid)) < |t.slots| &&
      t.slots[FirstMatch(t.slots, ByPid(arg.value.pid))].state == Fg
    ensures !r.1.Resumed? ==> r.0 == t
    ensures r.1.Resumed? ==>
      var k := FirstMatch(t.slots, KeyOf(arg.value));
      && k < |t.slots|
      && r.1 == Resumed(t.slots[k].jid, t.slots[k].pid)
      && r.0 == Table(t.slots[k := t.slots[k].(state := TargetState(cmd))], t.nextjid)
    ensures t.WellFormed() ==> r.0.WellFormed()
  {
    if arg.None? then (t, MissingArgument)
    else
      match arg.value
      case JidArg(j) =>
        if j > MaxJidOf(t.slots) then (t, NoSuchJob(j))
        else
          var k := FirstMatch(t.slots, ByJid(j));
          (Table(t.slots[k := t.slots[k].(state := TargetState(cmd))], t.nextjid), Resumed(j, t.slots[k].pid))
      case PidArg(p) =>
        var k := FirstMatch(t.slots, ByPid(p));
        if p < 1 || k == |t.slots| then (t, NoSuchProcess(p))
        else if t.slots[k].state == Fg then (t, AlreadyForeground(p))
        else (Table(t.slots[k := t.slots[k].(state := TargetState(cmd))], t.nextjid), Resumed(t.slots[k].jid, p))
  }

  /** do_bgfg on the shell's job list; the effect and the report are those of BgFg. */
  method DoBgFg(jl: JobList, cmd: Command, arg: Option<Selector>) returns (outcome: Outcome)
    requires jl.Valid() && JidResolves(jl.Model(), arg)
    modifies jl.jobs
    ensures jl.Valid()
    ensures (jl.Model(), outcome) == BgFg(old(jl.Model()), cmd, arg)
  {
    if arg.None? {
      return MissingArgument;
    }
    var k: nat, myjid: int, mypid: int;
    match arg.value {
      case JidArg(j) =>
        var myjob := jl.GetJobJid(j);
        var max := jl.MaxJid();
        if j > max {
          return NoSuchJob(j);
        }
        k, myjid := myjob.value, j;
        mypid := jl.jobs[k].pid;
      case PidArg(p) =>
        var myjob := jl.GetJobPid(p);
        if myjob.None? {
          return NoSuchProcess(p);
        }
        k, mypid := myjob.value, p;
        myjid := jl.jobs[k].jid;
        if jl.jobs[k].state == Fg {
          return AlreadyForeground(p);
        }
    }
    ghost var before := jl.Model();
    if cmd == FgCommand {
      jl.jobs[k] := jl.jobs[k].(state := Fg);
    } else {
      jl.jobs[k] := jl.jobs[k].(state := Bg);
    }
    assert jl.jobs[..] == before.slots[k := before.slots[k].(state := TargetState(cmd))];
    outcome := Resumed(myjid, mypid);
  }

  /**
   * do_bgfg as evidently intended: a `%jid` that no job holds (0, a negative
   * number, or a gap left by a job that ended) is reported as "No such job"
   * instead of being dereferenced. Defined for every table and argument.
   */
  function BgFgChecked(t: Table, cmd: Command, arg: Option<Selector>): (r: (Table, Outcome))
    ensures arg.Some? && arg.value.JidArg? ==>
      (r.1.Resumed? <==>
        arg.value.jid >= 1 && exists i :: 0 <= i < |t.slots| && t.slots[i].jid == arg.value.jid)
    ensures arg.Some? && arg.value.JidArg? && !r.1.Resumed? ==> r == (t, NoSuchJob(arg.value.jid))
    ensures JidResolves(t, arg) ==> r == BgFg(t, cmd, arg)
    ensures t.WellFormed() ==> r.0.WellFormed()
  {
    if JidResolves(t, arg) then BgFg(t, cmd, arg)
    else (t, NoSuchJob(arg.value.jid))
  }

  /**
   * The input that breaks do_bgfg as written: when a job whose jid is below
   * the largest one ends (jobs 1, 2, 3 running, job 2 exits), its jid passes
   * the maxjid guard, getjobjid returns NULL, and `fg %2` or `bg %2`
   * dereferences it.
   */
  lemma JidGuardAdmitsAbsentJob(t: Table, pid: int, above: nat)
    requires t.WellFormed() && pid >= 1
    requires FirstMatch(t.slots, ByPid(pid)) < |t.slots|
    requires forall i :: 0 <= i < |t.slots| && i != FirstMatch(t.slots, ByPid(pid)) ==>
      t.slots[i].jid != t.slots[FirstMatch(t.slots, ByPid(pid))].jid
    requires above < |t.slots| && t.slots[above].jid > t.slots[FirstMatch(t.slots, ByPid(pid))].jid
    ensures var j := t.slots[FirstMatch(t.slots, ByPid(pid))].jid;
      var t1 := t.Delete(pid).0;
      && 1 <= j <= MaxJidOf(t1.slots)
      && FirstMatch(t1.slots, ByJid(j)) == |t1.slots|
      && !JidResolves(t1, Some(JidArg(j)))
      && BgFgChecked(t1, FgCommand, Some(JidArg(j))) == (t1, NoSuchJob(j))
  {
    var k := FirstMatch(t.slots, ByPid(pid));
    var j := t.slots[k].jid;
    var t1 := t.Delete(pid).0;
    assert t.slots[k] != Cleared;
    assert t1.slots == t.slots[k := Cleared];
    assert above != k;
    assert t1.slots[above].jid > j;
    assert forall i :: 0 <= i < |t1.slots| ==> !Matches(t1.slots[i], ByJid(j));
  }

  /**
   * The single-foreground rule survives fg/bg when fg is only run while no
   * job is in the foreground, as the command loop does (it waits for the
   * foreground job first).
   */
  lemma BgFgKeepsOneFg(t: Table, cmd: Command, arg: Option<Selector>)
    requires AtMostOneFg(t.slots)
    requires cmd == FgCommand ==> NoFg(t.slots)
    ensures AtMostOneFg(BgFgChecked(t, cmd, arg).0.slots)
  {
  }

  /**
   * The edge case the code leaves open: `fg %jid` for a job other than the
   * one in the foreground makes two jobs FG, as the `%jid` path has no
   * "already in foreground" test.
   */
  lemma FgBesideForegroundMakesTwoFg(t: Table, a: nat, j: int)
    requires t.WellFormed() && a < |t.slots| && t.slots[a].state == Fg
    requires j >= 1 && FirstMatch(t.slots, ByJid(j)) < |t.slots| && FirstMatch(t.slots, ByJid(j)) != a
    ensures var r := BgFgChecked(t, FgCommand, Some(JidArg(j)));
      r.1.Resumed? && !AtMostOneFg(r.0.slots)
  {
    var k := FirstMatch(t.slots, ByJid(j));
    var r := BgFgChecked(t, FgCommand, Some(JidArg(j)));
    assert j <= MaxJidOf(t.slots);
    assert r.0.slots[k].state == Fg && r.0.slots[a].state == Fg;
  }
}
