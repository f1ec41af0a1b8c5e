/** When the shell of `lab4/tsh.c` comes back from a foreground job. Both `eval` and `fg` write
    the state FG after the job can already be reported; some reports are then overwritten or
    find no job, and the shell waits although its job has stopped or ended. */
module ForegroundWait {
  import opened JobTable
  import opened ShellMachine

  // ---------------------------------------------------------------- reports that count

  /** A report of `pid` without effect on the wait: it comes before `addjob` has found a slot,
      or it is a stop that the main thread then overwrites with FG. (A stop that `fg` sees before
      its SIGCONT is rightly overwritten, one after it is not.) */
  predicate Lost(s: Shell, e: Event) {
    && e.Reported?
    && (s.pc.Forked? || s.pc.Scan? || (e.stopped && (s.pc.PutState? || s.pc.Continue? || s.pc.SetState?)))
  }

  predicate Counts(s: Shell, e: Event, pid: int) {
    e.Reported? && e.pid == pid && !Lost(s, e)
  }

  /** The run has a report of `pid` that counts, and then `n` steps of the main thread. */
  ghost predicate CountsThen(s: Shell, es: seq<Event>, pid: int, n: nat)
    requires LegalRun(s, es, false)
    decreases |es|
  {
    && es != []
    && ((Counts(s, es[0], pid) && MainCount(es[1..]) >= n) || CountsThen(Next(s, es[0]), es[1..], pid, n))
  }

  // ---------------------------------------------------------------- before the report

  /** Slot `i` is the job's, it is in state FG, and nothing is about to change that. */
  predicate InForeground(s: Shell, pid: int, i: nat) {
    && i < |s.jobs| && s.jobs[i].pid == pid && s.jobs[i].state == FG
    && ChildElsewhere(s.child, i)
  }

  /** Slot `i` is the job's, and is not about to be cleared. */
  predicate Kept(s: Shell, pid: int, i: nat) {
    i < |s.jobs| && s.jobs[i].pid == pid && s.child != ClearPid(i)
  }

  /** The shell is on its way to wait for `pid`, or waits, and no report of it has counted. */
  predicate Awaiting(s: Shell, pid: int) {
    && pid >= 1
    && match s.pc
       case Forked(p, bg) => p == pid && !bg
       case Scan(p, bg, _) => p == pid && !bg
       case PutState(p, bg, i) => p == pid && !bg && Kept(s, pid, i)
       case PutJid(p, bg, i) => p == pid && !bg && InForeground(s, pid, i)
       case Added(p, bg) => p == pid && !bg && InForeground(s, pid, SlotOfPid(s.jobs, pid))
       case Continue(fg, i) => fg && Kept(s, pid, i)
       case SetState(fg, i) => fg && Kept(s, pid, i)
       case WaitArg(i) => InForeground(s, pid, i)
       case WaitLookup(p, k) =>
         p == pid && InForeground(s, pid, SlotOfPid(s.jobs, pid)) && k <= SlotOfPid(s.jobs, pid)
       case WaitState(p, i) => p == pid && InForeground(s, pid, i)
       case WaitPid(p, i) => p == pid && InForeground(s, pid, i)
       case Exited => true
       case _ => false
  }

  /** Slots other than the job's change only to lose their pid. */
  lemma SlotStays(js: seq<Job>, js': seq<Job>, pid: int)
    requires AllWeakened(js, js') && pid >= 1
    requires var i := SlotOfPid(js, pid); i < |js| && js'[i].pid == pid
    ensures SlotOfPid(js', pid) == SlotOfPid(js, pid)
  {
    SlotIs(js', pid, SlotOfPid(js, pid));
  }

  lemma AwaitingMain(s: Shell, cmdline: string, pid: int)
    requires Inv(s) && Awaiting(s, pid) && Enabled(s, Main(cmdline), false)
    ensures Awaiting(MainStep(s, cmdline), pid)
  {
    var t := MainStep(s, cmdline);
    match s.pc
    case PutJid(_, _, i) => SlotIs(t.jobs, pid, i);
    case WaitArg(i) => SlotIs(s.jobs, pid, i);
    case _ =>
  }

  lemma AwaitingChild(s: Shell, pid: int)
    requires Inv(s) && Awaiting(s, pid)
    ensures Awaiting(ChildStep(s), pid)
  {
    ChildWeakens(s);
    var t := ChildStep(s);
    if s.pc.Added? || s.pc.WaitLookup? {
      assert t.jobs[SlotOfPid(s.jobs, pid)].pid == pid;
      SlotStays(s.jobs, t.jobs, pid);
    }
  }

  lemma AwaitingReport(s: Shell, e: Event, pid: int)
    requires Inv(s) && Awaiting(s, pid) && Enabled(s, e, false) && e.Reported? && !Counts(s, e, pid)
    ensures Awaiting(Next(s, e), pid)
  {
  }

  lemma AwaitingStep(s: Shell, e: Event, pid: int)
    requires Inv(s) && Awaiting(s, pid) && Enabled(s, e, false) && !Counts(s, e, pid)
    ensures Awaiting(Next(s, e), pid)
  {
    match e
    case Main(cmdline) => AwaitingMain(s, cmdline, pid);
    case Child => AwaitingChild(s, pid);
    case Reported(_, _) => AwaitingReport(s, e, pid);
    case _ =>
  }

  // ---------------------------------------------------------------- after the report

  /** Every slot that holds `pid` has left state FG or is about to. */
  predicate OutOfForeground(s: Shell, pid: int) {
    forall m :: 0 <= m < |s.jobs| && s.jobs[m].pid == pid ==> s.jobs[m].state != FG || LeavesForeground(s.child, m)
  }

  /** Slot `i` has lost its pid or is about to. */
  predicate Emptied(s: Shell, i: nat) {
    i < |s.jobs| && (s.jobs[i].pid == 0 || s.child == ClearPid(i))
  }

  /** A report of `pid` has counted, and the main thread has yet to notice. */
  predicate Released(s: Shell, pid: int) {
    && pid != 0
    && match s.pc
       case PutState(p, bg, i) => p == pid && !bg && Emptied(s, i)
       case PutJid(p, bg, _) => p == pid && !bg && OutOfForeground(s, pid)
       case Added(p, bg) => p == pid && !bg && OutOfForeground(s, pid)
       case Continue(fg, i) => fg && Emptied(s, i)
       case SetState(fg, i) => fg && Emptied(s, i)
       case WaitArg(i) => OutOfForeground(s, pid) && i < |s.jobs| && (s.jobs[i].pid == pid || s.jobs[i].pid == 0)
       case WaitLookup(p, _) => p == 0 || (p == pid && OutOfForeground(s, pid))
       case WaitState(p, i) => p == pid && WaitEnding(s, pid, i)
       case WaitPid(p, i) => p == pid && WaitEnding(s, pid, i)
       case _ => false
  }

  /** The most steps the main thread then takes to the prompt. */
  function StepsLeft(pc: Pc): int {
    match pc
    case PutState(_, _, _) => 20
    case PutJid(_, _, _) => 19
    case Added(_, _) => 18
    case Continue(_, _) => 20
    case SetState(_, _) => 19
    case WaitArg(_) => 18
    case WaitLookup(_, i) => 17 - i
    case WaitPid(_, _) => 2
    case _ => 1
  }

  lemma CountedReleases(s: Shell, e: Event, pid: int)
    requires Inv(s) && Awaiting(s, pid) && Enabled(s, e, false) && Counts(s, e, pid)
    ensures Released(Next(s, e), pid)
  {
    var i := SlotOfPid(s.jobs, pid);
    assert s.pc.PutState? ==> s.jobs[s.pc.i].pid == pid;
    assert i < |s.jobs|;
  }

  /** The main thread comes closer to the prompt with every step. */
  lemma ReleasedMain(s: Shell, cmdline: string, pid: int)
    requires Inv(s) && Released(s, pid) && Enabled(s, Main(cmdline), false)
    ensures var t := MainStep(s, cmdline);
            t.pc == Prompt || (Released(t, pid) && StepsLeft(t.pc) < StepsLeft(s.pc))
  {
  }

  lemma OutOfForegroundChild(s: Shell, pid: int)
    requires SlotsInRange(s) && pid != 0 && OutOfForeground(s, pid)
    ensures OutOfForeground(ChildStep(s), pid)
  {
  }

  lemma EmptiedChild(s: Shell, i: nat)
    requires SlotsInRange(s) && Emptied(s, i)
    ensures Emptied(ChildStep(s), i)
  {
  }

  lemma ReleasedChild(s: Shell, pid: int)
    requires Inv(s) && Released(s, pid)
    ensures Released(ChildStep(s), pid)
  {
    ChildWeakens(s);
    assert ChildStep(s).pc == s.pc;
    hide ChildStep, Emptied, OutOfForeground, WaitEnding;
    match s.pc
    case PutState(_, _, i) => EmptiedChild(s, i);
    case Continue(_, i) => EmptiedChild(s, i);
    case SetState(_, i) => EmptiedChild(s, i);
    case WaitState(_, i) => EndingChild(s, pid, i);
    case WaitPid(_, i) => EndingChild(s, pid, i);
    case WaitLookup(p, _) => if p != 0 { OutOfForegroundChild(s, pid); }
    case _ => OutOfForegroundChild(s, pid);
  }

  lemma ReleasedReport(s: Shell, e: Event, pid: int)
    requires Inv(s) && Released(s, pid) && Enabled(s, e, false) && e.Reported?
    ensures Released(Next(s, e), pid)
  {
  }

  /** Keyboard handlers do not matter. */
  lemma ReleasedFrame(s: Shell, t: Shell, pid: int)
    requires Released(s, pid) && t.jobs == s.jobs && t.pc == s.pc && t.child == s.child
    requires SlotsInRange(s) ==> SlotsInRange(t)
    ensures Released(t, pid)
  {
  }

  /** No other step undoes the release. */
  lemma ReleasedStep(s: Shell, e: Event, pid: int)
    requires Inv(s) && Released(s, pid) && Enabled(s, e, false)
    ensures var t := Next(s, e);
            || e == Exit
            || (if e.Main? then t.pc == Prompt || (Released(t, pid) && StepsLeft(t.pc) < StepsLeft(s.pc))
                else t.pc == s.pc && Released(t, pid))
  {
    StepKeepsInv(s, e);
    assert SlotsInRange(s) && SlotsInRange(Next(s, e));
    assert s.pc != Prompt;
    hide Inv, SlotsInRange, Released;
    match e
    case Main(cmdline) => ReleasedMain(s, cmdline, pid);
    case Child => ReleasedChild(s, pid);
    case Reported(_, _) => ReleasedReport(s, e, pid);
    case KeyPressed(_) => ReleasedFrame(s, Next(s, e), pid);
    case Handle(_) => ReleasedFrame(s, Next(s, e), pid);
    case _ =>
  }

  lemma {:induction false} ReleasedComesToPrompt(s: Shell, es: seq<Event>, pid: int)
    requires Inv(s) && Released(s, pid) && LegalRun(s, es, false) && MainCount(es) >= StepsLeft(s.pc)
    ensures ComesToPrompt(s, es)
    decreases |es|
  {
    hide Inv, Released, Next, SlotsInRange;
    StepsPositive(s, pid);
    var t := Next(s, es[0]);
    ReleasedStep(s, es[0], pid);
    StepKeepsInv(s, es[0]);
    if es[0] != Exit && t.pc != Prompt {
      ReleasedComesToPrompt(t, es[1..], pid);
    } else if es[0] == Exit {
      ExitEnds(s, es);
    }
  }

  lemma StepsPositive(s: Shell, pid: int)
    requires Inv(s) && Released(s, pid)
    ensures 1 <= StepsLeft(s.pc) <= 20
  {
  }

  lemma ExitEnds(s: Shell, es: seq<Event>)
    requires LegalRun(s, es, false) && es != [] && es[0] == Exit
    ensures es[1..] == []
  {
  }

  // ---------------------------------------------------------------- the exact condition

  /** Every report that counts brings the prompt within 20 steps of the main thread, and nothing
      else brings it. */
  lemma {:induction false} ComesBackExactly(s: Shell, es: seq<Event>, pid: int)
    requires Inv(s) && Awaiting(s, pid) && LegalRun(s, es, false)
    ensures ComesToPrompt(s, es) ==> CountsThen(s, es, pid, 0)
    ensures CountsThen(s, es, pid, 20) ==> ComesToPrompt(s, es)
    decreases |es|
  {
    assert s.pc != Prompt;
    if es != [] {
      hide Inv, Awaiting, Released, Counts, SlotsInRange, Next, StepsLeft;
      var t := Next(s, es[0]);
      StepKeepsInv(s, es[0]);
      if Counts(s, es[0], pid) {
        CountedReleases(s, es[0], pid);
        StepsPositive(t, pid);
        if MainCount(es[1..]) >= 20 {
          ReleasedComesToPrompt(t, es[1..], pid);
        } else if CountsThen(t, es[1..], pid, 20) {
          CountsEnough(t, es[1..], pid, 20);
        }
      } else {
        AwaitingStep(s, es[0], pid);
        ComesBackExactly(t, es[1..], pid);
      }
    }
  }

  /** A foreground command: the prompt comes back only after a report that counts, and within 20
      steps after it. Before `addjob` has found a slot no report counts, then only the child's
      end does until the state is written, and from then on every report. */
  lemma CommandComesBackExactly(s: Shell, pid: int, es: seq<Event>)
    requires Inv(s) && Enabled(s, ForkJob(pid, false), false) && LegalRun(Next(s, ForkJob(pid, false)), es, false)
    ensures var t := Next(s, ForkJob(pid, false));
            && (ComesToPrompt(t, es) ==> CountsThen(t, es, pid, 0))
            && (CountsThen(t, es, pid, 20) ==> ComesToPrompt(t, es))
  {
    StepKeepsInv(s, ForkJob(pid, false));
    ComesBackExactly(Next(s, ForkJob(pid, false)), es, pid);
  }

  /** The `fg` command has found its job. */
  predicate FgFound(s: Shell, cmdline: string) {
    && Enabled(s, Main(cmdline), false) && s.pc.Lookup? && s.pc.fg && s.pc.i < |s.jobs|
    && Matches(s.jobs[s.pc.i], s.pc.arg)
  }

  /** So does `fg`, from the moment it has found its job: a stop counts only once the state FG
      is written. A slot that has lost its job keeps `fg` for at most 20 steps. */
  lemma FgComesBackExactly(s: Shell, cmdline: string, es: seq<Event>)
    requires Inv(s) && FgFound(s, cmdline) && LegalRun(Next(s, Main(cmdline)), es, false)
    ensures var t, pid := Next(s, Main(cmdline)), s.jobs[s.pc.i].pid;
            if pid == 0 then MainCount(es) >= 20 ==> ComesToPrompt(t, es)
            else
              && (ComesToPrompt(t, es) ==> CountsThen(t, es, pid, 0))
              && (CountsThen(t, es, pid, 20) ==> ComesToPrompt(t, es))
  {
    var t, pid := Next(s, Main(cmdline)), s.jobs[s.pc.i].pid;
    StepKeepsInv(s, Main(cmdline));
    assert t.pc == Continue(true, s.pc.i) && t.jobs == s.jobs;
    if pid == 0 {
      if MainCount(es) >= 20 { ReleasedComesToPrompt(t, es, -1); }
    } else {
      ComesBackExactly(t, es, pid);
    }
  }

  /** A stop that is reported just before the main thread writes the state of that job is
      overwritten: the same state is reached as without the report. */
  lemma StopOverwritten(s: Shell, cmdline: string)
    requires Inv(s) && Enabled(s, Main(cmdline), false) && (s.pc.PutState? || s.pc.SetState?)
    requires s.jobs[s.pc.i].pid != 0
    ensures var t := ChildStep(Next(s, Reported(s.jobs[s.pc.i].pid, true)));
            t.jobs[s.pc.i].state == ST && MainStep(t, cmdline) == MainStep(s, cmdline)
  {
    var i := s.pc.i;
    SlotIs(s.jobs, s.jobs[i].pid, i);
    var t := ChildStep(Next(s, Reported(s.jobs[i].pid, true)));
    var state := MainStep(s, cmdline).jobs[i].state;
    assert t.jobs[i := t.jobs[i].(state := state)] == s.jobs[i := s.jobs[i].(state := state)];
  }

  // ---------------------------------------------------------------- a stop that is lost

  /** `addjob` has written the pid of the job into slot 0, which is in some state. */
  function Recording(pid: int, state: JobState): Shell {
    InitShell().(pc := PutState(pid, false, 0), jobs := InitShell().jobs[0 := Job(pid, 0, state, "")])
  }

  /** From there the shell comes to the wait loop, whatever the state was. */
  lemma RecordingMains(pid: int, state: JobState)
    requires pid >= 1
    ensures var s := Recording(pid, state);
            LegalRun(s, Mains(4), false) && WaitingFor(After(s, Mains(4), false), pid, 0)
  {
    var s0, s := InitShell(), Recording(pid, state);
    var t := s0.(pc := PutJid(pid, false, 0), jobs := s0.jobs[0 := Job(pid, 0, FG, "")]);
    var u := s0.(pc := Added(pid, false), jobs := s0.jobs[0 := Job(pid, 1, FG, "")], nextjid := 2);
    assert t == MainStep(s, "") && u == MainStep(t, "");
    hide LegalRun, After, Mains, MainStep, WaitingFor;
    WaitMains(u, pid);
    MainCons(t, u, 3);
    MainCons(s, t, 4);
  }

  /** The job in slot 0 is reported as stopped meanwhile. */
  lemma RecordingStopped(pid: int)
    requires pid >= 1
    ensures var s, es := Recording(pid, UNDEF), [Reported(pid, true)] + ([Child] + Mains(4));
            LegalRun(s, es, false) && WaitingFor(After(s, es, false), pid, 0)
  {
    var s, t := Recording(pid, UNDEF), Recording(pid, ST);
    RecordingMains(pid, ST);
    SlotIs(s.jobs, pid, 0);
    assert s.(child := WriteStop(0)) == Next(s, Reported(pid, true)) && t == Next(s.(child := WriteStop(0)), Child);
    hide LegalRun, After, Mains, MainStep, WaitingFor, ChildStep, Report;
    RunCons(s.(child := WriteStop(0)), Child, Mains(4), false);
    RunCons(s, Reported(pid, true), [Child] + Mains(4), false);
  }

  /** A foreground command whose child stops while `addjob` is recording it. */
  function StopAtRecord(pid: int): seq<Event> {
    [ForkJob(pid, false)] + ([Main("")] + ([Main("")] + ([Reported(pid, true)] + ([Child] + Mains(4)))))
  }

  /** The shell hangs for every pid: the stop has been reported, and the shell waits for it. */
  lemma StopAtRecordHangs(pid: int)
    requires pid >= 1
    ensures LegalRun(InitShell(), StopAtRecord(pid), false)
    ensures WaitingFor(After(InitShell(), StopAtRecord(pid), false), pid, 0)
  {
    var s0, s := InitShell(), Recording(pid, UNDEF);
    var s1, s2 := s0.(pc := Forked(pid, false)), s0.(pc := Scan(pid, false, 0));
    RecordingStopped(pid);
    assert s2 == MainStep(s1, "") && s == MainStep(s2, "");
    hide LegalRun, After, Mains, MainStep, WaitingFor;
    var es := [Reported(pid, true)] + ([Child] + Mains(4));
    RunCons(s2, Main(""), es, false);
    RunCons(s1, Main(""), [Main("")] + es, false);
    RunCons(s0, ForkJob(pid, false), [Main("")] + ([Main("")] + es), false);
  }

  /** A report followed by `n` main steps leaves at least as many in the whole run. */
  lemma {:induction false} CountsEnough(s: Shell, es: seq<Event>, pid: int, n: nat)
    requires LegalRun(s, es, false) && CountsThen(s, es, pid, n)
    ensures MainCount(es) >= n
    decreases |es|
  {
    hide Counts, Next;
    if !(Counts(s, es[0], pid) && MainCount(es[1..]) >= n) {
      CountsEnough(Next(s, es[0]), es[1..], pid, n);
    }
  }
}
