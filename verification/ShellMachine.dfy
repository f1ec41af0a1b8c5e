/** The shell of `lab4/tsh.c` as a state machine: the main thread and its three signal
    handlers advance by single reads and writes of the job list, in any interleaving that
    signal delivery allows. Nothing blocks SIGCHLD around `addjob`, so a child may be
    reported before, during or after its job is recorded. */
module ShellMachine {
  import opened JobTable

  /** The argument of `fg` and `bg`. */
  datatype Arg = ByPid(n: int) | ByJid(n: int)

  /** Where the main thread is. `i` is a slot; the comments name the next thing it does. */
  datatype Pc =
    | Prompt                               // read a command
    | Forked(pid: int, bg: bool)           // call addjob
    | Scan(pid: int, bg: bool, i: nat)     // addjob: test whether slot i is free
    | PutState(pid: int, bg: bool, i: nat) // addjob: write the state, the pid is written
    | PutJid(pid: int, bg: bool, i: nat)   // addjob: write the job id and advance nextjid
    | Added(pid: int, bg: bool)            // eval: wait for a foreground job
    | WaitLookup(pid: int, i: nat)         // waitfg: getjobpid tests slot i
    | WaitState(pid: int, i: nat)          // waitfg: read job->state
    | WaitPid(pid: int, i: nat)            // waitfg: read job->pid
    | Lookup(fg: bool, arg: Arg, i: nat)   // do_bgfg: getjobpid or getjobjid tests slot i
    | Continue(fg: bool, i: nat)           // do_bgfg: kill(-job->pid, SIGCONT)
    | SetState(fg: bool, i: nat)           // do_bgfg: write job->state
    | WaitArg(i: nat)                      // do_bgfg: read job->pid for waitfg
    | Exited

  /** Where `sigchld_handler` is. */
  datatype ChildPc =
    | Quiet                 // not running, or about to call waitpid
    | WriteStop(i: nat)     // job->state = ST
    | ClearPid(i: nat)      // clearjob: the four fields, then nextjid
    | ClearJid(i: nat)
    | ClearState(i: nat)
    | ClearCmd(i: nat)
    | ResetNext

  /** Where `sigint_handler` or `sigtstp_handler` is. */
  datatype KeyPc =
    | Idle
    | FindFg(k: nat)        // fgpid: test the state of slot k
    | ReadPid(k: nat)       // fgpid: read the pid of slot k
    | Send(pid: int)        // kill(-pid, ...)

  datatype Key = Interrupt | Stop

  datatype Shell = Shell(jobs: seq<Job>, nextjid: int, pc: Pc, child: ChildPc, sigint: KeyPc, sigtstp: KeyPc)

  /** What can happen next. */
  datatype Event =
    | ForkJob(pid: int, bg: bool)             // the user runs a program; fork returns pid
    | BgFg(fg: bool, arg: Arg)                // the user types fg or bg
    | Main(cmdline: string)                   // the main thread takes one step
    | Exit                                    // quit, SIGQUIT, end of input or a failing system call
    | Reported(pid: int, stopped: bool)       // waitpid reports a child
    | Child                                   // sigchld_handler takes one step
    | KeyPressed(key: Key)                    // a keyboard signal arrives
    | Handle(key: Key)                        // its handler takes one step

  // ---------------------------------------------------------------- steps

  function InitShell(): Shell {
    Shell(seq(MAXJOBS, _ => CLEARED), 1, Prompt, Quiet, Idle, Idle)
  }

  function With(s: Shell, i: nat, j: Job): Shell
    requires i < |s.jobs|
  {
    s.(jobs := s.jobs[i := j])
  }

  /** The main thread runs only when no handler is active: handlers run on top of it. */
  predicate MainMayRun(s: Shell) {
    s.child == Quiet && s.sigint == Idle && s.sigtstp == Idle
  }

  predicate Matches(j: Job, arg: Arg) {
    match arg
    case ByPid(n) => n >= 1 && j.pid == n
    case ByJid(n) => n >= 1 && j.jid == n
  }

  /** One step of the main thread. */
  function MainStep(s: Shell, cmdline: string): Shell
    requires SlotsInRange(s)
  {
    match s.pc
    case Prompt => s
    case Forked(pid, bg) => s.(pc := if pid < 1 then Exited else Scan(pid, bg, 0))
    case Scan(pid, bg, i) =>
      if i == MAXJOBS then s.(pc := Exited)
      else if s.jobs[i].pid == 0 then With(s, i, s.jobs[i].(pid := pid)).(pc := PutState(pid, bg, i))
      else s.(pc := Scan(pid, bg, i + 1))
    case PutState(pid, bg, i) =>
      With(s, i, s.jobs[i].(state := if bg then BG else FG)).(pc := PutJid(pid, bg, i))
    case PutJid(pid, bg, i) =>
      With(s, i, s.jobs[i].(jid := s.nextjid, cmdline := cmdline))
        .(pc := Added(pid, bg), nextjid := if s.nextjid + 1 > MAXJOBS then 1 else s.nextjid + 1)
    case Added(pid, bg) => s.(pc := if bg then Prompt else WaitLookup(pid, 0))
    case WaitLookup(pid, i) =>
      if pid < 1 || i == MAXJOBS then s.(pc := Prompt)
      else s.(pc := if s.jobs[i].pid == pid then WaitState(pid, i) else WaitLookup(pid, i + 1))
    case WaitState(pid, i) => s.(pc := if s.jobs[i].state == FG then WaitPid(pid, i) else Prompt)
    case WaitPid(pid, i) => s.(pc := if s.jobs[i].pid == pid then WaitState(pid, i) else Prompt)
    case Lookup(fg, arg, i) =>
      if arg.n < 1 || i == MAXJOBS then s.(pc := Prompt)
      else s.(pc := if Matches(s.jobs[i], arg) then Continue(fg, i) else Lookup(fg, arg, i + 1))
    case Continue(fg, i) => s.(pc := SetState(fg, i))
    case SetState(fg, i) =>
      With(s, i, s.jobs[i].(state := if fg then FG else BG)).(pc := if fg then WaitArg(i) else Prompt)
    case WaitArg(i) => s.(pc := WaitLookup(s.jobs[i].pid, 0))
    case Exited => s
  }

  /** One step of `sigchld_handler`. */
  function ChildStep(s: Shell): Shell
    requires SlotsInRange(s)
  {
    match s.child
    case Quiet => s
    case WriteStop(i) => With(s, i, s.jobs[i].(state := ST)).(child := Quiet)
    case ClearPid(i) => With(s, i, s.jobs[i].(pid := 0)).(child := ClearJid(i))
    case ClearJid(i) => With(s, i, s.jobs[i].(jid := 0)).(child := ClearState(i))
    case ClearState(i) => With(s, i, s.jobs[i].(state := UNDEF)).(child := ClearCmd(i))
    case ClearCmd(i) => With(s, i, s.jobs[i].(cmdline := "")).(child := ResetNext)
    case ResetNext => s.(nextjid := MaxJid(s.jobs) + 1, child := Quiet)
  }

  /** `waitpid` reports that child `pid` stopped or ended: find its slot. */
  function Report(s: Shell, pid: int, stopped: bool): Shell {
    var i := SlotOfPid(s.jobs, pid);
    if pid < 1 || i == |s.jobs| then s
    else s.(child := if stopped then WriteStop(i) else ClearPid(i))
  }

  /** One step of a keyboard handler. */
  function KeyStep(js: seq<Job>, k: KeyPc): KeyPc
    requires KeyInRange(js, k)
  {
    match k
    case Idle => Idle
    case FindFg(i) => if i == |js| then Idle else if js[i].state == FG then ReadPid(i) else FindFg(i + 1)
    case ReadPid(i) => if js[i].pid > 0 then Send(js[i].pid) else Idle
    case Send(_) => Idle
  }

  predicate KeyInRange(js: seq<Job>, k: KeyPc) {
    match k
    case FindFg(i) => i <= |js|
    case ReadPid(i) => i < |js|
    case _ => true
  }

  predicate PcInRange(pc: Pc) {
    match pc
    case Scan(_, _, i) => i <= MAXJOBS
    case PutState(_, _, i) => i < MAXJOBS
    case PutJid(_, _, i) => i < MAXJOBS
    case WaitLookup(_, i) => i <= MAXJOBS
    case WaitState(_, i) => i < MAXJOBS
    case WaitPid(_, i) => i < MAXJOBS
    case Lookup(_, _, i) => i <= MAXJOBS
    case Continue(_, i) => i < MAXJOBS
    case SetState(_, i) => i < MAXJOBS
    case WaitArg(i) => i < MAXJOBS
    case _ => true
  }

  predicate ChildInRange(c: ChildPc) {
    match c
    case WriteStop(i) => i < MAXJOBS
    case ClearPid(i) => i < MAXJOBS
    case ClearJid(i) => i < MAXJOBS
    case ClearState(i) => i < MAXJOBS
    case ClearCmd(i) => i < MAXJOBS
    case _ => true
  }

  /** Every slot the threads hold on to exists. */
  predicate SlotsInRange(s: Shell) {
    && |s.jobs| == MAXJOBS
    && PcInRange(s.pc) && ChildInRange(s.child)
    && KeyInRange(s.jobs, s.sigint) && KeyInRange(s.jobs, s.sigtstp)
  }

  /** A process id that no slot holds. */
  predicate FreshPid(js: seq<Job>, pid: int) {
    pid >= 1 && forall i :: 0 <= i < |js| ==> js[i].pid != pid
  }

  function KeyAt(s: Shell, key: Key): KeyPc {
    if key == Interrupt then s.sigint else s.sigtstp
  }

  /** When an event can happen. `fork` may only return a pid that is not in the job list,
      unless `reuse` lets it. */
  predicate Enabled(s: Shell, e: Event, reuse: bool) {
    s.pc != Exited
    && match e
       case ForkJob(pid, bg) => MainMayRun(s) && s.pc == Prompt && pid >= 1 && (reuse || FreshPid(s.jobs, pid))
       case BgFg(fg, arg) => MainMayRun(s) && s.pc == Prompt
       case Main(_) => MainMayRun(s)
       case Exit => true
       case Reported(pid, stopped) => s.child == Quiet
       case Child => s.child != Quiet
       case KeyPressed(key) => KeyAt(s, key) == Idle
       case Handle(key) => KeyAt(s, key) != Idle
  }

  function Next(s: Shell, e: Event): Shell
    requires SlotsInRange(s)
  {
    match e
    case ForkJob(pid, bg) => s.(pc := Forked(pid, bg))
    case BgFg(fg, arg) => s.(pc := Lookup(fg, arg, 0))
    case Main(cmdline) => MainStep(s, cmdline)
    case Exit => s.(pc := Exited)
    case Reported(pid, stopped) => Report(s, pid, stopped)
    case Child => ChildStep(s)
    case KeyPressed(key) => if key == Interrupt then s.(sigint := FindFg(0)) else s.(sigtstp := FindFg(0))
    case Handle(key) =>
      if key == Interrupt then s.(sigint := KeyStep(s.jobs, s.sigint)) else s.(sigtstp := KeyStep(s.jobs, s.sigtstp))
  }

  // ---------------------------------------------------------------- the invariant

  /** A foreground job. A slot whose pid is 0 holds no job, whatever its state. */
  predicate Foreground(j: Job) {
    j.pid != 0 && j.state == FG
  }

  predicate NoForeground(js: seq<Job>) {
    forall i :: 0 <= i < |js| ==> !Foreground(js[i])
  }

  /** Every foreground job has this pid. */
  predicate OnlyForeground(js: seq<Job>, pid: int) {
    forall i :: 0 <= i < |js| && Foreground(js[i]) ==> js[i].pid == pid
  }

  /** Every slot but `i` holds no foreground job. */
  predicate OnlySlot(js: seq<Job>, i: nat) {
    forall k :: 0 <= k < |js| && Foreground(js[k]) ==> k == i
  }

  /** Slot `i` still holds `pid`, or was cleared; no other slot holds it. */
  predicate Owns(js: seq<Job>, pid: int, i: nat)
    requires i < |js|
  {
    pid >= 1 && (js[i].pid == pid || js[i].pid == 0)
    && forall k :: 0 <= k < |js| && k != i ==> js[k].pid != pid
  }

  predicate GoodPids(js: seq<Job>) {
    && DistinctPids(js)
    && forall i :: 0 <= i < |js| ==> js[i].pid >= 0
  }

  /** What holds of the job list at each point of the main thread. */
  predicate MainInv(js: seq<Job>, pc: Pc)
    requires |js| == MAXJOBS && PcInRange(pc)
  {
    match pc
    case Prompt => NoForeground(js)
    case Forked(pid, _) => NoForeground(js) && FreshPid(js, pid)
    case Scan(pid, _, _) => NoForeground(js) && FreshPid(js, pid)
    case PutState(pid, _, i) => OnlySlot(js, i) && Owns(js, pid, i)
    case PutJid(pid, bg, i) => OnlySlot(js, i) && Owns(js, pid, i) && (bg ==> NoForeground(js))
    case Added(pid, bg) => OnlyForeground(js, pid) && (bg ==> NoForeground(js))
    case WaitLookup(pid, i) =>
      OnlyForeground(js, pid) && (forall k :: 0 <= k < i ==> !Foreground(js[k]))
    case WaitState(pid, i) => OnlySlot(js, i) && OnlyForeground(js, pid)
    case WaitPid(pid, i) => OnlySlot(js, i) && OnlyForeground(js, pid)
    case Lookup(_, _, _) => NoForeground(js)
    case Continue(_, _) => NoForeground(js)
    case SetState(_, _) => NoForeground(js)
    case WaitArg(i) => OnlySlot(js, i)
    case Exited => true
  }

  /** What a keyboard handler may rely on while it runs: the job it found is the only
      foreground job, and not a background job. */
  predicate KeyInv(js: seq<Job>, k: KeyPc)
    requires KeyInRange(js, k)
  {
    match k
    case ReadPid(i) => js[i].pid != 0 ==> OnlySlot(js, i) && js[i].state != BG
    case Send(pid) =>
      && pid > 0 && OnlyForeground(js, pid)
      && forall i :: 0 <= i < |js| && js[i].pid == pid ==> js[i].state != BG
    case _ => true
  }

  predicate Inv(s: Shell) {
    && SlotsInRange(s)
    && GoodPids(s.jobs)
    && MainInv(s.jobs, s.pc)
    && KeyInv(s.jobs, s.sigint) && KeyInv(s.jobs, s.sigtstp)
  }

  lemma InitInv()
    ensures Inv(InitShell())
  {
  }

  /** At most one slot holds a foreground job. */
  lemma ForegroundUnique(js: seq<Job>, pc: Pc, i: nat, j: nat)
    requires |js| == MAXJOBS && PcInRange(pc) && pc != Exited && GoodPids(js) && MainInv(js, pc)
    requires i < |js| && j < |js| && Foreground(js[i]) && Foreground(js[j])
    ensures i == j
  {
  }

  predicate Writes(pc: Pc) {
    pc.Scan? || pc.PutState? || pc.PutJid? || pc.SetState?
  }

  /** The main thread's reads: it moves on with what it saw. */
  lemma ReadKeepsInv(s: Shell, cmdline: string)
    requires Inv(s) && Enabled(s, Main(cmdline), false) && !Writes(s.pc)
    ensures Inv(MainStep(s, cmdline))
  {
    var t := MainStep(s, cmdline);
    assert t.jobs == s.jobs;
    assert MainInv(s.jobs, t.pc);
  }

  lemma TakeSlot(js: seq<Job>, pid: int, bg: bool, i: nat)
    requires |js| == MAXJOBS && GoodPids(js) && NoForeground(js) && FreshPid(js, pid)
    requires i < |js| && js[i].pid == 0
    ensures var js' := js[i := js[i].(pid := pid)]; GoodPids(js') && MainInv(js', PutState(pid, bg, i))
  {
  }

  lemma SetOwnState(js: seq<Job>, pid: int, bg: bool, i: nat)
    requires |js| == MAXJOBS && GoodPids(js) && i < |js| && MainInv(js, PutState(pid, bg, i))
    ensures var js' := js[i := js[i].(state := if bg then BG else FG)];
            GoodPids(js') && MainInv(js', PutJid(pid, bg, i))
  {
  }

  lemma SetOwnJid(js: seq<Job>, pid: int, bg: bool, i: nat, jid: int, cmdline: string)
    requires |js| == MAXJOBS && GoodPids(js) && i < |js| && MainInv(js, PutJid(pid, bg, i))
    ensures var js' := js[i := js[i].(jid := jid, cmdline := cmdline)];
            GoodPids(js') && MainInv(js', Added(pid, bg))
  {
  }

  lemma ContinueJob(js: seq<Job>, fg: bool, i: nat)
    requires |js| == MAXJOBS && GoodPids(js) && i < |js| && NoForeground(js)
    ensures var js' := js[i := js[i].(state := if fg then FG else BG)];
            GoodPids(js') && MainInv(js', if fg then WaitArg(i) else Prompt)
  {
  }

  /** The main thread's writes; no handler is active. */
  lemma WriteKeepsInv(s: Shell, cmdline: string)
    requires Inv(s) && Enabled(s, Main(cmdline), false) && Writes(s.pc)
    ensures Inv(MainStep(s, cmdline))
  {
    match s.pc
    case Scan(pid, bg, i) =>
      if i < MAXJOBS && s.jobs[i].pid == 0 { TakeSlot(s.jobs, pid, bg, i); }
    case PutState(pid, bg, i) =>
      SetOwnState(s.jobs, pid, bg, i);
    case PutJid(pid, bg, i) =>
      SetOwnJid(s.jobs, pid, bg, i, s.nextjid, cmdline);
    case SetState(fg, i) =>
      ContinueJob(s.jobs, fg, i);
  }

  /** A write of `sigchld_handler` takes away a foreground job or nothing. */
  predicate Weakened(j: Job, j': Job) {
    && (j'.pid == j.pid || j'.pid == 0)
    && (j'.state == j.state || (j'.state != FG && j'.state != BG))
  }

  predicate AllWeakened(js: seq<Job>, js': seq<Job>) {
    |js| == |js'| && forall i :: 0 <= i < |js| ==> Weakened(js[i], js'[i])
  }

  lemma WeakGood(js: seq<Job>, js': seq<Job>)
    requires GoodPids(js) && AllWeakened(js, js')
    ensures GoodPids(js')
  {
  }

  lemma WeakMain(js: seq<Job>, js': seq<Job>, pc: Pc)
    requires |js| == MAXJOBS && PcInRange(pc) && MainInv(js, pc) && AllWeakened(js, js')
    ensures MainInv(js', pc)
  {
    assert forall i :: 0 <= i < |js| && Foreground(js'[i]) ==> Foreground(js[i]) && js'[i].pid == js[i].pid;
    hide AllWeakened, Foreground;
    match pc
    case PutState(pid, _, i) => assert Owns(js', pid, i) by { WeakOwns(js, js', pid, i); }
    case PutJid(pid, _, i) => assert Owns(js', pid, i) by { WeakOwns(js, js', pid, i); }
    case Forked(pid, _) => WeakFresh(js, js', pid);
    case Scan(pid, _, _) => WeakFresh(js, js', pid);
    case _ =>
  }

  lemma WeakFresh(js: seq<Job>, js': seq<Job>, pid: int)
    requires FreshPid(js, pid) && AllWeakened(js, js')
    ensures FreshPid(js', pid)
  {
  }

  lemma WeakOwns(js: seq<Job>, js': seq<Job>, pid: int, i: nat)
    requires i < |js| && Owns(js, pid, i) && AllWeakened(js, js')
    ensures Owns(js', pid, i)
  {
  }

  lemma WeakKey(js: seq<Job>, js': seq<Job>, k: KeyPc)
    requires KeyInRange(js, k) && KeyInv(js, k) && AllWeakened(js, js')
    ensures KeyInRange(js', k) && KeyInv(js', k)
  {
  }

  lemma ChildWeakens(s: Shell)
    requires SlotsInRange(s)
    ensures AllWeakened(s.jobs, ChildStep(s).jobs)
  {
  }

  lemma ChildKeepsInv(s: Shell)
    requires Inv(s)
    ensures Inv(ChildStep(s))
  {
    var t := ChildStep(s);
    assert SlotsInRange(t) && t.pc == s.pc && t.sigint == s.sigint && t.sigtstp == s.sigtstp;
    ChildWeakens(s);
    hide ChildStep, SlotsInRange, GoodPids, MainInv, KeyInv, AllWeakened;
    WeakGood(s.jobs, t.jobs);
    WeakMain(s.jobs, t.jobs, s.pc);
    WeakKey(s.jobs, t.jobs, s.sigint);
    WeakKey(s.jobs, t.jobs, s.sigtstp);
  }

  lemma KeyStepKeepsInv(js: seq<Job>, pc: Pc, k: KeyPc)
    requires |js| == MAXJOBS && PcInRange(pc) && pc != Exited && GoodPids(js) && MainInv(js, pc)
    requires KeyInRange(js, k) && KeyInv(js, k)
    ensures KeyInRange(js, KeyStep(js, k)) && KeyInv(js, KeyStep(js, k))
  {
    hide MainInv;
    if k.FindFg? && k.k < |js| && Foreground(js[k.k]) {
      forall j | 0 <= j < |js| && Foreground(js[j]) ensures j == k.k {
        ForegroundUnique(js, pc, j, k.k);
      }
    }
  }

  /** Every step keeps the invariant, whatever the interleaving. */
  lemma StepKeepsInv(s: Shell, e: Event)
    requires Inv(s) && Enabled(s, e, false)
    ensures Inv(Next(s, e))
  {
    match e
    case Main(cmdline) => if Writes(s.pc) { WriteKeepsInv(s, cmdline); } else { ReadKeepsInv(s, cmdline); }
    case Child => ChildKeepsInv(s);
    case Handle(key) => KeyStepKeepsInv(s.jobs, s.pc, KeyAt(s, key));
    case _ =>
  }

  // ---------------------------------------------------------------- whole runs

  /** A sequence of events, each of which can happen when it does. */
  ghost predicate LegalRun(s: Shell, es: seq<Event>, reuse: bool)
    decreases |es|
  {
    && SlotsInRange(s)
    && (es != [] ==> Enabled(s, es[0], reuse) && LegalRun(Next(s, es[0]), es[1..], reuse))
  }

  ghost function After(s: Shell, es: seq<Event>, reuse: bool): Shell
    requires LegalRun(s, es, reuse)
    decreases |es|
  {
    if es == [] then s else After(Next(s, es[0]), es[1..], reuse)
  }

  lemma {:induction false} RunKeepsInv(s: Shell, es: seq<Event>)
    requires Inv(s) && LegalRun(s, es, false)
    ensures Inv(After(s, es, false))
    decreases |es|
  {
    if es != [] {
      StepKeepsInv(s, es[0]);
      RunKeepsInv(Next(s, es[0]), es[1..]);
    }
  }

  /** In every interleaving, at most one slot holds a foreground job, and none does when the
      prompt is shown. */
  lemma AtMostOneForeground(es: seq<Event>)
    requires LegalRun(InitShell(), es, false)
    ensures var s := After(InitShell(), es, false);
            && |s.jobs| == MAXJOBS
            && (s.pc != Exited ==>
                  forall i, j | 0 <= i < MAXJOBS && 0 <= j < MAXJOBS ::
                    (Foreground(s.jobs[i]) && Foreground(s.jobs[j]) ==> i == j))
            && (s.pc == Prompt ==> forall i :: 0 <= i < MAXJOBS ==> !Foreground(s.jobs[i]))
  {
    InitInv();
    RunKeepsInv(InitShell(), es);
    var s := After(InitShell(), es, false);
    if s.pc != Exited {
      forall i, j | 0 <= i < MAXJOBS && 0 <= j < MAXJOBS && Foreground(s.jobs[i]) && Foreground(s.jobs[j])
        ensures i == j
      {
        ForegroundUnique(s.jobs, s.pc, i, j);
      }
    }
  }

  /** When a keyboard handler sends its signal, every foreground job is in the group it sends
      to, and no background job is. */
  lemma SignalsReachForegroundOnly(es: seq<Event>, key: Key)
    requires LegalRun(InitShell(), es, false)
    requires KeyAt(After(InitShell(), es, false), key).Send?
    ensures var s := After(InitShell(), es, false);
            var target := KeyAt(s, key).pid;
            && target > 0
            && (forall i :: 0 <= i < |s.jobs| && Foreground(s.jobs[i]) ==> s.jobs[i].pid == target)
            && (forall i :: 0 <= i < |s.jobs| && s.jobs[i].pid == target ==> s.jobs[i].state != BG)
  {
    InitInv();
    RunKeepsInv(InitShell(), es);
  }

  /** `fgpid` finds the foreground job exactly when no earlier slot was left in state FG
      without a job. */
  lemma FgPidExact(es: seq<Event>, i: nat)
    requires LegalRun(InitShell(), es, false) && After(InitShell(), es, false).pc != Exited
    requires i < |After(InitShell(), es, false).jobs| && Foreground(After(InitShell(), es, false).jobs[i])
    ensures var js := After(InitShell(), es, false).jobs;
            var k := ForegroundSlot(js);
            && k < |js|
            && (js[k].pid == js[i].pid <==> forall j :: 0 <= j < i ==> !(js[j].pid == 0 && js[j].state == FG))
  {
    InitInv();
    RunKeepsInv(InitShell(), es);
    var s := After(InitShell(), es, false);
    var k := ForegroundSlot(s.jobs);
    if Foreground(s.jobs[k]) { ForegroundUnique(s.jobs, s.pc, i, k); }
  }

  // ---------------------------------------------------------------- waiting

  /** The shell waits for the foreground job in slot `i`. */
  predicate WaitingFor(s: Shell, pid: int, i: nat) {
    && SlotsInRange(s) && i < MAXJOBS && pid >= 1
    && (s.pc == WaitState(pid, i) || s.pc == WaitPid(pid, i))
    && s.jobs[i].pid == pid && s.jobs[i].state == FG
    && DistinctPids(s.jobs)
    && ChildElsewhere(s.child, i)
  }

  /** `sigchld_handler` is not about to change slot `i`. */
  predicate ChildElsewhere(c: ChildPc, i: nat) {
    match c
    case WriteStop(k) => k != i
    case ClearPid(k) => k != i
    case ClearJid(k) => k != i
    case ClearState(k) => k != i
    case ClearCmd(k) => k != i
    case _ => true
  }

  lemma WaitStep(s: Shell, e: Event, pid: int, i: nat)
    requires WaitingFor(s, pid, i) && Enabled(s, e, false)
    requires !(e.Reported? && e.pid == pid)
    ensures WaitingFor(Next(s, e), pid, i) || Next(s, e).pc == Exited
  {
    hide DistinctPids, AllWeakened;
    match e
    case Main(cmdline) => assert MainStep(s, cmdline).jobs == s.jobs;
    case Child =>
      assert ChildStep(s).jobs[i] == s.jobs[i];
      ChildWeakens(s);
      hide ChildStep;
      WeakDistinct(s.jobs, ChildStep(s).jobs);
    case _ =>
  }

  lemma WeakDistinct(js: seq<Job>, js': seq<Job>)
    requires DistinctPids(js) && AllWeakened(js, js')
    ensures DistinctPids(js')
  {
  }

  /** `waitfg` blocks until its job is reported: without a report of that very process no run,
      however long, leaves the wait loop but by leaving the shell. */
  lemma {:induction false} WaitsUntilReported(s: Shell, es: seq<Event>, pid: int, i: nat)
    requires WaitingFor(s, pid, i) && LegalRun(s, es, false)
    requires forall e :: e in es ==> !(e.Reported? && e.pid == pid)
    ensures WaitingFor(After(s, es, false), pid, i) || After(s, es, false).pc == Exited
    decreases |es|
  {
    if es != [] {
      WaitStep(s, es[0], pid, i);
      if Next(s, es[0]).pc == Exited {
        assert es[1..] == [];
      } else {
        WaitsUntilReported(Next(s, es[0]), es[1..], pid, i);
      }
    }
  }

  /** `sigchld_handler` is about to take slot `i` out of state FG. */
  predicate LeavesForeground(c: ChildPc, i: nat) {
    c == WriteStop(i) || c == ClearPid(i) || c == ClearJid(i) || c == ClearState(i)
  }

  /** The shell still waits for slot `i`, which has left state FG or is about to. */
  predicate WaitEnding(s: Shell, pid: int, i: nat) {
    && SlotsInRange(s) && i < MAXJOBS
    && (s.pc == WaitState(pid, i) || s.pc == WaitPid(pid, i))
    && (s.jobs[i].state != FG || LeavesForeground(s.child, i))
  }

  lemma ReportEndsWait(s: Shell, pid: int, i: nat, stopped: bool)
    requires WaitingFor(s, pid, i) && s.child == Quiet
    ensures WaitEnding(Next(s, Reported(pid, stopped)), pid, i)
  {
    SlotIs(s.jobs, pid, i);
  }

  lemma EndingChild(s: Shell, pid: int, i: nat)
    requires WaitEnding(s, pid, i)
    ensures WaitEnding(ChildStep(s), pid, i) && ChildStep(s).pc == s.pc
  {
  }

  /** No other step undoes it, and the main thread's next steps lead to the prompt. */
  lemma EndingStep(s: Shell, e: Event, pid: int, i: nat)
    requires WaitEnding(s, pid, i) && Enabled(s, e, false)
    ensures var t := Next(s, e);
            || (e == Exit && t.pc == Exited)
            || (if e.Main? then t.pc == Prompt || (s.pc.WaitPid? && t.pc.WaitState? && WaitEnding(t, pid, i))
                else t.pc == s.pc && WaitEnding(t, pid, i))
  {
    match e
    case Main(cmdline) => assert MainStep(s, cmdline).jobs == s.jobs;
    case Child => EndingChild(s, pid, i);
    case _ =>
  }

  /** How many steps the main thread takes. */
  function MainCount(es: seq<Event>): nat {
    if es == [] then 0 else (if es[0].Main? then 1 else 0) + MainCount(es[1..])
  }

  /** The run comes to the prompt at some point. */
  ghost predicate ComesToPrompt(s: Shell, es: seq<Event>)
    requires LegalRun(s, es, false)
    decreases |es|
  {
    s.pc == Prompt || (es != [] && ComesToPrompt(Next(s, es[0]), es[1..]))
  }

  lemma {:induction false} EndingComesToPrompt(s: Shell, es: seq<Event>, pid: int, i: nat)
    requires WaitEnding(s, pid, i) && LegalRun(s, es, false)
    requires MainCount(es) >= if s.pc.WaitState? then 1 else 2
    ensures ComesToPrompt(s, es)
    decreases |es|
  {
    hide WaitEnding, SlotsInRange, Next;
    var t := Next(s, es[0]);
    EndingStep(s, es[0], pid, i);
    if t.pc != Prompt && t.pc != Exited {
      EndingComesToPrompt(t, es[1..], pid, i);
    }
  }

  /** Once its job is reported, stopped or ended, `waitfg` returns: any run in which the main
      thread takes two more steps comes to the prompt. */
  lemma ReturnsOnceReported(s: Shell, es: seq<Event>, pid: int, i: nat, stopped: bool)
    requires WaitingFor(s, pid, i) && LegalRun(s, [Reported(pid, stopped)] + es, false) && MainCount(es) >= 2
    ensures LegalRun(Next(s, Reported(pid, stopped)), es, false)
    ensures ComesToPrompt(Next(s, Reported(pid, stopped)), es)
  {
    var es' := [Reported(pid, stopped)] + es;
    assert es'[0] == Reported(pid, stopped) && es'[1..] == es;
    ReportEndsWait(s, pid, i, stopped);
    EndingComesToPrompt(Next(s, Reported(pid, stopped)), es, pid, i);
  }

  /** A report that comes before `addjob` has found a slot has no effect, in any state of any run. */
  lemma EarlyReportLost(s: Shell, pid: int, stopped: bool)
    requires Inv(s) && (s.pc.Forked? || s.pc.Scan?) && s.pc.pid == pid
    ensures Next(s, Reported(pid, stopped)) == s
  {
  }

  /** One more event in front of a run. */
  lemma RunCons(s: Shell, e: Event, es: seq<Event>, reuse: bool)
    requires SlotsInRange(s) && Enabled(s, e, reuse) && LegalRun(Next(s, e), es, reuse)
    ensures LegalRun(s, [e] + es, reuse) && After(s, [e] + es, reuse) == After(Next(s, e), es, reuse)
  {
    assert ([e] + es)[0] == e && ([e] + es)[1..] == es;
  }

  function Mains(n: nat): seq<Event> {
    seq(n, _ => Main(""))
  }

  lemma MainCons(s: Shell, t: Shell, n: nat)
    requires SlotsInRange(s) && Enabled(s, Main(""), false) && n > 0
    requires t == MainStep(s, "") && LegalRun(t, Mains(n - 1), false)
    ensures LegalRun(s, Mains(n), false) && After(s, Mains(n), false) == After(t, Mains(n - 1), false)
  {
    hide LegalRun, After;
    assert Mains(n) == [Main("")] + Mains(n - 1);
    RunCons(s, Main(""), Mains(n - 1), false);
  }

  /** The events of a foreground command whose child ends before its job is recorded. */
  function EarlyEnd(pid: int): seq<Event> {
    [ForkJob(pid, false)] + ([Reported(pid, false)] + Mains(6))
  }

  /** So the shell hangs: the child's end has been reported, and the shell waits for it. By
      `WaitsUntilReported` it waits for ever, since a process ends only once. */
  lemma EarlyReportHangs(pid: int)
    requires pid >= 1
    ensures LegalRun(InitShell(), EarlyEnd(pid), false)
    ensures WaitingFor(After(InitShell(), EarlyEnd(pid), false), pid, 0)
    ensures Reported(pid, false) in EarlyEnd(pid)
  {
    var s0 := InitShell();
    var s1 := s0.(pc := Forked(pid, false));
    InitInv();
    StepKeepsInv(s0, ForkJob(pid, false));
    EarlyReportLost(s1, pid, false);
    EarlyMains(pid);
    hide LegalRun, After, EarlyEnd, Inv;
    EarlyEndRun(s0, s1, pid);
  }

  /** The two steps from a recorded foreground job in slot 0 to the wait loop. */
  lemma WaitMains(s: Shell, pid: int)
    requires SlotsInRange(s) && MainMayRun(s) && s.pc == Added(pid, false) && pid >= 1
    requires s.jobs[0].pid == pid && s.jobs[0].state == FG && DistinctPids(s.jobs)
    ensures LegalRun(s, Mains(2), false) && WaitingFor(After(s, Mains(2), false), pid, 0)
  {
    var t := s.(pc := WaitLookup(pid, 0));
    var u := s.(pc := WaitState(pid, 0));
    assert t == MainStep(s, "") && u == MainStep(t, "");
    assert LegalRun(u, Mains(0), false) && After(u, Mains(0), false) == u;
    hide LegalRun, After, Mains, MainStep;
    MainCons(t, u, 1);
    MainCons(s, t, 2);
  }

  /** The four steps before them. */
  lemma EarlyMains(pid: int)
    requires pid >= 1
    ensures var s1 := InitShell().(pc := Forked(pid, false));
            LegalRun(s1, Mains(6), false) && WaitingFor(After(s1, Mains(6), false), pid, 0)
  {
    var s0 := InitShell();
    var s1 := s0.(pc := Forked(pid, false));
    var a1 := s0.(pc := Scan(pid, false, 0));
    var a2 := s0.(pc := PutState(pid, false, 0), jobs := s0.jobs[0 := CLEARED.(pid := pid)]);
    var a3 := s0.(pc := PutJid(pid, false, 0), jobs := s0.jobs[0 := Job(pid, 0, FG, "")]);
    var a4 := s0.(pc := Added(pid, false), jobs := s0.jobs[0 := Job(pid, 1, FG, "")], nextjid := 2);
    assert a1 == MainStep(s1, "") && a2 == MainStep(a1, "");
    assert a3 == MainStep(a2, "") && a4 == MainStep(a3, "");
    hide LegalRun, After, Mains, MainStep, InitShell, WaitingFor;
    WaitMains(a4, pid);
    MainCons(a3, a4, 3);
    MainCons(a2, a3, 4);
    MainCons(a1, a2, 5);
    MainCons(s1, a1, 6);
  }

  lemma EarlyEndRun(s0: Shell, s1: Shell, pid: int)
    requires SlotsInRange(s0) && Enabled(s0, ForkJob(pid, false), false) && s1 == Next(s0, ForkJob(pid, false))
    requires s0.child == Quiet && Next(s1, Reported(pid, false)) == s1 && LegalRun(s1, Mains(6), false)
    ensures LegalRun(s0, EarlyEnd(pid), false)
    ensures After(s0, EarlyEnd(pid), false) == After(s1, Mains(6), false)
    ensures Reported(pid, false) in EarlyEnd(pid)
  {
    hide LegalRun, After, Mains;
    RunCons(s1, Reported(pid, false), Mains(6), false);
    RunCons(s0, ForkJob(pid, false), [Reported(pid, false)] + Mains(6), false);
    assert EarlyEnd(pid)[1] == Reported(pid, false);
  }

  // ---------------------------------------------------------------- what blocking SIGCHLD would buy

  /** The slot whose job the main thread is recording or continuing, or -1. */
  function HeldSlot(pc: Pc): int {
    match pc
    case PutState(_, _, i) => i
    case PutJid(_, _, i) => i
    case Continue(_, i) => i
    case SetState(_, i) => i
    case _ => -1
  }

  /** A child's end is reported while the main thread is recording or continuing its job. */
  predicate Races(s: Shell, e: Event)
    requires SlotsInRange(s)
  {
    e.Reported? && !e.stopped && HeldSlot(s.pc) >= 0 && s.jobs[HeldSlot(s.pc)].pid == e.pid
  }

  ghost predicate RaceFree(s: Shell, es: seq<Event>, reuse: bool)
    requires LegalRun(s, es, reuse)
    decreases |es|
  {
    es != [] ==> !Races(s, es[0]) && RaceFree(Next(s, es[0]), es[1..], reuse)
  }

  /** Slot `i` is being cleared, and its pid already is. */
  predicate Clearing(c: ChildPc, i: nat) {
    c == ClearJid(i) || c == ClearState(i)
  }

  /** A slot without a pid has no job id and is not in state FG, unless it is being cleared. */
  predicate TidySlot(s: Shell, i: nat)
    requires i < |s.jobs|
  {
    s.jobs[i].pid == 0 ==> && (s.jobs[i].jid == 0 || s.child == ClearJid(i))
                           && (s.jobs[i].state != FG || Clearing(s.child, i))
  }

  /** Every slot is tidy, and the slot the main thread holds keeps its job. */
  predicate Tidy(s: Shell) {
    && SlotsInRange(s)
    && (forall i :: 0 <= i < MAXJOBS ==> TidySlot(s, i))
    && (s.pc.Scan? ==> s.pc.pid >= 1)
    && var h := HeldSlot(s.pc);
       h >= 0 ==> s.jobs[h].pid != 0 && s.child != ClearPid(h) && !Clearing(s.child, h)
  }

  lemma TidyMain(s: Shell, cmdline: string)
    requires Tidy(s) && Enabled(s, Main(cmdline), true)
    ensures Tidy(MainStep(s, cmdline))
  {
    var t := MainStep(s, cmdline);
    assert t.child == Quiet;
    if s.pc.Lookup? && s.pc.i < MAXJOBS { assert TidySlot(s, s.pc.i); }
    forall i | 0 <= i < MAXJOBS ensures TidySlot(t, i) {
      assert TidySlot(s, i);
    }
  }

  lemma TidyChild(s: Shell)
    requires Tidy(s)
    ensures Tidy(ChildStep(s))
  {
    var t := ChildStep(s);
    forall i | 0 <= i < MAXJOBS ensures TidySlot(t, i) {
      assert TidySlot(s, i);
    }
  }

  lemma TidyStep(s: Shell, e: Event, reuse: bool)
    requires Tidy(s) && Enabled(s, e, reuse) && !Races(s, e)
    ensures Tidy(Next(s, e))
  {
    match e
    case Main(cmdline) => TidyMain(s, cmdline);
    case Child => TidyChild(s);
    case _ =>
      var t := Next(s, e);
      assert t.jobs == s.jobs;
      forall i | 0 <= i < MAXJOBS ensures TidySlot(t, i) {
        assert TidySlot(s, i);
      }
  }

  lemma {:induction false} RaceFreeTidy(s: Shell, es: seq<Event>, reuse: bool)
    requires Tidy(s) && LegalRun(s, es, reuse) && RaceFree(s, es, reuse)
    ensures Tidy(After(s, es, reuse))
    decreases |es|
  {
    if es != [] {
      TidyStep(s, es[0], reuse);
      RaceFreeTidy(Next(s, es[0]), es[1..], reuse);
    }
  }

  /** In every run in which no child's end is reported while its job is being recorded or
      continued, `fgpid` finds the foreground job whenever there is one, and only that. */
  lemma FgPidFindsForeground(es: seq<Event>)
    requires LegalRun(InitShell(), es, false) && RaceFree(InitShell(), es, false)
    requires var s := After(InitShell(), es, false); s.child == Quiet && s.pc != Exited
    ensures var js := After(InitShell(), es, false).jobs;
            var k := ForegroundSlot(js);
            && (k < |js| <==> exists i :: 0 <= i < |js| && Foreground(js[i]))
            && (forall i :: 0 <= i < |js| && Foreground(js[i]) ==> i == k)
  {
    InitInv();
    RunKeepsInv(InitShell(), es);
    RaceFreeTidy(InitShell(), es, false);
    var s := After(InitShell(), es, false);
    var k := ForegroundSlot(s.jobs);
    if k < |s.jobs| {
      assert TidySlot(s, k) && Foreground(s.jobs[k]);
      forall i | 0 <= i < |s.jobs| && Foreground(s.jobs[i]) ensures i == k {
        ForegroundUnique(s.jobs, s.pc, i, k);
      }
    }
  }

  // ---------------------------------------------------------------- the C routines, uninterrupted

  /** `n` steps of the main thread. */
  function MainSteps(s: Shell, cmdline: string, n: nat): Shell
    requires SlotsInRange(s)
    decreases n
  {
    if n == 0 then s else MainSteps(MainStep(s, cmdline), cmdline, n - 1)
  }

  /** `addjob` run without interruption does what the routine is proved to do. */
  lemma {:induction false} AddJobUninterrupted(s: Shell, pid: int, bg: bool, i: nat, cmdline: string)
    requires SlotsInRange(s) && s.pc == Scan(pid, bg, i) && pid >= 1
    requires i <= SlotOfPid(s.jobs, 0) < MAXJOBS
    ensures var t := MainSteps(s, cmdline, SlotOfPid(s.jobs, 0) - i + 3);
            && t.pc == Added(pid, bg)
            && Table(t.jobs, t.nextjid) == AddJob(Table(s.jobs, s.nextjid), pid, if bg then BG else FG, cmdline)
    decreases MAXJOBS - i
  {
    var k := SlotOfPid(s.jobs, 0);
    var t := MainStep(s, cmdline);
    if i < k {
      AddJobUninterrupted(t, pid, bg, i + 1, cmdline);
    } else {
      assert MainSteps(s, cmdline, 3) == MainSteps(t, cmdline, 2);
      assert MainSteps(t, cmdline, 2) == MainSteps(MainStep(t, cmdline), cmdline, 1);
      var u := MainStep(MainStep(t, cmdline), cmdline);
      assert MainSteps(MainStep(t, cmdline), cmdline, 1) == u;
      assert u.jobs == s.jobs[i := Job(pid, s.nextjid, if bg then BG else FG, cmdline)];
    }
  }

  /** Slot `k` is the first that holds the pid or the job id asked for. */
  predicate IsAskedFor(js: seq<Job>, arg: Arg, k: nat) {
    && k < |js| && arg.n >= 1
    && match arg
       case ByPid(n) => js[k].pid == n && forall m :: 0 <= m < k ==> js[m].pid != n
       case ByJid(n) => js[k].jid == n && forall m :: 0 <= m < k ==> js[m].jid != n
  }

  lemma {:induction false} LookupFinds(s: Shell, fg: bool, arg: Arg, i: nat, k: nat)
    requires SlotsInRange(s) && s.pc == Lookup(fg, arg, i) && i <= k && IsAskedFor(s.jobs, arg, k)
    ensures MainSteps(s, "", k - i + 1) == s.(pc := Continue(fg, k))
    decreases k - i
  {
    if i < k {
      LookupFinds(MainStep(s, ""), fg, arg, i + 1, k);
    } else {
      assert MainSteps(MainStep(s, ""), "", 0) == MainStep(s, "");
    }
  }

  /** What they do with the job they have found. */
  lemma ContinueSteps(s: Shell, fg: bool, k: nat)
    requires SlotsInRange(s) && s.pc == Continue(fg, k)
    ensures var js := s.jobs[k := s.jobs[k].(state := if fg then FG else BG)];
            if fg then MainSteps(s, "", 3) == s.(jobs := js, pc := WaitLookup(s.jobs[k].pid, 0))
            else MainSteps(s, "", 2) == s.(jobs := js, pc := Prompt)
  {
    var js := s.jobs[k := s.jobs[k].(state := if fg then FG else BG)];
    var u, v := MainStep(s, ""), s.(jobs := js, pc := if fg then WaitArg(k) else Prompt);
    assert v == MainStep(u, "");
    OneStep(u);
    if fg {
      OneStep(v);
      assert MainSteps(u, "", 2) == MainSteps(v, "", 1);
    }
  }

  /** `bg` and `fg` run without interruption: they find the first slot with that pid or job id,
      and change nothing but its state, to BG or FG. `bg` is then done, and `fg` waits for the
      pid in that slot. */
  lemma BgFgUninterrupted(s: Shell, fg: bool, arg: Arg, k: nat)
    requires SlotsInRange(s) && s.pc == Lookup(fg, arg, 0) && IsAskedFor(s.jobs, arg, k)
    ensures var js := s.jobs[k := s.jobs[k].(state := if fg then FG else BG)];
            if fg then MainSteps(s, "", k + 4) == s.(jobs := js, pc := WaitLookup(s.jobs[k].pid, 0))
            else MainSteps(s, "", k + 3) == s.(jobs := js, pc := Prompt)
  {
    LookupFinds(s, fg, arg, 0, k);
    var t := s.(pc := Continue(fg, k));
    hide MainSteps, IsAskedFor;
    MoreSteps(s, k + 1, t, if fg then 3 else 2);
    ContinueSteps(t, fg, k);
  }

  lemma OneStep(s: Shell)
    requires SlotsInRange(s)
    ensures SlotsInRange(MainStep(s, "")) && MainSteps(s, "", 1) == MainStep(s, "")
  {
    MainStepKeepsRest(s);
    assert MainSteps(MainStep(s, ""), "", 0) == MainStep(s, "");
  }

  lemma {:induction false} MoreSteps(s: Shell, m: nat, t: Shell, n: nat)
    requires SlotsInRange(s) && SlotsInRange(t) && MainSteps(s, "", m) == t
    ensures MainSteps(s, "", m + n) == MainSteps(t, "", n)
    decreases m
  {
    MainStepKeepsRest(s);
    hide MainStep;
    if m > 0 { MoreSteps(MainStep(s, ""), m - 1, t, n); }
  }

  /** When no slot is asked for, they come back to the prompt with nothing changed. */
  lemma {:induction false} BgFgFindsNone(s: Shell, fg: bool, arg: Arg, i: nat)
    requires SlotsInRange(s) && s.pc == Lookup(fg, arg, i)
    requires arg.n < 1 || forall m :: i <= m < MAXJOBS ==> (if arg.ByPid? then s.jobs[m].pid else s.jobs[m].jid) != arg.n
    ensures exists n :: 1 <= n <= 17 - i && MainSteps(s, "", n) == s.(pc := Prompt)
    decreases MAXJOBS - i
  {
    var t := MainStep(s, "");
    if arg.n < 1 || i == MAXJOBS {
      OneStep(s);
    } else {
      BgFgFindsNone(t, fg, arg, i + 1);
      var n :| 1 <= n <= 17 - (i + 1) && MainSteps(t, "", n) == t.(pc := Prompt);
      assert MainSteps(s, "", n + 1) == MainSteps(t, "", n);
    }
  }

  /** Reporting a child's end and running the handler to completion is `deletejob`. */
  lemma DeleteJobUninterrupted(s: Shell, pid: int)
    requires SlotsInRange(s) && s.child == Quiet && pid >= 1 && SlotOfPid(s.jobs, pid) < MAXJOBS
    ensures var t := ChildStep(ChildStep(ChildStep(ChildStep(ChildStep(Report(s, pid, false))))));
            && t.child == Quiet && t.pc == s.pc
            && Table(t.jobs, t.nextjid) == DeleteJob(Table(s.jobs, s.nextjid), pid)
  {
    var i := SlotOfPid(s.jobs, pid);
    var t := ChildStep(ChildStep(ChildStep(ChildStep(Report(s, pid, false)))));
    assert t.jobs == s.jobs[i := CLEARED];
  }

  /** Reporting a stop marks the job stopped, and changes nothing else. */
  lemma StopUninterrupted(s: Shell, pid: int, i: nat)
    requires SlotsInRange(s) && s.child == Quiet && pid >= 1
    requires i < |s.jobs| && s.jobs[i].pid == pid && forall m :: 0 <= m < i ==> s.jobs[m].pid != pid
    ensures ChildStep(Report(s, pid, true)) == s.(jobs := s.jobs[i := s.jobs[i].(state := ST)])
  {
    SlotIs(s.jobs, pid, i);
  }

  /** `n` steps of a keyboard handler. */
  function KeySteps(js: seq<Job>, k: KeyPc, n: nat): KeyPc
    requires KeyInRange(js, k)
    decreases n
  {
    if n == 0 then k else KeySteps(js, KeyStep(js, k), n - 1)
  }

  /** A keyboard handler run without interruption reads what `fgpid` returns, and signals that
      group or nobody. */
  lemma {:induction false} FgPidUninterrupted(js: seq<Job>, i: nat)
    requires i <= ForegroundSlot(js)
    ensures var k := ForegroundSlot(js);
            if k == |js| then KeySteps(js, FindFg(i), k - i + 1) == Idle
            else KeySteps(js, FindFg(i), k - i + 2) == if js[k].pid > 0 then Send(js[k].pid) else Idle
    decreases |js| - i
  {
    var k := ForegroundSlot(js);
    if i < k {
      FgPidUninterrupted(js, i + 1);
    } else if k < |js| {
      assert KeySteps(js, FindFg(i), 2) == KeySteps(js, ReadPid(i), 1);
      assert KeySteps(js, ReadPid(i), 1) == KeyStep(js, ReadPid(i));
    } else {
      assert KeySteps(js, FindFg(i), 1) == KeyStep(js, FindFg(i));
    }
  }

  // ---------------------------------------------------------------- what the invariant needs

  /** Some run leads from `s` to `t`. */
  ghost predicate Reaches(s: Shell, t: Shell, reuse: bool) {
    exists es :: LegalRun(s, es, reuse) && After(s, es, reuse) == t
  }

  lemma ReachSelf(s: Shell, reuse: bool)
    requires SlotsInRange(s)
    ensures Reaches(s, s, reuse)
  {
    assert LegalRun(s, [], reuse) && After(s, [], reuse) == s;
  }

  lemma ReachStep(s: Shell, e: Event, t: Shell, reuse: bool)
    requires SlotsInRange(s) && Enabled(s, e, reuse) && Reaches(Next(s, e), t, reuse)
    ensures Reaches(s, t, reuse)
  {
    var es :| LegalRun(Next(s, e), es, reuse) && After(Next(s, e), es, reuse) == t;
    var es' := [e] + es;
    assert es'[0] == e && es'[1..] == es;
    assert LegalRun(s, es', reuse) && After(s, es', reuse) == t;
  }

  lemma {:induction false} ReachByMain(s: Shell, n: nat, t: Shell, reuse: bool)
    requires SlotsInRange(s) && MainMayRun(s) && MainSteps(s, "", n).pc != Exited
    requires Reaches(MainSteps(s, "", n), t, reuse)
    ensures Reaches(s, t, reuse)
    decreases n
  {
    hide LegalRun, After, Reaches;
    MainStepKeepsRest(s);
    hide MainStep;
    if n > 0 {
      if s.pc == Exited { ExitedStays(s, n); }
      ReachByMain(MainStep(s, ""), n - 1, t, reuse);
      ReachStep(s, Main(""), t, reuse);
    }
  }

  lemma {:induction false} ExitedStays(s: Shell, n: nat)
    requires SlotsInRange(s) && s.pc == Exited
    ensures MainSteps(s, "", n) == s
    decreases n
  {
    if n > 0 { ExitedStays(s, n - 1); }
  }

  /** The job list with these two jobs in its first slots, waiting at the prompt. */
  function TwoJobs(j0: Job, j1: Job, nextjid: int): Shell {
    Shell([j0, j1] + seq(MAXJOBS - 2, _ => CLEARED), nextjid, Prompt, Quiet, Idle, Idle)
  }

  /** Recording background job `pid` from the prompt; when `early`, its end is reported before
      it is recorded, and so the record stays. */
  lemma ReachBackground(s: Shell, pid: int, early: bool, t: Shell, reuse: bool)
    requires SlotsInRange(s) && MainMayRun(s) && s.pc == Prompt && FreshPid(s.jobs, pid)
    requires SlotOfPid(s.jobs, 0) < MAXJOBS
    requires var u := AddJob(Table(s.jobs, s.nextjid), pid, BG, "");
             Reaches(s.(jobs := u.jobs, nextjid := u.nextjid), t, reuse)
    ensures Reaches(s, t, reuse)
  {
    var k := SlotOfPid(s.jobs, 0);
    var u := AddJob(Table(s.jobs, s.nextjid), pid, BG, "");
    var end := s.(jobs := u.jobs, nextjid := u.nextjid);
    var added := end.(pc := Added(pid, true));
    var scan := s.(pc := Scan(pid, true, 0));
    ReachStep(added, Main(""), t, reuse);
    AddJobUninterrupted(scan, pid, true, 0, "");
    assert MainSteps(scan, "", k + 3) == added by { MainKeepsRest(scan, k + 3); }
    ReachByMain(scan, k + 3, t, reuse);
    var forked := s.(pc := Forked(pid, true));
    ReachStep(forked, Main(""), t, reuse);
    if early {
      assert Report(forked, pid, false) == forked;
      ReachStep(forked, Reported(pid, false), t, reuse);
    }
    ReachStep(s, ForkJob(pid, true), t, reuse);
  }

  lemma MainStepKeepsRest(s: Shell)
    requires SlotsInRange(s)
    ensures var t := MainStep(s, "");
            SlotsInRange(t) && t.child == s.child && t.sigint == s.sigint && t.sigtstp == s.sigtstp
  {
  }

  lemma {:induction false} MainKeepsRest(s: Shell, n: nat)
    requires SlotsInRange(s)
    ensures var t := MainSteps(s, "", n);
            t.child == s.child && t.sigint == s.sigint && t.sigtstp == s.sigtstp
    decreases n
  {
    MainStepKeepsRest(s);
    hide MainStep;
    if n > 0 { MainKeepsRest(MainStep(s, ""), n - 1); }
  }

  /** The assumption on `fork` is needed. Background child 5 ends before `addjob` records it;
      its record stays, and a foreground child that gets the same pid is waited for in the
      wrong slot: the prompt comes back while its job is in the foreground. */
  lemma ReusedPidBreaksPrompt()
    ensures exists t :: Reaches(InitShell(), t, true) && t.pc == Prompt && |t.jobs| == MAXJOBS && Foreground(t.jobs[1])
  {
    hide Reaches;
    var s0 := InitShell();
    var s1 := TwoJobs(Job(5, 1, BG, ""), CLEARED, 2);
    var t := TwoJobs(Job(5, 1, BG, ""), Job(5, 2, FG, ""), 3);
    ReachSelf(t, true);
    ReachStep(t.(pc := WaitState(5, 0)), Main(""), t, true);
    ReachStep(t.(pc := WaitLookup(5, 0)), Main(""), t, true);
    ReachStep(t.(pc := Added(5, false)), Main(""), t, true);
    var scan := s1.(pc := Scan(5, false, 0));
    SlotIs(s1.jobs, 0, 1);
    AddJobUninterrupted(scan, 5, false, 0, "");
    assert s1.jobs[1 := Job(5, 2, FG, "")] == t.jobs;
    MainKeepsRest(scan, 4);
    ReachByMain(scan, 4, t, true);
    ReachStep(s1.(pc := Forked(5, false)), Main(""), t, true);
    ReachStep(s1, ForkJob(5, false), t, true);
    SlotIs(s0.jobs, 0, 0);
    assert s0.jobs[0 := Job(5, 1, BG, "")] == s1.jobs;
    ReachBackground(s0, 5, true, t, true);
  }

  /** A child's end is reported and its job deleted, wherever the main thread is. */
  lemma ReachDelete(s: Shell, pid: int, t: Shell, reuse: bool)
    requires SlotsInRange(s) && s.pc != Exited && s.child == Quiet && pid >= 1 && SlotOfPid(s.jobs, pid) < MAXJOBS
    requires var u := DeleteJob(Table(s.jobs, s.nextjid), pid);
             Reaches(s.(jobs := u.jobs, nextjid := u.nextjid), t, reuse)
    ensures Reaches(s, t, reuse)
  {
    var s1 := Report(s, pid, false);
    var s2 := ChildStep(s1);
    var s3 := ChildStep(s2);
    var s4 := ChildStep(s3);
    var s5 := ChildStep(s4);
    DeleteJobUninterrupted(s, pid);
    assert ChildStep(s5) == s.(jobs := ChildStep(s5).jobs, nextjid := ChildStep(s5).nextjid);
    hide Reaches, LegalRun;
    ReachStep(s5, Child, t, reuse);
    ReachStep(s4, Child, t, reuse);
    ReachStep(s3, Child, t, reuse);
    ReachStep(s2, Child, t, reuse);
    ReachStep(s1, Child, t, reuse);
    ReachStep(s, Reported(pid, false), t, reuse);
  }

  lemma SlotIs(js: seq<Job>, pid: int, i: nat)
    requires i < |js| && js[i].pid == pid && forall m :: 0 <= m < i ==> js[m].pid != pid
    ensures SlotOfPid(js, pid) == i
  {
  }

  /** `fg` marks the slot it holds, although the slot has been cleared. */
  lemma LeftoverMark(t: Shell)
    requires Reaches(TwoJobs(Job(0, 0, FG, ""), Job(6, 2, BG, ""), 3), t, false)
    ensures Reaches(TwoJobs(CLEARED, Job(6, 2, BG, ""), 3).(pc := Continue(true, 0)), t, false)
  {
    hide Reaches;
    var b := TwoJobs(CLEARED, Job(6, 2, BG, ""), 3);
    var c := TwoJobs(Job(0, 0, FG, ""), Job(6, 2, BG, ""), 3);
    ReachStep(c.(pc := WaitLookup(0, 0)), Main(""), t, false);
    ReachStep(c.(pc := WaitArg(0)), Main(""), t, false);
    assert b.jobs[0 := Job(0, 0, FG, "")] == c.jobs;
    ReachStep(b.(pc := SetState(true, 0)), Main(""), t, false);
    ReachStep(b.(pc := Continue(true, 0)), Main(""), t, false);
  }

  /** The first job ends while `fg` holds a pointer to it: its cleared slot is marked FG. */
  lemma LeftoverSlot(t: Shell)
    requires Reaches(TwoJobs(Job(0, 0, FG, ""), Job(6, 2, BG, ""), 3), t, false)
    ensures Reaches(TwoJobs(Job(5, 1, BG, ""), Job(6, 2, BG, ""), 3), t, false)
  {
    hide Reaches;
    LeftoverMark(t);
    var a := TwoJobs(Job(5, 1, BG, ""), Job(6, 2, BG, ""), 3);
    var b := TwoJobs(CLEARED, Job(6, 2, BG, ""), 3);
    SlotIs(a.jobs, 5, 0);
    assert a.jobs[0 := CLEARED] == b.jobs;
    assert MaxJid(b.jobs) == 2 by { MaxJidIsLargest(b.jobs); assert b.jobs[1].jid == 2; }
    ReachDelete(a.(pc := Continue(true, 0)), 5, t, false);
    ReachStep(a.(pc := Lookup(true, ByPid(5), 0)), Main(""), t, false);
    ReachStep(a, BgFg(true, ByPid(5)), t, false);
  }

  /** So a run with fresh pids only can reach a state with a foreground job that `fgpid` does
      not find: a ctrl-c then reaches nobody. */
  lemma LeftoverHidesForeground()
    ensures exists t :: Reaches(InitShell(), t, false) && |t.jobs| == MAXJOBS && Foreground(t.jobs[1])
                     && ForegroundSlot(t.jobs) == 0 && t.jobs[0].pid == 0
  {
    hide Reaches;
    var s0, s1 := InitShell(), TwoJobs(Job(5, 1, BG, ""), CLEARED, 2);
    var s2 := TwoJobs(Job(5, 1, BG, ""), Job(6, 2, BG, ""), 3);
    var t := TwoJobs(Job(0, 0, FG, ""), Job(6, 2, FG, ""), 3).(pc := WaitArg(1));
    ReachSelf(t, false);
    FgSecond(t);
    LeftoverSlot(t);
    SlotIs(s1.jobs, 0, 1);
    assert s1.jobs[1 := Job(6, 2, BG, "")] == s2.jobs;
    ReachBackground(s1, 6, false, t, false);
    SlotIs(s0.jobs, 0, 0);
    assert s0.jobs[0 := Job(5, 1, BG, "")] == s1.jobs;
    ReachBackground(s0, 5, false, t, false);
  }

  lemma FgSecond(t: Shell)
    requires t == TwoJobs(Job(0, 0, FG, ""), Job(6, 2, FG, ""), 3).(pc := WaitArg(1))
    requires Reaches(t, t, false)
    ensures Reaches(TwoJobs(Job(0, 0, FG, ""), Job(6, 2, BG, ""), 3), t, false)
  {
    hide Reaches;
    var c := TwoJobs(Job(0, 0, FG, ""), Job(6, 2, BG, ""), 3);
    assert c.jobs[1 := Job(6, 2, FG, "")] == t.jobs;
    ReachStep(c.(pc := SetState(true, 1)), Main(""), t, false);
    ReachStep(c.(pc := Continue(true, 1)), Main(""), t, false);
    ReachStep(c.(pc := Lookup(true, ByPid(6), 1)), Main(""), t, false);
    ReachStep(c.(pc := Lookup(true, ByPid(6), 0)), Main(""), t, false);
    ReachStep(c, BgFg(true, ByPid(6)), t, false);
  }
}
