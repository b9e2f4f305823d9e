/** When only shells call `execute`, every terminal is a call stack and the mapped frame is the
    frame of the process on display. */
module CallStacks {
  import opened Processes
  import opened ProcessLaws

  /** Each process was started by the one below it, the base shell by itself; everything below
      the top is a shell; `last_shell` is the topmost shell. */
  ghost predicate IsCallStack(stack: seq<int>, last: int, parent: seq<int>, shell: seq<bool>) {
    && |parent| == |shell| == PIDS
    && (forall k :: 0 <= k < |stack| ==> 0 <= stack[k] < PIDS)
    && (forall k :: 0 < k < |stack| ==> parent[stack[k]] == stack[k - 1])
    && (forall k :: 0 <= k < |stack| - 1 ==> shell[stack[k]])
    && (stack != [] ==>
         && parent[stack[0]] == stack[0]
         && shell[stack[0]]
         && last == if shell[stack[|stack| - 1]] then stack[|stack| - 1] else stack[|stack| - 2])
  }

  ghost predicate Calls(s: State)
    requires Inv(s)
  {
    forall t :: 0 <= t < TERMINALS ==> IsCallStack(Stack(s, t), s.lastShell[t], s.parent, s.shell)
  }

  ghost predicate Good(s: State) {
    && Inv(s)
    && Calls(s)
    && (Depth(s, s.cur) > 0 ==> s.page == Top(s, s.cur) && s.esp0 == KernelStack(Top(s, s.cur)))
  }

  /** Only shells call `execute`; an empty terminal is only ever given a shell; and there is an
      executable file named shell. */
  ghost predicate ShellCalls(s: State, step: Step)
    requires Inv(s)
  {
    match step
    case ExecuteStep(req) =>
      if Depth(s, s.cur) == 0 then req != Loads(false) else s.shell[Top(s, s.cur)]
    case HaltStep(shellReq) => shellReq == Loads(true)
    case SwitchStep(_, _, shellReq) => shellReq == Loads(true)
  }

  lemma PushCall(stack: seq<int>, last: int, parent: seq<int>, shell: seq<bool>, pid: nat, isShell: bool)
    requires IsCallStack(stack, last, parent, shell)
    requires pid < PIDS && pid !in stack
    requires if stack == [] then isShell else shell[stack[|stack| - 1]]
    ensures var up := if stack == [] then pid else last;
      IsCallStack(stack + [pid], if isShell then pid else last, parent[pid := up], shell[pid := isShell])
  {
    assert forall k :: 0 <= k < |stack| ==> stack[k] in stack;
  }

  lemma OtherCall(stack: seq<int>, last: int, parent: seq<int>, shell: seq<bool>, pid: nat, up: int, isShell: bool)
    requires IsCallStack(stack, last, parent, shell)
    requires pid < PIDS && pid !in stack
    ensures IsCallStack(stack, last, parent[pid := up], shell[pid := isShell])
  {
    assert forall k :: 0 <= k < |stack| ==> stack[k] in stack;
  }

  lemma PopCall(stack: seq<int>, last: int, parent: seq<int>, shell: seq<bool>)
    requires IsCallStack(stack, last, parent, shell) && |stack| > 0
    requires forall i, j :: 0 <= i < j < |stack| ==> stack[i] != stack[j]
    ensures var n := |stack| - 1;
      IsCallStack(stack[..n], if last == stack[n] then parent[stack[n]] else last, parent, shell)
  {
  }

  lemma IdleIsElsewhere(s: State, t: nat)
    requires Inv(s) && t < TERMINALS
    ensures LowestIdle(s.active, 0) !in Stack(s, t)
    ensures forall i, j :: 0 <= i < j < |Stack(s, t)| ==> Stack(s, t)[i] != Stack(s, t)[j]
  {
    assert SlotsOk(s.terminals[t], s.active);
  }

  /** What `Linked` does to the links. */
  lemma LinkedLinks(s: State, pid: nat, isShell: bool)
    requires Inv(s) && pid < PIDS && Depth(s, s.cur) < SLOTS
    ensures var s' := Linked(s.(active := s.active[pid := true]), pid, isShell);
      var up := if Depth(s, s.cur) == 0 then pid else s.lastShell[s.cur];
      && s'.parent == s.parent[pid := up] && s'.shell == s.shell[pid := isShell]
      && s'.page == pid && s'.esp0 == KernelStack(pid)
      && (Depth(s, s.cur) > 0 || isShell ==>
           s'.lastShell == if isShell then s.lastShell[s.cur := pid] else s.lastShell)
  {
    FreeSlotIsDepth(s, s.cur);
    assert SlotsOk(s.terminals[s.cur], s.active);
  }

  /** What a started program finds in the links: its parent is the topmost shell. */
  lemma StartedLinks(s: State, req: Request)
    requires Inv(s) && Starts(s, req)
    requires Depth(s, s.cur) > 0 || req.isShell
    ensures var s', pid := ExecuteSpec(s, req).state, LowestIdle(s.active, 0);
      && s'.parent == s.parent[pid := if Depth(s, s.cur) == 0 then pid else s.lastShell[s.cur]]
      && s'.shell == s.shell[pid := req.isShell]
      && s'.page == pid && s'.esp0 == KernelStack(pid)
      && s'.lastShell == if req.isShell then s.lastShell[s.cur := pid] else s.lastShell
  {
    FreeSlotIsDepth(s, s.cur);
    LinkedLinks(s, LowestIdle(s.active, 0), req.isShell);
    hide Linked;
  }

  lemma InvIsShape(s: State)
    requires Inv(s)
    ensures Shape(s)
  {
  }

  lemma StartKeepsCalls(s: State, req: Request)
    requires Inv(s) && Calls(s) && Starts(s, req)
    requires if Depth(s, s.cur) == 0 then req.isShell else s.shell[Top(s, s.cur)]
    ensures Good(ExecuteSpec(s, req).state)
  {
    hide ExecuteSpec;
    hide IsCallStack;
    hide Inv;
    InvIsShape(s);
    ExecutePushes(s, req);
    StartedLinks(s, req);
    var s' := ExecuteSpec(s, req).state;
    forall t | 0 <= t < TERMINALS ensures IsCallStack(Stack(s', t), s'.lastShell[t], s'.parent, s'.shell) {
      StartedCall(s, req, t);
    }
  }

  lemma StartedCall(s: State, req: Request, t: nat)
    requires Inv(s) && Calls(s) && Starts(s, req) && t < TERMINALS
    requires if Depth(s, s.cur) == 0 then req.isShell else s.shell[Top(s, s.cur)]
    ensures var s' := ExecuteSpec(s, req).state;
      Inv(s') && IsCallStack(Stack(s', t), s'.lastShell[t], s'.parent, s'.shell)
  {
    hide ExecuteSpec;
    hide IsCallStack;
    hide Inv;
    InvIsShape(s);
    ExecutePushes(s, req);
    StartedLinks(s, req);
    IdleIsElsewhere(s, t);
    var s', pid := ExecuteSpec(s, req).state, LowestIdle(s.active, 0);
    if t == s.cur {
      PushCall(Stack(s, t), s.lastShell[t], s.parent, s.shell, pid, req.isShell);
    } else {
      OtherCall(Stack(s, t), s.lastShell[t], s.parent, s.shell, pid, s'.parent[pid], req.isShell);
    }
  }

  lemma UnlinkedCalls(s: State)
    requires Good(s) && Depth(s, s.cur) > 0
    ensures SlotOf(s.terminals[s.cur].processes, Top(s, s.cur), 0) < SLOTS
    ensures var s' := Unlinked(s, Top(s, s.cur));
      && Inv(s') && s'.parent == s.parent
      && Calls(s')
  {
    UnlinkKeepsInv(s);
    var s' := Unlinked(s, Top(s, s.cur));
    forall t | 0 <= t < TERMINALS ensures IsCallStack(Stack(s', t), s'.lastShell[t], s'.parent, s'.shell) {
      if t == s.cur {
        IdleIsElsewhere(s, t);
        PopCall(Stack(s, t), s.lastShell[t], s.parent, s.shell);
      }
    }
  }

  /** `halt` resumes the process below on the stack: the one whose `execute` is the most recent
      unfinished call. Halting the base shell leaves a fresh base shell in its place. */
  lemma HaltResumesCaller(s: State)
    requires Good(s) && Depth(s, s.cur) > 0
    ensures Running(s)
    ensures var o, n := HaltSpec(s, Loads(true)), Depth(s, s.cur) - 1;
      && Good(o.state)
      && (n > 0 ==> o.pid == Stack(s, s.cur)[n - 1] && Stack(o.state, s.cur) == Stack(s, s.cur)[..n])
      && (n == 0 ==> 0 <= o.pid < PIDS && Stack(o.state, s.cur) == [o.pid] && o.state.shell[o.pid] && o.state.parent[o.pid] == o.pid)
  {
    TopIsRunning(s);
    HaltPops(s, Loads(true));
    UnlinkedCalls(s);
    UnlinkKeepsInv(s);
    var top := Top(s, s.cur);
    var freed := Unlinked(s, top);
    if Depth(s, s.cur) == 1 {
      assert SlotsOk(s.terminals[s.cur], s.active);
      assert !freed.active[top] && LowestIdle(freed.active, 0) <= top;
      StartKeepsCalls(freed, Loads(true));
      ExecutePushes(freed, Loads(true));
    } else {
      var resumed := freed.(page := s.parent[top], esp0 := KernelStack(s.parent[top]));
      SameTable(freed, resumed);
    }
  }

  lemma SwitchKeepsCalls(s: State, tid: nat, stray: int)
    requires Good(s) && tid < TERMINALS
    ensures Good(SwitchSpec(s, tid, stray, Loads(true)).state)
  {
    SwitchShows(s, tid, stray, Loads(true));
    FreeSlotIsDepth(s, tid);
    assert SlotsOk(s.terminals[tid], s.active);
    var term := s.terminals[tid];
    var top := TopSlot(term.processes);
    var pid := if top >= 0 then term.processes[top] else stray;
    var shown := s.(cur := tid, page := pid, esp0 := KernelStack(pid));
    SameTable(s, shown);
    if term.firstRun {
      if Starts(shown, Loads(true)) {
        StartKeepsCalls(shown, Loads(true));
      } else {
        ExecutePushes(shown, Loads(true));
      }
    }
  }

  lemma StepKeepsCalls(s: State, step: Step)
    requires Good(s) && Enabled(s, step) && ShellCalls(s, step)
    ensures Good(Apply(s, step))
  {
    match step
    case ExecuteStep(req) =>
      ExecutePushes(s, req);
      if Starts(s, req) {
        StartKeepsCalls(s, req);
      } else if Loses(s, req) {
        ActivateKeepsInv(s, LowestIdle(s.active, 0));
      }
    case HaltStep(shellReq) => HaltResumesCaller(s);
    case SwitchStep(tid, stray, shellReq) => SwitchKeepsCalls(s, tid, stray);
  }

  ghost predicate ShellRuns(s: State, steps: seq<Step>)
    requires Inv(s)
    decreases |steps|
  {
    steps == [] ||
    (Enabled(s, steps[0]) && ShellCalls(s, steps[0]) && (StepKeepsInv(s, steps[0]); ShellRuns(Apply(s, steps[0]), steps[1..])))
  }

  /** Every run in which only shells call `execute` keeps the call stacks. */
  lemma {:induction false} RunKeepsCalls(s: State, steps: seq<Step>)
    requires Good(s) && ShellRuns(s, steps)
    ensures Runs(s, steps) && Good(Run(s, steps))
    decreases |steps|
  {
    hide Good;
    hide Inv;
    hide Apply;
    hide ShellCalls;
    hide Enabled;
    assert Inv(s) by { GoodIsInv(s); }
    if steps != [] {
      StepKeepsInv(s, steps[0]);
      StepKeepsCalls(s, steps[0]);
      RunKeepsCalls(Apply(s, steps[0]), steps[1..]);
    }
  }

  lemma GoodIsInv(s: State)
    requires Good(s)
    ensures Inv(s)
  {
  }

  // ----- the history of a call

  /** The state in which a shell's call of `execute` leaves the table. */
  ghost function Begun(s: State, req: Request): (s': State)
    requires Good(s) && Starts(s, req) && ShellCalls(s, ExecuteStep(req))
    ensures Good(s')
  {
    StepKeepsCalls(s, ExecuteStep(req));
    ExecuteSpec(s, req).state
  }

  ghost function Reached(s: State, steps: seq<Step>): (s': State)
    requires Good(s) && ShellRuns(s, steps)
    ensures Good(s')
  {
    RunKeepsCalls(s, steps);
    Run(s, steps)
  }

  /** Terminal `t` holds at least `d` processes all through the run. */
  ghost predicate NeverBelow(s: State, steps: seq<Step>, t: nat, d: nat)
    requires Inv(s) && t < TERMINALS
    decreases |steps|
  {
    Depth(s, t) >= d &&
    (steps != [] ==> Enabled(s, steps[0]) && (StepKeepsInv(s, steps[0]); NeverBelow(Apply(s, steps[0]), steps[1..], t, d)))
  }

  lemma StepKeepsBelow(s: State, step: Step, t: nat, d: nat)
    requires Inv(s) && Enabled(s, step) && t < TERMINALS && 2 <= d <= Depth(s, t)
    ensures Inv(Apply(s, step))
    ensures Depth(Apply(s, step), t) >= d ==> Stack(Apply(s, step), t)[..d] == Stack(s, t)[..d]
  {
    hide ExecuteSpec;
    hide HaltSpec;
    hide SwitchSpec;
    match step
    case ExecuteStep(req) => ExecutePushes(s, req);
    case HaltStep(shellReq) => HaltPops(s, shellReq);
    case SwitchStep(tid, stray, shellReq) =>
      SwitchShows(s, tid, stray, shellReq);
      assert SlotsOk(s.terminals[tid], s.active);
  }

  /** While a terminal never falls below level `d`, its processes up to there stay the same ones. */
  lemma {:induction false} RunKeepsBelow(s: State, steps: seq<Step>, t: nat, d: nat)
    requires Inv(s) && t < TERMINALS && d >= 2 && NeverBelow(s, steps, t, d)
    ensures Runs(s, steps)
    ensures Depth(Run(s, steps), t) >= d && Stack(Run(s, steps), t)[..d] == Stack(s, t)[..d]
    decreases |steps|
  {
    hide Inv;
    hide Apply;
    hide Enabled;
    hide Stack;
    if steps != [] {
      StepKeepsInv(s, steps[0]);
      RunKeepsBelow(Apply(s, steps[0]), steps[1..], t, d);
      StepKeepsBelow(s, steps[0], t, d);
    }
  }

  lemma CallerBelow(now: seq<int>, below: seq<int>, pid: int)
    requires below != [] && |now| == |below| + 1 && now[..|below| + 1] == (below + [pid])[..|below| + 1]
    ensures now[..|below|] == below && now[|below| - 1] == below[|below| - 1]
  {
    assert now[..|below| + 1] == now && (below + [pid])[..|below| + 1] == below + [pid];
  }

  /** A program that was started returns to its caller, whatever ran in between: if its terminal
      never fell below the program's own level, and is at that level and on display now, then
      `halt` resumes the caller and leaves the caller's stack. */
  lemma CallReturns(s: State, req: Request, steps: seq<Step>)
    requires Good(s) && Depth(s, s.cur) > 0 && Starts(s, req) && ShellCalls(s, ExecuteStep(req))
    requires ShellRuns(Begun(s, req), steps)
    requires NeverBelow(Begun(s, req), steps, s.cur, Depth(s, s.cur) + 1)
    requires var now := Reached(Begun(s, req), steps); now.cur == s.cur && Depth(now, s.cur) == Depth(s, s.cur) + 1
    ensures var now := Reached(Begun(s, req), steps);
      && Running(now) && HaltSpec(now, Loads(true)).pid == Top(s, s.cur)
      && Good(HaltSpec(now, Loads(true)).state)
      && Stack(HaltSpec(now, Loads(true)).state, s.cur) == Stack(s, s.cur)
  {
    hide Good;
    hide ExecuteSpec;
    hide HaltSpec;
    GoodIsInv(s);
    var begun, now := Begun(s, req), Reached(Begun(s, req), steps);
    GoodIsInv(begun);
    GoodIsInv(now);
    ExecutePushes(s, req);
    RunKeepsBelow(begun, steps, s.cur, Depth(s, s.cur) + 1);
    CallerBelow(Stack(now, s.cur), Stack(s, s.cur), LowestIdle(s.active, 0));
    HaltResumesCaller(now);
    GoodIsInv(HaltSpec(now, Loads(true)).state);
  }

  lemma TopmostShell(stack: seq<int>, last: int, parent: seq<int>, shell: seq<bool>)
    requires IsCallStack(stack, last, parent, shell) && stack != []
    requires forall i, j :: 0 <= i < j < |stack| ==> stack[i] != stack[j]
    ensures last == stack[|stack| - 1] <==> shell[stack[|stack| - 1]]
  {
  }

  /** The parent `execute` records is its caller if and only if the caller is a shell. */
  lemma ParentIsCallerIffShell(s: State, req: Request)
    requires Good(s) && Depth(s, s.cur) > 0 && Starts(s, req)
    ensures var o := ExecuteSpec(s, req);
      0 <= o.pid < PIDS && (o.state.parent[o.pid] == Top(s, s.cur) <==> s.shell[Top(s, s.cur)])
  {
    hide ExecuteSpec;
    ExecutePushes(s, req);
    StartedLinks(s, req);
    IdleIsElsewhere(s, s.cur);
    TopmostShell(Stack(s, s.cur), s.lastShell[s.cur], s.parent, s.shell);
    hide Inv;
    hide IsCallStack;
    hide LowestIdle;
  }

  /** On the machine as it starts, showing any terminal starts a base shell there, as pid 0. */
  lemma FirstShowing(tid: nat, stray: int)
    requires tid < TERMINALS
    ensures var o := SwitchSpec(Start(), tid, stray, Loads(true));
      && Good(o.state) && o.pid == 0 && o.state.cur == tid && Stack(o.state, tid) == [0] && o.state.shell[0]
      && forall t :: 0 <= t < TERMINALS && t != tid ==> Stack(o.state, t) == [] && o.state.terminals[t].firstRun
  {
    StartIsGoodCalls();
    SwitchKeepsCalls(Start(), tid, stray);
    SwitchShows(Start(), tid, stray, Loads(true));
    FreeSlotIsDepth(Start().(cur := tid), tid);
    LinkedElsewhere(Start().(cur := tid, page := stray, esp0 := KernelStack(stray)), 0, true);
  }

  /** On the first terminal the first program counts as its shell whatever it is, so that a program
      it starts has it as its parent; on the others it does not. */
  lemma FirstProgram(tid: nat)
    requires tid < TERMINALS
    ensures var s := Start().(cur := tid);
      var o := ExecuteSpec(s, Loads(false));
      && o.pid == 0 && o.state.parent[0] == 0
      && o.state.lastShell[tid] == if tid == 0 then 0 else -1
  {
    var s := Start().(cur := tid);
    assert LowestIdle(s.active, 0) == 0;
  }

  lemma LinkedElsewhere(s: State, pid: nat, isShell: bool)
    requires Shape(s) && pid < PIDS
    ensures var s' := Linked(s.(active := s.active[pid := true]), pid, isShell);
      s'.shell[pid] == isShell && forall t :: 0 <= t < TERMINALS && t != s.cur ==> s'.terminals[t] == s.terminals[t]
  {
  }

  lemma StartIsGoodCalls()
    ensures Good(Start())
  {
  }
}
