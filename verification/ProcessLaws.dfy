/** What holds of the process table in every reachable state. */
module ProcessLaws {
  import opened Processes

  // ----- one terminal as a stack of pids

  ghost predicate SlotsOk(term: Terminal, active: seq<bool>) {
    && |term.processes| == SLOTS && |active| == PIDS
    && 0 <= term.numProc <= SLOTS
    && (term.firstRun ==> term.numProc == 0)
    && (forall i :: 0 <= i < term.numProc ==> 0 <= term.processes[i] < PIDS && active[term.processes[i]])
    && (forall i :: term.numProc <= i < SLOTS ==> term.processes[i] == -1)
    && (forall i, j :: 0 <= i < j < term.numProc ==> term.processes[i] != term.processes[j])
  }

  ghost predicate Apart(a: Terminal, b: Terminal)
    requires |a.processes| == |b.processes| == SLOTS
  {
    a.numProc <= SLOTS && b.numProc <= SLOTS &&
    forall i, j :: 0 <= i < a.numProc && 0 <= j < b.numProc ==> a.processes[i] != b.processes[j]
  }

  /** The occupied slots of every terminal form a prefix of length `num_proc`; every pid in a
      slot is active and in no other slot. */
  ghost predicate Inv(s: State) {
    && Shape(s)
    && (forall t :: 0 <= t < TERMINALS ==> SlotsOk(s.terminals[t], s.active))
    && (forall t, u :: 0 <= t < TERMINALS && 0 <= u < TERMINALS && t != u ==> Apart(s.terminals[t], s.terminals[u]))
  }

  ghost function Stack(s: State, t: nat): seq<int>
    requires Inv(s) && t < TERMINALS
  {
    assert SlotsOk(s.terminals[t], s.active);
    s.terminals[t].processes[..s.terminals[t].numProc]
  }

  ghost function Depth(s: State, t: nat): nat
    requires Inv(s) && t < TERMINALS
  {
    |Stack(s, t)|
  }

  ghost function Top(s: State, t: nat): nat
    requires Inv(s) && t < TERMINALS && Depth(s, t) > 0
  {
    assert SlotsOk(s.terminals[t], s.active);
    Stack(s, t)[Depth(s, t) - 1]
  }

  lemma FreeSlotIsDepth(s: State, t: nat)
    requires Inv(s) && t < TERMINALS
    ensures SlotOf(s.terminals[t].processes, -1, 0) == s.terminals[t].numProc == Depth(s, t)
  {
    var term := s.terminals[t];
    assert SlotsOk(term, s.active);
    var k := SlotOf(term.processes, -1, 0);
    assert term.numProc < SLOTS ==> term.processes[term.numProc] == -1;
  }

  lemma TopOfTerm(term: Terminal, active: seq<bool>)
    requires SlotsOk(term, active) && term.numProc > 0
    ensures SlotOf(term.processes, -1, 0) == term.numProc
    ensures SlotOf(term.processes, term.processes[term.numProc - 1], 0) == term.numProc - 1
  {
    var n, top := term.numProc - 1, term.processes[term.numProc - 1];
    var k, m := SlotOf(term.processes, -1, 0), SlotOf(term.processes, top, 0);
    assert term.numProc < SLOTS ==> term.processes[term.numProc] == -1;
  }

  lemma TopIsRunning(s: State)
    requires Inv(s) && Depth(s, s.cur) > 0
    ensures Running(s)
    ensures s.terminals[s.cur].processes[TopSlot(s.terminals[s.cur].processes)] == Top(s, s.cur)
    ensures SlotOf(s.terminals[s.cur].processes, Top(s, s.cur), 0) == Depth(s, s.cur) - 1
    ensures s.active[Top(s, s.cur)]
  {
    hide SlotOf;
    assert SlotsOk(s.terminals[s.cur], s.active);
    TopOfTerm(s.terminals[s.cur], s.active);
  }

  // ----- execute pushes, halt pops

  /** Does this request start a program in this state? */
  ghost predicate Starts(s: State, req: Request)
    requires Inv(s)
  {
    req.Loads? && Depth(s, s.cur) < SLOTS && LowestIdle(s.active, 0) < PIDS
  }

  /** Does this request take a pid and never give it back? */
  ghost predicate Loses(s: State, req: Request)
    requires Inv(s)
  {
    req.TooLong? && Depth(s, s.cur) < SLOTS && LowestIdle(s.active, 0) < PIDS
  }

  /** A program starts exactly when the file loads, a pid is idle and the terminal has room; it
      gets the lowest idle pid and is pushed on the displayed terminal. A failed call changes
      nothing, unless the program word was too long. */
  lemma ExecutePushes(s: State, req: Request)
    requires Inv(s)
    ensures var o := ExecuteSpec(s, req);
      && Inv(o.state) && o.state.cur == s.cur
      && (o.pid >= 0 <==> Starts(s, req))
      && (forall t :: 0 <= t < TERMINALS && t != s.cur ==> Stack(o.state, t) == Stack(s, t))
      && (Starts(s, req) ==>
            o.pid == LowestIdle(s.active, 0) && Stack(o.state, s.cur) == Stack(s, s.cur) + [o.pid]
            && o.state.active == s.active[o.pid := true])
      && (!Starts(s, req) ==>
            o.pid == -1 && Stack(o.state, s.cur) == Stack(s, s.cur)
            && o.state == (if Loses(s, req) then s.(active := s.active[LowestIdle(s.active, 0) := true]) else s))
  {
    FreeSlotIsDepth(s, s.cur);
    var pid := LowestIdle(s.active, 0);
    assert forall t :: 0 <= t < TERMINALS ==> SlotsOk(s.terminals[t], s.active);
    if Starts(s, req) {
      LinkKeepsInv(s, pid, req.isShell);
    } else if pid < PIDS {
      ActivateKeepsInv(s, pid);
    }
  }

  lemma ActivateKeepsInv(s: State, pid: nat)
    requires Inv(s) && pid < PIDS
    ensures Inv(s.(active := s.active[pid := true]))
    ensures forall t :: 0 <= t < TERMINALS ==> Stack(s.(active := s.active[pid := true]), t) == Stack(s, t)
  {
    var s' := s.(active := s.active[pid := true]);
    forall t | 0 <= t < TERMINALS ensures SlotsOk(s'.terminals[t], s'.active) {
      assert SlotsOk(s.terminals[t], s.active);
    }
    assert forall t, u :: 0 <= t < TERMINALS && 0 <= u < TERMINALS && t != u ==> Apart(s.terminals[t], s.terminals[u]);
  }

  lemma PushTerm(term: Terminal, active: seq<bool>, pid: nat)
    requires SlotsOk(term, active) && pid < PIDS && !active[pid] && term.numProc < SLOTS
    ensures var term' := Terminal(term.processes[term.numProc := pid], term.numProc + 1, false);
      && SlotsOk(term', active[pid := true])
      && term'.processes[..term'.numProc] == term.processes[..term.numProc] + [pid]
    ensures SlotsOk(term, active[pid := true])
    ensures forall i :: 0 <= i < term.numProc ==> term.processes[i] != pid
  {
  }

  lemma PopTerm(term: Terminal, active: seq<bool>)
    requires SlotsOk(term, active) && term.numProc > 0
    ensures var n := term.numProc - 1;
      var term' := Terminal(term.processes[n := -1], n, term.firstRun);
      && SlotsOk(term', active[term.processes[n] := false])
      && term'.processes[..n] == term.processes[..term.numProc][..n]
  {
  }

  lemma PidGone(term: Terminal, other: Terminal, active: seq<bool>)
    requires SlotsOk(term, active) && SlotsOk(other, active) && Apart(other, term) && term.numProc > 0
    ensures SlotsOk(other, active[term.processes[term.numProc - 1] := false])
  {
  }

  /** `s'` is `s` with the displayed terminal replaced and some pids turned on or off. */
  lemma ReplaceKeepsInv(s: State, s': State, term: Terminal)
    requires Inv(s) && Shape(s') && s'.cur == s.cur && s'.terminals == s.terminals[s.cur := term]
    requires SlotsOk(term, s'.active)
    requires forall t :: 0 <= t < TERMINALS && t != s.cur ==> SlotsOk(s.terminals[t], s'.active) && Apart(s.terminals[t], term)
    ensures Inv(s')
    ensures Stack(s', s.cur) == term.processes[..term.numProc]
    ensures forall t :: 0 <= t < TERMINALS && t != s.cur ==> Stack(s', t) == Stack(s, t)
  {
    ReplaceApart(s.terminals, s.cur, term);
    assert forall t :: 0 <= t < TERMINALS ==> SlotsOk(s'.terminals[t], s'.active);
  }

  lemma LinkKeepsInv(s: State, pid: nat, isShell: bool)
    requires Inv(s) && pid < PIDS && !s.active[pid] && Depth(s, s.cur) < SLOTS
    ensures var s' := Linked(s.(active := s.active[pid := true]), pid, isShell);
      && Inv(s') && s'.cur == s.cur
      && Stack(s', s.cur) == Stack(s, s.cur) + [pid]
      && (forall t :: 0 <= t < TERMINALS && t != s.cur ==> Stack(s', t) == Stack(s, t))
  {
    hide SlotOf;
    var s' := Linked(s.(active := s.active[pid := true]), pid, isShell);
    FreeSlotIsDepth(s, s.cur);
    var term := s.terminals[s.cur];
    assert SlotsOk(term, s.active);
    var term' := Terminal(term.processes[term.numProc := pid], term.numProc + 1, false);
    assert s'.terminals == s.terminals[s.cur := term'];
    hide Linked;
    PushTerm(term, s.active, pid);
    forall t | 0 <= t < TERMINALS && t != s.cur
      ensures SlotsOk(s.terminals[t], s'.active) && Apart(s.terminals[t], term')
    {
      PushApart(s.terminals[t], term, s.active, pid);
    }
    ReplaceKeepsInv(s, s', term');
  }

  lemma PushApart(other: Terminal, term: Terminal, active: seq<bool>, pid: nat)
    requires SlotsOk(other, active) && SlotsOk(term, active) && Apart(other, term)
    requires pid < PIDS && !active[pid] && term.numProc < SLOTS
    ensures SlotsOk(other, active[pid := true])
    ensures Apart(other, Terminal(term.processes[term.numProc := pid], term.numProc + 1, false))
  {
  }

  lemma UnlinkKeepsInv(s: State)
    requires Inv(s) && Depth(s, s.cur) > 0
    ensures SlotOf(s.terminals[s.cur].processes, Top(s, s.cur), 0) < SLOTS
    ensures var s' := Unlinked(s, Top(s, s.cur));
      && Inv(s') && s'.cur == s.cur
      && s'.active == s.active[Top(s, s.cur) := false]
      && Stack(s', s.cur) == Stack(s, s.cur)[..Depth(s, s.cur) - 1]
      && (forall t :: 0 <= t < TERMINALS && t != s.cur ==> Stack(s', t) == Stack(s, t))
  {
    hide SlotOf;
    TopIsRunning(s);
    var s' := Unlinked(s, Top(s, s.cur));
    var term := s.terminals[s.cur];
    assert SlotsOk(term, s.active);
    var term' := Terminal(term.processes[term.numProc - 1 := -1], term.numProc - 1, term.firstRun);
    assert s'.terminals == s.terminals[s.cur := term'];
    PopTerm(term, s.active);
    forall t | 0 <= t < TERMINALS && t != s.cur
      ensures SlotsOk(s.terminals[t], s'.active) && Apart(s.terminals[t], term')
    {
      assert Apart(s.terminals[t], term);
      PidGone(term, s.terminals[t], s.active);
    }
    ReplaceKeepsInv(s, s', term');
  }

  lemma ReplaceApart(terminals: seq<Terminal>, cur: nat, term: Terminal)
    requires |terminals| == TERMINALS && cur < TERMINALS
    requires forall t :: 0 <= t < TERMINALS ==> |terminals[t].processes| == SLOTS
    requires |term.processes| == SLOTS && term.numProc <= SLOTS
    requires forall t, u :: 0 <= t < TERMINALS && 0 <= u < TERMINALS && t != u ==> Apart(terminals[t], terminals[u])
    requires forall t :: 0 <= t < TERMINALS && t != cur ==> Apart(terminals[t], term)
    ensures var ts := terminals[cur := term];
      forall t, u :: 0 <= t < TERMINALS && 0 <= u < TERMINALS && t != u ==> Apart(ts[t], ts[u])
  {
    var ts := terminals[cur := term];
    forall t, u | 0 <= t < TERMINALS && 0 <= u < TERMINALS && t != u ensures Apart(ts[t], ts[u]) {
      assert Apart(terminals[t], terminals[u]);
      if t == cur {
        assert Apart(terminals[u], term);
      } else if u == cur {
        assert Apart(terminals[t], term);
      }
    }
  }

  /** `halt` pops the displayed terminal and resumes the parent recorded for the popped process;
      when that was the last process, the shell command decides what the terminal is left with. */
  lemma HaltPops(s: State, shellReq: Request)
    requires Inv(s) && Depth(s, s.cur) > 0
    requires !shellReq.Empty? && !shellReq.TooLong?
    ensures Running(s)
    ensures var o, top, n := HaltSpec(s, shellReq), Top(s, s.cur), Depth(s, s.cur) - 1;
      var heir := LowestIdle(s.active[top := false], 0);
      && Inv(o.state) && o.state.cur == s.cur
      && (forall t :: 0 <= t < TERMINALS && t != s.cur ==> Stack(o.state, t) == Stack(s, t))
      && if n == 0 && shellReq.Loads?
         then o.pid == heir < PIDS && Stack(o.state, s.cur) == [heir] && o.state.active == s.active[top := false][heir := true]
         else o.pid == s.parent[top] && Stack(o.state, s.cur) == Stack(s, s.cur)[..n] && o.state.active == s.active[top := false]
  {
    TopIsRunning(s);
    UnlinkKeepsInv(s);
    var top := Top(s, s.cur);
    var freed := Unlinked(s, top);
    ExecutePushes(freed, shellReq);
    assert SlotsOk(s.terminals[s.cur], s.active);
    assert !freed.active[top];
    assert LowestIdle(freed.active, 0) <= top;
    var restarted := ExecuteSpec(freed, shellReq);
    if Depth(s, s.cur) == 1 {
      assert Stack(freed, s.cur) == [];
      var after := restarted.state;
      if !shellReq.Loads? {
        assert after == freed;
        SameTable(freed, freed.(page := s.parent[top], esp0 := KernelStack(s.parent[top])));
      }
    } else {
      SameTable(freed, freed.(page := s.parent[top], esp0 := KernelStack(s.parent[top])));
    }
  }

  /** What is mapped and displayed has no part in the invariant. */
  lemma SameTable(s: State, s': State)
    requires Inv(s) && Shape(s') && s'.terminals == s.terminals && s'.active == s.active
    ensures Inv(s')
    ensures forall t :: 0 <= t < TERMINALS ==> Stack(s', t) == Stack(s, t)
  {
    assert forall t :: 0 <= t < TERMINALS ==> SlotsOk(s.terminals[t], s.active);
    assert forall t, u :: 0 <= t < TERMINALS && 0 <= u < TERMINALS && t != u ==> Apart(s.terminals[t], s.terminals[u]);
  }

  /** The pid that runs is the one whose frame is mapped and whose kernel stack is in use. */
  ghost predicate RunsMapped(o: Outcome) {
    o.state.page == o.pid && o.state.esp0 == 0x80_0000 - 0x2000 * o.pid - 4
  }

  /** So it is after every call that ends with a process running: a program that starts, a process
      that is resumed, whether or not a shell could be restarted, and a process that is shown. */
  lemma RunningIsMapped(s: State, req: Request, tid: nat, stray: int)
    requires Inv(s) && tid < TERMINALS && !req.Empty? && !req.TooLong?
    ensures Starts(s, req) ==> RunsMapped(ExecuteSpec(s, req))
    ensures Depth(s, s.cur) > 0 ==> Running(s) && RunsMapped(HaltSpec(s, req))
    ensures !s.terminals[tid].firstRun || Starts(s.(cur := tid), req) ==> RunsMapped(SwitchSpec(s, tid, stray, req))
  {
    FreeSlotIsDepth(s, s.cur);
    SameTable(s, s.(cur := tid));
    FreeSlotIsDepth(s.(cur := tid), tid);
    if Depth(s, s.cur) > 0 {
      TopIsRunning(s);
      UnlinkKeepsInv(s);
      FreeSlotIsDepth(Unlinked(s, Top(s, s.cur)), s.cur);
    }
  }

  // ----- runs

  datatype Step =
    | ExecuteStep(req: Request)
    | HaltStep(shellReq: Request)
    | SwitchStep(tid: nat, stray: int, shellReq: Request)

  /** A process must run for there to be a `halt`; the command "shell" is neither empty nor long. */
  ghost predicate Enabled(s: State, step: Step)
    requires Inv(s)
  {
    match step
    case ExecuteStep(_) => true
    case HaltStep(shellReq) => Depth(s, s.cur) > 0 && !shellReq.Empty? && !shellReq.TooLong?
    case SwitchStep(tid, _, shellReq) => tid < TERMINALS && !shellReq.Empty? && !shellReq.TooLong?
  }

  ghost function Apply(s: State, step: Step): State
    requires Inv(s) && Enabled(s, step)
  {
    match step
    case ExecuteStep(req) => ExecuteSpec(s, req).state
    case HaltStep(shellReq) => TopIsRunning(s); HaltSpec(s, shellReq).state
    case SwitchStep(tid, stray, shellReq) => SwitchSpec(s, tid, stray, shellReq).state
  }

  lemma StepKeepsInv(s: State, step: Step)
    requires Inv(s) && Enabled(s, step)
    ensures Inv(Apply(s, step))
  {
    match step
    case ExecuteStep(req) => ExecutePushes(s, req);
    case HaltStep(shellReq) => HaltPops(s, shellReq);
    case SwitchStep(tid, stray, shellReq) => SwitchShows(s, tid, stray, shellReq);
  }

  /** A switch only changes what is displayed, except that a terminal shown for the first time
      gets a shell. */
  lemma SwitchShows(s: State, tid: nat, stray: int, shellReq: Request)
    requires Inv(s) && tid < TERMINALS && !shellReq.TooLong?
    ensures var o := SwitchSpec(s, tid, stray, shellReq);
      && Inv(o.state) && o.state.cur == tid
      && (forall t :: 0 <= t < TERMINALS && t != tid ==> Stack(o.state, t) == Stack(s, t))
      && if s.terminals[tid].firstRun && Starts(s.(cur := tid), shellReq)
         then Stack(o.state, tid) == [o.pid] && o.pid == LowestIdle(s.active, 0) && o.state.active == s.active[o.pid := true]
         else Stack(o.state, tid) == Stack(s, tid) && o.state.active == s.active && (Depth(s, tid) > 0 ==> o.pid == Top(s, tid))
  {
    SameTable(s, s.(cur := tid));
    var term := s.terminals[tid];
    assert SlotsOk(term, s.active);
    var top := TopSlot(term.processes);
    var pid := if top >= 0 then term.processes[top] else stray;
    var shown := s.(cur := tid, page := pid, esp0 := KernelStack(pid));
    SameTable(s, shown);
    FreeSlotIsDepth(s, tid);
    if term.firstRun {
      ExecutePushes(shown, shellReq);
    }
  }

  ghost predicate Runs(s: State, steps: seq<Step>)
    requires Inv(s)
    decreases |steps|
  {
    steps == [] ||
    (Enabled(s, steps[0]) && (StepKeepsInv(s, steps[0]); Runs(Apply(s, steps[0]), steps[1..])))
  }

  /** Every run from a good state stays good: the result type is the theorem. */
  ghost function Run(s: State, steps: seq<Step>): (s': State)
    requires Inv(s) && Runs(s, steps)
    ensures Inv(s')
    decreases |steps|
  {
    if steps == [] then s else StepKeepsInv(s, steps[0]); Run(Apply(s, steps[0]), steps[1..])
  }

  lemma StartIsGood()
    ensures Inv(Start())
  {
  }
}
