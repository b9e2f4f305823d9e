/** The process table (student-distrib/syscall.c: execute, halt, get_pcb_address, and the process
    half of switch_terminal in student-distrib/terminal.c). Six pids are shared by three terminals
    of four slots each. `State` and the three step functions say what each call does; class
    `ProcessTable` is the code. A context switch is represented by the pid it selects. */
module Processes {

  const PIDS := 6
  const TERMINALS := 3
  const SLOTS := 4
  const MB8 := 0x80_0000
  const KB8 := 0x2000

  datatype Terminal = Terminal(processes: seq<int>, numProc: int, firstRun: bool)

  /** `parent` and `shell` are per pid: `parent_pid` of its control block, and whether the program
      it was started with is the shell. `page` is the pid whose 4MB frame is mapped. */
  datatype State = State(
    active: seq<bool>,
    lastShell: seq<int>,
    terminals: seq<Terminal>,
    parent: seq<int>,
    shell: seq<bool>,
    cur: nat,
    page: int,
    esp0: int)

  /** What becomes of a command: an empty one, one whose program word is over 32 characters, one
      that names no file or no executable, or one that loads (the shell or another program). */
  datatype Request = Empty | TooLong | NotFound | NotExecutable | Loads(isShell: bool)

  /** The pid that runs when the call is over, or -1 when the call failed. */
  datatype Outcome = Outcome(state: State, pid: int)

  ghost predicate Shape(s: State) {
    && |s.active| == |s.parent| == |s.shell| == PIDS
    && |s.lastShell| == |s.terminals| == TERMINALS
    && s.cur < TERMINALS
    && forall t :: 0 <= t < TERMINALS ==> |s.terminals[t].processes| == SLOTS
  }

  function KernelStack(pid: int): int { MB8 - pid * KB8 - 4 }

  /** The first inactive pid from `i` on, or 6. */
  function LowestIdle(active: seq<bool>, i: nat): (p: nat)
    requires i <= |active|
    ensures i <= p <= |active|
    ensures forall j :: i <= j < p ==> active[j]
    ensures p < |active| ==> !active[p]
    decreases |active| - i
  {
    if i == |active| || !active[i] then i else LowestIdle(active, i + 1)
  }

  /** The first slot from `i` on that holds `v`, or the number of slots. */
  function SlotOf(processes: seq<int>, v: int, i: nat): (k: nat)
    requires i <= |processes|
    ensures i <= k <= |processes|
    ensures forall j :: i <= j < k ==> processes[j] != v
    ensures k < |processes| ==> processes[k] == v
    decreases |processes| - i
  {
    if i == |processes| || processes[i] == v then i else SlotOf(processes, v, i + 1)
  }

  function ExecuteSpec(s: State, req: Request): Outcome
    requires Shape(s)
  {
    var pid := LowestIdle(s.active, 0);
    var term := s.terminals[s.cur];
    if req.Empty? || pid == PIDS || term.numProc > 3 then Outcome(s, -1)
    else if req.TooLong? then Outcome(s.(active := s.active[pid := true]), -1)
    else if !req.Loads? then Outcome(s, -1)
    else Outcome(Linked(s.(active := s.active[pid := true]), pid, req.isShell), pid)
  }

  /** The table once `pid` is linked into the displayed terminal and its image is mapped. */
  function Linked(s: State, pid: nat, isShell: bool): State
    requires Shape(s) && pid < PIDS
  {
    var term := s.terminals[s.cur];
    var k := if term.firstRun then 0 else SlotOf(term.processes, -1, 0);
    var processes := if k < SLOTS then term.processes[k := pid] else term.processes;
    var last := if term.firstRun && s.cur == 0 then s.lastShell[0 := 0] else s.lastShell;
    s.(
      lastShell := if isShell then last[s.cur := pid] else last,
      terminals := s.terminals[s.cur := Terminal(processes, term.numProc + 1, false)],
      parent := s.parent[pid := if term.numProc == 0 then processes[0] else last[s.cur]],
      shell := s.shell[pid := isShell],
      page := pid,
      esp0 := KernelStack(pid))
  }

  lemma LinkedShape(s: State, pid: nat, isShell: bool)
    requires Shape(s) && pid < PIDS
    ensures Shape(Linked(s, pid, isShell))
    ensures Linked(s, pid, isShell) ==
      s.(lastShell := Linked(s, pid, isShell).lastShell, terminals := Linked(s, pid, isShell).terminals,
         parent := Linked(s, pid, isShell).parent, shell := Linked(s, pid, isShell).shell,
         page := pid, esp0 := KernelStack(pid))
  {
  }

  /** The slot of the process that runs on a terminal: the last one before the first free slot. */
  function TopSlot(processes: seq<int>): int {
    SlotOf(processes, -1, 0) - 1
  }

  ghost predicate Running(s: State) {
    && Shape(s)
    && var processes := s.terminals[s.cur].processes;
       TopSlot(processes) >= 0 && 0 <= processes[TopSlot(processes)] < PIDS
  }

  /** `shellReq` is what becomes of the command "shell" should `halt` issue it. */
  function HaltSpec(s: State, shellReq: Request): Outcome
    requires Running(s)
  {
    var term := s.terminals[s.cur];
    var pid := term.processes[TopSlot(term.processes)];
    if !s.active[pid] then
      Outcome(s.(terminals := s.terminals[s.cur := term.(numProc := term.numProc - 1)]), -1)
    else
      var parent := s.parent[pid];
      var freed := Unlinked(s, pid);
      var restarted := ExecuteSpec(freed, shellReq);
      if term.numProc - 1 == 0 && restarted.pid >= 0 then restarted
      else
        var after := if term.numProc - 1 == 0 then restarted.state else freed;
        Outcome(after.(page := parent, esp0 := KernelStack(parent)), parent)
  }

  /** The table once `pid` is out of the displayed terminal. */
  function Unlinked(s: State, pid: nat): (u: State)
    requires Shape(s) && pid < PIDS
    requires SlotOf(s.terminals[s.cur].processes, pid, 0) < SLOTS
    ensures Shape(u)
  {
    var term := s.terminals[s.cur];
    s.(
      active := s.active[pid := false],
      lastShell := if s.lastShell[s.cur] == pid then s.lastShell[s.cur := s.parent[pid]] else s.lastShell,
      terminals := s.terminals[s.cur :=
        Terminal(term.processes[SlotOf(term.processes, pid, 0) := -1], term.numProc - 1, term.firstRun)])
  }

  /** `stray` is the pid of whatever control block the code finds when the terminal is empty. */
  function SwitchSpec(s: State, tid: nat, stray: int, shellReq: Request): Outcome
    requires Shape(s) && tid < TERMINALS
  {
    var term := s.terminals[tid];
    var top := TopSlot(term.processes);
    var pid := if top >= 0 then term.processes[top] else stray;
    var shown := s.(cur := tid, page := pid, esp0 := KernelStack(pid));
    if term.firstRun then ExecuteSpec(shown, shellReq) else Outcome(shown, pid)
  }

  // ----- the code

  class ProcessTable {
    const processState: array<bool>
    const lastShell: array<int>
    const terminals: array<Terminal>
    const parent: array<int>
    const shell: array<bool>
    var cur: nat
    var page: int
    var esp0: int

    ghost predicate Valid()
      reads this, processState, lastShell, terminals, parent, shell
    {
      lastShell != parent && processState != shell && Shape(Abs())
    }

    ghost function Abs(): State
      reads this, processState, lastShell, terminals, parent, shell
    {
      State(processState[..], lastShell[..], terminals[..], parent[..], shell[..], cur, page, esp0)
    }

    ghost function Frame(): set<object>
    {
      {this, processState, lastShell, terminals, parent, shell}
    }

    /** `terminal_init` and the initial values of the globals. */
    constructor ()
      ensures Valid() && fresh(Frame())
      ensures Abs() == Start()
    {
      processState := new bool[PIDS](_ => false);
      lastShell := new int[TERMINALS](_ => -1);
      terminals := new Terminal[TERMINALS](_ => Terminal([-1, -1, -1, -1], 0, true));
      parent := new int[PIDS](_ => 0);
      shell := new bool[PIDS](_ => false);
      cur, page, esp0 := 0, 0, MB8;
      new;
      assert Abs() == Start();
    }

    method Execute(req: Request) returns (r: int)
      requires Valid()
      modifies Frame()
      ensures Valid() && Outcome(Abs(), r) == ExecuteSpec(old(Abs()), req)
    {
      hide Linked;
      if req.Empty? {
        return -1;
      }
      if processState[0] && processState[1] && processState[2] && processState[3] && processState[4] && processState[5] {
        return -1;
      }
      if terminals[cur].numProc > 3 {
        return -1;
      }
      var pid := 0;
      while processState[pid]
        invariant 0 <= pid < PIDS
        invariant LowestIdle(processState[..], 0) == LowestIdle(processState[..], pid) < PIDS
        decreases PIDS - pid
      {
        pid := pid + 1;
      }
      ghost var s := Abs();
      processState[pid] := true;
      if req.TooLong? {
        return -1;
      }
      if req.NotFound? || req.NotExecutable? {
        processState[pid] := false;
        assert processState[..] == s.active;
        return -1;
      }
      Link(pid, req.isShell);
      return pid;
    }

    /** The part of `execute` from the control block on: the slot, the parent, the counters. */
    method Link(pid: nat, isShell: bool)
      requires Valid() && pid < PIDS
      modifies Frame() - {processState}
      ensures Abs() == Linked(old(Abs()), pid, isShell)
      ensures Valid()
    {
      hide SlotOf;
      ghost var s := Abs();
      var term := terminals[cur];
      var i := FirstFree(term.processes);
      if term.firstRun {
        i := 0;
        if cur == 0 { lastShell[0] := 0; }
      }
      var processes := if i < SLOTS then term.processes[i := pid] else term.processes;
      parent[pid] := if term.numProc == 0 then processes[0] else lastShell[cur];
      terminals[cur] := Terminal(processes, term.numProc + 1, false);
      if isShell { lastShell[cur] := pid; }
      shell[pid] := isShell;
      page := pid;
      esp0 := MB8 - pid * KB8 - 4;
      assert esp0 == KernelStack(pid);
      assert parent[..] == Linked(s, pid, isShell).parent;
      assert lastShell[..] == Linked(s, pid, isShell).lastShell;
      assert terminals[..] == Linked(s, pid, isShell).terminals;
      assert shell[..] == Linked(s, pid, isShell).shell;
      assert processState[..] == s.active;
      LinkedShape(s, pid, isShell);
      hide Linked;
      hide Shape;
    }

    method FirstFree(processes: seq<int>) returns (i: nat)
      requires |processes| == SLOTS
      ensures i == SlotOf(processes, -1, 0)
    {
      i := 0;
      while i < SLOTS && processes[i] != -1
        invariant i <= SLOTS
        invariant SlotOf(processes, -1, 0) == SlotOf(processes, -1, i)
      {
        i := i + 1;
      }
    }

    method Halt(shellReq: Request) returns (r: int)
      requires Valid() && Running(Abs())
      modifies Frame()
      ensures Valid() && Outcome(Abs(), r) == HaltSpec(old(Abs()), shellReq)
    {
      hide ExecuteSpec;
      hide Unlinked;
      var term := terminals[cur];
      var free := FirstFree(term.processes);
      var pid := term.processes[free - 1];
      var up := parent[pid];
      if !processState[pid] {
        terminals[cur] := term.(numProc := term.numProc - 1);
        return -1;
      }
      Unlink(pid);
      if terminals[cur].numProc == 0 {
        var started := Execute(shellReq);
        if started >= 0 {
          return started;
        }
      }
      page := up;
      esp0 := MB8 - up * KB8 - 4;
      return up;
    }

    /** The part of `halt` that takes the process out of the table. */
    method Unlink(pid: nat)
      requires Valid() && pid < PIDS && SlotOf(terminals[cur].processes, pid, 0) < SLOTS
      modifies Frame()
      ensures Valid() && Abs() == Unlinked(old(Abs()), pid)
      ensures terminals[cur].numProc == old(terminals[cur].numProc) - 1
    {
      var term := terminals[cur];
      var i := 0;
      while term.processes[i] != pid
        invariant 0 <= i < SLOTS
        invariant SlotOf(term.processes, pid, 0) == SlotOf(term.processes, pid, i)
        decreases SLOTS - i
      {
        i := i + 1;
      }
      processState[pid] := false;
      terminals[cur] := Terminal(term.processes[i := -1], term.numProc - 1, term.firstRun);
      if lastShell[cur] == pid {
        lastShell[cur] := parent[pid];
      }
    }

    method Switch(tid: nat, stray: int, shellReq: Request) returns (r: int)
      requires Valid() && tid < TERMINALS
      modifies Frame()
      ensures Valid() && Outcome(Abs(), r) == SwitchSpec(old(Abs()), tid, stray, shellReq)
    {
      cur := tid;
      var term := terminals[cur];
      var free := FirstFree(term.processes);
      r := if free > 0 then term.processes[free - 1] else stray;
      page := r;
      esp0 := MB8 - r * KB8 - 4;
      if term.firstRun {
        r := Execute(shellReq);
      }
    }
  }

  function Start(): State {
    State(seq(PIDS, _ => false), seq(TERMINALS, _ => -1), seq(TERMINALS, _ => Terminal([-1, -1, -1, -1], 0, true)),
          seq(PIDS, _ => 0), seq(PIDS, _ => false), 0, 0, MB8)
  }
}
