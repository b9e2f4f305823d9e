/** Every active pid sits in a terminal or was lost to a program word that was too long. */
module PidAccounting {
  import opened Processes
  import opened ProcessLaws
  import opened Counting

  ghost predicate Held(s: State, p: int)
    requires Inv(s)
  {
    p in Stack(s, 0) || p in Stack(s, 1) || p in Stack(s, 2)
  }

  ghost function ActivePids(s: State): set<int>
    requires Inv(s)
  {
    set p | 0 <= p < PIDS && s.active[p]
  }

  /** Active pids that no terminal holds: nothing will ever halt them. */
  ghost function Lost(s: State): set<int>
    requires Inv(s)
  {
    set p | 0 <= p < PIDS && IsLost(s, p)
  }

  ghost predicate IsLost(s: State, p: int)
    requires Inv(s) && 0 <= p < PIDS
  {
    s.active[p] && !Held(s, p)
  }

  ghost function Slots(s: State): seq<int>
    requires Inv(s)
  {
    Stack(s, 0) + Stack(s, 1) + Stack(s, 2)
  }

  lemma SlotsDistinct(s: State)
    requires Inv(s)
    ensures Distinct(Slots(s))
    ensures forall p :: p in Slots(s) ==> 0 <= p < PIDS && s.active[p]
  {
    var a, b, c := Stack(s, 0), Stack(s, 1), Stack(s, 2);
    assert SlotsOk(s.terminals[0], s.active) && SlotsOk(s.terminals[1], s.active) && SlotsOk(s.terminals[2], s.active);
    assert Apart(s.terminals[0], s.terminals[1]) && Apart(s.terminals[0], s.terminals[2]) && Apart(s.terminals[1], s.terminals[2]);
    ThreeDistinct(a, b, c);
  }

  lemma ThreeDistinct(a: seq<int>, b: seq<int>, c: seq<int>)
    requires forall i, j :: 0 <= i < j < |a| ==> a[i] != a[j]
    requires forall i, j :: 0 <= i < j < |b| ==> b[i] != b[j]
    requires forall i, j :: 0 <= i < j < |c| ==> c[i] != c[j]
    requires forall i, j :: 0 <= i < |a| && 0 <= j < |b| ==> a[i] != b[j]
    requires forall i, j :: 0 <= i < |a| && 0 <= j < |c| ==> a[i] != c[j]
    requires forall i, j :: 0 <= i < |b| && 0 <= j < |c| ==> b[i] != c[j]
    ensures Distinct(a + b + c)
  {
  }

  /** Conservation: the three process counts and the lost pids add up to the active pids. */
  lemma PidConservation(s: State)
    requires Inv(s)
    ensures |ActivePids(s)| == s.terminals[0].numProc + s.terminals[1].numProc + s.terminals[2].numProc + |Lost(s)|
  {
    SlotsDistinct(s);
    DistinctSize(Slots(s));
    var held := set p | p in Slots(s);
    assert ActivePids(s) == held + Lost(s);
    assert held !! Lost(s);
    FreeSlotIsDepth(s, 0);
    FreeSlotIsDepth(s, 1);
    FreeSlotIsDepth(s, 2);
  }

  lemma HeldIsActive(s: State, p: int)
    requires Inv(s)
    ensures Held(s, p) ==> 0 <= p < PIDS && s.active[p]
  {
    assert forall t :: 0 <= t < TERMINALS ==> SlotsOk(s.terminals[t], s.active);
  }

  ghost predicate HeldElsewhere(s: State, t: nat, p: int)
    requires Inv(s)
  {
    (t != 0 && p in Stack(s, 0)) || (t != 1 && p in Stack(s, 1)) || (t != 2 && p in Stack(s, 2))
  }

  lemma OneStackChanges(s: State, s': State, t: nat, p: int)
    requires Inv(s) && Inv(s') && t < TERMINALS
    requires forall u :: 0 <= u < TERMINALS && u != t ==> Stack(s', u) == Stack(s, u)
    ensures Held(s, p) <==> p in Stack(s, t) || HeldElsewhere(s, t, p)
    ensures Held(s', p) <==> p in Stack(s', t) || HeldElsewhere(s, t, p)
  {
    hide Stack;
  }

  lemma ExecuteLoses(s: State, req: Request, p: int)
    requires Inv(s) && 0 <= p < PIDS
    ensures Inv(ExecuteSpec(s, req).state)
    ensures IsLost(ExecuteSpec(s, req).state, p) <==> IsLost(s, p) || (Loses(s, req) && p == LowestIdle(s.active, 0))
  {
    hide ExecuteSpec;
    ExecutePushes(s, req);
    HeldIsActive(s, p);
    if Loses(s, req) {
      ActivateKeepsInv(s, LowestIdle(s.active, 0));
    }
  }

  lemma HaltLoses(s: State, shellReq: Request, p: int)
    requires Inv(s) && Enabled(s, HaltStep(shellReq)) && 0 <= p < PIDS
    ensures Running(s) && Inv(HaltSpec(s, shellReq).state)
    ensures IsLost(HaltSpec(s, shellReq).state, p) <==> IsLost(s, p)
  {
    hide HaltSpec;
    hide ExecuteSpec;
    assert |s.active| == PIDS;
    hide Inv;
    hide Held;
    hide HeldElsewhere;
    hide Stack;
    HaltPops(s, shellReq);
    TopOnce(s);
    HeldIsActive(s, p);
    var s' := HaltSpec(s, shellReq).state;
    OneStackChanges(s, s', s.cur, p);
    PopKeeps(Stack(s, s.cur), p);
    assert p != Top(s, s.cur) ==> (p in Stack(s', s.cur) <==> p in Stack(s, s.cur)) || !s.active[p];
  }

  lemma PopKeeps(stack: seq<int>, p: int)
    requires |stack| > 0
    ensures p in stack <==> p in stack[..|stack| - 1] || p == stack[|stack| - 1]
  {
    assert stack == stack[..|stack| - 1] + [stack[|stack| - 1]];
  }

  lemma SwitchLoses(s: State, tid: nat, stray: int, shellReq: Request, p: int)
    requires Inv(s) && Enabled(s, SwitchStep(tid, stray, shellReq)) && 0 <= p < PIDS
    ensures Inv(SwitchSpec(s, tid, stray, shellReq).state)
    ensures IsLost(SwitchSpec(s, tid, stray, shellReq).state, p) <==> IsLost(s, p)
  {
    SwitchShows(s, tid, stray, shellReq);
    HeldIsActive(s, p);
    assert SlotsOk(s.terminals[tid], s.active);
    OneStackChanges(s, SwitchSpec(s, tid, stray, shellReq).state, tid, p);
    hide SwitchSpec;
    hide Held;
  }

  /** A pid is lost by exactly one kind of step: an execute whose program word is too long and
      that got as far as taking a pid. No step ever gives a lost pid back. */
  lemma LostStep(s: State, step: Step)
    requires Inv(s) && Enabled(s, step)
    ensures Inv(Apply(s, step))
    ensures Lost(Apply(s, step)) == Lost(s) +
      if step.ExecuteStep? && Loses(s, step.req) then {LowestIdle(s.active, 0)} else {}
  {
    hide HaltSpec;
    hide SwitchSpec;
    hide ExecuteSpec;
    StepKeepsInv(s, step);
    forall p | 0 <= p < PIDS
      ensures IsLost(Apply(s, step), p) <==> IsLost(s, p) || (step.ExecuteStep? && Loses(s, step.req) && p == LowestIdle(s.active, 0))
    {
      match step
      case ExecuteStep(req) => ExecuteLoses(s, req, p);
      case HaltStep(shellReq) => HaltLoses(s, shellReq, p);
      case SwitchStep(tid, stray, shellReq) => SwitchLoses(s, tid, stray, shellReq, p);
    }
  }

  lemma TopOnce(s: State)
    requires Inv(s) && Depth(s, s.cur) > 0
    ensures Top(s, s.cur) !in Stack(s, s.cur)[..Depth(s, s.cur) - 1]
    ensures !HeldElsewhere(s, s.cur, Top(s, s.cur))
  {
    assert SlotsOk(s.terminals[s.cur], s.active);
    forall t | 0 <= t < TERMINALS && t != s.cur ensures Top(s, s.cur) !in Stack(s, t) {
      assert Apart(s.terminals[t], s.terminals[s.cur]);
    }
  }

  ghost predicate ShortWords(steps: seq<Step>) {
    forall i :: 0 <= i < |steps| ==> steps[i] != ExecuteStep(TooLong)
  }

  /** On a run without an overlong program word no pid is lost, so the process counts of the
      three terminals add up to the number of active pids. */
  lemma {:induction false} ShortWordsLoseNothing(s: State, steps: seq<Step>)
    requires Inv(s) && Runs(s, steps) && ShortWords(steps)
    ensures Lost(Run(s, steps)) == Lost(s)
    decreases |steps|
  {
    hide Lost;
    hide Inv;
    hide Apply;
    if steps != [] {
      assert ShortWords(steps[1..]);
      StepKeepsInv(s, steps[0]);
      LostStep(s, steps[0]);
      ShortWordsLoseNothing(Apply(s, steps[0]), steps[1..]);
    }
  }

  lemma CountsFromStart(steps: seq<Step>)
    requires Inv(Start()) && Runs(Start(), steps) && ShortWords(steps)
    ensures var s := Run(Start(), steps);
      |ActivePids(s)| == s.terminals[0].numProc + s.terminals[1].numProc + s.terminals[2].numProc
  {
    hide Run;
    ShortWordsLoseNothing(Start(), steps);
    assert Lost(Start()) == {};
    PidConservation(Run(Start(), steps));
  }

  /** A lost pid stays lost. */
  lemma {:induction false} LostForever(s: State, steps: seq<Step>)
    requires Inv(s) && Runs(s, steps)
    ensures Lost(s) <= Lost(Run(s, steps))
    decreases |steps|
  {
    hide Lost;
    hide Inv;
    hide Apply;
    if steps != [] {
      StepKeepsInv(s, steps[0]);
      LostStep(s, steps[0]);
      LostForever(Apply(s, steps[0]), steps[1..]);
    }
  }

  /** Whoever issues a command holds a pid that is not lost: at most five can be. */
  lemma SomeoneRuns(s: State)
    requires Inv(s) && Depth(s, s.cur) > 0
    ensures |Lost(s)| <= 5
    ensures forall p :: 0 <= p < PIDS && p != Top(s, s.cur) && |Lost(s)| == 5 ==> p in Lost(s)
  {
    hide Lost;
    TopNotLost(s);
    var others := Below(PIDS) - {Top(s, s.cur)};
    assert |others| == 5;
    SubsetSize(Lost(s), others);
  }

  lemma TopNotLost(s: State)
    requires Inv(s) && Depth(s, s.cur) > 0
    ensures 0 <= Top(s, s.cur) < PIDS && Lost(s) <= Below(PIDS) - {Top(s, s.cur)}
  {
    TopIsRunning(s);
    HeldIsActive(s, Top(s, s.cur));
    assert Top(s, s.cur) in Stack(s, s.cur);
  }

  lemma SubsetSize(a: set<int>, b: set<int>)
    requires a <= b
    ensures |a| <= |b|
    ensures |a| == |b| ==> a == b
  {
    assert b == a + (b - a);
  }

  /** Once five pids are lost, the process on display can never again start a program: every
      command fails and changes nothing, on every run. */
  lemma FiveLostIsTheEnd(s: State, steps: seq<Step>, req: Request)
    requires Inv(s) && Runs(s, steps) && |Lost(s)| >= 5
    requires Depth(Run(s, steps), Run(s, steps).cur) > 0
    ensures ExecuteSpec(Run(s, steps), req) == Outcome(Run(s, steps), -1)
  {
    hide Run;
    hide Lost;
    hide Inv;
    LostForever(s, steps);
    var s' := Run(s, steps);
    SubsetSize(Lost(s), Lost(s'));
    SomeoneRuns(s');
    AllTaken(s');
  }

  lemma AllTaken(s: State)
    requires Inv(s) && Depth(s, s.cur) > 0
    requires forall p :: 0 <= p < PIDS && p != Top(s, s.cur) ==> p in Lost(s)
    ensures LowestIdle(s.active, 0) == PIDS && Shape(s)
  {
    TopIsRunning(s);
    forall p | 0 <= p < PIDS ensures s.active[p] {
      if p != Top(s, s.cur) { assert p in Lost(s); }
    }
  }
}
