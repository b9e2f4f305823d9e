/** Three terminals on one screen and one keyboard (student-distrib/terminal.c: switch_terminal,
    terminal_write, terminal_read). `Step` is the machine with its one live page and key buffer
    and three saved copies; `PrivateStep` is a terminal that has a screen and a keyboard of its
    own. */
module Terminals {
  import opened Bytes
  import opened Screen
  import opened LineEditor
  import Processes

  /** `stop` is the one column shared by all terminals at which backspace stops. */
  datatype Machine = Machine(cur: nat, live: Term, saved: seq<Term>, stop: nat)

  ghost predicate MachineOk(m: Machine) {
    m.cur < Processes.TERMINALS && TermOk(m.live) && |m.saved| == Processes.TERMINALS && forall t :: 0 <= t < Processes.TERMINALS ==> TermOk(m.saved[t])
  }

  datatype Event =
    | Print(c: byte)           // kernel output
    | Write(s: seq<byte>)      // a program writes
    | Type(c: byte)
    | Erase
    | Enter
    | Clear(prompt: bool)
    | ReadLine                 // a program reads the finished line
    | SwitchTo(tid: nat)

  /** A switch is to one of the terminals, and a backspace stays inside the key buffer. */
  predicate Allowed(m: Machine, e: Event) {
    (e.SwitchTo? ==> e.tid < Processes.TERMINALS) && (e.Erase? ==> StoresInside(m.live, m.stop))
  }

  function Step(m: Machine, e: Event): (r: Machine)
    requires MachineOk(m) && Allowed(m, e)
    ensures MachineOk(r)
  {
    match e
    case Print(c) => m.(live := m.live.(display := Put(m.live.display, c)))
    case Write(s) =>
      if s == [] then m else
      var d := PutAll(m.live.display, s);
      m.(live := m.live.(display := d), stop := d.x)
    case Type(c) => m.(live := TypeKey(m.live, c))
    case Erase => m.(live := EraseKey(m.live, m.stop))
    case Enter => m.(live := EnterKey(m.live))
    case Clear(prompt) => m.(live := ClearKey(m.live, prompt))
    case ReadLine => m.(live := ResetKeys(m.live))
    case SwitchTo(tid) =>
      var saved := m.saved[m.cur := m.live];
      m.(cur := tid, live := saved[tid], saved := saved)
  }

  function View(m: Machine, t: nat): (r: Term)
    requires MachineOk(m) && t < Processes.TERMINALS
    ensures TermOk(r)
  {
    if t == m.cur then m.live else m.saved[t]
  }

  // ----- a terminal of one's own

  /** The shared stop column is an input of the one key that uses it. */
  datatype PrivateEvent = Own(e: Event) | OwnErase(stop: nat)

  function PrivateStep(t: Term, e: PrivateEvent): (r: Term)
    requires TermOk(t)
    ensures TermOk(r)
  {
    match e
    case OwnErase(stop) => EraseKey(t, stop)
    case Own(Print(c)) => t.(display := Put(t.display, c))
    case Own(Write(s)) => t.(display := PutAll(t.display, s))
    case Own(Type(c)) => TypeKey(t, c)
    case Own(Enter) => EnterKey(t)
    case Own(Clear(prompt)) => ClearKey(t, prompt)
    case Own(ReadLine) => ResetKeys(t)
    case Own(Erase) => t
    case Own(SwitchTo(_)) => t
  }

  function PrivateRun(t: Term, events: seq<PrivateEvent>): (r: Term)
    requires TermOk(t)
    ensures TermOk(r)
    decreases |events|
  {
    if events == [] then t else PrivateRun(PrivateStep(t, events[0]), events[1..])
  }

  predicate EventsOk(m: Machine, events: seq<Event>)
    requires MachineOk(m)
    decreases |events|
  {
    events == [] || (Allowed(m, events[0]) && EventsOk(Step(m, events[0]), events[1..]))
  }

  function Run(m: Machine, events: seq<Event>): (r: Machine)
    requires MachineOk(m) && EventsOk(m, events)
    ensures MachineOk(r)
    decreases |events|
  {
    if events == [] then m else Run(Step(m, events[0]), events[1..])
  }

  /** What terminal `t` takes part in: the events that happen while it is on display. */
  function Share(m: Machine, e: Event, t: nat): seq<PrivateEvent> {
    if e.SwitchTo? || m.cur != t then []
    else if e.Erase? then [OwnErase(m.stop)]
    else [Own(e)]
  }

  function Project(m: Machine, events: seq<Event>, t: nat): seq<PrivateEvent>
    requires MachineOk(m) && EventsOk(m, events)
    decreases |events|
  {
    if events == [] then [] else Share(m, events[0], t) + Project(Step(m, events[0]), events[1..], t)
  }

  /** One event changes no terminal but the one on display, and that one as if it were alone. */
  lemma StepIsPrivate(m: Machine, e: Event, t: nat)
    requires MachineOk(m) && t < Processes.TERMINALS && Allowed(m, e)
    ensures View(Step(m, e), t) == PrivateRun(View(m, t), Share(m, e, t))
  {
    hide Put;
    var share := Share(m, e, t);
    if share != [] {
      assert share[1..] == [];
      assert PrivateRun(View(m, t), share) == PrivateRun(PrivateStep(View(m, t), share[0]), []);
    }
  }

  lemma {:induction false} PrivateRunConcat(t: Term, a: seq<PrivateEvent>, b: seq<PrivateEvent>)
    requires TermOk(t)
    ensures PrivateRun(t, a + b) == PrivateRun(PrivateRun(t, a), b)
    decreases |a|
  {
    hide PrivateStep;
    if a == [] {
      assert a + b == b;
    } else {
      assert (a + b)[1..] == a[1..] + b;
      PrivateRunConcat(PrivateStep(t, a[0]), a[1..], b);
    }
  }

  /** Over every interleaving of output, keys and switches, each terminal's page, cursor, key
      buffer and index are what they would be had it never been switched away. */
  lemma {:induction false} RunsArePrivate(m: Machine, events: seq<Event>, t: nat)
    requires MachineOk(m) && EventsOk(m, events) && t < Processes.TERMINALS
    ensures View(Run(m, events), t) == PrivateRun(View(m, t), Project(m, events, t))
    decreases |events|
  {
    hide Step;
    hide Share;
    hide PrivateStep;
    hide View;
    hide Allowed;
    if events != [] {
      StepIsPrivate(m, events[0], t);
      RunsArePrivate(Step(m, events[0]), events[1..], t);
      PrivateRunConcat(View(m, t), Share(m, events[0], t), Project(Step(m, events[0]), events[1..], t));
    }
  }

  // ----- a line typed while other terminals come and go

  /** Nothing but printing keys and backspaces. */
  ghost predicate OnlyKeys(events: seq<PrivateEvent>) {
    forall i :: 0 <= i < |events| ==> events[i].OwnErase? || (events[i].e.Type? && !Breaks(events[i].e.c))
  }

  function KeyOf(e: PrivateEvent): Key {
    match e
    case OwnErase(stop) => Backspace(stop)
    case Own(Type(c)) => Char(c)
    case _ => Char(NUL)
  }

  function KeysOf(events: seq<PrivateEvent>): (keys: seq<Key>)
    ensures |keys| == |events|
  {
    seq(|events|, i requires 0 <= i < |events| => KeyOf(events[i]))
  }

  lemma {:induction false} PressedPrivately(t: Term, events: seq<PrivateEvent>)
    requires TermOk(t) && OnlyKeys(events)
    ensures PrivateRun(t, events) == PressAll(t, KeysOf(events))
  {
    hide TypeKey;
    hide EraseKey;
    if events != [] {
      var front, last := events[..|events| - 1], events[|events| - 1];
      assert events == front + [last];
      assert KeysOf(events)[..|events| - 1] == KeysOf(front);
      PressedPrivately(t, front);
      PrivateRunConcat(t, front, [last]);
      OneEvent(PrivateRun(t, front), last);
      assert last.OwnErase? || last.e.Type?;
    }
  }

  lemma OneEvent(t: Term, e: PrivateEvent)
    requires TermOk(t)
    ensures PrivateRun(t, [e]) == PrivateStep(t, e)
  {
    hide PrivateStep;
    assert [e][1..] == [];
    assert PrivateRun(PrivateStep(t, e), []) == PrivateStep(t, e);
  }

  /** A line typed at a terminal's prompt is the reference editor's, on that terminal's screen and
      in its key buffer, whatever happens on the other terminals and however often they are
      switched to in between. Each backspace stops in the column that the last write, on any
      terminal, had left. */
  lemma LineAcrossSwitches(m: Machine, events: seq<Event>, t: nat)
    requires MachineOk(m) && EventsOk(m, events) && t < Processes.TERMINALS && View(m, t).index == 0
    requires OnlyKeys(Project(m, events, t))
    requires InBuffer(Line([], View(m, t).kb), KeysOf(Project(m, events, t)), View(m, t).display.x)
    ensures var v, keys := View(m, t), KeysOf(Project(m, events, t));
      Holds(View(Run(m, events), t), Edited(Line([], v.kb), keys, v.display.x), v.display.x)
  {
    hide Holds;
    hide Edited;
    hide PressAll;
    hide PrivateRun;
    hide Project;
    hide InBuffer;
    hide Run;
    var mine := Project(m, events, t);
    RunsArePrivate(m, events, t);
    PressedPrivately(View(m, t), mine);
    KeysAreGlyphs(mine);
    EditorHolds(View(m, t), KeysOf(mine));
  }

  lemma KeysAreGlyphs(events: seq<PrivateEvent>)
    requires OnlyKeys(events)
    ensures Glyphs(KeysOf(events))
  {
    forall i | 0 <= i < |events| ensures KeysOf(events)[i].Char? ==> !Breaks(KeysOf(events)[i].c) {
      assert events[i].OwnErase? || events[i].e.Type?;
    }
  }

  // ----- a prompt, and the line typed at it

  /** No program writes anything. */
  ghost predicate NoWrites(events: seq<Event>) {
    forall i :: 0 <= i < |events| ==> !events[i].Write? || events[i].s == []
  }

  lemma {:induction false} RunMore(m: Machine, events: seq<Event>, e: Event)
    requires MachineOk(m)
    ensures EventsOk(m, events + [e]) <==> EventsOk(m, events) && Allowed(Run(m, events), e)
    ensures EventsOk(m, events + [e]) ==> Run(m, events + [e]) == Step(Run(m, events), e)
    decreases |events|
  {
    hide Step;
    hide Allowed;
    if events == [] {
      assert [] + [e] == [e] && [e][1..] == [];
      assert Allowed(m, e) ==> EventsOk(Step(m, e), []) && Run(Step(m, e), []) == Step(m, e);
    } else {
      assert (events + [e])[0] == events[0] && (events + [e])[1..] == events[1..] + [e];
      if Allowed(m, events[0]) { RunMore(Step(m, events[0]), events[1..], e); }
    }
  }

  lemma {:induction false} ProjectMore(m: Machine, events: seq<Event>, e: Event, t: nat)
    requires MachineOk(m) && EventsOk(m, events + [e])
    ensures EventsOk(m, events) && Project(m, events + [e], t) == Project(m, events, t) + Share(Run(m, events), e, t)
    decreases |events|
  {
    hide Step;
    hide Allowed;
    hide Share;
    RunMore(m, events, e);
    if events == [] {
      assert [] + [e] == [e] && [e][1..] == [];
    } else {
      assert (events + [e])[0] == events[0] && (events + [e])[1..] == events[1..] + [e];
      ProjectMore(Step(m, events[0]), events[1..], e, t);
    }
  }

  /** Only a program's output moves the stop column. */
  lemma {:induction false} StopStays(m: Machine, events: seq<Event>)
    requires MachineOk(m) && EventsOk(m, events) && NoWrites(events)
    ensures Run(m, events).stop == m.stop
    decreases |events|
  {
    if events != [] {
      assert !events[0].Write? || events[0].s == [];
      StopStays(Step(m, events[0]), events[1..]);
    }
  }

  /** A prompt cannot be erased: right after a program's output, with nothing typed, a backspace
      is safe and does nothing. */
  lemma PromptStays(m: Machine, prompt: seq<byte>)
    requires MachineOk(m) && prompt != [] && m.live.index == 0
    ensures var w := Step(m, Write(prompt)); Allowed(w, Erase) && Step(w, Erase) == w
  {
    hide PutAll;
  }

  /** Printing keys and backspaces, as the machine gets them and as the line editor sees them with
      every backspace stopping in the prompt's column. */
  ghost predicate KeyEvents(events: seq<Event>) {
    forall i :: 0 <= i < |events| ==> events[i].Erase? || (events[i].Type? && !Breaks(events[i].c))
  }

  function AsKey(e: Event, col: nat): Key {
    if e.Type? then Char(e.c) else Backspace(col)
  }

  function AsKeys(events: seq<Event>, col: nat): (keys: seq<Key>)
    ensures |keys| == |events|
  {
    seq(|events|, i requires 0 <= i < |events| => AsKey(events[i], col))
  }

  /** No backspace with all 128 characters typed. */
  ghost predicate Room(start: Line, keys: seq<Key>, col: nat) {
    forall i :: 0 <= i < |keys| && keys[i].Backspace? ==> |Edited(start, keys[..i], col).text| < KB_SIZE
  }

  /** Whatever is typed at a prompt a program has just written, every key is safe, and the line is
      the reference editor's with every backspace stopping in the prompt's column. */
  lemma {:induction false} TypedAtPrompt(m: Machine, prompt: seq<byte>, events: seq<Event>)
    requires MachineOk(m) && prompt != [] && m.live.index == 0 && KeyEvents(events)
    requires var live := Step(m, Write(prompt)).live; Room(Line([], live.kb), AsKeys(events, live.display.x), live.display.x)
    ensures var w := Step(m, Write(prompt)); var col, keys := w.live.display.x, AsKeys(events, w.live.display.x);
      && EventsOk(w, events)
      && Run(w, events).live == PressAll(w.live, keys)
      && Holds(Run(w, events).live, Edited(Line([], w.live.kb), keys, col), col)
    decreases |events|
  {
    hide PutAll;
    hide Holds;
    hide Edited;
    var w := Step(m, Write(prompt));
    var col, keys, start := w.live.display.x, AsKeys(events, w.live.display.x), Line([], w.live.kb);
    RoomIsInBuffer(start, keys, col);
    KeyGlyphs(events, col);
    EditorHolds(w.live, keys);
    if events != [] {
      var front, last := events[..|events| - 1], events[|events| - 1];
      assert events == front + [last] && AsKeys(front, col) == keys[..|keys| - 1];
      FrontRoom(start, keys, col);
      TypedAtPrompt(m, prompt, front);
      assert !last.Write?;
      FrontHasNoWrites(front);
      StopStays(w, front);
      assert keys == AsKeys(front, col) + [AsKey(last, col)];
      assert last.Erase? ==> keys[|keys| - 1].Backspace?;
      LastIsAllowed(Run(w, front), w.live, AsKeys(front, col), last);
      RunMore(w, front, last);
    }
  }

  lemma LastIsAllowed(now: Machine, t: Term, keys: seq<Key>, last: Event)
    requires MachineOk(now) && TermOk(t) && (last.Erase? || last.Type?) && now.live == PressAll(t, keys)
    requires last.Erase? ==> StoresInside(now.live, now.stop)
    ensures Allowed(now, last)
    ensures Step(now, last).live == PressAll(t, keys + [AsKey(last, now.stop)])
  {
    hide StoresInside;
    hide TypeKey;
    hide EraseKey;
    PressMore(t, keys, AsKey(last, now.stop));
    hide PressAll;
  }

  lemma PressMore(t: Term, keys: seq<Key>, k: Key)
    requires TermOk(t)
    ensures PressAll(t, keys + [k]) == Press(PressAll(t, keys), k)
  {
    hide Press;
    assert (keys + [k])[..|keys|] == keys;
  }

  lemma FrontHasNoWrites(events: seq<Event>)
    requires KeyEvents(events)
    ensures NoWrites(events)
  {
    forall i | 0 <= i < |events| ensures !events[i].Write? {
      assert events[i].Erase? || events[i].Type?;
    }
  }

  lemma KeyGlyphs(events: seq<Event>, col: nat)
    requires KeyEvents(events)
    ensures Glyphs(AsKeys(events, col))
  {
    forall i | 0 <= i < |events| ensures AsKeys(events, col)[i].Char? ==> !Breaks(AsKeys(events, col)[i].c) {
      assert events[i].Erase? || events[i].Type?;
    }
  }

  lemma RoomIsInBuffer(start: Line, keys: seq<Key>, col: nat)
    requires Room(start, keys, col) && forall i :: 0 <= i < |keys| && keys[i].Backspace? ==> keys[i].stop == col
    ensures InBuffer(start, keys, col)
  {
    hide Edited;
  }

  lemma FrontRoom(start: Line, keys: seq<Key>, col: nat)
    requires Room(start, keys, col) && keys != []
    ensures Room(start, keys[..|keys| - 1], col)
  {
    hide Edited;
    forall i | 0 <= i < |keys| - 1 ensures keys[..|keys| - 1][..i] == keys[..i] && keys[..|keys| - 1][i] == keys[i] {
    }
  }

  /** The same line, typed while other terminals are switched to and typed on, for as long as no
      program writes: each backspace stops in the prompt's column, and none that the machine allows
      finds the buffer full. */
  lemma {:induction false} PromptedLineAcrossSwitches(m: Machine, prompt: seq<byte>, events: seq<Event>)
    requires MachineOk(m) && prompt != [] && m.live.index == 0
    requires var w := Step(m, Write(prompt)); EventsOk(w, events) && NoWrites(events) && OnlyKeys(Project(w, events, m.cur))
    ensures var w := Step(m, Write(prompt)); var col, keys := w.live.display.x, KeysOf(Project(w, events, m.cur));
      && (forall i :: 0 <= i < |keys| && keys[i].Backspace? ==> keys[i].stop == col)
      && InBuffer(Line([], w.live.kb), keys, col)
      && Holds(View(Run(w, events), m.cur), Edited(Line([], w.live.kb), keys, col), col)
    decreases |events|
  {
    hide PutAll;
    hide Holds;
    hide Edited;
    hide InBuffer;
    hide EventsOk;
    hide Project;
    hide Run;
    hide OnlyKeys;
    var w, t := Step(m, Write(prompt)), m.cur;
    var start, col := Line([], w.live.kb), w.live.display.x;
    if events == [] {
      NothingProjected(w, t, col);
    } else {
      var front, last := events[..|events| - 1], events[|events| - 1];
      assert events == front + [last] && NoWrites(front);
      RunMore(w, front, last);
      ProjectMore(w, front, last, t);
      var before, share := Project(w, front, t), Share(Run(w, front), last, t);
      OnlyKeysSplit(before, share);
      PromptedLineAcrossSwitches(m, prompt, front);
      StopStays(w, front);
      KeysConcat(before, share);
      if share == [] {
        assert before + share == before;
      } else {
        LastKeyFits(Run(w, front), last, t, Edited(start, KeysOf(before), col), col);
        InBufferMore(start, KeysOf(before), KeyOf(share[0]), col);
        assert KeysOf(share) == [KeyOf(share[0])];
      }
    }
    LineAcrossSwitches(w, events, t);
  }

  lemma NothingProjected(w: Machine, t: nat, col: nat)
    requires MachineOk(w)
    ensures EventsOk(w, []) && Project(w, [], t) == [] && InBuffer(Line([], w.live.kb), KeysOf([]), col)
  {
  }

  lemma OnlyKeysSplit(a: seq<PrivateEvent>, b: seq<PrivateEvent>)
    requires OnlyKeys(a + b)
    ensures OnlyKeys(a) && OnlyKeys(b)
  {
    forall i | 0 <= i < |a| ensures a[i].OwnErase? || (a[i].e.Type? && !Breaks(a[i].e.c)) { assert (a + b)[i] == a[i]; }
    forall i | 0 <= i < |b| ensures b[i].OwnErase? || (b[i].e.Type? && !Breaks(b[i].e.c)) { assert (a + b)[|a| + i] == b[i]; }
  }

  lemma KeysConcat(a: seq<PrivateEvent>, b: seq<PrivateEvent>)
    ensures KeysOf(a + b) == KeysOf(a) + KeysOf(b)
  {
  }

  lemma InBufferMore(start: Line, keys: seq<Key>, k: Key, col: nat)
    requires InBuffer(start, keys, col)
    requires k.Backspace? ==> var text := Edited(start, keys, col).text; |text| < KB_SIZE && (text == [] ==> k.stop == col)
    ensures InBuffer(start, keys + [k], col)
  {
    hide Edited;
    var all := keys + [k];
    forall i | 0 <= i < |all| && all[i].Backspace?
      ensures var text := Edited(start, all[..i], col).text; |text| < KB_SIZE && (text == [] ==> all[i].stop == col)
    {
      assert all[..i] == if i < |keys| then keys[..i] else keys;
    }
  }

  /** A backspace that the machine allows at a line from this prompt does not find it full. */
  lemma LastKeyFits(now: Machine, e: Event, t: nat, line: Line, col: nat)
    requires MachineOk(now) && Allowed(now, e) && Share(now, e, t) != [] && t < Processes.TERMINALS
    requires Holds(View(now, t), line, col) && now.stop == col
    ensures var k := KeyOf(Share(now, e, t)[0]);
      k.Backspace? ==> |line.text| < KB_SIZE && k.stop == col
  {
    hide CellsHold;
    hide EndColumn;
    CursorColumn(now.live, line, col);
    HoldsIsOk(now.live, line, col);
    assert KB_SIZE % COLS == 48;
    if |line.text| == KB_SIZE {
      NotAtHome(now.live);
    }
  }

  lemma NotAtHome(t: Term)
    requires TermOk(t) && Cursor(t.display) > 0
    ensures t.display.x != 0 || t.display.y != 0
  {
  }

  // ----- every terminal's screen is a window on its own log

  /** The characters an event puts on a terminal's screen. Enter moves on as a newline does. */
  function Echo(t: Term, e: PrivateEvent): seq<byte> {
    match e
    case Own(Print(c)) => [c]
    case Own(Write(s)) => s
    case Own(Type(c)) => if t.index < KB_SIZE then [c] else []
    case Own(Enter) => [NEWLINE]
    case _ => []
  }

  /** What has been printed since the screen was last cleared; `sofar` before the events. */
  function EchoSince(t: Term, events: seq<PrivateEvent>, sofar: seq<byte>): seq<byte>
    requires TermOk(t)
    decreases |events|
  {
    if events == [] then sofar else EchoSince(PrivateStep(t, events[0]), events[1..], Continued(t, events[0], sofar))
  }

  /** Ctrl-L starts over, with the prompt if there is one. */
  function Continued(t: Term, e: PrivateEvent, sofar: seq<byte>): seq<byte> {
    match e
    case Own(Clear(prompt)) => if prompt then PROMPT else []
    case _ => sofar + Echo(t, e)
  }

  ghost predicate NoErase(events: seq<PrivateEvent>) {
    forall i :: 0 <= i < |events| ==> !events[i].OwnErase?
  }

  /** The display is what printing `s` on a cleared screen leaves. */
  ghost predicate Printed(d: Display, s: seq<byte>) {
    exists page :: PrintedFrom(page, d, s)
  }

  ghost predicate PrintedFrom(page: seq<byte>, d: Display, s: seq<byte>) {
    |page| == PAGE && d == PutAll(Display(Cleared(page), 0, 0), s)
  }

  lemma {:induction false} PutAllConcat(d: Display, a: seq<byte>, b: seq<byte>)
    requires DisplayOk(d)
    ensures PutAll(d, a + b) == PutAll(PutAll(d, a), b)
    decreases |a|
  {
    hide Put;
    if a == [] {
      assert a + b == b;
    } else {
      assert (a + b)[1..] == a[1..] + b;
      PutAllConcat(Put(d, a[0]), a[1..], b);
    }
  }

  lemma EchoStep(t: Term, e: PrivateEvent)
    requires TermOk(t) && !e.OwnErase? && !e.e.Clear?
    ensures PrivateStep(t, e).display == PutAll(t.display, Echo(t, e))
  {
    hide NextRow;
    var echo := Echo(t, e);
    if |echo| == 1 {
      assert echo[1..] == [];
      assert PutAll(t.display, echo) == PutAll(Put(t.display, echo[0]), []);
    }
  }

  lemma NothingPrinted(page: seq<byte>)
    requires |page| == PAGE
    ensures Printed(Display(Cleared(page), 0, 0), [])
  {
    PutNothing(Display(Cleared(page), 0, 0));
    assert PrintedFrom(page, Display(Cleared(page), 0, 0), []);
  }

  lemma ClearStep(t: Term, prompt: bool)
    requires TermOk(t)
    ensures Printed(ClearKey(t, prompt).display, if prompt then PROMPT else [])
  {
    ClearedTo(t, prompt);
    hide PrintedFrom;
  }

  lemma ClearedTo(t: Term, prompt: bool)
    requires TermOk(t)
    ensures PrintedFrom(t.display.page, ClearKey(t, prompt).display, if prompt then PROMPT else [])
  {
    hide PutAll;
    hide Cleared;
    var home := Display(Cleared(t.display.page), 0, 0);
    PutInRow(home, PROMPT);
    PutNothing(home);
  }

  lemma PutNothing(d: Display)
    requires DisplayOk(d)
    ensures PutAll(d, []) == d
  {
  }

  lemma PrintedStep(t: Term, e: PrivateEvent, sofar: seq<byte>)
    requires TermOk(t) && !e.OwnErase? && Printed(t.display, sofar)
    ensures Printed(PrivateStep(t, e).display, Continued(t, e, sofar))
  {
    hide PrintedFrom;
    hide ClearKey;
    if e.e.Clear? {
      ClearStep(t, e.e.prompt);
    } else {
      var page :| PrintedFrom(page, t.display, sofar);
      PrintedMore(page, t, e, sofar);
    }
  }

  lemma PrintedMore(page: seq<byte>, t: Term, e: PrivateEvent, sofar: seq<byte>)
    requires TermOk(t) && !e.OwnErase? && !e.e.Clear? && PrintedFrom(page, t.display, sofar)
    ensures PrintedFrom(page, PrivateStep(t, e).display, sofar + Echo(t, e))
  {
    hide PutAll;
    hide Cleared;
    hide PrivateStep;
    hide Echo;
    EchoStep(t, e);
    PutAllConcat(Display(Cleared(page), 0, 0), sofar, Echo(t, e));
  }

  /** Without backspaces, a terminal displays what printing everything since it was last cleared
      displays: its output and the keys it echoed, in order. */
  lemma {:induction false} EchoedDisplay(t: Term, events: seq<PrivateEvent>, sofar: seq<byte>)
    requires TermOk(t) && NoErase(events) && Printed(t.display, sofar)
    ensures Printed(PrivateRun(t, events).display, EchoSince(t, events, sofar))
    decreases |events|
  {
    hide PrivateStep;
    hide Continued;
    hide Printed;
    if events != [] {
      assert !events[0].OwnErase? && NoErase(events[1..]);
      PrintedStep(t, events[0], sofar);
      EchoedDisplay(PrivateStep(t, events[0]), events[1..], Continued(t, events[0], sofar));
    }
  }

  lemma ShowsPrinted(d: Display, s: seq<byte>)
    requires Printed(d, s)
    ensures Shows(d, Log(s))
  {
    hide PutAll;
    hide Shows;
    hide Log;
    hide Cleared;
    var page :| PrintedFrom(page, d, s);
    PrintedShows(page, s);
  }

  /** On any run of the machine, the page of a terminal shows the last 25 rows of the log of
      everything printed and echoed to that terminal since it was last cleared, whatever the other
      terminals did in between (backspace on the terminal itself excepted). */
  lemma EveryTerminalShowsItsLog(m: Machine, events: seq<Event>, t: nat, sofar: seq<byte>)
    requires MachineOk(m) && EventsOk(m, events) && t < Processes.TERMINALS
    requires Printed(View(m, t).display, sofar) && NoErase(Project(m, events, t))
    ensures Shows(View(Run(m, events), t).display, Log(EchoSince(View(m, t), Project(m, events, t), sofar)))
  {
    hide Shows;
    hide Log;
    hide Printed;
    hide EchoSince;
    RunsArePrivate(m, events, t);
    EchoedDisplay(View(m, t), Project(m, events, t), sofar);
    ShowsPrinted(View(Run(m, events), t).display, EchoSince(View(m, t), Project(m, events, t), sofar));
  }
}
