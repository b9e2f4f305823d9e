/** What a blinker alone at its location shows, whatever happens elsewhere on the screen. */
module BlinkLaws {
  import opened Bytes
  import opened Blink
  import opened Arithmetic

  /** The number of ticks a length stands for. Zero counts as one; a length over 32768 reads as a
      negative countdown and counts as one too. */
  function Eff(length: nat): (n: nat)
    ensures n > 0
  {
    if 1 <= length <= 0x8000 then length else 1
  }

  function After(b: Blinker, n: nat): Blinker {
    if n == 0 then b else TickOne(After(b, n - 1))
  }

  function CharOf(b: Blinker): byte { if IsOn(b) then b.onChar else b.offChar }

  function Period(b: Blinker): (n: nat)
    ensures n > 0
  {
    Eff(b.onLength) + Eff(b.offLength)
  }

  /** One tick takes one from the ticks a countdown has left, and starts the other phase when
      only one was left. */
  lemma TickCounts(b: Blinker)
    requires Word16(b)
    ensures var c := TickOne(b);
      && Word16(c) && c.location == b.location && c.onChar == b.onChar && c.offChar == b.offChar
      && c.onLength == b.onLength && c.offLength == b.offLength
      && (Fires(b) <==> Eff(b.countdown) == 1)
      && if Fires(b) then IsOn(c) == !IsOn(b) && c.countdown == if IsOn(b) then b.offLength else b.onLength
         else IsOn(c) == IsOn(b) && Eff(c.countdown) == Eff(b.countdown) - 1
  {
    if IsOn(b) { assert (b.status - 1) % 2 == 0; } else { assert (b.status + 1) % 2 == 1; }
  }

  /** The phase of a blinker `n` ticks after it was added. */
  lemma {:induction false} Phase(b: Blinker, n: nat)
    requires Word16(b) && IsOn(b) && b.countdown == b.onLength
    ensures var c, r := After(b, n), n % Period(b);
      && Word16(c) && c.location == b.location && c.onChar == b.onChar && c.offChar == b.offChar
      && c.onLength == b.onLength && c.offLength == b.offLength
      && (IsOn(c) <==> r < Eff(b.onLength))
      && Eff(c.countdown) == if r < Eff(b.onLength) then Eff(b.onLength) - r else Period(b) - r
  {
    if n > 0 {
      Phase(b, n - 1);
      TickCounts(After(b, n - 1));
      NextRemainder(n - 1, Period(b));
    } else {
      SmallRemainder(Period(b));
    }
  }

  lemma SmallRemainder(p: nat)
    requires p > 0
    ensures 0 % p == 0
  {
  }

  lemma NextRemainder(n: nat, p: nat)
    requires p > 0
    ensures (n + 1) % p == if n % p + 1 == p then 0 else n % p + 1
  {
    var q, r := n / p, n % p;
    assert n == p * q + r;
    if r + 1 == p {
      assert n + 1 == p * (q + 1);
      Divided(n + 1, p, q + 1, 0);
    } else {
      Divided(n + 1, p, q, r + 1);
    }
  }

  // ----- runs

  datatype Event = AddEvent(arg: Blinker) | RemoveEvent(word: nat) | TickEvent

  /** The blinkers of a list that sit at one location, in list order. */
  function At(list: seq<Blinker>, location: nat): seq<Blinker> {
    if list == [] then []
    else (if list[0].location == location then [list[0]] else []) + At(list[1..], location)
  }

  ghost predicate EventOk(e: Event) {
    e.AddEvent? ==> e.arg.location != 0 && Word16(e.arg)
  }

  ghost predicate Elsewhere(e: Event, location: nat) {
    match e
    case AddEvent(arg) => arg.location != location
    case RemoveEvent(word) => Low16(word) != location
    case TickEvent => true
  }

  function AfterEvent(s: Picture, e: Event): Picture
    requires |s.video| == VIDEO_SIZE && forall k :: 0 <= k < |s.list| ==> s.list[k].location < NODES
  {
    match e
    case AddEvent(arg) => AddSpec(s, arg)
    case RemoveEvent(word) => RemoveSpec(s, word)
    case TickEvent => TickSpec(s)
  }

  lemma {:induction false} TickVideoSize(list: seq<Blinker>, video: seq<byte>)
    requires |video| == VIDEO_SIZE && forall k :: 0 <= k < |list| ==> list[k].location < NODES
    ensures |TickVideo(list, video)| == VIDEO_SIZE
  {
    if list != [] {
      TickVideoSize(list[1..], if Fires(list[0]) then video[2 * list[0].location := Shown(list[0])] else video);
    }
  }

  lemma EventKeepsPicture(s: Picture, e: Event)
    requires PictureOk(s) && EventOk(e)
    ensures PictureOk(AfterEvent(s, e))
  {
    match e
    case AddEvent(arg) =>
    case RemoveEvent(word) =>
    case TickEvent =>
      TickVideoSize(s.list, s.video);
      forall k | 0 <= k < |s.list| ensures 0 < TickOne(s.list[k]).location < NODES && Word16(TickOne(s.list[k])) {
        TickCounts(s.list[k]);
      }
  }

  ghost function Run(s: Picture, events: seq<Event>): (s': Picture)
    requires PictureOk(s) && forall i :: 0 <= i < |events| ==> EventOk(events[i])
    ensures PictureOk(s')
    decreases |events|
  {
    if events == [] then s
    else EventKeepsPicture(s, events[0]); Run(AfterEvent(s, events[0]), events[1..])
  }

  function Ticks(events: seq<Event>): nat {
    if events == [] then 0 else (if events[0].TickEvent? then 1 else 0) + Ticks(events[1..])
  }

  // ----- one location at a time

  lemma AtHead(list: seq<Blinker>, location: nat)
    requires list != []
    ensures At(list, location) == (if list[0].location == location then [list[0]] else []) + At(list[1..], location)
  {
  }

  lemma {:induction false} AtConcat(a: seq<Blinker>, b: seq<Blinker>, location: nat)
    ensures At(a + b, location) == At(a, location) + At(b, location)
  {
    if a == [] {
      assert a + b == b;
    } else {
      assert (a + b)[0] == a[0] && (a + b)[1..] == a[1..] + b;
      AtConcat(a[1..], b, location);
      AtHead(a + b, location);
      AtHead(a, location);
      hide At;
    }
  }

  /** A removal takes one blinker off the front of its own location and none elsewhere. */
  lemma {:induction false} AtWithout(list: seq<Blinker>, l: nat, location: nat)
    ensures At(Without(list, l), location) ==
      if l == location && At(list, location) != [] then At(list, location)[1..] else At(list, location)
  {
    var k := FirstAt(list, l);
    NoneBefore(list, l, k);
    if k < |list| {
      assert list == list[..k] + ([list[k]] + list[k + 1..]);
      AtConcat(list[..k], [list[k]] + list[k + 1..], location);
      AtConcat(list[..k], list[k + 1..], location);
      AtHead([list[k]] + list[k + 1..], location);
      assert ([list[k]] + list[k + 1..])[1..] == list[k + 1..];
      hide At;
    } else {
      assert list[..k] == list;
    }
  }

  lemma {:induction false} NoneBefore(list: seq<Blinker>, l: nat, k: nat)
    requires k <= |list| && forall j :: 0 <= j < k ==> list[j].location != l
    ensures At(list[..k], l) == []
  {
    if k > 0 {
      assert list[..k][1..] == list[1..][..k - 1];
      NoneBefore(list[1..], l, k - 1);
    }
  }

  lemma {:induction false} AtTick(list: seq<Blinker>, location: nat)
    requires forall k :: 0 <= k < |list| ==> Word16(list[k])
    ensures At(TickList(list), location) == TickList(At(list, location))
  {
    if list != [] {
      TickCounts(list[0]);
      assert TickList(list) == [TickOne(list[0])] + TickList(list[1..]);
      assert TickList(list)[1..] == TickList(list[1..]);
      AtTick(list[1..], location);
    }
  }

  /** A cell changes at a tick only through the blinkers at its location. */
  lemma {:induction false} CellAtTick(list: seq<Blinker>, video: seq<byte>, location: nat)
    requires |video| == VIDEO_SIZE && location < NODES
    requires forall k :: 0 <= k < |list| ==> list[k].location < NODES
    requires |At(list, location)| <= 1
    ensures |TickVideo(list, video)| == VIDEO_SIZE
    ensures TickVideo(list, video)[2 * location] ==
      var at := At(list, location); if at != [] && Fires(at[0]) then Shown(at[0]) else video[2 * location]
  {
    if list != [] {
      var b := list[0];
      CellAtTick(list[1..], if Fires(b) then video[2 * b.location := Shown(b)] else video, location);
    }
  }

  /** The invariant of the run: exactly `b` sits at `location`, and the cell shows it. */
  ghost predicate Showing(s: Picture, location: nat, b: Blinker) {
    PictureOk(s) && location < NODES && At(s.list, location) == [b] && b.location == location && s.video[2 * location] == CharOf(b)
  }

  lemma ShowingStep(s: Picture, e: Event, location: nat, b: Blinker)
    requires Showing(s, location, b) && Word16(b) && EventOk(e) && Elsewhere(e, location)
    ensures Showing(AfterEvent(s, e), location, if e.TickEvent? then TickOne(b) else b)
  {
    EventKeepsPicture(s, e);
    match e
    case AddEvent(arg) =>
      if arg.location < NODES && |s.list| != NODES {
        AtConcat([Added(arg)], s.list, location);
        assert ([Added(arg)] + s.list)[1..] == s.list;
      }
    case RemoveEvent(word) => AtWithout(s.list, Low16(word), location);
    case TickEvent =>
      AtTick(s.list, location);
      CellAtTick(s.list, s.video, location);
      TickCounts(b);
      assert TickList([b]) == [TickOne(b)];
  }

  lemma {:induction false} AfterShift(b: Blinker, n: nat)
    ensures After(TickOne(b), n) == After(b, n + 1)
  {
    if n > 0 { AfterShift(b, n - 1); }
  }

  lemma {:induction false} ShowingRun(s: Picture, events: seq<Event>, location: nat, b: Blinker)
    requires Showing(s, location, b) && Word16(b)
    requires forall i :: 0 <= i < |events| ==> EventOk(events[i]) && Elsewhere(events[i], location)
    ensures Showing(Run(s, events), location, After(b, Ticks(events)))
    decreases |events|
  {
    hide Showing;
    hide TickOne;
    hide Word16;
    hide AddSpec;
    hide RemoveSpec;
    hide TickSpec;
    assert PictureOk(s) by { ShowingIsOk(s, location, b); }
    if events != [] {
      var e := events[0];
      EventKeepsPicture(s, e);
      ShowingStep(s, e, location, b);
      TickCounts(b);
      var b' := if e.TickEvent? then TickOne(b) else b;
      ShowingRun(AfterEvent(s, e), events[1..], location, b');
      if e.TickEvent? { AfterShift(b, Ticks(events[1..])); }
    }
  }

  lemma ShowingIsOk(s: Picture, location: nat, b: Blinker)
    requires Showing(s, location, b)
    ensures PictureOk(s)
  {
  }

  lemma AddShows(s: Picture, arg: Blinker)
    requires PictureOk(s) && Word16(arg) && 0 < arg.location < NODES
    requires |s.list| < NODES && At(s.list, arg.location) == []
    ensures Showing(AddSpec(s, arg), arg.location, Added(arg))
  {
    EventKeepsPicture(s, AddEvent(arg));
    AtConcat([Added(arg)], s.list, arg.location);
  }

  /** Is tick `n` in the first `Eff(onLength)` ticks of the blinker's period? */
  predicate InOnPhase(b: Blinker, n: nat) {
    n % (Eff(b.onLength) + Eff(b.offLength)) < Eff(b.onLength)
  }

  /** A valid blinker about to be added where no other blinks. */
  ghost predicate Alone(s: Picture, arg: Blinker) {
    && PictureOk(s) && Word16(arg) && 0 < arg.location < NODES
    && |s.list| < NODES && At(s.list, arg.location) == []
  }

  ghost predicate AllElsewhere(events: seq<Event>, location: nat) {
    forall i :: 0 <= i < |events| ==> EventOk(events[i]) && Elsewhere(events[i], location)
  }

  /** What the blinker's cell shows after it is added and `events` happen. */
  ghost function CellAfter(s: Picture, arg: Blinker, events: seq<Event>): byte
    requires Alone(s, arg) && AllElsewhere(events, arg.location)
  {
    EventKeepsPicture(s, AddEvent(arg));
    Run(AddSpec(s, arg), events).video[2 * arg.location]
  }

  /** The exact period of a blinker added where no other blinks. After any events elsewhere with
      `n` ticks among them, its cell shows the on character exactly when `n` falls in the first
      `Eff(onLength)` ticks of the period. */
  lemma BlinkPeriod(s: Picture, arg: Blinker, events: seq<Event>)
    requires Alone(s, arg) && AllElsewhere(events, arg.location)
    ensures CellAfter(s, arg, events) == if InOnPhase(arg, Ticks(events)) then arg.onChar else arg.offChar
  {
    hide Run;
    hide At;
    hide AddSpec;
    hide Added;
    hide Word16;
    hide Showing;
    hide Ticks;
    hide InOnPhase;
    hide IsOn;
    hide EventOk;
    hide Elsewhere;
    AddShows(s, arg);
    AddedShape(arg, Ticks(events));
    ShowingIsOk(AddSpec(s, arg), arg.location, Added(arg));
    ShownFrom(AddSpec(s, arg), events, arg.location, Added(arg));
  }

  /** The period as the lengths say it. */
  predicate Literal(b: Blinker, n: nat) {
    b.onLength + b.offLength > 0 && n % (b.onLength + b.offLength) < b.onLength
  }

  predicate InRange(b: Blinker) {
    1 <= b.onLength <= 32768 && 1 <= b.offLength <= 32768
  }

  /** Outside the range some tick up to `onLength + 1` is in the wrong phase. */
  lemma WrongTick(b: Blinker) returns (n: nat)
    requires Word16(b) && !InRange(b)
    ensures InOnPhase(b, n) != Literal(b, n)
  {
    if b.onLength == 0 {
      SmallRemainder(Period(b));
      return 0;
    } else if b.onLength > 32768 {
      Divided(1, b.onLength + b.offLength, 0, 1);
      Divided(1, 1 + Eff(b.offLength), 0, 1);
      return 1;
    } else if b.offLength == 0 {
      Divided(b.onLength, b.onLength, 1, 0);
      Divided(b.onLength, b.onLength + 1, 0, b.onLength);
      return b.onLength;
    } else {
      Divided(b.onLength + 1, b.onLength + 1, 1, 0);
      Divided(b.onLength + 1, b.onLength + b.offLength, 0, b.onLength + 1);
      return b.onLength + 1;
    }
  }

  function JustTicks(n: nat): seq<Event> {
    seq(n, _ => TickEvent)
  }

  lemma {:induction false} JustTicksCount(n: nat, location: nat)
    ensures Ticks(JustTicks(n)) == n && AllElsewhere(JustTicks(n), location)
  {
    if n > 0 {
      assert JustTicks(n)[1..] == JustTicks(n - 1);
      JustTicksCount(n - 1, location);
    }
  }

  /** A blinker that is alone at its location and shows two different characters keeps the period
      its lengths say, over all events elsewhere, if and only if both lengths are 1 to 32768. */
  lemma BlinkMeetsIntent(s: Picture, arg: Blinker)
    requires Alone(s, arg) && arg.onChar != arg.offChar
    ensures (forall events :: AllElsewhere(events, arg.location) ==>
               CellAfter(s, arg, events) == if Literal(arg, Ticks(events)) then arg.onChar else arg.offChar)
       <==> InRange(arg)
  {
    hide Alone;
    hide AllElsewhere;
    hide CellAfter;
    hide Ticks;
    hide InOnPhase;
    hide Literal;
    if InRange(arg) {
      forall events | AllElsewhere(events, arg.location)
        ensures CellAfter(s, arg, events) == if Literal(arg, Ticks(events)) then arg.onChar else arg.offChar
      {
        BlinkPeriod(s, arg, events);
        LiteralPhase(arg, Ticks(events));
      }
    } else {
      AloneFits(s, arg);
      var n := WrongTick(arg);
      JustTicksCount(n, arg.location);
      BlinkPeriod(s, arg, JustTicks(n));
    }
  }

  lemma LiteralPhase(b: Blinker, n: nat)
    requires InRange(b)
    ensures InOnPhase(b, n) == Literal(b, n)
  {
  }

  lemma AloneFits(s: Picture, arg: Blinker)
    requires Alone(s, arg)
    ensures Word16(arg)
  {
  }

  lemma AddedShape(arg: Blinker, n: nat)
    requires Word16(arg)
    ensures var b := Added(arg);
      && Word16(b) && IsOn(b) && b.countdown == b.onLength
      && b.location == arg.location && b.onChar == arg.onChar && b.offChar == arg.offChar
      && InOnPhase(b, n) == InOnPhase(arg, n)
  {
    hide Eff;
  }

  lemma ShownFrom(s: Picture, events: seq<Event>, location: nat, b: Blinker)
    requires PictureOk(s) && Showing(s, location, b) && location < NODES
    requires Word16(b) && IsOn(b) && b.countdown == b.onLength
    requires forall i :: 0 <= i < |events| ==> EventOk(events[i]) && Elsewhere(events[i], location)
    ensures |Run(s, events).video| == VIDEO_SIZE
    ensures Run(s, events).video[2 * location] == if InOnPhase(b, Ticks(events)) then b.onChar else b.offChar
  {
    ShowingRun(s, events, location, b);
    hide *;
    ShowingCell(Run(s, events), location, After(b, Ticks(events)));
    PhaseShows(b, Ticks(events));
  }

  lemma ShowingCell(s: Picture, location: nat, b: Blinker)
    requires Showing(s, location, b)
    ensures PictureOk(s) && location < NODES && |s.video| == VIDEO_SIZE && s.video[2 * location] == CharOf(b)
  {
  }

  lemma PhaseShows(b: Blinker, n: nat)
    requires Word16(b) && IsOn(b) && b.countdown == b.onLength
    ensures CharOf(After(b, n)) == if InOnPhase(b, n) then b.onChar else b.offChar
  {
    hide After;
    hide Eff;
    Phase(b, n);
  }
}
