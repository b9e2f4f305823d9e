/** The blink list (fish/blink.S, with the node pool of fish/fish.c): a linked list threaded
    through a pool of 2000 nodes in which a zero location marks a free node, and a tick that
    counts every node down. Pointers into the pool are indices; a null pointer is -1. */
module Blink {
  import opened Bytes
  import opened Counting

  const NODES := 2000
  const VIDEO_SIZE := 4000
  const NULL := -1

  /** The fields are unsigned and 16 bits wide, the characters 8. */
  datatype Blinker = Blinker(location: nat, onChar: byte, offChar: byte, onLength: nat, offLength: nat,
                             countdown: nat, status: nat)

  datatype Node = Node(b: Blinker, next: int)

  const ZERO := Node(Blinker(0, 0, 0, 0, 0, 0, 0), NULL)

  ghost predicate Word16(b: Blinker) {
    && b.location < 0x1_0000 && b.onLength < 0x1_0000 && b.offLength < 0x1_0000
    && b.countdown < 0x1_0000 && b.status < 0x1_0000
  }

  // ----- what the operations do to the list, front first, and to the screen

  datatype Picture = Picture(list: seq<Blinker>, video: seq<byte>)

  ghost predicate PictureOk(s: Picture) {
    |s.video| == VIDEO_SIZE && forall k :: 0 <= k < |s.list| ==> 0 < s.list[k].location < NODES && Word16(s.list[k])
  }

  function Added(arg: Blinker): Blinker {
    arg.(status := 1, countdown := arg.onLength)
  }

  /** The first blinker at a location counted from the front, or the length of the list. */
  function FirstAt(list: seq<Blinker>, location: nat): (k: nat)
    ensures k <= |list|
    ensures forall j :: 0 <= j < k ==> list[j].location != location
    ensures k < |list| ==> list[k].location == location
  {
    if list == [] || list[0].location == location then 0 else 1 + FirstAt(list[1..], location)
  }

  function Without(list: seq<Blinker>, location: nat): seq<Blinker> {
    var k := FirstAt(list, location);
    if k < |list| then list[..k] + list[k + 1..] else list
  }

  /** The countdown as the signed 16-bit number the code compares with zero, one tick on. */
  function Decremented(b: Blinker): int {
    if b.countdown == 0 then -1
    else if b.countdown - 1 < 0x8000 then b.countdown - 1
    else b.countdown - 1 - 0x1_0000
  }

  predicate Fires(b: Blinker) { Decremented(b) <= 0 }

  predicate IsOn(b: Blinker) { b.status % 2 == 1 }

  function TickOne(b: Blinker): Blinker {
    if !Fires(b) then b.(countdown := b.countdown - 1)
    else if IsOn(b) then b.(countdown := b.offLength, status := b.status - 1)
    else b.(countdown := b.onLength, status := b.status + 1)
  }

  /** The character a firing blinker writes. */
  function Shown(b: Blinker): byte { if IsOn(b) then b.offChar else b.onChar }

  function TickVideo(list: seq<Blinker>, video: seq<byte>): seq<byte>
    requires |video| == VIDEO_SIZE && forall k :: 0 <= k < |list| ==> list[k].location < NODES
  {
    if list == [] then video
    else TickVideo(list[1..], if Fires(list[0]) then video[2 * list[0].location := Shown(list[0])] else video)
  }

  function TickList(list: seq<Blinker>): (r: seq<Blinker>)
    ensures |r| == |list|
  {
    seq(|list|, k requires 0 <= k < |list| => TickOne(list[k]))
  }

  function AddSpec(s: Picture, arg: Blinker): Picture
    requires |s.video| == VIDEO_SIZE
  {
    if arg.location >= NODES || |s.list| == NODES then s
    else Picture([Added(arg)] + s.list, s.video[2 * arg.location := arg.onChar])
  }

  /** The location a removal is for: the low 16 bits of its argument. */
  function Low16(arg: nat): nat { arg % 0x1_0000 }

  function RemoveSpec(s: Picture, arg: nat): Picture {
    s.(list := Without(s.list, Low16(arg)))
  }

  function TickSpec(s: Picture): Picture
    requires |s.video| == VIDEO_SIZE && forall k :: 0 <= k < |s.list| ==> s.list[k].location < NODES
  {
    Picture(TickList(s.list), TickVideo(s.list, s.video))
  }

  /** The high half of a removal's argument makes no difference. */
  lemma HighHalfIgnored(s: Picture, high: nat, location: nat)
    requires location < 65536
    ensures RemoveSpec(s, 65536 * high + location) == RemoveSpec(s, location)
  {
    assert (65536 * high + location) % 65536 == location;
  }

  /** A removal undoes the latest addition at its location: the list is what it was before. */
  lemma AddThenRemove(s: Picture, arg: Blinker)
    requires |s.video| == VIDEO_SIZE && arg.location < NODES && |s.list| < NODES
    ensures RemoveSpec(AddSpec(s, arg), arg.location).list == s.list
  {
    var list := AddSpec(s, arg).list;
    assert FirstAt(list, Low16(arg.location)) == 0;
  }

  // ----- a list threaded through a pool

  ghost function LinkAt(order: seq<int>, k: nat): int {
    if k < |order| then order[k] else NULL
  }

  ghost predicate Walk(order: seq<int>) {
    Distinct(order) && forall k :: 0 <= k < |order| ==> 0 <= order[k] < NODES
  }

  ghost predicate Chained(nodes: seq<Node>, order: seq<int>)
    requires |nodes| == NODES && Walk(order)
  {
    forall k {:trigger nodes[order[k]]} :: 0 <= k < |order| ==> nodes[order[k]].next == LinkAt(order, k + 1)
  }

  ghost predicate Marked(nodes: seq<Node>, order: seq<int>)
    requires |nodes| == NODES
  {
    forall i :: 0 <= i < NODES ==>
      (i in order <==> nodes[i].b.location != 0) && nodes[i].b.location < NODES && Word16(nodes[i].b)
  }

  /** `order` walks the list from `head` to its end without repetition, and visits exactly the
      nodes in use. */
  ghost predicate Threaded(nodes: seq<Node>, head: int, order: seq<int>) {
    |nodes| == NODES && Walk(order) && head == LinkAt(order, 0) && Chained(nodes, order) && Marked(nodes, order)
  }

  lemma InUse(nodes: seq<Node>, head: int, order: seq<int>, i: int)
    requires Threaded(nodes, head, order) && 0 <= i < NODES
    ensures i in order <==> nodes[i].b.location != 0
  {
  }

  lemma ListSize(nodes: seq<Node>, head: int, order: seq<int>)
    requires Threaded(nodes, head, order)
    ensures |order| <= NODES
    ensures |order| == NODES <==> forall i :: 0 <= i < NODES ==> i in order
  {
    FullOrFewer(order, NODES);
  }

  ghost function ListOf(nodes: seq<Node>, order: seq<int>): (list: seq<Blinker>)
    requires |nodes| == NODES && Walk(order)
    ensures |list| == |order|
  {
    seq(|order|, k requires 0 <= k < |order| => nodes[order[k]].b)
  }

  lemma PushWalk(order: seq<int>, i: int)
    requires Walk(order) && 0 <= i < NODES && i !in order
    ensures Walk([i] + order)
    ensures forall k :: 0 < k <= |order| ==> ([i] + order)[k] == order[k - 1] && ([i] + order)[k] != i
  {
    assert forall k :: 0 <= k < |order| ==> order[k] in order;
  }

  lemma PushNode(nodes: seq<Node>, head: int, order: seq<int>, i: int, b: Blinker)
    requires Threaded(nodes, head, order)
    requires 0 <= i < NODES && i !in order
    requires 0 < b.location < NODES && Word16(b)
    ensures Threaded(nodes[i := Node(b, head)], i, [i] + order)
    ensures ListOf(nodes[i := Node(b, head)], [i] + order) == [b] + ListOf(nodes, order)
  {
    hide Walk;
    hide Word16;
    hide Chained;
    hide Marked;
    hide ListOf;
    PushWalk(order, i);
    PushChained(nodes, order, i, Node(b, head));
    PushMarked(nodes, order, i, Node(b, head));
    PushList(nodes, order, i, Node(b, head));
  }

  lemma PushChained(nodes: seq<Node>, order: seq<int>, i: int, node: Node)
    requires |nodes| == NODES && Walk(order) && Chained(nodes, order)
    requires 0 <= i < NODES && i !in order && node.next == LinkAt(order, 0)
    ensures Walk([i] + order) && Chained(nodes[i := node], [i] + order)
  {
    PushWalk(order, i);
    hide Walk;
    var order', nodes' := [i] + order, nodes[i := node];
    forall k | 0 <= k < |order'| ensures 0 <= order'[k] < NODES && nodes'[order'[k]].next == LinkAt(order', k + 1) {
      PushedLink(nodes, order, i, node, k);
    }
  }

  lemma PushedLink(nodes: seq<Node>, order: seq<int>, i: int, node: Node, k: nat)
    requires |nodes| == NODES && Walk(order) && Chained(nodes, order)
    requires 0 <= i < NODES && i !in order && node.next == LinkAt(order, 0) && k <= |order|
    ensures 0 <= ([i] + order)[k] < NODES
    ensures nodes[i := node][([i] + order)[k]].next == LinkAt([i] + order, k + 1)
  {
    if k > 0 {
      assert order[k - 1] in order;
      assert nodes[order[k - 1]].next == LinkAt(order, k);
    }
  }

  lemma PushMarked(nodes: seq<Node>, order: seq<int>, i: int, node: Node)
    requires |nodes| == NODES && Marked(nodes, order) && 0 <= i < NODES
    requires 0 < node.b.location < NODES && Word16(node.b)
    ensures Marked(nodes[i := node], [i] + order)
  {
    hide Word16;
    forall j | 0 <= j < NODES ensures j in [i] + order <==> nodes[i := node][j].b.location != 0 {
      assert j in [i] + order <==> j == i || j in order;
    }
  }

  lemma PushList(nodes: seq<Node>, order: seq<int>, i: int, node: Node)
    requires |nodes| == NODES && Walk(order) && 0 <= i < NODES && i !in order
    ensures Walk([i] + order)
    ensures ListOf(nodes[i := node], [i] + order) == [node.b] + ListOf(nodes, order)
  {
    PushWalk(order, i);
    forall k | 0 < k <= |order| ensures ListOf(nodes[i := node], [i] + order)[k] == ([node.b] + ListOf(nodes, order))[k] {
      assert order[k - 1] in order;
    }
  }

  ghost function Pop(order: seq<int>, k: nat): seq<int>
    requires k < |order|
  {
    order[..k] + order[k + 1..]
  }

  lemma PopWalk(order: seq<int>, k: nat)
    requires Walk(order) && k < |order|
    ensures Walk(Pop(order, k))
  {
  }

  lemma PopMembers(order: seq<int>, k: nat)
    requires Walk(order) && k < |order|
    ensures forall i :: i in Pop(order, k) <==> i in order && i != order[k]
  {
    var order' := Pop(order, k);
    forall i ensures i in order' <==> i in order && i != order[k] {
      if i in order && i != order[k] {
        var j :| 0 <= j < |order| && order[j] == i;
        assert if j < k then order'[j] == i else order'[j - 1] == i;
      }
    }
  }

  /** The pool after the predecessor of the `k`-th node was linked past it and it was cleared. */
  ghost function Unchained(nodes: seq<Node>, order: seq<int>, k: nat): seq<Node>
    requires |nodes| == NODES && Walk(order) && k < |order|
  {
    var past := if k == 0 then nodes else nodes[order[k - 1] := nodes[order[k - 1]].(next := LinkAt(order, k + 1))];
    past[order[k] := ZERO]
  }

  lemma PopNode(nodes: seq<Node>, head: int, order: seq<int>, k: nat)
    requires Threaded(nodes, head, order) && k < |order|
    ensures var nodes' := Unchained(nodes, order, k);
      var order' := Pop(order, k);
      && Threaded(nodes', LinkAt(order', 0), order')
      && ListOf(nodes', order') == ListOf(nodes, order)[..k] + ListOf(nodes, order)[k + 1..]
    ensures LinkAt(Pop(order, k), 0) == if k == 0 then LinkAt(order, 1) else head
  {
    PopWalk(order, k);
    PopMarked(nodes, order, k);
    PopChained(nodes, order, k);
    PopList(nodes, order, k);
    hide Unchained;
    hide Walk;
    hide Marked;
    hide Chained;
    hide ListOf;
  }

  lemma Different(order: seq<int>, i: nat, j: nat)
    requires Walk(order) && i < |order| && j < |order| && i != j
    ensures order[i] != order[j] && 0 <= order[i] < NODES && 0 <= order[j] < NODES
  {
  }

  lemma PopAt(order: seq<int>, k: nat, j: nat)
    requires k < |order| && j < |order| - 1
    ensures |Pop(order, k)| == |order| - 1
    ensures Pop(order, k)[j] == order[if j < k then j else j + 1]
    ensures LinkAt(Pop(order, k), j + 1) == LinkAt(order, if j + 1 < k then j + 1 else j + 2)
  {
  }

  /** In the cleared pool the node at position `j` still links to its successor, past the node
      that is gone. */
  lemma LinkKept(nodes: seq<Node>, order: seq<int>, k: nat, j: nat)
    requires |nodes| == NODES && Walk(order) && Chained(nodes, order) && k < |order| && j < |order| && j != k
    ensures 0 <= order[j] < NODES
    ensures Unchained(nodes, order, k)[order[j]].next == LinkAt(order, if j + 1 == k then j + 2 else j + 1)
  {
    Different(order, j, k);
    if k > 0 && j != k - 1 { Different(order, j, k - 1); }
    assert nodes[order[j]].next == LinkAt(order, j + 1);
  }

  lemma PoppedLink(nodes: seq<Node>, order: seq<int>, k: nat, j: nat)
    requires |nodes| == NODES && Walk(order) && Chained(nodes, order) && k < |order| && j < |Pop(order, k)|
    ensures Walk(Pop(order, k))
    ensures Unchained(nodes, order, k)[Pop(order, k)[j]].next == LinkAt(Pop(order, k), j + 1)
  {
    PopWalk(order, k);
    PopSize(order, k);
    PopAt(order, k, j);
    LinkKept(nodes, order, k, if j < k then j else j + 1);
  }

  lemma PopChained(nodes: seq<Node>, order: seq<int>, k: nat)
    requires |nodes| == NODES && Walk(order) && Chained(nodes, order) && k < |order|
    ensures Walk(Pop(order, k))
    ensures Chained(Unchained(nodes, order, k), Pop(order, k))
  {
    PopWalk(order, k);
    hide Pop;
    hide Unchained;
    hide LinkAt;
    forall j | 0 <= j < |Pop(order, k)|
      ensures Unchained(nodes, order, k)[Pop(order, k)[j]].next == LinkAt(Pop(order, k), j + 1)
    {
      PoppedLink(nodes, order, k, j);
    }
  }

  lemma PopSize(order: seq<int>, k: nat)
    requires k < |order|
    ensures |Pop(order, k)| == |order| - 1
  {
  }

  lemma PopMarked(nodes: seq<Node>, order: seq<int>, k: nat)
    requires |nodes| == NODES && Walk(order) && Marked(nodes, order) && k < |order|
    ensures Marked(Unchained(nodes, order, k), Pop(order, k))
  {
    PopMembers(order, k);
    hide Pop;
    var nodes' := Unchained(nodes, order, k);
    assert forall i :: 0 <= i < NODES && i != order[k] ==> nodes'[i].b == nodes[i].b;
  }

  lemma PopList(nodes: seq<Node>, order: seq<int>, k: nat)
    requires |nodes| == NODES && Walk(order) && k < |order|
    ensures Walk(Pop(order, k))
    ensures ListOf(Unchained(nodes, order, k), Pop(order, k)) == ListOf(nodes, order)[..k] + ListOf(nodes, order)[k + 1..]
  {
    PopWalk(order, k);
    var nodes', order' := Unchained(nodes, order, k), Pop(order, k);
    forall j | 0 <= j < |order'|
      ensures ListOf(nodes', order')[j] == (ListOf(nodes, order)[..k] + ListOf(nodes, order)[k + 1..])[j]
    {
      assert order'[j] == if j < k then order[j] else order[j + 1];
      assert order'[j] != order[k];
    }
  }

  lemma TickNode(nodes: seq<Node>, head: int, order: seq<int>, k: nat)
    requires Threaded(nodes, head, order) && k < |order|
    ensures var node := nodes[order[k]];
      var nodes' := nodes[order[k] := Node(TickOne(node.b), node.next)];
      && Threaded(nodes', head, order)
      && ListOf(nodes', order) == ListOf(nodes, order)[k := TickOne(ListOf(nodes, order)[k])]
  {
    var node := nodes[order[k]];
    assert order[k] in order;
    TickShape(node.b);
    ReplaceNode(nodes, head, order, k, TickOne(node.b));
  }

  lemma TickShape(b: Blinker)
    requires Word16(b)
    ensures Word16(TickOne(b)) && TickOne(b).location == b.location
  {
  }

  lemma ReplaceNode(nodes: seq<Node>, head: int, order: seq<int>, k: nat, b: Blinker)
    requires Threaded(nodes, head, order) && k < |order|
    requires b.location == nodes[order[k]].b.location && Word16(b)
    ensures var nodes' := nodes[order[k] := Node(b, nodes[order[k]].next)];
      && Threaded(nodes', head, order)
      && ListOf(nodes', order) == ListOf(nodes, order)[k := b]
  {
    ReplaceMarked(nodes, order, order[k], Node(b, nodes[order[k]].next));
    ReplaceChained(nodes, order, order[k], Node(b, nodes[order[k]].next));
    ReplaceList(nodes, order, k, Node(b, nodes[order[k]].next));
  }

  lemma ReplaceMarked(nodes: seq<Node>, order: seq<int>, i: int, node: Node)
    requires |nodes| == NODES && Marked(nodes, order) && 0 <= i < NODES
    requires node.b.location == nodes[i].b.location && Word16(node.b)
    ensures Marked(nodes[i := node], order)
  {
    hide Word16;
  }

  lemma ReplaceChained(nodes: seq<Node>, order: seq<int>, i: int, node: Node)
    requires |nodes| == NODES && Walk(order) && Chained(nodes, order) && 0 <= i < NODES
    requires node.next == nodes[i].next
    ensures Chained(nodes[i := node], order)
  {
  }

  lemma ReplaceList(nodes: seq<Node>, order: seq<int>, k: nat, node: Node)
    requires |nodes| == NODES && Walk(order) && k < |order|
    ensures ListOf(nodes[order[k] := node], order) == ListOf(nodes, order)[k := node.b]
  {
    assert forall j :: 0 <= j < |order| && j != k ==> order[j] != order[k];
  }

  lemma FirstAtIs(list: seq<Blinker>, location: nat, k: nat)
    requires k <= |list|
    requires forall j :: 0 <= j < k ==> list[j].location != location
    requires k < |list| ==> list[k].location == location
    ensures FirstAt(list, location) == k
  {
    var m := FirstAt(list, location);
    if m < |list| && k < |list| {
      assert list[m].location == location == list[k].location;
    }
  }

  // ----- the code

  class BlinkList {
    const pool: array<Node>
    const video: array<byte>
    var head: int
    ghost var order: seq<int>   // the nodes of the list, front first

    ghost predicate Valid()
      reads this, pool, video
    {
      pool.Length == NODES && video.Length == VIDEO_SIZE && Threaded(pool[..], head, order)
    }

    ghost function View(): Picture
      requires Valid()
      reads this, pool, video
    {
      Picture(ListOf(pool[..], order), video[..])
    }

    /** `main` clears the pool before anything else. */
    constructor (video: array<byte>)
      requires video.Length == VIDEO_SIZE
      ensures Valid() && fresh(pool) && this.video == video && order == []
    {
      pool := new Node[NODES](_ => ZERO);
      this.video := video;
      head := NULL;
      order := [];
    }

    /** The first node with location zero; none exactly when all 2000 are in the list. */
    method Malloc() returns (i: int)
      requires Valid()
      ensures i == NULL <==> |order| == NODES
      ensures i != NULL ==> 0 <= i < NODES && i !in order && forall k :: 0 <= k < i ==> k in order
    {
      hide Threaded;
      ListSize(pool[..], head, order);
      i := 0;
      while i < NODES
        invariant 0 <= i <= NODES
        invariant forall k :: 0 <= k < i ==> k in order
      {
        InUse(pool[..], head, order, i);
        if pool[i].b.location == 0 {
          return;
        }
        i := i + 1;
      }
      return NULL;
    }

    /** `mp1_ioctl_add`. A location of zero is outside the model. */
    method Add(arg: Blinker) returns (r: int)
      requires Valid() && arg.location != 0 && Word16(arg)
      modifies this, pool, video
      ensures Valid()
      ensures View() == AddSpec(old(View()), arg)
      ensures r == if arg.location >= NODES || |old(order)| == NODES then -1 else 0
    {
      hide Threaded;
      if arg.location >= NODES {
        return -1;
      }
      var i := Malloc();
      if i == NULL {
        return -1;
      }
      PushNode(pool[..], head, order, i, Added(arg));
      pool[i] := Node(arg.(status := 1, countdown := arg.onLength), head);
      head := i;
      order := [i] + order;
      video[2 * arg.location] := arg.onChar;
      return 0;
    }

    /** `mp1_find_helper`: the front-most node at the location in the low half of the argument. */
    method Find(arg: nat) returns (i: int, ghost k: nat)
      requires Valid()
      ensures k == FirstAt(View().list, Low16(arg))
      ensures i == LinkAt(order, k)
    {
      hide Threaded;
      hide LinkAt;
      hide FirstAt;
      hide ListOf;
      ghost var list := View().list;
      var location := arg % 0x1_0000;
      AtNode(pool[..], head, order, 0);
      i, k := head, 0;
      while i != NULL
        invariant k <= |order| && i == LinkAt(order, k)
        invariant forall j :: 0 <= j < k ==> list[j].location != location
        decreases |order| - k
      {
        AtNode(pool[..], head, order, k);
        if pool[i].b.location == location {
          FirstAtIs(list, location, k);
          return;
        }
        i := pool[i].next;
        k := k + 1;
      }
      AtNode(pool[..], head, order, k);
      FirstAtIs(list, location, k);
    }

    /** `mp1_ioctl_remove` */
    method Remove(arg: nat) returns (r: int)
      requires Valid()
      modifies this, pool
      ensures Valid()
      ensures View() == RemoveSpec(old(View()), arg)
      ensures r == if FirstAt(old(View()).list, Low16(arg)) < |old(order)| then 0 else -1
    {
      hide Word16;
      hide Marked;
      hide ListOf;
      var i, k := Find(arg);
      if i == NULL {
        return -1;
      }
      // the cell that points at the node: the head, or the next field of node `prev`
      var prev, next := NULL, head;
      ghost var j := 0;
      while next != i
        invariant j <= k && next == LinkAt(order, j)
        invariant prev == if j == 0 then NULL else order[j - 1]
        decreases k - j
      {
        assert pool[..][order[j]].next == LinkAt(order, j + 1);
        prev, next := next, pool[next].next;
        j := j + 1;
      }
      SameNode(order, j, k);
      PopNode(pool[..], head, order, k);
      ghost var nodes := Unchained(pool[..], order, k);
      assert pool[..][order[k]].next == LinkAt(order, k + 1);
      if prev == NULL {
        head := pool[i].next;
      } else {
        pool[prev] := pool[prev].(next := pool[i].next);
      }
      pool[i] := ZERO;
      assert pool[..] == nodes;
      order := Pop(order, k);
      return 0;
    }

    /** `mp1_rtc_tasklet` */
    method Tick()
      requires Valid()
      modifies pool, video
      ensures Valid()
      ensures View() == TickSpec(old(View()))
    {
      hide Threaded;
      hide TickOne;
      hide Shown;
      hide Fires;
      hide LinkAt;
      hide ListOf;
      hide Word16;
      Locations(pool[..], head, order);
      ghost var list := View().list;
      var i: int := head;
      ghost var k := 0;
      AtNode(pool[..], head, order, 0);
      while i != NULL
        invariant k <= |order| && i == LinkAt(order, k)
        invariant Valid()
        invariant forall j :: 0 <= j < |order| ==> View().list[j] == if j < k then TickOne(list[j]) else list[j]
        invariant TickVideo(list[k..], video[..]) == TickVideo(list, old(video[..]))
        decreases |order| - k
      {
        AtNode(pool[..], head, order, k);
        TickNode(pool[..], head, order, k);
        assert View().list[k] == pool[i].b == list[k];
        assert list[k..][0] == list[k] && list[k..][1..] == list[k + 1..];
        TickCell(i);
        i := pool[i].next;
        k := k + 1;
      }
      AtNode(pool[..], head, order, k);
      assert View().list == TickList(list);
    }

    /** The body of the loop: count one node down, and swap its character when it fires. */
    method TickCell(i: nat)
      requires pool.Length == NODES && video.Length == VIDEO_SIZE && i < NODES
      requires pool[i].b.location < NODES && Word16(pool[i].b)
      modifies pool, video
      ensures var b := old(pool[i].b);
        && pool[..] == old(pool[..])[i := Node(TickOne(b), old(pool[i].next))]
        && video[..] == if Fires(b) then old(video[..])[2 * b.location := Shown(b)] else old(video[..])
    {
      var node := pool[i];
      var b := node.b;
      var down := (b.countdown + 0xFFFF) % 0x1_0000;
      if 0 < down < 0x8000 {
        pool[i] := node.(b := b.(countdown := down));
      } else if b.status % 2 == 1 {
        video[2 * b.location] := b.offChar;
        pool[i] := node.(b := b.(countdown := b.offLength, status := b.status - 1));
      } else {
        video[2 * b.location] := b.onChar;
        pool[i] := node.(b := b.(countdown := b.onLength, status := b.status + 1));
      }
    }
  }

  /** Where a walk that has passed `k` nodes stands. */
  lemma AtNode(nodes: seq<Node>, head: int, order: seq<int>, k: nat)
    requires Threaded(nodes, head, order) && k <= |order|
    ensures head == LinkAt(order, 0)
    ensures var i := LinkAt(order, k);
      && (i == NULL <==> k == |order|)
      && (k < |order| ==> 0 <= i < NODES && i == order[k] && ListOf(nodes, order)[k] == nodes[i].b && nodes[i].next == LinkAt(order, k + 1))
    ensures k < |order| ==> nodes[order[k]].b.location < NODES && Word16(nodes[order[k]].b)
  {
  }

  lemma Locations(nodes: seq<Node>, head: int, order: seq<int>)
    requires Threaded(nodes, head, order)
    ensures |nodes| == NODES && Walk(order)
    ensures PictureOk(Picture(ListOf(nodes, order), seq(VIDEO_SIZE, _ => 0)))
  {
    forall k | 0 <= k < |order| ensures 0 < nodes[order[k]].b.location < NODES && Word16(nodes[order[k]].b) {
      assert order[k] in order;
    }
  }

  lemma SameNode(order: seq<int>, j: nat, k: nat)
    requires Walk(order) && j <= k < |order| && order[j] == order[k]
    ensures j == k
  {
  }
}
