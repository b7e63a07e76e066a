// The blinking characters: a linked list threaded through a fixed array of cells, where location 0
// marks a free cell, and a countdown per node.
module Blink {
  import opened Bytes
  import opened Counting
  import opened Division

  const CELLS := 2000
  const NONE := -1

  type word = w: int | 0 <= w < 0x1_0000

  // struct mp1_blink_struct; `next` is the index of the next node's cell, or NONE.
  datatype Node = Node(location: word, onChar: byte, offChar: byte, onLength: word, offLength: word,
                       countdown: word, status: word, next: int)

  const ZERO_NODE := Node(0, 0, 0, 0, 0, 0, 0, NONE)

  // ---- One node's clock ----

  predicate On(c: Node) { c.status % 2 == 1 }

  function Flip(status: word): word { if status % 2 == 1 then status - 1 else status + 1 }

  // The 16-bit decrement wraps, and the test that follows reads the result as signed.
  predicate StillCounting(c: Node) { 1 < c.countdown <= 0x8000 }

  function Tick(c: Node): Node
  {
    if StillCounting(c) then c.(countdown := c.countdown - 1)
    else if On(c) then c.(countdown := c.offLength, status := Flip(c.status))
    else c.(countdown := c.onLength, status := Flip(c.status))
  }

  function Ticks(c: Node, t: nat): Node { if t == 0 then c else Tick(Ticks(c, t - 1)) }

  function Added(user: Node, next: int): Node { user.(status := 1, countdown := user.onLength, next := next) }

  // Closed form of the phase: t ticks after it was added a node is on exactly during the first
  // onLength ticks of each period, and the countdown tells how much of the phase is left.
  lemma {:induction false} PhaseClosedForm(user: Node, next: int, t: nat)
    requires 1 <= user.onLength <= 32767 && 1 <= user.offLength <= 32767
    ensures var c := Ticks(Added(user, next), t);
            var p := t % (user.onLength + user.offLength);
            && (On(c) <==> p < user.onLength)
            && c.countdown == (if p < user.onLength then user.onLength else user.onLength + user.offLength) - p
            && c.onLength == user.onLength && c.offLength == user.offLength
  {
    var period := user.onLength + user.offLength;
    if t == 0 {
      assert 0 % period == 0;
    } else {
      PhaseClosedForm(user, next, t - 1);
      NextResidue(t - 1, period);
      PhaseStep(Ticks(Added(user, next), t - 1), user.onLength, user.offLength, (t - 1) % period, t % period);
    }
  }

  // One tick, with the place in the period as a number.
  lemma PhaseStep(c: Node, on: nat, off: nat, p: nat, p': nat)
    requires 1 <= on <= 32767 && 1 <= off <= 32767 && c.onLength == on && c.offLength == off && p < on + off
    requires (On(c) <==> p < on) && c.countdown == (if p < on then on else on + off) - p
    requires p' == if p + 1 == on + off then 0 else p + 1
    ensures var c' := Tick(c);
            && (On(c') <==> p' < on) && c'.countdown == (if p' < on then on else on + off) - p'
            && c'.onLength == on && c'.offLength == off
  {
  }

  // What sync copies.
  predicate SameTiming(a: Node, b: Node) {
    a.onLength == b.onLength && a.offLength == b.offLength && a.countdown == b.countdown && a.status == b.status
  }

  function Synced(dst: Node, src: Node): Node {
    dst.(onLength := src.onLength, offLength := src.offLength, countdown := src.countdown, status := src.status)
  }

  // Synchronised nodes stay so.
  lemma {:induction false} SyncLasts(a: Node, b: Node, t: nat)
    requires SameTiming(a, b)
    ensures SameTiming(Ticks(a, t), Ticks(b, t))
  {
    if t > 0 {
      SyncLasts(a, b, t - 1);
    }
  }

  // ---- The list in the pool ----

  // `list` is what the links from `head` on run through, ending in NONE.
  ghost predicate Linked(cells: seq<Node>, head: int, list: seq<nat>)
  {
    && (forall k :: 0 <= k < |list| ==> list[k] < |cells|)
    && head == (if list == [] then NONE else list[0])
    && (forall k {:trigger After(list, k)} :: 0 <= k < |list| ==> cells[list[k]].next == After(list, k))
  }

  function After(list: seq<nat>, k: nat): int { if k + 1 < |list| then list[k + 1] else NONE }

  // The nodes are exactly the cells with a non-zero location: nothing leaks and nothing live is reused.
  ghost predicate Pool(cells: seq<Node>, head: int, list: seq<nat>)
  {
    |cells| == CELLS && Linked(cells, head, list) && Distinct(list) && Exact(cells, list)
  }

  ghost predicate Exact(cells: seq<Node>, list: seq<nat>)
  {
    && (forall i :: 0 <= i < |cells| ==> (cells[i].location != 0 <==> i in list))
    && (forall i :: 0 <= i < |cells| ==> cells[i].location < CELLS)
  }

  // mp1_malloc: the first cell with location 0, or the end of the pool.
  function FirstFree(cells: seq<Node>): (r: nat)
    ensures r <= |cells|
    ensures forall i :: 0 <= i < r ==> cells[i].location != 0
    ensures r < |cells| ==> cells[r].location == 0
  {
    if cells == [] || cells[0].location == 0 then 0 else 1 + FirstFree(cells[1..])
  }

  // The first node on the list at a location, as a position in the list.
  function Find(cells: seq<Node>, list: seq<nat>, location: word): (r: nat)
    requires forall k :: 0 <= k < |list| ==> list[k] < |cells|
    ensures r <= |list|
    ensures forall k :: 0 <= k < r ==> cells[list[k]].location != location
    ensures r < |list| ==> cells[list[r]].location == location
  {
    if list == [] || cells[list[0]].location == location then 0 else 1 + Find(cells, list[1..], location)
  }

  // What add does to cells and head when it succeeds, for any location.
  function Insert(cells: seq<Node>, head: int, user: Node): (r: (seq<Node>, int))
    requires FirstFree(cells) < |cells|
  {
    var i := FirstFree(cells);
    (cells[i := Added(user, head)], i)
  }

  // A node added at location 0 leaves its cell looking free: the next one added takes the same cell
  // and becomes its own successor. With any other location the cell is taken.
  lemma LocationZeroMakesCycle(cells: seq<Node>, head: int, user: Node, again: Node)
    requires FirstFree(cells) < |cells|
    ensures var (cells1, head1) := Insert(cells, head, user);
            && (user.location == 0 <==> FirstFree(cells1) == head1)
            && (user.location == 0 ==>
                  var (cells2, head2) := Insert(cells1, head1, again);
                  head2 == head1 && cells2[head2].next == head2)
  {
    var i := FirstFree(cells);
    var cells1 := Insert(cells, head, user).0;
    if user.location == 0 {
      FirstFreeIs(cells1, i);
    }
  }

  lemma {:induction false} FirstFreeIs(cells: seq<Node>, i: nat)
    requires i < |cells| && cells[i].location == 0 && forall j :: 0 <= j < i ==> cells[j].location != 0
    ensures FirstFree(cells) == i
  {
    if i > 0 {
      FirstFreeIs(cells[1..], i - 1);
    }
  }

  lemma InsertKeepsPool(cells: seq<Node>, head: int, list: seq<nat>, user: Node)
    requires Pool(cells, head, list) && FirstFree(cells) < |cells| && 1 <= user.location < CELLS
    ensures var (cells', head') := Insert(cells, head, user);
            Pool(cells', head', [FirstFree(cells)] + list)
  {
    var i := FirstFree(cells);
    assert i !in list;
    InsertLinked(cells, head, list, i, Added(user, head));
    assert forall j :: j in [i] + list <==> j == i || j in list;
  }

  lemma InsertLinked(cells: seq<Node>, head: int, list: seq<nat>, i: nat, node: Node)
    requires Linked(cells, head, list) && Distinct(list) && i < |cells| && i !in list && node.next == head
    ensures Linked(cells[i := node], i, [i] + list) && Distinct([i] + list)
  {
    var list' := [i] + list;
    forall k: nat | k < |list'| ensures cells[i := node][list'[k]].next == After(list', k) {
      if k > 0 {
        assert list'[k] == list[k - 1] && list[k - 1] in list;
        assert cells[list[k - 1]].next == After(list, k - 1);
      }
    }
  }

  // Taking the node at position k out: its predecessor, or the head, gets its successor.
  function Unlink(cells: seq<Node>, head: int, list: seq<nat>, k: nat): (seq<Node>, int)
    requires k < |list| && forall j :: 0 <= j < |list| ==> list[j] < |cells|
  {
    var after := cells[list[k]].next;
    if k == 0 then (cells[list[k] := ZERO_NODE], after)
    else (cells[list[k - 1] := cells[list[k - 1]].(next := after)][list[k] := ZERO_NODE], head)
  }

  function Without(list: seq<nat>, k: nat): seq<nat>
    requires k < |list|
  {
    list[..k] + list[k + 1..]
  }

  lemma UnlinkKeepsPool(cells: seq<Node>, head: int, list: seq<nat>, k: nat)
    requires Pool(cells, head, list) && k < |list|
    ensures var (cells', head') := Unlink(cells, head, list, k);
            Pool(cells', head', Without(list, k))
  {
    UnlinkLinked(cells, head, list, k);
    UnlinkExact(cells, head, list, k);
  }

  lemma UnlinkExact(cells: seq<Node>, head: int, list: seq<nat>, k: nat)
    requires (forall j :: 0 <= j < |list| ==> list[j] < |cells|) && Distinct(list) && k < |list| && Exact(cells, list)
    ensures Exact(Unlink(cells, head, list, k).0, Without(list, k))
  {
    WithoutMembers(list, k);
  }

  lemma WithoutMembers(list: seq<nat>, k: nat)
    requires Distinct(list) && k < |list|
    ensures forall j :: j in Without(list, k) <==> j != list[k] && j in list
  {
    var list' := Without(list, k);
    forall j: nat ensures j in list' <==> j != list[k] && j in list {
      if j in list && j != list[k] {
        var m :| 0 <= m < |list| && list[m] == j;
        assert list'[if m < k then m else m - 1] == j;
      }
      if j in list' {
        var m :| 0 <= m < |list'| && list'[m] == j;
        assert list'[m] == list[if m < k then m else m + 1];
      }
    }
  }

  lemma UnlinkLinked(cells: seq<Node>, head: int, list: seq<nat>, k: nat)
    requires Linked(cells, head, list) && Distinct(list) && k < |list|
    ensures var (cells', head') := Unlink(cells, head, list, k);
            Linked(cells', head', Without(list, k)) && Distinct(Without(list, k))
  {
    var list' := Without(list, k);
    var cells' := Unlink(cells, head, list, k).0;
    forall m: nat | m < |list'|
      ensures list'[m] < |cells'| && cells'[list'[m]].next == After(list', m)
    {
      UnlinkNext(cells, head, list, k, m);
    }
    assert cells[list[k]].next == After(list, k);
  }

  lemma UnlinkNext(cells: seq<Node>, head: int, list: seq<nat>, k: nat, m: nat)
    requires Linked(cells, head, list) && Distinct(list) && k < |list| && m + 1 < |list|
    ensures Unlink(cells, head, list, k).0[Without(list, k)[m]].next == After(Without(list, k), m)
  {
    var o: nat := if m < k then m else m + 1;
    assert Without(list, k)[m] == list[o] && list[o] != list[k];
    assert cells[list[o]].next == After(list, o) && cells[list[k]].next == After(list, k);
    if o + 1 == k {
      assert After(Without(list, k), m) == After(list, k);
    } else {
      assert k > 0 ==> list[o] != list[k - 1];
      assert After(Without(list, k), m) == After(list, o);
    }
  }

  // Timing can be changed in place.
  lemma TimingKeepsPool(cells: seq<Node>, head: int, list: seq<nat>, i: nat, src: Node)
    requires Pool(cells, head, list) && i < CELLS
    ensures Pool(cells[i := Synced(cells[i], src)], head, list)
  {
  }

  // Every node on the list counts once.
  function TickAll(cells: seq<Node>, list: seq<nat>): (r: seq<Node>)
    requires forall k :: 0 <= k < |list| ==> list[k] < |cells|
    ensures |r| == |cells|
  {
    if list == [] then cells
    else
      var n := |list| - 1;
      TickAll(cells, list[..n])[list[n] := Tick(cells[list[n]])]
  }

  lemma {:induction false} TickAllAt(cells: seq<Node>, list: seq<nat>, i: nat)
    requires (forall k :: 0 <= k < |list| ==> list[k] < |cells|) && i < |cells|
    ensures TickAll(cells, list)[i] == if i in list then Tick(cells[i]) else cells[i]
  {
    if list != [] {
      var n := |list| - 1;
      assert list == list[..n] + [list[n]];
      TickAllAt(cells, list[..n], i);
    }
  }

  lemma TickKeepsPool(cells: seq<Node>, head: int, list: seq<nat>)
    requires Pool(cells, head, list)
    ensures Pool(TickAll(cells, list), head, list)
  {
    forall i: nat | i < CELLS
      ensures TickAll(cells, list)[i].next == cells[i].next && TickAll(cells, list)[i].location == cells[i].location
    {
      TickAllAt(cells, list, i);
    }
  }

  // ---- The screen ----

  // mp1_poke: the character half of a cell of video memory.
  function Poke(video: seq<byte>, location: word, c: byte): (r: seq<byte>)
    requires |video| == 2 * CELLS && location < CELLS
    ensures |r| == 2 * CELLS
  {
    video[2 * location := c]
  }

  // What a tick of one node does to the screen.
  function Blinked(video: seq<byte>, c: Node): (r: seq<byte>)
    requires |video| == 2 * CELLS && c.location < CELLS
    ensures |r| == 2 * CELLS
  {
    if StillCounting(c) then video
    else Poke(video, c.location, if On(c) then c.offChar else c.onChar)
  }

  // The nodes blink in list order.
  function BlinkAll(video: seq<byte>, cells: seq<Node>, list: seq<nat>): (r: seq<byte>)
    requires |video| == 2 * CELLS && forall k :: 0 <= k < |list| ==> list[k] < |cells| && cells[list[k]].location < CELLS
    ensures |r| == 2 * CELLS
  {
    if list == [] then video
    else
      var n := |list| - 1;
      Blinked(BlinkAll(video, cells, list[..n]), cells[list[n]])
  }

  function Phase(c: Node): byte { if On(c) then c.onChar else c.offChar }

  // With one node per location the screen shows, after any tick, the character of each node's phase,
  // if it did so before.
  lemma {:induction false} TickShowsPhases(video: seq<byte>, cells: seq<Node>, list: seq<nat>, k: nat)
    requires |video| == 2 * CELLS && k < |list|
    requires forall j :: 0 <= j < |list| ==> list[j] < |cells| && cells[list[j]].location < CELLS
    requires forall j :: 0 <= j < |list| && j != k ==> cells[list[j]].location != cells[list[k]].location
    requires video[2 * cells[list[k]].location] == Phase(cells[list[k]])
    ensures BlinkAll(video, cells, list)[2 * cells[list[k]].location] == Phase(Tick(cells[list[k]]))
  {
    var n := |list| - 1;
    if k < n {
      TickShowsPhases(video, cells, list[..n], k);
    } else {
      OthersLeaveAlone(video, cells, list[..n], cells[list[k]].location);
    }
  }

  lemma {:induction false} OthersLeaveAlone(video: seq<byte>, cells: seq<Node>, list: seq<nat>, location: word)
    requires |video| == 2 * CELLS && location < CELLS
    requires forall j :: 0 <= j < |list| ==>
               list[j] < |cells| && cells[list[j]].location < CELLS && cells[list[j]].location != location
    ensures BlinkAll(video, cells, list)[2 * location] == video[2 * location]
  {
    if list != [] {
      OthersLeaveAlone(video, cells, list[..|list| - 1], location);
    }
  }

  lemma {:induction false} FindIs(cells: seq<Node>, list: seq<nat>, location: word, k: nat)
    requires forall j :: 0 <= j < |list| ==> list[j] < |cells|
    requires k <= |list| && (forall j :: 0 <= j < k ==> cells[list[j]].location != location)
    requires k < |list| ==> cells[list[k]].location == location
    ensures Find(cells, list, location) == k
  {
    if k > 0 {
      FindIs(cells, list[1..], location, k - 1);
    }
  }

  // The pool is full exactly when the list has as many nodes as there are cells.
  lemma PoolFull(cells: seq<Node>, head: int, list: seq<nat>)
    requires Pool(cells, head, list)
    ensures FirstFree(cells) < CELLS <==> |list| < CELLS
  {
    Pigeonhole(list, CELLS);
    if FirstFree(cells) < CELLS {
      assert FirstFree(cells) !in list;
    }
  }

  // ---- Whole runs ----

  // The pool, its list and the screen.
  datatype Board = Board(cells: seq<Node>, head: int, list: seq<nat>, video: seq<byte>)
  {
    ghost predicate Valid() { Pool(cells, head, list) && |video| == 2 * CELLS }

    // The cell of the most recently added node at the location, or NONE.
    function Found(location: word): (r: int)
      requires forall k :: 0 <= k < |list| ==> list[k] < |cells|
      ensures r != NONE ==> r in list
    {
      var k := Find(cells, list, location);
      if k < |list| then list[k] else NONE
    }
  }

  datatype Event =
    | AddNode(user: Node)
    | RemoveAt(location: word)
    | FindAt(location: word)
    | SyncPair(from: word, to: word)
    | Tasklet

  predicate Enabled(e: Event) { e.AddNode? ==> e.user.location != 0 }

  predicate AllEnabled(es: seq<Event>) { es != [] ==> Enabled(es[0]) && AllEnabled(es[1..]) }

  predicate Addable(b: Board, user: Node) { user.location < CELLS && FirstFree(b.cells) < |b.cells| }

  function AddStep(b: Board, user: Node): (r: Board)
    requires b.Valid() && user.location != 0
    ensures r.Valid()
  {
    if !Addable(b, user) then b
    else
      InsertKeepsPool(b.cells, b.head, b.list, user);
      var (cells, head) := Insert(b.cells, b.head, user);
      Board(cells, head, [head as nat] + b.list, Poke(b.video, user.location, user.onChar))
  }

  function RemoveStep(b: Board, location: word): (r: Board)
    requires b.Valid()
    ensures r.Valid()
  {
    var k := Find(b.cells, b.list, location);
    if k == |b.list| then b
    else
      UnlinkKeepsPool(b.cells, b.head, b.list, k);
      var (cells, head) := Unlink(b.cells, b.head, b.list, k);
      b.(cells := cells, head := head, list := Without(b.list, k))
  }

  function SyncStep(b: Board, from: word, to: word): (r: Board)
    requires b.Valid()
    ensures r.Valid()
  {
    var i, j := b.Found(from), b.Found(to);
    if i == NONE || j == NONE then b
    else
      TimingKeepsPool(b.cells, b.head, b.list, j, b.cells[i]);
      b.(cells := b.cells[j := Synced(b.cells[j], b.cells[i])],
         video := Poke(b.video, b.cells[j].location, b.cells[j].offChar))
  }

  function TickStep(b: Board): (r: Board)
    requires b.Valid()
    ensures r.Valid()
  {
    TickKeepsPool(b.cells, b.head, b.list);
    b.(cells := TickAll(b.cells, b.list), video := BlinkAll(b.video, b.cells, b.list))
  }

  function Step(b: Board, e: Event): (r: Board)
    requires b.Valid() && Enabled(e)
    ensures r.Valid()
  {
    match e
    case AddNode(user) => AddStep(b, user)
    case RemoveAt(location) => RemoveStep(b, location)
    case FindAt(_) => b
    case SyncPair(from, to) => SyncStep(b, from, to)
    case Tasklet => TickStep(b)
  }

  // Any run, from any list. That the result is valid is the pool invariant over whole runs.
  function Run(b: Board, es: seq<Event>): (r: Board)
    requires b.Valid() && AllEnabled(es)
    ensures r.Valid()
    decreases |es|
  {
    if es == [] then b else Run(Step(b, es[0]), es[1..])
  }

  function Tasklets(es: seq<Event>): nat
  {
    if es == [] then 0 else (if es[0].Tasklet? then 1 else 0) + Tasklets(es[1..])
  }

  // The event removes the node in cell i, or gives it another node's timing.
  predicate Hits(b: Board, e: Event, i: int)
    requires b.Valid()
  {
    match e
    case RemoveAt(location) => b.Found(location) == i
    case SyncPair(from, to) => b.Found(from) != NONE && b.Found(to) == i
    case _ => false
  }

  predicate Spared(b: Board, es: seq<Event>, i: nat)
    requires b.Valid() && AllEnabled(es)
    decreases |es|
  {
    es != [] ==> !Hits(b, es[0], i) && Spared(Step(b, es[0]), es[1..], i)
  }

  // All of a node but its link.
  function Bare(c: Node): Node { c.(next := NONE) }

  // What a removal does to the cell of another node.
  lemma RemoveSpares(b: Board, location: word, i: nat)
    requires b.Valid()
    ensures i in RemoveStep(b, location).list <==> i in b.list && i != b.Found(location)
    ensures i in RemoveStep(b, location).list ==> Bare(RemoveStep(b, location).cells[i]) == Bare(b.cells[i])
  {
    var k := Find(b.cells, b.list, location);
    if k < |b.list| {
      WithoutMembers(b.list, k);
    }
  }

  lemma AddSpares(b: Board, user: Node, i: nat)
    requires b.Valid() && user.location != 0
    ensures i in b.list ==> i in AddStep(b, user).list && AddStep(b, user).cells[i] == b.cells[i]
    ensures i in AddStep(b, user).list && i !in b.list ==> AddStep(b, user).cells[i].location == user.location
  {
    if Addable(b, user) {
      assert FirstFree(b.cells) !in b.list;
    }
  }

  lemma StepSpares(b: Board, e: Event, i: nat)
    requires b.Valid() && Enabled(e) && i in b.list && !Hits(b, e, i)
    ensures i in Step(b, e).list
    ensures Bare(Step(b, e).cells[i]) == Bare(if e.Tasklet? then Tick(b.cells[i]) else b.cells[i])
  {
    match e
    case AddNode(user) => AddSpares(b, user, i);
    case RemoveAt(location) => RemoveSpares(b, location, i);
    case Tasklet => TickAllAt(b.cells, b.list, i);
    case _ =>
  }

  lemma {:induction false} TicksBare(c: Node, d: Node, t: nat)
    requires Bare(c) == Bare(d)
    ensures Bare(Ticks(c, t)) == Bare(Ticks(d, t))
  {
    if t > 0 {
      TicksBare(c, d, t - 1);
    }
  }

  lemma {:induction false} TicksFirst(c: Node, t: nat)
    ensures Ticks(Tick(c), t) == Ticks(c, t + 1)
  {
    if t > 0 {
      TicksFirst(c, t - 1);
    }
  }

  lemma TicksOn(c: Node, c': Node, ticked: bool, t: nat)
    requires Bare(c') == Bare(if ticked then Tick(c) else c)
    ensures Bare(Ticks(c', t)) == Bare(Ticks(c, (if ticked then 1 else 0) + t))
  {
    TicksBare(c', if ticked then Tick(c) else c, t);
    TicksFirst(c, t);
  }

  // Through any run of adds, removes, finds, syncs and tasklets, a node that is not itself removed or
  // synced stays on the list and has ticked once per tasklet, and nothing else has happened to it.
  lemma {:induction false} TicksThroughRun(b: Board, es: seq<Event>, i: nat)
    requires b.Valid() && AllEnabled(es) && i in b.list && Spared(b, es, i)
    ensures i in Run(b, es).list
    ensures Bare(Run(b, es).cells[i]) == Bare(Ticks(b.cells[i], Tasklets(es)))
    decreases |es|
  {
    if es != [] {
      var e, rest := es[0], es[1..];
      StepSpares(b, e, i);
      TicksThroughRun(Step(b, e), rest, i);
      TicksOn(b.cells[i], Step(b, e).cells[i], e.Tasklet?, Tasklets(rest));
      assert Run(b, es) == Run(Step(b, e), rest);
    }
  }

  // The closed form holds for a node in the list, whatever is added, removed and synced around it.
  lemma PhaseInRun(b: Board, user: Node, es: seq<Event>)
    requires b.Valid() && user.location != 0 && Addable(b, user) && AllEnabled(es)
    requires 1 <= user.onLength <= 32767 && 1 <= user.offLength <= 32767
    requires var b1 := Step(b, AddNode(user)); Spared(b1, es, b1.list[0])
    ensures var b1 := Step(b, AddNode(user));
            var i := b1.list[0];
            var c := Run(b1, es).cells[i];
            var p := Tasklets(es) % (user.onLength + user.offLength);
            && i in Run(b1, es).list
            && c.location == user.location && c.onChar == user.onChar && c.offChar == user.offChar
            && (On(c) <==> p < user.onLength)
            && c.countdown == (if p < user.onLength then user.onLength else user.onLength + user.offLength) - p
  {
    var b1 := Step(b, AddNode(user));
    var i := b1.list[0];
    var t := Tasklets(es);
    TicksThroughRun(b1, es, i);
    PhaseClosedForm(user, b.head, t);
    TicksKeepPlace(Added(user, b.head), t);
    assert Bare(Run(b1, es).cells[i]) == Bare(Ticks(Added(user, b.head), t));
  }

  lemma {:induction false} TicksKeepPlace(c: Node, t: nat)
    ensures Ticks(c, t).location == c.location && Ticks(c, t).onChar == c.onChar && Ticks(c, t).offChar == c.offChar
  {
    if t > 0 {
      TicksKeepPlace(c, t - 1);
    }
  }

  // After a sync the two nodes agree at every later time, until one of them is removed or synced again.
  lemma SyncInRun(b: Board, from: word, to: word, es: seq<Event>)
    requires b.Valid() && b.Found(from) != NONE && b.Found(to) != NONE && AllEnabled(es)
    requires var b1 := Step(b, SyncPair(from, to)); Spared(b1, es, b.Found(from)) && Spared(b1, es, b.Found(to))
    ensures var r := Run(Step(b, SyncPair(from, to)), es);
            && b.Found(from) in r.list && b.Found(to) in r.list
            && SameTiming(r.cells[b.Found(from)], r.cells[b.Found(to)])
            && Place(r.cells[b.Found(from)]) == Place(b.cells[b.Found(from)])
            && Place(r.cells[b.Found(to)]) == Place(b.cells[b.Found(to)])
            && Bare(r.cells[b.Found(from)]) == Bare(Ticks(b.cells[b.Found(from)], Tasklets(es)))
  {
    var i, j := b.Found(from), b.Found(to);
    var b1 := Step(b, SyncPair(from, to));
    TicksThroughRun(b1, es, i);
    TicksThroughRun(b1, es, j);
    SyncLasts(b1.cells[i], b1.cells[j], Tasklets(es));
    TicksKeepPlace(b1.cells[i], Tasklets(es));
    TicksKeepPlace(b1.cells[j], Tasklets(es));
    assert SameTiming(Bare(Run(b1, es).cells[i]), Bare(Run(b1, es).cells[j]));
    assert Place(Bare(Run(b1, es).cells[j])) == Place(b1.cells[j]);
    SourceTicksOn(b, from, to, Tasklets(es));
  }

  // Where a node is and what it shows.
  function Place(c: Node): (word, byte, byte) { (c.location, c.onChar, c.offChar) }

  // The node synced from goes on as it would have.
  lemma SourceTicksOn(b: Board, from: word, to: word, t: nat)
    requires b.Valid() && b.Found(from) != NONE && b.Found(to) != NONE
    ensures Bare(Ticks(Step(b, SyncPair(from, to)).cells[b.Found(from)], t)) == Bare(Ticks(b.cells[b.Found(from)], t))
  {
    TicksBare(Step(b, SyncPair(from, to)).cells[b.Found(from)], b.cells[b.Found(from)], t);
  }

  // ---- The screen over whole runs ----

  // A node that has just been added is shown, on.
  lemma AddShows(b: Board, user: Node)
    requires b.Valid() && user.location != 0 && Addable(b, user)
    ensures var b1 := Step(b, AddNode(user));
            && b1.list == [b1.list[0]] + b.list && b1.cells[b1.list[0]].location == user.location
            && On(b1.cells[b1.list[0]]) && Shown(b1, b1.list[0])
            && b1.video[2 * user.location] == user.onChar
  {
  }

  // Only characters are ever drawn, never attributes, and only where a node is or is being added.
  lemma {:induction false} OthersUndrawn(b: Board, es: seq<Event>, cell: nat)
    requires b.Valid() && AllEnabled(es) && cell < CELLS
    ensures Run(b, es).video[2 * cell + 1] == b.video[2 * cell + 1]
    ensures (forall i :: i in b.list ==> b.cells[i].location != cell) &&
            (forall e :: e in es && e.AddNode? ==> e.user.location != cell) ==>
              Run(b, es).video[2 * cell] == b.video[2 * cell]
    decreases |es|
  {
    if es != [] {
      StepDraws(b, es[0], cell);
      OthersUndrawn(Step(b, es[0]), es[1..], cell);
      if forall i :: i in b.list ==> b.cells[i].location != cell {
        forall i | i in Step(b, es[0]).list && (es[0].AddNode? ==> es[0].user.location != cell)
          ensures Step(b, es[0]).cells[i].location != cell
        {
          StepMoves(b, es[0], i);
        }
      }
    }
  }

  lemma StepDraws(b: Board, e: Event, cell: nat)
    requires b.Valid() && Enabled(e) && cell < CELLS
    ensures Step(b, e).video[2 * cell + 1] == b.video[2 * cell + 1]
    ensures (forall i :: i in b.list ==> b.cells[i].location != cell) && (e.AddNode? ==> e.user.location != cell) ==>
              Step(b, e).video[2 * cell] == b.video[2 * cell]
  {
    if e.Tasklet? {
      TaskletDraws(b.video, b.cells, b.list, cell);
    }
  }

  lemma {:induction false} TaskletDraws(video: seq<byte>, cells: seq<Node>, list: seq<nat>, cell: nat)
    requires |video| == 2 * CELLS && cell < CELLS
    requires forall k :: 0 <= k < |list| ==> list[k] < |cells| && cells[list[k]].location < CELLS
    ensures BlinkAll(video, cells, list)[2 * cell + 1] == video[2 * cell + 1]
    ensures (forall k :: 0 <= k < |list| ==> cells[list[k]].location != cell) ==>
              BlinkAll(video, cells, list)[2 * cell] == video[2 * cell]
  {
    if list != [] {
      TaskletDraws(video, cells, list[..|list| - 1], cell);
    }
  }

  // No other node is at the location of the one in cell i.
  predicate Alone(b: Board, i: nat)
    requires b.Valid() && i in b.list
  {
    forall j :: j in b.list && j != i ==> b.cells[j].location != b.cells[i].location
  }

  predicate Shown(b: Board, i: nat)
    requires b.Valid() && i in b.list
  {
    b.video[2 * b.cells[i].location] == Phase(b.cells[i])
  }

  // Nothing is added where the node in cell i is.
  predicate KeepsOff(b: Board, es: seq<Event>, i: nat)
    requires b.Valid() && AllEnabled(es) && i in b.list && Spared(b, es, i)
    decreases |es|
  {
    es != [] ==>
      && (es[0].AddNode? ==> es[0].user.location != b.cells[i].location)
      && (StepSpares(b, es[0], i); KeepsOff(Step(b, es[0]), es[1..], i))
  }

  lemma StepShows(b: Board, e: Event, i: nat)
    requires b.Valid() && Enabled(e) && i in b.list && !Hits(b, e, i) && Alone(b, i) && Shown(b, i)
    requires e.AddNode? ==> e.user.location != b.cells[i].location
    ensures i in Step(b, e).list && Alone(Step(b, e), i) && Shown(Step(b, e), i)
  {
    StepSpares(b, e, i);
    forall j | j in Step(b, e).list && j != i ensures Step(b, e).cells[j].location != Step(b, e).cells[i].location {
      StepMoves(b, e, j);
    }
    if e.Tasklet? {
      TickShows(b, i);
    }
  }

  lemma TickShows(b: Board, i: nat)
    requires b.Valid() && i in b.list && Alone(b, i) && Shown(b, i)
    ensures Shown(TickStep(b), i)
  {
    var k :| 0 <= k < |b.list| && b.list[k] == i;
    assert forall j :: 0 <= j < |b.list| && j != k ==> b.list[j] in b.list && b.list[j] != i;
    TickShowsPhases(b.video, b.cells, b.list, k);
    TickAllAt(b.cells, b.list, i);
  }

  // A node on the list afterwards was there before, at the same location, or has just been added.
  lemma StepMoves(b: Board, e: Event, j: nat)
    requires b.Valid() && Enabled(e) && j in Step(b, e).list
    ensures if j in b.list then Step(b, e).cells[j].location == b.cells[j].location
            else e.AddNode? && Step(b, e).cells[j].location == e.user.location
  {
    match e
    case AddNode(user) => AddSpares(b, user, j);
    case RemoveAt(location) => RemoveSpares(b, location, j);
    case Tasklet => TickAllAt(b.cells, b.list, j);
    case _ =>
  }

  // So through any run the screen shows the phase of a node that has its location to itself and is not
  // the second one of a sync.
  lemma {:induction false} ShownThroughRun(b: Board, es: seq<Event>, i: nat)
    requires b.Valid() && AllEnabled(es) && i in b.list && Alone(b, i) && Shown(b, i)
    requires Spared(b, es, i) && KeepsOff(b, es, i)
    ensures i in Run(b, es).list && Shown(Run(b, es), i)
    decreases |es|
  {
    if es != [] {
      StepShows(b, es[0], i);
      ShownThroughRun(Step(b, es[0]), es[1..], i);
    }
  }

  // The redisplay after a sync always picks the off character: the screen is right if and only if the
  // node it was copied from is off, or the two characters are the same.
  lemma SyncShowsOff(b: Board, from: word, to: word)
    requires b.Valid() && b.Found(from) != NONE && b.Found(to) != NONE
    ensures b.Found(to) in Step(b, SyncPair(from, to)).list
    ensures var i, j := b.Found(from), b.Found(to);
            Shown(Step(b, SyncPair(from, to)), j) <==> !On(b.cells[i]) || b.cells[j].onChar == b.cells[j].offChar
  {
  }
}
