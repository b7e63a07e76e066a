// The blink device: the routines of blink.S over the pool of fish.c.
module BlinkDevice {
  import opened Bytes
  import opened Blink

  class Blinker {
    const cells: array<Node>      // blink_array
    const video: array<byte>
    var head: int                 // mp1_list_head
    ghost var list: seq<nat>

    ghost predicate Valid()
      reads this, cells
    {
      cells.Length == CELLS && video.Length == 2 * CELLS && Pool(cells[..], head, list)
    }

    ghost function State(): Board
      reads this, cells, video
    {
      Board(cells[..], head, list, video[..])
    }

    constructor (video: array<byte>)
      requires video.Length == 2 * CELLS
      ensures Valid() && list == [] && State().Valid() && this.video == video && fresh(cells)
    {
      this.video := video;
      cells := new Node[CELLS](_ => ZERO_NODE);
      head := NONE;
      list := [];
    }

    // One node of mp1_rtc_tasklet's loop.
    method TickNode(node: nat)
      requires cells.Length == CELLS && video.Length == 2 * CELLS && node < CELLS && cells[node].location < CELLS
      modifies cells, video
      ensures cells[..] == old(cells[..])[node := Tick(old(cells[node]))]
      ensures video[..] == Blinked(old(video[..]), old(cells[node]))
    {
      var c := cells[node];
      var countdown: word := if c.countdown == 0 then 0xFFFF else c.countdown - 1;
      cells[node] := c.(countdown := countdown);
      if 0 < countdown < 0x8000 {
        return;
      }
      var length: word;
      if c.status % 2 == 0 {
        video[2 * c.location] := c.onChar;
        length := c.onLength;
      } else {
        video[2 * c.location] := c.offChar;
        length := c.offLength;
      }
      cells[node] := c.(countdown := length, status := Flip(c.status));
    }

    // mp1_rtc_tasklet: every node counts once, in list order, and the list is as before.
    method Tasklet()
      requires Valid()
      modifies cells, video
      ensures Valid() && State() == TickStep(old(State()))
    {
      ghost var before := cells[..];
      ghost var k: nat := 0;
      var node := head;
      while node != NONE
        invariant k <= |list| && node == (if k < |list| then list[k] else NONE)
        invariant cells[..] == TickAll(before, list[..k])
        invariant video[..] == BlinkAll(old(video[..]), before, list[..k])
        decreases |list| - k
      {
        assert node !in list[..k];
        TickAllAt(before, list[..k], node);
        assert cells[..][node] == before[node];
        assert before[list[k]].next == After(list, k);
        assert list[..k + 1][..k] == list[..k];
        TickNode(node);
        assert cells[..][node] == Tick(before[node]);
        node := cells[node].next;
        k := k + 1;
      }
      assert list[..k] == list;
      TickKeepsPool(before, head, list);
    }

    // mp1_malloc
    method Malloc() returns (i: int)
      requires cells.Length == CELLS
      ensures i == if FirstFree(cells[..]) < CELLS then FirstFree(cells[..]) else NONE
    {
      for k := 0 to CELLS
        invariant forall j :: 0 <= j < k ==> cells[j].location != 0
      {
        if cells[k].location == 0 {
          FirstFreeIs(cells[..], k);
          return k;
        }
      }
      assert FirstFree(cells[..]) == CELLS;
      return NONE;
    }

    // mp1_ioctl_add: the new node goes to the front. It fails for a location off the screen and when
    // every cell is taken. At location 0 it leaves a cell that looks free on the list.
    method Add(user: Node) returns (r: int)
      requires Valid()
      modifies this, cells, video
      ensures user.location != 0 ==> Valid() && State() == AddStep(old(State()), user)
      ensures r == if Addable(old(State()), user) then 0 else -1
      ensures r == 0 ==>
                && (cells[..], head) == Insert(old(cells[..]), old(head), user)
                && video[..] == Poke(old(video[..]), user.location, user.onChar)
      ensures r != 0 ==> State() == old(State())
    {
      if user.location >= CELLS {
        return -1;
      }
      var temp := user.(status := 1, countdown := user.onLength);
      var i := Malloc();
      if i == NONE {
        return -1;
      }
      if user.location != 0 {
        InsertKeepsPool(cells[..], head, list, user);
      }
      cells[i] := temp;
      cells[i] := cells[i].(next := head);
      head := i;
      list := [i] + list;
      assert cells[..] == old(cells[..])[i := Added(user, old(head))];
      video[2 * cells[i].location] := cells[i].onChar;
      r := 0;
    }

    // mp1_find_helper: the most recently added node at the location.
    method FindHelper(location: word) returns (node: int)
      requires Valid()
      ensures node == State().Found(location)
    {
      ghost var k: nat := 0;
      node := head;
      while node != NONE
        invariant k <= |list| && node == (if k < |list| then list[k] else NONE)
        invariant forall j :: 0 <= j < k ==> cells[list[j]].location != location
        decreases |list| - k
      {
        if cells[node].location == location {
          break;
        }
        assert cells[list[k]].next == After(list, k);
        node := cells[node].next;
        k := k + 1;
      }
      FindIs(cells[..], list, location, k);
    }

    // mp1_ioctl_remove: deletes the most recently added node at the location, and nothing else.
    method Remove(location: word) returns (r: int)
      requires Valid()
      modifies this, cells
      ensures Valid() && State() == RemoveStep(old(State()), location)
      ensures r == if old(State()).Found(location) != NONE then 0 else -1
    {
      var node := FindHelper(location);
      if node == NONE {
        return -1;
      }
      ghost var k := Find(cells[..], list, location);
      UnlinkKeepsPool(cells[..], head, list, k);
      TakeOut(node, k);
      r := 0;
    }

    // The walk to the link that leads to the node, and the removal there.
    method TakeOut(node: nat, ghost k: nat)
      requires Valid() && k < |list| && node == list[k]
      modifies this, cells
      ensures (cells[..], head) == Unlink(old(cells[..]), old(head), old(list), k)
      ensures list == Without(old(list), k)
    {
      // `prev` is the cell whose link is being looked at, or NONE for the list head itself
      var prev, link := NONE, head;
      ghost var m: nat := 0;
      while link != node
        invariant m <= k && link == list[m] && prev == (if m == 0 then NONE else list[m - 1])
        decreases k - m
      {
        assert cells[list[m]].next == After(list, m);
        prev := link;
        link := cells[link].next;
        m := m + 1;
      }
      assert m == k;
      if prev == NONE {
        head := cells[node].next;
      } else {
        cells[prev] := cells[prev].(next := cells[node].next);
      }
      cells[node] := ZERO_NODE;
      list := Without(list, k);
    }

    // mp1_ioctl_find: a copy of that node.
    method FindNode(location: word) returns (r: int, copy: Node)
      requires Valid()
      ensures var i := State().Found(location);
              if i != NONE then r == 0 && copy == cells[i] && copy.location == location else r == -1
    {
      var node := FindHelper(location);
      if node == NONE {
        return -1, ZERO_NODE;
      }
      return 0, cells[node];
    }

    // mp1_ioctl_sync: the node found for the low half of the argument takes over the timing of the one
    // found for the high half. The conditional move of the redisplay tests a flag combination that the
    // preceding test never sets, so it is always the off character that is drawn.
    method Sync(arg: nat) returns (r: int)
      requires Valid() && arg < 0x1_0000_0000
      modifies cells, video
      ensures Valid() && State() == SyncStep(old(State()), arg / 0x1_0000, arg % 0x1_0000)
      ensures r == if old(State()).Found(arg / 0x1_0000) != NONE && old(State()).Found(arg % 0x1_0000) != NONE then 0 else -1
    {
      var from := FindHelper(arg / 0x1_0000);
      if from == NONE {
        return -1;
      }
      var to := FindHelper(arg % 0x1_0000);
      if to == NONE {
        return -1;
      }
      ghost var before := cells[..];
      TimingKeepsPool(before, head, list, to, cells[from]);
      cells[to] := cells[to].(onLength := cells[from].onLength);
      cells[to] := cells[to].(offLength := cells[from].offLength);
      cells[to] := cells[to].(countdown := cells[from].countdown);
      cells[to] := cells[to].(status := cells[from].status);
      assert cells[..] == before[to := Synced(before[to], before[from])];
      video[2 * cells[to].location] := cells[to].offChar;
      r := 0;
    }

    // Any sequence of calls: what the lemmas about runs say holds of the device.
    method Serve(es: seq<Event>)
      requires Valid() && AllEnabled(es)
      modifies this, cells, video
      ensures Valid() && State() == Run(old(State()), es)
    {
      ghost var start := State();
      var i := 0;
      assert es[0..] == es;
      while i < |es|
        invariant 0 <= i <= |es| && Valid() && AllEnabled(es[i..])
        invariant Run(State(), es[i..]) == Run(start, es)
      {
        assert es[i..][0] == es[i] && es[i..][1..] == es[i + 1..];
        Handle(es[i]);
        i := i + 1;
      }
      assert es[i..] == [];
    }

    method Handle(e: Event)
      requires Valid() && Enabled(e)
      modifies this, cells, video
      ensures Valid() && State() == Step(old(State()), e)
    {
      match e
      case AddNode(user) => var _ := Add(user);
      case RemoveAt(location) => var _ := Remove(location);
      case FindAt(location) => var _, _ := FindNode(location);
      case SyncPair(from, to) =>
        Halves(from, to);
        var _ := Sync(from * 0x1_0000 + to);
      case Tasklet => Tasklet();
    }
  }

  lemma Halves(from: word, to: word)
    ensures var arg := from * 0x1_0000 + to; arg < 0x1_0000_0000 && arg / 0x1_0000 == from && arg % 0x1_0000 == to
  {
  }
}
