// Processes as values: one stack of them per terminal, over a shared pool of eight pids, and the
// round-robin rotation of the terminals.
module Processes {
  import opened Bytes
  import opened Counting

  const TERMINALS := 3
  const PIDS := 8

  // What is needed to resume a suspended thread of control.
  datatype Context = Context(esp: int, ebp: int)

  type ProcessId = p: nat | p < PIDS

  // A live process, with the context of the execute call that made it; a terminal's root shell has none.
  datatype Proc = Proc(pid: ProcessId, caller: Option<Context>)

  // `running` is -1 before the first tick. `marked` is the pid table. `saved` holds, per terminal, the
  // context it was last preempted in.
  datatype Sys = Sys(running: int, stacks: seq<seq<Proc>>, marked: seq<bool>, saved: seq<Context>)
  {
    ghost predicate Shape() {
      |stacks| == |saved| == TERMINALS && |marked| == PIDS && -1 <= running < TERMINALS
    }

    ghost predicate AllUp()
      requires Shape()
    {
      0 <= running && stacks[0] != [] && stacks[1] != [] && stacks[2] != []
    }

    ghost predicate Live(pid: nat)
      requires Shape()
    {
      exists k, j {:trigger Pid(k, j)} :: At(k, j) && Pid(k, j) == pid
    }

    // The roots come up one per tick; until then nothing else runs.
    ghost predicate BootOrder()
      requires Shape()
    {
      AllUp() || forall k :: 0 <= k < TERMINALS ==> stacks[k] == if k <= running then [Proc(k, None)] else []
    }

    ghost predicate At(k: int, j: int)
      requires Shape()
    {
      0 <= k < TERMINALS && 0 <= j < |stacks[k]|
    }

    ghost function Pid(k: int, j: int): ProcessId
      requires Shape() && At(k, j)
    {
      stacks[k][j].pid
    }

    // No two live processes share a pid.
    ghost predicate Unique()
      requires Shape()
    {
      forall k, j, k', j' {:trigger Pid(k, j), Pid(k', j')} ::
        At(k, j) && At(k', j') && Pid(k, j) == Pid(k', j') ==> k == k' && j == j'
    }

    // Each stack starts with a root and only there has one, and terminal 0's root has pid 0.
    ghost predicate Rooted()
      requires Shape()
    {
      && (forall k, j :: At(k, j) ==> (stacks[k][j].caller == None <==> j == 0))
      && (stacks[0] != [] ==> stacks[0][0].pid == 0)
    }

    // The marked pids are exactly those of the live processes.
    ghost predicate Marks()
      requires Shape()
    {
      && (forall k, j {:trigger Pid(k, j)} :: At(k, j) ==> marked[Pid(k, j)])
      && (forall i :: 0 <= i < PIDS && marked[i] ==> Live(i))
    }

    ghost predicate Inv() { Shape() && BootOrder() && Unique() && Rooted() && Marks() }

    ghost function Top(): (p: Proc)
      requires Inv() && 0 <= running
      ensures marked[p.pid]
    {
      var st := stacks[running];
      assert At(running, |st| - 1) && Pid(running, |st| - 1) == st[|st| - 1].pid;
      st[|st| - 1]
    }
  }

  function Next(running: int): int { (running + 1) % TERMINALS }

  // ---- The steps ----

  function LeastUnmarked(marked: seq<bool>): (r: nat)
    ensures r <= |marked| && (forall i :: 0 <= i < r ==> marked[i]) && (r < |marked| ==> !marked[r])
  {
    if marked == [] || !marked[0] then 0 else 1 + LeastUnmarked(marked[1..])
  }

  // A new process on top of terminal k's stack, with the least free pid; -1 if there is none.
  function Spawn(s: Sys, k: int, caller: Option<Context>): (r: (Sys, int))
    requires |s.stacks| == TERMINALS && |s.marked| == PIDS && 0 <= k < TERMINALS
  {
    var p: int := LeastUnmarked(s.marked);
    if p == PIDS then (s, -1)
    else (s.(stacks := s.stacks[k := s.stacks[k] + [Proc(p, caller)]], marked := s.marked[p := true]), p)
  }

  function Execute(s: Sys, ctx: Context): (Sys, int)
    requires |s.stacks| == TERMINALS && |s.marked| == PIDS && 0 <= s.running < TERMINALS
  {
    Spawn(s, s.running, Some(ctx))
  }

  // A child returns to its parent. A root is replaced by a new root, after pid 0 has been freed.
  function Halt(s: Sys): (Sys, Option<Context>)
    requires |s.stacks| == TERMINALS && |s.marked| == PIDS && 0 <= s.running < TERMINALS && s.stacks[s.running] != []
  {
    var st := s.stacks[s.running];
    var n := |st| - 1;
    if n > 0 then
      (s.(stacks := s.stacks[s.running := st[..n]], marked := s.marked[st[n].pid := false]), st[n].caller)
    else
      (Spawn(s.(stacks := s.stacks[s.running := []], marked := s.marked[0 := false]), s.running, None).0, None)
  }

  // The next terminal gets the processor; the first time round it gets a shell.
  function Tick(s: Sys, ctx: Context): (Sys, Option<Context>)
    requires s.Shape()
  {
    var n := Next(s.running);
    var s' := s.(running := n, saved := s.saved[Next(Next(n)) := ctx]);
    if s.stacks[n] == [] then (Spawn(s', n, None).0, None) else (s', Some(s.saved[n]))
  }

  datatype Event = Ticked(ctx: Context) | Executed(ctx: Context) | Halted

  // Programs run once all shells are up. Of the roots, only the one with pid 0 may exit.
  ghost predicate Enabled(s: Sys, e: Event)
  {
    && s.Inv()
    && (!e.Ticked? ==> s.AllUp())
    && (e.Halted? ==> |s.stacks[s.running]| > 1 || s.Top().pid == 0)
  }

  function Step(s: Sys, e: Event): Sys
    requires Enabled(s, e)
  {
    match e
    case Ticked(ctx) => Tick(s, ctx).0
    case Executed(ctx) => Execute(s, ctx).0
    case Halted => Halt(s).0
  }

  const BOOT := Sys(-1, [[], [], []], seq(PIDS, _ => false), seq(TERMINALS, _ => Context(0, 0)))

  lemma BootInv()
    ensures BOOT.Inv()
  {
  }

  // ---- Pid accounting ----

  // Pushing a process with an unused pid, and marking that.
  function Push(s: Sys, k: int, proc: Proc): Sys
    requires s.Shape() && 0 <= k < TERMINALS
  {
    s.(stacks := s.stacks[k := s.stacks[k] + [proc]], marked := s.marked[proc.pid := true])
  }

  lemma PushUnique(s: Sys, k: int, proc: Proc)
    requires s.Shape() && s.Unique() && s.Marks() && 0 <= k < TERMINALS && !s.marked[proc.pid]
    ensures Push(s, k, proc).Unique()
  {
    var s' := Push(s, k, proc);
    forall k1, j1, k2, j2 | s'.At(k1, j1) && s'.At(k2, j2) && s'.Pid(k1, j1) == s'.Pid(k2, j2)
      ensures k1 == k2 && j1 == j2
    {
      assert s.At(k1, j1) ==> s.Pid(k1, j1) == s'.Pid(k1, j1);
      assert s.At(k2, j2) ==> s.Pid(k2, j2) == s'.Pid(k2, j2);
    }
  }

  lemma PushMarks(s: Sys, k: int, proc: Proc)
    requires s.Shape() && s.Marks() && 0 <= k < TERMINALS
    ensures Push(s, k, proc).Marks()
  {
    var s' := Push(s, k, proc);
    forall k1, j1 | s'.At(k1, j1) ensures s'.marked[s'.Pid(k1, j1)] {
      assert s.At(k1, j1) ==> s.Pid(k1, j1) == s'.Pid(k1, j1);
    }
    forall i | 0 <= i < PIDS && s'.marked[i] ensures s'.Live(i) {
      if i == proc.pid {
        assert s'.At(k, |s.stacks[k]|) && s'.Pid(k, |s.stacks[k]|) == i;
      } else {
        var k1, j1 :| s.At(k1, j1) && s.Pid(k1, j1) == i;
        assert s'.At(k1, j1) && s'.Pid(k1, j1) == i;
      }
    }
  }

  lemma SpawnKeepsInv(s: Sys, k: int, caller: Option<Context>)
    requires s.Inv() && s.AllUp() && 0 <= k < TERMINALS && caller.Some?
    ensures Spawn(s, k, caller).0.Inv() && Spawn(s, k, caller).0.AllUp()
  {
    var (s', p) := Spawn(s, k, caller);
    if p != -1 {
      PushUnique(s, k, Proc(p, caller));
      PushMarks(s, k, Proc(p, caller));
      assert s' == Push(s, k, Proc(p, caller));
      assert forall k', j :: s'.At(k', j) && !s.At(k', j) ==> k' == k && j == |s.stacks[k]| > 0;
    }
  }

  // Taking the top process of a stack off, and unmarking its pid.
  function Pop(s: Sys, k: int): Sys
    requires s.Shape() && 0 <= k < TERMINALS && s.stacks[k] != []
  {
    var n := |s.stacks[k]| - 1;
    s.(stacks := s.stacks[k := s.stacks[k][..n]], marked := s.marked[s.stacks[k][n].pid := false])
  }

  lemma PopKeeps(s: Sys, k: int)
    requires s.Shape() && s.Unique() && s.Marks() && 0 <= k < TERMINALS && s.stacks[k] != []
    ensures Pop(s, k).Unique() && Pop(s, k).Marks()
  {
    var s' := Pop(s, k);
    var n := |s.stacks[k]| - 1;
    assert s.At(k, n) && s.Pid(k, n) == s.stacks[k][n].pid;
    forall k1, j1 | s'.At(k1, j1) ensures s.At(k1, j1) && s'.Pid(k1, j1) == s.Pid(k1, j1) != s.Pid(k, n) {
      assert k1 == k ==> j1 != n;
    }
    forall i | 0 <= i < PIDS && s'.marked[i] ensures s'.Live(i) {
      var k1, j1 :| s.At(k1, j1) && s.Pid(k1, j1) == i;
      assert s'.At(k1, j1) && s'.Pid(k1, j1) == i;
    }
  }

  lemma HaltKeepsInv(s: Sys)
    requires Enabled(s, Halted)
    ensures Halt(s).0.Inv() && Halt(s).0.AllUp()
  {
    var k := s.running;
    var st := s.stacks[k];
    var n := |st| - 1;
    assert s.At(k, n) && s.Pid(k, n) == st[n].pid;
    PopKeeps(s, k);
    if n > 0 {
      assert Halt(s).0 == Pop(s, k);
      assert forall k', j :: Pop(s, k).At(k', j) ==> s.At(k', j);
    } else {
      RootRestarts(s);
    }
  }

  // The process that runs on the terminal once the running one has halted.
  ghost function Successor(s: Sys): ProcessId
    requires s.Inv() && s.AllUp()
  {
    var st := s.stacks[s.running];
    st[if |st| > 1 then |st| - 2 else 0].pid
  }

  lemma HaltIsPop(s: Sys)
    requires s.Inv() && s.AllUp() && |s.stacks[s.running]| > 1
    ensures var st := s.stacks[s.running];
            && Halt(s) == (Pop(s, s.running), st[|st| - 1].caller)
            && Pop(s, s.running).Inv() && Pop(s, s.running).AllUp() && Pop(s, s.running).Top() == st[|st| - 2]
  {
    HaltKeepsInv(s);
  }

  lemma HaltGivesWay(s: Sys)
    requires Enabled(s, Halted)
    ensures Halt(s).0.Inv() && Halt(s).0.AllUp() && Halt(s).0.Top().pid == Successor(s)
  {
    HaltKeepsInv(s);
    if |s.stacks[s.running]| == 1 {
      RootRestarts(s);
    }
  }

  // The root with pid 0 is replaced by one just like it.
  lemma RootRestarts(s: Sys)
    requires Enabled(s, Halted) && |s.stacks[s.running]| == 1
    ensures Halt(s).0 == s
  {
    var k := s.running;
    assert s.At(k, 0) && s.Pid(k, 0) == 0;
    assert s.stacks[k][0] == Proc(0, None);
    var freed := s.(stacks := s.stacks[k := []], marked := s.marked[0 := false]);
    assert LeastUnmarked(freed.marked) == 0;
    assert [] + [Proc(0, None)] == s.stacks[k];
    assert freed.stacks[k := s.stacks[k]] == s.stacks;
    assert freed.marked[0 := true] == s.marked;
  }

  // If any other root exits, pid 0 is freed under the process that has it. So pid accounting survives
  // an exit if and only if the process is no root, or is the root with pid 0.
  lemma ExitKeepsAccounting(s: Sys)
    requires s.Inv() && s.AllUp()
    ensures Halt(s).0.Inv() <==> |s.stacks[s.running]| > 1 || s.Top().pid == 0
  {
    var k := s.running;
    assert s.At(k, 0) && s.At(0, 0) && s.Pid(0, 0) == 0;
    if |s.stacks[k]| > 1 || s.Top().pid == 0 {
      HaltKeepsInv(s);
    } else {
      assert s.Pid(k, 0) != 0 && k != 0;
      var freed := s.(stacks := s.stacks[k := []], marked := s.marked[0 := false]);
      assert LeastUnmarked(freed.marked) == 0;
      var s' := Halt(s).0;
      assert s'.stacks[k] == [] + [Proc(0, None)];
      assert s'.At(0, 0) && s'.Pid(0, 0) == 0 && s'.At(k, 0) && s'.Pid(k, 0) == 0;
    }
  }

  // While the shells come up, terminal n's gets pid n.
  lemma BootTickKeepsInv(s: Sys, ctx: Context)
    requires s.Inv() && !s.AllUp()
    ensures Tick(s, ctx).0.Inv()
  {
    var n := Next(s.running);
    assert n == s.running + 1 && s.stacks[n] == [];
    forall i | 0 <= i < n ensures s.marked[i] {
      assert s.At(i, 0) && s.Pid(i, 0) == i;
    }
    assert forall i :: n <= i < PIDS && s.marked[i] ==> s.Live(i);
    LeastUnmarkedIs(s.marked, n);
    var s1 := s.(running := n, saved := s.saved[Next(Next(n)) := ctx]);
    PushUnique(s, n, Proc(n, None));
    PushMarks(s, n, Proc(n, None));
    var s' := Tick(s, ctx).0;
    assert s'.stacks == Push(s, n, Proc(n, None)).stacks && s'.marked == Push(s, n, Proc(n, None)).marked;
    SameTables(Push(s, n, Proc(n, None)), s');
  }

  lemma SameTables(s: Sys, s': Sys)
    requires s.Shape() && s'.Shape() && s.stacks == s'.stacks && s.marked == s'.marked
    ensures s.Unique() ==> s'.Unique()
    ensures s.Marks() ==> s'.Marks()
  {
    assert forall k, j :: s'.At(k, j) ==> s.At(k, j) && s.Pid(k, j) == s'.Pid(k, j);
    if s.Marks() {
      forall i | 0 <= i < PIDS && s'.marked[i] ensures s'.Live(i) {
        var k, j :| s.At(k, j) && s.Pid(k, j) == i;
        assert s'.At(k, j) && s'.Pid(k, j) == i;
      }
    }
  }

  lemma {:induction false} LeastUnmarkedIs(marked: seq<bool>, i: nat)
    requires i < |marked| && !marked[i] && forall j :: 0 <= j < i ==> marked[j]
    ensures LeastUnmarked(marked) == i
  {
    if i > 0 {
      LeastUnmarkedIs(marked[1..], i - 1);
    }
  }

  lemma TickKeepsInv(s: Sys, ctx: Context)
    requires s.Inv()
    ensures Tick(s, ctx).0.Inv() && (s.AllUp() ==> Tick(s, ctx).0.AllUp())
  {
    if s.AllUp() {
      var s' := Tick(s, ctx).0;
      SameTables(s, s');
      assert forall k, j :: s'.At(k, j) ==> s.At(k, j);
    } else {
      BootTickKeepsInv(s, ctx);
    }
  }

  lemma StepKeepsInv(s: Sys, e: Event)
    requires Enabled(s, e)
    ensures Step(s, e).Inv() && (s.AllUp() ==> Step(s, e).AllUp())
  {
    match e
    case Ticked(ctx) => TickKeepsInv(s, ctx);
    case Executed(ctx) => SpawnKeepsInv(s, s.running, Some(ctx));
    case Halted => HaltKeepsInv(s);
  }

  // ---- Whole runs ----

  ghost predicate AllEnabled(s: Sys, es: seq<Event>)
    decreases |es|
  {
    es == [] || (Enabled(s, es[0]) && AllEnabled(Step(s, es[0]), es[1..]))
  }

  // Pid accounting holds in every state any run reaches, the boot included.
  function Run(s: Sys, es: seq<Event>): (r: Sys)
    requires s.Inv() && AllEnabled(s, es)
    ensures r.Inv() && (s.AllUp() ==> r.AllUp())
    decreases |es|
  {
    if es == [] then s
    else
      StepKeepsInv(s, es[0]);
      Run(Step(s, es[0]), es[1..])
  }

  // ---- Capacity ----

  ghost function LiveCount(s: Sys): nat
    requires s.Shape()
  {
    |s.stacks[0]| + |s.stacks[1]| + |s.stacks[2]|
  }

  ghost function PidAt(s: Sys, i: nat): nat
    requires s.Shape() && i < LiveCount(s)
  {
    var a, b := |s.stacks[0]|, |s.stacks[1]|;
    if i < a then s.Pid(0, i) else if i < a + b then s.Pid(1, i - a) else s.Pid(2, i - a - b)
  }

  // At most eight processes are live, and execute finds no pid exactly when there are eight.
  lemma Capacity(s: Sys, ctx: Context)
    requires s.Inv() && s.AllUp()
    ensures LiveCount(s) <= PIDS
    ensures Execute(s, ctx).1 == -1 <==> LiveCount(s) == PIDS
  {
    var pids := seq(LiveCount(s), i requires 0 <= i < LiveCount(s) => PidAt(s, i));
    Pigeonhole(pids, PIDS);
    var a, b := |s.stacks[0]|, |s.stacks[1]|;
    forall i: nat | i < PIDS ensures s.marked[i] <==> i in pids {
      if s.marked[i] {
        var k, j :| s.At(k, j) && s.Pid(k, j) == i;
        assert pids[if k == 0 then j else if k == 1 then a + j else a + b + j] == i;
      }
    }
    assert LeastUnmarked(s.marked) == PIDS <==> forall i: nat :: i < PIDS ==> s.marked[i];
  }

  // ---- Memory ----

  const EIGHT_MB := 0x800000
  const FOUR_MB := 0x400000
  const EIGHT_KB := 0x2000

  // PCB and kernel stack share 8 KB below 8 MB; the user page maps 4 MB above it.
  function PcbBase(pid: nat): int { EIGHT_MB - (pid + 1) * EIGHT_KB }

  function Esp0(pid: nat): int { EIGHT_MB - pid * EIGHT_KB - 4 }

  function UserFrame(pid: nat): int { EIGHT_MB + FOUR_MB * pid }

  // The registers and tables of the PCB at the bottom of the 8 KB: eight descriptors of 16 bytes, six words
  // and the arguments.
  const PCB_SIZE := 8 * 16 + 6 * 4 + 128

  // The w-th word pushed on the kernel stack, counting from 1, while there is room above the PCB.
  function Pushed(pid: nat, w: int): int { Esp0(pid) - 4 * w }

  predicate Apart(a: int, b: int, size: int) { a + size <= b || b + size <= a }

  // No two live processes share a kernel stack, a PCB or a user page, and each one's kernel stack
  // pointer lies in its own 8 KB, inside the kernel's page and below every user page.
  lemma MemoryApart(s: Sys, k: int, j: int, k': int, j': int)
    requires s.Inv() && s.At(k, j) && s.At(k', j') && (k, j) != (k', j')
    ensures Apart(PcbBase(s.Pid(k, j)), PcbBase(s.Pid(k', j')), EIGHT_KB)
    ensures Apart(UserFrame(s.Pid(k, j)), UserFrame(s.Pid(k', j')), FOUR_MB)
    ensures PcbBase(s.Pid(k, j)) <= Esp0(s.Pid(k, j)) < PcbBase(s.Pid(k, j)) + EIGHT_KB
    ensures FOUR_MB <= PcbBase(s.Pid(k, j)) && PcbBase(s.Pid(k, j)) + EIGHT_KB <= EIGHT_MB <= UserFrame(s.Pid(k', j'))
  {
    assert s.Pid(k, j) != s.Pid(k', j');
  }

  // The regions lie side by side, downwards from 8 MB, and the user frames upwards from there, each on a 4 MB
  // boundary as its page needs it.
  lemma MemoryLayout(pid: nat)
    requires pid < PIDS
    ensures PcbBase(pid) + EIGHT_KB == if pid == 0 then EIGHT_MB else PcbBase(pid - 1)
    ensures UserFrame(pid) == if pid == 0 then EIGHT_MB else UserFrame(pid - 1) + FOUR_MB
    ensures UserFrame(pid) % FOUR_MB == 0 && PcbBase(pid) % EIGHT_KB == 0
  {
  }

  // The kernel stack of a process has all of its 8 KB above the PCB, but for the word the stack pointer
  // starts at: every word pushed, down to the PCB, lies in the process's own region, above its PCB, and in
  // no other live process's region; and there are as many as fit.
  lemma StackFits(s: Sys, k: int, j: int, w: int)
    requires s.Inv() && s.At(k, j) && 1 <= w
    ensures Esp0(s.Pid(k, j)) + 4 == PcbBase(s.Pid(k, j)) + EIGHT_KB
    ensures PcbBase(s.Pid(k, j)) + PCB_SIZE <= Pushed(s.Pid(k, j), w) <==> 4 * (w + 1) + PCB_SIZE <= EIGHT_KB
    ensures 4 * (w + 1) + PCB_SIZE <= EIGHT_KB ==>
              var a := Pushed(s.Pid(k, j), w);
              && PcbBase(s.Pid(k, j)) + PCB_SIZE <= a && a + 4 <= Esp0(s.Pid(k, j))
              && forall k', j' {:trigger s.Pid(k', j')} :: s.At(k', j') && (k', j') != (k, j) ==>
                   a + 4 <= PcbBase(s.Pid(k', j')) || PcbBase(s.Pid(k', j')) + EIGHT_KB <= a
  {
    forall k', j' {:trigger s.Pid(k', j')} | s.At(k', j') && (k', j') != (k, j)
      ensures Apart(PcbBase(s.Pid(k, j)), PcbBase(s.Pid(k', j')), EIGHT_KB)
    {
      MemoryApart(s, k, j, k', j');
    }
  }
}
