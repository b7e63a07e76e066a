// The scheduler and the process calls as the kernel implements them: PCBs linked by parent pointers,
// contexts kept in slots shifted by one terminal, and a page and stack pointer to keep in step.
module Kernel {
  import opened Bytes
  import opened Processes

  const PAGE_SIZE := 4096

  class Pcb {
    var pid: int
    var esp: int
    var ebp: int
    var parent: Pcb?
    var esp0: int

    constructor ()
      ensures pid == esp == ebp == esp0 == 0 && parent == null
    {
      pid, esp, ebp, esp0, parent := 0, 0, 0, 0, null;
    }
  }

  class Machine {
    const pcbs: seq<Pcb>             // the PCB of pid i is at 8 MB - (i + 1) * 8 KB
    const pidArray: array<int>
    const active: array<Pcb?>        // terminal[k].active_process
    const slots: array<Context>      // terminal[k].esp and ebp
    var terminalNum: int
    var userPage: int                // base_address of the user page's directory entry
    var tssEsp0: int
    var retVal: int
    ghost var stacks: seq<seq<Proc>>

    ghost predicate Shape()
      reads this
    {
      && |pcbs| == PIDS && (forall i, j :: 0 <= i < j < PIDS ==> pcbs[i] != pcbs[j])
      && pidArray.Length == PIDS && active.Length == TERMINALS && slots.Length == TERMINALS
      && |stacks| == TERMINALS && -1 <= terminalNum < TERMINALS
    }

    // Terminal k's context lies in slot k + 1.
    ghost function State(): (s: Sys)
      requires Shape()
      reads this, pidArray, slots
      ensures s.Shape()
    {
      Sys(terminalNum, stacks,
          seq(PIDS, i requires 0 <= i < PIDS reads pidArray => pidArray[i] == 1),
          [slots[1], slots[2], slots[0]])
    }

    // The PCB of the j-th process on terminal k's stack.
    ghost predicate Recorded(k: int, j: int)
      requires Shape() && State().At(k, j)
      reads this, pidArray, slots, pcbs
    {
      var proc := stacks[k][j];
      var p := pcbs[proc.pid];
      && p.pid == proc.pid && p.esp0 == Esp0(proc.pid)
      && p.parent == (if j == 0 then null else pcbs[stacks[k][j - 1].pid])
      && (proc.caller.Some? ==> Context(p.esp, p.ebp) == proc.caller.value)
    }

    ghost function ActiveOf(k: int): Pcb?
      requires Shape() && 0 <= k < TERMINALS
      reads this
    {
      if stacks[k] == [] then null else pcbs[stacks[k][|stacks[k]| - 1].pid]
    }

    // The parent chains are the stacks.
    ghost predicate Wired()
      reads this, pidArray, active, slots, pcbs
    {
      && Shape() && State().Unique() && State().Marks()
      && (forall k, j :: State().At(k, j) ==> Recorded(k, j))
      && (forall k :: 0 <= k < TERMINALS ==> active[k] == ActiveOf(k))
    }

    // n steps along the parent pointers.
    ghost function Ancestor(p: Pcb?, n: nat): Pcb?
      reads pcbs
    {
      if n == 0 then p
      else
        var q := Ancestor(p, n - 1);
        if q == null || q !in pcbs then null else q.parent
    }

    // Each terminal's chain runs down its stack and ends behind the root.
    lemma {:induction false} ChainIsStack(k: nat, n: nat)
      requires Wired() && k < TERMINALS && n <= |stacks[k]| && stacks[k] != []
      ensures Ancestor(active[k], n) == if n < |stacks[k]| then pcbs[stacks[k][|stacks[k]| - 1 - n].pid] else null
    {
      if n > 0 {
        ChainIsStack(k, n - 1);
        assert State().At(k, |stacks[k]| - n) && Recorded(k, |stacks[k]| - n);
      }
    }

    // So no chain comes back on itself, and the chains of different terminals never meet.
    lemma ChainsApart(k: nat, n: nat, k': nat, n': nat)
      requires Wired() && k < TERMINALS && k' < TERMINALS
      requires n < |stacks[k]| && n' < |stacks[k']| && (k, n) != (k', n')
      ensures Ancestor(active[k], n) != Ancestor(active[k'], n')
    {
      ChainIsStack(k, n);
      ChainIsStack(k', n');
      var j, j' := |stacks[k]| - 1 - n, |stacks[k']| - 1 - n';
      assert State().At(k, j) && State().At(k', j') && State().Pid(k, j) != State().Pid(k', j');
    }

    // The user page and the stack pointer for system calls are those of process `pid`.
    ghost predicate Serves(pid: nat)
      reads this
    {
      userPage * PAGE_SIZE == UserFrame(pid) && tssEsp0 == Esp0(pid)
    }

    ghost predicate Valid()
      reads this, pidArray, active, slots, pcbs
    {
      && Wired() && State().Inv()
      && (!State().AllUp() ==> forall i :: 0 <= i < PIDS ==> pcbs[i].parent == null)
      && (0 <= terminalNum ==> Serves(State().Top().pid))
    }

    method UserPageInit(pid: nat)
      requires pid < PIDS
      modifies `userPage
      ensures userPage * PAGE_SIZE == UserFrame(pid)
    {
      userPage := (EIGHT_MB + FOUR_MB * pid) / PAGE_SIZE;
    }

    // The pid table is searched for the least free entry, which is taken.
    method AllocatePid() returns (i: nat)
      requires Shape()
      modifies pidArray
      ensures i == LeastUnmarked(old(State()).marked)
      ensures i == PIDS ==> State() == old(State())
      ensures i < PIDS ==> State() == old(State()).(marked := old(State()).marked[i := true])
    {
      i := 0;
      while i < PIDS && pidArray[i] == 1
        invariant 0 <= i <= PIDS && forall j :: 0 <= j < i ==> pidArray[j] == 1
      {
        i := i + 1;
      }
      ghost var marked := State().marked;
      if i == PIDS {
        AllMarked(marked);
      } else {
        LeastUnmarkedIs(marked, i);
        pidArray[i] := 1;
        assert State().marked == marked[i := true];
      }
    }

    // Every other PCB is as before, and the new process sits on top of the running terminal's stack.
    twostate lemma PushedIsWired(proc: Proc)
      requires old(Wired()) && Shape() && 0 <= terminalNum == old(terminalNum)
      requires !old(State()).marked[proc.pid]
      requires State() == Push(old(State()), terminalNum, proc)
      requires forall j :: 0 <= j < PIDS && j != proc.pid ==> unchanged(pcbs[j])
      requires forall k :: 0 <= k < TERMINALS ==> active[k] == if k == terminalNum then pcbs[proc.pid] else old(active[k])
      requires pcbs[proc.pid].pid == proc.pid && pcbs[proc.pid].esp0 == Esp0(proc.pid)
      requires pcbs[proc.pid].parent == old(ActiveOf(terminalNum))
      requires proc.caller.Some? ==> Context(pcbs[proc.pid].esp, pcbs[proc.pid].ebp) == proc.caller.value
      ensures Wired()
    {
      PushUnique(old(State()), terminalNum, proc);
      PushMarks(old(State()), terminalNum, proc);
      forall k, j | State().At(k, j) ensures Recorded(k, j) {
        if old(State()).At(k, j) {
          assert old(Recorded(k, j)) && old(State()).Pid(k, j) != proc.pid;
        }
      }
    }

    // A root keeps the parent pointer it finds in its PCB; a child also records where its parent goes on.
    method FillPcb(pcb: Pcb, i: nat, parent: Pcb?, ctx: Context)
      modifies pcb
      ensures pcb.pid == i && pcb.esp0 == Esp0(i)
      ensures pcb.parent == if parent == null then old(pcb.parent) else parent
      ensures pcb.parent != null ==> pcb.esp == ctx.esp && pcb.ebp == ctx.ebp
    {
      pcb.pid := i;
      if parent != null {
        pcb.parent := parent;
      }
      if pcb.parent != null {
        pcb.esp := ctx.esp;
        pcb.ebp := ctx.ebp;
      } else {
        pcb.parent := null;
      }
      pcb.esp0 := EIGHT_MB - i * EIGHT_KB - 4;
    }

    // execute, once the command has named a program that can be loaded.
    method Launch(ctx: Context) returns (r: int)
      requires Wired() && 0 <= terminalNum
      requires stacks[terminalNum] == [] ==>
                 var p := LeastUnmarked(State().marked); p < PIDS ==> pcbs[p].parent == null
      modifies this, pidArray, active, pcbs
      ensures Wired() && terminalNum == old(terminalNum)
      ensures var caller := if old(stacks[terminalNum]) == [] then None else Some(ctx);
              State() == Spawn(old(State()), terminalNum, caller).0 && r == Spawn(old(State()), terminalNum, caller).1
      ensures r != -1 ==> r >= 0 && Serves(r)
      ensures retVal == old(retVal)
      ensures r == -1 ==> userPage == old(userPage) && tssEsp0 == old(tssEsp0)
      ensures forall i :: 0 <= i < PIDS && i != r ==> unchanged(pcbs[i])
      ensures old(stacks[terminalNum]) == [] && r != -1 ==> pcbs[r].parent == null
    {
      var i := AllocatePid();
      if i == PIDS {
        return -1;
      }
      ghost var proc := Proc(i, if active[terminalNum] == null then None else Some(ctx));
      FillPcb(pcbs[i], i, active[terminalNum], ctx);
      active[terminalNum] := pcbs[i];
      UserPageInit(i);
      tssEsp0 := pcbs[i].esp0;
      stacks := stacks[terminalNum := stacks[terminalNum] + [proc]];
      PushedIsWired(proc);
      r := i;
    }

    // Before the first tick: no process, and the places reserved for the PCBs are zeroed.
    constructor (pcbs: seq<Pcb>)
      requires |pcbs| == PIDS && forall i, j :: 0 <= i < j < PIDS ==> pcbs[i] != pcbs[j]
      requires forall i :: 0 <= i < PIDS ==> pcbs[i].parent == null
      ensures Valid() && State() == BOOT && this.pcbs == pcbs
    {
      this.pcbs := pcbs;
      pidArray := new int[PIDS](_ => 0);
      active := new Pcb?[TERMINALS](_ => null);
      slots := new Context[TERMINALS](_ => Context(0, 0));
      terminalNum, userPage, tssEsp0, retVal := -1, 0, 0, 0;
      stacks := [[], [], []];
      new;
      assert State().marked == BOOT.marked && State().saved == BOOT.saved;
      BootInv();
    }

    // execute, from the search for a pid on.
    method Execute(ctx: Context) returns (r: int)
      requires Valid() && State().AllUp()
      modifies this, pidArray, active, pcbs
      ensures Valid() && State().AllUp()
      ensures State() == Processes.Execute(old(State()), ctx).0 && r == Processes.Execute(old(State()), ctx).1
    {
      SpawnKeepsInv(State(), terminalNum, Some(ctx));
      r := Launch(ctx);
    }

    // What a valid machine knows about the running process's PCB.
    lemma TopRecorded()
      requires Wired() && State().Inv() && 0 <= terminalNum && stacks[terminalNum] != []
      ensures var st := stacks[terminalNum];
              var n := |st| - 1;
              && active[terminalNum] == pcbs[st[n].pid]
              && pcbs[st[n].pid].pid == st[n].pid && pcbs[st[n].pid].esp0 == Esp0(st[n].pid)
              && (n == 0 ==> pcbs[st[n].pid].parent == null && st[n].caller == None)
              && (n > 0 ==>
                    && pcbs[st[n].pid].parent == pcbs[st[n - 1].pid]
                    && pcbs[st[n - 1].pid].pid == st[n - 1].pid
                    && pcbs[st[n - 1].pid].esp0 == Esp0(st[n - 1].pid)
                    && Some(Context(pcbs[st[n].pid].esp, pcbs[st[n].pid].ebp)) == st[n].caller)
    {
      var n := |stacks[terminalNum]| - 1;
      assert State().At(terminalNum, n) && Recorded(terminalNum, n);
      if n > 0 {
        assert State().At(terminalNum, n - 1) && Recorded(terminalNum, n - 1);
      }
    }

    // active_process->pid
    method TopPid() returns (pid: ProcessId)
      requires Valid() && 0 <= terminalNum
      ensures pid == State().Top().pid
    {
      TopRecorded();
      pid := active[terminalNum].pid;
    }

    // The process a halt leaves running: the parent, or the root that starts over.
    method SuccessorPid() returns (pid: ProcessId)
      requires Valid() && State().AllUp()
      ensures pid == Successor(State())
    {
      TopRecorded();
      var process := active[terminalNum];
      pid := if process.parent != null then process.parent.pid else process.pid;
    }

    twostate lemma MovedIsWired()
      requires old(Wired()) && Shape() && stacks == old(stacks)
      requires unchanged(pidArray) && unchanged(active) && forall i :: 0 <= i < PIDS ==> unchanged(pcbs[i])
      ensures Wired() && State().marked == old(State()).marked
    {
      assert State().marked == old(State()).marked;
      SameTables(old(State()), State());
      forall k, j | State().At(k, j) ensures Recorded(k, j) {
        assert old(Recorded(k, j));
      }
    }

    // scheduler(): the interrupted context is saved in the slot of the next terminal, whose own context
    // waits one slot further on. The first time a terminal's turn comes it gets a shell instead.
    method Tick(ctx: Context) returns (resumed: Option<Context>)
      requires Valid()
      modifies this, pidArray, active, slots, pcbs
      ensures Valid()
      ensures State() == Processes.Tick(old(State()), ctx).0 && resumed == Processes.Tick(old(State()), ctx).1
    {
      ghost var s := State();
      TickKeepsInv(s, ctx);
      Advance(ctx);
      if active[terminalNum] == null {
        assert stacks[terminalNum] == [];
        FirstShell(s, ctx);
        return None;
      }
      assert Processes.Tick(s, ctx) == (State(), Some(State().saved[terminalNum]));
      resumed := Resume();
    }

    // The first turn of a terminal, s being the state before the tick.
    method FirstShell(ghost s: Sys, ctx: Context)
      requires Wired() && 0 <= terminalNum && stacks[terminalNum] == []
      requires forall i :: 0 <= i < PIDS ==> pcbs[i].parent == null
      requires s.Inv() && Processes.Tick(s, ctx).0.Inv()
      requires Processes.Tick(s, ctx) == (Spawn(State(), terminalNum, None).0, None)
      modifies this, pidArray, active, pcbs
      ensures Valid() && State() == Processes.Tick(s, ctx).0
    {
      FirstSpawn(s, State(), ctx);
      var _ := Launch(ctx);
    }

    method Advance(ctx: Context)
      requires Wired()
      modifies `terminalNum, slots
      ensures Wired()
      ensures var n := Next(old(terminalNum));
              State() == old(State()).(running := n, saved := old(State()).saved[Next(Next(n)) := ctx])
    {
      terminalNum := terminalNum + 1;
      terminalNum := terminalNum % TERMINALS;
      slots[terminalNum] := ctx;
      MovedIsWired();
    }

    // The running terminal's active process gets its page and kernel stack, and its context is taken up.
    method Resume() returns (resumed: Option<Context>)
      requires Wired() && State().Inv() && 0 <= terminalNum && stacks[terminalNum] != []
      modifies `userPage, `tssEsp0
      ensures Wired() && State() == old(State()) && Serves(State().Top().pid)
      ensures resumed == Some(State().saved[terminalNum])
    {
      TopRecorded();
      assert State().saved[terminalNum] == slots[(terminalNum + 1) % TERMINALS];
      UserPageInit(active[terminalNum].pid);
      resumed := Some(slots[(terminalNum + 1) % TERMINALS]);
      tssEsp0 := active[terminalNum].esp0;
      MovedIsWired();
    }

    twostate lemma PoppedIsWired(pid: ProcessId)
      requires old(Wired()) && Shape() && 0 <= terminalNum == old(terminalNum) && old(stacks[terminalNum]) != []
      requires pid == old(stacks[terminalNum])[|old(stacks[terminalNum])| - 1].pid
      requires State() == Pop(old(State()), terminalNum)
      requires forall i :: 0 <= i < PIDS ==> unchanged(pcbs[i])
      requires forall k :: 0 <= k < TERMINALS && k != terminalNum ==> active[k] == old(active[k])
      requires active[terminalNum] == ActiveOf(terminalNum)
      ensures Wired()
    {
      PopKeeps(old(State()), terminalNum);
      forall k, j | State().At(k, j) ensures Recorded(k, j) {
        assert old(State()).At(k, j) && old(Recorded(k, j));
      }
    }

    // halt: a child hands back to its parent; a root shell is started again.
    method Halt(status: byte, here: Context) returns (resumed: Option<Context>)
      requires Valid() && State().AllUp() && Enabled(State(), Halted)
      modifies this, pidArray, active, pcbs
      ensures Valid() && State().AllUp() && retVal == status
      ensures State() == Processes.Halt(old(State())).0 && resumed == Processes.Halt(old(State())).1
    {
      HaltKeepsInv(State());
      retVal := status;
      MovedIsWired();
      assert State() == old(State());
      TopRecorded();
      if active[terminalNum].parent != null {
        resumed := ReturnToParent();
      } else {
        RestartRoot(here);
        resumed := None;
      }
    }

    // Parent paging is restored, the pid freed, and the context of the parent's execute call taken up.
    method ReturnToParent() returns (resumed: Option<Context>)
      requires Wired() && State().Inv() && State().AllUp() && |stacks[terminalNum]| > 1
      modifies this, pidArray, active
      ensures Valid() && State().AllUp() && retVal == old(retVal)
      ensures State() == Processes.Halt(old(State())).0 && resumed == Processes.Halt(old(State())).1
    {
      HaltIsPop(State());
      TopRecorded();
      resumed := ServeParent();
      Leave();
    }

    // The parent's page and kernel stack, and the context its execute was called in.
    method ServeParent() returns (resumed: Option<Context>)
      requires Wired() && State().Inv() && 0 <= terminalNum && |stacks[terminalNum]| > 1
      modifies `userPage, `tssEsp0
      ensures Wired() && State() == old(State())
      ensures var st := stacks[terminalNum]; Serves(st[|st| - 2].pid) && resumed == st[|st| - 1].caller
    {
      TopRecorded();
      var process := active[terminalNum];
      UserPageInit(process.parent.pid);
      tssEsp0 := process.parent.esp0;
      resumed := Some(Context(process.esp, process.ebp));
      MovedIsWired();
    }

    // The pid is freed, and the parent becomes the active process.
    method Leave()
      requires Wired() && State().Inv() && 0 <= terminalNum && |stacks[terminalNum]| > 1
      modifies `stacks, pidArray, active
      ensures Wired() && State() == Pop(old(State()), terminalNum)
    {
      ghost var s := State();
      TopRecorded();
      var process := active[terminalNum];
      pidArray[process.pid] := 0;
      active[terminalNum] := process.parent;
      ghost var st := stacks[terminalNum];
      stacks := stacks[terminalNum := st[..|st| - 1]];
      assert State().marked == s.marked[st[|st| - 1].pid := false];
      assert State() == Pop(s, terminalNum);
      PoppedIsWired(st[|st| - 1].pid);
    }

    method RestartRoot(here: Context)
      requires Wired() && Enabled(State(), Halted) && State().AllUp() && |stacks[terminalNum]| == 1
      modifies this, pidArray, active, pcbs
      ensures Valid() && State() == old(State()) == Processes.Halt(old(State())).0 && retVal == old(retVal)
    {
      ghost var s := State();
      RootRestarts(s);
      TopRecorded();
      pidArray[0] := 0;
      active[terminalNum] := null;
      stacks := stacks[terminalNum := []];
      assert s.stacks[terminalNum][..0] == [];
      assert State().marked == s.marked[0 := false];
      assert State() == Pop(s, terminalNum);
      PoppedIsWired(0);
      LeastUnmarkedIs(State().marked, 0);
      var _ := Launch(here);
    }
  }

  // The first tick of a terminal always finds a pid for its shell, which then runs.
  lemma FirstSpawn(s: Sys, s1: Sys, ctx: Context)
    requires s.Inv() && s1.Shape() && 0 <= s1.running && s1.stacks[s1.running] == []
    requires Tick(s, ctx) == (Spawn(s1, s1.running, None).0, None) && Tick(s, ctx).0.Inv()
    ensures var r := Spawn(s1, s1.running, None).1; r != -1 && Tick(s, ctx).0.Top().pid == r
  {
    assert Tick(s, ctx).0.stacks[s1.running] != [];
  }

  lemma {:induction false} AllMarked(marked: seq<bool>)
    requires forall i :: 0 <= i < |marked| ==> marked[i]
    ensures LeastUnmarked(marked) == |marked|
  {
    if marked != [] {
      AllMarked(marked[1..]);
    }
  }
}
