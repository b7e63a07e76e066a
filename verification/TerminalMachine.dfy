// The kernel's three terminals as they are implemented: four physical pages, a page table that is
// remapped on every tick and every Alt-Fn, and cursors and keyboard buffers updated in place.
module TerminalMachine {
  import opened Bytes
  import opened Screens
  import opened CommandBuffers
  import opened Terminals

  // Virtual pages, by their index in the page table
  const VIDEO := 184            // 0xB8000, where program output goes
  const TERM_ZERO := 185        // 0xB9000, 0xBA000 and 0xBB000: the backup pages of the terminals
  const ALWAYS_VGA := 188       // 0xBC000, the back door: always the VGA page
  const VGA_PAGE := 0xB8        // physical page number of the VGA memory
  const FRAMES := 4

  // struct terminal_t, as far as the console is concerned.
  class TerminalState {
    var screenX: int
    var screenY: int
    var bufPosition: int
    var commandReady: bool
    const keyboardBuffer: array<byte>

    constructor ()
      ensures screenX == screenY == bufPosition == 0 && !commandReady
      ensures fresh(keyboardBuffer) && keyboardBuffer.Length == MAX_LINE + 1
      ensures forall i :: 0 <= i <= MAX_LINE ==> keyboardBuffer[i] == NUL
    {
      screenX, screenY, bufPosition, commandReady := 0, 0, 0, false;
      keyboardBuffer := new byte[MAX_LINE + 1](_ => NUL);
    }
  }

  // The first n cells already as in `after`, the rest still as in `before`.
  ghost function Upto(before: seq<byte>, after: seq<byte>, n: int): (r: seq<byte>)
    requires |before| == |after| == PAGE && 0 <= n <= COLS * ROWS
    ensures |r| == PAGE
  {
    after[..2 * n] + before[2 * n..]
  }

  lemma PokeAdvances(before: seq<byte>, after: seq<byte>, n: int)
    requires |before| == |after| == PAGE && 0 <= n < COLS * ROWS && after[2 * n + 1] == ATTRIB
    ensures Poke(Upto(before, after, n), n, after[2 * n]) == Upto(before, after, n + 1)
  {
  }

  lemma BlankIs(before: seq<byte>)
    requires |before| == PAGE
    ensures var after := BlankPage(before);
            && (forall n :: 0 <= n < COLS * ROWS ==> after[2 * n] == SPACE && after[2 * n + 1] == ATTRIB)
            && Upto(before, after, 0) == before && Upto(before, after, COLS * ROWS) == after
  {
  }

  lemma ScrollAdvances(before: seq<byte>, n: int)
    requires |before| == PAGE && 0 <= n < COLS * ROWS
    ensures var up := Upto(before, ScrollPage(before), n);
            Poke(up, n, if n < COLS * (ROWS - 1) then up[2 * (n + COLS)] else SPACE)
            == Upto(before, ScrollPage(before), n + 1)
  {
    PokeAdvances(before, ScrollPage(before), n);
  }

  lemma CopyAdvances(from: seq<byte>, to: seq<byte>, i: nat)
    requires i < |from| == |to|
    ensures (from[..i] + to[i..])[i := from[i]] == from[..i + 1] + to[i + 1..]
  {
  }

  // paging_init and term_page_int, for the pages the console uses
  method NewPageTable() returns (table: array<int>)
    ensures fresh(table) && table.Length == 1024
    ensures table[VIDEO] == VGA_PAGE && table[ALWAYS_VGA] == VGA_PAGE
    ensures table[TERM_ZERO] == VGA_PAGE + 1 && table[TERM_ZERO + 1] == VGA_PAGE + 2 && table[TERM_ZERO + 2] == VGA_PAGE + 3
  {
    table := new int[1024](i => 0);
    table[TERM_ZERO], table[TERM_ZERO + 1], table[TERM_ZERO + 2] := 0xB9, 0xBA, 0xBB;
    table[ALWAYS_VGA] := VGA_PAGE;
    table[VIDEO] := VGA_PAGE;
  }

  method NewTerminals() returns (ts: seq<TerminalState>)
    ensures |ts| == TERMINALS
    ensures forall i :: 0 <= i < TERMINALS ==>
              && fresh(ts[i]) && fresh(ts[i].keyboardBuffer)
              && ts[i].screenX == ts[i].screenY == ts[i].bufPosition == 0 && !ts[i].commandReady
              && ts[i].keyboardBuffer.Length == MAX_LINE + 1
              && forall j :: 0 <= j <= MAX_LINE ==> ts[i].keyboardBuffer[j] == NUL
    ensures forall i, j :: 0 <= i < j < TERMINALS ==> ts[i] != ts[j] && ts[i].keyboardBuffer != ts[j].keyboardBuffer
  {
    var t0 := new TerminalState();
    var t1 := new TerminalState();
    var t2 := new TerminalState();
    ts := [t0, t1, t2];
  }

  class Machine {
    const memory: array<byte>      // physical memory from 0xB8000 to 0xBC000
    const pageTable: array<int>    // video_page_table: the physical page behind each virtual one
    var vidmapBase: int            // vidmap_page_table[0]
    const terminals: seq<TerminalState>
    const command: CommandBuffer
    var terminalNum: nat
    var currentVisible: nat

    // Nothing is shared between the parts.
    ghost predicate Shape()
    {
      && memory.Length == FRAMES * PAGE
      && pageTable.Length == 1024
      && |terminals| == TERMINALS
      && (forall i, j :: 0 <= i < j < TERMINALS ==> terminals[i] != terminals[j])
      && (forall i, j :: 0 <= i < j < TERMINALS ==> terminals[i].keyboardBuffer != terminals[j].keyboardBuffer)
      && (forall i :: 0 <= i < TERMINALS ==>
            && terminals[i].keyboardBuffer.Length == MAX_LINE + 1
            && terminals[i].keyboardBuffer != memory && terminals[i].keyboardBuffer != command.bytes)
      && memory != command.bytes
      && command.bytes.Length == CAPACITY
    }

    ghost function Footprint(): set<object>
    {
      if |terminals| != TERMINALS then {}
      else {this, memory, pageTable, command, command.bytes,
            terminals[0], terminals[1], terminals[2],
            terminals[0].keyboardBuffer, terminals[1].keyboardBuffer, terminals[2].keyboardBuffer}
    }

    // The physical frame that holds terminal k's logical screen.
    ghost function Frame(k: int): int
      reads this
    {
      if k == currentVisible then 0 else k + 1
    }

    ghost function PageAt(f: int): (r: seq<byte>)
      requires memory.Length == FRAMES * PAGE && 0 <= f < FRAMES
      reads memory
      ensures |r| == PAGE
    {
      memory[f * PAGE..(f + 1) * PAGE]
    }

    // The back-door and backup entries are fixed, and entry 184 always maps to the running terminal's page.
    ghost predicate Mapped()
      reads this, pageTable
    {
      && pageTable.Length == 1024
      && pageTable[TERM_ZERO] == VGA_PAGE + 1
      && pageTable[TERM_ZERO + 1] == VGA_PAGE + 2
      && pageTable[TERM_ZERO + 2] == VGA_PAGE + 3
      && pageTable[ALWAYS_VGA] == VGA_PAGE
      && pageTable[VIDEO] == VGA_PAGE + Frame(terminalNum)
      && vidmapBase == VGA_PAGE + Frame(terminalNum)
    }

    ghost function ScreenAt(f: int, t: TerminalState): Screen
      requires memory.Length == FRAMES * PAGE && 0 <= f < FRAMES
      reads memory, t
    {
      Screen(PageAt(f), t.screenX, t.screenY)
    }

    ghost function TerminalAt(k: int): Terminal
      requires Shape() && 0 <= k < TERMINALS && 0 <= terminals[k].bufPosition <= MAX_LINE
      reads this, memory, terminals[k], terminals[k].keyboardBuffer
    {
      var t := terminals[k];
      Terminal(ScreenAt(Frame(k), t), t.keyboardBuffer[..t.bufPosition], t.commandReady)
    }

    // Characters behind the edited line are zero.
    ghost predicate KeyboardOk(t: TerminalState)
      reads t, t.keyboardBuffer
    {
      && t.keyboardBuffer.Length == MAX_LINE + 1
      && 0 <= t.bufPosition <= MAX_LINE
      && forall i :: t.bufPosition <= i <= MAX_LINE ==> t.keyboardBuffer[i] == NUL
    }

    ghost predicate TerminalOk(k: int)
      requires Shape() && 0 <= k < TERMINALS
      reads this, memory, terminals[k], terminals[k].keyboardBuffer
    {
      KeyboardOk(terminals[k]) && TerminalAt(k).Valid()
    }

    ghost predicate Valid()
      reads this, Footprint()
    {
      && Shape()
      && terminalNum < TERMINALS && currentVisible < TERMINALS
      && Mapped()
      && TerminalOk(0) && TerminalOk(1) && TerminalOk(2)
    }

    // Nothing typed, nothing printed, cursor at the top left.
    ghost predicate Untouched(t: TerminalState)
      reads t, t.keyboardBuffer
    {
      && t.screenX == t.screenY == t.bufPosition == 0 && !t.commandReady
      && t.keyboardBuffer.Length == MAX_LINE + 1
      && forall i :: 0 <= i <= MAX_LINE ==> t.keyboardBuffer[i] == NUL
    }

    lemma UntouchedIsValid()
      requires Shape() && Mapped() && terminalNum == currentVisible == 0
      requires Untouched(terminals[0]) && Untouched(terminals[1]) && Untouched(terminals[2])
      ensures Valid()
    {
    }

    // Paging set up and the first tick taken: terminal 0 runs and is visible. The four pages hold
    // whatever was in the given memory.
    constructor (memory: array<byte>)
      requires memory.Length == FRAMES * PAGE
      ensures Valid() && fresh(pageTable) && fresh(command) && fresh(command.bytes)
      ensures forall k :: 0 <= k < TERMINALS ==> fresh(terminals[k]) && fresh(terminals[k].keyboardBuffer)
      ensures terminalNum == currentVisible == 0 && this.memory == memory && command.position == 0
      ensures Untouched(terminals[0]) && Untouched(terminals[1]) && Untouched(terminals[2])
    {
      this.memory := memory;
      var table := NewPageTable();
      pageTable := table;
      vidmapBase := VGA_PAGE;
      var ts := NewTerminals();
      terminals := ts;
      command := new CommandBuffer();
      terminalNum, currentVisible := 0, 0;
      new;
      UntouchedIsValid();
    }

    // The three terminals this machine implements.
    ghost function State(): (s: System)
      requires Valid()
      reads Footprint()
      ensures s.Valid()
    {
      System(terminalNum, currentVisible, [TerminalAt(0), TerminalAt(1), TerminalAt(2)], command.Value())
    }

    // ---- Memory accesses through the page table ----

    ghost predicate MapsTo(entry: nat, f: nat)
      reads pageTable
    {
      && memory.Length == FRAMES * PAGE && pageTable.Length == 1024
      && entry < 1024 && f < FRAMES && pageTable[entry] == VGA_PAGE + f
    }

    function Load(entry: nat, offset: nat, ghost f: nat): (b: byte)
      requires MapsTo(entry, f) && offset < PAGE
      reads pageTable, memory
      ensures b == PageAt(f)[offset]
    {
      memory[(pageTable[entry] - VGA_PAGE) * PAGE + offset]
    }

    method Store(entry: nat, offset: nat, b: byte, ghost f: nat)
      requires MapsTo(entry, f) && offset < PAGE
      modifies memory
      ensures PageAt(f) == old(PageAt(f))[offset := b]
      ensures forall g :: 0 <= g < FRAMES && g != f ==> PageAt(g) == old(PageAt(g))
    {
      memory[(pageTable[entry] - VGA_PAGE) * PAGE + offset] := b;
    }

    // Character and attribute of one cell.
    method PokeCell(entry: nat, cell: nat, c: byte, ghost f: nat)
      requires MapsTo(entry, f) && cell < COLS * ROWS
      modifies memory
      ensures PageAt(f) == Poke(old(PageAt(f)), cell, c)
      ensures forall g :: 0 <= g < FRAMES && g != f ==> PageAt(g) == old(PageAt(g))
    {
      Store(entry, 2 * cell, c, f);
      Store(entry, 2 * cell + 1, ATTRIB, f);
    }

    // memcpy of one page
    method CopyPage(dst: nat, src: nat, ghost df: nat, ghost sf: nat)
      requires MapsTo(dst, df) && MapsTo(src, sf) && df != sf
      modifies memory
      ensures PageAt(df) == old(PageAt(sf))
      ensures forall g :: 0 <= g < FRAMES && g != df ==> PageAt(g) == old(PageAt(g))
    {
      ghost var from, to := PageAt(sf), PageAt(df);
      for i := 0 to PAGE
        invariant PageAt(df) == from[..i] + to[i..]
        invariant forall g :: 0 <= g < FRAMES && g != df ==> PageAt(g) == old(PageAt(g))
      {
        CopyAdvances(from, to, i);
        assert PageAt(sf) == from;
        Store(dst, i, Load(src, i, sf), df);
      }
      assert from[..PAGE] + to[PAGE..] == from;
    }

    // ---- lib.c ----

    // scroll_the_page and scroll_the_page_keyboard, which differ in the address only
    method ScrollThrough(entry: nat, t: TerminalState, ghost f: nat)
      requires MapsTo(entry, f)
      modifies memory, t`screenY
      ensures PageAt(f) == ScrollPage(old(PageAt(f))) && t.screenY == old(t.screenY) - 1
      ensures forall g :: 0 <= g < FRAMES && g != f ==> PageAt(g) == old(PageAt(g))
    {
      ghost var before := PageAt(f);
      for y := 0 to ROWS - 1
        modifies memory
        invariant ScrolledUpto(f, before, COLS * y)
        invariant forall g :: 0 <= g < FRAMES && g != f ==> PageAt(g) == old(PageAt(g))
      {
        for x := 0 to COLS
          modifies memory
          invariant ScrolledUpto(f, before, COLS * y + x)
          invariant forall g :: 0 <= g < FRAMES && g != f ==> PageAt(g) == old(PageAt(g))
        {
          ScrollCell(entry, COLS * y + x, Load(entry, 2 * (COLS * (y + 1) + x), f), before, f);
        }
      }
      for x := 0 to COLS
        modifies memory
        invariant ScrolledUpto(f, before, COLS * (ROWS - 1) + x)
        invariant forall g :: 0 <= g < FRAMES && g != f ==> PageAt(g) == old(PageAt(g))
      {
        ScrollCell(entry, COLS * (ROWS - 1) + x, SPACE, before, f);
      }
      t.screenY := t.screenY - 1;
    }

    // The first n cells of frame f have been scrolled.
    ghost predicate ScrolledUpto(f: nat, before: seq<byte>, n: int)
      requires memory.Length == FRAMES * PAGE && f < FRAMES && |before| == PAGE && 0 <= n <= COLS * ROWS
      reads memory
    {
      PageAt(f) == Upto(before, ScrollPage(before), n)
    }

    method ScrollCell(entry: nat, cell: nat, c: byte, ghost before: seq<byte>, ghost f: nat)
      requires MapsTo(entry, f) && |before| == PAGE && cell < COLS * ROWS
      requires ScrolledUpto(f, before, cell)
      requires c == if cell < COLS * (ROWS - 1) then PageAt(f)[2 * (cell + COLS)] else SPACE
      modifies memory
      ensures ScrolledUpto(f, before, cell + 1)
      ensures forall g :: 0 <= g < FRAMES && g != f ==> PageAt(g) == old(PageAt(g))
    {
      ScrollAdvances(before, cell);
      PokeCell(entry, cell, c, f);
    }

    // putc and putc_keyboard, which differ in the address and in whose cursor moves
    method PutThrough(entry: nat, t: TerminalState, c: byte, ghost f: nat)
      requires MapsTo(entry, f) && ScreenAt(f, t).Valid()
      requires c == BACKSPACE ==> 1 <= COLS * t.screenY + t.screenX
      modifies memory, t`screenX, t`screenY
      ensures ScreenAt(f, t) == Put(old(ScreenAt(f, t)), c)
      ensures forall g :: 0 <= g < FRAMES && g != f ==> PageAt(g) == old(PageAt(g))
    {
      if c == NEWLINE || c == RETURN {
        t.screenY := t.screenY + 1;
        t.screenX := 0;
        if t.screenY == ROWS {
          ScrollThrough(entry, t, f);
        }
      } else if c == BACKSPACE {
        t.screenX := t.screenX - 1;
        PokeCell(entry, COLS * t.screenY + t.screenX, SPACE, f);
      } else {
        if t.screenX == COLS {
          t.screenY := t.screenY + 1;
          t.screenX := 0;
          if t.screenY == ROWS {
            ScrollThrough(entry, t, f);
          }
        }
        PokeCell(entry, COLS * t.screenY + t.screenX, c, f);
        t.screenX := t.screenX + 1;
      }
    }

    function RunningOne(): TerminalState
      requires |terminals| == TERMINALS && terminalNum < TERMINALS
      reads this
    {
      terminals[terminalNum]
    }

    function VisibleOne(): TerminalState
      requires |terminals| == TERMINALS && currentVisible < TERMINALS
      reads this
    {
      terminals[currentVisible]
    }

    // Program output: through entry 184, at the running terminal's cursor.
    method Putc(c: byte)
      requires Shape() && Mapped() && terminalNum < TERMINALS
      requires ScreenAt(Frame(terminalNum), terminals[terminalNum]).Valid()
      requires c == BACKSPACE ==> 1 <= COLS * terminals[terminalNum].screenY + terminals[terminalNum].screenX
      modifies memory, RunningOne()`screenX, RunningOne()`screenY
      ensures ScreenAt(Frame(terminalNum), terminals[terminalNum])
              == Put(old(ScreenAt(Frame(terminalNum), terminals[terminalNum])), c)
      ensures forall g :: 0 <= g < FRAMES && g != Frame(terminalNum) ==> PageAt(g) == old(PageAt(g))
    {
      PutThrough(VIDEO, terminals[terminalNum], c, Frame(terminalNum));
    }

    // Keyboard echo: through the back door, at the visible terminal's cursor.
    method PutcKeyboard(c: byte)
      requires Shape() && Mapped() && currentVisible < TERMINALS
      requires ScreenAt(Frame(currentVisible), terminals[currentVisible]).Valid()
      requires c == BACKSPACE ==> 1 <= COLS * terminals[currentVisible].screenY + terminals[currentVisible].screenX
      modifies memory, VisibleOne()`screenX, VisibleOne()`screenY
      ensures ScreenAt(Frame(currentVisible), terminals[currentVisible])
              == Put(old(ScreenAt(Frame(currentVisible), terminals[currentVisible])), c)
      ensures forall g :: 0 <= g < FRAMES && g != Frame(currentVisible) ==> PageAt(g) == old(PageAt(g))
    {
      PutThrough(ALWAYS_VGA, terminals[currentVisible], c, Frame(currentVisible));
    }

    // Terminal j has the same logical screen, wherever it is kept now, and everything else of its own.
    twostate predicate Kept(j: nat)
      requires Shape() && j < TERMINALS
      reads this, memory, terminals[j], terminals[j].keyboardBuffer
    {
      && unchanged(terminals[j]) && unchanged(terminals[j].keyboardBuffer)
      && (0 <= Frame(j) < FRAMES && 0 <= old(Frame(j)) < FRAMES ==> PageAt(Frame(j)) == old(PageAt(Frame(j))))
    }

    twostate lemma KeptIsSame(j: nat)
      requires Shape() && j < TERMINALS && Kept(j) && old(TerminalOk(j))
      ensures TerminalOk(j) && TerminalAt(j) == old(TerminalAt(j))
    {
    }

    twostate lemma AllKept()
      requires old(Valid()) && Shape() && Mapped() && terminalNum < TERMINALS && currentVisible < TERMINALS
      requires forall j :: 0 <= j < TERMINALS ==> Kept(j)
      ensures Valid() && State() == System(terminalNum, currentVisible, old(State()).terms, command.Value())
    {
      KeptIsSame(0);
      KeptIsSame(1);
      KeptIsSame(2);
    }

    twostate predicate OnlyChanged(k: nat)
      requires Shape() && k < TERMINALS
      reads this, Footprint()
    {
      && Mapped() && unchanged(this)
      && (k != 0 ==> Kept(0)) && (k != 1 ==> Kept(1)) && (k != 2 ==> Kept(2))
    }

    // A step that leaves two terminals alone replaces the third in the machine's state.
    // Enough for all others to be kept.
    twostate lemma OthersKept(k: nat)
      requires k < TERMINALS && old(Valid()) && Shape() && Mapped() && unchanged(this)
      requires forall g :: 0 <= g < FRAMES && g != Frame(k) ==> PageAt(g) == old(PageAt(g))
      requires forall j :: 0 <= j < TERMINALS && j != k ==> unchanged(terminals[j]) && unchanged(terminals[j].keyboardBuffer)
      ensures OnlyChanged(k)
    {
    }

    twostate lemma OneChanged(k: nat)
      requires k < TERMINALS && old(Valid()) && Shape() && OnlyChanged(k) && TerminalOk(k)
      ensures Valid()
      ensures State() == old(State()).(terms := old(State()).terms[k := TerminalAt(k)], command := command.Value())
    {
      if k != 0 { KeptIsSame(0); }
      if k != 1 { KeptIsSame(1); }
      if k != 2 { KeptIsSame(2); }
    }

    // ---- paging.c and scheduler.c ----

    ghost predicate FixedEntries()
      reads pageTable
    {
      && pageTable.Length == 1024
      && pageTable[TERM_ZERO] == VGA_PAGE + 1
      && pageTable[TERM_ZERO + 1] == VGA_PAGE + 2
      && pageTable[TERM_ZERO + 2] == VGA_PAGE + 3
      && pageTable[ALWAYS_VGA] == VGA_PAGE
    }

    // The running terminal's output goes to the VGA page if it is visible, else to its backup page.
    method TermPageSwitch()
      requires FixedEntries() && terminalNum < TERMINALS
      modifies pageTable, `vidmapBase
      ensures Mapped()
      ensures pageTable[184] == vidmapBase == if terminalNum == currentVisible then 0xB8 else 0xB9 + terminalNum
    {
      if currentVisible == terminalNum {
        pageTable[VIDEO] := VGA_PAGE;
        vidmapBase := VGA_PAGE;
      } else {
        pageTable[VIDEO] := TERM_ZERO + terminalNum;
        vidmapBase := TERM_ZERO + terminalNum;
      }
    }

    // Alt-Fn: the visible screen goes to its backup page and the chosen one comes in.
    method TermVisibleSwitch(dest: nat)
      requires Valid() && dest < TERMINALS
      modifies memory, pageTable, `vidmapBase, `currentVisible
      ensures Valid() && State() == old(State()).(visible := dest)
    {
      SwitchPages(dest);
      AllKept();
    }

    // Each logical screen is where it belongs, before and after.
    method SwitchPages(dest: nat)
      requires Shape() && Mapped() && terminalNum < TERMINALS && currentVisible < TERMINALS && dest < TERMINALS
      modifies memory, pageTable, `vidmapBase, `currentVisible
      ensures Mapped() && currentVisible == dest
      ensures forall k :: 0 <= k < TERMINALS ==> PageAt(Frame(k)) == old(PageAt(Frame(k)))
    {
      CopyPage(TERM_ZERO + currentVisible, ALWAYS_VGA, currentVisible + 1, 0);
      CopyPage(ALWAYS_VGA, TERM_ZERO + dest, 0, dest + 1);
      currentVisible := dest;
      TermPageSwitch();
    }

    // The scheduler's part in the console: the next terminal runs, with the page table to match.
    method Tick()
      requires Valid()
      modifies pageTable, `vidmapBase, `terminalNum
      ensures Valid() && State() == old(State()).(running := Next(old(State()).running))
    {
      terminalNum := terminalNum + 1;
      terminalNum := terminalNum % TERMINALS;
      TermPageSwitch();
      AllKept();
    }

    // ---- keyboard_handler.c: Ctrl-L ----

    // Blanks the running terminal's page and resets the visible terminal's cursor.
    method Clear()
      requires Shape() && Mapped() && terminalNum < TERMINALS && currentVisible < TERMINALS
      modifies memory, VisibleOne()`screenX, VisibleOne()`screenY
      ensures PageAt(Frame(terminalNum)) == BlankPage(old(PageAt(Frame(terminalNum))))
      ensures forall g :: 0 <= g < FRAMES && g != Frame(terminalNum) ==> PageAt(g) == old(PageAt(g))
      ensures VisibleOne().screenX == VisibleOne().screenY == 0
    {
      BlankThrough(Frame(terminalNum));
      VisibleOne().screenX := 0;
      VisibleOne().screenY := 0;
    }

    method BlankThrough(ghost f: nat)
      requires MapsTo(VIDEO, f)
      modifies memory
      ensures PageAt(f) == BlankPage(old(PageAt(f)))
      ensures forall g :: 0 <= g < FRAMES && g != f ==> PageAt(g) == old(PageAt(g))
    {
      ghost var before, after := PageAt(f), BlankPage(PageAt(f));
      BlankIs(before);
      for i := 0 to COLS * ROWS
        invariant PageAt(f) == Upto(before, after, i)
        invariant forall g :: 0 <= g < FRAMES && g != f ==> PageAt(g) == old(PageAt(g))
      {
        PokeAdvances(before, after, i);
        PokeCell(VIDEO, i, SPACE, f);
      }
    }

    method ClearBuffer()
      requires Shape() && currentVisible < TERMINALS
      requires 0 <= VisibleOne().bufPosition <= MAX_LINE + 1
      requires forall i :: VisibleOne().bufPosition <= i <= MAX_LINE ==> VisibleOne().keyboardBuffer[i] == NUL
      modifies VisibleOne()`bufPosition, VisibleOne().keyboardBuffer
      ensures VisibleOne().bufPosition == 0 && KeyboardOk(VisibleOne())
    {
      var t := VisibleOne();
      for i := 0 to t.bufPosition
        modifies t.keyboardBuffer
        invariant forall j :: 0 <= j < i ==> t.keyboardBuffer[j] == NUL
        invariant forall j :: t.bufPosition <= j <= MAX_LINE ==> t.keyboardBuffer[j] == NUL
      {
        t.keyboardBuffer[i] := NUL;
      }
      t.bufPosition := 0;
    }

    method CtrlL()
      requires Valid()
      modifies memory, VisibleOne()`screenX, VisibleOne()`screenY, VisibleOne()`bufPosition, VisibleOne().keyboardBuffer
      ensures Valid() && State() == ClearKey(old(State()))
    {
      Clear();
      ClearBuffer();
      Wiped();
    }

    twostate lemma Wiped()
      requires old(Valid()) && Shape() && Mapped() && unchanged(this) && unchanged(command, command.bytes)
      requires PageAt(Frame(terminalNum)) == BlankPage(old(PageAt(Frame(terminalNum))))
      requires forall g :: 0 <= g < FRAMES && g != Frame(terminalNum) ==> PageAt(g) == old(PageAt(g))
      requires VisibleOne().screenX == VisibleOne().screenY == VisibleOne().bufPosition == 0
      requires VisibleOne().commandReady == old(VisibleOne().commandReady) && KeyboardOk(VisibleOne())
      requires forall k :: 0 <= k < TERMINALS && k != currentVisible ==>
                 unchanged(terminals[k]) && unchanged(terminals[k].keyboardBuffer)
      ensures Valid() && State() == ClearKey(old(State()))
    {
      assert TerminalOk(0) && TerminalAt(0) == ClearKey(old(State())).terms[0] by { ClearedSystem(0); }
      assert TerminalOk(1) && TerminalAt(1) == ClearKey(old(State())).terms[1] by { ClearedSystem(1); }
      assert TerminalOk(2) && TerminalAt(2) == ClearKey(old(State())).terms[2] by { ClearedSystem(2); }
    }

    twostate lemma ClearedSystem(k: nat)
      requires k < TERMINALS && old(Valid()) && Shape() && unchanged(this) && unchanged(command, command.bytes)
      requires PageAt(Frame(terminalNum)) == BlankPage(old(PageAt(Frame(terminalNum))))
      requires forall g :: 0 <= g < FRAMES && g != Frame(terminalNum) ==> PageAt(g) == old(PageAt(g))
      requires VisibleOne().screenX == VisibleOne().screenY == VisibleOne().bufPosition == 0
      requires VisibleOne().commandReady == old(VisibleOne().commandReady) && KeyboardOk(VisibleOne())
      requires terminals[k] != VisibleOne() ==> unchanged(terminals[k]) && unchanged(terminals[k].keyboardBuffer)
      ensures TerminalOk(k) && TerminalAt(k) == ClearKey(old(State())).terms[k]
    {
      ghost var s := old(State());
      assert s.terms[k] == old(TerminalAt(k));
      if terminals[k] != VisibleOne() {
        assert TerminalAt(k).line == s.terms[k].line;
      } else {
        assert TerminalAt(k).line == [];
      }
    }

    // ---- terminal_driver.c ----

    // printf("%c", c)
    method PrintChar(c: byte)
      requires Valid() && c != BACKSPACE
      modifies memory, RunningOne()`screenX, RunningOne()`screenY
      ensures Valid() && State() == PrintStep(old(State()), [c])
    {
      ghost var n := terminalNum;
      ghost var t := TerminalAt(n);
      assert Print(t, [c]) == t.(screen := Put(t.screen, c)) by {
        assert [c][..0] == [] && Print(t, []) == t;
      }
      Putc(c);
      assert TerminalAt(n) == Print(t, [c]);
      OneChanged(n);
    }

    // A caller's buffer is none of the kernel's own.
    ghost predicate Foreign(buf: array?<byte>)
      requires Shape()
    {
      && buf != memory && buf != command.bytes && buf as object? != pageTable
      && buf != terminals[0].keyboardBuffer && buf != terminals[1].keyboardBuffer && buf != terminals[2].keyboardBuffer
    }

    method TerminalWrite(buf: array?<byte>, nbytes: int) returns (r: int)
      requires Valid() && Foreign(buf)
      requires buf != null ==> nbytes <= buf.Length && (0 <= nbytes ==> BACKSPACE !in buf[..nbytes])
      modifies memory, RunningOne()`screenX, RunningOne()`screenY
      ensures Valid()
      ensures nbytes < 0 || buf == null ==> r == -1 && State() == old(State())
      ensures 0 <= nbytes && buf != null ==> r == nbytes && State() == PrintStep(old(State()), buf[..nbytes])
    {
      if nbytes < 0 || buf == null {
        return -1;
      }
      var i := 0;
      assert PrintStep(State(), []).terms == State().terms;
      while i < nbytes
        invariant 0 <= i <= nbytes && Valid()
        invariant State() == PrintStep(old(State()), buf[..i])
      {
        OutputSnoc(old(State()), buf[..i], buf[i]);
        assert buf[..i + 1] == buf[..i] + [buf[i]];
        PrintChar(buf[i]);
        i := i + 1;
      }
      r := i;
    }

    // Enter: the line, with its newline, moves to the command buffer.
    // What a keystroke relies on, and what it leaves alone.
    ghost predicate VisibleOk()
      reads this, Footprint()
    {
      Shape() && Mapped() && terminalNum < TERMINALS && currentVisible < TERMINALS && TerminalOk(currentVisible)
    }

    twostate predicate OtherPagesKept()
      requires memory.Length == FRAMES * PAGE
      reads this, memory
    {
      forall g :: 0 <= g < FRAMES && g != Frame(currentVisible) ==> PageAt(g) == old(PageAt(g))
    }

    method EnterLine()
      requires VisibleOk() && command.Value().HasRoom(VisibleOne().bufPosition + 1)
      modifies memory, VisibleOne(), VisibleOne().keyboardBuffer, command.bytes, command`position
      ensures TerminalOk(currentVisible)
      ensures TerminalAt(currentVisible) == Type(old(TerminalAt(currentVisible)), NEWLINE)
      ensures command.Value() == Append(old(command.Value()), old(TerminalAt(currentVisible)).line + [NEWLINE])
      ensures Shape() && Mapped() && OtherPagesKept()
    {
      var t := VisibleOne();
      ghost var line := t.keyboardBuffer[..t.bufPosition];
      t.keyboardBuffer[t.bufPosition] := NEWLINE;
      t.bufPosition := t.bufPosition + 1;
      assert t.keyboardBuffer[..t.bufPosition] == line + [NEWLINE];
      ghost var echoed := ScreenAt(Frame(currentVisible), t);
      PutcKeyboard(NEWLINE);
      DeliverLine();
      assert TerminalAt(currentVisible).screen == Put(echoed, NEWLINE);
    }

    // The keyboard buffer moves behind what waits in the command buffer, and a reader may go ahead.
    method DeliverLine()
      requires Shape() && currentVisible < TERMINALS
      requires 0 <= VisibleOne().bufPosition <= MAX_LINE + 1 && command.Value().HasRoom(VisibleOne().bufPosition)
      requires forall i :: VisibleOne().bufPosition <= i <= MAX_LINE ==> VisibleOne().keyboardBuffer[i] == NUL
      modifies VisibleOne()`bufPosition, VisibleOne()`commandReady, VisibleOne().keyboardBuffer
      modifies command.bytes, command`position
      ensures command.Value() == Append(old(command.Value()), old(VisibleOne().keyboardBuffer[..VisibleOne().bufPosition]))
      ensures VisibleOne().commandReady && VisibleOne().bufPosition == 0 && KeyboardOk(VisibleOne())
    {
      command.Copy(VisibleOne().keyboardBuffer, VisibleOne().bufPosition);
      VisibleOne().commandReady := true;
      ClearBuffer();
    }

    method EraseChar()
      requires VisibleOk() && VisibleOne().bufPosition != 0
      modifies memory, VisibleOne(), VisibleOne().keyboardBuffer
      ensures TerminalOk(currentVisible)
      ensures TerminalAt(currentVisible) == Type(old(TerminalAt(currentVisible)), BACKSPACE)
      ensures Shape() && Mapped() && OtherPagesKept()
    {
      var t := VisibleOne();
      t.bufPosition := t.bufPosition - 1;
      t.keyboardBuffer[t.bufPosition] := NUL;
      PutcKeyboard(BACKSPACE);
    }

    method AppendChar(c: byte)
      requires VisibleOk() && VisibleOne().bufPosition != MAX_LINE && !IsNewline(c) && c != BACKSPACE
      modifies memory, VisibleOne(), VisibleOne().keyboardBuffer
      ensures TerminalOk(currentVisible)
      ensures TerminalAt(currentVisible) == Type(old(TerminalAt(currentVisible)), c)
      ensures Shape() && Mapped() && OtherPagesKept()
    {
      var t := VisibleOne();
      ghost var line := t.keyboardBuffer[..t.bufPosition];
      t.keyboardBuffer[t.bufPosition] := c;
      t.bufPosition := t.bufPosition + 1;
      assert t.keyboardBuffer[..t.bufPosition] == line + [c];
      ghost var echoed := ScreenAt(Frame(currentVisible), t);
      PutcKeyboard(c);
      assert TerminalAt(currentVisible).screen == Put(echoed, c);
    }

    // A key pressed: it is edited into the visible terminal's line and echoed on its screen.
    method AddToBuffer(c: byte)
      requires Valid() && CanPress(State(), c)
      modifies memory, VisibleOne(), VisibleOne().keyboardBuffer, command.bytes, command`position
      ensures Valid() && State() == KeyStep(old(State()), c)
    {
      ChangeLine(c);
      OthersKept(currentVisible);
      KeyTyped(c);
    }

    // The branches of add_to_buffer, as the visible terminal sees them.
    method ChangeLine(c: byte)
      requires VisibleOk() && c != RETURN && (c == NEWLINE ==> command.Value().HasRoom(VisibleOne().bufPosition + 1))
      modifies memory, VisibleOne(), VisibleOne().keyboardBuffer, command.bytes, command`position
      ensures Shape() && Mapped() && OtherPagesKept() && TerminalOk(currentVisible)
      ensures TerminalAt(currentVisible) == Type(old(TerminalAt(currentVisible)), c)
      ensures command.Value()
              == if c == NEWLINE then Append(old(command.Value()), old(TerminalAt(currentVisible)).line + [c])
                 else old(command.Value())
    {
      if c == NEWLINE {
        EnterLine();
      } else if c == BACKSPACE {
        if VisibleOne().bufPosition != 0 {
          EraseChar();
        }
      } else if VisibleOne().bufPosition == 127 {
        // the buffer is full
      } else {
        AppendChar(c);
      }
    }

    twostate lemma KeyTyped(c: byte)
      requires old(Valid()) && Shape() && currentVisible < TERMINALS && c != RETURN
      requires OnlyChanged(currentVisible) && TerminalOk(currentVisible)
      requires TerminalAt(currentVisible) == Type(old(TerminalAt(currentVisible)), c)
      requires c == NEWLINE ==>
                 var line := old(TerminalAt(currentVisible)).line + [c];
                 old(command.Value()).HasRoom(|line|) && command.Value() == Append(old(command.Value()), line)
      requires c != NEWLINE ==> command.Value() == old(command.Value())
      ensures Valid() && State() == KeyStep(old(State()), c)
    {
      OneChanged(currentVisible);
    }

    // The wait for the ready flag is the caller's: this is the step taken once it is set.
    method TerminalRead(buf: array?<byte>, nbytes: int) returns (r: int)
      requires Valid() && RunningOne().commandReady && Foreign(buf)
      requires 0 <= nbytes && buf != null ==> nbytes <= buf.Length && Readable(command.Value(), nbytes)
      modifies command.bytes, command`position, RunningOne()`commandReady, (if buf == null then {} else {buf})
      ensures Valid()
      ensures nbytes < 0 || buf == null ==> r == -1 && State() == old(State())
      ensures 0 <= nbytes && buf != null ==>
                && State() == ReadStep(old(State()), nbytes)
                && r == |Taken(old(State()).command, nbytes)| && buf[..r] == Taken(old(State()).command, nbytes)
    {
      if nbytes < 0 || buf == null {
        return -1;
      }
      r := TakeLine(buf, nbytes);
    }

    method TakeLine(buf: array<byte>, nbytes: nat) returns (r: nat)
      requires Valid() && Foreign(buf) && nbytes <= buf.Length && Readable(command.Value(), nbytes)
      modifies command.bytes, command`position, RunningOne()`commandReady, buf
      ensures Valid() && State() == ReadStep(old(State()), nbytes)
      ensures r == |Taken(old(State()).command, nbytes)| && buf[..r] == Taken(old(State()).command, nbytes)
    {
      r := TakeBytes(buf, nbytes);
      OthersKept(terminalNum);
      LineRead(nbytes);
    }

    method TakeBytes(buf: array<byte>, nbytes: nat) returns (r: nat)
      requires Shape() && Mapped() && terminalNum < TERMINALS && currentVisible < TERMINALS && TerminalOk(terminalNum)
      requires Foreign(buf) && nbytes <= buf.Length && Readable(command.Value(), nbytes)
      modifies command.bytes, command`position, RunningOne()`commandReady, buf
      ensures Shape() && TerminalOk(terminalNum) && TerminalAt(terminalNum) == old(TerminalAt(terminalNum)).(ready := false)
      ensures command.Value() == Consume(old(command.Value()), nbytes)
      ensures r == |Taken(old(command.Value()), nbytes)| && buf[..r] == Taken(old(command.Value()), nbytes)
    {
      ghost var c := command.Value();
      r := command.Read(buf, nbytes);
      ghost var got := buf[..r];
      RunningOne().commandReady := false;
      assert buf[..r] == got && command.Value() == Consume(c, nbytes);
    }

    twostate lemma LineRead(nbytes: nat)
      requires old(Valid()) && Shape() && terminalNum < TERMINALS && OnlyChanged(terminalNum)
      requires TerminalOk(terminalNum) && TerminalAt(terminalNum) == old(TerminalAt(terminalNum)).(ready := false)
      requires old(Readable(command.Value(), nbytes)) && command.Value() == Consume(old(command.Value()), nbytes)
      ensures Valid() && State() == ReadStep(old(State()), nbytes)
    {
      OneChanged(terminalNum);
    }

    // The interrupts and system calls of any interleaving, one after the other.
    method Serve(es: seq<Event>)
      requires Valid() && AllEnabled(State(), es)
      modifies Footprint()
      ensures Valid() && State() == Run(old(State()), es)
      ensures ClearsAtHome(old(terminalNum), old(currentVisible), es) ==> Isolated(old(State()), es, State())
    {
      ghost var s := State();
      for i := 0 to |es|
        invariant Valid() && AllEnabled(s, es) && AllEnabled(State(), es[i..])
        invariant Run(State(), es[i..]) == Run(s, es)
      {
        assert es[i..][1..] == es[i + 1..];
        Handle(es[i]);
      }
      if ClearsAtHome(s.running, s.visible, es) {
        AllIsolated(s, es);
      }
    }

    method Handle(e: Event)
      requires Valid() && Enabled(State(), e)
      modifies Footprint()
      ensures Valid() && State() == Step(old(State()), e)
    {
      match e
      case Tick => Tick();
      case Switch(dest) => TermVisibleSwitch(dest);
      case Output(text) =>
        var buf := new byte[|text|](i requires 0 <= i < |text| => text[i]);
        assert buf[..|text|] == text;
        var _ := TerminalWrite(buf, |text|);
      case Key(c) => AddToBuffer(c);
      case CtrlL => CtrlL();
      case ReadLine(n) =>
        var buf := new byte[n];
        var _ := TerminalRead(buf, n);
    }
  }

  lemma OutputSnoc(s: System, text: seq<byte>, c: byte)
    requires s.Valid() && BACKSPACE !in text && c != BACKSPACE
    ensures PrintStep(PrintStep(s, text), [c]) == PrintStep(s, text + [c])
  {
    var t := s.terms[s.running];
    PrintIsPutAll(t, text);
    PrintIsPutAll(Print(t, text), [c]);
    PrintIsPutAll(t, text + [c]);
    PutAllConcat(t.screen, text, [c]);
  }
}
