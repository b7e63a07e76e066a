// Three terminals sharing one machine, as values: what every step does to each of them, and why no
// terminal can tell that the other two exist.
module Terminals {
  import opened Bytes
  import opened Screens
  import opened CommandBuffers

  const TERMINALS := 3
  const MAX_LINE := 127

  // A terminal: its logical screen, the line being edited on it, and whether a line awaits a reader.
  datatype Terminal = Terminal(screen: Screen, line: seq<byte>, ready: bool)
  {
    // Every edited character has a cell to be erased from, even across a wrapped line.
    ghost predicate Valid() {
      && screen.Valid()
      && |line| <= MAX_LINE
      && |line| - MAX_LINE <= screen.x
      && |line| <= COLS * screen.y + screen.x
    }
  }

  // ---- What one terminal does with its own events ----

  // Cursor safety for program output: the cursor never falls behind the line being edited.
  function Print(t: Terminal, text: seq<byte>): (r: Terminal)
    requires t.Valid() && BACKSPACE !in text
    ensures r.Valid() && r.line == t.line && r.ready == t.ready
  {
    if text == [] then t
    else
      var n := |text| - 1;
      var u := Print(t, text[..n]);
      u.(screen := Put(u.screen, text[n]))
  }

  lemma {:induction false} PrintIsPutAll(t: Terminal, text: seq<byte>)
    requires t.Valid() && BACKSPACE !in text
    ensures Print(t, text) == t.(screen := PutAll(t.screen, text))
  {
    if text != [] {
      PrintIsPutAll(t, text[..|text| - 1]);
    }
  }

  // Cursor safety for keystrokes: each echo lands on the page, also when it erases.
  function Type(t: Terminal, c: byte): (r: Terminal)
    requires t.Valid() && c != RETURN
    ensures r.Valid()
  {
    if c == NEWLINE then Terminal(Put(t.screen, c), [], true)
    else if c == BACKSPACE then
      if t.line == [] then t
      else t.(screen := Put(t.screen, c), line := t.line[..|t.line| - 1])
    else if |t.line| == MAX_LINE then t
    else t.(screen := Put(t.screen, c), line := t.line + [c])
  }

  // The line being edited is what stands on the screen right before the cursor.
  ghost predicate EchoShown(t: Terminal)
    requires t.Valid()
  {
    forall j :: 0 <= j < |t.line| ==>
      Glyph(t.screen.page, COLS * t.screen.y + t.screen.x - |t.line| + j) == t.line[j]
  }

  function Glyph(page: seq<byte>, cell: int): byte
    requires |page| == PAGE && 0 <= cell < COLS * ROWS
  {
    page[2 * cell]
  }

  // A line feed under the cursor, as a deferred wrap makes it, leaves the cells before the cursor in place
  // or moves them along with it: here the one j cells before it.
  lemma WrapKeepsGlyph(s: Screen, j: int)
    requires s.Valid() && s.x == COLS && 0 < j <= MAX_LINE && j <= COLS * s.y + s.x
    ensures var w := LineFeed(s);
            && j <= COLS * w.y + w.x
            && Glyph(w.page, COLS * w.y + w.x - j) == Glyph(s.page, COLS * s.y + s.x - j)
  {
  }

  // What one keystroke keeps: also across wrapping, scrolling and erasing back over a wrapped line.
  lemma TypeKeepsEcho(t: Terminal, c: byte)
    requires t.Valid() && c != RETURN && EchoShown(t)
    ensures EchoShown(Type(t, c))
  {
    var u := Type(t, c);
    forall j | 0 <= j < |u.line|
      ensures Glyph(u.screen.page, COLS * u.screen.y + u.screen.x - |u.line| + j) == u.line[j]
    {
      TypeKeepsGlyph(t, c, j);
    }
  }

  lemma TypeKeepsGlyph(t: Terminal, c: byte, j: nat)
    requires t.Valid() && c != RETURN && EchoShown(t) && j < |Type(t, c).line|
    ensures var u := Type(t, c);
            Glyph(u.screen.page, COLS * u.screen.y + u.screen.x - |u.line| + j) == u.line[j]
  {
    var n, s := |t.line|, t.screen;
    if c == BACKSPACE {
      GlyphPoke(s.page, COLS * s.y + s.x - 1, SPACE, COLS * s.y + s.x - n + j);
    } else if n < MAX_LINE && c != NEWLINE {
      if j < n {
        PutKeepsGlyph(s, c, n - j);
      } else {
        PutShowsGlyph(s, c);
      }
    }
  }

  // A character put on the screen stands right before the cursor, and what stood j cells before the cursor
  // is one further away.
  lemma PutShowsGlyph(s: Screen, c: byte)
    requires s.Valid() && !IsNewline(c) && c != BACKSPACE && 0 <= COLS * s.y + s.x
    ensures var u := Put(s, c); 0 < COLS * u.y + u.x && Glyph(u.page, COLS * u.y + u.x - 1) == c
  {
    var w := if s.x == COLS then LineFeed(s) else s;
    GlyphPoke(w.page, COLS * w.y + w.x, c, COLS * w.y + w.x);
  }

  lemma PutKeepsGlyph(s: Screen, c: byte, j: int)
    requires s.Valid() && !IsNewline(c) && c != BACKSPACE && 0 < j <= MAX_LINE && j <= COLS * s.y + s.x
    ensures var u := Put(s, c);
            j + 1 <= COLS * u.y + u.x && Glyph(u.page, COLS * u.y + u.x - 1 - j) == Glyph(s.page, COLS * s.y + s.x - j)
  {
    if s.x == COLS {
      WrapKeepsGlyph(s, j);
    }
    var w := if s.x == COLS then LineFeed(s) else s;
    GlyphPoke(w.page, COLS * w.y + w.x, c, COLS * w.y + w.x - j);
  }

  lemma GlyphPoke(page: seq<byte>, cell: int, c: byte, other: int)
    requires |page| == PAGE && 0 <= cell < COLS * ROWS && 0 <= other < COLS * ROWS
    ensures Glyph(Poke(page, cell, c), other) == if other == cell then c else Glyph(page, other)
  {
  }

  // So while nothing else is printed the screen always shows the edited line.
  lemma {:induction false} EchoAlwaysShown(t: Terminal, es: seq<OwnEvent>)
    requires t.Valid() && EchoShown(t)
    requires forall e :: e in es ==> Acceptable(e) && !e.Printed?
    ensures EchoShown(Standalone(t, es))
    decreases |es|
  {
    if es != [] {
      assert Acceptable(es[0]);
      if es[0].Typed? {
        TypeKeepsEcho(t, es[0].c);
      }
      EchoAlwaysShown(Own(t, es[0]), es[1..]);
    }
  }

  function Cleared(t: Terminal): (r: Terminal)
    requires t.Valid()
    ensures r.Valid()
  {
    t.(screen := Screen(BlankPage(t.screen.page), 0, 0), line := [])
  }

  datatype OwnEvent = Printed(text: seq<byte>) | Typed(c: byte) | Wiped | Read

  predicate Acceptable(e: OwnEvent)
  {
    match e
    case Printed(text) => BACKSPACE !in text
    case Typed(c) => c != RETURN
    case _ => true
  }

  function Own(t: Terminal, e: OwnEvent): (r: Terminal)
    requires t.Valid() && Acceptable(e)
    ensures r.Valid()
  {
    match e
    case Printed(text) => Print(t, text)
    case Typed(c) => Type(t, c)
    case Wiped => Cleared(t)
    case Read => t.(ready := false)
  }

  // A console of its own, fed nothing but its own events.
  function Standalone(t: Terminal, es: seq<OwnEvent>): (r: Terminal)
    requires t.Valid() && forall e :: e in es ==> Acceptable(e)
    ensures r.Valid()
    decreases |es|
  {
    if es == [] then t else Standalone(Own(t, es[0]), es[1..])
  }

  // ---- The shared machine ----

  datatype System = System(running: nat, visible: nat, terms: seq<Terminal>, command: Command)
  {
    ghost predicate Valid() {
      && running < TERMINALS && visible < TERMINALS && |terms| == TERMINALS && command.Valid()
      && forall k :: 0 <= k < TERMINALS ==> terms[k].Valid()
    }
  }

  // Timer tick, Alt-Fn, terminal_write, a key, Ctrl-L, terminal_read.
  datatype Event =
    | Tick
    | Switch(dest: nat)
    | Output(text: seq<byte>)
    | Key(c: byte)
    | CtrlL
    | ReadLine(n: nat)

  function Next(k: nat): nat { (k + 1) % TERMINALS }

  // Enter needs room in the command buffer; '\r' is on no key.
  ghost predicate CanPress(s: System, c: byte)
    requires s.Valid()
  {
    c != RETURN && (c == NEWLINE ==> s.command.HasRoom(|s.terms[s.visible].line| + 1))
  }

  ghost predicate Enabled(s: System, e: Event)
    requires s.Valid()
  {
    match e
    case Tick => true
    case Switch(dest) => dest < TERMINALS
    case Output(text) => BACKSPACE !in text
    case Key(c) => CanPress(s, c)
    case CtrlL => true
    case ReadLine(n) => s.terms[s.running].ready && Readable(s.command, n)
  }

  // Output goes to the running terminal.
  function PrintStep(s: System, text: seq<byte>): (r: System)
    requires s.Valid() && BACKSPACE !in text
    ensures r.Valid()
  {
    s.(terms := s.terms[s.running := Print(s.terms[s.running], text)])
  }

  // A key goes to the visible one.
  function KeyStep(s: System, c: byte): (r: System)
    requires s.Valid() && CanPress(s, c)
    ensures r.Valid()
  {
    var v := s.terms[s.visible];
    s.(terms := s.terms[s.visible := Type(v, c)],
       command := if c == NEWLINE then Append(s.command, v.line + [c]) else s.command)
  }

  function ReadStep(s: System, n: nat): (r: System)
    requires s.Valid() && Readable(s.command, n)
    ensures r.Valid()
  {
    s.(terms := s.terms[s.running := s.terms[s.running].(ready := false)], command := Consume(s.command, n))
  }

  // Ctrl-L as the kernel does it: the running terminal's page is blanked, but it is the visible
  // terminal's cursor and edited line that are reset.
  function ClearKey(s: System): (r: System)
    requires s.Valid()
    ensures r.Valid()
  {
    var t := s.terms[s.running];
    var blanked := s.terms[s.running := t.(screen := t.screen.(page := BlankPage(t.screen.page)))];
    var v := blanked[s.visible];
    s.(terms := blanked[s.visible := v.(screen := v.screen.(x := 0, y := 0), line := [])])
  }

  function Step(s: System, e: Event): (r: System)
    requires s.Valid() && Enabled(s, e)
    ensures r.Valid()
  {
    match e
    case Tick => s.(running := Next(s.running))
    case Switch(dest) => s.(visible := dest)
    case Output(text) => PrintStep(s, text)
    case Key(c) => KeyStep(s, c)
    case CtrlL => ClearKey(s)
    case ReadLine(n) => ReadStep(s, n)
  }

  ghost predicate AllEnabled(s: System, es: seq<Event>)
    requires s.Valid()
    decreases |es|
  {
    es == [] || (Enabled(s, es[0]) && AllEnabled(Step(s, es[0]), es[1..]))
  }

  // Any interleaving of the machine's events. That the result is valid is cursor safety over whole runs.
  function Run(s: System, es: seq<Event>): (r: System)
    requires s.Valid() && AllEnabled(s, es)
    ensures r.Valid()
    decreases |es|
  {
    if es == [] then s else Run(Step(s, es[0]), es[1..])
  }

  function TickCount(es: seq<Event>): nat
  {
    if es == [] then 0 else (if es[0].Tick? then 1 else 0) + TickCount(es[1..])
  }

  // Each tick hands the processor to the next of the three terminals, and nothing else does.
  lemma {:induction false} TicksTurn(s: System, es: seq<Event>)
    requires s.Valid() && AllEnabled(s, es)
    ensures Run(s, es).running == (s.running + TickCount(es)) % 3
    decreases |es|
  {
    if es != [] {
      TicksTurn(Step(s, es[0]), es[1..]);
    }
  }

  // ---- Isolation ----

  function Running(running: nat, e: Event): nat { if e.Tick? then Next(running) else running }

  function Visible(visible: nat, e: Event): nat { if e.Switch? then e.dest else visible }

  // What event e is to terminal k, given who runs and who is visible.
  function Concerning(running: nat, visible: nat, e: Event, k: nat): (r: Option<OwnEvent>)
  {
    match e
    case Output(text) => if running == k then Some(Printed(text)) else None
    case Key(c) => if visible == k then Some(Typed(c)) else None
    case CtrlL => if visible == k then Some(Wiped) else None
    case ReadLine(_) => if running == k then Some(Read) else None
    case _ => None
  }

  // The events of a run that concern terminal k.
  function OwnEvents(running: nat, visible: nat, es: seq<Event>, k: nat): (r: seq<OwnEvent>)
    decreases |es|
  {
    if es == [] then []
    else
      var rest := OwnEvents(Running(running, es[0]), Visible(visible, es[0]), es[1..], k);
      match Concerning(running, visible, es[0], k)
      case Some(own) => [own] + rest
      case None => rest
  }

  // Ctrl-L is pressed only while the visible terminal is the one running.
  predicate ClearsAtHome(running: nat, visible: nat, es: seq<Event>)
    decreases |es|
  {
    es != [] ==>
      && (es[0].CtrlL? ==> running == visible)
      && ClearsAtHome(Running(running, es[0]), Visible(visible, es[0]), es[1..])
  }

  // One step is the terminal's own event, or nothing at all to it.
  lemma StepIsOwn(s: System, e: Event, k: nat)
    requires s.Valid() && Enabled(s, e) && k < TERMINALS
    requires e.CtrlL? ==> s.running == s.visible
    ensures match Concerning(s.running, s.visible, e, k)
            case Some(own) => Acceptable(own) && Step(s, e).terms[k] == Own(s.terms[k], own)
            case None => Step(s, e).terms[k] == s.terms[k]
    ensures Step(s, e).running == Running(s.running, e) && Step(s, e).visible == Visible(s.visible, e)
  {
  }

  // Terminal isolation: for every interleaving, each terminal ends exactly as a standalone console fed
  // only its own events.
  lemma {:induction false} Isolation(s: System, es: seq<Event>, k: nat)
    requires s.Valid() && AllEnabled(s, es) && k < TERMINALS
    requires ClearsAtHome(s.running, s.visible, es)
    ensures var own := OwnEvents(s.running, s.visible, es, k);
            && (forall e :: e in own ==> Acceptable(e))
            && Run(s, es).terms[k] == Standalone(s.terms[k], own)
    decreases |es|
  {
    if es != [] {
      StepIsOwn(s, es[0], k);
      Isolation(Step(s, es[0]), es[1..], k);
      var own := OwnEvents(s.running, s.visible, es, k);
      if Concerning(s.running, s.visible, es[0], k).Some? {
        assert own[1..] == OwnEvents(Running(s.running, es[0]), Visible(s.visible, es[0]), es[1..], k);
      }
    }
  }

  // No terminal can tell the run apart from having the console to itself.
  ghost predicate Isolated(before: System, es: seq<Event>, after: System)
    requires before.Valid() && |after.terms| == TERMINALS
  {
    forall k :: 0 <= k < TERMINALS ==>
      var own := OwnEvents(before.running, before.visible, es, k);
      && (forall e :: e in own ==> Acceptable(e))
      && after.terms[k] == Standalone(before.terms[k], own)
  }

  lemma AllIsolated(s: System, es: seq<Event>)
    requires s.Valid() && AllEnabled(s, es) && ClearsAtHome(s.running, s.visible, es)
    ensures Isolated(s, es, Run(s, es))
  {
    forall k: nat | k < TERMINALS
      ensures var own := OwnEvents(s.running, s.visible, es, k);
              (forall e :: e in own ==> Acceptable(e)) && Run(s, es).terms[k] == Standalone(s.terms[k], own)
    {
      Isolation(s, es, k);
    }
  }

  // Ctrl-L treats the visible terminal alone, as clearing a console should, exactly when the visible
  // terminal is the running one or both pages are blank already.
  lemma ClearIsLocal(s: System)
    requires s.Valid()
    ensures ClearKey(s) == s.(terms := s.terms[s.visible := Cleared(s.terms[s.visible])]) <==>
            || s.running == s.visible
            || (forall k :: k == s.running || k == s.visible ==>
                  BlankPage(s.terms[k].screen.page) == s.terms[k].screen.page)
  {
    var lhs := ClearKey(s).terms;
    var rhs := s.terms[s.visible := Cleared(s.terms[s.visible])];
    if s.running == s.visible {
      assert lhs == rhs;
    } else {
      assert lhs[s.running].screen.page == BlankPage(s.terms[s.running].screen.page);
      assert rhs[s.running] == s.terms[s.running];
      assert lhs[s.visible].screen.page == s.terms[s.visible].screen.page;
      assert rhs[s.visible].screen.page == BlankPage(s.terms[s.visible].screen.page);
      if forall k :: k == s.running || k == s.visible ==>
           BlankPage(s.terms[k].screen.page) == s.terms[k].screen.page {
        assert lhs == rhs;
      }
    }
  }

  function Texts(es: seq<OwnEvent>): seq<byte>
    requires forall e :: e in es ==> e.Printed?
  {
    if es == [] then [] else es[0].text + Texts(es[1..])
  }

  lemma {:induction false} StandalonePrints(t: Terminal, es: seq<OwnEvent>)
    requires t.Valid() && forall e :: e in es ==> e.Printed? && Acceptable(e)
    ensures BACKSPACE !in Texts(es)
    ensures Standalone(t, es) == Print(t, Texts(es))
    decreases |es|
  {
    if es != [] {
      var u := Own(t, es[0]);
      StandalonePrints(u, es[1..]);
      PrintIsPutAll(t, es[0].text);
      PrintIsPutAll(u, Texts(es[1..]));
      PrintIsPutAll(t, Texts(es));
      PutAllConcat(t.screen, es[0].text, Texts(es[1..]));
    }
  }

  // Isolation and the scrolling window together: on a cleared terminal that is only written to, the
  // screen shows the last 25 rows of that terminal's own output, whatever the others did meanwhile.
  lemma WindowUnderInterleaving(s: System, es: seq<Event>, k: nat)
    requires s.Valid() && AllEnabled(s, es) && k < TERMINALS
    requires ClearsAtHome(s.running, s.visible, es)
    requires s.terms[k] == Cleared(s.terms[k])
    requires forall e :: e in OwnEvents(s.running, s.visible, es, k) ==> e.Printed?
    ensures Shows(Run(s, es).terms[k].screen, Rows(Texts(OwnEvents(s.running, s.visible, es, k))))
  {
    var own := OwnEvents(s.running, s.visible, es, k);
    Isolation(s, es, k);
    StandalonePrints(s.terms[k], own);
    PrintIsPutAll(s.terms[k], Texts(own));
    ScrollingWindow(s.terms[k].screen.page, Texts(own));
  }
}
