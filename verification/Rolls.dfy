// What keystrokes and output do to a screen, told on paper: an endless roll of rows of at most 80 characters
// and a pen. Backspacing takes the pen back over wrapped rows, so it need not be in the last row.
module Rolls {
  import opened Bytes
  import opened Screens
  import opened Terminals
  import opened Input

  // Rows below the pen are empty. A full row is left only when the next character comes.
  datatype Roll = Roll(rows: seq<seq<byte>>, pen: nat)
  {
    ghost predicate Valid() {
      && pen < |rows|
      && (forall i :: 0 <= i < |rows| ==> |rows[i]| <= COLS)
      && (forall i :: pen < i < |rows| ==> rows[i] == [])
      && (|rows[pen]| == COLS ==> pen == |rows| - 1)
    }
  }

  const START := Roll([[]], 0)

  function Padded(row: seq<byte>, n: nat): (r: seq<byte>)
    ensures |r| == n
  {
    if n <= |row| then row[..n] else row + seq(n - |row|, _ => SPACE)
  }

  // Enter and newlines begin a new last row. A backspace takes the character before the pen away, in an
  // empty row the one in the last column of the row above.
  function Write(r: Roll, c: byte): (r': Roll)
    requires r.Valid()
    ensures r'.Valid()
  {
    var rows, pen, row := r.rows, r.pen, r.rows[r.pen];
    if IsNewline(c) then Roll(rows + [[]], |rows|)
    else if c == BACKSPACE then
      if row != [] then Roll(rows[pen := row[..|row| - 1]], pen)
      else if pen > 0 then Roll(rows[pen - 1 := Padded(rows[pen - 1], COLS - 1)], pen - 1)
      else r
    else if |row| == COLS then Roll(rows + [[c]], |rows|)
    else Roll(rows[pen := row + [c]], if |row| + 1 == COLS && pen + 1 < |rows| then pen + 1 else pen)
  }

  function WriteAll(r: Roll, text: seq<byte>): (r': Roll)
    requires r.Valid()
    ensures r'.Valid()
  {
    if text == [] then r else Write(WriteAll(r, text[..|text| - 1]), text[|text| - 1])
  }

  ghost predicate Cells(page: seq<byte>, rows: seq<seq<byte>>)
    requires |page| == PAGE
  {
    forall row, col :: 0 <= row < ROWS && 0 <= col < COLS ==> At(page, row, col) == RollAt(rows, Top(rows) + row, col)
  }

  // The screen is the last 25 rows of the roll, blank where nothing is written, and the cursor is the pen,
  // counted from the left end of the last row.
  ghost predicate Displays(s: Screen, r: Roll)
  {
    && s.Valid() && r.Valid()
    && s.y == |r.rows| - 1 - Top(r.rows)
    && s.x == |r.rows[r.pen]| - COLS * (|r.rows| - 1 - r.pen)
    && Cells(s.page, r.rows)
  }

  // ---- One character ----

  lemma FeedDisplays(s: Screen, r: Roll)
    requires Displays(s, r)
    ensures Displays(LineFeed(s), Roll(r.rows + [[]], |r.rows|))
  {
    var rows, rows' := r.rows, r.rows + [[]];
    var t := LineFeed(s);
    forall row, col | 0 <= row < ROWS && 0 <= col < COLS
      ensures At(t.page, row, col) == RollAt(rows', Top(rows') + row, col)
    {
      if s.y + 1 == ROWS {
        ScrollMovesUp(s.page, row, col);
        assert row + 1 < ROWS ==> At(s.page, row + 1, col) == RollAt(rows, Top(rows) + row + 1, col);
      } else {
        assert At(s.page, row, col) == RollAt(rows, Top(rows) + row, col);
      }
    }
  }

  // Writing into one cell of the part that is shown.
  lemma PokeCells(page: seq<byte>, rows: seq<seq<byte>>, rows': seq<seq<byte>>, i: int, j: int, c: byte)
    requires |page| == PAGE && Cells(page, rows) && |rows'| == |rows|
    requires Top(rows) <= i < Top(rows) + ROWS && 0 <= j < COLS
    requires forall k, col :: 0 <= col < COLS ==>
               RollAt(rows', k, col) == if k == i && col == j then Cell(c, ATTRIB) else RollAt(rows, k, col)
    ensures Cells(Poke(page, COLS * (i - Top(rows)) + j, c), rows')
  {
    var page' := Poke(page, COLS * (i - Top(rows)) + j, c);
    forall row, col | 0 <= row < ROWS && 0 <= col < COLS
      ensures At(page', row, col) == RollAt(rows', Top(rows') + row, col)
    {
      assert At(page, row, col) == RollAt(rows, Top(rows) + row, col);
      PokedAt(page, i - Top(rows), j, c, row, col);
    }
  }

  lemma PokedAt(page: seq<byte>, i: int, j: int, c: byte, row: int, col: int)
    requires |page| == PAGE && 0 <= i < ROWS && 0 <= j < COLS && 0 <= row < ROWS && 0 <= col < COLS
    ensures At(Poke(page, COLS * i + j, c), row, col) == if row == i && col == j then Cell(c, ATTRIB) else At(page, row, col)
  {
  }

  // Where the cursor is, the pen is.
  lemma PenIsShown(s: Screen, r: Roll)
    requires Displays(s, r)
    ensures COLS * s.y + s.x == COLS * (r.pen - Top(r.rows)) + |r.rows[r.pen]| && Top(r.rows) <= r.pen < Top(r.rows) + ROWS
  {
  }

  lemma CharDisplays(s: Screen, r: Roll, c: byte)
    requires Displays(s, r) && s.x < COLS && !IsNewline(c) && c != BACKSPACE
    ensures Displays(Put(s, c), Write(r, c))
  {
    PenIsShown(s, r);
    PokeCells(s.page, r.rows, Write(r, c).rows, r.pen, |r.rows[r.pen]|, c);
  }

  lemma BackDisplays(s: Screen, r: Roll)
    requires Displays(s, r) && 1 <= COLS * s.y + s.x
    ensures Displays(Put(s, BACKSPACE), Write(r, BACKSPACE))
  {
    PenIsShown(s, r);
    var r' := Write(r, BACKSPACE);
    PokeCells(s.page, r.rows, r'.rows, r'.pen, |r'.rows[r'.pen]|, SPACE);
  }

  lemma WrapDisplays(s: Screen, r: Roll, c: byte)
    requires Displays(s, r) && s.x == COLS && !IsNewline(c) && c != BACKSPACE
    ensures Displays(Put(s, c), Write(r, c))
  {
    var fed := Roll(r.rows + [[]], |r.rows|);
    FeedDisplays(s, r);
    CharDisplays(LineFeed(s), fed, c);
    assert Put(LineFeed(s), c) == Put(s, c);
    assert [] + [c] == [c] && fed.rows[|r.rows| := [c]] == r.rows + [[c]];
  }

  lemma PutDisplays(s: Screen, r: Roll, c: byte)
    requires Displays(s, r) && (c == BACKSPACE ==> 1 <= COLS * s.y + s.x)
    ensures Displays(Put(s, c), Write(r, c))
  {
    if IsNewline(c) {
      FeedDisplays(s, r);
    } else if c == BACKSPACE {
      BackDisplays(s, r);
    } else if s.x < COLS {
      CharDisplays(s, r, c);
    } else {
      WrapDisplays(s, r, c);
    }
  }

  lemma {:induction false} PutAllDisplays(s: Screen, r: Roll, text: seq<byte>)
    requires Displays(s, r) && BACKSPACE !in text
    ensures Displays(PutAll(s, text), WriteAll(r, text))
  {
    if text != [] {
      var n := |text| - 1;
      PutAllDisplays(s, r, text[..n]);
      PutDisplays(PutAll(s, text[..n]), WriteAll(r, text[..n]), text[n]);
    }
  }

  lemma ClearDisplays(page: seq<byte>)
    requires |page| == PAGE
    ensures Displays(Screen(BlankPage(page), 0, 0), START)
  {
  }

  // ---- A terminal ----

  // What an event sends to the screen of a terminal on which `line` is being edited: all output, and the
  // keys that are accepted.
  function Echo(line: seq<byte>, e: OwnEvent): seq<byte>
  {
    match e
    case Printed(text) => text
    case Typed(c) =>
      if c == NEWLINE then [c]
      else if c == BACKSPACE then (if line == [] then [] else [c])
      else if |line| < MAX_LINE then [c]
      else []
    case _ => []
  }

  function LineAfter(line: seq<byte>, e: OwnEvent): seq<byte>
  {
    match e
    case Typed(c) => Edit(line, c)
    case Wiped => []
    case _ => line
  }

  // The roll after a history of output and keystrokes; Ctrl-L begins a new one.
  function Paper(r: Roll, line: seq<byte>, es: seq<OwnEvent>): (r': Roll)
    requires r.Valid()
    ensures r'.Valid()
    decreases |es|
  {
    if es == [] then r
    else Paper(if es[0].Wiped? then START else WriteAll(r, Echo(line, es[0])), LineAfter(line, es[0]), es[1..])
  }

  lemma KeyDisplays(t: Terminal, r: Roll, c: byte)
    requires t.Valid() && c != RETURN && Displays(t.screen, r)
    ensures Displays(Type(t, c).screen, WriteAll(r, Echo(t.line, Typed(c))))
    ensures Type(t, c).line == Edit(t.line, c)
  {
    var echo := Echo(t.line, Typed(c));
    if echo == [c] {
      assert echo[..0] == [] && WriteAll(r, []) == r;
      PutDisplays(t.screen, r, c);
    }
  }

  lemma OwnDisplays(t: Terminal, r: Roll, e: OwnEvent)
    requires t.Valid() && Acceptable(e) && Displays(t.screen, r)
    ensures Displays(Own(t, e).screen, if e.Wiped? then START else WriteAll(r, Echo(t.line, e)))
    ensures Own(t, e).line == LineAfter(t.line, e)
  {
    match e
    case Printed(text) =>
      PrintIsPutAll(t, text);
      PutAllDisplays(t.screen, r, text);
    case Typed(c) => KeyDisplays(t, r, c);
    case Wiped => ClearDisplays(t.screen.page);
    case Read =>
  }

  // Whatever is printed and typed, in whatever order, the screen shows the roll it is written on.
  lemma {:induction false} ScreenIsPaper(t: Terminal, r: Roll, es: seq<OwnEvent>)
    requires t.Valid() && Displays(t.screen, r) && forall e :: e in es ==> Acceptable(e)
    ensures Displays(Standalone(t, es).screen, Paper(r, t.line, es))
    decreases |es|
  {
    if es != [] {
      OwnDisplays(t, r, es[0]);
      ScreenIsPaper(Own(t, es[0]), if es[0].Wiped? then START else WriteAll(r, Echo(t.line, es[0])), es[1..]);
    }
  }

  // On the shared machine too, for every terminal and every run.
  lemma PaperUnderInterleaving(s: System, es: seq<Event>, k: nat, r: Roll)
    requires s.Valid() && AllEnabled(s, es) && k < TERMINALS && ClearsAtHome(s.running, s.visible, es)
    requires Displays(s.terms[k].screen, r)
    ensures Displays(Run(s, es).terms[k].screen, Paper(r, s.terms[k].line, OwnEvents(s.running, s.visible, es, k)))
  {
    Isolation(s, es, k);
    ScreenIsPaper(s.terms[k], r, OwnEvents(s.running, s.visible, es, k));
  }

  // ---- The roll and the rows of a text ----

  // A text without backspaces fills the roll with its rows, and leaves the pen in the last one.
  lemma {:induction false} TextFillsRows(log: seq<byte>)
    requires BACKSPACE !in log
    ensures WriteAll(START, log) == Roll(Rows(log), |Rows(log)| - 1)
  {
    if log != [] {
      var n := |log| - 1;
      TextFillsRows(log[..n]);
      RowsAreSnoc(log[..n], log[n]);
      assert log == log[..n] + [log[n]];
      WriteIsSnoc(Rows(log[..n]), log[n]);
    }
  }

  lemma WriteIsSnoc(rows: seq<seq<byte>>, c: byte)
    requires 1 <= |rows| && Roll(rows, |rows| - 1).Valid() && c != BACKSPACE
    ensures Write(Roll(rows, |rows| - 1), c) == Roll(RowsSnoc(rows, c), |RowsSnoc(rows, c)| - 1)
  {
    var n := |rows| - 1;
    assert rows[n := rows[n] + [c]] == rows[..n] + [rows[n] + [c]];
  }

  lemma ShowsIsDisplays(s: Screen, rows: seq<seq<byte>>)
    ensures Shows(s, rows) <==> 1 <= |rows| && Displays(s, Roll(rows, |rows| - 1))
  {
  }

  // A key on a terminal that shows the end of some text: Enter begins a new row, an accepted character comes
  // next, and a key that a full or an empty line ignores leaves the screen as it is.
  lemma KeyShows(t: Terminal, rows: seq<seq<byte>>, c: byte)
    requires t.Valid() && c != RETURN && Shows(t.screen, rows)
    ensures c == NEWLINE ==> Shows(Type(t, c).screen, rows + [[]])
    ensures c != NEWLINE && c != BACKSPACE && |t.line| < MAX_LINE ==> Shows(Type(t, c).screen, RowsSnoc(rows, c))
    ensures c != NEWLINE && c != BACKSPACE && |t.line| == MAX_LINE ==> Type(t, c).screen == t.screen
    ensures c == BACKSPACE && t.line == [] ==> Type(t, c).screen == t.screen
  {
    if c != BACKSPACE {
      ShowsIsDisplays(t.screen, rows);
      KeyDisplays(t, Roll(rows, |rows| - 1), c);
      WriteIsSnoc(rows, c);
      if Echo(t.line, Typed(c)) == [c] {
        assert [c][..0] == [] && WriteAll(Roll(rows, |rows| - 1), [c]) == Write(Roll(rows, |rows| - 1), c);
        ShowsIsDisplays(Type(t, c).screen, RowsSnoc(rows, c));
      }
    }
  }

  // A backspace on a line that is not empty blanks the cell before the cursor, also over a wrap, moves the
  // cursor there and leaves every other cell alone.
  lemma BackspaceBlanks(t: Terminal)
    requires t.Valid() && t.line != []
    ensures var s, u := t.screen, Type(t, BACKSPACE).screen;
            && COLS * u.y + u.x == COLS * s.y + s.x - 1
            && forall row, col :: 0 <= row < ROWS && 0 <= col < COLS ==>
                 At(u.page, row, col)
                 == if COLS * row + col == COLS * u.y + u.x then Cell(SPACE, ATTRIB) else At(s.page, row, col)
  {
    var s := t.screen;
    var at := COLS * s.y + s.x - 1;
    forall row, col | 0 <= row < ROWS && 0 <= col < COLS
      ensures At(Type(t, BACKSPACE).screen.page, row, col)
              == if COLS * row + col == at then Cell(SPACE, ATTRIB) else At(s.page, row, col)
    {
      PokedAt(s.page, at / COLS, at % COLS, SPACE, row, col);
    }
  }
}
