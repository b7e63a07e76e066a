// One text console: a 4 KB text-mode page and a cursor. This is what each of the three terminals
// is supposed to behave like, whatever the other two do.
module Screens {
  import opened Bytes
  import opened Lines

  const COLS := 80
  const ROWS := 25
  const PAGE := 4096
  const ATTRIB: byte := 7

  // A page holds character/attribute byte pairs, row after row; the last 96 bytes are not shown.
  datatype Screen = Screen(page: seq<byte>, x: int, y: int)
  {
    // The cursor may hang left of column 0 after backspacing over a wrapped line, but the cell it
    // denotes is on the page; x == 80 is the deferred wrap.
    ghost predicate Valid() {
      |page| == PAGE && 0 <= y < ROWS && x <= COLS && 0 <= COLS * y + x
    }
  }

  datatype Cell = Cell(ch: byte, attrib: byte)

  function At(page: seq<byte>, row: int, col: int): Cell
    requires |page| == PAGE && 0 <= row < ROWS && 0 <= col < COLS
  {
    Cell(page[2 * (COLS * row + col)], page[2 * (COLS * row + col) + 1])
  }

  predicate IsNewline(c: byte) { c == NEWLINE || c == RETURN }

  // A cell gets a character and the default attribute.
  function Poke(page: seq<byte>, cell: int, c: byte): (r: seq<byte>)
    requires |page| == PAGE && 0 <= cell < COLS * ROWS
    ensures |r| == PAGE
  {
    page[2 * cell := c][2 * cell + 1 := ATTRIB]
  }

  function Blank(): seq<byte> { seq(2 * COLS * ROWS, i => if i % 2 == 0 then SPACE else ATTRIB) }

  function BlankPage(page: seq<byte>): (r: seq<byte>)
    requires |page| == PAGE
    ensures |r| == PAGE
  {
    Blank() + page[2 * COLS * ROWS..]
  }

  // All rows move up one; the bottom row becomes blank.
  function ScrollPage(page: seq<byte>): (r: seq<byte>)
    requires |page| == PAGE
    ensures |r| == PAGE
  {
    seq(PAGE, i requires 0 <= i < PAGE =>
      if 2 * COLS * ROWS <= i then page[i]
      else if i % 2 == 1 then ATTRIB
      else if i < 2 * COLS * (ROWS - 1) then page[i + 2 * COLS]
      else SPACE)
  }

  function LineFeed(s: Screen): (r: Screen)
    requires s.Valid()
    ensures r.Valid() && r.x == 0
  {
    if s.y + 1 == ROWS then Screen(ScrollPage(s.page), 0, s.y) else Screen(s.page, 0, s.y + 1)
  }

  // One character sent to the console.
  function Put(s: Screen, c: byte): (r: Screen)
    requires s.Valid()
    requires c == BACKSPACE ==> 1 <= COLS * s.y + s.x
    ensures r.Valid()
  {
    if IsNewline(c) then LineFeed(s)
    else if c == BACKSPACE then Screen(Poke(s.page, COLS * s.y + s.x - 1, SPACE), s.x - 1, s.y)
    else
      var t := if s.x == COLS then LineFeed(s) else s;
      Screen(Poke(t.page, COLS * t.y + t.x, c), t.x + 1, t.y)
  }

  function PutAll(s: Screen, text: seq<byte>): (r: Screen)
    requires s.Valid() && BACKSPACE !in text
    ensures r.Valid()
  {
    if text == [] then s else Put(PutAll(s, text[..|text| - 1]), text[|text| - 1])
  }

  lemma {:induction false} PutAllConcat(s: Screen, a: seq<byte>, b: seq<byte>)
    requires s.Valid() && BACKSPACE !in a && BACKSPACE !in b
    ensures PutAll(s, a + b) == PutAll(PutAll(s, a), b)
  {
    if b == [] {
      assert a + b == a;
    } else {
      PutAllConcat(s, a, b[..|b| - 1]);
      assert (a + b)[..|a + b| - 1] == a + b[..|b| - 1];
    }
  }

  // ---- The screen is a window on the unbounded log of everything printed ----

  // A line cut into rows of at most 80 characters. Exactly 80 characters still make one row.
  function Chunks(line: seq<byte>): (r: seq<seq<byte>>)
    ensures |r| >= 1
  {
    if |line| <= COLS then [line] else [line[..COLS]] + Chunks(line[COLS..])
  }

  function ChunkAll(lines: seq<seq<byte>>): (r: seq<seq<byte>>)
    ensures lines != [] ==> r != []
  {
    if lines == [] then [] else Chunks(lines[0]) + ChunkAll(lines[1..])
  }

  // The rows of an endless roll of paper on which `log` has been printed.
  function Rows(log: seq<byte>): (r: seq<seq<byte>>)
    ensures |r| >= 1
  {
    ChunkAll(Split(log, {NEWLINE, RETURN}))
  }

  // The cell in column col of row i of the roll, blank where nothing was printed.
  function RollAt(rows: seq<seq<byte>>, i: int, col: int): Cell
  {
    Cell(if 0 <= i < |rows| && 0 <= col < |rows[i]| then rows[i][col] else SPACE, ATTRIB)
  }

  function Top(rows: seq<seq<byte>>): nat { if |rows| <= ROWS then 0 else |rows| - ROWS }

  // The 25 rows of s are the last 25 rows of the roll and the cursor is at its end.
  ghost predicate Shows(s: Screen, rows: seq<seq<byte>>)
  {
    && s.Valid()
    && 1 <= |rows|
    && s.y == |rows| - 1 - Top(rows)
    && s.x == |rows[|rows| - 1]|
    && (forall i :: 0 <= i < |rows| ==> |rows[i]| <= COLS)
    && (forall row, col :: 0 <= row < ROWS && 0 <= col < COLS ==>
          At(s.page, row, col) == RollAt(rows, Top(rows) + row, col))
  }

  // What one more character does to the roll.
  function RowsSnoc(rows: seq<seq<byte>>, c: byte): seq<seq<byte>>
    requires |rows| >= 1
  {
    var n := |rows| - 1;
    if IsNewline(c) then rows + [[]]
    else if |rows[n]| == COLS then rows + [[c]]
    else rows[..n] + [rows[n] + [c]]
  }

  lemma {:induction false} ChunksSnoc(line: seq<byte>, c: byte)
    requires !IsNewline(c)
    ensures Chunks(line + [c]) == RowsSnoc(Chunks(line), c)
  {
    if |line| > COLS {
      ChunksSnoc(line[COLS..], c);
      assert (line + [c])[COLS..] == line[COLS..] + [c];
      assert (line + [c])[..COLS] == line[..COLS];
    } else if |line| == COLS {
      assert (line + [c])[COLS..] == [c];
      assert (line + [c])[..COLS] == line;
    }
  }

  lemma {:induction false} ChunkAllConcat(a: seq<seq<byte>>, b: seq<seq<byte>>)
    ensures ChunkAll(a + b) == ChunkAll(a) + ChunkAll(b)
  {
    if a == [] {
      assert a + b == b;
    } else {
      ChunkAllConcat(a[1..], b);
      assert (a + b)[1..] == a[1..] + b;
    }
  }

  lemma ChunkAllLast(lines: seq<seq<byte>>, last: seq<byte>)
    ensures ChunkAll(lines + [last]) == ChunkAll(lines) + Chunks(last)
  {
    ChunkAllConcat(lines, [last]);
    assert ChunkAll([last]) == Chunks(last) + ChunkAll([]);
  }

  lemma RowsSnocConcat(a: seq<seq<byte>>, b: seq<seq<byte>>, c: byte)
    requires |b| >= 1
    ensures RowsSnoc(a + b, c) == a + RowsSnoc(b, c)
  {
    assert (a + b)[..|a| + |b| - 1] == a + b[..|b| - 1];
  }

  lemma RowsAreSnoc(log: seq<byte>, c: byte)
    ensures Rows(log + [c]) == RowsSnoc(Rows(log), c)
  {
    var ls := Split(log, {NEWLINE, RETURN});
    var n := |ls| - 1;
    SplitSnoc(log, c, {NEWLINE, RETURN});
    if IsNewline(c) {
      ChunkAllLast(ls, []);
      assert Rows(log + [c]) == Rows(log) + [[]];
    } else {
      ChunkAllLast(ls[..n], ls[n]);
      assert ls == ls[..n] + [ls[n]];
      ChunkAllLast(ls[..n], ls[n] + [c]);
      ChunksSnoc(ls[n], c);
      RowsSnocConcat(ChunkAll(ls[..n]), Chunks(ls[n]), c);
    }
  }

  lemma ScrollMovesUp(page: seq<byte>, row: int, col: int)
    requires |page| == PAGE && 0 <= row < ROWS && 0 <= col < COLS
    ensures At(ScrollPage(page), row, col) ==
            Cell(if row + 1 < ROWS then At(page, row + 1, col).ch else SPACE, ATTRIB)
  {
  }

  lemma LineFeedShows(s: Screen, rows: seq<seq<byte>>)
    requires Shows(s, rows)
    ensures Shows(LineFeed(s), rows + [[]])
  {
    var rows' := rows + [[]];
    var t := LineFeed(s);
    forall row, col | 0 <= row < ROWS && 0 <= col < COLS
      ensures At(t.page, row, col) == RollAt(rows', Top(rows') + row, col)
    {
      if s.y + 1 == ROWS {
        ScrollMovesUp(s.page, row, col);
        assert row + 1 < ROWS ==> At(s.page, row + 1, col) == RollAt(rows, Top(rows) + row + 1, col);
      } else {
        assert At(s.page, row, col) == RollAt(rows, Top(rows) + row, col);
      }
    }
  }

  lemma PokeShows(s: Screen, rows: seq<seq<byte>>, c: byte)
    requires Shows(s, rows) && s.x < COLS
    requires !IsNewline(c) && c != BACKSPACE
    ensures Shows(Put(s, c), RowsSnoc(rows, c))
  {
    var rows' := RowsSnoc(rows, c);
    var t := Put(s, c);
    forall row, col | 0 <= row < ROWS && 0 <= col < COLS
      ensures At(t.page, row, col) == RollAt(rows', Top(rows') + row, col)
    {
      assert At(s.page, row, col) == RollAt(rows, Top(rows) + row, col);
    }
  }

  lemma PutShows(s: Screen, rows: seq<seq<byte>>, c: byte)
    requires Shows(s, rows) && c != BACKSPACE
    ensures Shows(Put(s, c), RowsSnoc(rows, c))
  {
    if IsNewline(c) {
      LineFeedShows(s, rows);
    } else if s.x < COLS {
      PokeShows(s, rows, c);
    } else {
      LineFeedShows(s, rows);
      PokeShows(LineFeed(s), rows + [[]], c);
      assert Put(LineFeed(s), c) == Put(s, c);
      assert RowsSnoc(rows + [[]], c) == RowsSnoc(rows, c) by {
        assert (rows + [[]])[..|rows|] == rows && [] + [c] == [c];
      }
    }
  }

  // Scrolling window: on a cleared screen, any backspace-free output leaves exactly the last 25
  // rows of the whole output, blank-padded, with the cursor after the last character.
  lemma {:induction false} ScrollingWindow(page: seq<byte>, log: seq<byte>)
    requires |page| == PAGE && BACKSPACE !in log
    ensures Shows(PutAll(Screen(BlankPage(page), 0, 0), log), Rows(log))
  {
    if log == [] {
      assert ChunkAll([[]]) == Chunks([]) + ChunkAll([]);
    } else {
      var n := |log| - 1;
      ScrollingWindow(page, log[..n]);
      RowsAreSnoc(log[..n], log[n]);
      assert log[..n] + [log[n]] == log;
      PutShows(PutAll(Screen(BlankPage(page), 0, 0), log[..n]), Rows(log[..n]), log[n]);
    }
  }
}
