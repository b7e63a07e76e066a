// What a reader gets to read: line editing on each terminal, and the one command buffer that the lines
// of all three terminals queue up in.
module Input {
  import opened Bytes
  import opened CommandBuffers
  import opened Terminals

  // ---- Line editing ----

  function Edit(line: seq<byte>, c: byte): seq<byte>
  {
    if c == NEWLINE then []
    else if c == BACKSPACE then (if line == [] then line else line[..|line| - 1])
    else if |line| < MAX_LINE then line + [c]
    else line
  }

  // The line editor as a fold over keystrokes.
  function Edited(line: seq<byte>, keys: seq<byte>): seq<byte>
    decreases |keys|
  {
    if keys == [] then line else Edited(Edit(line, keys[0]), keys[1..])
  }

  // The keystrokes among a terminal's events. Ctrl-L empties the line, as Enter does.
  function Keystrokes(es: seq<OwnEvent>): seq<byte>
  {
    if es == [] then []
    else
      match es[0]
      case Typed(c) => [c] + Keystrokes(es[1..])
      case Wiped => [NEWLINE] + Keystrokes(es[1..])
      case _ => Keystrokes(es[1..])
  }

  function KeysAt(s: System, es: seq<Event>, k: nat): seq<byte>
  {
    Keystrokes(OwnEvents(s.running, s.visible, es, k))
  }

  // Line editing refines the fold on the shared machine, whatever is printed, read, cleared and switched
  // in between, on whichever terminal.
  lemma {:induction false} LineIsEdited(s: System, es: seq<Event>, k: nat)
    requires s.Valid() && AllEnabled(s, es) && k < TERMINALS
    ensures Run(s, es).terms[k].line == Edited(s.terms[k].line, KeysAt(s, es, k))
    decreases |es|
  {
    if es != [] {
      LineIsEdited(Step(s, es[0]), es[1..], k);
      StepEdits(s, es[0], k);
      KeysSplit(s, es, k);
    }
  }

  // The key an event is to terminal k's line, if any.
  function KeyOf(s: System, e: Event, k: nat): seq<byte>
  {
    if s.visible != k then []
    else match e
      case Key(c) => [c]
      case CtrlL => [NEWLINE]
      case _ => []
  }

  lemma StepEdits(s: System, e: Event, k: nat)
    requires s.Valid() && Enabled(s, e) && k < TERMINALS
    ensures Step(s, e).terms[k].line
            == if KeyOf(s, e, k) == [] then s.terms[k].line else Edit(s.terms[k].line, KeyOf(s, e, k)[0])
  {
  }

  lemma KeysSplit(s: System, es: seq<Event>, k: nat)
    requires s.Valid() && es != [] && Enabled(s, es[0])
    ensures KeysAt(s, es, k) == KeyOf(s, es[0], k) + KeysAt(Step(s, es[0]), es[1..], k)
  {
    var rest := OwnEvents(Running(s.running, es[0]), Visible(s.visible, es[0]), es[1..], k);
    var own := OwnEvents(s.running, s.visible, es, k);
    if own != rest {
      assert own[1..] == rest;
    }
  }

  lemma {:induction false} EditedHasNoNewline(line: seq<byte>, keys: seq<byte>)
    requires NEWLINE !in line
    ensures NEWLINE !in Edited(line, keys)
    decreases |keys|
  {
    if keys != [] {
      EditedHasNoNewline(Edit(line, keys[0]), keys[1..]);
    }
  }

  // ---- From Enter to the reader ----

  // Nothing is entered and nothing read.
  predicate Quiet(es: seq<Event>) { forall e :: e in es ==> e != Key(NEWLINE) && !e.ReadLine? }

  lemma {:induction false} QuietKeeps(s: System, es: seq<Event>)
    requires s.Valid() && AllEnabled(s, es) && Quiet(es)
    ensures Run(s, es).command == s.command
    ensures forall k :: 0 <= k < TERMINALS ==> Run(s, es).terms[k].ready == s.terms[k].ready
    decreases |es|
  {
    if es != [] {
      assert es[0] in es;
      QuietKeeps(Step(s, es[0]), es[1..]);
    }
  }

  // A line is typed, by any history of keystrokes among anything else, and entered when nothing else is
  // pending. Once the terminal gets to run again, its read with enough room returns exactly the edited
  // line, and leaves nothing pending.
  lemma EnteredLineIsRead(s: System, es: seq<Event>, mid: seq<Event>, n: nat)
    requires s.Valid() && AllEnabled(s, es)
    requires var s0 := Run(s, es);
             && s0.command.position == 0 && NEWLINE !in s.terms[s0.visible].line
             && |s0.terms[s0.visible].line| < n
             && AllEnabled(Step(s0, Key(NEWLINE)), mid) && Quiet(mid)
             && Run(Step(s0, Key(NEWLINE)), mid).running == s0.visible
    ensures var k := Run(s, es).visible;
            var s2 := Run(Step(Run(s, es), Key(NEWLINE)), mid);
            && Enabled(s2, ReadLine(n))
            && Taken(s2.command, n) == Edited(s.terms[k].line, KeysAt(s, es, k)) + [NEWLINE]
            && Step(s2, ReadLine(n)).command.position == 0
            && !Step(s2, ReadLine(n)).terms[k].ready
  {
    var s0 := Run(s, es);
    var k := s0.visible;
    LineIsEdited(s, es, k);
    EditedHasNoNewline(s.terms[k].line, KeysAt(s, es, k));
    ReadReturnsLine(s0.command, s0.terms[k].line, n);
    QuietKeeps(Step(s0, Key(NEWLINE)), mid);
  }

  // ---- The queue ----

  // A line, or what a short read has left of one, and the terminal it was entered on.
  datatype Pending = Pending(owner: nat, text: seq<byte>)

  function Flat(q: seq<Pending>): seq<byte>
  {
    if q == [] then [] else q[0].text + [NEWLINE] + Flat(q[1..])
  }

  ghost predicate Holds(c: Command, q: seq<Pending>)
  {
    && c.Valid() && c.position == |Flat(q)| <= CAPACITY && c.buf[..c.position] == Flat(q)
    && forall p :: p in q ==> NEWLINE !in p.text
  }

  // What a read of n takes from the front, and what it leaves.
  function Front(q: seq<Pending>, n: nat): seq<byte>
    requires q != []
  {
    if n <= |q[0].text| then q[0].text[..n] else q[0].text + [NEWLINE]
  }

  function Rest(q: seq<Pending>, n: nat): seq<Pending>
    requires q != []
  {
    if n <= |q[0].text| then [q[0].(text := q[0].text[n..])] + q[1..] else q[1..]
  }

  lemma {:induction false} FlatSnoc(q: seq<Pending>, p: Pending)
    ensures Flat(q + [p]) == Flat(q) + (p.text + [NEWLINE])
  {
    if q == [] {
      assert q + [p] == [p] && Flat([]) == [];
    } else {
      FlatSnoc(q[1..], p);
      assert (q + [p])[1..] == q[1..] + [p];
    }
  }

  // Enter queues the line up.
  lemma EnterQueues(c: Command, q: seq<Pending>, p: Pending)
    requires Holds(c, q) && NEWLINE !in p.text && c.HasRoom(|p.text| + 1)
    ensures Holds(Append(c, p.text + [NEWLINE]), q + [p])
  {
    FlatSnoc(q, p);
  }

  lemma FlatParts(q: seq<Pending>, n: nat)
    requires q != []
    ensures Flat(q) == Front(q, n) + Flat(Rest(q, n))
  {
    var p := q[0];
    if n <= |p.text| {
      assert p.text == p.text[..n] + p.text[n..];
      assert Rest(q, n)[1..] == q[1..];
    }
  }

  // A read takes the front line, or as much of it as was asked for.
  lemma FrontIsRead(c: Command, q: seq<Pending>, n: nat)
    requires Holds(c, q) && q != []
    ensures ReadLength(c.buf, n) == |Front(q, n)| && Taken(c, n) == Front(q, n)
    ensures c.buf[|Front(q, n)|..c.position] == Flat(Rest(q, n))
  {
    var i := |Front(q, n)|;
    FlatParts(q, n);
    assert c.buf[..i] == Flat(q)[..i] == Front(q, n);
    assert c.buf[i..c.position] == c.buf[..c.position][i..] == Flat(q)[i..];
    assert q[0] in q;
    if i > 0 {
      assert c.buf[..i - 1] == Front(q, n)[..i - 1];
      assert c.buf[i - 1] == Front(q, n)[i - 1];
    }
    ReadLengthIs(c.buf, n, i);
  }

  // The read moves down only as many bytes as it takes. What is behind survives if there are no more of
  // them, or the others repeat.
  predicate Survives(c: Command, n: nat)
  {
    var i := ReadLength(c.buf, n);
    var m := c.position - i;
    0 <= m && c.position <= |c.buf| && (m <= i || c.buf[i..m] == c.buf[2 * i..c.position])
  }

  // After a read the rest of the queue is still there if and only if it survives the move.
  lemma RestIsLeft(c: Command, q: seq<Pending>, n: nat)
    requires Holds(c, q) && q != [] && Readable(c, n)
    ensures Holds(Consume(c, n), Rest(q, n)) <==> Survives(c, n)
  {
    var i := ReadLength(c.buf, n);
    FrontIsRead(c, q, n);
    FlatParts(q, n);
    UnreadSurvives(c, n);
    assert Unread(c, n) == Flat(Rest(q, n));
    forall p | p in Rest(q, n) ensures NEWLINE !in p.text {
      assert q[0] in q;
      if p !in q[1..] {
        assert p == Rest(q, n)[0];
      }
    }
  }

  // ---- The queue over whole runs ----

  function ReadyCount(s: System): nat
    requires s.Valid()
  {
    (if s.terms[0].ready then 1 else 0) + (if s.terms[1].ready then 1 else 0) + (if s.terms[2].ready then 1 else 0)
  }

  // The command buffer holds the queue, and there is a line for every terminal that thinks it has one.
  ghost predicate Tracks(s: System, q: seq<Pending>)
  {
    && s.Valid() && Holds(s.command, q) && ReadyCount(s) <= |q|
    && forall k :: 0 <= k < TERMINALS ==> NEWLINE !in s.terms[k].line
  }

  function After(s: System, q: seq<Pending>, e: Event): seq<Pending>
    requires s.Valid()
  {
    match e
    case Key(c) => if c == NEWLINE then q + [Pending(s.visible, s.terms[s.visible].line)] else q
    case ReadLine(n) => if q == [] then q else Rest(q, n)
    case _ => q
  }

  // A read finds a line, takes its front, and leaves the rest of the queue if and only if that survives.
  lemma ReadTakesFront(s: System, q: seq<Pending>, n: nat)
    requires Tracks(s, q) && Enabled(s, ReadLine(n))
    ensures q != [] && Taken(s.command, n) == Front(q, n)
    ensures Tracks(Step(s, ReadLine(n)), Rest(q, n)) <==> Survives(s.command, n)
  {
    FrontIsRead(s.command, q, n);
    RestIsLeft(s.command, q, n);
  }

  lemma StepTracks(s: System, q: seq<Pending>, e: Event)
    requires Tracks(s, q) && Enabled(s, e)
    requires e.ReadLine? ==> Survives(s.command, e.n)
    ensures Tracks(Step(s, e), After(s, q, e))
  {
    match e
    case Key(c) =>
      if c == NEWLINE {
        EnterQueues(s.command, q, Pending(s.visible, s.terms[s.visible].line));
      }
    case ReadLine(n) => ReadTakesFront(s, q, n);
    case _ =>
  }

  // Every read of the run spares what is behind it.
  ghost predicate Sparing(s: System, es: seq<Event>)
    requires s.Valid() && AllEnabled(s, es)
    decreases |es|
  {
    es != [] ==> (es[0].ReadLine? ==> Survives(s.command, es[0].n)) && Sparing(Step(s, es[0]), es[1..])
  }

  ghost function Queue(s: System, q: seq<Pending>, es: seq<Event>): seq<Pending>
    requires s.Valid() && AllEnabled(s, es)
    decreases |es|
  {
    if es == [] then q else Queue(Step(s, es[0]), After(s, q, es[0]), es[1..])
  }

  ghost predicate ReadsInOrder(s: System, q: seq<Pending>, es: seq<Event>)
    requires s.Valid() && AllEnabled(s, es)
    decreases |es|
  {
    es != [] ==>
      && (es[0].ReadLine? ==> q != [] && Taken(s.command, es[0].n) == Front(q, es[0].n))
      && ReadsInOrder(Step(s, es[0]), After(s, q, es[0]), es[1..])
  }

  // The lines of all terminals are read in the order they were entered in, whoever reads.
  lemma {:induction false} LinesAreAQueue(s: System, q: seq<Pending>, es: seq<Event>)
    requires Tracks(s, q) && AllEnabled(s, es) && Sparing(s, es)
    ensures ReadsInOrder(s, q, es)
    ensures Tracks(Run(s, es), Queue(s, q, es))
    decreases |es|
  {
    if es != [] {
      StepTracks(s, q, es[0]);
      if es[0].ReadLine? {
        ReadTakesFront(s, q, es[0].n);
      }
      LinesAreAQueue(Step(s, es[0]), After(s, q, es[0]), es[1..]);
    }
  }

  // ---- Who gets whose line ----

  // The first pending line that was entered on terminal k.
  function OwnLine(q: seq<Pending>, k: nat): Option<seq<byte>>
  {
    if q == [] then None else if q[0].owner == k then Some(q[0].text) else OwnLine(q[1..], k)
  }

  // A read returns the reader's own line.
  predicate OwnRead(s: System, q: seq<Pending>, n: nat)
    requires s.Valid()
  {
    OwnLine(q, s.running).Some? && Taken(s.command, n) == OwnLine(q, s.running).value + [NEWLINE]
  }

  // The front of the queue was entered on the reading terminal, or reads the same.
  predicate OwnFront(s: System, q: seq<Pending>)
  {
    q != [] && OwnLine(q, s.running) == Some(q[0].text)
  }

  // With room, a read returns the reader's own line if and only if that is at the front.
  lemma OwnReadIsOwnFront(s: System, q: seq<Pending>, n: nat)
    requires Tracks(s, q) && Enabled(s, ReadLine(n)) && (q != [] ==> |q[0].text| < n)
    ensures OwnRead(s, q, n) <==> OwnFront(s, q)
    ensures q != [] && q[0].owner == s.running ==> OwnFront(s, q)
  {
    ReadTakesFront(s, q, n);
    if OwnRead(s, q, n) {
      var own := OwnLine(q, s.running).value;
      assert own == (own + [NEWLINE])[..|own|] == (q[0].text + [NEWLINE])[..|own|] == q[0].text;
    }
  }

  ghost predicate AllOwnReads(s: System, q: seq<Pending>, es: seq<Event>)
    requires s.Valid() && AllEnabled(s, es)
    decreases |es|
  {
    es != [] ==>
      && (es[0].ReadLine? ==> OwnRead(s, q, es[0].n))
      && AllOwnReads(Step(s, es[0]), After(s, q, es[0]), es[1..])
  }

  ghost predicate AllOwnFronts(s: System, q: seq<Pending>, es: seq<Event>)
    requires s.Valid() && AllEnabled(s, es)
    decreases |es|
  {
    es != [] ==>
      && (es[0].ReadLine? ==> OwnFront(s, q))
      && AllOwnFronts(Step(s, es[0]), After(s, q, es[0]), es[1..])
  }

  // Every read has room for the line at the front.
  ghost predicate Roomy(s: System, q: seq<Pending>, es: seq<Event>)
    requires s.Valid() && AllEnabled(s, es)
    decreases |es|
  {
    es != [] ==>
      && (es[0].ReadLine? && q != [] ==> |q[0].text| < es[0].n)
      && Roomy(Step(s, es[0]), After(s, q, es[0]), es[1..])
  }

  // Input isolation, exactly: in a run every terminal reads its own lines if and only if, at every read,
  // the line at the front of the queue was entered on the terminal that reads, or reads the same as its own.
  lemma {:induction false} InputIsIsolated(s: System, q: seq<Pending>, es: seq<Event>)
    requires Tracks(s, q) && AllEnabled(s, es) && Sparing(s, es) && Roomy(s, q, es)
    ensures AllOwnReads(s, q, es) <==> AllOwnFronts(s, q, es)
    decreases |es|
  {
    if es != [] {
      StepTracks(s, q, es[0]);
      if es[0].ReadLine? {
        OwnReadIsOwnFront(s, q, es[0].n);
      }
      InputIsIsolated(Step(s, es[0]), After(s, q, es[0]), es[1..]);
    }
  }

  // ---- One line at a time ----

  // Every Enter finds the command buffer empty, and every read has room for all that is in it.
  ghost predicate Prompt(s: System, es: seq<Event>)
    requires s.Valid() && AllEnabled(s, es)
    decreases |es|
  {
    es != [] ==>
      && (es[0] == Key(NEWLINE) ==> s.command.position == 0)
      && (es[0].ReadLine? ==> s.command.position <= es[0].n)
      && Prompt(Step(s, es[0]), es[1..])
  }

  // `last` is the line last entered on each terminal.
  function Noted(s: System, last: map<nat, seq<byte>>, e: Event): map<nat, seq<byte>>
    requires s.Valid()
  {
    if e == Key(NEWLINE) then last[s.visible := s.terms[s.visible].line] else last
  }

  ghost predicate ReadsLast(s: System, last: map<nat, seq<byte>>, es: seq<Event>)
    requires s.Valid() && AllEnabled(s, es)
    decreases |es|
  {
    es != [] ==>
      && (es[0].ReadLine? ==>
            s.running in last && Taken(s.command, es[0].n) == last[s.running] + [NEWLINE])
      && ReadsLast(Step(s, es[0]), Noted(s, last, es[0]), es[1..])
  }

  // Only the owner of the one pending line thinks it has one.
  ghost predicate AtMostOne(s: System, q: seq<Pending>, last: map<nat, seq<byte>>)
  {
    && Tracks(s, q) && |q| <= 1
    && (forall k :: 0 <= k < TERMINALS && s.terms[k].ready ==> q != [] && q[0].owner == k)
    && (q != [] ==> q[0].owner in last && last[q[0].owner] == q[0].text)
  }

  lemma PromptStep(s: System, q: seq<Pending>, last: map<nat, seq<byte>>, e: Event)
    requires AtMostOne(s, q, last) && Enabled(s, e)
    requires e == Key(NEWLINE) ==> s.command.position == 0
    requires e.ReadLine? ==> s.command.position <= e.n
    ensures AtMostOne(Step(s, e), After(s, q, e), Noted(s, last, e))
    ensures e.ReadLine? ==> s.running in last && Taken(s.command, e.n) == last[s.running] + [NEWLINE]
  {
    if e.ReadLine? {
      assert q[0] == q[|q| - 1] && q[1..] == [];
      assert Flat(q) == q[0].text + [NEWLINE];
      FrontIsRead(s.command, q, e.n);
      ReadTakesFront(s, q, e.n);
    } else if e == Key(NEWLINE) {
      assert q == [];
    }
    StepTracks(s, q, e);
  }

  // If nobody presses Enter before the last line has been read, every read on every terminal returns the
  // line last entered on that terminal.
  lemma {:induction false} PromptReadsAreOwn(s: System, q: seq<Pending>, last: map<nat, seq<byte>>, es: seq<Event>)
    requires AtMostOne(s, q, last) && AllEnabled(s, es) && Prompt(s, es)
    ensures ReadsLast(s, last, es)
    decreases |es|
  {
    if es != [] {
      PromptStep(s, q, last, es[0]);
      PromptReadsAreOwn(Step(s, es[0]), After(s, q, es[0]), Noted(s, last, es[0]), es[1..]);
    }
  }

  // In particular from the start, when nothing is pending.
  lemma PromptFromStart(s: System, es: seq<Event>)
    requires s.Valid() && s.command.position == 0 && AllEnabled(s, es) && Prompt(s, es)
    requires forall k :: 0 <= k < TERMINALS ==> !s.terms[k].ready && s.terms[k].line == []
    ensures ReadsLast(s, map[], es)
  {
    PromptReadsAreOwn(s, [], map[], es);
  }

  // ---- Lines that cross ----

  // Enter on the visible terminal, then on the running one: the running one reads the other's line.
  lemma LinesCrossTerminals(s: System, n: nat)
    requires Tracks(s, []) && s.running != s.visible && s.terms[s.running].line != s.terms[s.visible].line
    requires |s.terms[s.visible].line| < n
    ensures var es := [Key(NEWLINE), Switch(s.running), Key(NEWLINE)];
            && AllEnabled(s, es)
            && Enabled(Run(s, es), ReadLine(n))
            && Taken(Run(s, es).command, n) == s.terms[s.visible].line + [NEWLINE]
            && !OwnRead(Run(s, es), Queue(s, [], es), n)
  {
    var a, b, c := Key(NEWLINE), Switch(s.running), Key(NEWLINE);
    var q := EnterBoth(s);
    ThreeSteps(s, [], a, b, c);
    var s3 := Run(s, [a, b, c]);
    FrontIsRead(s3.command, q, n);
    OwnReadIsOwnFront(s3, q, n);
    assert OwnLine(q, s.running) == OwnLine(q[1..], s.running) == Some(s.terms[s.running].line);
  }

  lemma EnterBoth(s: System) returns (q: seq<Pending>)
    requires Tracks(s, []) && s.running != s.visible
    ensures Enabled(s, Key(NEWLINE))
    ensures var s2 := Step(Step(s, Key(NEWLINE)), Switch(s.running));
            && Enabled(s2, Key(NEWLINE)) && Tracks(Step(s2, Key(NEWLINE)), q)
            && Step(s2, Key(NEWLINE)).terms[s.running].ready
            && q == After(s2, After(s, [], Key(NEWLINE)), Key(NEWLINE))
            && q == [Pending(s.visible, s.terms[s.visible].line), Pending(s.running, s.terms[s.running].line)]
  {
    var s1 := Step(s, Key(NEWLINE));
    var s2 := Step(s1, Switch(s.running));
    var q1 := After(s, [], Key(NEWLINE));
    assert q1 == [Pending(s.visible, s.terms[s.visible].line)];
    StepTracks(s, [], Key(NEWLINE));
    StepTracks(s1, q1, Switch(s.running));
    assert Flat(q1) == s.terms[s.visible].line + [NEWLINE] + Flat([]);
    StepTracks(s2, q1, Key(NEWLINE));
    q := After(s2, q1, Key(NEWLINE));
  }

  lemma ThreeSteps(s: System, q: seq<Pending>, a: Event, b: Event, c: Event)
    requires s.Valid() && Enabled(s, a) && Enabled(Step(s, a), b) && Enabled(Step(Step(s, a), b), c)
    ensures AllEnabled(s, [a, b, c])
    ensures var s1 := Step(s, a);
            var s2 := Step(s1, b);
            && Run(s, [a, b, c]) == Step(s2, c)
            && Queue(s, q, [a, b, c]) == After(s2, After(s1, After(s, q, a), b), c)
  {
    var s1 := Step(s, a);
    var s2 := Step(s1, b);
    assert [a, b, c][1..] == [b, c] && [b, c][1..] == [c] && [c][1..] == [];
    var s3, q3 := Step(s2, c), After(s2, After(s1, After(s, q, a), b), c);
    assert AllEnabled(s3, []) && Run(s3, []) == s3 && Queue(s3, q3, []) == q3;
    assert AllEnabled(s2, [c]) && Run(s2, [c]) == s3;
    assert AllEnabled(s1, [b, c]) && Run(s1, [b, c]) == s3;
    assert Queue(s2, After(s1, After(s, q, a), b), [c]) == q3;
    assert Queue(s1, After(s, q, a), [b, c]) == q3;
  }
}
