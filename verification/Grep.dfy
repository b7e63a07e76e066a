// grep: searching a file through a 1 KB sliding buffer that carries partial lines over.
module Grep {
  import opened Bytes
  import opened Lines
  import opened CStrings
  import opened Buffers
  import opened FileSystem
  import opened GrepReads

  const COLON: byte := 58

  // ---- What grep is for ----

  ghost predicate Contains(line: seq<byte>, pattern: seq<byte>) {
    exists i :: 0 <= i && OccursAt(line, pattern, i)
  }

  // A line contains a pattern when it is something, the pattern and something.
  lemma ContainsIs(line: seq<byte>, pattern: seq<byte>)
    ensures Contains(line, pattern) <==> exists a: seq<byte>, b: seq<byte> :: line == a + pattern + b
  {
    if Contains(line, pattern) {
      var i :| 0 <= i && OccursAt(line, pattern, i);
      assert line == line[..i] + pattern + line[i + |pattern|..];
    }
    if a: seq<byte>, b: seq<byte> :| line == a + pattern + b {
      assert line[|a|..|a| + |pattern|] == pattern;
      assert OccursAt(line, pattern, |a|);
    }
  }

  predicate OccursAt(line: seq<byte>, pattern: seq<byte>, i: int) {
    0 <= i <= |line| - |pattern| && line[i..i + |pattern|] == pattern
  }

  function Entry(fname: seq<byte>, line: seq<byte>): seq<byte> { fname + [COLON] + line + [NEWLINE] }

  // The matching lines, once each and in order.
  ghost function Report(lines: seq<seq<byte>>, pattern: seq<byte>, fname: seq<byte>): seq<byte> {
    if lines == [] then []
    else (if Contains(lines[0], pattern) then Entry(fname, lines[0]) else []) + Report(lines[1..], pattern, fname)
  }

  ghost function Matches(text: seq<byte>, pattern: seq<byte>, fname: seq<byte>): seq<byte> {
    Report(Split(text, {NEWLINE}), pattern, fname)
  }

  ghost predicate LinesFit(text: seq<byte>) {
    forall l :: l in Split(text, {NEWLINE}) ==> |l| < BUFSIZE
  }

  // ---- The file being read ----

  // An open file, as the kernel keeps it in a descriptor.
  class OpenFile {
    const img: Image
    const inode: nat
    var offset: nat

    ghost predicate Valid()
      reads this
    {
      ImageOk(img) && inode < |img.inodes| && offset <= img.inodes[inode].length
    }

    ghost function File(): Inode
      requires ImageOk(img) && inode < |img.inodes|
    {
      img.inodes[inode]
    }

    constructor (img: Image, inode: nat)
      requires ImageOk(img) && inode < |img.inodes|
      ensures Valid() && this.img == img && this.inode == inode && offset == 0
    {
      this.img, this.inode, offset := img, inode, 0;
    }

    // What is still to come for a buffer that holds `carried`.
    ghost function Coming(r: Reader, carried: seq<byte>): seq<byte>
      requires Valid() && |carried| < BUFSIZE
      reads this
    {
      Stream(r, File().length, offset, carried)
    }

    method Read(data: array<byte>, at: nat, n: nat, ghost r: Reader) returns (cnt: nat)
      requires Valid() && at + n <= data.Length && n <= BUFSIZE && Serves(r, File(), img.data)
      modifies data, `offset
      ensures Valid()
      ensures cnt == if old(offset) == File().length then 0 else Available(File(), old(offset), n)
      ensures offset == old(offset) + cnt
      ensures if old(offset) == File().length then data[..] == old(data[..])
              else data[..] == Filled(old(data[..]), at, r.Got(old(offset), cnt))
    {
      cnt := ReadData(img, inode, offset, data, at, n);
      assert Request(offset, cnt);
      offset := offset + cnt;
    }
  }

  // ---- The lemmas that let a line leave the front of the text ----

  lemma FirstLineLeaves(line: seq<byte>, rest: seq<byte>, pattern: seq<byte>, fname: seq<byte>)
    requires NEWLINE !in line
    ensures Matches(line + [NEWLINE] + rest, pattern, fname)
            == (if Contains(line, pattern) then Entry(fname, line) else []) + Matches(rest, pattern, fname)
    ensures LinesFit(line + [NEWLINE] + rest) ==> LinesFit(rest)
  {
    SplitFirst(line, NEWLINE, rest);
    var all := Split(line + [NEWLINE] + rest, {NEWLINE});
    assert all[1..] == Split(rest, {NEWLINE});
    if LinesFit(line + [NEWLINE] + rest) {
      forall l | l in Split(rest, {NEWLINE}) ensures |l| < BUFSIZE {
        assert l in all;
      }
    }
  }

  lemma LastLine(line: seq<byte>, pattern: seq<byte>, fname: seq<byte>)
    requires NEWLINE !in line
    ensures Matches(line, pattern, fname) == if Contains(line, pattern) then Entry(fname, line) else []
  {
    SplitSingle(line, NEWLINE);
    assert Report([line][1..], pattern, fname) == [];
  }

  // A text that starts with a full buffer and no newline has a line that does not fit.
  lemma {:induction false} LongLine(head: seq<byte>, rest: seq<byte>)
    requires NEWLINE !in head
    ensures |head| <= |Split(head + rest, {NEWLINE})[0]|
  {
    if head != [] {
      LongLine(head[1..], rest);
      assert (head + rest)[1..] == head[1..] + rest;
    }
  }

  // What is left of a text once its first n bytes, a line, have been dealt with.
  function AfterLine(text: seq<byte>, n: nat): seq<byte>
    requires n <= |text|
  {
    if n < |text| then text[n + 1..] else []
  }

  // `text` has been read, `rest` has not. Its first line may only be taken as complete if it ends in
  // a newline or nothing follows.
  lemma LineLeaves(text: seq<byte>, n: nat, rest: seq<byte>, pattern: seq<byte>, fname: seq<byte>)
    requires n <= |text| && NEWLINE !in text[..n]
    requires if n < |text| then text[n] == NEWLINE else rest == []
    requires pattern != []
    ensures Matches(text + rest, pattern, fname)
            == (if Contains(text[..n], pattern) then Entry(fname, text[..n]) else [])
               + Matches(AfterLine(text, n) + rest, pattern, fname)
    ensures LinesFit(text + rest) ==> LinesFit(AfterLine(text, n) + rest)
  {
    if n < |text| {
      assert text + rest == text[..n] + [NEWLINE] + (AfterLine(text, n) + rest);
      FirstLineLeaves(text[..n], AfterLine(text, n) + rest, pattern, fname);
    } else {
      assert text + rest == text[..n];
      LastLine(text[..n], pattern, fname);
      LastLine([], pattern, fname);
      assert AfterLine(text, n) + rest == [];
    }
  }

  // A full buffer that is one long line is impossible when the lines fit.
  lemma FullBufferHasNewline(text: seq<byte>, rest: seq<byte>)
    requires LinesFit(text + rest) && |text| == BUFSIZE
    ensures NEWLINE in text
  {
    if NEWLINE !in text {
      LongLine(text, rest);
    }
  }

  // ---- ece391grep.c ----

  // Does the pattern occur at data[check..]? The line ends at a NUL.
  lemma OccursInText(text: seq<byte>, pattern: seq<byte>, i: nat)
    requires i <= |text| && NUL !in text && NUL !in pattern
    ensures OccursAt(text, pattern, i) <==> Cut(text[i..], |pattern|) == Cut(pattern, |pattern|)
  {
    if i <= |text| - |pattern| {
      assert text[i..][..|pattern|] == text[i..i + |pattern|];
    }
  }

  lemma OccursFirst(text: seq<byte>, pattern: seq<byte>, i: nat)
    requires pattern != []
    ensures OccursAt(text, pattern, i) ==> text[i] == pattern[0]
  {
    if OccursAt(text, pattern, i) {
      assert text[i] == text[i..i + |pattern|][0];
    }
  }

  // The texts the comparison sees when it looks for the pattern at data[check..].
  lemma TextsCompared(data: array<byte>, start: nat, check: nat, end: nat, pattern: seq<byte>)
    requires start <= check < end < data.Length && data[end] == NUL && NUL !in data[start..end]
    requires NUL !in pattern
    ensures NUL in data[check..] && Text(data[check..]) == data[start..end][check - start..]
    ensures NUL in pattern + [NUL] && Text(pattern + [NUL]) == pattern
  {
    var line, tail, s := data[start..end], data[check..], pattern + [NUL];
    assert s[|pattern|] == NUL && s[..|pattern|] == pattern;
    TextIs(s, |pattern|);
    assert tail[end - check] == NUL && tail[..end - check] == line[check - start..];
    TextIs(tail, end - check);
  }

  // What the two comparisons of one round of the match loop find out.
  lemma MatchSeen(data: array<byte>, start: nat, check: nat, end: nat, pattern: seq<byte>)
    requires start <= check < end < data.Length && data[end] == NUL && NUL !in data[start..end]
    requires pattern != [] && NUL !in pattern
    ensures NUL in data[check..] && NUL in pattern + [NUL]
    ensures OccursAt(data[start..end], pattern, check - start)
       <==> Cut(Text(data[check..]), |pattern|) == Cut(Text(pattern + [NUL]), |pattern|)
    ensures OccursAt(data[start..end], pattern, check - start) ==> data[check] == pattern[0]
  {
    ghost var line, i := data[start..end], check - start;
    assert OccursAt(line, pattern, i) <==> Cut(line[i..], |pattern|) == Cut(pattern, |pattern|) by {
      OccursInText(line, pattern, i);
    }
    assert OccursAt(line, pattern, i) ==> data[check] == pattern[0] by {
      OccursFirst(line, pattern, i);
    }
    TextsCompared(data, start, check, end, pattern);
  }

  // One round of the match loop: the first character is compared before the rest.
  method MatchesAt(data: array<byte>, start: nat, check: nat, end: nat, pattern: seq<byte>) returns (b: bool)
    requires start <= check < end < data.Length && data[end] == NUL && NUL !in data[start..end]
    requires pattern != [] && NUL !in pattern
    ensures b <==> OccursAt(data[start..end], pattern, check - start)
  {
    MatchSeen(data, start, check, end, pattern);
    if pattern[0] != data[check] {
      return false;
    }
    var cmp := UserStrncmp(data, check, pattern + [NUL], |pattern|);
    b := cmp == 0;
  }

  // Searches the line data[start..end], which ends in a NUL, and prints it if the pattern occurs.
  method SearchLine(data: array<byte>, start: nat, end: nat, pattern: seq<byte>, fname: seq<byte>)
    returns (printed: seq<byte>)
    requires start <= end < data.Length && data[end] == NUL && NUL !in data[start..end]
    requires pattern != [] && NUL !in pattern
    ensures printed == if Contains(data[start..end], pattern) then fname + [58] + data[start..end] + [10] else []
  {
    ghost var line := data[start..end];
    var check := start;
    while check < end
      invariant start <= check <= end
      invariant forall i :: 0 <= i < check - start ==> !OccursAt(line, pattern, i)
    {
      var b := MatchesAt(data, start, check, end, pattern);
      if b {
        assert data[start..][..end - start] == line;
        TextIs(data[start..], end - start);
        var len := Strlen(data, start);
        return fname + [COLON] + data[start..start + len] + [NEWLINE];
      }
      check := check + 1;
    }
    return [];
  }

  method TerminateAndSearch(data: array<byte>, start: nat, end: nat, pattern: seq<byte>, fname: seq<byte>)
    returns (printed: seq<byte>)
    requires start <= end < data.Length && NUL !in data[start..end]
    requires pattern != [] && NUL !in pattern
    modifies data
    ensures data[..] == old(data[..])[end := NUL]
    ensures printed == if Contains(old(data[start..end]), pattern) then Entry(fname, old(data[start..end])) else []
  {
    data[end] := NUL;
    assert data[start..end] == old(data[start..end]);
    printed := SearchLine(data, start, end, pattern, fname);
  }

  // First newline at or after `start`, or `last`.
  method EndOfLine(data: array<byte>, start: nat, last: nat) returns (end: nat)
    requires start <= last < data.Length
    ensures start <= end <= last && NEWLINE !in data[start..end]
    ensures end < last ==> data[end] == NEWLINE
  {
    end := start;
    while end < last && data[end] != NEWLINE
      invariant start <= end <= last && NEWLINE !in data[start..end]
    {
      end := end + 1;
    }
  }

  // The partial line data[start..end] moves to the front.
  method CarryOver(data: array<byte>, start: nat, end: nat)
    requires 0 < start <= end < data.Length && NUL !in data[start..end]
    modifies data
    ensures data[..end - start] == old(data[start..end])
    ensures forall i :: end < i < data.Length ==> data[i] == old(data[i])
    ensures data[end] == NUL
  {
    ghost var line := data[start..end];
    data[end] := NUL;
    ghost var before := data[..];
    assert NUL in data[start..] && Text(data[start..]) == line by {
      assert data[start..][..end - start] == line && data[start..][end - start] == NUL;
      TextIs(data[start..], end - start);
    }
    Strcpy(data, 0, start);
    CopiedToFront(before, line);
    assert data[end] == (if end == |line| then NUL else before[end]);
  }

  lemma CopiedToFront(before: seq<byte>, t: seq<byte>)
    requires |t| < |before|
    ensures var s := Copied(before, 0, t);
            s[..|t|] == t && s[|t|] == NUL && forall i :: |t| < i < |s| ==> s[i] == before[i]
  {
  }

  // How far the search of a text has come: what has been printed plus what is still to be printed
  // for `text` and the unread `rest` is the goal.
  ghost predicate Progress(text: seq<byte>, rest: seq<byte>, pattern: seq<byte>, fname: seq<byte>,
                           printed: seq<byte>, goal: seq<byte>)
  {
    && NUL !in text
    && forall i {:trigger Inspected(i)} :: Inspected(i) ==>
         LinesFit(text + rest) && printed + Matches(text + rest, pattern, fname) == goal
  }

  // The loops pass on what is owed as a whole; it is looked into only where this is asserted.
  predicate Inspected(i: int) { true }

  lemma ProgressByLine(text: seq<byte>, n: nat, rest: seq<byte>, pattern: seq<byte>, fname: seq<byte>,
                       printed: seq<byte>, goal: seq<byte>)
    requires Progress(text, rest, pattern, fname, printed, goal) && pattern != []
    requires n <= |text| && NEWLINE !in text[..n]
    requires if n < |text| then text[n] == NEWLINE else rest == [] || |text| == BUFSIZE
    ensures var found := if Contains(text[..n], pattern) then Entry(fname, text[..n]) else [];
            Progress(AfterLine(text, n), rest, pattern, fname, printed + found, goal)
  {
    assert Inspected(0);
    if n == |text| && rest != [] {
      assert text[..n] == text;
      FullBufferHasNewline(text, rest);
      assert false;
    }
    LineLeaves(text, n, rest, pattern, fname);
    var found := if Contains(text[..n], pattern) then Entry(fname, text[..n]) else [];
    assert printed + (found + Matches(AfterLine(text, n) + rest, pattern, fname))
        == printed + found + Matches(AfterLine(text, n) + rest, pattern, fname);
  }

  // The lines of one filled buffer, as far as they are complete; `rest` is what the file has left.
  // A partial last line is moved to the front for the next round.
  method SearchBuffer(data: array<byte>, cnt: nat, filled: nat, pattern: seq<byte>, fname: seq<byte>,
                      ghost rest: seq<byte>, ghost goal: seq<byte>)
    returns (last: nat, printed: seq<byte>)
    requires pattern != [] && NUL !in pattern
    requires data.Length == BUFSIZE + 1 && data[BUFSIZE] != NEWLINE && filled <= BUFSIZE
    requires NUL !in data[..filled] && LinesFit(data[..filled] + rest)
    requires goal == Matches(data[..filled] + rest, pattern, fname)
    requires cnt == 0 || filled < BUFSIZE ==> rest == []
    modifies data
    ensures last < BUFSIZE && data[BUFSIZE] != NEWLINE
    ensures cnt == 0 ==> last == 0
    ensures cnt != 0 && filled == BUFSIZE ==> data[..last] == Carry(old(data[..filled]))
    ensures Progress(data[..last], rest, pattern, fname, printed, goal)
  {
    ghost var start, whole := 0, data[..filled];
    assert [] + goal == goal;
    ghost var text;
    last, printed, start, text := SearchLines(data, cnt, filled, pattern, fname, whole, rest, goal);
    if cnt != 0 && filled == BUFSIZE {
      CarriedText(whole, start, whole[start..]);
    }
  }

  // The buffer holds `whole`, and its last line begins at `start`; `text` is what is carried over.
  method SearchLines(data: array<byte>, cnt: nat, filled: nat, pattern: seq<byte>, fname: seq<byte>,
                     ghost whole: seq<byte>, ghost rest: seq<byte>, ghost goal: seq<byte>)
    returns (last: nat, printed: seq<byte>, ghost start: nat, ghost text: seq<byte>)
    requires pattern != [] && NUL !in pattern
    requires data.Length == BUFSIZE + 1 && data[BUFSIZE] != NEWLINE && filled <= BUFSIZE && whole == data[..filled]
    requires Progress(whole, rest, pattern, fname, [], goal)
    requires cnt == 0 || filled < BUFSIZE ==> rest == []
    modifies data
    ensures last < BUFSIZE && data[BUFSIZE] != NEWLINE
    ensures cnt == 0 ==> last == 0
    ensures cnt != 0 && filled == BUFSIZE ==> IsTail(whole, start, text)
    ensures text == data[..last] && Progress(text, rest, pattern, fname, printed, goal)
  {
    printed := [];
    last := filled;
    start := 0;
    var lineStart := 0;
    text := whole;
    while true
      invariant lineStart <= last == filled && text == data[lineStart..last]
      invariant data[BUFSIZE] != NEWLINE
      invariant Progress(text, rest, pattern, fname, printed, goal)
      invariant InWhole(whole, lineStart, text)
      decreases last - lineStart
    {
      var carried, lineEnd, found; ghost var left;
      carried, lineEnd, found, left, start :=
        NextLine(data, cnt, last, lineStart, pattern, fname, rest, goal, printed, whole, text);
      if carried {
        last := last - lineStart;
        break;
      }
      printed := printed + found;
      text := left;
      lineStart := lineEnd + 1;
      if lineStart >= last {
        last := 0;
        assert text == [];
        break;
      }
    }
  }

  // The line that begins at lineStart is carried over, or searched.
  method NextLine(data: array<byte>, cnt: nat, last: nat, lineStart: nat, pattern: seq<byte>, fname: seq<byte>,
                  ghost rest: seq<byte>, ghost goal: seq<byte>, ghost printed: seq<byte>,
                  ghost whole: seq<byte>, ghost text: seq<byte>)
    returns (carried: bool, lineEnd: nat, found: seq<byte>, ghost left: seq<byte>, ghost start: nat)
    requires pattern != [] && NUL !in pattern
    requires data.Length == BUFSIZE + 1 && data[BUFSIZE] != NEWLINE
    requires lineStart <= last <= BUFSIZE && text == data[lineStart..last]
    requires cnt == 0 || |whole| < BUFSIZE ==> rest == []
    requires Progress(text, rest, pattern, fname, printed, goal) && InWhole(whole, lineStart, text)
    modifies data
    ensures data[BUFSIZE] != NEWLINE && lineStart <= lineEnd <= last
    ensures carried ==> cnt != 0 && lineStart > 0 && data[..last - lineStart] == text && IsTail(whole, start, text)
    ensures !carried ==>
              && Progress(left, rest, pattern, fname, printed + found, goal)
              && left == if lineEnd < last then data[lineEnd + 1..last] else []
    ensures !carried && lineEnd < last ==> InWhole(whole, lineEnd + 1, left)
    ensures !carried && last <= lineEnd + 1 && cnt != 0 && last == BUFSIZE ==> IsTail(whole, start, [])
  {
    lineEnd := EndOfLine(data, lineStart, last);
    ghost var n := lineEnd - lineStart;
    SliceFront(data[..], lineStart, last, n);
    assert n < |text| ==> text[n] == data[lineEnd];
    start := LastStart(whole, lineStart, text, n, text[..n]);
    carried := data[lineEnd] != NEWLINE && cnt != 0 && lineStart != 0;
    if carried {
      CarryOver(data, lineStart, lineEnd);
      found, left := [], text;
    } else {
      found, left := FinishLine(data, lineStart, lineEnd, last, text, pattern, fname, rest, printed, goal);
    }
  }

  lemma SliceFront(s: seq<byte>, from: nat, to: nat, n: nat)
    requires from + n <= to <= |s|
    ensures s[from..to][..n] == s[from..from + n]
  {
  }

  // The buffer's last line begins at `start`, and `left` is what is carried over of it.
  ghost predicate IsTail(whole: seq<byte>, start: nat, left: seq<byte>)
  {
    && start <= |whole| && InWhole(whole, start, whole[start..]) && NEWLINE !in whole[start..]
    && left == if start == 0 then [] else whole[start..]
  }

  // `text` is what is left of a buffer that held `whole`, from the start of a line on.
  ghost predicate InWhole(whole: seq<byte>, start: nat, text: seq<byte>)
  {
    start <= |whole| && text == whole[start..] && (start > 0 ==> whole[start - 1] == NEWLINE)
  }

  lemma CarriedText(whole: seq<byte>, start: nat, text: seq<byte>)
    requires InWhole(whole, start, text) && NEWLINE !in text
    ensures Carry(whole) == if start == 0 then [] else text
  {
    CarryIs(whole, start);
  }

  // Where the line behind this one begins, or this one if it is the last.
  lemma LastStart(whole: seq<byte>, start: nat, text: seq<byte>, n: nat, line: seq<byte>) returns (next: nat)
    requires InWhole(whole, start, text) && n <= |text| && text[..n] == line && NEWLINE !in line
    requires n < |text| ==> text[n] == NEWLINE
    ensures n < |text| ==> next == start + n + 1 && InWhole(whole, next, AfterLine(text, n))
    ensures n == |text| ==> next == start && NEWLINE !in text
  {
    next := if n < |text| then start + n + 1 else start;
    if n == |text| {
      assert text[..n] == text;
    }
  }

  // The line data[start..end] is complete.
  method FinishLine(data: array<byte>, start: nat, end: nat, last: nat, ghost text: seq<byte>, pattern: seq<byte>,
                    fname: seq<byte>, ghost rest: seq<byte>, ghost printed: seq<byte>, ghost goal: seq<byte>)
    returns (found: seq<byte>, ghost left: seq<byte>)
    requires pattern != [] && NUL !in pattern
    requires start <= end <= last <= BUFSIZE < data.Length && NEWLINE !in data[start..end]
    requires if end < last then data[end] == NEWLINE else rest == [] || last - start == BUFSIZE
    requires text == data[start..last] && Progress(text, rest, pattern, fname, printed, goal)
    modifies data
    ensures forall i :: end < i < data.Length ==> data[i] == old(data[i])
    ensures data[end] == NUL
    ensures left == AfterLine(text, end - start) == if end < last then data[end + 1..last] else []
    ensures Progress(left, rest, pattern, fname, printed + found, goal)
  {
    ghost var n := end - start;
    assert data[start..end] == text[..n];
    ProgressByLine(text, n, rest, pattern, fname, printed, goal);
    left := AfterLine(text, n);
    label searched:
    found := TerminateAndSearch(data, start, end, pattern, fname);
    assert forall i :: end < i < data.Length ==> data[i] == old@searched(data[..])[i];
    assert end < last ==> data[end + 1..last] == left;
  }

  // One more read goes behind what the buffer holds; `rest` is what is then still to come.
  method FillBuffer(file: OpenFile, data: array<byte>, last: nat, ghost r: Reader) returns (cnt: nat, ghost rest: seq<byte>)
    requires file.Valid() && Serves(r, file.File(), file.img.data)
    requires data.Length == BUFSIZE + 1 && last < BUFSIZE
    modifies data, file`offset
    ensures file.Valid() && last + cnt <= BUFSIZE && data[BUFSIZE] == old(data[BUFSIZE])
    ensures file.offset == old(file.offset) + cnt && (cnt == 0 <==> old(file.offset) == file.File().length)
    ensures cnt == 0 || last + cnt < BUFSIZE ==> file.offset == file.File().length
    ensures data[..last + cnt] + rest == old(data[..last] + file.Coming(r, data[..last]))
    ensures rest == file.Coming(r, r.Kept(data[..last + cnt]))
  {
    ghost var carried, start := data[..last], file.offset;
    cnt := FillBytes(file, data, last, r);
    rest := file.Coming(r, r.Kept(data[..last + cnt]));
    if start < file.File().length {
      ghost var d := r.Got(start, cnt);
      assert Stream(r, file.File().length, start, carried) == d + rest by {
        StreamStep(r, file.File().length, start, carried, cnt);
      }
      Regroup(carried, d, rest);
    }
  }

  method FillBytes(file: OpenFile, data: array<byte>, last: nat, ghost r: Reader) returns (cnt: nat)
    requires file.Valid() && Serves(r, file.File(), file.img.data)
    requires data.Length == BUFSIZE + 1 && last < BUFSIZE
    modifies data, file`offset
    ensures file.Valid() && last + cnt <= BUFSIZE && data[BUFSIZE] == old(data[BUFSIZE])
    ensures file.offset == old(file.offset) + cnt
    ensures if old(file.offset) == file.File().length then cnt == 0 && data[..] == old(data[..])
            else && cnt == Asked(file.File().length, old(file.offset), old(data[..last]))
                 && data[..last + cnt] == old(data[..last]) + r.Got(old(file.offset), cnt)
  {
    ghost var before := data[..];
    cnt := file.Read(data, last, BUFSIZE - last, r);
    if file.offset != old(file.offset) {
      Extended(before, last, r.Got(old(file.offset), cnt));
      assert before[..last] == old(data[..last]) && data[..][BUFSIZE] == before[BUFSIZE];
    }
  }

  lemma Regroup(a: seq<byte>, b: seq<byte>, c: seq<byte>)
    ensures a + (b + c) == a + b + c
  {
  }

  lemma Extended(before: seq<byte>, at: nat, d: seq<byte>)
    requires at + |d| < |before|
    ensures var s := Filled(before, at, d);
            s[..at + |d|] == before[..at] + d && s[|s| - 1] == before[|s| - 1]
  {
  }

  // ---- A line that is not in the file ----

  // A one-byte pattern is found in some line exactly when the byte is in the text.
  lemma {:induction false} MatchesByte(text: seq<byte>, c: byte, fname: seq<byte>)
    requires c != NEWLINE
    ensures Matches(text, [c], fname) == [] <==> c !in text
    decreases |text|
  {
    var n := FirstNewline(text);
    var line := text[..n];
    ContainsByte(line, c);
    if n == |text| {
      assert line == text;
      LastLine(text, [c], fname);
    } else {
      assert text == line + [NEWLINE] + text[n + 1..];
      MatchesByte(text[n + 1..], c, fname);
      FirstLineLeaves(line, text[n + 1..], [c], fname);
    }
  }

  lemma {:induction false} FirstNewline(text: seq<byte>) returns (n: nat)
    ensures n <= |text| && NEWLINE !in text[..n] && (n < |text| ==> text[n] == NEWLINE)
  {
    if text == [] || text[0] == NEWLINE {
      n := 0;
    } else {
      var m := FirstNewline(text[1..]);
      n := m + 1;
      assert text[..n] == [text[0]] + text[1..][..m];
    }
  }

  lemma ContainsByte(line: seq<byte>, c: byte)
    ensures Contains(line, [c]) <==> c in line
  {
    if c in line {
      var i :| 0 <= i < |line| && line[i] == c;
      assert OccursAt(line, [c], i);
    }
    if Contains(line, [c]) {
      var i :| 0 <= i && OccursAt(line, [c], i);
      assert line[i..i + 1][0] == line[i];
    }
  }

  // No two bytes in a row are of the same line.
  lemma {:induction false} ShortLinesFit(text: seq<byte>)
    requires forall j :: 0 <= j && j + 1 < |text| ==> text[j] == NEWLINE || text[j + 1] == NEWLINE
    ensures forall l :: l in Split(text, {NEWLINE}) ==> |l| <= 1
    ensures text != [] && text[0] == NEWLINE ==> Split(text, {NEWLINE})[0] == []
  {
    if text != [] {
      ShortLinesFit(text[1..]);
    }
  }

  // Grep can print a line that is not in the file: where a file of empty lines and one X ends right behind a
  // break, no line holds a Y, and yet a line with a Y is reported.
  lemma ForeignLine(f: Inode, size: nat, k: nat, fname: seq<byte>)
    requires FileOk(f, size) && BreaksAt(f, k) && f.length == Last(k) + 2
    ensures var mem := Skewed(size, f.blocks[k]);
            && NUL !in Seen(f, mem) && LinesFit(Seen(f, mem))
            && Matches(Flat(f, mem), [Y], fname) == []
            && Matches(Seen(f, mem), [Y], fname) != []
  {
    var mem := Skewed(size, f.blocks[k]);
    var s := Flat(f, mem);
    var s' := s[Last(k) + 1 := Y];
    SeesForeignEnd(f, size, k);
    forall j: nat | j < |s| ensures s[j] == if j == k * BLOCK + 1023 then X else NEWLINE {
      SkewedAt(f, size, k, j);
    }
    ShortLinesFit(s');
    MatchesByte(s, Y, fname);
    assert s'[Last(k) + 1] == Y;
    MatchesByte(s', Y, fname);
  }

  const OPEN_FAILED: seq<byte> := [102, 105, 108, 101, 32, 111, 112, 101, 110, 32, 102, 97, 105, 108, 101, 100, 10]

  // Streaming equals batch, on a file the kernel serves: exactly the matching lines of what is seen of the
  // file are printed, once each and in order, wherever the reads happen to cut it. `data` is the
  // uninitialised buffer.
  method DoOneFile(pattern: seq<byte>, fname: seq<byte>, file: OpenFile?, data: array<byte>)
    returns (r: int, out: seq<byte>)
    requires pattern != [] && NUL !in pattern
    requires data.Length == BUFSIZE + 1 && data[BUFSIZE] != NEWLINE
    requires file != null ==> file.Valid() && file.offset == 0
    requires file != null ==> NUL !in Seen(file.File(), file.img.data) && LinesFit(Seen(file.File(), file.img.data))
    modifies data, file
    ensures file == null ==> r == -1 && out == OPEN_FAILED
    ensures file != null ==> r == 0 && out == Matches(Seen(file.File(), file.img.data), pattern, fname)
    ensures file != null && Used(file.File()) <= MAX_BLOCKS && Unbroken(file.File(), Used(file.File())) ==>
              out == Matches(Flat(file.File(), file.img.data), pattern, fname)
  {
    if file == null {
      return -1, OPEN_FAILED;
    }
    ServeServes(file.File(), file.img.data);
    out := SearchFile(pattern, fname, file, data, Serve(file.File(), file.img.data));
    r := 0;
    if Used(file.File()) <= MAX_BLOCKS && Unbroken(file.File(), Used(file.File())) {
      UnbrokenIsSeen(file.File(), file.img.data);
    }
  }

  method SearchFile(pattern: seq<byte>, fname: seq<byte>, file: OpenFile, data: array<byte>, ghost r: Reader)
    returns (out: seq<byte>)
    requires pattern != [] && NUL !in pattern
    requires data.Length == BUFSIZE + 1 && data[BUFSIZE] != NEWLINE
    requires file.Valid() && Serves(r, file.File(), file.img.data)
    requires NUL !in file.Coming(r, []) && LinesFit(file.Coming(r, []))
    modifies data, file
    ensures out == Matches(old(file.Coming(r, [])), pattern, fname)
  {
    ghost var text := file.Coming(r, []);
    ghost var goal := Matches(text, pattern, fname);
    out := [];
    var last: nat := 0;
    assert [] + text == text && data[..0] == [] && [] + goal == goal;
    while true
      invariant file.Valid() && last < BUFSIZE && data[BUFSIZE] != NEWLINE
      invariant text == data[..last] + file.Coming(r, data[..last])
      invariant NUL !in text && LinesFit(text) && out + Matches(text, pattern, fname) == goal
      decreases file.File().length - file.offset
    {
      var cnt, printed; ghost var left;
      cnt, last, printed, left := Round(pattern, fname, file, data, last, r, text);
      Regroup(out, printed, Matches(left, pattern, fname));
      text := left;
      out := out + printed;
      if cnt == 0 {
        break;
      }
    }
    LastLine([], pattern, fname);
  }

  // One read, and the lines it completes; `left` is what is then in the buffer and still to come.
  method Round(pattern: seq<byte>, fname: seq<byte>, file: OpenFile, data: array<byte>, last0: nat,
               ghost r: Reader, ghost text: seq<byte>)
    returns (cnt: nat, last: nat, printed: seq<byte>, ghost left: seq<byte>)
    requires pattern != [] && NUL !in pattern
    requires data.Length == BUFSIZE + 1 && data[BUFSIZE] != NEWLINE && last0 < BUFSIZE
    requires file.Valid() && Serves(r, file.File(), file.img.data)
    requires text == data[..last0] + file.Coming(r, data[..last0]) && NUL !in text && LinesFit(text)
    modifies data, file`offset
    ensures file.Valid() && last < BUFSIZE && data[BUFSIZE] != NEWLINE
    ensures file.offset == old(file.offset) + cnt && (cnt == 0 ==> left == [])
    ensures left == data[..last] + file.Coming(r, data[..last]) && NUL !in left && LinesFit(left)
    ensures printed + Matches(left, pattern, fname) == Matches(text, pattern, fname)
  {
    ghost var rest;
    cnt, rest := FillBuffer(file, data, last0, r);
    ghost var filled := data[..last0 + cnt];
    assert text == filled + rest;
    last, printed := SearchBuffer(data, cnt, last0 + cnt, pattern, fname, rest, Matches(text, pattern, fname));
    left := data[..last] + rest;
    assert Inspected(0);
    if file.offset < file.File().length {
      assert Buffered(filled) && r.Kept(filled) == Carry(filled) == data[..last];
    }
  }
}
