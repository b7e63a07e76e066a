// The command buffer: one 640-byte buffer, shared by the three terminals, between Enter and terminal_read.
module CommandBuffers {
  import opened Bytes

  const CAPACITY := 640

  // `position` is where the next line goes; the bytes beyond it are stale. Reading may drive it negative.
  datatype Command = Command(buf: seq<byte>, position: int)
  {
    ghost predicate Valid() { |buf| == CAPACITY }

    predicate HasRoom(n: nat) { 0 <= position && position + n <= CAPACITY }
  }

  function Append(c: Command, line: seq<byte>): (r: Command)
    requires c.Valid() && c.HasRoom(|line|)
    ensures r.Valid()
  {
    Command(c.buf[..c.position] + line + c.buf[c.position + |line|..], c.position + |line|)
  }

  // How many bytes a read of n takes: up to and including the first newline, at most n.
  function ReadLength(buf: seq<byte>, n: nat): (r: nat)
    ensures r <= n && r <= |buf|
  {
    if n == 0 || buf == [] then 0
    else if buf[0] == NEWLINE then 1
    else 1 + ReadLength(buf[1..], n - 1)
  }

  // The read and the copy-down that follows stay inside the buffer.
  predicate Readable(c: Command, n: nat)
  {
    var i := ReadLength(c.buf, n);
    2 * i <= CAPACITY && 2 * i <= |c.buf|
  }

  function Taken(c: Command, n: nat): seq<byte>
    requires c.Valid()
  {
    c.buf[..ReadLength(c.buf, n)]
  }

  // Only as many bytes move down as were read.
  function Consume(c: Command, n: nat): (r: Command)
    requires c.Valid() && Readable(c, n)
    ensures r.Valid()
  {
    var i := ReadLength(c.buf, n);
    Command(c.buf[i..2 * i] + c.buf[i..], c.position - i)
  }

  lemma {:induction false} ReadLengthIs(buf: seq<byte>, n: nat, i: nat)
    requires i <= n && i <= |buf|
    requires NEWLINE !in (if i == 0 then [] else buf[..i - 1])
    requires i == n || (0 < i && buf[i - 1] == NEWLINE)
    ensures ReadLength(buf, n) == i
  {
    if i == 0 {
    } else if i == 1 {
      assert ReadLength(buf[1..], n - 1) == 0 || n != 1;
    } else {
      assert buf[..i - 1][0] == buf[0];
      assert buf[1..][..i - 2] == buf[..i - 1][1..];
      ReadLengthIs(buf[1..], n - 1, i - 1);
    }
  }

  // Every byte counted before the last one is not a newline, and reading stops at a newline only.
  lemma {:induction false} ReadLengthStops(buf: seq<byte>, n: nat)
    ensures var i := ReadLength(buf, n);
            && (forall j :: 0 <= j < i - 1 ==> buf[j] != NEWLINE)
            && (i < n && i < |buf| ==> 0 < i && buf[i - 1] == NEWLINE)
  {
    if n != 0 && buf != [] && buf[0] != NEWLINE {
      ReadLengthStops(buf[1..], n - 1);
    }
  }

  // If everything entered before has been read, the next read with enough room returns exactly the
  // line that is entered, and leaves the buffer empty again.
  lemma ReadReturnsLine(c: Command, line: seq<byte>, n: nat)
    requires c.Valid() && c.position == 0
    requires NEWLINE !in line && |line| <= 127 && |line| < n
    ensures var c' := Append(c, line + [NEWLINE]);
            Readable(c', n) && Taken(c', n) == line + [NEWLINE] && Consume(c', n).position == 0
  {
    var c' := Append(c, line + [NEWLINE]);
    assert c'.buf[..|line|] == line && c'.buf[|line|] == NEWLINE;
    ReadLengthIs(c'.buf, n, |line| + 1);
    assert c'.buf[..|line| + 1] == line + [NEWLINE];
  }

  // The bytes still unread after a read of n.
  function Unread(c: Command, n: nat): seq<byte>
    requires c.Valid() && ReadLength(c.buf, n) <= c.position <= CAPACITY
  {
    c.buf[ReadLength(c.buf, n)..c.position]
  }

  // Unread bytes survive a read exactly when no more of them remain than were read, or the ones that
  // are not moved happen to repeat with that period.
  lemma UnreadSurvives(c: Command, n: nat)
    requires c.Valid() && Readable(c, n) && ReadLength(c.buf, n) <= c.position <= CAPACITY
    ensures var i := ReadLength(c.buf, n);
            var m := c.position - i;
            Consume(c, n).buf[..m] == Unread(c, n) <==>
            m <= i || c.buf[i..m] == c.buf[2 * i..c.position]
  {
    var i := ReadLength(c.buf, n);
    var m := c.position - i;
    var after := Consume(c, n).buf[..m];
    if m <= i {
      assert after == c.buf[i..c.position];
    } else {
      assert after == c.buf[i..2 * i] + c.buf[i..m];
      assert Unread(c, n) == c.buf[i..2 * i] + c.buf[2 * i..c.position];
      if after == Unread(c, n) {
        assert c.buf[i..m] == after[i..] == Unread(c, n)[i..];
      }
    }
  }

  // A pending line longer than the one just read is damaged: with "A" and "BCD" waiting, reading the
  // first leaves "BCBC" where "BCD\n" should be.
  lemma LongerPendingLineIsLost(c: Command, n: nat)
    requires c.Valid() && c.position == 0 && n >= 2
    ensures var pending := Append(Append(c, [65, NEWLINE]), [66, 67, 68, NEWLINE]);
            && Readable(pending, n) && Taken(pending, n) == [65, NEWLINE]
            && Consume(pending, n).buf[..4] == [66, 67, 66, 67]
  {
    var pending := Append(Append(c, [65, NEWLINE]), [66, 67, 68, NEWLINE]);
    assert pending.buf[..6] == [65, NEWLINE, 66, 67, 68, NEWLINE];
    assert pending.buf[0] == 65 && pending.buf[1] == NEWLINE && pending.buf[2] == 66 && pending.buf[3] == 67;
    ReadLengthIs(pending.buf, n, 2);
  }

  class CommandBuffer {
    const bytes: array<byte>
    var position: int

    ghost predicate Valid()
      reads this
    {
      bytes.Length == CAPACITY
    }

    ghost function Value(): (r: Command)
      requires Valid()
      reads this, bytes
      ensures r.Valid()
    {
      Command(bytes[..], position)
    }

    constructor ()
      ensures Valid() && fresh(bytes) && position == 0
    {
      bytes := new byte[CAPACITY](_ => NUL);
      position := 0;
    }

    // copy_command_buffer: the edited line goes behind what is already waiting.
    method Copy(line: array<byte>, n: nat)
      requires Valid() && line != bytes && n <= line.Length && Value().HasRoom(n)
      modifies bytes, `position
      ensures Valid() && Value() == Append(old(Value()), line[..n])
    {
      ghost var before := bytes[..];
      ghost var start := position;
      for i := 0 to n
        invariant Valid() && position == start + i
        invariant bytes[..] == before[..start] + line[..i] + before[start + i..]
      {
        bytes[position] := line[i];
        position := position + 1;
      }
    }

    // terminal_read once a line is ready, up to but not including the reset of the flag.
    method Read(buf: array?<byte>, nbytes: int) returns (r: int)
      requires Valid() && buf != bytes
      requires 0 <= nbytes && buf != null ==> nbytes <= buf.Length && Readable(Value(), nbytes)
      modifies bytes, `position, (if buf == null then {} else {buf})
      ensures Valid()
      ensures nbytes < 0 || buf == null ==> r == -1 && Value() == old(Value())
      ensures 0 <= nbytes && buf != null ==>
                && r == |Taken(old(Value()), nbytes)|
                && buf[..r] == Taken(old(Value()), nbytes)
                && buf[r..] == old(buf[r..])
                && Value() == Consume(old(Value()), nbytes)
    {
      if nbytes < 0 || buf == null {
        return -1;
      }
      r := Take(buf, nbytes);
      MoveDown(r);
      assert old(bytes[..])[r..][..r] == old(bytes[..])[r..2 * r];
    }

    method Take(buf: array<byte>, nbytes: nat) returns (i: nat)
      requires Valid() && buf != bytes && nbytes <= buf.Length && Readable(Value(), nbytes)
      modifies buf
      ensures i == ReadLength(bytes[..], nbytes)
      ensures buf[..i] == bytes[..i] && buf[i..] == old(buf[i..])
    {
      i := 0;
      while i < nbytes
        invariant 0 <= i <= nbytes && i <= bytes.Length
        invariant NEWLINE !in bytes[..i]
        invariant buf[..i] == bytes[..i] && buf[i..] == old(buf[i..])
      {
        ReadLengthPast(bytes[..], nbytes, i);
        var c := bytes[i];
        buf[i] := c;
        i := i + 1;
        if c == NEWLINE {
          break;
        }
      }
      ReadLengthIs(bytes[..], nbytes, i);
    }

    method MoveDown(i: nat)
      requires Valid() && 2 * i <= CAPACITY
      modifies bytes, `position
      ensures bytes[..] == old(bytes[i..2 * i]) + old(bytes[i..])
      ensures position == old(position) - i
    {
      ghost var before := bytes[..];
      for j := 0 to i
        invariant bytes.Length == CAPACITY && position == old(position) - j
        invariant bytes[j..] == before[j..]
        invariant forall k :: 0 <= k < j ==> bytes[k] == before[k + i]
      {
        assert bytes[j..][i] == before[j..][i];
        bytes[j] := bytes[j + i];
        position := position - 1;
      }
      assert bytes[..] == before[i..2 * i] + before[i..];
    }
  }

  // While no newline has been met, the read goes on.
  lemma {:induction false} ReadLengthPast(buf: seq<byte>, n: nat, i: nat)
    requires i < n && i <= |buf| && NEWLINE !in buf[..i]
    ensures ReadLength(buf, n) >= i
    ensures i < |buf| ==> ReadLength(buf, n) > i
  {
    if i > 0 {
      assert buf[..i][0] == buf[0];
      assert buf[1..][..i - 1] == buf[..i][1..];
      ReadLengthPast(buf[1..], n - 1, i - 1);
    }
  }
}
