// ls: a client that opens the directory and reads names through its descriptor until a read returns 0.
module Ls {
  import opened Bytes
  import opened CStrings
  import opened Directory
  import opened Descriptors

  const DOT: byte := 46
  const SBUFSIZE := 33

  // One name a line.
  function Listing(names: seq<seq<byte>>): seq<byte>
  {
    if names == [] then [] else Listing(names[..|names| - 1]) + (names[|names| - 1] + [NEWLINE])
  }

  // Every name in the directory is printed, once and in order.
  method PrintNames(p: Process) returns (status: int, out: seq<byte>)
    requires p.Valid() && p.reader.dir.Valid()
    requires forall i: nat :: IsFirst(p.reader.dir, [DOT], i) ==> p.reader.dir.dentries[i].fileType == DIRECTORY_FILE
    modifies p, p.fds, p.reader`fnameLength
    ensures p.Valid()
    ensures status == 0 <==> [DOT] in p.reader.dir.Names(0) && exists fd :: 0 <= fd < FDS && !old(p.fds[fd].active)
    ensures status == 0 ==> out == Listing(p.reader.dir.Names(0))
    ensures status != 0 ==> status == 2 && out == [] && p.State() == old(p.State())
  {
    out := [];
    var name := new byte[2](i => if i == 0 then DOT else NUL);
    assert name[..] == [DOT, NUL];
    TextIs(name[..], 1);
    var fd; ghost var i;
    fd, i := p.OpenEntry(name, [DOT]);
    DotIsListed(p.reader.dir, i);
    if fd == -1 {
      return 2, out;
    }
    out := PrintOpen(p, fd);
    status := 0;
  }

  lemma DotIsListed(dir: Dir, i: nat)
    requires dir.Valid() && if i < ENTRIES then IsFirst(dir, [DOT], i) else !exists k: nat :: IsFirst(dir, [DOT], k)
    ensures i < ENTRIES <==> [DOT] in dir.Names(0)
  {
    FindsFirst(dir, [DOT]);
    FindsEveryEntry(dir, [DOT]);
  }

  // Descriptor fd is the directory's, and k names have been read from it.
  ghost predicate Reads(p: Process, fd: int, k: nat)
    reads p, p.fds
  {
    && p.Valid() && p.reader.dir.Valid() && 2 <= fd < FDS
    && p.fds[fd].active && p.fds[fd].op == Driver.Directory && p.fds[fd].offset == k <= p.reader.dir.count
  }

  // The loop of ls. A read or a write that fails would end it; neither does.
  method PrintOpen(p: Process, fd: int) returns (out: seq<byte>)
    requires Reads(p, fd, 0)
    modifies p, p.fds, p.reader`fnameLength
    ensures p.Valid() && out == Listing(p.reader.dir.Names(0))
  {
    ghost var names := p.reader.dir.Names(0);
    var buf := new byte[SBUFSIZE];
    ghost var k: nat := 0;
    out := [];
    var cnt := ReadName(p, fd, buf, k);
    while cnt != 0
      invariant k <= |names| && out == Listing(names[..k])
      invariant if cnt == 0 then k == |names| && Reads(p, fd, k)
                else k < |names| && Reads(p, fd, k + 1) && 0 < cnt < SBUFSIZE && buf[..cnt] == names[k]
      decreases |names| - k
    {
      var line := EndLine(buf, cnt);
      ListingNext(names, k);
      out := out + line;
      k := k + 1;
      cnt := ReadName(p, fd, buf, k);
    }
    assert names[..k] == names;
  }

  method EndLine(buf: array<byte>, cnt: int) returns (line: seq<byte>)
    requires 0 < cnt < buf.Length
    modifies buf
    ensures line == old(buf[..cnt]) + [NEWLINE]
  {
    buf[cnt] := NEWLINE;
    line := buf[..cnt + 1];
  }

  lemma ListingNext(names: seq<seq<byte>>, k: nat)
    requires k < |names|
    ensures Listing(names[..k + 1]) == Listing(names[..k]) + (names[k] + [NEWLINE])
  {
    assert names[..k + 1][..k] == names[..k];
  }

  method ReadName(p: Process, fd: int, buf: array<byte>, ghost k: nat) returns (cnt: int)
    requires Reads(p, fd, k) && buf.Length == SBUFSIZE
    modifies p, p.fds, p.reader`fnameLength, buf
    ensures if k == p.reader.dir.count then cnt == 0 && Reads(p, fd, k)
            else 0 < cnt < SBUFSIZE && Reads(p, fd, k + 1) && buf[..cnt] == p.reader.dir.Names(0)[k]
  {
    cnt := p.ReadFd(fd, buf, SBUFSIZE - 1, 0);
  }
}
