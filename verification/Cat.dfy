// cat: a client that reads a file through its descriptor, 1 KB at a time, until a read returns 0.
module Cat {
  import opened Bytes
  import opened FileSystem
  import opened SequentialReads
  import opened Directory
  import opened Descriptors
  import opened Commands

  const CHUNK := 1024

  // The file named by the arguments is copied out exactly, however its blocks are scattered.
  method PrintFile(p: Process, args: Arguments) returns (status: int, out: seq<byte>)
    requires p.Valid() && args.Valid()
    requires forall i: nat :: IsFirst(p.reader.dir, args.Value(), i) ==> p.reader.dir.dentries[i].fileType == REGULAR_FILE
    modifies p, p.fds, p.reader`fnameLength
    ensures p.Valid()
    ensures args.Value() == [] ==> status == 3 && out == [] && p.State() == old(p.State())
    ensures args.Value() != [] ==>
              (status == 0 <==>
                && (exists i: nat :: IsFirst(p.reader.dir, args.Value(), i))
                && exists fd :: 0 <= fd < FDS && !old(p.fds[fd].active))
    ensures args.Value() != [] && status != 0 ==> status == 2 && out == [] && p.State() == old(p.State())
    ensures status == 0 ==> forall i: nat :: IsFirst(p.reader.dir, args.Value(), i) ==>
              out == Flat(p.img.inodes[p.reader.dir.dentries[i].inode], p.img.data)
  {
    out := [];
    ghost var name := args.Value();
    var buf := new byte[CHUNK];
    var none := args.GetArgs(buf, CHUNK);
    if none != 0 {
      return 3, out;
    }
    assert forall j :: 0 <= j < FDS ==> p.fds[j] == old(p.fds[j]);
    var fd; ghost var i;
    fd, i := p.OpenEntry(buf, name);
    if fd == -1 {
      return 2, out;
    }
    ghost var f := p.img.inodes[p.reader.dir.dentries[i].inode];
    out := CopyOut(p, fd, buf, f);
    assert Flat(f, p.img.data)[..f.length] == Flat(f, p.img.data);
    status := 0;
  }

  // Descriptor fd reads file f, and has so far read whole chunks of it or all of it.
  ghost predicate Reads(p: Process, fd: int, f: Inode)
    reads p, p.fds
  {
    && p.Valid() && 2 <= fd < FDS && p.fds[fd].active && p.fds[fd].op == RegularFile && p.clean[fd]
    && f == p.img.inodes[p.fds[fd].inode]
    && (AtBoundary(p.fds[fd].offset, CHUNK) || p.fds[fd].offset == f.length)
  }

  // The loop of cat. A read or a write that fails would end it; neither does.
  method CopyOut(p: Process, fd: int, buf: array<byte>, ghost f: Inode) returns (out: seq<byte>)
    requires Reads(p, fd, f) && p.got[fd] == [] && buf.Length == CHUNK
    modifies p, p.fds, p.reader`fnameLength, buf
    ensures Reads(p, fd, f) && p.fds[fd].offset == f.length && out == Flat(f, p.img.data)[..f.length]
  {
    out := [];
    var cnt := 1;
    while cnt != 0
      invariant Reads(p, fd, f) && cnt >= 0 && p.got[fd] == out
      invariant cnt == 0 ==> p.fds[fd].offset == f.length
      decreases cnt != 0, f.length - p.fds[fd].offset
    {
      cnt := ReadChunk(p, fd, buf, f);
      out := out + buf[..cnt];
    }
  }

  method ReadChunk(p: Process, fd: int, buf: array<byte>, ghost f: Inode) returns (cnt: int)
    requires Reads(p, fd, f) && buf.Length == CHUNK
    modifies p, p.fds, p.reader`fnameLength, buf
    ensures Reads(p, fd, f) && 0 <= cnt <= CHUNK
    ensures p.got[fd] == old(p.got[fd]) + buf[..cnt] && p.fds[fd].offset == old(p.fds[fd].offset) + cnt
    ensures cnt == 0 ==> p.fds[fd].offset == f.length
  {
    ghost var offset := p.fds[fd].offset;
    cnt := p.ReadFd(fd, buf, CHUNK, 0);
    if offset < f.length {
      BoundaryNeverStraddles(offset, CHUNK, cnt);
      BoundaryNext(offset, CHUNK);
    }
  }
}
