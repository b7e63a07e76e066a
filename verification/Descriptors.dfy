// A process's descriptor table: open, read and close over whole runs.
module Descriptors {
  import opened Bytes
  import opened CStrings
  import opened FileSystem
  import opened Directory

  const FDS := 8
  const RTC_FILE := 0
  const DIRECTORY_FILE := 1
  const REGULAR_FILE := 2

  // f_op: which driver's jump table an entry points to
  datatype Driver = TerminalIn | TerminalOut | Rtc | Directory | RegularFile

  datatype FileDesc = FileDesc(op: Driver, inode: nat, offset: nat, active: bool)

  // The table, and what has come out of each descriptor since it was opened: the bytes, and whether
  // every read so far stayed clear of straddling two blocks.
  datatype Table = Table(fds: seq<FileDesc>, got: seq<seq<byte>>, clean: seq<bool>)

  ghost predicate Files(img: Image, dir: Dir)
  {
    && ImageOk(img) && dir.Readable()
    && forall d :: d in dir.dentries && d.fileType == REGULAR_FILE ==> d.inode < |img.inodes|
  }

  // What holds of every table a process ever has.
  ghost predicate Good(t: Table, img: Image)
    requires ImageOk(img)
  {
    && |t.fds| == |t.got| == |t.clean| == FDS
    && t.fds[0].active && t.fds[0].op == TerminalIn
    && t.fds[1].active && t.fds[1].op == TerminalOut
    && forall fd :: 0 <= fd < FDS && t.fds[fd].active && t.fds[fd].op == RegularFile ==>
         && t.fds[fd].inode < |img.inodes|
         && var f := img.inodes[t.fds[fd].inode];
            && t.fds[fd].offset == |t.got[fd]| <= f.length
            && (t.clean[fd] ==> t.got[fd] == Flat(f, img.data)[..t.fds[fd].offset])
  }

  // ---- The calls as functions of the table ----

  function LeastFree(fds: seq<FileDesc>): (r: nat)
    ensures r <= |fds| && (forall i :: 0 <= i < r ==> fds[i].active) && (r < |fds| ==> !fds[r].active)
  {
    if fds == [] || !fds[0].active then 0 else 1 + LeastFree(fds[1..])
  }

  function DriverOf(fileType: nat): Option<Driver>
  {
    if fileType == RTC_FILE then Some(Rtc)
    else if fileType == DIRECTORY_FILE then Some(Directory)
    else if fileType == REGULAR_FILE then Some(RegularFile)
    else None
  }

  // `found` is what the directory says about the name.
  function Open(t: Table, found: Option<Entry>): (r: (Table, int))
    requires |t.fds| == |t.got| == |t.clean| == FDS
  {
    var fd: int := LeastFree(t.fds);
    if fd == FDS || found == None || DriverOf(found.value.fileType) == None then (t, -1)
    else
      var op := DriverOf(found.value.fileType).value;
      var inode := if op == RegularFile then found.value.inode else 0;
      (Table(t.fds[fd := FileDesc(op, inode, 0, true)], t.got[fd := []], t.clean[fd := true]), fd)
  }

  function Close(t: Table, fd: int): (r: (Table, int))
    requires |t.fds| == FDS
  {
    if fd < 2 || fd >= FDS || !t.fds[fd].active then (t, -1)
    else (t.(fds := t.fds[fd := t.fds[fd].(active := false)]), 0)
  }

  predicate CanRead(t: Table, fd: int, n: int)
    requires |t.fds| == FDS
  {
    0 <= fd < FDS && 0 <= n && t.fds[fd].active && fd != 1
  }

  // The bytes a regular descriptor yields next.
  ghost function NextBytes(d: FileDesc, img: Image, n: nat): seq<byte>
    requires ImageOk(img) && d.inode < |img.inodes|
  {
    var f := img.inodes[d.inode];
    if d.offset < f.length then Delivered(f, img.data, d.offset, Available(f, d.offset, n)) else []
  }

  ghost function ReadFile(t: Table, img: Image, fd: nat, n: nat): Table
    requires ImageOk(img) && Good(t, img) && CanRead(t, fd, n) && t.fds[fd].op == RegularFile
  {
    var d := t.fds[fd];
    var bytes := NextBytes(d, img, n);
    Table(t.fds[fd := d.(offset := d.offset + |bytes|)],
          t.got[fd := t.got[fd] + bytes],
          t.clean[fd := t.clean[fd] && !Straddles(d.offset, |bytes|)])
  }

  ghost function Read(t: Table, img: Image, dir: Dir, fd: int, n: int): Table
    requires ImageOk(img) && Good(t, img)
  {
    if !CanRead(t, fd, n) then t
    else match t.fds[fd].op
      case RegularFile => ReadFile(t, img, fd, n)
      case Directory =>
        if t.fds[fd].offset < dir.count then t.(fds := t.fds[fd := t.fds[fd].(offset := t.fds[fd].offset + 1)]) else t
      case _ => t
  }

  // ---- Whole runs ----

  datatype Call = OpenCall(name: seq<byte>) | ReadCall(fd: int, n: int) | CloseCall(fd: int)

  ghost function After(t: Table, img: Image, dir: Dir, c: Call): Table
    requires Files(img, dir) && Good(t, img)
  {
    match c
    case OpenCall(name) => Open(t, Find(dir, name)).0
    case ReadCall(fd, n) => Read(t, img, dir, fd, n)
    case CloseCall(fd) => Close(t, fd).0
  }

  lemma ReadFileKeepsGood(t: Table, img: Image, fd: nat, n: nat)
    requires ImageOk(img) && Good(t, img) && CanRead(t, fd, n) && t.fds[fd].op == RegularFile
    ensures Good(ReadFile(t, img, fd, n), img)
  {
    var d := t.fds[fd];
    var f := img.inodes[d.inode];
    var bytes := NextBytes(d, img, n);
    var flat := Flat(f, img.data);
    if d.offset < f.length && t.clean[fd] && !Straddles(d.offset, |bytes|) {
      assert flat[..d.offset] + flat[d.offset..d.offset + |bytes|] == flat[..d.offset + |bytes|];
    }
  }

  lemma CallKeepsGood(t: Table, img: Image, dir: Dir, c: Call)
    requires Files(img, dir) && Good(t, img)
    ensures Good(After(t, img, dir, c), img)
  {
    if c.ReadCall? && CanRead(t, c.fd, c.n) && t.fds[c.fd].op == RegularFile {
      ReadFileKeepsGood(t, img, c.fd, c.n);
    }
  }

  ghost function RunCalls(t: Table, img: Image, dir: Dir, cs: seq<Call>): (r: Table)
    requires Files(img, dir) && Good(t, img)
    decreases |cs|
  {
    if cs == [] then t
    else CallKeepsGood(t, img, dir, cs[0]); RunCalls(After(t, img, dir, cs[0]), img, dir, cs[1..])
  }

  function FreshTable(): Table
  {
    var free := FileDesc(TerminalIn, 0, 0, false);
    Table([FileDesc(TerminalIn, 0, 0, true), FileDesc(TerminalOut, 0, 0, true)] + seq(FDS - 2, _ => free),
          seq(FDS, _ => []), seq(FDS, _ => true))
  }

  // From a fresh table, whatever is called: 0 and 1 stay active, and every regular descriptor's offset
  // counts the bytes read from it since it was opened - which are the front of its file as long as no
  // read straddled.
  lemma {:induction false} RunKeepsGood(t: Table, img: Image, dir: Dir, cs: seq<Call>)
    requires Files(img, dir) && Good(t, img)
    ensures Good(RunCalls(t, img, dir, cs), img)
    decreases |cs|
  {
    if cs != [] {
      CallKeepsGood(t, img, dir, cs[0]);
      RunKeepsGood(After(t, img, dir, cs[0]), img, dir, cs[1..]);
    }
  }

  lemma FreshIsGood(img: Image)
    requires ImageOk(img)
    ensures Good(FreshTable(), img)
    ensures forall i :: 0 <= i < FDS ==> (FreshTable().fds[i].active <==> i < 2)
  {
  }

  // A successful open returns the least free index, which is in 2..7; with all eight in use it fails.
  // No other entry changes. Closing the new descriptor undoes all but the stale contents of its entry.
  lemma OpenTakesLeastFree(t: Table, img: Image, found: Option<Entry>)
    requires ImageOk(img) && Good(t, img)
    ensures var (t', fd) := Open(t, found);
            && (fd != -1 <==> found.Some? && found.value.fileType <= 2 && exists i :: 0 <= i < FDS && !t.fds[i].active)
            && (fd != -1 ==>
                  && 2 <= fd < FDS && !t.fds[fd].active && t'.fds[fd].active && t'.fds[fd].offset == 0
                  && (forall i :: 0 <= i < fd ==> t.fds[i].active)
                  && (forall i :: 0 <= i < FDS && i != fd ==> t'.fds[i] == t.fds[i])
                  && Close(t', fd).1 == 0
                  && LeastFree(Close(t', fd).0.fds) == fd
                  && (t'.fds[fd].op == Rtc <==> found.value.fileType == 0)
                  && (t'.fds[fd].op == Directory <==> found.value.fileType == 1)
                  && (t'.fds[fd].op == RegularFile <==> found.value.fileType == 2)
                  && (found.value.fileType == 2 ==> t'.fds[fd].inode == found.value.inode))
            && (fd == -1 ==> t' == t)
  {
    var (t', fd) := Open(t, found);
    if fd != -1 {
      LeastFreeIs(Close(t', fd).0.fds, fd);
    }
  }

  // Opening a name: what the first entry that has it says decides what is installed, and no entry or no room
  // means failure.
  lemma OpenInstalls(t: Table, img: Image, dir: Dir, name: seq<byte>, i: nat)
    requires Files(img, dir) && Good(t, img) && name != [] && IsFirst(dir, name, i)
    ensures var (t', fd) := Open(t, Find(dir, name));
            && (fd != -1 <==> dir.dentries[i].fileType <= 2 && exists j :: 0 <= j < FDS && !t.fds[j].active)
            && (fd != -1 ==>
                  && 2 <= fd < FDS && t'.fds[fd].active && t'.fds[fd].offset == 0 && t'.got[fd] == [] && t'.clean[fd]
                  && (t'.fds[fd].op == Rtc <==> dir.dentries[i].fileType == 0)
                  && (t'.fds[fd].op == Directory <==> dir.dentries[i].fileType == 1)
                  && (t'.fds[fd].op == RegularFile <==> dir.dentries[i].fileType == 2)
                  && (dir.dentries[i].fileType == 2 ==> t'.fds[fd].inode == dir.dentries[i].inode < |img.inodes|))
            && (fd == -1 ==> t' == t)
  {
    FindsFirst(dir, name);
    OpenTakesLeastFree(t, img, Find(dir, name));
    assert dir.dentries[i] in dir.dentries;
  }

  lemma OpenFindsNone(t: Table, img: Image, dir: Dir, name: seq<byte>)
    requires Files(img, dir) && Good(t, img) && (name == [] || !exists i: nat :: IsFirst(dir, name, i))
    ensures Open(t, Find(dir, name)) == (t, -1)
  {
    FindsFirst(dir, name);
  }

  lemma {:induction false} LeastFreeIs(fds: seq<FileDesc>, i: nat)
    requires i < |fds| && !fds[i].active && forall j :: 0 <= j < i ==> fds[j].active
    ensures LeastFree(fds) == i
  {
    if i > 0 {
      LeastFreeIs(fds[1..], i - 1);
    }
  }

  // Close fails on 0 and 1 and on inactive entries, and otherwise changes only its own entry's flag.
  lemma CloseFreesOne(t: Table, fd: int)
    requires |t.fds| == FDS
    ensures var (t', r) := Close(t, fd);
            && (r == 0 <==> 2 <= fd < FDS && t.fds[fd].active)
            && (r == 0 ==> t'.fds[fd] == t.fds[fd].(active := false))
            && (forall i :: 0 <= i < FDS && (i != fd || r != 0) ==> t'.fds[i] == t.fds[i])
  {
  }

  // What halt does to the table: it closes from 2 on, up to the first descriptor that is not open.
  function Halted(t: Table): (r: Table)
    requires |t.fds| == FDS
    ensures |r.fds| == FDS
  {
    var n := LeastFree(t.fds);
    t.(fds := seq(FDS, i requires 0 <= i < FDS => t.fds[i].(active := t.fds[i].active && (i < 2 || i >= n))))
  }

  // So everything is closed if and only if no descriptor was closed before one opened earlier than it: what
  // is open behind a gap is left to the next process with this PCB.
  lemma HaltClosesAll(t: Table)
    requires |t.fds| == FDS && t.fds[0].active && t.fds[1].active
    ensures (forall i :: 2 <= i < FDS ==> !Halted(t).fds[i].active) <==>
            (forall i, j :: 2 <= i < j < FDS && t.fds[j].active ==> t.fds[i].active)
    ensures forall i :: 0 <= i < FDS ==>
              && (Halted(t).fds[i].active <==> t.fds[i].active && (i < 2 || exists j :: 2 <= j < i && !t.fds[j].active))
              && Halted(t).fds[i] == t.fds[i].(active := Halted(t).fds[i].active)
  {
    var n := LeastFree(t.fds);
    if forall i :: 2 <= i < FDS ==> !Halted(t).fds[i].active {
      assert forall j :: n <= j < FDS ==> Halted(t).fds[j] == t.fds[j];
    }
    if n < FDS && forall i, j :: 2 <= i < j < FDS && t.fds[j].active ==> t.fds[i].active {
      assert forall j :: n < j < FDS ==> !t.fds[j].active;
    }
  }

  // ---- systemcall.c ----

  class Process {
    const fds: array<FileDesc>
    const img: Image
    const reader: DirectoryReader
    ghost var got: seq<seq<byte>>
    ghost var clean: seq<bool>

    ghost function State(): Table
      reads this, fds
    {
      Table(fds[..], got, clean)
    }

    ghost predicate Valid()
      reads this, fds
    {
      fds.Length == FDS && Files(img, reader.dir) && Good(State(), img)
    }

    // execute sets up descriptors 0 and 1 of a fresh PCB.
    constructor (img: Image, reader: DirectoryReader)
      requires Files(img, reader.dir)
      ensures Valid() && State() == FreshTable() && this.img == img && this.reader == reader && fresh(fds)
    {
      this.img := img;
      this.reader := reader;
      fds := new FileDesc[FDS](i => FileDesc(if i == 1 then TerminalOut else TerminalIn, 0, 0, i < 2));
      got, clean := seq(FDS, _ => []), seq(FDS, _ => true);
      new;
      assert fds[..] == FreshTable().fds;
      FreshIsGood(img);
    }

    method OpenFile(fname: array?<byte>) returns (r: int)
      requires Valid() && (fname != null ==> NUL in fname[..])
      modifies fds, `got, `clean, reader`fnameLength
      ensures Valid()
      ensures var found := if fname == null then None else Find(reader.dir, Text(fname[..]));
              State() == Open(old(State()), found).0 && r == Open(old(State()), found).1
    {
      ghost var t := State();
      var fd := 0;
      while fd < FDS && fds[fd].active
        invariant 0 <= fd <= FDS && forall i :: 0 <= i < fd ==> fds[i].active
      {
        fd := fd + 1;
      }
      if fd >= FDS {
        return -1;
      }
      LeastFreeIs(fds[..], fd);
      var entry := reader.ReadDentryByName(fname);
      if entry == None {
        return -1;
      }
      ghost var before := fds[..];
      if entry.value.fileType == RTC_FILE {
        fds[fd] := FileDesc(Rtc, 0, 0, true);
      } else if entry.value.fileType == DIRECTORY_FILE {
        fds[fd] := FileDesc(Directory, 0, 0, true);
      } else if entry.value.fileType == REGULAR_FILE {
        fds[fd] := FileDesc(RegularFile, entry.value.inode, 0, true);
      } else {
        return -1;
      }
      got, clean := got[fd := []], clean[fd := true];
      r := fd;
    }

    // The same, told by the first entry that has the name: i is its index, or the end of the directory.
    method OpenEntry(fname: array<byte>, ghost name: seq<byte>) returns (r: int, ghost i: nat)
      requires Valid() && NUL in fname[..] && Text(fname[..]) == name != []
      modifies fds, `got, `clean, reader`fnameLength
      ensures Valid() && i <= ENTRIES
      ensures if i < ENTRIES
              then IsFirst(reader.dir, name, i) && forall k: nat :: IsFirst(reader.dir, name, k) ==> k == i
              else !exists k: nat :: IsFirst(reader.dir, name, k)
      ensures r != -1 <==>
              i < ENTRIES && reader.dir.dentries[i].fileType <= 2 && exists j :: 0 <= j < FDS && !old(fds[j].active)
      ensures r == -1 ==> State() == old(State())
      ensures r != -1 ==>
                var d := reader.dir.dentries[i];
                && 2 <= r < FDS && fds[r].active && fds[r].offset == 0 && got[r] == [] && clean[r]
                && (fds[r].op == Rtc <==> d.fileType == 0)
                && (fds[r].op == Directory <==> d.fileType == 1)
                && (fds[r].op == RegularFile <==> d.fileType == 2)
                && (d.fileType == 2 ==> fds[r].inode == d.inode < |img.inodes|)
    {
      ghost var t := State();
      i := FirstEntry(reader.dir, name);
      if i < ENTRIES {
        OpenInstalls(t, img, reader.dir, name, i);
      } else {
        OpenFindsNone(t, img, reader.dir, name);
      }
      r := OpenFile(fname);
    }

    method CloseFile(fd: int) returns (r: int)
      requires Valid()
      modifies fds
      ensures Valid() && State() == Close(old(State()), fd).0 && r == Close(old(State()), fd).1
    {
      if fd < 0 || fd > 7 {
        return -1;
      }
      if fd == 0 || fd == 1 {
        return -1;
      }
      if !fds[fd].active {
        return -1;
      }
      fds[fd] := fds[fd].(active := false);
      return 0;
    }

    // The loop at the front of halt.
    method CloseAll()
      requires Valid()
      modifies fds
      ensures Valid() && State() == Halted(old(State()))
    {
      ghost var t := State();
      ghost var n := LeastFree(t.fds);
      var fd := 2;
      while fd < FDS && fds[fd].active
        invariant 2 <= fd <= FDS && Valid() && got == t.got && clean == t.clean
        invariant forall i :: 2 <= i < fd ==> t.fds[i].active && fds[i] == t.fds[i].(active := false)
        invariant forall i :: 0 <= i < FDS && (i < 2 || fd <= i) ==> fds[i] == t.fds[i]
      {
        var _ := CloseFile(fd);
        fd := fd + 1;
      }
      EndsAt(t, fd);
      assert fds[..] == Halted(t).fds;
    }

    // regular_file_read
    method RegularFileRead(fd: nat, buf: array<byte>, count: nat) returns (r: int)
      requires Valid() && CanRead(State(), fd, count) && fds[fd].op == RegularFile
      requires count <= buf.Length && count < 0x8000_0000
      modifies fds, buf, `got, `clean
      ensures Valid() && State() == ReadFile(old(State()), img, fd, count)
      ensures var bytes := NextBytes(old(fds[fd]), img, count);
              r == |bytes| && buf[..r] == bytes && buf[r..] == old(buf[r..])
    {
      ghost var t := State();
      ReadFileKeepsGood(t, img, fd, count);
      ghost var bytes := NextBytes(fds[fd], img, count);
      r := ReadData(img, fds[fd].inode, fds[fd].offset, buf, 0, count);
      fds[fd] := fds[fd].(offset := fds[fd].offset + r);
      got, clean := got[fd := got[fd] + bytes], clean[fd := clean[fd] && !Straddles(t.fds[fd].offset, |bytes|)];
    }

    // `device` is what the terminal or the clock answers when the call goes to it.
    method ReadFd(fd: int, buf: array?<byte>, nbytes: int, device: int) returns (r: int)
      requires Valid() && nbytes < 0x8000_0000
      requires buf != null ==> nbytes <= buf.Length
      modifies fds, `got, `clean, reader`fnameLength, (if buf == null then {} else {buf})
      ensures Valid()
      ensures buf == null || fd < 0 || fd > 7 || fd == 1 || nbytes < 0 || !old(fds[fd].active) ==>
                r == -1 && State() == old(State())
      ensures buf != null && 0 <= fd <= 7 && fd != 1 && 0 <= nbytes && old(fds[fd].active) ==>
                && State() == Read(old(State()), img, reader.dir, fd, nbytes)
                && var d := old(fds[fd]);
                   match d.op
                   case RegularFile => r == |NextBytes(d, img, nbytes)| && buf[..r] == NextBytes(d, img, nbytes)
                   case Directory =>
                     if d.offset > reader.dir.count then r == -1
                     else if d.offset == reader.dir.count then r == 0
                     else var name := Cut(reader.dir.dentries[d.offset].Name(), nbytes); r == |name| && buf[..r] == name
                   case _ => r == device
    {
      if fd < 0 || fd > 7 || buf == null || nbytes < 0 {
        return -1;
      }
      if !fds[fd].active {
        return -1;
      }
      if fd == 1 {
        return -1;
      }
      match fds[fd].op {
        case RegularFile =>
          r := RegularFileRead(fd, buf, nbytes);
        case Directory =>
          var offset;
          r, offset := reader.DirectoryFileRead(fds[fd].offset, buf, nbytes);
          fds[fd] := fds[fd].(offset := offset);
        case _ =>
          r := device;
      }
    }
  }

  lemma EndsAt(t: Table, fd: int)
    requires |t.fds| == FDS && t.fds[0].active && t.fds[1].active && 2 <= fd <= FDS
    requires (forall i :: 2 <= i < fd ==> t.fds[i].active) && (fd < FDS ==> !t.fds[fd].active)
    ensures LeastFree(t.fds) == fd
  {
    if fd < FDS {
      LeastFreeIs(t.fds, fd);
    }
  }
}
