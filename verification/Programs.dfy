// From a command line to a running program: execute as a whole, and what becomes of the arguments.
module Programs {
  import opened Bytes
  import opened CStrings
  import opened Buffers
  import opened FileSystem
  import opened Directory
  import opened Commands
  import opened Processes
  import opened Kernel

  const MAGIC: seq<byte> := [0x7F, 0x45, 0x4C, 0x46]
  const CHECKED := 32
  const ENTRY_AT := 24
  const IMAGE_AT := 0x48000

  // ---- What is read of a program ----

  ghost function Contents(img: Image, inode: nat): seq<byte>
    requires ImageOk(img)
  {
    if inode < |img.inodes| then Flat(img.inodes[inode], img.data) else []
  }

  function Slice(s: seq<byte>, from: nat, n: nat): (r: seq<byte>)
    ensures |r| <= n
  {
    if |s| <= from then [] else Cut(s[from..], n)
  }

  // What a buffer holds after n bytes from `offset` of the file have been read to the front of it.
  ghost function Head(img: Image, inode: nat, offset: nat, n: nat, leftover: seq<byte>): (r: seq<byte>)
    requires ImageOk(img) && n <= |leftover|
    ensures |r| == |leftover|
  {
    Filled(leftover, 0, Slice(Contents(img, inode), offset, n))
  }

  lemma FrontIsSlice(f: Inode, data: seq<byte>, offset: nat, n: nat)
    requires FileOk(f, |data|) && offset < f.length && (offset == 0 || offset + n <= BLOCK)
    ensures Delivered(f, data, offset, Available(f, offset, n)) == Slice(Flat(f, data), offset, n)
  {
    var s := Flat(f, data);
    var m := Available(f, offset, n);
    assert !Straddles(offset, m);
    assert s[offset..][..m] == s[offset..offset + m];
  }

  // `leftover` is what the buffer for the header held before.
  ghost predicate Executable(img: Image, inode: nat, leftover: seq<byte>)
    requires ImageOk(img) && |leftover| == CHECKED
  {
    Head(img, inode, 0, CHECKED, leftover)[..|MAGIC|] == MAGIC
  }

  // Only the first four bytes count, and of a file that has as many only they do.
  lemma ExecutableFile(img: Image, inode: nat, leftover: seq<byte>)
    requires ImageOk(img) && |leftover| == CHECKED
    ensures |Contents(img, inode)| >= 4 ==>
              (Executable(img, inode, leftover) <==> Contents(img, inode)[..4] == [0x7F, 0x45, 0x4C, 0x46])
    ensures |Contents(img, inode)| < 4 ==>
              (Executable(img, inode, leftover) <==>
                Contents(img, inode) + leftover[|Contents(img, inode)|..4] == [0x7F, 0x45, 0x4C, 0x46])
  {
    var s := Contents(img, inode);
    var head := Slice(s, 0, CHECKED);
    if |s| >= 4 {
      assert Head(img, inode, 0, CHECKED, leftover)[..4] == head[..4] == s[..4];
    } else {
      assert s[0..] == s && head == s;
      assert Head(img, inode, 0, CHECKED, leftover)[..4] == s + leftover[|s|..4];
    }
  }

  // What a command line asks for.
  datatype Program = Program(inode: nat, arg: seq<byte>)

  class Loader {
    const reader: DirectoryReader
    const img: Image

    ghost predicate Valid()
      reads reader
    {
      ImageOk(img) && reader.dir.Readable()
    }

    constructor (reader: DirectoryReader, img: Image)
      requires ImageOk(img) && reader.dir.Readable()
      ensures Valid() && this.reader == reader && this.img == img
    {
      this.reader, this.img := reader, img;
    }

    // A read at the front of a file, or within its first block, is exact.
    method ReadFront(inode: nat, offset: nat, n: nat, buf: array<byte>, at: nat)
      requires ImageOk(img) && at + n <= buf.Length && (offset == 0 || offset + n <= BLOCK) && offset + n < UINT32
      modifies buf
      ensures buf[..] == Filled(old(buf[..]), at, Slice(Contents(img, inode), offset, n))
    {
      var r := ReadData(img, inode, offset, buf, at, n);
      if inode < |img.inodes| && offset < img.inodes[inode].length {
        FrontIsSlice(img.inodes[inode], img.data, offset, n);
      } else {
        FilledNothing(old(buf[..]), at);
      }
    }

    method ReadHead(inode: nat, offset: nat, n: nat, leftover: seq<byte>) returns (buf: array<byte>)
      requires ImageOk(img) && |leftover| == n && (offset == 0 || offset + n <= BLOCK) && offset + n < UINT32
      ensures fresh(buf) && buf[..] == Head(img, inode, offset, n, leftover)
    {
      buf := new byte[n](i requires 0 <= i < n => leftover[i]);
      assert buf[..] == leftover;
      ReadFront(inode, offset, n, buf, 0);
    }

    method CheckHeader(inode: nat, leftover: seq<byte>) returns (ok: bool)
      requires ImageOk(img) && |leftover| == CHECKED
      ensures ok <==> Executable(img, inode, leftover)
    {
      var head := ReadHead(inode, 0, CHECKED, leftover);
      ok := HasMagic(head);
    }

    // The checks of execute: the command is parsed, the name looked up, and the header inspected.
    method FindProgram(command: array?<byte>, leftover: seq<byte>)
      returns (found: Option<nat>, argBuf: array<byte>)
      requires Valid() && |leftover| == CHECKED
      requires command != null ==> NUL in command[..] && NameFits(command[..])
      modifies reader`fnameLength
      ensures fresh(argBuf) && argBuf.Length == CMD_LENGTH
      ensures found.Some? <==>
                && command != null && Parse(command[..]).Some?
                && exists i: nat :: IsFirst(reader.dir, Parse(command[..]).value.name, i)
                                 && Executable(img, reader.dir.dentries[i].inode, leftover)
      ensures found.Some? ==>
                && NUL in argBuf[..] && Text(argBuf[..]) == Parse(command[..]).value.arg
                && forall i: nat :: IsFirst(reader.dir, Parse(command[..]).value.name, i) ==>
                     found.value == reader.dir.dentries[i].inode
    {
      var filename := new byte[CMD_LENGTH];
      argBuf := new byte[CMD_LENGTH];
      var parsed := ParseCommand(command, filename, argBuf);
      if !parsed {
        return None, argBuf;
      }
      NamesSomething(command[..]);
      ghost var i;
      found, i := FindFile(filename, leftover);
      if found.Some? {
        OnlyFirst(reader.dir, Text(filename[..]), i);
      }
    }

    method FindFile(filename: array<byte>, leftover: seq<byte>) returns (found: Option<nat>, ghost i: nat)
      requires Valid() && |leftover| == CHECKED && NUL in filename[..] && Text(filename[..]) != []
      modifies reader`fnameLength
      ensures found.Some? ==>
                && IsFirst(reader.dir, Text(filename[..]), i)
                && found.value == reader.dir.dentries[i].inode && Executable(img, found.value, leftover)
      ensures found == None ==>
                forall k: nat :: IsFirst(reader.dir, Text(filename[..]), k) ==>
                  !Executable(img, reader.dir.dentries[k].inode, leftover)
    {
      FindsFirst(reader.dir, Text(filename[..]));
      i := FirstEntry(reader.dir, Text(filename[..]));
      var entry := reader.ReadDentryByName(filename);
      if entry == None {
        return None, i;
      }
      var ok := CheckHeader(entry.value.inode, leftover);
      found := if ok then Some(entry.value.inode) else None;
    }

    method EntryPoint(inode: nat, leftover: seq<byte>) returns (entry: nat)
      requires ImageOk(img) && |leftover| == 4
      ensures var h := Head(img, inode, ENTRY_AT, 4, leftover);
              entry == (h[0] as int) + 0x100 * h[1] as int + 0x1_0000 * h[2] as int + 0x100_0000 * h[3] as int
    {
      var buf := ReadHead(inode, ENTRY_AT, 4, leftover);
      entry := Word(buf);
    }
  }

  method HasMagic(head: array<byte>) returns (ok: bool)
    requires head.Length >= 4
    ensures ok <==> head[..|MAGIC|] == MAGIC
  {
    assert head[..4] == [head[0], head[1], head[2], head[3]];
    ok := !(head[0] != 0x7F || head[1] != 0x45 || head[2] != 0x4C || head[3] != 0x46);
  }

  method Word(buf: array<byte>) returns (w: nat)
    requires buf.Length == 4
    ensures w == (buf[0] as int) + 0x100 * buf[1] as int + 0x1_0000 * buf[2] as int + 0x100_0000 * buf[3] as int
  {
    var a: int, b: int, c: int, d: int := buf[0], buf[1], buf[2], buf[3];
    w := 0x100_0000 * d + 0x1_0000 * c + 0x100 * b + a;
  }

  // A parsed name is not empty.
  lemma NamesSomething(s: seq<byte>)
    requires Parse(s).Some?
    ensures Parse(s).value.name != []
  {
  }

  // The kernel, the file system, and for each pid the arguments in its PCB and the 4 MB page of its own.
  class Computer {
    const kernel: Machine
    const loader: Loader
    const args: seq<Arguments>
    const pages: seq<array<byte>>

    ghost predicate Stored()
      reads this, loader.reader, set a | a in args :: a.arg
    {
      && loader.Valid() && |args| == |pages| == PIDS
      && forall i :: 0 <= i < PIDS ==> args[i].Valid() && pages[i].Length == FOUR_MB
    }

    ghost predicate Up()
      reads kernel, kernel.pidArray, kernel.active, kernel.slots, kernel.pcbs
    {
      kernel.Valid() && kernel.State().AllUp()
    }

    constructor (kernel: Machine, loader: Loader, args: seq<Arguments>, pages: seq<array<byte>>)
      requires kernel.Valid() && kernel.State().AllUp() && loader.Valid() && |args| == |pages| == PIDS
      requires forall i :: 0 <= i < PIDS ==> args[i].Valid() && pages[i].Length == FOUR_MB
      ensures Stored() && Up()
      ensures this.kernel == kernel && this.loader == loader && this.args == args && this.pages == pages
    {
      this.kernel, this.loader, this.args, this.pages := kernel, loader, args, pages;
    }

    // What belongs to the process that gets created next.
    ghost function NextBuffers(): set<object>
      requires |args| == |pages| == PIDS && kernel.Shape()
      reads kernel, kernel.pidArray, kernel.slots
    {
      var p := LeastUnmarked(kernel.State().marked);
      if p < PIDS then {args[p].arg, pages[p]} else {}
    }

    // execute. It succeeds exactly when fewer than eight processes are live, the command has a name, the
    // directory has an entry of that name, and the contents of its inode begin with the magic number. The new
    // process then gets the arguments of the command, and that program at its place in its page.
    method Execute(command: array?<byte>, ctx: Context, leftover: seq<byte>, leftoverEntry: seq<byte>)
      returns (r: int, entry: nat)
      requires Stored() && Up() && |leftover| == CHECKED && |leftoverEntry| == 4
      requires command != null ==> NUL in command[..] && NameFits(command[..])
      modifies kernel, kernel.pidArray, kernel.active, kernel.pcbs, loader.reader`fnameLength, NextBuffers()
      ensures Stored() && Up()
      ensures r != -1 <==>
                && LiveCount(old(kernel.State())) < 8 && command != null && Parse(old(command[..])).Some?
                && exists i: nat :: IsFirst(loader.reader.dir, Parse(old(command[..])).value.name, i)
                                 && Executable(loader.img, loader.reader.dir.dentries[i].inode, leftover)
      ensures r == -1 ==> kernel.State() == old(kernel.State())
      ensures r != -1 ==> (kernel.State(), r) == Processes.Execute(old(kernel.State()), ctx)
      ensures r != -1 ==>
                var parsed, dir := Parse(old(command[..])).value, loader.reader.dir;
                forall i: nat :: IsFirst(dir, parsed.name, i) ==>
                  IsLoaded(r, Program(dir.dentries[i].inode, parsed.arg), old(pages[r][..]), entry, leftoverEntry)
    {
      var found, argBuf := FindWanted(command, leftover);
      if found == None {
        return -1, 0;
      }
      r, entry := Start(ctx, found.value, argBuf, leftoverEntry);
    }

    // The checks at the front, which touch no process.
    method FindWanted(command: array?<byte>, leftover: seq<byte>) returns (found: Option<nat>, argBuf: array<byte>)
      requires Stored() && Up() && |leftover| == CHECKED
      requires command != null ==> NUL in command[..] && NameFits(command[..])
      modifies loader.reader`fnameLength
      ensures Stored() && Up() && kernel.State() == old(kernel.State())
      ensures NextBuffers() == old(NextBuffers()) && argBuf !in NextBuffers() && argBuf.Length == CMD_LENGTH
      ensures found.Some? <==>
                && command != null && Parse(command[..]).Some?
                && exists i: nat :: IsFirst(loader.reader.dir, Parse(command[..]).value.name, i)
                                 && Executable(loader.img, loader.reader.dir.dentries[i].inode, leftover)
      ensures found.Some? ==>
                && NUL in argBuf[..] && Text(argBuf[..]) == Parse(command[..]).value.arg
                && forall i: nat :: IsFirst(loader.reader.dir, Parse(command[..]).value.name, i) ==>
                     found.value == loader.reader.dir.dentries[i].inode
    {
      ghost var next := NextBuffers();
      found, argBuf := loader.FindProgram(command, leftover);
      assert NextBuffers() == next && argBuf !in next;
    }

    // From the search for a pid on.
    method Start(ctx: Context, inode: nat, argBuf: array<byte>, leftoverEntry: seq<byte>) returns (r: int, entry: nat)
      requires Stored() && Up() && argBuf.Length == CMD_LENGTH && NUL in argBuf[..]
      requires argBuf !in NextBuffers() && |leftoverEntry| == 4
      modifies kernel, kernel.pidArray, kernel.active, kernel.pcbs, NextBuffers()
      ensures Stored() && Up()
      ensures r != -1 <==> LiveCount(old(kernel.State())) < 8
      ensures r == -1 ==> kernel.State() == old(kernel.State())
      ensures r != -1 ==>
                && kernel.State() == Processes.Execute(old(kernel.State()), ctx).0
                && r == Processes.Execute(old(kernel.State()), ctx).1
                && IsLoaded(r, Program(inode, old(Text(argBuf[..]))), old(pages[r][..]), entry, leftoverEntry)
    {
      ghost var s := kernel.State();
      Capacity(s, ctx);
      r := ExecuteKernel(ctx);
      if r == -1 {
        return -1, 0;
      }
      assert r == LeastUnmarked(s.marked);
      entry := Load(r, inode, argBuf, leftoverEntry);
    }

    method ExecuteKernel(ctx: Context) returns (r: int)
      requires Stored() && Up()
      modifies kernel, kernel.pidArray, kernel.active, kernel.pcbs
      ensures Stored() && Up()
      ensures kernel.State() == Processes.Execute(old(kernel.State()), ctx).0
      ensures r == Processes.Execute(old(kernel.State()), ctx).1
    {
      r := kernel.Execute(ctx);
    }

    // Process r has its arguments, its program in the page that held `before`, and its entry point.
    ghost predicate IsLoaded(r: int, program: Program, before: seq<byte>, entry: nat, leftoverEntry: seq<byte>)
      requires ImageOk(loader.img) && |args| == |pages| == PIDS && 0 <= r < PIDS && args[r].Valid()
      requires |before| == FOUR_MB && |leftoverEntry| == 4
      reads args[r].arg, pages[r]
    {
      && args[r].Value() == program.arg
      && pages[r][..] == Filled(before, IMAGE_AT, Slice(Contents(loader.img, program.inode), 0, FOUR_MB - IMAGE_AT))
      && var h := Head(loader.img, program.inode, ENTRY_AT, 4, leftoverEntry);
         entry == (h[0] as int) + 0x100 * h[1] as int + 0x1_0000 * h[2] as int + 0x100_0000 * h[3] as int
    }

    method Load(r: nat, inode: nat, argBuf: array<byte>, leftoverEntry: seq<byte>) returns (entry: nat)
      requires Stored() && Up() && r < PIDS && |leftoverEntry| == 4
      requires argBuf != args[r].arg && argBuf != pages[r] && argBuf.Length == CMD_LENGTH && NUL in argBuf[..]
      modifies args[r].arg, pages[r]
      ensures Stored() && Up() && kernel.State() == old(kernel.State())
      ensures IsLoaded(r, Program(inode, old(Text(argBuf[..]))), old(pages[r][..]), entry, leftoverEntry)
    {
      LoadImage(r, inode, argBuf);
      entry := loader.EntryPoint(inode, leftoverEntry);
    }

    method LoadImage(r: nat, inode: nat, argBuf: array<byte>)
      requires Stored() && r < PIDS
      requires argBuf != args[r].arg && argBuf != pages[r] && argBuf.Length == CMD_LENGTH && NUL in argBuf[..]
      modifies args[r].arg, pages[r]
      ensures Stored() && args[r].Value() == old(Text(argBuf[..]))
      ensures pages[r][..] == Filled(old(pages[r][..]), IMAGE_AT, Slice(Contents(loader.img, inode), 0, FOUR_MB - IMAGE_AT))
    {
      args[r].Store(argBuf);
      loader.ReadFront(inode, 0, FOUR_MB - IMAGE_AT, pages[r], IMAGE_AT);
    }

    // halt: the parent finds its own arguments gone. A root shell starts over without any.
    method Halt(status: byte, here: Context) returns (resumed: Option<Context>)
      requires Stored() && Up() && Enabled(kernel.State(), Halted)
      modifies kernel, kernel.pidArray, kernel.active, kernel.pcbs, args[Successor(kernel.State())].arg
      ensures Stored() && Up() && kernel.retVal == status
      ensures var s := old(kernel.State());
              && kernel.State() == Processes.Halt(s).0 && resumed == Processes.Halt(s).1
              && kernel.State().Top().pid == Successor(s) && args[Successor(s)].Value() == []
    {
      ClearArguments();
      resumed := HaltKernel(status, here);
    }

    method ClearArguments()
      requires Stored() && Up()
      modifies args[Successor(kernel.State())].arg
      ensures Stored() && Up() && kernel.State() == old(kernel.State())
      ensures args[Successor(kernel.State())].Value() == []
    {
      var pid := kernel.SuccessorPid();
      args[pid].Clear();
    }

    method HaltKernel(status: byte, here: Context) returns (resumed: Option<Context>)
      requires Stored() && Up() && Enabled(kernel.State(), Halted)
      modifies kernel, kernel.pidArray, kernel.active, kernel.pcbs
      ensures Stored() && Up() && kernel.retVal == status
      ensures forall i :: 0 <= i < PIDS ==> args[i].Value() == old(args[i].Value())
      ensures kernel.State() == Processes.Halt(old(kernel.State())).0
      ensures resumed == Processes.Halt(old(kernel.State())).1
      ensures kernel.State().Top().pid == Successor(old(kernel.State()))
    {
      HaltGivesWay(kernel.State());
      resumed := kernel.Halt(status, here);
    }

    // getargs for the running process.
    method GetArgs(buf: array?<byte>, nbytes: int) returns (r: int)
      requires Stored() && Up() && buf != args[kernel.State().Top().pid].arg
      requires var arg := args[kernel.State().Top().pid].Value();
               buf != null && nbytes > 0 ==> buf.Length >= if |arg| <= nbytes then |arg| + 1 else nbytes
      modifies buf
      ensures Up()
      ensures r == 0 <==> buf != null && nbytes > 0 && old(args[kernel.State().Top().pid].Value()) != []
      ensures var arg := old(args[kernel.State().Top().pid].Value());
              && (r == 0 && |arg| <= nbytes ==> NUL in buf[..] && Text(buf[..]) == arg)
              && (r == 0 && |arg| > nbytes ==> buf[..nbytes] == arg[..nbytes])
    {
      var pid := kernel.TopPid();
      r := args[pid].GetArgs(buf, nbytes);
    }
  }
}
