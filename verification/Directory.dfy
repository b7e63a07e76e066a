// The one directory of the file system: lookup by name, lookup by index, and enumeration.
module Directory {
  import opened Bytes
  import opened CStrings

  const NAME_MAX := 32
  const ENTRIES := 63

  datatype Dentry = Dentry(name: seq<byte>, fileType: nat, inode: nat)
  {
    // A name field need not be terminated; the type word behind it has a zero byte in any case.
    ghost predicate Valid() { |name| == NAME_MAX && fileType < 0x100_0000 }

    // The bytes strlen and strncmp see when they run over the end of the name: the little-endian type follows.
    function Field(): (r: seq<byte>)
      requires Valid()
      ensures |r| == NAME_MAX + 4 && NUL in r
    {
      var t := [fileType % 256, fileType / 256 % 256, fileType / 65536 % 256, NUL];
      assert (name + t)[NAME_MAX + 3] == NUL;
      name + t
    }

    function Name(): (r: seq<byte>)
      requires Valid()
      ensures |r| <= NAME_MAX
    {
      Text(name)
    }
  }

  datatype Entry = Entry(name: seq<byte>, fileType: nat, inode: nat)

  // Running over the end of the field only ever lengthens an unterminated name.
  lemma FieldText(d: Dentry)
    requires d.Valid()
    ensures if |d.Name()| < NAME_MAX then Text(d.Field()) == d.Name()
            else NAME_MAX <= |Text(d.Field())| && Text(d.Field())[..NAME_MAX] == d.Name()
  {
    var f, n := d.Field(), d.Name();
    if |n| < NAME_MAX {
      assert f[..|n|] == n && f[|n|] == NUL;
      TextIs(f, |n|);
    } else {
      assert f[..NAME_MAX] == n;
      TextAtLeast(f, NAME_MAX);
    }
  }

  lemma TextOfText(s: seq<byte>)
    ensures Text(Text(s)) == Text(s)
  {
    TextAtLeast(Text(s), |Text(s)|);
  }

  lemma {:induction false} TextAtLeast(s: seq<byte>, n: nat)
    requires n <= |s| && NUL !in s[..n]
    ensures n <= |Text(s)| && Text(s)[..n] == s[..n]
  {
    if n > 0 {
      assert s[..n][0] == s[0];
      assert s[1..][..n - 1] == s[..n][1..];
      TextAtLeast(s[1..], n - 1);
      assert s[..n] == [s[0]] + s[1..][..n - 1];
    }
  }

  // The length test and the bounded comparison together decide equality of names.
  lemma ComparesNames(d: Dentry, name: seq<byte>)
    requires d.Valid() && 0 < |name| <= NAME_MAX
    ensures (|name| == |Text(d.Field())| || |name| == NAME_MAX) && Cut(name, |name|) == Cut(Text(d.Field()), |name|)
            <==> name == d.Name()
  {
    FieldText(d);
    var t := Text(d.Field());
    if |d.Name()| == NAME_MAX == |name| {
      assert Cut(t, |name|) == t[..NAME_MAX];
    }
  }

  // The first entry with a given name.
  function Lookup(ds: seq<Dentry>, name: seq<byte>): (r: Option<nat>)
    requires forall d :: d in ds ==> d.Valid()
    ensures r.Some? ==> r.value < |ds|
  {
    if ds == [] then None
    else if ds[0].Name() == name then Some(0)
    else match Lookup(ds[1..], name) case None => None case Some(i) => Some(i + 1)
  }

  lemma {:induction false} LookupIs(ds: seq<Dentry>, name: seq<byte>, i: nat)
    requires forall d :: d in ds ==> d.Valid()
    requires i <= |ds| && (forall j :: 0 <= j < i ==> ds[j].Name() != name) && (i < |ds| ==> ds[i].Name() == name)
    ensures Lookup(ds, name) == if i < |ds| then Some(i) else None
  {
    if i > 0 {
      LookupIs(ds[1..], name, i - 1);
    }
  }

  // A directory as createfs writes it: the first `count` entries carry distinct names, the rest none.
  datatype Dir = Dir(count: nat, dentries: seq<Dentry>)
  {
    ghost predicate Readable() {
      |dentries| == ENTRIES && count < ENTRIES && forall d :: d in dentries ==> d.Valid()
    }

    ghost predicate Valid() {
      && Readable()
      && (forall i :: 0 <= i < count ==> dentries[i].Name() != [])
      && (forall i, j :: 0 <= i < j < count ==> dentries[i].Name() != dentries[j].Name())
      && (forall i :: count <= i < ENTRIES ==> dentries[i].Name() == [])
    }

    ghost function Names(from: nat): seq<seq<byte>>
      requires Readable() && from <= count
    {
      seq(count - from, i requires 0 <= i < count - from => dentries[from + i].Name())
    }
  }

  // What read_dentry_by_name makes of a name.
  function Find(dir: Dir, name: seq<byte>): Option<Entry>
    requires dir.Readable()
  {
    if name == [] || |name| > NAME_MAX then None
    else match Lookup(dir.dentries, name)
      case None => None
      case Some(i) => Some(Entry(name, dir.dentries[i].fileType, dir.dentries[i].inode))
  }

  // Entry i is the first with the name.
  ghost predicate IsFirst(dir: Dir, name: seq<byte>, i: nat)
    requires dir.Readable()
  {
    i < ENTRIES && dir.dentries[i].Name() == name && forall j :: 0 <= j < i ==> dir.dentries[j].Name() != name
  }

  // Looking a name up gives the type and the inode of the first entry that has it, and fails if none has. The
  // empty name and names that do not fit an entry always fail; a name that fills one is found like any other.
  lemma FindsFirst(dir: Dir, name: seq<byte>)
    requires dir.Readable()
    ensures forall i: nat :: name != [] && IsFirst(dir, name, i) ==>
              Find(dir, name) == Some(Entry(name, dir.dentries[i].fileType, dir.dentries[i].inode))
    ensures Find(dir, name).Some? <==> name != [] && exists i: nat :: IsFirst(dir, name, i)
    ensures name == [] || |name| > NAME_MAX ==> Find(dir, name) == None
  {
    if name != [] {
      if i: nat :| IsFirst(dir, name, i) {
        LookupIs(dir.dentries, name, i);
        assert |dir.dentries[i].Name()| <= NAME_MAX;
        forall j: nat | IsFirst(dir, name, j) ensures j == i {
          assert !(i < j) && !(j < i);
        }
      } else {
        NoFirst(dir, name, ENTRIES);
        LookupIs(dir.dentries, name, ENTRIES);
      }
    }
  }

  lemma OnlyFirst(dir: Dir, name: seq<byte>, i: nat)
    requires dir.Readable() && IsFirst(dir, name, i)
    ensures forall k: nat :: IsFirst(dir, name, k) ==> k == i
  {
    forall k: nat | IsFirst(dir, name, k) ensures k == i {
      assert !(i < k) && !(k < i);
    }
  }

  // The first entry with the name, or the end of the directory.
  lemma FirstEntry(dir: Dir, name: seq<byte>) returns (i: nat)
    requires dir.Readable()
    ensures i <= ENTRIES
    ensures if i < ENTRIES then IsFirst(dir, name, i) && forall k: nat :: IsFirst(dir, name, k) ==> k == i
            else !exists k: nat :: IsFirst(dir, name, k)
  {
    if k: nat :| IsFirst(dir, name, k) {
      i := k;
      OnlyFirst(dir, name, i);
    } else {
      i := ENTRIES;
    }
  }

  lemma {:induction false} NoFirst(dir: Dir, name: seq<byte>, n: nat)
    requires dir.Readable() && n <= ENTRIES && !exists i: nat :: IsFirst(dir, name, i)
    ensures forall j :: 0 <= j < n ==> dir.dentries[j].Name() != name
  {
    if n > 0 {
      NoFirst(dir, name, n - 1);
      assert !IsFirst(dir, name, n - 1);
    }
  }

  // In a directory as createfs writes it every entry is found by its name, with its own type and inode, and
  // no other name is found.
  lemma FindsEveryEntry(dir: Dir, name: seq<byte>)
    requires dir.Valid()
    ensures forall i: nat :: i < dir.count ==>
              var d := dir.dentries[i];
              Find(dir, d.Name()) == Some(Entry(d.Name(), d.fileType, d.inode))
    ensures Find(dir, name).Some? <==> name in dir.Names(0)
  {
    forall i: nat | i < dir.count
      ensures var d := dir.dentries[i]; Find(dir, d.Name()) == Some(Entry(d.Name(), d.fileType, d.inode))
    {
      assert IsFirst(dir, dir.dentries[i].Name(), i);
      FindsFirst(dir, dir.dentries[i].Name());
    }
    FindsFirst(dir, name);
    if i: nat :| i < dir.count && dir.dentries[i].Name() == name {
      assert dir.Names(0)[i] == name;
    }
  }

  // Enumeration and lookup agree: every name enumerated finds its own entry, and no other name finds any.
  lemma LookupAgrees(dir: Dir, name: seq<byte>)
    requires dir.Valid() && name != []
    ensures forall i :: 0 <= i < dir.count && dir.dentries[i].Name() == name ==> Lookup(dir.dentries, name) == Some(i)
    ensures name !in dir.Names(0) ==> Lookup(dir.dentries, name) == None
  {
    var names := dir.Names(0);
    if i: nat :| i < dir.count && dir.dentries[i].Name() == name {
      LookupIs(dir.dentries, name, i);
      assert names[i] == name;
    } else {
      LookupIs(dir.dentries, name, ENTRIES);
    }
  }

  // The test read_dentry_by_name makes of each entry.
  method SameName(fname: array<byte>, length: nat, d: Dentry) returns (same: bool)
    requires d.Valid() && NUL in fname[..] && length == |Text(fname[..])| && 0 < length <= NAME_MAX
    ensures same <==> d.Name() == Text(fname[..])
  {
    ComparesNames(d, Text(fname[..]));
    if length != |Text(d.Field())| && length != 32 {
      return false;
    }
    assert fname[0..] == fname[..];
    var cmp := Strncmp(fname, 0, d.Field(), length);
    same := cmp == 0;
  }

  // filesystem.c keeps the length of the last name it looked at.
  class DirectoryReader {
    const dir: Dir
    var fnameLength: nat

    constructor (dir: Dir)
      ensures this.dir == dir
    {
      this.dir := dir;
      fnameLength := 0;
    }

    method ReadDentryByName(fname: array?<byte>) returns (r: Option<Entry>)
      requires dir.Readable() && (fname != null ==> NUL in fname[..])
      modifies `fnameLength
      ensures r == if fname == null then None else Find(dir, Text(fname[..]))
    {
      if fname == null {
        return None;
      }
      ghost var name := Text(fname[..]);
      assert fname[0..] == fname[..];
      fnameLength := Strlen(fname, 0);
      if fnameLength > 32 || fnameLength == 0 {
        return None;
      }
      for i := 0 to ENTRIES
        invariant fnameLength == |name|
        invariant forall j :: 0 <= j < i ==> dir.dentries[j].Name() != name
      {
        var current := dir.dentries[i];
        var same := SameName(fname, fnameLength, current);
        if same {
          LookupIs(dir.dentries, name, i);
          return Some(Entry(current.name[..fnameLength], current.fileType, current.inode));
        }
      }
      LookupIs(dir.dentries, name, ENTRIES);
      return None;
    }

    // The bound lets the index one past the last entry through.
    method ReadDentryByIndex(index: nat) returns (r: Option<Entry>)
      requires dir.Readable()
      modifies `fnameLength
      ensures index > dir.count ==> r == None
      ensures index <= dir.count ==>
                var d := dir.dentries[index];
                r == Some(Entry(d.Name(), d.fileType, d.inode)) && fnameLength == |d.Name()|
    {
      if index > dir.count {
        return None;
      }
      var d := dir.dentries[index];
      FieldText(d);
      fnameLength := |Text(d.Field())|;
      if fnameLength > NAME_MAX {
        fnameLength := NAME_MAX;
      }
      assert d.Field()[..fnameLength] == d.Name();
      r := Some(Entry(d.Field()[..fnameLength], d.fileType, d.inode));
    }

    method DirectoryFileRead(offset: nat, buf: array?<byte>, length0: nat) returns (r: int, offset': nat)
      requires dir.Readable()
      requires buf != null ==> length0 <= buf.Length
      modifies `fnameLength, (if buf == null then {} else {buf})
      ensures buf == null || dir.count < offset ==> r == -1 && offset' == offset
      ensures buf != null && offset == dir.count ==> r == 0 && offset' == offset && buf[..] == old(buf[..])
      ensures buf != null && offset < dir.count ==>
                var name := dir.dentries[offset].Name();
                && r == |Cut(name, length0)| && offset' == offset + 1
                && buf[..] == Cut(name, length0) + old(buf[r..])
    {
      if buf == null {
        return -1, offset;
      }
      var dentry := ReadDentryByIndex(offset);
      if dentry == None {
        return -1, offset;
      }
      if offset >= dir.count {
        return 0, offset;
      }
      var length := length0;
      if length > NAME_MAX {
        length := NAME_MAX;
      }
      if fnameLength < length {
        length := fnameLength;
      }
      TextOfText(dir.dentries[offset].name);
      Strncpy(buf, dentry.value.name, length);
      return length, offset + 1;
    }

    // ls: read names until there are none left.
    method List(buf: array<byte>) returns (names: seq<seq<byte>>)
      requires dir.Valid() && NAME_MAX <= buf.Length
      modifies `fnameLength, buf
      ensures names == dir.Names(0)
    {
      names := [];
      var offset: nat := 0;
      var cnt;
      cnt, offset := DirectoryFileRead(offset, buf, NAME_MAX);
      while cnt != 0
        invariant |names| <= dir.count
        invariant names == dir.Names(0)[..|names|]
        invariant if cnt == 0 then |names| == offset == dir.count
                  else |names| + 1 == offset <= dir.count && 0 < cnt <= NAME_MAX
                       && buf[..cnt] == dir.dentries[|names|].Name()
        decreases dir.count - |names|
      {
        names := names + [buf[..cnt]];
        cnt, offset := DirectoryFileRead(offset, buf, NAME_MAX);
      }
    }
  }
}
