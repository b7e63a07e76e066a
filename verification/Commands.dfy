// Command lines: how execute cuts one into a program name and its arguments, and how getargs
// hands the arguments to the program.
module Commands {
  import opened Bytes
  import opened CStrings
  import opened Buffers

  const TAB: byte := 9
  const CMD_LENGTH := 128
  const NAME_LENGTH := 32

  datatype Parsed = Parsed(name: seq<byte>, arg: seq<byte>)

  // NUL, tab, newline and carriage return.
  const LINE_ENDS: set<byte> := {0, 9, 10, 13}

  predicate EndsLine(c: byte) { c == NUL || c == NEWLINE || c == TAB || c == RETURN }

  // A space ends a word, but not a line.
  predicate Stops(c: byte, word: bool) { EndsLine(c) || (word && c == SPACE) }

  // ---- What a command line means ----

  // The first place from i on that holds no space.
  function Skip(s: seq<byte>, i: nat): (r: nat)
    requires i <= |s|
    ensures i <= r <= |s| && (forall k :: i <= k < r ==> s[k] == SPACE) && (r < |s| ==> s[r] != SPACE)
    decreases |s| - i
  {
    if i < |s| && s[i] == SPACE then Skip(s, i + 1) else i
  }

  // The first stop from i on.
  function Stop(s: seq<byte>, i: nat, word: bool): (r: nat)
    requires i <= |s|
    ensures i <= r <= |s| && (forall k :: i <= k < r ==> !Stops(s[k], word)) && (r < |s| ==> Stops(s[r], word))
    decreases |s| - i
  {
    if i < |s| && !Stops(s[i], word) then Stop(s, i + 1, word) else i
  }

  // The arguments stop at the end of the line or at the 128th byte of the whole command.
  function Argument(s: seq<byte>, i: nat): seq<byte>
    requires i <= |s|
  {
    var j := Skip(s, i);
    Cut(s[j..Stop(s, j, false)], Room(j))
  }

  function Parse(s: seq<byte>): (r: Option<Parsed>)
  {
    var a := Skip(s, 0);
    var i := Stop(s, a, true);
    if i == a || i - a > NAME_LENGTH then None else Some(Parsed(s[a..i], Argument(s, i)))
  }

  function Room(from: nat): nat { if from < CMD_LENGTH then CMD_LENGTH - from else 0 }

  ghost predicate IsName(name: seq<byte>) {
    0 < |name| <= 32 && forall k :: 0 <= k < |name| ==> name[k] !in LINE_ENDS && name[k] != SPACE
  }

  // Arguments do not begin with a space, but may hold spaces and end in them.
  ghost predicate IsArg(arg: seq<byte>) {
    (forall k :: 0 <= k < |arg| ==> arg[k] !in LINE_ENDS) && (arg != [] ==> arg[0] != SPACE)
  }

  function Blanks(n: nat): (r: seq<byte>)
    ensures |r| == n
  {
    seq(n, _ => SPACE)
  }

  // Spaces, a name, spaces, arguments, then `rest`.
  function Line(a: nat, name: seq<byte>, b: nat, arg: seq<byte>, rest: seq<byte>): (r: seq<byte>)
    ensures |r| == a + |name| + b + |arg| + |rest|
  {
    Blanks(a) + name + Blanks(b) + arg + rest
  }

  // The end of the line comes next; a name and arguments are set apart.
  ghost predicate Proper(name: seq<byte>, b: nat, arg: seq<byte>, rest: seq<byte>)
  {
    IsName(name) && IsArg(arg) && (arg != [] ==> b > 0) && rest != [] && rest[0] in LINE_ENDS
  }

  // s[a..i] is a name between spaces, s[j..n] the arguments.
  ghost predicate Parts(s: seq<byte>, a: nat, i: nat, j: nat, n: nat)
  {
    && a < i <= j <= n < |s|
    && (forall k :: 0 <= k < a || i <= k < j ==> s[k] == SPACE)
    && (forall k :: a <= k < i ==> !Stops(s[k], true)) && Stops(s[i], true)
    && s[j] != SPACE
    && (forall k :: j <= k < n ==> !Stops(s[k], false)) && Stops(s[n], false)
  }

  lemma PartsParse(s: seq<byte>, a: nat, i: nat, j: nat, n: nat)
    requires Parts(s, a, i, j, n) && i - a <= NAME_LENGTH
    ensures Parse(s) == Some(Parsed(s[a..i], Cut(s[j..n], Room(j))))
  {
    assert !Stops(s[a], true);
    assert Skip(s, 0) == a;
    assert Stop(s, a, true) == i;
    assert Skip(s, i) == j;
    assert Stop(s, j, false) == n;
  }

  lemma ParsedHasParts(s: seq<byte>) returns (a: nat, i: nat, j: nat, n: nat)
    requires Parse(s).Some? && NUL in s
    ensures Parts(s, a, i, j, n) && i - a <= NAME_LENGTH
    ensures Parse(s) == Some(Parsed(s[a..i], Cut(s[j..n], Room(j))))
  {
    a := Skip(s, 0);
    i := Stop(s, a, true);
    j := Skip(s, i);
    n := Stop(s, j, false);
    EndFound(s);
  }

  // A proper line comes apart again, the arguments cut to what fits.
  lemma LineParses(a: nat, name: seq<byte>, b: nat, arg: seq<byte>, rest: seq<byte>)
    requires Proper(name, b, arg, rest)
    ensures var from := a + |name| + b;
            Parse(Line(a, name, b, arg, rest)) == Some(Parsed(name, Cut(arg, if from < 128 then 128 - from else 0)))
  {
    LineComesApart(a, name, b, arg, rest);
  }

  lemma LineComesApart(a: nat, name: seq<byte>, b: nat, arg: seq<byte>, rest: seq<byte>)
    requires Proper(name, b, arg, rest)
    ensures Parse(Line(a, name, b, arg, rest)) == Some(Parsed(name, Cut(arg, Room(a + |name| + b))))
  {
    var s := Line(a, name, b, arg, rest);
    var i := a + |name|;
    var j := i + b;
    assert s[a..i] == name && s[j..j + |arg|] == arg by {
      LineAt(a, name, b, arg, rest);
    }
    assert Parse(s) == Some(Parsed(s[a..i], Cut(s[j..j + |arg|], Room(j)))) by {
      LineHasParts(a, name, b, arg, rest);
      PartsParse(s, a, i, j, j + |arg|);
    }
  }

  lemma LineHasParts(a: nat, name: seq<byte>, b: nat, arg: seq<byte>, rest: seq<byte>)
    requires Proper(name, b, arg, rest)
    ensures Parts(Line(a, name, b, arg, rest), a, a + |name|, a + |name| + b, a + |name| + b + |arg|)
  {
    var s, j := Line(a, name, b, arg, rest), a + |name| + b;
    LineAt(a, name, b, arg, rest);
    assert arg == [] ==> s[j] == rest[0];
    assert arg != [] ==> s[j] == arg[0];
    assert b == 0 ==> s[a + |name|] == rest[0];
  }

  lemma LineAt(a: nat, name: seq<byte>, b: nat, arg: seq<byte>, rest: seq<byte>)
    ensures var s, i, j, n := Line(a, name, b, arg, rest), a + |name|, a + |name| + b, a + |name| + b + |arg|;
            && s[a..i] == name && s[j..n] == arg && s[n..] == rest
            && (forall k :: 0 <= k < a || i <= k < j ==> s[k] == SPACE)
            && (forall k :: a <= k < i ==> s[k] == name[k - a])
            && (forall k :: j <= k < n ==> s[k] == arg[k - j])
            && (rest != [] ==> s[n] == rest[0])
  {
  }

  // Only proper lines parse. With LineParses: exactly which commands are accepted, and how each is read.
  lemma ParsedIsLine(s: seq<byte>) returns (a: nat, i: nat, j: nat, n: nat)
    requires Parse(s).Some? && NUL in s
    ensures a < i <= j <= n < |s| && Proper(s[a..i], j - i, s[j..n], s[n..])
    ensures s == Line(a, s[a..i], j - i, s[j..n], s[n..])
    ensures Parse(s) == Some(Parsed(s[a..i], Cut(s[j..n], if j < 128 then 128 - j else 0)))
  {
    a, i, j, n := ParsedHasParts(s);
    assert Proper(s[a..i], j - i, s[j..n], s[n..]) by {
      PartsAreProper(s, a, i, j, n);
    }
    assert s == Line(a, s[a..i], j - i, s[j..n], s[n..]) by {
      IsLine(s, a, i, j, n);
    }
    assert Room(j) == if j < 128 then 128 - j else 0;
  }

  lemma PartsAreProper(s: seq<byte>, a: nat, i: nat, j: nat, n: nat)
    requires Parts(s, a, i, j, n) && i - a <= NAME_LENGTH
    ensures Proper(s[a..i], j - i, s[j..n], s[n..])
  {
    var name, arg := s[a..i], s[j..n];
    assert forall k :: 0 <= k < |name| ==> name[k] == s[a + k];
    assert forall k :: 0 <= k < |arg| ==> arg[k] == s[j + k];
  }

  lemma IsLine(s: seq<byte>, a: nat, i: nat, j: nat, n: nat)
    requires a <= i <= j <= n <= |s| && forall k :: 0 <= k < a || i <= k < j ==> s[k] == SPACE
    ensures s == Line(a, s[a..i], j - i, s[j..n], s[n..])
  {
    assert s[..a] == Blanks(a) && s[i..j] == Blanks(j - i);
    assert s[..i] == s[..a] + s[a..i];
    assert s[..j] == s[..i] + s[i..j];
    assert s[..n] == s[..j] + s[j..n];
    assert s == s[..n] + s[n..];
  }

  // The scan never runs past the end of the line.
  lemma EndFound(s: seq<byte>)
    requires NUL in s
    ensures var a := Skip(s, 0);
            var i := Stop(s, a, true);
            var j := Skip(s, i);
            a <= i <= j <= Stop(s, j, false) < |s|
  {
    var z :| 0 <= z < |s| && s[z] == NUL;
    assert z >= Skip(s, 0);
    assert z >= Stop(s, Skip(s, 0), true);
  }

  // ---- systemcall.c ----

  // The command from `from` is copied to the front of `buf` up to a stop, or until there is no room left.
  method CopyWord(command: array<byte>, from: nat, word: bool, room: nat, buf: array<byte>) returns (n: nat)
    requires buf != command && from <= command.Length && Stop(command[..], from, word) < command.Length
    requires |Cut(command[from..Stop(command[..], from, word)], room)| <= buf.Length
    modifies buf
    ensures var w := Cut(command[from..Stop(command[..], from, word)], room);
            n == |w| && buf[..n] == w && buf[n..] == old(buf[n..])
  {
    ghost var end := Stop(command[..], from, word);
    assert Stops(command[..][end], word);
    n := 0;
    while n < room && !Stops(command[from + n], word)
      invariant from + n <= end && n <= room
      invariant forall k :: 0 <= k < n ==> buf[k] == command[..][from + k]
      invariant forall k :: n <= k < buf.Length ==> buf[k] == old(buf[k])
    {
      buf[n] := command[from + n];
      n := n + 1;
    }
    assert n < room ==> from + n == end by {
      if from + n < end { assert !Stops(command[..][from + n], word); }
    }
    assert buf[..n] == command[from..end][..n];
    CutIs(command[from..end], room, n);
  }

  lemma CutIs(s: seq<byte>, room: nat, n: nat)
    requires n <= |s| && n <= room && (n == |s| || n == room)
    ensures Cut(s, room) == s[..n]
  {
  }

  method SkipSpaces(command: array<byte>, from: nat) returns (i: nat)
    requires from <= command.Length && Skip(command[..], from) < command.Length
    ensures i == Skip(command[..], from)
  {
    i := from;
    while command[i] == SPACE
      invariant from <= i <= Skip(command[..], from)
      decreases command.Length - i
    {
      i := i + 1;
    }
  }

  method Terminate(buf: array<byte>, n: nat)
    requires n < buf.Length && NUL !in buf[..n]
    modifies buf
    ensures NUL in buf[..] && Text(buf[..]) == old(buf[..n])
  {
    buf[n] := NUL;
    assert buf[..][n] == NUL && buf[..][..n] == old(buf[..n]);
    TextIs(buf[..], n);
  }

  // The name is copied before its length is checked.
  ghost predicate NameFits(s: seq<byte>)
  {
    var a := Skip(s, 0);
    Stop(s, a, true) - a <= CMD_LENGTH
  }

  // The parsing half of execute: the name and the arguments become strings in two buffers.
  method ParseCommand(command: array?<byte>, filename: array<byte>, argBuf: array<byte>) returns (ok: bool)
    requires filename != argBuf && filename.Length == argBuf.Length == CMD_LENGTH
    requires command != null ==> command != filename && command != argBuf && NUL in command[..]
    requires command != null ==> NameFits(command[..])
    modifies filename, argBuf
    ensures ok <==> command != null && Parse(command[..]).Some?
    ensures ok ==> (NUL in filename[..] && NUL in argBuf[..]
                    && Parse(command[..]).value == Parsed(Text(filename[..]), Text(argBuf[..])))
  {
    if command == null || EndsLine(command[0]) {
      return false;
    }
    ghost var s := command[..];
    EndFound(s);
    var a := SkipSpaces(command, 0);
    if EndsLine(command[a]) {
      return false;
    }
    ParseFrom(s, a, Stop(s, a, true));
    ok := CopyParts(command, a, filename, argBuf);
  }

  // From the first character of the name on.
  method CopyParts(command: array<byte>, a: nat, filename: array<byte>, argBuf: array<byte>) returns (ok: bool)
    requires filename != argBuf && filename.Length == argBuf.Length == CMD_LENGTH
    requires command != filename && command != argBuf
    requires a == Skip(command[..], 0) <= Stop(command[..], a, true) <= a + CMD_LENGTH
    requires Stop(command[..], Skip(command[..], Stop(command[..], a, true)), false) < command.Length
    requires !EndsLine(command[a])
    modifies filename, argBuf
    ensures command[..] == old(command[..])
    ensures var i := Stop(command[..], a, true);
            && (ok <==> i - a <= NAME_LENGTH)
            && (ok ==> NUL in filename[..] && Text(filename[..]) == command[a..i])
            && (ok ==> NUL in argBuf[..] && Text(argBuf[..]) == Argument(command[..], i))
  {
    ghost var s := command[..];
    var n := CopyName(command, a, filename);
    assert command[..] == s;
    if n > NAME_LENGTH {
      return false;
    }
    CopyArg(command, a + n, argBuf);
    assert command[..] == s;
    ok := true;
  }

  lemma ParseFrom(s: seq<byte>, a: nat, i: nat)
    requires a == Skip(s, 0) < |s| && !EndsLine(s[a]) && i == Stop(s, a, true)
    ensures a < i
    ensures Parse(s).Some? <==> i - a <= NAME_LENGTH
    ensures Parse(s).Some? ==> Parse(s).value.name == s[a..i] && Parse(s).value.arg == Argument(s, i)
  {
    assert !Stops(s[a], true);
  }

  // The name, which is terminated unless it is too long.
  method CopyName(command: array<byte>, a: nat, filename: array<byte>) returns (n: nat)
    requires filename.Length == CMD_LENGTH && command != filename
    requires a <= command.Length && Stop(command[..], a, true) <= a + CMD_LENGTH
    requires Stop(command[..], a, true) < command.Length
    modifies filename
    ensures a + n == Stop(command[..], a, true)
    ensures n <= NAME_LENGTH ==> NUL in filename[..] && Text(filename[..]) == command[a..a + n]
  {
    n := CopyWord(command, a, true, command.Length, filename);
    if n <= NAME_LENGTH {
      assert NUL !in filename[..n];
      Terminate(filename, n);
    }
  }

  // Behind the name, from `i` on.
  method CopyArg(command: array<byte>, i: nat, argBuf: array<byte>)
    requires argBuf.Length == CMD_LENGTH && command != argBuf
    requires 0 < i <= command.Length && Stop(command[..], Skip(command[..], i), false) < command.Length
    modifies argBuf
    ensures NUL in argBuf[..] && Text(argBuf[..]) == Argument(command[..], i)
  {
    var b := SkipSpaces(command, i);
    var m := CopyWord(command, b, false, Room(b), argBuf);
    Terminate(argBuf, m);
  }

  // A copy that includes the NUL is the same string.
  lemma StringCopied(before: seq<byte>, s: seq<byte>, n: nat)
    requires NUL in s && 0 < n <= |before| && n <= |Text(s)| + 1
    ensures var b := Filled(before, 0, s[0..n]);
            if n == |Text(s)| + 1 then NUL in b && Text(b) == Text(s) else b[..n] == Text(s)[..n]
  {
    var b, text := Filled(before, 0, s[0..n]), Text(s);
    assert b[..n] == s[..n] by {
      FilledFront(before, s[0..n]);
    }
    if n == |text| + 1 {
      SameString(b, s, n - 1);
    } else {
      assert s[..n] == s[..|text|][..n];
    }
  }

  lemma SameString(b: seq<byte>, s: seq<byte>, n: nat)
    requires n < |b| && n < |s| && b[..n + 1] == s[..n + 1] && n == |Text(s)|
    ensures NUL in b && Text(b) == Text(s)
  {
    assert b[n] == b[..n + 1][n] == s[..n + 1][n] == NUL;
    assert b[..n] == b[..n + 1][..n] == s[..n + 1][..n] == s[..n];
    TextIs(b, n);
  }

  // What a process keeps of its command line, and getargs.
  class Arguments {
    const arg: array<byte>

    ghost predicate Valid()
      reads arg
    {
      arg.Length == CMD_LENGTH && NUL in arg[..]
    }

    ghost function Value(): seq<byte>
      reads arg
      requires Valid()
    {
      Text(arg[..])
    }

    // The process block starts zeroed.
    constructor ()
      ensures Valid() && Value() == [] && fresh(arg)
    {
      arg := new byte[CMD_LENGTH](_ => NUL);
      new;
      assert arg[..][0] == NUL;
    }

    // The arguments are stored when the process is created.
    method Store(argBuf: array<byte>)
      requires Valid() && argBuf != arg && argBuf.Length == CMD_LENGTH && NUL in argBuf[..]
      modifies arg
      ensures Valid() && Value() == Text(argBuf[..])
    {
      ghost var t := Text(argBuf[..]);
      var l := 0;
      while argBuf[l] != NUL
        invariant l <= |t| < CMD_LENGTH && arg[..l] == t[..l]
        decreases |t| - l
      {
        assert argBuf[..][l] == argBuf[l];
        arg[l] := argBuf[l];
        l := l + 1;
      }
      assert l == |t|;
      Terminate(arg, l);
    }

    // A halting child leaves its parent without arguments.
    method Clear()
      requires arg.Length == CMD_LENGTH
      modifies arg
      ensures Valid() && Value() == []
    {
      for i := 0 to CMD_LENGTH
        invariant forall k :: 0 <= k < i ==> arg[k] == NUL
      {
        arg[i] := NUL;
      }
      assert arg[..][0] == NUL;
    }

    // All of the arguments and a NUL if they fit, as much as was asked for if they do not.
    method GetArgs(buf: array?<byte>, nbytes: int) returns (r: int)
      requires Valid() && buf != arg
      requires buf != null && nbytes > 0 ==> buf.Length >= if |Value()| <= nbytes then |Value()| + 1 else nbytes
      modifies buf
      ensures Valid() && Value() == old(Value())
      ensures r == 0 <==> buf != null && nbytes > 0 && Value() != []
      ensures r == 0 && |Value()| <= nbytes ==> NUL in buf[..] && Text(buf[..]) == Value()
      ensures r == 0 && |Value()| > nbytes ==> buf[..nbytes] == Value()[..nbytes]
      ensures r != 0 ==> r == -1 && (buf != null ==> buf[..] == old(buf[..]))
    {
      if buf == null || nbytes <= 0 {
        return -1;
      }
      var length := Strlen(arg, 0);
      if length == 0 {
        return -1;
      }
      var n := if length <= nbytes then length + 1 else nbytes;
      ghost var before, s := buf[..], arg[..];
      assert s[0..] == s;
      StringCopied(before, s, n);
      MemCopy(buf, 0, arg[..], 0, n);
      r := 0;
    }
  }
}
