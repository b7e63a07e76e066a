// The lines of a text: the reference notion both the console and grep are measured against.
module Lines {
  import opened Bytes

  // The maximal stretches of s between bytes of `ends`. There is always at least one, possibly empty.
  function Split(s: seq<byte>, ends: set<byte>): (r: seq<seq<byte>>)
    ensures |r| >= 1
  {
    if s == [] then [[]]
    else
      var r := Split(s[1..], ends);
      if s[0] in ends then [[]] + r else [[s[0]] + r[0]] + r[1..]
  }

  function Join(ls: seq<seq<byte>>, end: byte): seq<byte>
    requires |ls| >= 1
  {
    if |ls| == 1 then ls[0] else ls[0] + [end] + Join(ls[1..], end)
  }

  // Splitting loses nothing and never leaves an end of line inside a line.
  lemma {:induction false} SplitJoin(s: seq<byte>, end: byte)
    ensures Join(Split(s, {end}), end) == s
    ensures forall l :: l in Split(s, {end}) ==> end !in l
  {
    if s != [] {
      SplitJoin(s[1..], end);
      var r := Split(s[1..], {end});
      if s[0] == end {
        assert ([[]] + r)[1..] == r;
      } else {
        var r' := [[s[0]] + r[0]] + r[1..];
        assert r'[1..] == r[1..];
        assert Join(r', end) == [s[0]] + Join(r, end);
      }
    }
  }

  // A first line without an end of line, followed by one, splits off.
  lemma {:induction false} SplitFirst(line: seq<byte>, end: byte, rest: seq<byte>)
    requires end !in line
    ensures Split(line + [end] + rest, {end}) == [line] + Split(rest, {end})
  {
    var s := line + [end] + rest;
    if line == [] {
      assert s[1..] == rest;
    } else {
      SplitFirst(line[1..], end, rest);
      assert s[1..] == line[1..] + [end] + rest;
      assert [s[0]] + line[1..] == line;
    }
  }

  lemma {:induction false} SplitSingle(line: seq<byte>, end: byte)
    requires end !in line
    ensures Split(line, {end}) == [line]
  {
    if line != [] {
      SplitSingle(line[1..], end);
      assert [line[0]] + line[1..] == line;
    }
  }

  // Appending one byte either opens an empty line or lengthens the last line.
  lemma {:induction false} SplitSnoc(s: seq<byte>, c: byte, ends: set<byte>)
    ensures Split(s + [c], ends) ==
            var r := Split(s, ends);
            if c in ends then r + [[]] else r[..|r| - 1] + [r[|r| - 1] + [c]]
  {
    if s == [] {
      assert s + [c] == [c] && [c][1..] == [];
      assert [c] + [] == [c] == [] + [c];
    } else {
      SplitSnoc(s[1..], c, ends);
      assert (s + [c])[1..] == s[1..] + [c];
      var r, r' := Split(s[1..], ends), Split(s[1..] + [c], ends);
      if s[0] !in ends && |r| == 1 && c !in ends {
        assert [s[0]] + (r[0] + [c]) == [s[0]] + r[0] + [c];
      }
    }
  }
}
