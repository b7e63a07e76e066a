// NUL-terminated strings in byte arrays, and the library loops over them.
module CStrings {
  import opened Bytes

  // The string that starts at the front of s: everything before the first NUL.
  function Text(s: seq<byte>): (r: seq<byte>)
    ensures |r| <= |s| && r == s[..|r|] && NUL !in r
    ensures |r| < |s| ==> s[|r|] == NUL
  {
    if s == [] || s[0] == NUL then [] else [s[0]] + Text(s[1..])
  }

  lemma {:induction false} TextIs(s: seq<byte>, n: nat)
    requires n < |s| && s[n] == NUL && NUL !in s[..n]
    ensures Text(s) == s[..n]
  {
    if n > 0 {
      assert s[..n][0] == s[0];
      assert s[1..][..n - 1] == s[..n][1..];
      TextIs(s[1..], n - 1);
      assert s[..n] == [s[0]] + s[1..][..n - 1];
    }
  }

  function Cut(s: seq<byte>, n: nat): seq<byte> { if |s| <= n then s else s[..n] }

  method Strlen(s: array<byte>, at: nat) returns (len: nat)
    requires at <= s.Length && NUL in s[at..]
    ensures len == |Text(s[at..])|
  {
    len := 0;
    while s[at + len] != NUL
      invariant at + len < s.Length
      invariant NUL !in s[at..at + len] && NUL in s[at + len..]
      decreases s.Length - len
    {
      assert s[at..at + len + 1] == s[at..at + len] + [s[at + len]];
      assert s[at + len..][1..] == s[at + len + 1..];
      len := len + 1;
    }
    assert s[at..][..len] == s[at..at + len];
    TextIs(s[at..], len);
  }

  // The first i characters of `t` stand at `dst`.
  function Copying(before: seq<byte>, dst: nat, t: seq<byte>, i: nat): (r: seq<byte>)
    requires i <= |t| && dst + |t| <= |before|
    ensures |r| == |before|
  {
    before[..dst] + t[..i] + before[dst + i..]
  }

  // The string `t` and its NUL stand at `dst`.
  function Copied(before: seq<byte>, dst: nat, t: seq<byte>): (r: seq<byte>)
    requires dst + |t| < |before|
    ensures |r| == |before|
  {
    before[..dst] + t + [NUL] + before[dst + |t| + 1..]
  }

  // ece391_strcpy, forwards, also onto an overlapping earlier place.
  method Strcpy(s: array<byte>, dst: nat, src: nat)
    requires dst < src <= s.Length && NUL in s[src..]
    modifies s
    ensures s[..] == old(Copied(s[..], dst, Text(s[src..])))
  {
    ghost var t := Text(s[src..]);
    assert s[src..][..|t|] == s[src..src + |t|] && s[src..][|t|] == s[src + |t|];
    CopyText(s, dst, src, t);
  }

  method CopyText(s: array<byte>, dst: nat, src: nat, ghost t: seq<byte>)
    requires dst < src && src + |t| < s.Length && s[src..src + |t|] == t && NUL !in t && s[src + |t|] == NUL
    modifies s
    ensures s[..] == old(Copied(s[..], dst, t))
  {
    ghost var before := s[..];
    var i := 0;
    while s[src + i] != NUL
      invariant i <= |t|
      invariant s[..] == Copying(before, dst, t, i)
      decreases |t| - i
    {
      CopyNext(before, dst, src, t, i);
      s[dst + i] := s[src + i];
      i := i + 1;
    }
    CopyNext(before, dst, src, t, i);
    s[dst + i] := s[src + i];
  }

  // The byte the copy reads next is still the original one.
  lemma CopyNext(before: seq<byte>, dst: nat, src: nat, t: seq<byte>, i: nat)
    requires dst < src && src + |t| < |before| && before[src..src + |t|] == t && i <= |t| && NUL !in t
    ensures var s := Copying(before, dst, t, i);
            && s[src + i] == before[src + i]
            && (i < |t| ==> s[src + i] == t[i] != NUL && s[dst + i := t[i]] == Copying(before, dst, t, i + 1))
            && (i == |t| ==> s[dst + i := NUL] == Copied(before, dst, t))
  {
    assert i < |t| ==> before[src + i] == t[i];
  }

  // The strings agree on their first i characters, and neither has ended there.
  ghost predicate Agree(s: seq<byte>, p: seq<byte>, i: nat)
  {
    i <= |Text(s)| && i <= |Text(p)| && Text(s)[..i] == Text(p)[..i]
  }

  lemma AgreeNext(s: seq<byte>, p: seq<byte>, i: nat)
    requires NUL in s && NUL in p && Agree(s, p, i)
    ensures i < |s| && i < |p|
    ensures s[i] == p[i] != NUL ==> Agree(s, p, i + 1)
    ensures s[i] == p[i] == NUL ==> Text(s) == Text(p)
  {
    var a, b := Text(s), Text(p);
    assert |a| < |s| && |b| < |p|;
    if s[i] == p[i] != NUL {
      assert a[..i + 1] == a[..i] + [a[i]] && b[..i + 1] == b[..i] + [b[i]];
    } else if s[i] == p[i] {
      assert a == a[..i] && b == b[..i];
    }
  }

  // strncmp is zero exactly when the strings agree on their first n characters.
  method Strncmp(s: array<byte>, at: nat, p: seq<byte>, n: nat) returns (r: int)
    requires at <= s.Length && NUL in s[at..] && NUL in p
    ensures r == 0 <==> Cut(Text(s[at..]), n) == Cut(Text(p), n)
  {
    ghost var t := s[at..];
    for i := 0 to n
      invariant Agree(t, p, i)
    {
      AgreeNext(t, p, i);
      assert t[i] == s[at + i];
      if s[at + i] != p[i] || s[at + i] == NUL {
        if t[i] != p[i] {
          CutsDiffer(t, p, i, n);
        }
        return Signed(s[at + i]) - Signed(p[i]);
      }
    }
    return 0;
  }

  // A char is signed.
  function Signed(c: byte): (r: int)
    ensures -128 <= r < 128 && (r - c) % 256 == 0
  {
    if c < 128 then c else c - 256
  }

  // ece391_strncmp, likewise.
  method UserStrncmp(s: array<byte>, at: nat, p: seq<byte>, n: nat) returns (r: int)
    requires at <= s.Length && NUL in s[at..] && NUL in p
    ensures r == 0 <==> Cut(Text(s[at..]), n) == Cut(Text(p), n)
  {
    if n == 0 {
      return 0;
    }
    ghost var t := s[at..];
    ghost var a, b := Text(t), Text(p);
    assert |a| < |t| && |b| < |p|;
    var i, left := 0, n;
    while s[at + i] == p[i]
      invariant left == n - i > 0 && i <= |a| && i <= |b| && a[..i] == b[..i]
      decreases left
    {
      assert t[i] == s[at + i];
      AgreeNext(t, p, i);
      if s[at + i] == NUL {
        assert a == b;
        return 0;
      }
      left := left - 1;
      i := i + 1;
      if left == 0 {
        AgreeCut(t, p, n);
        return 0;
      }
    }
    assert t[i] == s[at + i];
    CutsDiffer(t, p, i, n);
    var c: int, d: int := s[at + i], p[i];
    r := c - d;
  }

  lemma AgreeCut(s: seq<byte>, p: seq<byte>, n: nat)
    requires Agree(s, p, n)
    ensures Cut(Text(s), n) == Cut(Text(p), n)
  {
    CutFront(Text(s), n);
    CutFront(Text(p), n);
  }

  lemma CutFront(a: seq<byte>, n: nat)
    requires n <= |a|
    ensures Cut(a, n) == a[..n]
  {
  }

  lemma CutsDiffer(s: seq<byte>, p: seq<byte>, i: nat, n: nat)
    requires i <= |Text(s)| && i <= |Text(p)| && i < n && i < |s| && i < |p| && s[i] != p[i]
    ensures Cut(Text(s), n) != Cut(Text(p), n)
  {
    var a, b := Text(s), Text(p);
    assert i < |a| ==> Cut(a, n)[i] == s[i];
    assert i < |b| ==> Cut(b, n)[i] == p[i];
    assert i == |a| ==> s[i] == NUL && |Cut(a, n)| == i;
    assert i == |b| ==> p[i] == NUL && |Cut(b, n)| == i;
  }

  // strncpy: the first n characters of src, filled up with NULs.
  method Strncpy(dst: array<byte>, src: seq<byte>, n: nat)
    requires n <= dst.Length
    modifies dst
    ensures var t := Cut(Text(src), n);
            dst[..|t|] == t && (forall k :: |t| <= k < n ==> dst[k] == NUL) && dst[n..] == old(dst[n..])
  {
    ghost var text, t := Text(src), Cut(Text(src), n);
    var i := 0;
    while i < n && i < |src| && src[i] != NUL
      invariant i <= |t| && dst[..i] == t[..i] && dst[n..] == old(dst[n..])
    {
      assert i < |text| && text[i] == src[i] == t[i];
      dst[i] := src[i];
      i := i + 1;
    }
    assert i == |t|;
    while i < n
      invariant |t| <= i <= n && dst[..|t|] == t && dst[n..] == old(dst[n..])
      invariant forall k :: |t| <= k < i ==> dst[k] == NUL
    {
      dst[i] := NUL;
      i := i + 1;
    }
  }
}
