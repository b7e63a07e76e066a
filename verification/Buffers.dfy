// Buffers, and copying into them.
module Buffers {
  import opened Bytes

  // A buffer with `part` written from index `at` on.
  function Filled(before: seq<byte>, at: nat, part: seq<byte>): (r: seq<byte>)
    requires at + |part| <= |before|
    ensures |r| == |before|
  {
    before[..at] + part + before[at + |part|..]
  }

  lemma FilledFront(before: seq<byte>, part: seq<byte>)
    requires |part| <= |before|
    ensures Filled(before, 0, part)[..|part|] == part
  {
  }

  lemma FilledNothing(before: seq<byte>, at: nat)
    requires at <= |before|
    ensures Filled(before, at, []) == before
  {
  }

  lemma ExtendFilled(before: seq<byte>, at: nat, whole: seq<byte>, done: nat, p: nat)
    requires done + p <= |whole| && at + |whole| <= |before|
    ensures Filled(Filled(before, at, whole[..done]), at + done, whole[done..][..p])
            == Filled(before, at, whole[..done + p])
  {
    assert whole[..done + p] == whole[..done] + whole[done..][..p];
  }

  method MemCopy(dst: array<byte>, at: nat, src: seq<byte>, from: nat, n: nat)
    requires at + n <= dst.Length && (n == 0 || from + n <= |src|)
    modifies dst
    ensures dst[..] == if n == 0 then old(dst[..]) else Filled(old(dst[..]), at, src[from..from + n])
  {
    ghost var before := dst[..];
    for i := 0 to n
      invariant forall k :: 0 <= k < at || at + i <= k < dst.Length ==> dst[k] == before[k]
      invariant forall k :: at <= k < at + i ==> dst[k] == src[from + (k - at)]
    {
      dst[at + i] := src[from + i];
    }
    if n > 0 {
      assert dst[..] == Filled(before, at, src[from..from + n]);
    } else {
      assert dst[..] == before;
    }
  }
}
