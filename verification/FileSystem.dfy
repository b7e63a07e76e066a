// The read path of the block file system: file data scattered over 4 KB blocks, read by offset.
module FileSystem {
  import opened Bytes
  import opened Buffers

  const BLOCK := 4096
  const MAX_BLOCKS := 1023
  const UINT32 := 0x1_0000_0000

  datatype Inode = Inode(length: nat, blocks: seq<nat>)

  // `data` is the physical memory from the first data block on, to the end of memory.
  datatype Image = Image(inodes: seq<Inode>, data: seq<byte>)

  function Used(f: Inode): nat { (f.length + BLOCK - 1) / BLOCK }

  // The file's blocks are in memory, and there is memory behind them: `size` bytes of it in all.
  ghost predicate FileOk(f: Inode, size: nat)
  {
    && |f.blocks| == MAX_BLOCKS && f.length <= MAX_BLOCKS * BLOCK
    && forall k :: 0 <= k < Used(f) ==> (f.blocks[k] + 2) * BLOCK <= size
  }

  ghost predicate ImageOk(img: Image)
  {
    0 < |img.inodes| < UINT32 && forall k :: 0 <= k < |img.inodes| ==> FileOk(img.inodes[k], |img.data|)
  }

  // Where byte j of the file is.
  function Address(f: Inode, j: nat): nat
    requires |f.blocks| == MAX_BLOCKS && j < MAX_BLOCKS * BLOCK
  {
    f.blocks[j / BLOCK] * BLOCK + j % BLOCK
  }

  lemma AddressInData(f: Inode, size: nat, j: nat)
    requires FileOk(f, size) && j < f.length
    ensures Address(f, j) + BLOCK <= size && j / BLOCK < Used(f)
  {
  }

  // The file as the flat sequence of bytes it stands for.
  ghost function Flat(f: Inode, data: seq<byte>): (r: seq<byte>)
    requires FileOk(f, |data|)
    ensures |r| == f.length
  {
    seq(f.length, j requires 0 <= j < f.length => (AddressInData(f, |data|, j); data[Address(f, j)]))
  }

  // How much a read of `length` bytes at `offset` yields.
  function Available(f: Inode, offset: nat, length: nat): nat
    requires offset < f.length
  {
    if offset + length > f.length then f.length - offset else length
  }

  // A read shorter than a block that crosses into the next one.
  predicate Straddles(offset: nat, n: nat) { n < BLOCK && offset % BLOCK + n > BLOCK }

  // What a read of n bytes delivers: the bytes of the file, unless it straddles two blocks: then it
  // runs on in physical memory behind the first.
  ghost function Delivered(f: Inode, data: seq<byte>, offset: nat, n: nat): (r: seq<byte>)
    requires FileOk(f, |data|) && offset < f.length && offset + n <= f.length
    ensures |r| == n
  {
    if Straddles(offset, n) then
      AddressInData(f, |data|, offset);
      data[Address(f, offset)..Address(f, offset) + n]
    else Flat(f, data)[offset..offset + n]
  }

  // Within one block the file is contiguous.
  lemma OneBlock(f: Inode, data: seq<byte>, offset: nat, n: nat)
    requires FileOk(f, |data|) && offset < f.length && offset + n <= f.length
    requires offset % BLOCK + n <= BLOCK
    ensures Address(f, offset) + n <= |data|
    ensures data[Address(f, offset)..Address(f, offset) + n] == Flat(f, data)[offset..offset + n]
  {
    AddressInData(f, |data|, offset);
    var run, part := data[Address(f, offset)..Address(f, offset) + n], Flat(f, data)[offset..offset + n];
    forall k | 0 <= k < n ensures run[k] == part[k] {
      SameBlock(offset, k);
    }
  }

  lemma SameBlock(offset: nat, k: nat)
    requires offset % BLOCK + k < BLOCK
    ensures (offset + k) / BLOCK == offset / BLOCK && (offset + k) % BLOCK == offset % BLOCK + k
  {
  }

  // The block that holds byte i * BLOCK. The loop below looks one entry too far when it copies nothing.
  function BlockNumber(f: Inode, i: nat): nat { if i < |f.blocks| then f.blocks[i] else 0 }

  // What the loop copies next when a whole read of n bytes at `start` has come to `offset`.
  function Piece(offset: nat, left: nat): nat { if left >= BLOCK then BLOCK - offset % BLOCK else left }

  // Where the loop stands: finished, at the start, or at the front of block i.
  predicate Aligned(start: nat, n: nat, offset: nat, left: nat, i: nat) {
    || left == 0
    || (offset == start && i == offset / BLOCK)
    || (offset == i * BLOCK && !Straddles(start, n))
  }

  // The next piece of the read is one run of memory.
  lemma NextPiece(f: Inode, data: seq<byte>, start: nat, n: nat, whole: seq<byte>, offset: nat, left: nat, i: nat)
    requires FileOk(f, |data|) && start < f.length && start + n <= f.length && whole == Delivered(f, data, start, n)
    requires start <= offset && offset + left == start + n && Aligned(start, n, offset, left, i)
    ensures var p := Piece(offset, left);
            && p <= left && Aligned(start, n, offset + p, left - p, i + 1)
            && (p > 0 ==>
                  var from := BlockNumber(f, i) * BLOCK + offset % BLOCK;
                  && from + p <= |data|
                  && data[from..from + p] == whole[offset - start..][..p])
  {
    var p := Piece(offset, left);
    if left > 0 {
      AddressInData(f, |data|, offset);
      if !Straddles(start, n) {
        OneBlock(f, data, offset, p);
        assert Flat(f, data)[start..start + n][offset - start..][..p] == Flat(f, data)[offset..offset + p];
      }
    }
  }

  // The first `done` bytes of `whole` have been written at index `at` of a buffer that held `before`.
  ghost predicate Written(buf: seq<byte>, before: seq<byte>, at: nat, whole: seq<byte>, done: nat)
  {
    done <= |whole| && at + |whole| <= |before| && buf == Filled(before, at, whole[..done])
  }

  // One more run of memory goes behind them.
  method CopyPiece(data: seq<byte>, from: nat, p: nat, buf: array<byte>, dst: nat,
                   ghost before: seq<byte>, ghost at: nat, ghost whole: seq<byte>, ghost done: nat)
    requires Written(buf[..], before, at, whole, done) && dst == at + done && done + p <= |whole|
    requires p > 0 ==> from + p <= |data| && data[from..from + p] == whole[done..][..p]
    modifies buf
    ensures Written(buf[..], before, at, whole, done + p)
  {
    ghost var piece := whole[done..][..p];
    MemCopy(buf, dst, data, from, p);
    if p > 0 {
      ExtendFilled(before, at, whole, done, p);
      assert buf[..] == Filled(Filled(before, at, whole[..done]), at + done, piece);
    }
  }

  // One round of the loop of read_data; `whole` is what the read delivers, `before` the buffer it found.
  method CopyStep(f: Inode, data: seq<byte>, offset: nat, length: nat, i: nat, buf: array<byte>, dst: nat,
                  ghost start: nat, ghost n: nat, ghost whole: seq<byte>, ghost before: seq<byte>, ghost at: nat)
    returns (toCopy: nat)
    requires FileOk(f, |data|) && start < f.length && start + n <= f.length && whole == Delivered(f, data, start, n)
    requires start <= offset && offset + length == start + n && Aligned(start, n, offset, length, i)
    requires Written(buf[..], before, at, whole, offset - start) && dst == at + (offset - start)
    modifies buf
    ensures toCopy <= length && Aligned(start, n, offset + toCopy, length - toCopy, i + 1)
    ensures Written(buf[..], before, at, whole, offset - start + toCopy)
  {
    var inBlock := offset % BLOCK;
    toCopy := if length >= BLOCK then BLOCK - offset % BLOCK else length;
    var block := BlockNumber(f, i) * BLOCK;
    NextPiece(f, data, start, n, whole, offset, length, i);
    CopyPiece(data, block + inBlock, toCopy, buf, dst, before, at, whole, offset - start);
  }

  lemma LoopDone(start: nat, n: nat, offset: nat, left: nat, i: nat)
    requires Aligned(start, n, offset, left, i) && i > (offset + left) / BLOCK
    ensures left == 0
  {
  }

  // The loop of read_data, once the length is known to be available.
  method CopyBlocks(f: Inode, data: seq<byte>, offset0: nat, buf: array<byte>, at: nat, n: nat) returns (copied: nat)
    requires FileOk(f, |data|) && offset0 < f.length && offset0 + n <= f.length && at + n <= buf.Length
    modifies buf
    ensures copied == n && buf[..] == Filled(old(buf[..]), at, Delivered(f, data, offset0, n))
  {
    ghost var before, whole := buf[..], Delivered(f, data, offset0, n);
    FilledNothing(before, at);
    copied := CopyLoop(f, data, offset0, buf, at, n, whole);
    assert whole[..n] == whole;
  }

  method CopyLoop(f: Inode, data: seq<byte>, offset0: nat, buf: array<byte>, at: nat, n: nat, ghost whole: seq<byte>)
    returns (copied: nat)
    requires FileOk(f, |data|) && offset0 < f.length && offset0 + n <= f.length && whole == Delivered(f, data, offset0, n)
    requires Written(buf[..], buf[..], at, whole, 0)
    modifies buf
    ensures copied == n && Written(buf[..], old(buf[..]), at, whole, n)
  {
    var offset: nat, length: nat, dst: nat := offset0, n, at;
    copied := 0;
    ghost var before, last := buf[..], (offset0 + n) / BLOCK;
    var i := offset / BLOCK;
    while i <= (offset + length) / BLOCK
      invariant offset + length == offset0 + n && copied == offset - offset0 == dst - at
      invariant Written(buf[..], before, at, whole, copied)
      invariant Aligned(offset0, n, offset, length, i)
      decreases last + 1 - i
    {
      var toCopy := CopyStep(f, data, offset, length, i, buf, dst, offset0, n, whole, before, at);
      dst := dst + toCopy;
      offset := offset + toCopy;
      copied := copied + toCopy;
      length := length - toCopy;
      i := i + 1;
    }
    LoopDone(offset0, n, offset, length, i);
  }

  // A 32-bit sum of offset and length that wraps round ends below the offset: nothing is cut off, and the
  // loop ends at once, or after the rest of the first block.
  function WrappedLength(offset: nat, length: nat): nat
    requires UINT32 <= offset + length
  {
    if (offset + length - UINT32) / BLOCK < offset / BLOCK then 0 else BLOCK - offset % BLOCK
  }

  method CopyWrapped(f: Inode, data: seq<byte>, offset0: nat, buf: array<byte>, at: nat, length0: nat) returns (copied: nat)
    requires FileOk(f, |data|) && offset0 < f.length && length0 < UINT32 <= offset0 + length0 && at + length0 <= buf.Length
    modifies buf
    ensures copied == WrappedLength(offset0, length0)
    ensures Address(f, offset0) + copied <= |data|
    ensures buf[..] == Filled(old(buf[..]), at, data[Address(f, offset0)..Address(f, offset0) + copied])
  {
    AddressInData(f, |data|, offset0);
    ghost var before, from, n := buf[..], Address(f, offset0), BLOCK - offset0 % BLOCK;
    var i := offset0 / BLOCK;
    var end := (offset0 + length0) % UINT32 / BLOCK;
    WrapsOnce(offset0, length0);
    copied := 0;
    while i <= end
      invariant if copied == 0 then i == offset0 / BLOCK && buf[..] == before
                else i == end + 1 == offset0 / BLOCK + 1 && copied == n && buf[..] == Filled(before, at, data[from..from + n])
      decreases end + 1 - i
    {
      MemCopy(buf, at, data, Address(f, offset0), BLOCK - offset0 % BLOCK);
      copied := BLOCK - offset0 % BLOCK;
      i := i + 1;
    }
    if copied == 0 {
      FilledNothing(before, at);
    }
  }

  lemma WrapsOnce(offset: nat, length: nat)
    requires offset < MAX_BLOCKS * BLOCK && length < UINT32 <= offset + length
    ensures var end := (offset + length) % UINT32 / BLOCK;
            && end <= offset / BLOCK
            && WrappedLength(offset, length) == (if end == offset / BLOCK then BLOCK - offset % BLOCK else 0)
            && BLOCK - offset % BLOCK <= BLOCK <= length
  {
    assert (offset + length) % UINT32 == offset + length - UINT32 < offset;
  }

  // read_data
  method ReadData(img: Image, inode: nat, offset: nat, buf: array?<byte>, at: nat, length0: nat) returns (r: int)
    requires ImageOk(img) && offset < UINT32 && length0 < UINT32
    requires buf != null ==> at + length0 <= buf.Length
    modifies (if buf == null then {} else {buf})
    ensures |img.inodes| <= inode || buf == null ==> r == -1
    ensures inode < |img.inodes| && buf != null && img.inodes[inode].length <= offset ==> r == 0
    ensures inode < |img.inodes| && buf != null && offset < img.inodes[inode].length && offset + length0 < UINT32 ==>
              var f := img.inodes[inode];
              && r == (if offset + length0 > f.length then f.length - offset else length0)
              && buf[..] == Filled(old(buf[..]), at, Delivered(f, img.data, offset, r))
    ensures inode < |img.inodes| && buf != null && offset < img.inodes[inode].length && UINT32 <= offset + length0 ==>
              var from := Address(img.inodes[inode], offset);
              && r == (if (offset + length0) % UINT32 / BLOCK == offset / BLOCK then BLOCK - offset % BLOCK else 0)
              && from + r <= |img.data|
              && buf[..] == Filled(old(buf[..]), at, img.data[from..from + r])
    ensures r <= 0 && buf != null ==> buf[..] == old(buf[..])
  {
    if inode > |img.inodes| - 1 || buf == null {
      return -1;
    }
    var f := img.inodes[inode];
    if offset >= f.length {
      return 0;
    }
    var length := length0;
    if offset + length >= UINT32 {
      WrapsOnce(offset, length);
      r := CopyWrapped(f, img.data, offset, buf, at, length);
      return;
    }
    if offset + length > f.length {
      length := f.length - offset;
    }
    r := CopyBlocks(f, img.data, offset, buf, at, length);
  }

  // ---- When is a read exact? ----

  lemma SplitEqual(a: seq<byte>, b: seq<byte>, k: nat)
    requires |a| == |b| && k <= |a| && a[..k] == b[..k]
    ensures a == b <==> a[k..] == b[k..]
  {
    assert a == a[..k] + a[k..] && b == b[..k] + b[k..];
  }

  // For any particular contents: when it does not straddle, or what lies behind the first block
  // happens to equal what lies at the front of the next.
  lemma DeliversFlat(f: Inode, data: seq<byte>, offset: nat, n: nat)
    requires FileOk(f, |data|) && offset < f.length && offset + n <= f.length
    ensures Delivered(f, data, offset, n) == Flat(f, data)[offset..offset + n] <==>
            Straddles(offset, n) ==>
              var rest := offset % BLOCK + n - BLOCK;
              var behind := (f.blocks[offset / BLOCK] + 1) * BLOCK;
              var next := f.blocks[offset / BLOCK + 1] * BLOCK;
              data[behind..behind + rest] == data[next..next + rest]
  {
    if Straddles(offset, n) {
      StraddleParts(f, data, offset, n);
      SplitEqual(Delivered(f, data, offset, n), Flat(f, data)[offset..offset + n], BLOCK - offset % BLOCK);
    }
  }

  // The two parts of a straddling read, and of the stretch of file it should have delivered.
  lemma StraddleParts(f: Inode, data: seq<byte>, offset: nat, n: nat)
    requires FileOk(f, |data|) && offset < f.length && offset + n <= f.length && Straddles(offset, n)
    ensures var first := BLOCK - offset % BLOCK;
            var rest := n - first;
            var behind := (f.blocks[offset / BLOCK] + 1) * BLOCK;
            var next := f.blocks[offset / BLOCK + 1] * BLOCK;
            var got, file := Delivered(f, data, offset, n), Flat(f, data)[offset..offset + n];
            && behind + rest <= |data| && next + rest <= |data|
            && got[..first] == file[..first]
            && got[first..] == data[behind..behind + rest]
            && file[first..] == data[next..next + rest]
  {
    StraddleGot(f, data, offset, n);
    StraddleFile(f, data, offset, n);
  }

  lemma StraddleGot(f: Inode, data: seq<byte>, offset: nat, n: nat)
    requires FileOk(f, |data|) && offset < f.length && offset + n <= f.length && Straddles(offset, n)
    ensures var first := BLOCK - offset % BLOCK;
            var behind := (f.blocks[offset / BLOCK] + 1) * BLOCK;
            var got := Delivered(f, data, offset, n);
            && behind + (n - first) <= |data|
            && got[..first] == Flat(f, data)[offset..offset + first]
            && got[first..] == data[behind..behind + (n - first)]
  {
    var first := BLOCK - offset % BLOCK;
    AddressInData(f, |data|, offset);
    assert data[Address(f, offset)..Address(f, offset) + first] == Flat(f, data)[offset..offset + first] by {
      OneBlock(f, data, offset, first);
    }
    TwoParts(data, Address(f, offset), n, first);
  }

  lemma BlockEnd(offset: nat)
    ensures var mid := offset + (BLOCK - offset % BLOCK); mid / BLOCK == offset / BLOCK + 1 && mid % BLOCK == 0
  {
  }

  lemma StraddleFile(f: Inode, data: seq<byte>, offset: nat, n: nat)
    requires FileOk(f, |data|) && offset < f.length && offset + n <= f.length && Straddles(offset, n)
    ensures var first := BLOCK - offset % BLOCK;
            var next := f.blocks[offset / BLOCK + 1] * BLOCK;
            var file := Flat(f, data)[offset..offset + n];
            && next + (n - first) <= |data|
            && file[..first] == Flat(f, data)[offset..offset + first]
            && file[first..] == data[next..next + (n - first)]
  {
    var first := BLOCK - offset % BLOCK;
    var mid := offset + first;
    BlockEnd(offset);
    AddressInData(f, |data|, mid);
    assert Address(f, mid) == f.blocks[offset / BLOCK + 1] * BLOCK;
    assert data[Address(f, mid)..Address(f, mid) + (n - first)] == Flat(f, data)[mid..mid + (n - first)] by {
      OneBlock(f, data, mid, n - first);
    }
    TwoParts(Flat(f, data), offset, n, first);
  }

  lemma TwoParts(s: seq<byte>, at: nat, n: nat, first: nat)
    requires first <= n && at + n <= |s|
    ensures s[at..at + n][..first] == s[at..at + first] && s[at..at + n][first..] == s[at + first..at + n]
  {
  }

  ghost predicate ReadsFlat(f: Inode, data: seq<byte>, offset: nat, n: nat)
    requires FileOk(f, |data|) && offset < f.length && offset + n <= f.length
  {
    Delivered(f, data, offset, n) == Flat(f, data)[offset..offset + n]
  }

  // A memory that tells two places apart.
  function Marked(size: nat, mark: nat): (r: seq<byte>)
    ensures |r| == size
  {
    seq(size, k => if k == mark then 1 else 0)
  }

  // A read that straddles two blocks that are not neighbours is wrong for some contents.
  lemma ScatteredReadFails(f: Inode, size: nat, offset: nat, n: nat)
    requires FileOk(f, size) && offset < f.length && offset + n <= f.length && Straddles(offset, n)
    requires f.blocks[offset / BLOCK + 1] != f.blocks[offset / BLOCK] + 1
    ensures !ReadsFlat(f, Marked(size, (f.blocks[offset / BLOCK] + 1) * BLOCK), offset, n)
  {
    var behind := (f.blocks[offset / BLOCK] + 1) * BLOCK;
    var next := f.blocks[offset / BLOCK + 1] * BLOCK;
    var data := Marked(size, behind);
    DeliversFlat(f, data, offset, n);
    StraddleParts(f, data, offset, n);
    var rest := offset % BLOCK + n - BLOCK;
    assert data[behind..behind + rest][0] != data[next..next + rest][0];
  }

  // For a layout, whatever the contents: a read is exact if and only if it does not straddle or the
  // two blocks it straddles are neighbours in memory.
  lemma ExactWhateverContents(f: Inode, size: nat, offset: nat, n: nat)
    requires FileOk(f, size) && offset < f.length && offset + n <= f.length
    ensures (forall data: seq<byte> :: |data| == size ==> ReadsFlat(f, data, offset, n)) <==>
            (Straddles(offset, n) ==> f.blocks[offset / BLOCK + 1] == f.blocks[offset / BLOCK] + 1)
  {
    forall data: seq<byte> | |data| == size
      ensures (Straddles(offset, n) ==> f.blocks[offset / BLOCK + 1] == f.blocks[offset / BLOCK] + 1)
              ==> ReadsFlat(f, data, offset, n)
    {
      DeliversFlat(f, data, offset, n);
    }
    if Straddles(offset, n) && f.blocks[offset / BLOCK + 1] != f.blocks[offset / BLOCK] + 1 {
      ScatteredReadFails(f, size, offset, n);
    }
  }

  // What execute reads of a program: its first 32 bytes, the entry point at 24..28 and the image,
  // capped at the size of the user page behind the load address. None of these can straddle.
  lemma ExecuteReadsExactly(f: Inode, data: seq<byte>, cap: nat)
    requires FileOk(f, |data|) && 28 <= f.length
    ensures ReadsFlat(f, data, 0, Available(f, 0, 32))
    ensures ReadsFlat(f, data, 24, 4)
    ensures ReadsFlat(f, data, 0, Available(f, 0, cap))
  {
  }
}
