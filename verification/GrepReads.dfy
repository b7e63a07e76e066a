// What grep gets to see of a file. Each read asks for as much as the line carried over leaves room for, so
// the bytes that arrive depend on the bytes that have arrived, and reads begin anywhere in a block.
module GrepReads {
  import opened Bytes
  import opened FileSystem
  import opened SequentialReads

  const BUFSIZE := 1024

  // Where the line begins that holds what is just before i.
  function LineStart(text: seq<byte>, i: nat): (r: nat)
    requires i <= |text|
    ensures r <= i
  {
    if i == 0 || text[i - 1] == NEWLINE then i else LineStart(text, i - 1)
  }

  // What is behind the last newline of a full buffer is carried over; a buffer without one is taken as a line.
  function Carry(text: seq<byte>): (r: seq<byte>)
    ensures r == [] || |r| < |text|
  {
    var i := LineStart(text, |text|);
    if i == 0 then [] else text[i..]
  }

  lemma {:induction false} LineStartIs(text: seq<byte>, i: nat, start: nat)
    requires start <= i <= |text| && (start > 0 ==> text[start - 1] == NEWLINE)
    requires forall j :: start <= j < i ==> text[j] != NEWLINE
    ensures LineStart(text, i) == start
  {
    if start < i {
      LineStartIs(text, i - 1, start);
    }
  }

  lemma CarryIs(text: seq<byte>, start: nat)
    requires start <= |text| && (start > 0 ==> text[start - 1] == NEWLINE) && NEWLINE !in text[start..]
    ensures Carry(text) == if start == 0 then [] else text[start..]
  {
    forall j | start <= j < |text| ensures text[j] != NEWLINE {
      assert text[start..][j - start] == text[j];
    }
    LineStartIs(text, |text|, start);
  }

  // How a file is read: what a read of some bytes at some offset delivers, and what the client keeps of a
  // buffer for the next round.
  datatype Reader = Reader(got: imap<(nat, nat), seq<byte>>, keep: imap<seq<byte>, seq<byte>>)
  {
    ghost function Got(o: nat, n: nat): (d: seq<byte>)
      ensures |d| == n
    {
      if (o, n) in got && |got[(o, n)]| == n then got[(o, n)] else seq(n, _ => NUL)
    }

    ghost function Kept(text: seq<byte>): (left: seq<byte>)
      ensures |left| < BUFSIZE
    {
      if text in keep && |keep[text]| < BUFSIZE then keep[text] else []
    }
  }

  function Asked(len: nat, offset: nat, carried: seq<byte>): (n: nat)
    requires offset < len && |carried| < BUFSIZE
    ensures 0 < n <= BUFSIZE - |carried| && offset + n <= len
  {
    if offset + BUFSIZE - |carried| > len then len - offset else BUFSIZE - |carried|
  }

  // The bytes that arrive of a file of length `len` from `offset` on when `carried` waits in the buffer.
  ghost function Stream(r: Reader, len: nat, offset: nat, carried: seq<byte>): seq<byte>
    requires |carried| < BUFSIZE
    decreases len - offset
  {
    if len <= offset then []
    else
      var n := Asked(len, offset, carried);
      r.Got(offset, n) + Stream(r, len, offset + n, r.Kept(carried + r.Got(offset, n)))
  }

  lemma StreamStep(r: Reader, len: nat, offset: nat, carried: seq<byte>, n: nat)
    requires |carried| < BUFSIZE && offset < len && n == Asked(len, offset, carried)
    ensures var d := r.Got(offset, n);
            Stream(r, len, offset, carried) == d + Stream(r, len, offset + n, r.Kept(carried + d))
  {
  }

  // Every read from here on delivers what the file s holds there.
  ghost predicate ExactReads(r: Reader, s: seq<byte>, offset: nat, carried: seq<byte>)
    requires |carried| < BUFSIZE
    decreases |s| - offset
  {
    offset < |s| ==>
      var n := Asked(|s|, offset, carried);
      r.Got(offset, n) == s[offset..offset + n] && ExactReads(r, s, offset + n, r.Kept(carried + r.Got(offset, n)))
  }

  lemma {:induction false} ExactIsSeen(r: Reader, s: seq<byte>, offset: nat, carried: seq<byte>)
    requires offset <= |s| && |carried| < BUFSIZE && ExactReads(r, s, offset, carried)
    ensures Stream(r, |s|, offset, carried) == s[offset..]
    decreases |s| - offset
  {
    if offset < |s| {
      var n := Asked(|s|, offset, carried);
      ExactIsSeen(r, s, offset + n, r.Kept(carried + r.Got(offset, n)));
      Rejoin(s, offset, n);
    }
  }

  // No wrong byte is ever made good by a later one.
  lemma {:induction false} WrongIsSeen(r: Reader, s: seq<byte>, offset: nat, carried: seq<byte>)
    requires offset <= |s| && |carried| < BUFSIZE && !ExactReads(r, s, offset, carried)
    ensures Stream(r, |s|, offset, carried) != s[offset..]
    decreases |s| - offset
  {
    var n := Asked(|s|, offset, carried);
    var d := r.Got(offset, n);
    var left := r.Kept(carried + d);
    var rest := Stream(r, |s|, offset + n, left);
    assert d != s[offset..offset + n] || rest != s[offset + n..] by {
      if d == s[offset..offset + n] {
        WrongIsSeen(r, s, offset + n, left);
      }
    }
    assert d + rest != s[offset..] by {
      PartsEqual(d, rest, s, offset);
    }
  }

  lemma PartsEqual(d: seq<byte>, rest: seq<byte>, s: seq<byte>, offset: nat)
    requires offset + |d| <= |s|
    ensures d + rest == s[offset..] ==> d == s[offset..offset + |d|] && rest == s[offset + |d|..]
  {
    if d + rest == s[offset..] {
      assert d == (d + rest)[..|d|] == s[offset..][..|d|] == s[offset..offset + |d|];
      assert rest == (d + rest)[|d|..] == s[offset..][|d|..] == s[offset + |d|..];
    }
  }

  // ---- A file that arrives wrong ----

  const X: byte := 120
  const Y: byte := 121

  // A read that is made, and a buffer that is filled: what is known of all of them is stated of these.
  predicate Request(o: nat, n: nat) { true }

  predicate Buffered(text: seq<byte>) { true }

  // The last byte of block k.
  function Last(k: nat): nat { (k + 1) * BLOCK - 1 }

  // Empty lines but for one X in block k, and reads that are exact unless they straddle; the read that
  // begins in the last byte of block k goes on with a Y that is not in the file.
  ghost predicate Skew(r: Reader, s: seq<byte>, k: nat)
  {
    && (forall text: seq<byte> {:trigger Buffered(text)} ::
          Buffered(text) && |text| <= BUFSIZE ==> r.Kept(text) == Carry(text))
    && (k + 1) * BLOCK < |s|
    && (forall j :: 0 <= j <= (k + 1) * BLOCK ==> s[j] == if j == k * BLOCK + 1023 then X else NEWLINE)
    && (forall o: nat, n: nat {:trigger Request(o, n)} ::
          Request(o, n) && o < |s| && o + n <= |s| && !Straddles(o, n) ==> r.Got(o, n) == s[o..o + n])
    && (forall n: nat {:trigger r.Got(Last(k), n)} :: 2 <= n <= BUFSIZE && Last(k) + n <= |s| ==> r.Got(Last(k), n)[1] == Y)
  }

  lemma LeftOver(carried: seq<byte>, d: seq<byte>, left: seq<byte>)
    requires |d| >= 2 && (left == [] || left == [X])
    requires if left == [] then d[|d| - 1] == NEWLINE else d[|d| - 2] == NEWLINE && d[|d| - 1] == X
    ensures Carry(carried + d) == left
  {
    var text := carried + d;
    assert LineStart(text, |text|) == |text| - |left|;
  }

  // What there is still to come is not what the file holds.
  ghost predicate GoesWrong(r: Reader, s: seq<byte>, offset: nat, carried: seq<byte>)
    requires |carried| < BUFSIZE
  {
    !ExactReads(r, s, offset, carried) && Y in Stream(r, |s|, offset, carried)
  }

  // A read passes it on.
  lemma PassOn(r: Reader, s: seq<byte>, offset: nat, carried: seq<byte>, n: nat)
    requires |carried| < BUFSIZE && offset < |s| && n == Asked(|s|, offset, carried)
    requires GoesWrong(r, s, offset + n, r.Kept(carried + r.Got(offset, n)))
    ensures GoesWrong(r, s, offset, carried)
  {
    InBack(Y, r.Got(offset, n), Stream(r, |s|, offset + n, r.Kept(carried + r.Got(offset, n))));
  }

  lemma InFront(d: seq<byte>, rest: seq<byte>)
    requires |d| >= 2
    ensures d[1] in d + rest
  {
    assert (d + rest)[1] == d[1];
  }

  lemma InBack(c: byte, d: seq<byte>, rest: seq<byte>)
    requires c in rest
    ensures c in d + rest
  {
  }

  // The i-th read begins here, with this carried over: the X is carried over alone, which shifts the
  // reads that follow.
  function Begin(k: nat, i: nat): nat { i * BUFSIZE - if i >= 4 * k + 2 then 1 else 0 }

  function Carried(k: nat, i: nat): seq<byte> { if i == 4 * k + 1 then [X] else [] }

  lemma ReadFits(k: nat, i: nat)
    requires i < 4 * k + 4
    ensures var n := BUFSIZE - |Carried(k, i)|;
            && Begin(k, i + 1) == Begin(k, i) + n < (k + 1) * BLOCK && !Straddles(Begin(k, i), n)
            && (Begin(k, i + 1) - 1 == k * BLOCK + 1023 <==> i == 4 * k)
  {
    assert i < 4 * k ==> (i + 1) * BUFSIZE <= k * BLOCK;
  }

  lemma CarriesOver(r: Reader, s: seq<byte>, k: nat, i: nat, n: nat)
    requires Skew(r, s, k) && i < 4 * k + 4 && n == BUFSIZE - |Carried(k, i)|
    ensures Begin(k, i + 1) == Begin(k, i) + n < |s|
    ensures r.Kept(Carried(k, i) + r.Got(Begin(k, i), n)) == Carried(k, i + 1)
  {
    ReadFits(k, i);
    var d := r.Got(Begin(k, i), n);
    assert Request(Begin(k, i), n) && Buffered(Carried(k, i) + d);
    assert d[n - 1] == s[Begin(k, i) + n - 1] && d[n - 2] == s[Begin(k, i) + n - 2];
    LeftOver(Carried(k, i), d, Carried(k, i + 1));
  }

  // The read at the break begins in the last byte of its block.
  lemma BreakGoesWrong(r: Reader, s: seq<byte>, k: nat)
    requires Skew(r, s, k)
    ensures GoesWrong(r, s, Last(k), [])
  {
    var n := Asked(|s|, Last(k), []);
    assert r.Got(Last(k), n)[1] == Y && s[Last(k) + 1] == NEWLINE;
    ByteGoesWrong(r, s, Last(k), [], n);
  }

  lemma ByteGoesWrong(r: Reader, s: seq<byte>, offset: nat, carried: seq<byte>, n: nat)
    requires |carried| < BUFSIZE && offset < |s| && n == Asked(|s|, offset, carried) && 2 <= n
    requires r.Got(offset, n)[1] == Y != s[offset + 1]
    ensures GoesWrong(r, s, offset, carried)
  {
    var d := r.Got(offset, n);
    assert d[1] != s[offset..offset + n][1];
    InFront(d, Stream(r, |s|, offset + n, r.Kept(carried + d)));
  }

  lemma {:induction false} SkewGoesWrong(r: Reader, s: seq<byte>, k: nat, i: nat)
    requires Skew(r, s, k) && i <= 4 * k + 4
    ensures GoesWrong(r, s, Begin(k, i), Carried(k, i))
    decreases 4 * k + 4 - i
  {
    if i == 4 * k + 4 {
      assert Begin(k, i) == Last(k);
      BreakGoesWrong(r, s, k);
    } else {
      var n := BUFSIZE - |Carried(k, i)|;
      assert GoesWrong(r, s, Begin(k, i + 1), Carried(k, i + 1)) by {
        SkewGoesWrong(r, s, k, i + 1);
      }
      CarriesOver(r, s, k, i, n);
      PassBegin(r, s, k, i, n);
    }
  }

  lemma PassBegin(r: Reader, s: seq<byte>, k: nat, i: nat, n: nat)
    requires n == BUFSIZE - |Carried(k, i)| && Begin(k, i + 1) == Begin(k, i) + n < |s|
    requires r.Kept(Carried(k, i) + r.Got(Begin(k, i), n)) == Carried(k, i + 1)
    requires GoesWrong(r, s, Begin(k, i + 1), Carried(k, i + 1))
    ensures GoesWrong(r, s, Begin(k, i), Carried(k, i))
  {
    PassOn(r, s, Begin(k, i), Carried(k, i), n);
  }

  // ---- The reads of the kernel ----

  ghost function Serve(f: Inode, mem: seq<byte>): (r: Reader)
    requires FileOk(f, |mem|)
  {
    Reader(imap o: nat, n: nat | o < f.length && o + n <= f.length :: (o, n) := Delivered(f, mem, o, n),
           imap text: seq<byte> | |text| <= BUFSIZE :: Carry(text))
  }

  lemma ServeGot(f: Inode, mem: seq<byte>, o: nat, n: nat)
    requires FileOk(f, |mem|) && o < f.length && o + n <= f.length
    ensures Serve(f, mem).Got(o, n) == Delivered(f, mem, o, n)
  {
    var got := Serve(f, mem).got;
    assert (o, n) in got && got[(o, n)] == Delivered(f, mem, o, n);
  }

  lemma ServeKept(f: Inode, mem: seq<byte>, text: seq<byte>)
    requires FileOk(f, |mem|) && |text| <= BUFSIZE
    ensures Serve(f, mem).Kept(text) == Carry(text)
  {
    assert Serve(f, mem).keep[text] == Carry(text);
  }

  // The reads are those of the kernel, and grep keeps what it carries over.
  ghost predicate Serves(r: Reader, f: Inode, mem: seq<byte>)
    requires FileOk(f, |mem|)
  {
    && (forall o: nat, n: nat {:trigger Request(o, n)} ::
          Request(o, n) && o < f.length && o + n <= f.length ==> r.Got(o, n) == Delivered(f, mem, o, n))
    && (forall text: seq<byte> {:trigger Buffered(text)} ::
          Buffered(text) && |text| <= BUFSIZE ==> r.Kept(text) == Carry(text))
  }

  lemma ServeServes(f: Inode, mem: seq<byte>)
    requires FileOk(f, |mem|)
    ensures Serves(Serve(f, mem), f, mem)
  {
    var r := Serve(f, mem);
    forall o: nat, n: nat | Request(o, n) && o < f.length && o + n <= f.length
      ensures r.Got(o, n) == Delivered(f, mem, o, n)
    {
      ServeGot(f, mem, o, n);
    }
    forall text: seq<byte> | Buffered(text) && |text| <= BUFSIZE ensures r.Kept(text) == Carry(text) {
      ServeKept(f, mem, text);
    }
  }

  // What grep sees of a file.
  ghost function Seen(f: Inode, mem: seq<byte>): seq<byte>
    requires FileOk(f, |mem|)
  {
    Stream(Serve(f, mem), f.length, 0, [])
  }

  // The file's blocks follow each other in memory, up to block n.
  ghost predicate Unbroken(f: Inode, n: nat)
    requires |f.blocks| == MAX_BLOCKS && n <= MAX_BLOCKS
  {
    forall k :: 0 <= k && k + 1 < n ==> f.blocks[k + 1] == f.blocks[k] + 1
  }

  lemma UnbrokenIsRead(f: Inode, mem: seq<byte>, offset: nat, n: nat)
    requires FileOk(f, |mem|) && Used(f) <= MAX_BLOCKS && Unbroken(f, Used(f)) && offset < f.length && offset + n <= f.length
    ensures Delivered(f, mem, offset, n) == Flat(f, mem)[offset..offset + n]
  {
    DeliversFlat(f, mem, offset, n);
    if Straddles(offset, n) {
      assert offset / BLOCK + 1 < Used(f);
    }
  }

  lemma {:induction false} AlwaysExact(r: Reader, s: seq<byte>, offset: nat, carried: seq<byte>)
    requires |carried| < BUFSIZE
    requires forall o: nat, n: nat :: o < |s| && o + n <= |s| ==> r.Got(o, n) == s[o..o + n]
    ensures ExactReads(r, s, offset, carried)
    decreases |s| - offset
  {
    if offset < |s| {
      var n := Asked(|s|, offset, carried);
      AlwaysExact(r, s, offset + n, r.Kept(carried + r.Got(offset, n)));
    }
  }

  lemma UnbrokenIsSeen(f: Inode, mem: seq<byte>)
    requires FileOk(f, |mem|) && Used(f) <= MAX_BLOCKS && Unbroken(f, Used(f))
    ensures Seen(f, mem) == Flat(f, mem)
  {
    var r, s := Serve(f, mem), Flat(f, mem);
    forall o: nat, n: nat | o < |s| && o + n <= |s| ensures r.Got(o, n) == s[o..o + n] {
      ServeGot(f, mem, o, n);
      UnbrokenIsRead(f, mem, o, n);
    }
    AlwaysExact(r, s, 0, []);
    ExactIsSeen(r, s, 0, []);
    assert s[0..] == s;
  }

  // A memory of empty lines, but for one byte in block c and one at the front of the block behind it.
  function Skewed(size: nat, c: nat): (mem: seq<byte>)
    ensures |mem| == size
  {
    seq(size, a => if a == c * BLOCK + 1023 then X else if a == (c + 1) * BLOCK then Y else NEWLINE)
  }

  // Block k is the first not to be followed by the next.
  ghost predicate BreaksAt(f: Inode, k: nat)
    requires |f.blocks| == MAX_BLOCKS && f.length <= MAX_BLOCKS * BLOCK
  {
    k + 1 < Used(f) <= MAX_BLOCKS && Unbroken(f, k + 1) && f.blocks[k + 1] != f.blocks[k] + 1
  }

  lemma {:induction false} BlocksInARow(f: Inode, k: nat, j: nat)
    requires |f.blocks| == MAX_BLOCKS && k < MAX_BLOCKS && Unbroken(f, k + 1) && j <= k
    ensures f.blocks[j] == f.blocks[k] - (k - j)
    decreases k - j
  {
    if j < k {
      BlocksInARow(f, k, j + 1);
      assert f.blocks[j + 1] == f.blocks[j] + 1;
    }
  }

  // Up to the break the file is empty lines and one X.
  lemma SkewedAt(f: Inode, size: nat, k: nat, j: nat)
    requires FileOk(f, size) && BreaksAt(f, k) && j <= (k + 1) * BLOCK < f.length
    ensures Flat(f, Skewed(size, f.blocks[k]))[j] == if j == k * BLOCK + 1023 then X else NEWLINE
  {
    var c := f.blocks[k];
    AddressInData(f, size, j);
    if j < (k + 1) * BLOCK {
      BlocksInARow(f, k, j / BLOCK);
    }
  }

  lemma BreakIsSkew(f: Inode, size: nat, k: nat)
    requires FileOk(f, size) && BreaksAt(f, k)
    ensures var mem := Skewed(size, f.blocks[k]); Skew(Serve(f, mem), Flat(f, mem), k)
  {
    var mem := Skewed(size, f.blocks[k]);
    var r, s := Serve(f, mem), Flat(f, mem);
    forall j: nat | j <= (k + 1) * BLOCK ensures s[j] == if j == k * BLOCK + 1023 then X else NEWLINE {
      SkewedAt(f, size, k, j);
    }
    forall o: nat, n: nat | Request(o, n) && o < |s| && o + n <= |s| && !Straddles(o, n) ensures r.Got(o, n) == s[o..o + n] {
      ServeGot(f, mem, o, n);
    }
    forall text: seq<byte> | Buffered(text) && |text| <= BUFSIZE ensures r.Kept(text) == Carry(text) {
      ServeKept(f, mem, text);
    }
    forall n: nat {:trigger r.Got(Last(k), n)} | 2 <= n <= BUFSIZE && Last(k) + n <= |s| ensures r.Got(Last(k), n)[1] == Y {
      ServeGot(f, mem, Last(k), n);
      AcrossBreak(f, size, k, n);
    }
  }

  // What the read at the break delivers in place of the byte that follows in the file.
  lemma AcrossBreak(f: Inode, size: nat, k: nat, n: nat)
    requires FileOk(f, size) && BreaksAt(f, k) && 2 <= n <= BUFSIZE && Last(k) + n <= f.length
    ensures Delivered(f, Skewed(size, f.blocks[k]), Last(k), n)[1] == Y
  {
    AddressInData(f, size, Last(k));
  }

  lemma {:induction false} FirstBreak(f: Inode, n: nat) returns (k: nat)
    requires |f.blocks| == MAX_BLOCKS && n <= MAX_BLOCKS && !Unbroken(f, n)
    ensures k + 1 < n && Unbroken(f, k + 1) && f.blocks[k + 1] != f.blocks[k] + 1
  {
    if Unbroken(f, n - 1) {
      k := n - 2;
    } else {
      k := FirstBreak(f, n - 1);
    }
  }

  // Grep sees the file itself, whatever is in it, if and only if its blocks follow each other in memory.
  lemma GrepSeesFile(f: Inode, size: nat)
    requires FileOk(f, size)
    ensures Used(f) <= MAX_BLOCKS
    ensures (forall mem: seq<byte> :: |mem| == size ==> Seen(f, mem) == Flat(f, mem)) <==> Unbroken(f, Used(f))
  {
    forall mem: seq<byte> | |mem| == size && Unbroken(f, Used(f)) ensures Seen(f, mem) == Flat(f, mem) {
      UnbrokenIsSeen(f, mem);
    }
    if !Unbroken(f, Used(f)) {
      var k := FirstBreak(f, Used(f));
      SeesForeignByte(f, size, k);
    }
  }

  // With a broken file of empty lines and one X, grep sees a Y.
  lemma SeesForeignByte(f: Inode, size: nat, k: nat)
    requires FileOk(f, size) && BreaksAt(f, k)
    ensures var mem := Skewed(size, f.blocks[k]); Seen(f, mem) != Flat(f, mem) && Y in Seen(f, mem)
  {
    var mem := Skewed(size, f.blocks[k]);
    var r, s := Serve(f, mem), Flat(f, mem);
    BreakIsSkew(f, size, k);
    SkewGoesWrong(r, s, k, 0);
    WrongIsSeen(r, s, 0, []);
    assert s[0..] == s;
  }

  // ---- A file that ends in a foreign byte ----

  // What is seen of a skewed file that ends right behind the break: the same, but for the last byte.
  ghost predicate Swapped(r: Reader, s: seq<byte>, s': seq<byte>, k: nat)
  {
    && Skew(r, s, k) && |s| == |s'| == Last(k) + 2
    && s'[..Last(k) + 1] == s[..Last(k) + 1] && r.Got(Last(k), 2) == s'[Last(k)..]
  }

  // The i-th read is exact, and leaves what the next one begins with.
  ghost predicate ReadAsPlanned(r: Reader, s: seq<byte>, k: nat, i: nat)
  {
    var offset, carried := Begin(k, i), Carried(k, i);
    var n := BUFSIZE - |carried|;
    && Begin(k, i + 1) == offset + n < |s|
    && r.Got(offset, n) == s[offset..offset + n] && r.Kept(carried + r.Got(offset, n)) == Carried(k, i + 1)
  }

  lemma {:induction false} PlannedIsExact(r: Reader, s: seq<byte>, k: nat, i: nat)
    requires |s| == Last(k) + 2 && r.Got(Last(k), 2) == s[Last(k)..] && i <= 4 * k + 4
    requires forall m: nat :: m < 4 * k + 4 ==> ReadAsPlanned(r, s, k, m)
    ensures ExactReads(r, s, Begin(k, i), Carried(k, i))
    decreases 4 * k + 4 - i
  {
    if i == 4 * k + 4 {
      assert Begin(k, i) == Last(k);
      EndIsExact(r, s, Last(k));
    } else {
      PlannedIsExact(r, s, k, i + 1);
      assert ReadAsPlanned(r, s, k, i);
      OneExact(r, s, Begin(k, i), Carried(k, i), BUFSIZE - |Carried(k, i)|, Carried(k, i + 1));
    }
  }

  lemma SwappedIsExact(r: Reader, s: seq<byte>, s': seq<byte>, k: nat)
    requires Swapped(r, s, s', k)
    ensures ExactReads(r, s', 0, [])
  {
    forall i: nat | i < 4 * k + 4 ensures ReadAsPlanned(r, s', k, i) {
      SwappedAsPlanned(r, s, s', k, i);
    }
    PlannedIsExact(r, s', k, 0);
  }

  lemma SwappedAsPlanned(r: Reader, s: seq<byte>, s': seq<byte>, k: nat, i: nat)
    requires Swapped(r, s, s', k) && i < 4 * k + 4
    ensures ReadAsPlanned(r, s', k, i)
  {
    var n := BUFSIZE - |Carried(k, i)|;
    CarriesOver(r, s, k, i, n);
    BeforeIsExact(r, s, s', k, i, Begin(k, i), Carried(k, i), n);
  }

  lemma BeforeIsExact(r: Reader, s: seq<byte>, s': seq<byte>, k: nat, i: nat, offset: nat, carried: seq<byte>, n: nat)
    requires Swapped(r, s, s', k) && i < 4 * k + 4 && offset == Begin(k, i) && carried == Carried(k, i)
    requires n == BUFSIZE - |carried|
    ensures offset + n < |s'| && r.Got(offset, n) == s'[offset..offset + n]
  {
    ReadFits(k, i);
    assert Request(offset, n);
    SameFront(s, s', Last(k) + 1, offset, n);
  }

  lemma SameFront(s: seq<byte>, s': seq<byte>, m: nat, i: nat, n: nat)
    requires i + n <= m <= |s| && m <= |s'| && s[..m] == s'[..m]
    ensures s[i..i + n] == s'[i..i + n]
  {
    assert s[i..i + n] == s[..m][i..i + n] && s'[i..i + n] == s'[..m][i..i + n];
  }

  lemma OneExact(r: Reader, s: seq<byte>, offset: nat, carried: seq<byte>, n: nat, left: seq<byte>)
    requires |carried| < BUFSIZE && offset < |s| && n == Asked(|s|, offset, carried)
    requires r.Got(offset, n) == s[offset..offset + n] && r.Kept(carried + r.Got(offset, n)) == left
    requires |left| < BUFSIZE && ExactReads(r, s, offset + n, left)
    ensures ExactReads(r, s, offset, carried)
  {
  }

  lemma EndIsExact(r: Reader, s: seq<byte>, offset: nat)
    requires |s| == offset + 2 && r.Got(offset, 2) == s[offset..]
    ensures ExactReads(r, s, offset, [])
  {
    assert Asked(|s|, offset, []) == 2;
    assert s[offset..offset + 2] == s[offset..];
  }

  lemma EndGot(f: Inode, size: nat, k: nat)
    requires FileOk(f, size) && BreaksAt(f, k) && f.length == Last(k) + 2
    ensures Serve(f, Skewed(size, f.blocks[k])).Got(Last(k), 2) == [NEWLINE, Y]
  {
    var mem := Skewed(size, f.blocks[k]);
    ServeGot(f, mem, Last(k), 2);
    AcrossBreak(f, size, k, 2);
    AddressInData(f, size, Last(k));
    assert Straddles(Last(k), 2);
    assert Delivered(f, mem, Last(k), 2)[0] == mem[Address(f, Last(k))] == NEWLINE;
  }

  lemma SeesForeignEnd(f: Inode, size: nat, k: nat)
    requires FileOk(f, size) && BreaksAt(f, k) && f.length == Last(k) + 2
    ensures var mem := Skewed(size, f.blocks[k]); Seen(f, mem) == Flat(f, mem)[Last(k) + 1 := Y]
  {
    var mem := Skewed(size, f.blocks[k]);
    var r, s := Serve(f, mem), Flat(f, mem);
    BreakIsSkew(f, size, k);
    var s' := s[Last(k) + 1 := Y];
    EndGot(f, size, k);
    SkewedAt(f, size, k, Last(k));
    assert s'[Last(k)..] == [NEWLINE, Y];
    SwappedIsExact(r, s, s', k);
    ExactIsSeen(r, s', 0, []);
  }
}
