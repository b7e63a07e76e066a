// Reading a file from front to back in chunks, until a read returns 0.
module SequentialReads {
  import opened Bytes
  import opened Division
  import opened FileSystem

  // The bytes handed out by reads of `chunk` bytes from `offset` on, until one returns 0.
  ghost function ReadAll(f: Inode, data: seq<byte>, offset: nat, chunk: nat): seq<byte>
    requires FileOk(f, |data|) && 0 < chunk
    decreases f.length - offset
  {
    if f.length <= offset then []
    else
      var n := Available(f, offset, chunk);
      Delivered(f, data, offset, n) + ReadAll(f, data, offset + n, chunk)
  }

  predicate Fits(chunk: nat) requires 0 < chunk { BLOCK % chunk == 0 || chunk % BLOCK == 0 }

  // Where sequential reads of such a chunk stand: the room left in the block is a number of whole chunks.
  predicate AtBoundary(offset: nat, chunk: nat)
    requires 0 < chunk
  {
    if chunk % BLOCK == 0 then offset % BLOCK == 0 else (BLOCK - offset % BLOCK) % chunk == 0
  }

  lemma BoundaryNeverStraddles(offset: nat, chunk: nat, n: nat)
    requires 0 < chunk && AtBoundary(offset, chunk) && n <= chunk
    ensures !Straddles(offset, n)
  {
    var room := BLOCK - offset % BLOCK;
    if chunk % BLOCK != 0 && room < chunk {
      DivMod(0, room, chunk);
    }
  }

  lemma BoundaryNext(offset: nat, chunk: nat)
    requires 0 < chunk && Fits(chunk) && AtBoundary(offset, chunk)
    ensures AtBoundary(offset + chunk, chunk)
  {
    if chunk % BLOCK != 0 {
      var room := BLOCK - offset % BLOCK;
      BoundaryNeverStraddles(offset, chunk, chunk);
      assert chunk < BLOCK by {
        if chunk > BLOCK {
          DivMod(0, BLOCK, chunk);
        }
      }
      if room > chunk {
        ShiftResidue(room - chunk, chunk);
        assert (offset + chunk) % BLOCK == offset % BLOCK + chunk;
      } else {
        assert (offset + chunk) % BLOCK == 0;
      }
    }
  }

  // Chunked sequential reading reassembles the file, for any block layout.
  lemma {:induction false} ChunksReassemble(f: Inode, data: seq<byte>, offset: nat, chunk: nat)
    requires FileOk(f, |data|) && 0 < chunk && Fits(chunk) && AtBoundary(offset, chunk) && offset <= f.length
    ensures ReadAll(f, data, offset, chunk) == Flat(f, data)[offset..]
    decreases f.length - offset
  {
    if offset < f.length {
      var n := Available(f, offset, chunk);
      assert !Straddles(offset, n) by {
        BoundaryNeverStraddles(offset, chunk, n);
      }
      if n == chunk {
        assert AtBoundary(offset + chunk, chunk) by {
          BoundaryNext(offset, chunk);
        }
        ChunksReassemble(f, data, offset + chunk, chunk);
      }
      CleanReadJoins(f, data, offset, chunk);
    }
  }

  lemma CleanReadJoins(f: Inode, data: seq<byte>, offset: nat, chunk: nat)
    requires FileOk(f, |data|) && 0 < chunk && offset < f.length
    requires var n := Available(f, offset, chunk);
             && !Straddles(offset, n)
             && (n == chunk ==> ReadAll(f, data, offset + n, chunk) == Flat(f, data)[offset + n..])
    ensures ReadAll(f, data, offset, chunk) == Flat(f, data)[offset..]
  {
    Rejoin(Flat(f, data), offset, Available(f, offset, chunk));
  }

  lemma Rejoin(s: seq<byte>, i: nat, n: nat)
    requires i + n <= |s|
    ensures s[i..] == s[i..i + n] + s[i + n..]
  {
  }

  lemma Splice(s: seq<byte>, i: nat, n: nat, rest: seq<byte>)
    requires i + n <= |s|
    ensures s[..i] + (s[i..i + n] + rest) == s[..i + n] + rest
  {
  }

  lemma ExactStep(f: Inode, data: seq<byte>, offset: nat, chunk: nat)
    requires FileOk(f, |data|) && 0 < chunk && offset + chunk <= f.length && !Straddles(offset, chunk)
    ensures Flat(f, data)[..offset] + ReadAll(f, data, offset, chunk)
            == Flat(f, data)[..offset + chunk] + ReadAll(f, data, offset + chunk, chunk)
  {
    var s, rest := Flat(f, data), ReadAll(f, data, offset + chunk, chunk);
    assert ReadAll(f, data, offset, chunk) == s[offset..offset + chunk] + rest by {
      ReadAllStep(f, data, offset, chunk);
    }
    Splice(s, offset, chunk, rest);
  }

  // Reads of `chunk` bytes lead from offset to `to`, and none of them straddles.
  predicate CleanPath(offset: nat, to: nat, chunk: nat)
    requires 0 < chunk
    decreases if offset <= to then to - offset else 0
  {
    || offset == to
    || (offset + chunk <= to && !Straddles(offset, chunk) && CleanPath(offset + chunk, to, chunk))
  }

  // Up to a straddling read everything is exact.
  lemma {:induction false} ExactUpTo(f: Inode, data: seq<byte>, offset: nat, to: nat, chunk: nat)
    requires FileOk(f, |data|) && 0 < chunk && to <= f.length && CleanPath(offset, to, chunk)
    ensures offset <= to
    ensures Flat(f, data)[..offset] + ReadAll(f, data, offset, chunk)
            == Flat(f, data)[..to] + ReadAll(f, data, to, chunk)
    decreases if offset <= to then to - offset else 0
  {
    if offset != to {
      ExactUpTo(f, data, offset + chunk, to, chunk);
      ExactStep(f, data, offset, chunk);
    }
  }

  // If one of the reads is not exact, the whole is not.
  lemma WrongStep(f: Inode, data: seq<byte>, offset: nat, chunk: nat)
    requires FileOk(f, |data|) && 0 < chunk && offset < f.length && CleanPath(0, offset, chunk)
    requires !ReadsFlat(f, data, offset, Available(f, offset, chunk))
    ensures ReadAll(f, data, 0, chunk) != Flat(f, data)
  {
    var n := Available(f, offset, chunk);
    var s, whole := Flat(f, data), ReadAll(f, data, 0, chunk);
    var d, rest := Delivered(f, data, offset, n), ReadAll(f, data, offset + n, chunk);
    assert whole == s[..offset] + (d + rest) by {
      ExactUpTo(f, data, 0, offset, chunk);
      ReadAllStep(f, data, offset, chunk);
      Nothing(s, whole);
    }
    WrongSum(whole, s, offset, d, rest);
  }

  lemma WrongSum(whole: seq<byte>, s: seq<byte>, offset: nat, d: seq<byte>, rest: seq<byte>)
    requires offset + |d| <= |s| && whole == s[..offset] + (d + rest) && d != s[offset..offset + |d|]
    ensures whole != s
  {
    Misplaced(s, offset, d, rest);
  }

  lemma ReadAllStep(f: Inode, data: seq<byte>, offset: nat, chunk: nat)
    requires FileOk(f, |data|) && 0 < chunk && offset < f.length
    ensures var n := Available(f, offset, chunk);
            ReadAll(f, data, offset, chunk) == Delivered(f, data, offset, n) + ReadAll(f, data, offset + n, chunk)
  {
  }

  lemma Nothing(s: seq<byte>, t: seq<byte>)
    ensures s[..0] + t == t
  {
  }

  lemma Misplaced(s: seq<byte>, i: nat, got: seq<byte>, rest: seq<byte>)
    requires i + |got| <= |s| && got != s[i..i + |got|]
    ensures s[..i] + (got + rest) != s
  {
    var t := s[..i] + (got + rest);
    assert t[i..i + |got|] == got;
  }

  // A file that ends one byte into its last block, which is no neighbour of the one before, block b.
  function GappedFile(b: nat): Inode
    requires b + 2 <= MAX_BLOCKS
  {
    Inode((b + 1) * BLOCK + 1, seq(MAX_BLOCKS, k => if k <= b then k else if k == b + 1 then b + 2 else 0))
  }

  // The byte behind block b in memory is not the byte behind it in the file.
  function GappedData(b: nat): (r: seq<byte>)
    ensures |r| == (b + 4) * BLOCK
  {
    Marked((b + 4) * BLOCK, (b + 1) * BLOCK)
  }

  lemma GappedFileOk(b: nat)
    requires b + 2 <= MAX_BLOCKS
    ensures FileOk(GappedFile(b), |GappedData(b)|)
  {
    assert Used(GappedFile(b)) == b + 2;
  }

  // Such a file comes out wrong if the last read begins inside block b.
  lemma GapCorrupts(b: nat, offset: nat, chunk: nat)
    requires b + 2 <= MAX_BLOCKS && 0 < chunk && CleanPath(0, offset, chunk)
    requires offset / BLOCK == b && 2 <= offset % BLOCK && (b + 1) * BLOCK + 1 <= offset + chunk
    ensures FileOk(GappedFile(b), |GappedData(b)|)
    ensures ReadAll(GappedFile(b), GappedData(b), 0, chunk) != Flat(GappedFile(b), GappedData(b))
  {
    GappedFileOk(b);
    var n := Available(GappedFile(b), offset, chunk);
    assert n == BLOCK + 1 - offset % BLOCK;
    GapFails(b, offset, n);
    WrongStep(GappedFile(b), GappedData(b), offset, chunk);
  }

  lemma GapFails(b: nat, offset: nat, n: nat)
    requires b + 2 <= MAX_BLOCKS && offset / BLOCK == b && 2 <= offset % BLOCK && n == BLOCK + 1 - offset % BLOCK
    ensures FileOk(GappedFile(b), |GappedData(b)|) && offset + n == GappedFile(b).length
    ensures !ReadsFlat(GappedFile(b), GappedData(b), offset, n)
  {
    GappedFileOk(b);
    var f := GappedFile(b);
    assert f.blocks[b] == b && f.blocks[b + 1] == b + 2;
    ScatteredReadFails(f, |GappedData(b)|, offset, n);
  }

  // A chunk of less than a block that does not divide a block corrupts the smallest such file.
  lemma BadSmallChunk(chunk: nat)
    requires 0 < chunk < BLOCK && BLOCK % chunk != 0
    ensures FileOk(GappedFile(0), |GappedData(0)|)
    ensures ReadAll(GappedFile(0), GappedData(0), 0, chunk) != Flat(GappedFile(0), GappedData(0))
  {
    var offset := SomeReadStraddles(0, chunk);
    GapCorrupts(0, offset, chunk);
  }

  // If the rest of a block is no number of whole chunks, a read comes to straddle its end.
  lemma {:induction false} SomeReadStraddles(from: nat, chunk: nat) returns (offset: nat)
    requires 0 < chunk < BLOCK && from < BLOCK && (BLOCK - from) % chunk != 0
    ensures from <= offset < BLOCK && CleanPath(from, offset, chunk) && Straddles(offset, chunk)
    decreases BLOCK - from
  {
    if from + chunk > BLOCK {
      offset := from;
      assert from % BLOCK == from;
    } else {
      RoomLeft(BLOCK - from, chunk);
      offset := SomeReadStraddles(from + chunk, chunk);
      CleanBack(from, offset, chunk);
    }
  }

  lemma CleanBack(from: nat, to: nat, chunk: nat)
    requires 0 < chunk && from + chunk <= BLOCK && from + chunk <= to && CleanPath(from + chunk, to, chunk)
    ensures CleanPath(from, to, chunk)
  {
    assert from % BLOCK == from;
  }

  lemma RoomLeft(room: nat, chunk: nat)
    requires 0 < chunk <= room && room % chunk != 0
    ensures chunk < room && (room - chunk) % chunk != 0
  {
    ShiftResidue(room - chunk, chunk);
    DivMod(0, 0, chunk);
  }

  // A larger chunk goes wrong only in the last read, if that is short and straddles. The second read can,
  // or the third if the second begins just one byte into its block; the block it begins in is the gap.
  function Gap(chunk: nat): nat
  {
    if chunk % BLOCK == 1 then 2 * (chunk / BLOCK) else chunk / BLOCK
  }

  lemma BadLargeChunk(chunk: nat)
    requires BLOCK < chunk && chunk % BLOCK != 0 && Gap(chunk) + 2 <= MAX_BLOCKS
    ensures var b := Gap(chunk);
            && FileOk(GappedFile(b), |GappedData(b)|)
            && ReadAll(GappedFile(b), GappedData(b), 0, chunk) != Flat(GappedFile(b), GappedData(b))
  {
    var offset := if chunk % BLOCK == 1 then 2 * chunk else chunk;
    assert CleanPath(chunk, chunk, chunk) && CleanPath(2 * chunk, 2 * chunk, chunk);
    assert CleanPath(chunk, 2 * chunk, chunk);
    assert CleanPath(0, offset, chunk);
    GapCorrupts(Gap(chunk), offset, chunk);
  }

  // If no file is long enough for that, the chunk is safe, with at most three reads.
  lemma GoodLargeChunk(f: Inode, data: seq<byte>, offset: nat, chunk: nat)
    requires FileOk(f, |data|) && BLOCK < chunk && chunk % BLOCK != 0 && Gap(chunk) + 2 > MAX_BLOCKS
    requires offset == 0 || offset == chunk || offset == 2 * chunk || offset >= f.length
    ensures offset <= f.length ==> ReadAll(f, data, offset, chunk) == Flat(f, data)[offset..]
    decreases f.length - offset
  {
    if offset < f.length {
      var n := Available(f, offset, chunk);
      if n == chunk {
        GoodLargeChunk(f, data, offset + chunk, chunk);
      }
      CleanReadJoins(f, data, offset, chunk);
    }
  }

  ghost predicate AlwaysReassembles(chunk: nat)
    requires 0 < chunk
  {
    forall f: Inode, data: seq<byte> :: FileOk(f, |data|) ==> ReadAll(f, data, 0, chunk) == Flat(f, data)
  }

  // The chunk divides a block, or is a multiple of it, or is so large that no file can go wrong.
  predicate SafeChunk(chunk: nat)
    requires 0 < chunk
  {
    Fits(chunk) || (chunk > BLOCK && Gap(chunk) + 2 > MAX_BLOCKS)
  }

  // Exactly which chunk sizes are safe for every file and every layout.
  lemma SafeChunks(chunk: nat)
    requires 0 < chunk
    ensures AlwaysReassembles(chunk) <==> SafeChunk(chunk)
  {
    if SafeChunk(chunk) {
      forall f: Inode, data: seq<byte> | FileOk(f, |data|)
        ensures ReadAll(f, data, 0, chunk) == Flat(f, data)
      {
        if Fits(chunk) {
          ChunksReassemble(f, data, 0, chunk);
        } else {
          GoodLargeChunk(f, data, 0, chunk);
        }
        assert Flat(f, data)[0..] == Flat(f, data);
      }
    } else {
      SomeFileIsWrong(chunk);
    }
  }

  lemma SomeFileIsWrong(chunk: nat)
    requires 0 < chunk && !SafeChunk(chunk)
    ensures !AlwaysReassembles(chunk)
  {
    if chunk < BLOCK {
      BadSmallChunk(chunk);
    } else {
      BadLargeChunk(chunk);
    }
  }
}
