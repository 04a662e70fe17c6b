/** Reading and writing a file's bytes at an offset, and what runs of reads and writes add up to. */
module FileContents {
  import opened Words

  const FILE_CAPACITY: nat := 4096

  function Min(x: nat, y: nat): nat { if x <= y then x else y }

  // ----- One operation

  /** ramfs_read: what is left after the offset, up to `size` bytes. */
  function ReadAt(bytes: seq<byte>, offset: nat, size: nat): seq<byte> {
    if offset >= |bytes| then [] else bytes[offset..offset + Min(size, |bytes| - offset)]
  }

  /** ramfs_write: overwrite, and extend up to the capacity. */
  function WriteAt(bytes: seq<byte>, capacity: nat, offset: nat, buf: seq<byte>): (r: seq<byte>)
    requires offset <= |bytes| <= capacity
    ensures |bytes| <= |r| <= capacity
  {
    var n := Min(|buf|, capacity - offset);
    bytes[..offset] + buf[..n] + if offset + n < |bytes| then bytes[offset + n..] else []
  }

  /** A read returns the bytes from the offset on, as many as it asks for and the file has. */
  lemma ReadAtExact(bytes: seq<byte>, offset: nat, size: nat)
    ensures |ReadAt(bytes, offset, size)| == if offset >= |bytes| then 0 else Min(size, |bytes| - offset)
    ensures forall k :: 0 <= k < |ReadAt(bytes, offset, size)| ==> ReadAt(bytes, offset, size)[k] == bytes[offset + k]
  {
  }

  /** A write replaces the bytes from the offset on by those of the buffer, as many as the capacity has
      room for, also in the middle of the file; all other bytes stay, and the file ends where it did or
      where the write did, whichever is further. */
  lemma WriteAtExact(bytes: seq<byte>, capacity: nat, offset: nat, buf: seq<byte>)
    requires offset <= |bytes| <= capacity
    ensures var r, end := WriteAt(bytes, capacity, offset, buf), Min(offset + |buf|, capacity);
            && |r| == (if end > |bytes| then end else |bytes|)
            && forall k :: 0 <= k < |r| ==> r[k] == if offset <= k < end then buf[k - offset] else bytes[k]
  {
  }

  /** What has been written reads back. */
  lemma ReadBack(bytes: seq<byte>, capacity: nat, offset: nat, buf: seq<byte>, size: nat)
    requires offset <= |bytes| <= capacity && size <= Min(|buf|, capacity - offset)
    ensures ReadAt(WriteAt(bytes, capacity, offset, buf), offset, size) == buf[..size]
  {
    WriteAtExact(bytes, capacity, offset, buf);
    ReadAtExact(WriteAt(bytes, capacity, offset, buf), offset, size);
  }

  /** The size check of ramfs_write in 32-bit arithmetic. */
  function Clamped(offset: u32, size: u32, capacity: u32): nat
    requires offset <= capacity
  {
    if Add32(offset, size) > capacity then capacity - offset else size
  }

  /** The clamp keeps a write inside the file exactly when its sum does not wrap. */
  lemma ClampExact(offset: u32, size: u32, capacity: u32)
    requires offset <= capacity
    ensures Clamped(offset, size, capacity) <= capacity - offset <==> offset + size < WORD
    ensures offset + size < WORD ==> Clamped(offset, size, capacity) == Min(size, capacity - offset)
  {
  }

  // ----- Runs through one descriptor

  function Concat(chunks: seq<seq<byte>>): seq<byte> {
    if chunks == [] then [] else chunks[0] + Concat(chunks[1..])
  }

  /** Successive writes: the offset advances by what each one stored. */
  function WriteRun(bytes: seq<byte>, capacity: nat, offset: nat, chunks: seq<seq<byte>>): (seq<byte>, nat)
    requires offset <= |bytes| <= capacity
    decreases |chunks|
  {
    if chunks == [] then (bytes, offset)
    else
      WriteRun(WriteAt(bytes, capacity, offset, chunks[0]), capacity,
               offset + Min(|chunks[0]|, capacity - offset), chunks[1..])
  }

  /** Successive reads: the offset advances by what each one returned. */
  function ReadRun(bytes: seq<byte>, offset: nat, sizes: seq<nat>): (seq<seq<byte>>, nat)
    decreases |sizes|
  {
    if sizes == [] then ([], offset)
    else
      var got := ReadAt(bytes, offset, sizes[0]);
      var (rest, end) := ReadRun(bytes, offset + |got|, sizes[1..]);
      ([got] + rest, end)
  }

  function Sum(sizes: seq<nat>): nat {
    if sizes == [] then 0 else sizes[0] + Sum(sizes[1..])
  }

  /** Writing at the end in pieces of any sizes appends their concatenation, cut at the capacity. */
  lemma {:induction false} WriteRunAppends(bytes: seq<byte>, capacity: nat, chunks: seq<seq<byte>>)
    requires |bytes| <= capacity
    ensures var (r, end) := WriteRun(bytes, capacity, |bytes|, chunks);
            var all := bytes + Concat(chunks);
            r == all[..Min(|all|, capacity)] && end == |r|
    decreases |chunks|
  {
    if chunks == [] {
      assert bytes + [] == bytes;
    } else {
      var next := WriteAt(bytes, capacity, |bytes|, chunks[0]);
      var n := Min(|chunks[0]|, capacity - |bytes|);
      assert next == bytes + chunks[0][..n];
      WriteRunAppends(next, capacity, chunks[1..]);
      var all := bytes + Concat(chunks);
      assert all == bytes + chunks[0] + Concat(chunks[1..]);
      if n < |chunks[0]| {
        assert |next| == capacity && all[..capacity] == next;
        assert (next + Concat(chunks[1..]))[..capacity] == next;
      } else {
        assert chunks[0][..n] == chunks[0];
      }
    }
  }

  /** Reading in pieces returns consecutive bytes, as many as asked for until the end. */
  lemma {:induction false} ReadRunCovers(bytes: seq<byte>, offset: nat, sizes: seq<nat>)
    requires offset <= |bytes|
    ensures var (got, end) := ReadRun(bytes, offset, sizes);
            end == Min(|bytes|, offset + Sum(sizes)) && Concat(got) == bytes[offset..end]
    decreases |sizes|
  {
    if sizes != [] {
      var first := ReadAt(bytes, offset, sizes[0]);
      var next := offset + |first|;
      ReadRunCovers(bytes, next, sizes[1..]);
      var (rest, end) := ReadRun(bytes, next, sizes[1..]);
      assert ([first] + rest)[1..] == rest;
      assert first == bytes[offset..next];
      assert bytes[offset..next] + bytes[next..end] == bytes[offset..end];
    }
  }

  /** Write a fresh file in pieces of any sizes, then read it through a new descriptor: the same bytes
      come back, cut at the capacity, exactly when the reads ask for at least that many; and then, and
      only then, a further read of any positive size returns nothing. */
  lemma WriteThenRead(chunks: seq<seq<byte>>, sizes: seq<nat>, more: nat)
    requires more > 0
    ensures var written := WriteRun([], FILE_CAPACITY, 0, chunks).0;
            var (got, end) := ReadRun(written, 0, sizes);
            var stored := Min(|Concat(chunks)|, FILE_CAPACITY);
            && (Concat(got) == Concat(chunks)[..stored] <==> Sum(sizes) >= stored)
            && (ReadAt(written, end, more) == [] <==> Sum(sizes) >= stored)
  {
    var written := WriteRun([], FILE_CAPACITY, 0, chunks).0;
    assert written == Concat(chunks)[..Min(|Concat(chunks)|, FILE_CAPACITY)] by {
      WriteRunAppends([], FILE_CAPACITY, chunks);
      assert [] + Concat(chunks) == Concat(chunks);
    }
    ReadsAll(written, sizes, more);
  }

  /** Reads from the start return everything exactly when they ask for enough, and then nothing is left. */
  lemma ReadsAll(bytes: seq<byte>, sizes: seq<nat>, more: nat)
    requires more > 0
    ensures var (got, end) := ReadRun(bytes, 0, sizes);
            && (Concat(got) == bytes <==> Sum(sizes) >= |bytes|)
            && (ReadAt(bytes, end, more) == [] <==> Sum(sizes) >= |bytes|)
  {
    ReadRunCovers(bytes, 0, sizes);
    var (got, end) := ReadRun(bytes, 0, sizes);
    assert Concat(got) == bytes[0..end];
    if Sum(sizes) >= |bytes| {
      assert bytes[0..|bytes|] == bytes;
    } else {
      assert |bytes[0..end]| == end < |bytes|;
    }
  }

  /** Positive sizes ask for enough after as many reads as there are bytes. */
  lemma {:induction false} PositiveSizesSuffice(sizes: seq<nat>)
    requires forall k :: 0 <= k < |sizes| ==> sizes[k] > 0
    ensures Sum(sizes) >= |sizes|
  {
    if sizes != [] { PositiveSizesSuffice(sizes[1..]); }
  }
}
