/** The chunk grid of a resumable upload: which bytes of the source each chunk carries. */
module Chunks {
  import opened Common

  const TWO_64: nat := 0x1_0000_0000_0000_0000

  /** An unsigned 32-bit integer. */
  type U32 = x: int | 0 <= x < 0x1_0000_0000

  datatype SourceTruncated = SourceTruncated(index: U32, offset: nat, sourceLength: nat)

  function Min(a: nat, b: nat): nat {
    if a <= b then a else b
  }

  function Max(a: nat, b: nat): nat {
    if a >= b then a else b
  }

  /** A product of unsigned 64-bit numbers, in 64 bits. */
  function WrappingMul(a: nat, b: nat): nat {
    a * b % TWO_64
  }

  /** The chunk the client reads for an index, from a source in memory. */
  function ReadChunk(source: Bytes, index: U32, chunkBytes: U64, totalBytes: U64): Result<Bytes, SourceTruncated> {
    var offset := WrappingMul(index, chunkBytes);
    if offset >= totalBytes then Ok([])
    else
      var want := Min(totalBytes - offset, chunkBytes);
      if offset >= |source| || offset + want > |source| then Err(SourceTruncated(index, offset, |source|))
      else Ok(source[offset..offset + want])
  }

  /** The bytes the grid assigns to an index: its slice of the declared total, empty past the end. */
  function Assigned(source: Bytes, index: nat, chunkBytes: nat, totalBytes: nat): Bytes
    requires totalBytes <= |source|
  {
    source[Min(index * chunkBytes, totalBytes)..Min((index + 1) * chunkBytes, totalBytes)]
  }

  lemma GridOrder(index: nat, chunkBytes: nat)
    ensures index * chunkBytes <= (index + 1) * chunkBytes == index * chunkBytes + chunkBytes
  {
  }

  /** Whether the 64-bit offset of an index is the one the grid means, or lies past the end like it. */
  predicate OffsetHolds(index: U32, chunkBytes: U64, totalBytes: U64) {
    index * chunkBytes < TWO_64 || WrappingMul(index, chunkBytes) >= totalBytes
  }

  lemma WrapsNot(a: nat, b: nat)
    ensures a * b < TWO_64 ==> WrappingMul(a, b) == a * b
  {
  }

  /** Where the offset does not wrap, the chunk read is the assigned slice. */
  lemma ReadUnwrapped(source: Bytes, index: U32, chunkBytes: U64, totalBytes: U64, product: nat, end: nat)
    requires totalBytes <= |source| && product == index * chunkBytes < TWO_64 && end == product + chunkBytes
    requires WrappingMul(index, chunkBytes) == product && end == (index + 1) * chunkBytes
    ensures ReadChunk(source, index, chunkBytes, totalBytes) == Ok(Assigned(source, index, chunkBytes, totalBytes))
  {
    hide WrappingMul;
    assert Assigned(source, index, chunkBytes, totalBytes) == source[Min(product, totalBytes)..Min(end, totalBytes)];
    if product < totalBytes {
      assert product + Min(totalBytes - product, chunkBytes) == Min(end, totalBytes);
    }
  }

  /** Where it does wrap, the grid assigns nothing, and something is read exactly if the offset falls inside the file. */
  lemma ReadWrapped(source: Bytes, index: U32, chunkBytes: U64, totalBytes: U64)
    requires totalBytes <= |source| && index * chunkBytes >= TWO_64
    ensures Assigned(source, index, chunkBytes, totalBytes) == []
    ensures ReadChunk(source, index, chunkBytes, totalBytes) == Ok([]) <==> WrappingMul(index, chunkBytes) >= totalBytes
  {
    hide WrappingMul;
    GridOrder(index, chunkBytes);
    if WrappingMul(index, chunkBytes) < totalBytes {
      assert ReadChunk(source, index, chunkBytes, totalBytes).Ok? ==> |ReadChunk(source, index, chunkBytes, totalBytes).value| > 0;
    }
  }

  /**
    Chunk integrity: over a source that covers the declared total, the chunk read is exactly the
    assigned slice, unless the 64-bit offset wraps back inside the file; and then it never is.
  */
  lemma ReadChunkExactly(source: Bytes, index: U32, chunkBytes: U64, totalBytes: U64)
    requires totalBytes <= |source|
    ensures ReadChunk(source, index, chunkBytes, totalBytes) == Ok(Assigned(source, index, chunkBytes, totalBytes))
       <==> OffsetHolds(index, chunkBytes, totalBytes)
  {
    hide WrappingMul;
    hide ReadChunk;
    hide Assigned;
    WrapsNot(index, chunkBytes);
    GridOrder(index, chunkBytes);
    if index * chunkBytes < TWO_64 {
      ReadUnwrapped(source, index, chunkBytes, totalBytes, index * chunkBytes, (index + 1) * chunkBytes);
    } else {
      ReadWrapped(source, index, chunkBytes, totalBytes);
    }
  }

  /** A server-chosen grid on which the offset of chunk 2 wraps to the start of the file. */
  lemma OffsetWraps()
    ensures !OffsetHolds(2, 0x8000_0000_0000_0000, 1)
    ensures ReadChunk([7], 2, 0x8000_0000_0000_0000, 1) == Ok([7])
    ensures Assigned([7], 2, 0x8000_0000_0000_0000, 1) == []
  {
    assert WrappingMul(2, 0x8000_0000_0000_0000) == 0;
    assert [7][0..1] == [7];
  }

  function Assembled(source: Bytes, count: nat, chunkBytes: nat, totalBytes: nat): Bytes
    requires totalBytes <= |source|
  {
    if count == 0 then []
    else Assembled(source, count - 1, chunkBytes, totalBytes) + Assigned(source, count - 1, chunkBytes, totalBytes)
  }

  lemma {:induction false} AssembledPrefix(source: Bytes, count: nat, chunkBytes: nat, totalBytes: nat)
    requires totalBytes <= |source|
    ensures Assembled(source, count, chunkBytes, totalBytes) == source[..Min(count * chunkBytes, totalBytes)]
  {
    if count > 0 {
      AssembledPrefix(source, count - 1, chunkBytes, totalBytes);
      GridOrder(count - 1, chunkBytes);
      var a, b := Min((count - 1) * chunkBytes, totalBytes), Min(count * chunkBytes, totalBytes);
      assert source[..a] + source[a..b] == source[..b];
    }
  }

  /** A server that holds every index of a grid reaching the total has exactly the declared bytes. */
  lemma Reassembles(source: Bytes, count: nat, chunkBytes: nat, totalBytes: nat)
    requires totalBytes <= |source|
    ensures Assembled(source, count, chunkBytes, totalBytes) == source[..totalBytes] <==> count * chunkBytes >= totalBytes
  {
    AssembledPrefix(source, count, chunkBytes, totalBytes);
  }

  /** The chunks one after the other. */
  function Concat(chunks: seq<Bytes>): Bytes {
    if chunks == [] then [] else Concat(chunks[..|chunks| - 1]) + chunks[|chunks| - 1]
  }

  /** A chunk is the assigned slice, or it is bytes where the grid assigns none. */
  ghost predicate AssignedOrExtra(source: Bytes, index: nat, chunkBytes: nat, totalBytes: nat, chunk: Bytes)
    requires totalBytes <= |source|
  {
    || chunk == Assigned(source, index, chunkBytes, totalBytes)
    || (chunk != [] && index * chunkBytes >= totalBytes)
  }

  lemma ReadAssignedOrExtra(source: Bytes, index: U32, chunkBytes: U64, totalBytes: U64, chunk: Bytes)
    requires totalBytes <= |source| && ReadChunk(source, index, chunkBytes, totalBytes) == Ok(chunk)
    ensures AssignedOrExtra(source, index, chunkBytes, totalBytes, chunk)
  {
    hide WrappingMul;
    hide Assigned;
    ReadChunkExactly(source, index, chunkBytes, totalBytes);
  }

  lemma PastTheEnd(source: Bytes, index: nat, chunkBytes: nat, totalBytes: nat)
    requires totalBytes <= |source| && index * chunkBytes >= totalBytes
    ensures Assigned(source, index, chunkBytes, totalBytes) == []
  {
    GridOrder(index, chunkBytes);
  }

  /** Extra bytes only make the whole longer. */
  lemma {:induction false} ConcatLonger(source: Bytes, chunks: seq<Bytes>, chunkBytes: nat, totalBytes: nat)
    requires totalBytes <= |source|
    requires forall i :: 0 <= i < |chunks| ==> AssignedOrExtra(source, i, chunkBytes, totalBytes, chunks[i])
    ensures |Concat(chunks)| >= |Assembled(source, |chunks|, chunkBytes, totalBytes)|
    ensures (forall i :: 0 <= i < |chunks| ==> chunks[i] == Assigned(source, i, chunkBytes, totalBytes)) ==>
      Concat(chunks) == Assembled(source, |chunks|, chunkBytes, totalBytes)
    ensures (exists i :: 0 <= i < |chunks| && chunks[i] != Assigned(source, i, chunkBytes, totalBytes)) ==>
      |Concat(chunks)| > |Assembled(source, |chunks|, chunkBytes, totalBytes)|
  {
    hide Assigned;
    if chunks != [] {
      var n := |chunks| - 1;
      ConcatLonger(source, chunks[..n], chunkBytes, totalBytes);
      assert forall i :: 0 <= i < n ==> chunks[..n][i] == chunks[i];
      if chunks[n] != Assigned(source, n, chunkBytes, totalBytes) {
        PastTheEnd(source, n, chunkBytes, totalBytes);
      }
    }
  }

  /**
    Chunks read for the indices of a grid make up the declared bytes exactly when the grid reaches
    the total and every chunk is the one assigned.
  */
  lemma ConcatExactly(source: Bytes, chunks: seq<Bytes>, chunkBytes: nat, totalBytes: nat)
    requires totalBytes <= |source|
    requires forall i :: 0 <= i < |chunks| ==> AssignedOrExtra(source, i, chunkBytes, totalBytes, chunks[i])
    ensures Concat(chunks) == source[..totalBytes] <==>
      |chunks| * chunkBytes >= totalBytes && forall i :: 0 <= i < |chunks| ==> chunks[i] == Assigned(source, i, chunkBytes, totalBytes)
  {
    hide Assigned;
    hide Concat;
    ConcatLonger(source, chunks, chunkBytes, totalBytes);
    Reassembles(source, |chunks|, chunkBytes, totalBytes);
    AssembledPrefix(source, |chunks|, chunkBytes, totalBytes);
    if i :| 0 <= i < |chunks| && chunks[i] != Assigned(source, i, chunkBytes, totalBytes) {
      Scales(i, |chunks|, chunkBytes);
    }
  }

  lemma Scales(a: nat, b: nat, factor: nat)
    requires a <= b
    ensures a * factor <= b * factor
  {
  }

  /** The bytes that the first `done` chunks span, never more than the total. */
  function SpanBytes(done: U32, chunkBytes: U64, totalBytes: U64): (n: nat)
    ensures n <= totalBytes
  {
    Min(WrappingMul(done, chunkBytes), totalBytes)
  }
}
