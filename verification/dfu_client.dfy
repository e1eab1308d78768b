/** The host-side chunked uploader of host/src/loader/ble/dfuClient.ts.

    The transport is modelled by its observable effect: the log of chunks it
    accepted, in order. A failing `writeChunk` is modelled by the index of
    the write that the transport rejects; the upload stops there. */
module DfuClient {
  import opened Wrappers
  import Crc32

  /** Chunk size used when the client is built without one. */
  const DefaultChunkSize: nat := 128

  /** The chunk size a client uses: the constructor's default applies when
      none is given. */
  function ClientChunkSize(requested: Option<nat>): (k: nat)
    ensures requested.None? ==> k == DefaultChunkSize
    ensures requested.Some? ==> k == requested.value
  {
    match requested
    case None => DefaultChunkSize
    case Some(k) => k
  }

  datatype DfuProgress = DfuProgress(sentBytes: nat, totalBytes: nat, percentage: nat)

  datatype TransportError = WriteFailed(index: nat)

  /** `Math.round(sent / total * 100)` over exact rationals: half-way
      values round up, as `Math.round` does for non-negative numbers. */
  function Percentage(sent: nat, total: nat): nat
    requires total > 0
  {
    (200 * sent + total) / (2 * total)
  }

  /** The progress record reported once `sent` of `total` bytes are out. */
  function Report(sent: nat, total: nat): DfuProgress
    requires total > 0
  {
    DfuProgress(sent, total, Percentage(sent, total))
  }

  /** The bytes of `chunks` laid end to end. */
  function Flatten(chunks: seq<seq<bv8>>): seq<bv8>
    decreases |chunks|
  {
    if |chunks| == 0 then [] else Flatten(chunks[..|chunks| - 1]) + chunks[|chunks| - 1]
  }

  /** Bytes sent before write `i`, i.e. the offset of chunk `i`. */
  function OffsetOf(chunks: seq<seq<bv8>>, i: nat): nat
    requires i <= |chunks|
  {
    |Flatten(chunks[..i])|
  }

  /** `image.slice(sent, sent + chunkSize)`: the slice end is clamped to
      the image length. */
  function Slice(image: seq<bv8>, sent: nat, chunkSize: nat): (chunk: seq<bv8>)
    requires sent <= |image|
    ensures |chunk| == Min(chunkSize, |image| - sent)
  {
    image[sent..Min(sent + chunkSize, |image|)]
  }

  /** The chunks the loop writes once `sent` bytes are out. */
  function ChunksFrom(image: seq<bv8>, chunkSize: nat, sent: nat): seq<seq<bv8>>
    requires chunkSize >= 1 && sent <= |image|
    decreases |image| - sent
  {
    if sent == |image| then []
    else
      var chunk := Slice(image, sent, chunkSize);
      [chunk] + ChunksFrom(image, chunkSize, sent + |chunk|)
  }

  /** The chunks an upload of `image` writes. */
  function Chunks(image: seq<bv8>, chunkSize: nat): seq<seq<bv8>>
    requires chunkSize >= 1
  {
    ChunksFrom(image, chunkSize, 0)
  }

  /** The progress records reported after each write of `writes`. */
  function Reports(total: nat, writes: seq<seq<bv8>>): (rs: seq<DfuProgress>)
    requires total > 0
    ensures |rs| == |writes|
  {
    seq(|writes|, i requires 0 <= i < |writes| => Report(OffsetOf(writes, i + 1), total))
  }

  /** Each write is the slice of the image that starts where the previous
      writes ended and is `chunkSize` long, or shorter at the end. */
  predicate SlicedInOrder(image: seq<bv8>, chunkSize: nat, writes: seq<seq<bv8>>)
    decreases |writes|
  {
    |writes| == 0 ||
      var before := writes[..|writes| - 1];
      && SlicedInOrder(image, chunkSize, before)
      && |Flatten(before)| <= |image|
      && writes[|writes| - 1] == Slice(image, |Flatten(before)|, chunkSize)
  }

  /** The slicing, write by write: write `i` starts at the bytes sent
      before it and has length `Min(chunkSize, |image| - offset)`. */
  lemma {:induction false} SlicedInOrderAt(image: seq<bv8>, chunkSize: nat, writes: seq<seq<bv8>>, i: nat)
    requires SlicedInOrder(image, chunkSize, writes)
    requires i < |writes|
    ensures OffsetOf(writes, i) <= |image|
    ensures writes[i] == Slice(image, OffsetOf(writes, i), chunkSize)
    ensures |writes[i]| == Min(chunkSize, |image| - OffsetOf(writes, i))
    decreases |writes|
  {
    var before := writes[..|writes| - 1];
    if i < |writes| - 1 {
      SlicedInOrderAt(image, chunkSize, before, i);
      assert before[..i] == writes[..i];
    } else {
      assert writes[..i] == before;
    }
  }

  lemma FlattenSnoc(chunks: seq<seq<bv8>>, c: seq<bv8>)
    ensures Flatten(chunks + [c]) == Flatten(chunks) + c
  {
    assert (chunks + [c])[..|chunks|] == chunks;
  }

  /** Appending a write leaves the prefixes up to the old length alone. */
  lemma AppendKeepsOffsets(writes: seq<seq<bv8>>, chunk: seq<bv8>)
    ensures forall i :: 0 <= i <= |writes| ==> OffsetOf(writes + [chunk], i) == OffsetOf(writes, i)
    ensures OffsetOf(writes + [chunk], |writes| + 1) == |Flatten(writes)| + |chunk|
  {
    var writes' := writes + [chunk];
    forall i | 0 <= i <= |writes|
      ensures OffsetOf(writes', i) == OffsetOf(writes, i)
    {
      assert writes'[..i] == writes[..i];
    }
    assert writes'[..|writes'|] == writes';
    FlattenSnoc(writes, chunk);
  }

  /** One more write extends the bytes sent by the chunk. */
  lemma AppendFlatten(image: seq<bv8>, chunkSize: nat, writes: seq<seq<bv8>>, sent: nat)
    requires sent < |image|
    requires Flatten(writes) == image[..sent]
    ensures Flatten(writes + [Slice(image, sent, chunkSize)]) == image[..sent + |Slice(image, sent, chunkSize)|]
  {
    var chunk := Slice(image, sent, chunkSize);
    FlattenSnoc(writes, chunk);
    assert image[..sent] + chunk == image[..sent + |chunk|];
  }

  /** The slice at the end of an in-order log extends it in order. */
  lemma AppendSliced(image: seq<bv8>, chunkSize: nat, writes: seq<seq<bv8>>, sent: nat)
    requires sent < |image|
    requires |Flatten(writes)| == sent
    requires SlicedInOrder(image, chunkSize, writes)
    ensures SlicedInOrder(image, chunkSize, writes + [Slice(image, sent, chunkSize)])
  {
    var writes' := writes + [Slice(image, sent, chunkSize)];
    assert writes'[..|writes'| - 1] == writes;
  }

  /** Writing the pending chunks after an in-order log keeps it in order. */
  lemma {:induction false} ChunksFromSliced(image: seq<bv8>, chunkSize: nat, writes: seq<seq<bv8>>, sent: nat)
    requires chunkSize >= 1 && sent <= |image|
    requires Flatten(writes) == image[..sent]
    requires SlicedInOrder(image, chunkSize, writes)
    ensures SlicedInOrder(image, chunkSize, writes + ChunksFrom(image, chunkSize, sent))
    decreases |image| - sent
  {
    if sent < |image| {
      var chunk := Slice(image, sent, chunkSize);
      var writes' := writes + [chunk];
      AppendFlatten(image, chunkSize, writes, sent);
      AppendSliced(image, chunkSize, writes, sent);
      ChunksFromSliced(image, chunkSize, writes', sent + |chunk|);
      AppendPending(image, chunkSize, writes, sent);
    } else {
      assert writes + ChunksFrom(image, chunkSize, sent) == writes;
    }
  }

  /** A prefix of an in-order log is in order. */
  lemma {:induction false} SlicedInOrderPrefix(image: seq<bv8>, chunkSize: nat, writes: seq<seq<bv8>>, n: nat)
    requires SlicedInOrder(image, chunkSize, writes)
    requires n <= |writes|
    ensures SlicedInOrder(image, chunkSize, writes[..n])
    decreases |writes|
  {
    if n < |writes| {
      SlicedInOrderPrefix(image, chunkSize, writes[..|writes| - 1], n);
      assert writes[..|writes| - 1][..n] == writes[..n];
    } else {
      assert writes[..n] == writes;
    }
  }

  /** Every prefix of the upload's writes is the image sliced in order:
      write `i` starts at the bytes sent before it and has length
      `Min(chunkSize, |image| - offset)`. */
  lemma ChunksSliced(image: seq<bv8>, chunkSize: nat, n: nat)
    requires chunkSize >= 1
    requires n <= |Chunks(image, chunkSize)|
    ensures SlicedInOrder(image, chunkSize, Chunks(image, chunkSize)[..n])
  {
    ChunksFromSliced(image, chunkSize, [], 0);
    assert [] + Chunks(image, chunkSize) == Chunks(image, chunkSize);
    SlicedInOrderPrefix(image, chunkSize, Chunks(image, chunkSize), n);
  }

  /** One more write moves one chunk from the pending list to the log. */
  lemma AppendPending(image: seq<bv8>, chunkSize: nat, writes: seq<seq<bv8>>, sent: nat)
    requires chunkSize >= 1 && sent < |image|
    ensures var chunk := Slice(image, sent, chunkSize);
            (writes + [chunk]) + ChunksFrom(image, chunkSize, sent + |chunk|) == writes + ChunksFrom(image, chunkSize, sent)
  {
    var chunk := Slice(image, sent, chunkSize);
    var rest := ChunksFrom(image, chunkSize, sent + |chunk|);
    assert ChunksFrom(image, chunkSize, sent) == [chunk] + rest;
    assert (writes + [chunk]) + rest == writes + ([chunk] + rest);
  }

  /** While bytes remain, the log is a proper prefix of all the writes. */
  lemma PendingAfterLog(image: seq<bv8>, chunkSize: nat, writes: seq<seq<bv8>>, sent: nat)
    requires chunkSize >= 1 && sent < |image|
    requires writes + ChunksFrom(image, chunkSize, sent) == Chunks(image, chunkSize)
    ensures |writes| < |Chunks(image, chunkSize)|
    ensures Chunks(image, chunkSize)[..|writes|] == writes
  {
    var rest := ChunksFrom(image, chunkSize, sent);
    assert |rest| > 0;
    assert (writes + rest)[..|writes|] == writes;
  }

  /** One more write adds one progress record. */
  lemma AppendReport(total: nat, writes: seq<seq<bv8>>, chunk: seq<bv8>)
    requires total > 0
    ensures Reports(total, writes + [chunk])
         == Reports(total, writes) + [Report(|Flatten(writes)| + |chunk|, total)]
  {
    AppendKeepsOffsets(writes, chunk);
  }

  /** The pending chunks complete the bytes of an in-order log to the image. */
  lemma {:induction false} ChunksFromFlatten(image: seq<bv8>, chunkSize: nat, writes: seq<seq<bv8>>, sent: nat)
    requires chunkSize >= 1 && sent <= |image|
    requires Flatten(writes) == image[..sent]
    ensures Flatten(writes + ChunksFrom(image, chunkSize, sent)) == image
    decreases |image| - sent
  {
    if sent < |image| {
      var chunk := Slice(image, sent, chunkSize);
      AppendFlatten(image, chunkSize, writes, sent);
      ChunksFromFlatten(image, chunkSize, writes + [chunk], sent + |chunk|);
      AppendPending(image, chunkSize, writes, sent);
    } else {
      assert writes + ChunksFrom(image, chunkSize, sent) == writes;
      assert image[..sent] == image;
    }
  }

  /** The chunks of an upload, laid end to end, are the image. */
  lemma ChunksConcat(image: seq<bv8>, chunkSize: nat)
    requires chunkSize >= 1
    ensures Flatten(Chunks(image, chunkSize)) == image
  {
    ChunksFromFlatten(image, chunkSize, [], 0);
    assert [] + Chunks(image, chunkSize) == Chunks(image, chunkSize);
  }

  /** Every chunk is non-empty and at most `chunkSize` long; all but the
      last are exactly `chunkSize` long. */
  predicate WellSized(chunks: seq<seq<bv8>>, chunkSize: nat) {
    forall i :: 0 <= i < |chunks| ==>
      1 <= |chunks[i]| <= chunkSize && (i < |chunks| - 1 ==> |chunks[i]| == chunkSize)
  }

  lemma {:induction false} ChunksFromLengths(image: seq<bv8>, chunkSize: nat, sent: nat)
    requires chunkSize >= 1 && sent <= |image|
    ensures WellSized(ChunksFrom(image, chunkSize, sent), chunkSize)
    decreases |image| - sent
  {
    if sent < |image| {
      var chunk := Slice(image, sent, chunkSize);
      var rest := ChunksFrom(image, chunkSize, sent + |chunk|);
      ChunksFromLengths(image, chunkSize, sent + |chunk|);
      var cs := ChunksFrom(image, chunkSize, sent);
      assert cs == [chunk] + rest;
      assert |chunk| == Min(chunkSize, |image| - sent);
      if sent + |chunk| == |image| {
        assert rest == [];
      } else {
        assert |chunk| == chunkSize;
      }
      forall i | 0 <= i < |cs|
        ensures 1 <= |cs[i]| <= chunkSize && (i < |cs| - 1 ==> |cs[i]| == chunkSize)
      {
        if i > 0 {
          assert cs[i] == rest[i - 1];
        } else {
          assert cs[i] == chunk;
        }
      }
    }
  }

  /** The chunks of an upload are well sized. */
  lemma ChunkLengths(image: seq<bv8>, chunkSize: nat)
    requires chunkSize >= 1
    ensures WellSized(Chunks(image, chunkSize), chunkSize)
  {
    ChunksFromLengths(image, chunkSize, 0);
  }

  /** Ceiling of `n / k`. */
  function CeilDiv(n: nat, k: nat): nat
    requires k >= 1
  {
    (n + k - 1) / k
  }

  lemma MulCancel(d: int, a: int, b: int)
    requires d > 0 && d * a < d * b
    ensures a < b
  {
  }

  /** `q` is `x / d` when `x` lies in `[d * q, d * q + d)`. */
  lemma DivUnique(x: int, d: int, q: int)
    requires d > 0 && d * q <= x < d * q + d
    ensures x / d == q
  {
    var r := x / d;
    assert d * r <= x < d * r + d;
    MulCancel(d, r, q + 1);
    MulCancel(d, q, r + 1);
  }

  lemma CeilDivStep(n: nat, k: nat)
    requires k >= 1 && n > k
    ensures CeilDiv(n, k) == 1 + CeilDiv(n - k, k)
  {
    var q := (n - 1) / k;
    assert k * q <= n - 1 < k * q + k;
    DivUnique(n + k - 1, k, q + 1);
  }

  lemma CeilDivSmall(n: nat, k: nat)
    requires k >= 1 && n <= k
    ensures CeilDiv(n, k) == (if n == 0 then 0 else 1)
  {
    if n == 0 {
      DivUnique(k - 1, k, 0);
    } else {
      DivUnique(n + k - 1, k, 1);
    }
  }

  /** There are `ceil((|image| - sent) / chunkSize)` pending chunks. */
  lemma {:induction false} ChunksFromCount(image: seq<bv8>, chunkSize: nat, sent: nat)
    requires chunkSize >= 1 && sent <= |image|
    ensures |ChunksFrom(image, chunkSize, sent)| == CeilDiv(|image| - sent, chunkSize)
    decreases |image| - sent
  {
    var m := |image| - sent;
    if m <= chunkSize {
      CeilDivSmall(m, chunkSize);
      if m > 0 {
        assert ChunksFrom(image, chunkSize, sent + m) == [];
      }
    } else {
      ChunksFromCount(image, chunkSize, sent + chunkSize);
      CeilDivStep(m, chunkSize);
    }
  }

  /** An upload writes `ceil(|image| / chunkSize)` chunks. */
  lemma ChunkCount(image: seq<bv8>, chunkSize: nat)
    requires chunkSize >= 1
    ensures |Chunks(image, chunkSize)| == CeilDiv(|image|, chunkSize)
  {
    ChunksFromCount(image, chunkSize, 0);
  }

  /** An empty image is sent with no write, and its checksum is 0. */
  lemma EmptyImage(chunkSize: nat)
    requires chunkSize >= 1
    ensures Chunks([], chunkSize) == []
    ensures Crc32.ChecksumValue([]) == 0
  {
    assert Crc32.Checksum([]) == 0;
  }

  /** All bytes sent reads as 100 percent. */
  lemma PercentageFull(total: nat)
    requires total > 0
    ensures Percentage(total, total) == 100
  {
    DivUnique(200 * total + total, 2 * total, 100);
  }

  /** The percentage never exceeds 100. */
  lemma PercentageBound(sent: nat, total: nat)
    requires total > 0 && sent <= total
    ensures Percentage(sent, total) <= 100
  {
    var x := 200 * sent + total;
    var d := 2 * total;
    var r := x / d;
    assert d * r <= x;
    MulCancel(d, r, 101);
  }

  /** Bytes sent after write `i` grow by the length of write `i`. */
  lemma OffsetStep(writes: seq<seq<bv8>>, i: nat)
    requires i < |writes|
    ensures OffsetOf(writes, i + 1) == OffsetOf(writes, i) + |writes[i]|
  {
    assert writes[..i + 1][..i] == writes[..i];
  }

  /** The progress reports of a complete upload: bytes sent strictly grow,
      the total is always the image length, percentages stay within 0..100,
      and the last report says all bytes and 100 percent. */
  lemma ProgressFacts(image: seq<bv8>, chunkSize: nat)
    requires chunkSize >= 1 && |image| > 0
    ensures var rs := Reports(|image|, Chunks(image, chunkSize));
            && |rs| > 0
            && (forall i :: 0 <= i < |rs| ==> rs[i].totalBytes == |image| && rs[i].percentage <= 100)
            && (forall i :: 0 <= i < |rs| - 1 ==> rs[i].sentBytes < rs[i + 1].sentBytes)
            && rs[|rs| - 1].sentBytes == |image|
            && rs[|rs| - 1].percentage == 100
  {
    var cs := Chunks(image, chunkSize);
    var rs := Reports(|image|, cs);
    ChunksConcat(image, chunkSize);
    ChunkLengths(image, chunkSize);
    assert |cs| > 0;
    assert cs[..|cs|] == cs;
    forall i | 0 <= i < |rs|
      ensures rs[i].totalBytes == |image| && rs[i].percentage <= 100
    {
      FlattenPrefixLength(cs, i + 1);
      PercentageBound(OffsetOf(cs, i + 1), |image|);
    }
    forall i | 0 <= i < |rs| - 1
      ensures rs[i].sentBytes < rs[i + 1].sentBytes
    {
      OffsetStep(cs, i + 1);
      assert |cs[i + 1]| >= 1;
    }
    PercentageFull(|image|);
  }

  /** Bytes sent after a prefix of the writes never exceed the total. */
  lemma {:induction false} FlattenPrefixLength(writes: seq<seq<bv8>>, n: nat)
    requires n <= |writes|
    ensures OffsetOf(writes, n) <= |Flatten(writes)|
    decreases |writes| - n
  {
    if n < |writes| {
      OffsetStep(writes, n);
      FlattenPrefixLength(writes, n + 1);
    } else {
      assert writes[..n] == writes;
    }
  }

  /** One pass of the source's loop for any chunk size, zero included:
      the bytes sent after writing `image.slice(sent, sent + chunkSize)`. */
  function LoopStep(image: seq<bv8>, chunkSize: nat, sent: nat): (next: nat)
    requires sent <= |image|
    ensures sent <= next <= |image|
    ensures chunkSize >= 1 && sent < |image| ==> next > sent
  {
    sent + |Slice(image, sent, chunkSize)|
  }

  /** The bytes sent after `n` passes of the loop, starting from `sent`. */
  function Passes(image: seq<bv8>, chunkSize: nat, sent: nat, n: nat): (r: nat)
    requires sent <= |image|
    ensures sent <= r <= |image|
    decreases n
  {
    if n == 0 then sent else Passes(image, chunkSize, LoopStep(image, chunkSize, sent), n - 1)
  }

  /** As written, a chunk size of 0 never sends a byte: after any number of
      passes nothing is sent, so the loop condition `sent < image.length`
      stays true for a non-empty image and the upload never returns. */
  lemma {:induction false} ZeroChunkSizeNeverFinishes(image: seq<bv8>, n: nat)
    requires |image| > 0
    ensures Passes(image, 0, 0, n) == 0 < |image|
    decreases n
  {
    if n > 0 {
      assert LoopStep(image, 0, 0) == 0;
      ZeroChunkSizeNeverFinishes(image, n - 1);
    }
  }

  /** One pass of the upload loop keeps the log, the byte count and the
      progress records in step with the chunking. */
  lemma SendStep(image: seq<bv8>, chunkSize: nat, writes: seq<seq<bv8>>, progress: seq<DfuProgress>, sent: nat)
    requires chunkSize >= 1 && sent < |image|
    requires writes + ChunksFrom(image, chunkSize, sent) == Chunks(image, chunkSize)
    requires |Flatten(writes)| == sent
    requires progress == Reports(|image|, writes)
    ensures var chunk := Slice(image, sent, chunkSize);
            && sent + |chunk| <= |image|
            && (writes + [chunk]) + ChunksFrom(image, chunkSize, sent + |chunk|) == Chunks(image, chunkSize)
            && |Flatten(writes + [chunk])| == sent + |chunk|
            && progress + [Report(sent + |chunk|, |image|)] == Reports(|image|, writes + [chunk])
  {
    var chunk := Slice(image, sent, chunkSize);
    AppendPending(image, chunkSize, writes, sent);
    AppendReport(|image|, writes, chunk);
    FlattenSnoc(writes, chunk);
  }

  /** The upload loop: writes chunks until the image is out or the
      transport rejects the write numbered `failAt`. */
  method SendChunks(image: seq<bv8>, chunkSize: nat, failAt: Option<nat>)
    returns (writes: seq<seq<bv8>>, progress: seq<DfuProgress>, sent: nat)
    requires chunkSize >= 1
    ensures sent <= |image|
    ensures writes + ChunksFrom(image, chunkSize, sent) == Chunks(image, chunkSize)
    ensures sent < |image| ==> failAt == Some(|writes|)
    ensures failAt.Some? ==> failAt.value >= |writes|
    ensures |progress| == |writes|
    ensures |image| > 0 ==> progress == Reports(|image|, writes)
  {
    writes := [];
    progress := [];
    sent := 0;
    while sent < |image| && failAt != Some(|writes|)
      invariant sent <= |image|
      invariant writes + ChunksFrom(image, chunkSize, sent) == Chunks(image, chunkSize)
      invariant |Flatten(writes)| == sent
      invariant failAt.Some? ==> failAt.value >= |writes|
      invariant |progress| == |writes|
      invariant |image| > 0 ==> progress == Reports(|image|, writes)
      decreases |image| - sent
    {
      var chunk := Slice(image, sent, chunkSize);
      SendStep(image, chunkSize, writes, progress, sent);
      writes := writes + [chunk];
      sent := sent + |chunk|;
      progress := progress + [Report(sent, |image|)];
    }
  }

  /** Uploads `image` chunk by chunk and returns the checksum of the whole
      image. `failAt`, when present, is the index of the write the transport
      rejects; the upload is then abandoned with the earlier writes done. */
  method Upload(image: seq<bv8>, chunkSize: nat, failAt: Option<nat>)
    returns (writes: seq<seq<bv8>>, progress: seq<DfuProgress>, result: Result<nat, TransportError>)
    requires chunkSize >= 1
    ensures var all := Chunks(image, chunkSize);
            && (result.Success? <==> failAt.None? || failAt.value >= |all|)
            && (result.Success? ==> writes == all && result.value == Crc32.ChecksumValue(image))
            && (result.Failure? ==> writes == all[..failAt.value] && result.error == WriteFailed(failAt.value))
    ensures |progress| == |writes|
    ensures |image| > 0 ==> progress == Reports(|image|, writes)
  {
    var sent;
    writes, progress, sent := SendChunks(image, chunkSize, failAt);
    if sent < |image| {
      PendingAfterLog(image, chunkSize, writes, sent);
      result := Failure(WriteFailed(|writes|));
    } else {
      assert writes + [] == writes;
      var crc := Crc32.Compute(image);
      assert crc == Crc32.Checksum(image);
      result := Success(crc as nat);
    }
  }
}
