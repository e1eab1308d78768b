/** The device-side reassembly session of host/src/firmware/bootloader/dfu.ts.

    A session owns a zero-filled buffer of the agreed size and absorbs
    offset-tagged chunks. The source mutates the session in place; here each
    operation returns the new session, and a failing operation returns only
    an error, so the caller's session is untouched. */
module Dfu {
  import opened Wrappers
  import Crc32

  /** Raw bytes paired with a checksum. The checksum is a JavaScript number,
      hence a `nat`: an image built from metadata may carry any value. */
  datatype FirmwareImage = FirmwareImage(bytes: seq<bv8>, crc: nat)

  /** A fragment of the image, tagged with its byte offset. */
  datatype FirmwareChunk = FirmwareChunk(offset: int, data: seq<bv8>)

  datatype DfuError =
    | ChunkExceedsSize   // the guard of acceptChunk
    | NegativeOffset     // Uint8Array.set rejects a negative offset
    | CrcMismatch        // getImage on an unverified session

  /** The session state: the private fields of the source's class. */
  datatype Session = Session(expectedCrc: nat, size: nat, buffer: seq<bv8>, received: nat)
  {
    /** The class invariant: the buffer always has exactly `size` bytes. */
    ghost predicate Valid() {
      |buffer| == size
    }
  }

  /** An image is trusted when its checksum is the checksum of its bytes. */
  ghost predicate Trusted(image: FirmwareImage) {
    image.crc == Crc32.ChecksumValue(image.bytes)
  }

  /** A sequence of `n` zero bytes, as `new Uint8Array(n)` allocates. */
  function Zeros(n: nat): (z: seq<bv8>)
    ensures |z| == n
    ensures forall i :: 0 <= i < n ==> z[i] == 0
  {
    seq(n, _ => 0)
  }

  /** Pairs bytes with their own checksum. */
  function CreateFirmwareImage(bytes: seq<bv8>): (image: FirmwareImage)
    ensures image.bytes == bytes
    ensures Trusted(image)
  {
    FirmwareImage(bytes, Crc32.ChecksumValue(bytes))
  }

  /** Opens a session anchored to an expected checksum and size. */
  function NewSession(expectedCrc: nat, size: nat): (s: Session)
    ensures s.Valid()
    ensures s.expectedCrc == expectedCrc && s.size == size
    ensures forall i :: 0 <= i < |s.buffer| ==> s.buffer[i] == 0
    ensures s.received == 0
  {
    Session(expectedCrc, size, Zeros(size), 0)
  }

  /** `buf` with `data` copied in at `offset`. */
  function Overwrite(buf: seq<bv8>, offset: nat, data: seq<bv8>): (r: seq<bv8>)
    requires offset + |data| <= |buf|
    ensures |r| == |buf|
    ensures forall i :: 0 <= i < |data| ==> r[offset + i] == data[i]
    ensures forall i :: 0 <= i < |buf| && !(offset <= i < offset + |data|) ==> r[i] == buf[i]
  {
    buf[..offset] + data + buf[offset + |data|..]
  }

  /** Absorbs one chunk. The size guard runs before anything changes; the
      counter grows by the chunk length whether or not the chunk overlaps
      bytes written before. */
  function AcceptChunk(s: Session, chunk: FirmwareChunk): (r: Result<Session, DfuError>)
    requires s.Valid()
    ensures r.Failure? <==> chunk.offset + |chunk.data| > s.size || chunk.offset < 0
    ensures chunk.offset + |chunk.data| > s.size ==> r == Failure(ChunkExceedsSize)
    ensures chunk.offset < 0 && chunk.offset + |chunk.data| <= s.size ==> r == Failure(NegativeOffset)
    ensures r.Success? ==>
      var t := r.value;
      && t.Valid()
      && t.expectedCrc == s.expectedCrc && t.size == s.size
      && t.received == s.received + |chunk.data|
      && t.buffer[chunk.offset..chunk.offset + |chunk.data|] == chunk.data
      && (forall i :: 0 <= i < s.size && !(chunk.offset <= i < chunk.offset + |chunk.data|)
            ==> t.buffer[i] == s.buffer[i])
  {
    if chunk.offset + |chunk.data| > s.size then
      Failure(ChunkExceedsSize)
    else if chunk.offset < 0 then
      Failure(NegativeOffset)
    else
      var buf := Overwrite(s.buffer, chunk.offset, chunk.data);
      assert buf[chunk.offset..chunk.offset + |chunk.data|] == chunk.data;
      Success(s.(buffer := buf, received := s.received + |chunk.data|))
  }

  /** Completion only compares the running counter with the size. */
  predicate IsComplete(s: Session) {
    s.received >= s.size
  }

  /** A complete session whose buffer has the expected checksum. */
  predicate Verify(s: Session) {
    if !IsComplete(s) then false else Crc32.ChecksumValue(s.buffer) == s.expectedCrc
  }

  /** Releases the buffer as an image, only when it verifies. */
  function GetImage(s: Session): (r: Result<FirmwareImage, DfuError>)
    ensures r.Failure? <==> !Verify(s)
    ensures r.Failure? ==> r.error == CrcMismatch
    ensures r.Success? ==> r.value.bytes == s.buffer && r.value.crc == s.expectedCrc
    ensures r.Success? ==> Trusted(r.value) && IsComplete(s)
  {
    if !Verify(s) then Failure(CrcMismatch) else Success(FirmwareImage(s.buffer, s.expectedCrc))
  }

  /** Applies chunks in order, stopping at the first failure. */
  function FeedAll(s: Session, chunks: seq<FirmwareChunk>): (r: Result<Session, DfuError>)
    requires s.Valid()
    ensures r.Success? ==> r.value.Valid() && r.value.size == s.size && r.value.expectedCrc == s.expectedCrc
    decreases |chunks|
  {
    if |chunks| == 0 then Success(s)
    else
      match AcceptChunk(s, chunks[0])
      case Failure(e) => Failure(e)
      case Success(t) => FeedAll(t, chunks[1..])
  }

  /** Total length of the data of `chunks`. */
  function TotalLength(chunks: seq<FirmwareChunk>): nat
    decreases |chunks|
  {
    if |chunks| == 0 then 0 else |chunks[0].data| + TotalLength(chunks[1..])
  }

  /** The counter is the sum of the accepted lengths. */
  lemma {:induction false} FeedAllCounts(s: Session, chunks: seq<FirmwareChunk>)
    requires s.Valid()
    requires FeedAll(s, chunks).Success?
    ensures FeedAll(s, chunks).value.received == s.received + TotalLength(chunks)
    decreases |chunks|
  {
    if |chunks| > 0 {
      var t := AcceptChunk(s, chunks[0]).value;
      FeedAllCounts(t, chunks[1..]);
    }
  }

  /** The counter does not track coverage: writing the first byte of a
      two-byte session twice completes it while its second byte was never
      written. */
  lemma CounterIgnoresCoverage()
    ensures var s := NewSession(0, 2);
            var r := FeedAll(s, [FirmwareChunk(0, [7]), FirmwareChunk(0, [7])]);
            && r.Success?
            && IsComplete(r.value)
            && r.value.buffer == [7, 0]
  {
    var s := NewSession(0, 2);
    var c := FirmwareChunk(0, [7]);
    var t := AcceptChunk(s, c).value;
    assert t.buffer == [7, 0];
    var u := AcceptChunk(t, c).value;
    assert u.buffer == [7, 0];
    assert [c, c][1..] == [c];
  }

  /** A session opened for `size` bytes and fed a run of chunks is
      complete exactly when the chunks carry at least `size` bytes in total,
      wherever they land. */
  lemma CompleteWhenFedEnough(expectedCrc: nat, size: nat, chunks: seq<FirmwareChunk>)
    requires FeedAll(NewSession(expectedCrc, size), chunks).Success?
    ensures IsComplete(FeedAll(NewSession(expectedCrc, size), chunks).value) <==> TotalLength(chunks) >= size
  {
    FeedAllCounts(NewSession(expectedCrc, size), chunks);
  }

  /** The verification gate, read against the bit-at-a-time CRC of IEEE
      802.3 instead of the lookup table: a session verifies exactly when it
      is complete and its expected checksum is the bitwise CRC of its
      buffer, so for every expected checksum other than that one it refuses. */
  lemma VerifyIsIeeeCheck(s: Session)
    ensures Verify(s) <==> IsComplete(s) && s.expectedCrc == (Crc32.BitwiseFold(Crc32.Init, s.buffer) ^ Crc32.Init) as nat
  {
    Crc32.ChecksumIsBitwise(s.buffer);
  }

  /** The test case of the source, for any image, any split point and any
      expected checksum: the chunks `[0, k)` and `[k, |image|)` complete the
      session with the image in its buffer; it verifies exactly when the
      expected checksum is the image's, and then releases the image, and
      otherwise refuses with the checksum error. */
  lemma TwoChunkScenario(image: seq<bv8>, k: nat, expectedCrc: nat)
    requires k <= |image|
    ensures var s := NewSession(expectedCrc, |image|);
            var r := FeedAll(s, [FirmwareChunk(0, image[..k]), FirmwareChunk(k, image[k..])]);
            && r.Success?
            && IsComplete(r.value)
            && r.value.buffer == image
            && (Verify(r.value) <==> expectedCrc == Crc32.ChecksumValue(image))
            && GetImage(r.value) == if expectedCrc == Crc32.ChecksumValue(image)
                                    then Success(CreateFirmwareImage(image))
                                    else Failure(CrcMismatch)
  {
    var s := NewSession(expectedCrc, |image|);
    var c0 := FirmwareChunk(0, image[..k]);
    var c1 := FirmwareChunk(k, image[k..]);
    var t := AcceptChunk(s, c0).value;
    var u := AcceptChunk(t, c1).value;
    assert u.buffer == image by {
      assert u.buffer[..k] == t.buffer[..k] == image[..k];
      assert u.buffer[k..] == image[k..];
      assert u.buffer == u.buffer[..k] + u.buffer[k..];
    }
    assert [c0, c1][1..] == [c1];
    assert AcceptChunk(s, c0) == Success(t);
    assert AcceptChunk(t, c1) == Success(u);
    assert FeedAll(u, []) == Success(u);
    assert FeedAll(t, [c1]) == Success(u);
    assert FeedAll(s, [c0, c1]) == Success(u);
    assert u.received == |image|;
  }

  /** The source's six-byte test case. */
  lemma SixByteScenario()
    ensures var image: seq<bv8> := [10, 11, 12, 13, 14, 15];
            var fw := CreateFirmwareImage(image);
            var r := FeedAll(NewSession(fw.crc, 6), [FirmwareChunk(0, image[..3]), FirmwareChunk(3, image[3..])]);
            r.Success? && IsComplete(r.value) && Verify(r.value) && GetImage(r.value) == Success(fw)
  {
    var image: seq<bv8> := [10, 11, 12, 13, 14, 15];
    TwoChunkScenario(image, 3, CreateFirmwareImage(image).crc);
    assert |image| == 6;
  }
}
