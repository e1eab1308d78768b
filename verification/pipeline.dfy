/** The update pipeline end to end: the host's uploader feeding a device
    session, and the bootloader around it. */
module Pipeline {
  import opened Wrappers
  import Crc32
  import Decimal
  import Flash
  import Dfu
  import DfuClient
  import Bootloader

  /** Tags each written chunk with the bytes written before it. */
  function Tagged(writes: seq<seq<bv8>>, offset: nat): (chunks: seq<Dfu.FirmwareChunk>)
    ensures |chunks| == |writes|
    decreases |writes|
  {
    if |writes| == 0 then []
    else [Dfu.FirmwareChunk(offset, writes[0])] + Tagged(writes[1..], offset + |writes[0]|)
  }

  /** The tagged pending chunks start with the next slice at `sent`. */
  lemma TaggedStep(image: seq<bv8>, chunkSize: nat, sent: nat)
    requires chunkSize >= 1 && sent < |image|
    ensures var chunk := DfuClient.Slice(image, sent, chunkSize);
            var tagged := Tagged(DfuClient.ChunksFrom(image, chunkSize, sent), sent);
            && |tagged| > 0
            && tagged[0] == Dfu.FirmwareChunk(sent, chunk)
            && tagged[1..] == Tagged(DfuClient.ChunksFrom(image, chunkSize, sent + |chunk|), sent + |chunk|)
  {
    var chunk := DfuClient.Slice(image, sent, chunkSize);
    var rest := DfuClient.ChunksFrom(image, chunkSize, sent + |chunk|);
    assert DfuClient.ChunksFrom(image, chunkSize, sent) == [chunk] + rest;
    assert ([chunk] + rest)[1..] == rest;
  }

  /** A session holding the first `sent` bytes of `image` accepts the next
      slice and then holds the bytes up to its end. */
  lemma AcceptNextSlice(image: seq<bv8>, chunkSize: nat, sent: nat, s: Dfu.Session)
    requires chunkSize >= 1 && sent < |image|
    requires s.Valid() && s.size == |image| && s.received == sent
    requires s.buffer[..sent] == image[..sent]
    ensures var chunk := DfuClient.Slice(image, sent, chunkSize);
            var next := sent + |chunk|;
            var r := Dfu.AcceptChunk(s, Dfu.FirmwareChunk(sent, chunk));
            && next <= |image|
            && r.Success?
            && r.value.Valid() && r.value.size == |image| && r.value.received == next
            && r.value.expectedCrc == s.expectedCrc
            && r.value.buffer[..next] == image[..next]
  {
    var chunk := DfuClient.Slice(image, sent, chunkSize);
    var next := sent + |chunk|;
    var t := Dfu.AcceptChunk(s, Dfu.FirmwareChunk(sent, chunk)).value;
    forall i | 0 <= i < next
      ensures t.buffer[i] == image[i]
    {
      if i < sent {
        assert s.buffer[i] == s.buffer[..sent][i];
      } else {
        assert t.buffer[i] == t.buffer[sent..next][i - sent];
      }
    }
  }

  /** A session holding the first `sent` bytes of `image`, fed the rest of
      the upload's chunks in order, ends up holding exactly `image`. */
  lemma {:induction false} FeedRemaining(image: seq<bv8>, chunkSize: nat, sent: nat, s: Dfu.Session)
    requires chunkSize >= 1 && sent <= |image|
    requires s.Valid() && s.size == |image| && s.received == sent
    requires s.buffer[..sent] == image[..sent]
    ensures var r := Dfu.FeedAll(s, Tagged(DfuClient.ChunksFrom(image, chunkSize, sent), sent));
            && r.Success?
            && r.value.buffer == image
            && r.value.received == |image|
            && r.value.expectedCrc == s.expectedCrc
    decreases |image| - sent
  {
    if sent == |image| {
      assert DfuClient.ChunksFrom(image, chunkSize, sent) == [];
      assert s.buffer == s.buffer[..sent];
    } else {
      var chunk := DfuClient.Slice(image, sent, chunkSize);
      var next := sent + |chunk|;
      TaggedStep(image, chunkSize, sent);
      AcceptNextSlice(image, chunkSize, sent, s);
      var t := Dfu.AcceptChunk(s, Dfu.FirmwareChunk(sent, chunk)).value;
      FeedRemaining(image, chunkSize, next, t);
    }
  }

  /** Feeding the uploader's chunks in order (offset = bytes sent so far)
      to a session sized to the image completes it with exactly the image in
      its buffer, whatever checksum it expects; it verifies exactly when the
      expected checksum is the image's, and then releases the image, and
      otherwise refuses with the checksum error. */
  lemma UploadThenReassemble(image: seq<bv8>, chunkSize: nat, expectedCrc: nat)
    requires chunkSize >= 1
    ensures var r := Dfu.FeedAll(Dfu.NewSession(expectedCrc, |image|), Tagged(DfuClient.Chunks(image, chunkSize), 0));
            && r.Success?
            && Dfu.IsComplete(r.value)
            && r.value.buffer == image
            && (Dfu.Verify(r.value) <==> expectedCrc == Crc32.ChecksumValue(image))
            && Dfu.GetImage(r.value) == if expectedCrc == Crc32.ChecksumValue(image)
                                        then Success(Dfu.CreateFirmwareImage(image))
                                        else Failure(Dfu.CrcMismatch)
  {
    var s := Dfu.NewSession(expectedCrc, |image|);
    assert s.buffer[..0] == image[..0];
    FeedRemaining(image, chunkSize, 0, s);
  }

  /** With the image's checksum and size stored, the bootloader opens the
      session the image's upload expects, unless the image is too long for a
      typed array. */
  lemma PrepareFromStoredMetadata(store: Flash.FlashStore, config: Bootloader.BootConfig, image: seq<bv8>)
    requires Flash.Read(store, config.firmwareCrcKey) == Some(Decimal.Show(Crc32.ChecksumValue(image)))
    requires Flash.Read(store, config.firmwareSizeKey) == Some(Decimal.Show(|image|))
    ensures Bootloader.PrepareDfuSession(store, config)
         == if |image| <= Decimal.MaxSafeInteger then Success(Dfu.NewSession(Crc32.ChecksumValue(image), |image|))
            else Failure(Bootloader.SizeOutOfRange)
  {
    Bootloader.PrepareReadsShownNumbers(store, config, Crc32.ChecksumValue(image), |image|);
  }

  /** The update cycle: with the image's checksum and size stored, the
      bootloader opens a session, the uploaded chunks complete it, the
      released image is the uploaded one, and after the commit the device
      boots the application and expects that same image next time. */
  lemma UpdateCycle(store: Flash.FlashStore, config: Bootloader.BootConfig, image: seq<bv8>, chunkSize: nat)
    requires chunkSize >= 1 && config.DistinctKeys() && |image| <= Decimal.MaxSafeInteger
    requires Flash.Read(store, config.firmwareCrcKey) == Some(Decimal.Show(Crc32.ChecksumValue(image)))
    requires Flash.Read(store, config.firmwareSizeKey) == Some(Decimal.Show(|image|))
    ensures var prepared := Bootloader.PrepareDfuSession(store, config);
            && prepared.Success?
            && var fed := Dfu.FeedAll(prepared.value, Tagged(DfuClient.Chunks(image, chunkSize), 0));
            && fed.Success?
            && Dfu.GetImage(fed.value) == Success(Dfu.CreateFirmwareImage(image))
            && var committed := Bootloader.CommitFirmware(store, config, Dfu.CreateFirmwareImage(image));
            && Bootloader.DecideBoot(committed, config) == Bootloader.BootApp
            && Bootloader.PrepareDfuSession(committed, config) == prepared
  {
    var fw := Dfu.CreateFirmwareImage(image);
    PrepareFromStoredMetadata(store, config, image);
    UploadThenReassemble(image, chunkSize, fw.crc);
    Bootloader.CommitThenBootApp(store, config, fw);
    Bootloader.CommitThenPrepare(store, config, fw);
  }
}
