/** The persisted boot decision gate of host/src/firmware/bootloader/bootloader.ts.

    The store is passed in and returned explicitly. `DecideBoot` and
    `PrepareDfuSession` return no store, so they cannot change it. */
module Bootloader {
  import opened Wrappers
  import opened Flash
  import Decimal
  import Dfu

  datatype BootDecision = BootApp | EnterDfu

  /** Which keys of the store carry the boot state. */
  datatype BootConfig = BootConfig(dfuFlagKey: string, firmwareCrcKey: string, firmwareSizeKey: string)
  {
    predicate DistinctKeys() {
      dfuFlagKey != firmwareCrcKey && dfuFlagKey != firmwareSizeKey && firmwareCrcKey != firmwareSizeKey
    }
  }

  datatype BootError =
    | MissingMetadata    // a metadata key is absent or holds the empty string
    | MalformedMetadata  // a metadata value is not a string of decimal digits
    | SizeOutOfRange     // `new Uint8Array(size)` throws RangeError: size above 2^53 - 1

  /** JavaScript truthiness of a `string | undefined`: present and non-empty. */
  predicate Truthy(v: Option<string>) {
    v.Some? && v.value != ""
  }

  /** Enter the update mode exactly when the flag holds "1". */
  function DecideBoot(store: FlashStore, config: BootConfig): (d: BootDecision)
    ensures d == EnterDfu <==> Read(store, config.dfuFlagKey) == Some("1")
    ensures d == BootApp <==> Read(store, config.dfuFlagKey) != Some("1")
  {
    if Read(store, config.dfuFlagKey) == Some("1") then EnterDfu else BootApp
  }

  /** Opens a session anchored to the stored checksum and size. The session
      constructor allocates `size` bytes, and a typed array refuses a length
      above `Decimal.MaxSafeInteger` with a RangeError. A digit string above
      that bound still reads as a number above it after JavaScript rounds it,
      so comparing the exact value with the bound decides the error. */
  function PrepareDfuSession(store: FlashStore, config: BootConfig): (r: Result<Dfu.Session, BootError>)
    ensures var crc := Read(store, config.firmwareCrcKey);
            var size := Read(store, config.firmwareSizeKey);
            && (r == Failure(MissingMetadata) <==> !Truthy(crc) || !Truthy(size))
            && (r == Failure(SizeOutOfRange) <==>
                  && Truthy(crc) && Truthy(size) && Decimal.AllDigits(crc.value)
                  && Decimal.Parse(size.value).Some? && Decimal.Parse(size.value).value > Decimal.MaxSafeInteger)
            && (r.Success? <==> Truthy(crc) && Truthy(size)
                                && Decimal.AllDigits(crc.value) && Decimal.AllDigits(size.value)
                                && Decimal.Parse(size.value).value <= Decimal.MaxSafeInteger)
            && (r.Success? ==>
                  && r.value.Valid()
                  && r.value.size <= Decimal.MaxSafeInteger
                  && Decimal.Parse(crc.value) == Some(r.value.expectedCrc)
                  && Decimal.Parse(size.value) == Some(r.value.size)
                  && r.value.received == 0
                  && forall i :: 0 <= i < |r.value.buffer| ==> r.value.buffer[i] == 0)
  {
    var crcValue := Read(store, config.firmwareCrcKey);
    var sizeValue := Read(store, config.firmwareSizeKey);
    if !Truthy(crcValue) || !Truthy(sizeValue) then
      Failure(MissingMetadata)
    else
      match (Decimal.Parse(crcValue.value), Decimal.Parse(sizeValue.value))
      case (Some(crc), Some(size)) =>
        if size > Decimal.MaxSafeInteger then Failure(SizeOutOfRange) else Success(Dfu.NewSession(crc, size))
      case _ => Failure(MalformedMetadata)
  }

  /** Records the image's checksum and length, then clears the update flag,
      in that order. */
  function CommitFirmware(store: FlashStore, config: BootConfig, image: Dfu.FirmwareImage): (st: FlashStore)
    ensures Read(st, config.dfuFlagKey) == Some("0")
    ensures config.firmwareSizeKey != config.dfuFlagKey ==>
      Read(st, config.firmwareSizeKey) == Some(Decimal.Show(|image.bytes|))
    ensures config.firmwareCrcKey != config.dfuFlagKey && config.firmwareCrcKey != config.firmwareSizeKey ==>
      Read(st, config.firmwareCrcKey) == Some(Decimal.Show(image.crc))
    ensures forall key ::
      key != config.dfuFlagKey && key != config.firmwareCrcKey && key != config.firmwareSizeKey ==>
      Read(st, key) == Read(store, key)
  {
    var st1 := Write(store, config.firmwareCrcKey, Decimal.Show(image.crc));
    var st2 := Write(st1, config.firmwareSizeKey, Decimal.Show(|image.bytes|));
    Write(st2, config.dfuFlagKey, "0")
  }

  /** After a commit the next boot runs the application, whatever the keys,
      because the flag is written last. */
  lemma CommitThenBootApp(store: FlashStore, config: BootConfig, image: Dfu.FirmwareImage)
    ensures DecideBoot(CommitFirmware(store, config, image), config) == BootApp
  {
  }

  /** Prepare reads back numbers stored as their decimal text: the session
      they describe, unless the size is too large for a typed array. */
  lemma PrepareReadsShownNumbers(store: FlashStore, config: BootConfig, crc: nat, size: nat)
    requires Read(store, config.firmwareCrcKey) == Some(Decimal.Show(crc))
    requires Read(store, config.firmwareSizeKey) == Some(Decimal.Show(size))
    ensures PrepareDfuSession(store, config)
         == if size <= Decimal.MaxSafeInteger then Success(Dfu.NewSession(crc, size)) else Failure(SizeOutOfRange)
  {
    Decimal.ParseShow(crc);
    Decimal.ParseShow(size);
  }

  /** With three distinct keys, a commit followed by a prepare yields a fresh
      session anchored to the committed image, for any checksum and length
      a JavaScript number holds exactly. */
  lemma CommitThenPrepare(store: FlashStore, config: BootConfig, image: Dfu.FirmwareImage)
    requires config.DistinctKeys()
    requires image.crc <= Decimal.MaxSafeInteger && |image.bytes| <= Decimal.MaxSafeInteger
    ensures PrepareDfuSession(CommitFirmware(store, config, image), config)
            == Success(Dfu.NewSession(image.crc, |image.bytes|))
  {
    Decimal.ParseShow(image.crc);
    Decimal.ParseShow(|image.bytes|);
  }

  /** The flag's update-mode value survives neither a commit nor any value
      other than exactly "1": enter the update mode only on "1". */
  lemma OnlyOneEntersDfu(store: FlashStore, config: BootConfig, v: string)
    requires v != "1"
    ensures DecideBoot(Write(store, config.dfuFlagKey, v), config) == BootApp
    ensures DecideBoot(Write(store, config.dfuFlagKey, "1"), config) == EnterDfu
  {
  }
}
