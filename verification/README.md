# OpenAwair firmware update, modelled in Dafny

This project models the firmware-update (DFU) pipeline of the OpenAwair host
firmware, and proves properties of that model. The pipeline has five parts:

- the table-driven CRC-32 of IEEE 802.3 (clause 3.2.9, Frame Check Sequence);
- the device's chunk-reassembly session: a zero-filled buffer of fixed size with a bounds guard, a running byte counter and a checksum gate;
- the bootloader's decision gate over a string key/value flash store;
- the in-memory flash store itself;
- the host's chunked uploader: fixed-size slices, progress records, and the returned checksum.

It also models the smaller pieces of the firmware:

- the REST router's method-and-path lookup;
- the last-write-wins merge of sensor readings;
- the MQTT topic builders;
- the Home Assistant discovery topics;
- the WiFi provisioning state machine;
- the device's relay flag.

Everything is functional. Sessions, stores, routers and states are immutable
values threaded through transition functions. Exceptions become `Result`
failures with a named error.

Module map:

| module | file | models |
|---|---|---|
| `Wrappers` | wrappers.dfy | `Option`, `Result`, `Min` |
| `Crc32` | crc32.dfy | `host/src/shared/crc32.ts` |
| `Dfu` | dfu.dfy | `host/src/firmware/bootloader/dfu.ts` |
| `Decimal` | decimal.dfy | base-10 `toString` / `parseInt` of naturals |
| `Flash` | flash.dfy | `host/src/firmware/storage/flash.ts` |
| `Bootloader` | bootloader.dfy | `host/src/firmware/bootloader/bootloader.ts` |
| `DfuClient` | dfu_client.dfy | `host/src/loader/ble/dfuClient.ts` |
| `Pipeline` | pipeline.dfy | uploader, session and bootloader together |
| `RestRouter` | rest_router.dfy | `host/src/firmware/networking/restRouter.ts` |
| `Sensor` | sensor.dfy | `mergeReadings` in `host/src/firmware/sensors/sensor.ts` |
| `Mqtt` | mqtt.dfy | `host/src/firmware/networking/mqtt.ts` |
| `MqttDiscovery` | mqtt_discovery.dfy | `host/src/firmware/networking/mqttDiscovery.ts` |
| `Wifi` | wifi.dfy | `host/src/firmware/networking/wifi.ts` |
| `Device` | device.dfy | the relay flag of `host/src/firmware/device.ts` |

Representation choices:

- **CRC registers.** They are `bv32` and bytes are `bv8`. JavaScript's `^`, `&` and `>>>` only ever carry a 32-bit pattern, so 32-bit vectors are exact.
- **Stored checksums.** In images and sessions they are `nat`, because JavaScript numbers are compared with `===`. A stored checksum of 2^32 or more therefore never verifies.
- **Chunk offsets.** They are `int`. A negative offset passes the size guard in `acceptChunk`, and then `Uint8Array.set` throws. The model reports that as `NegativeOffset`, with no change to the session.
- **Transport.** The uploader's transport is an append-only log of written chunks. A failing write is modelled as the parameter `failAt`, the index of the write the transport rejects.

## Model

| member | source | states |
|---|---|---|
| `Crc32.BuildTable` | host/src/shared/crc32.ts:1-11 | the built table has exactly 256 entries, and entry i is i after eight rounds of "xor 0xEDB88320 into the right shift when the low bit is set" |
| `Crc32.KnownEntries` | host/src/shared/crc32.ts:1-11 | table entries 254, 230, 110 and 55 have the values of the standard IEEE 802.3 table |
| `Crc32.Index` | host/src/shared/crc32.ts:16 | the lookup index `(crc ^ byte) & 0xff` is always a valid table position |
| `Crc32.ChecksumValue` | host/src/shared/crc32.ts:19 | the checksum, read as a number, is an unsigned 32-bit value |
| `Crc32.Compute` | host/src/shared/crc32.ts:13-20 | the byte loop from 0xFFFFFFFF, followed by the final inversion, equals the recursive definition `Checksum` |
| `Crc32.Checksum` | host/src/shared/crc32.ts:13-20 | the checksum of no bytes is 0 (the start value and the final inversion cancel) |
| `Crc32.RoundLinear` | host/src/shared/crc32.ts:6 | one polynomial round distributes over xor: the round of `a ^ b` is the xor of the rounds |
| `Crc32.RoundsLinear` | host/src/shared/crc32.ts:5-7 | any number of rounds distributes over xor |
| `Crc32.RoundsOfHighBits` | host/src/shared/crc32.ts:5-7 | eight rounds of a register whose low byte is zero are a plain shift right by 8: no polynomial is ever xored in |
| `Crc32.StepIsBitwise` | host/src/shared/crc32.ts:16-17 | one table step `(crc >>> 8) ^ table[(crc ^ byte) & 0xff]` equals xoring the byte into the register and running eight bitwise rounds |
| `Crc32.FoldIsBitwise` | host/src/shared/crc32.ts:15-18 | the table-driven byte loop computes the same register as the bit-at-a-time loop, from any start register |
| `Crc32.ChecksumIsBitwise` | host/src/shared/crc32.ts:1-20 | the table-driven checksum is the bit-at-a-time reflected CRC-32 of IEEE 802.3 (polynomial 0xEDB88320, start and final xor 0xFFFFFFFF) |
| `Crc32.FoldAppend` | host/src/shared/crc32.ts:15-18 | streaming: the register after `a + b` is the register after `b` started from the register after `a` |
| `Crc32.FoldSnoc` | host/src/shared/crc32.ts:15-18 | one more byte is exactly one more table step on the register |
| `Crc32.KnownVector` | host/test/crc32.test.ts:7-8 | the checksum of bytes 1, 2, 3, 4, 5 is 0x470B99F4 |
| `Dfu.CreateFirmwareImage` | host/src/firmware/bootloader/dfu.ts:13-15 | the image keeps its bytes unchanged and carries their checksum |
| `Dfu.NewSession` | host/src/firmware/bootloader/dfu.ts:17-27 | a new session has a buffer of exactly `size` zero bytes, nothing received, and the given checksum and size |
| `Dfu.AcceptChunk` | host/src/firmware/bootloader/dfu.ts:29-35 | fails exactly when the chunk runs past `size` (the size error, checked first) or starts before 0 (the negative-offset error); on success the chunk's bytes are at its offset, every other byte and the buffer length are unchanged, and the counter grows by the chunk length |
| `Dfu.FeedAll` | host/src/firmware/bootloader/dfu.ts:29-35 | chunks applied in order never change the buffer length, the size or the expected checksum |
| `Dfu.FeedAllCounts` | host/src/firmware/bootloader/dfu.ts:34 | after a run of accepted chunks the counter is the sum of their lengths, whatever their offsets |
| `Dfu.CounterIgnoresCoverage` | host/src/firmware/bootloader/dfu.ts:34-39 | the same one-byte chunk sent twice into a two-byte session makes it complete while byte 1 was never written |
| `Dfu.CompleteWhenFedEnough` | host/src/firmware/bootloader/dfu.ts:34-39 | `isComplete` of a fresh session after a run of accepted chunks holds exactly when their total length reaches the size |
| `Dfu.VerifyIsIeeeCheck` | host/src/firmware/bootloader/dfu.ts:37-46 | `verify` holds exactly when the counter has reached the size and the expected checksum is the bit-at-a-time IEEE 802.3 CRC of the buffer; every other expected checksum is refused |
| `Dfu.GetImage` | host/src/firmware/bootloader/dfu.ts:48-53 | fails with the checksum error exactly when verification fails; otherwise it returns the buffer with the expected checksum, which is the buffer's own checksum |
| `Dfu.TwoChunkScenario` | host/src/firmware/bootloader/dfu.ts:29-53 | any image split at any point into two chunks, fed in order to a session of its size with any expected checksum, completes with the image in its buffer; `verify` holds exactly when the expected checksum is the image's, and `getImage` then returns the image, else fails with the checksum error |
| `Dfu.SixByteScenario` | host/test/dfu.test.ts:12-21 | the bytes 10..15 fed as chunks [0,3) and [3,6) complete and verify, and the session returns the image with its checksum |
| `Decimal.Show` | host/src/firmware/bootloader/bootloader.ts:38-39 | base-10 text of a natural is a non-empty digit string with no leading zero |
| `Decimal.Parse` | host/src/firmware/bootloader/bootloader.ts:34 | a value is parsed exactly when the text is a non-empty digit string |
| `Decimal.ParseShow` | host/src/firmware/bootloader/bootloader.ts:34-39 | parsing the base-10 text of n gives back n |
| `Decimal.ShowInjective` | host/src/firmware/bootloader/bootloader.ts:38-39 | distinct numbers are written as distinct texts |
| `Flash.Empty` | host/src/firmware/storage/flash.ts:7 | a fresh store reads absent for every key |
| `Flash.Read` | host/src/firmware/storage/flash.ts:9-11 | a key reads a value exactly when it is stored, and that value is the stored one |
| `Flash.Write` | host/src/firmware/storage/flash.ts:13-15 | read-after-write gives the written value, every other key reads as before, and only the written key is added |
| `Flash.LastWriteWins` | host/src/firmware/storage/flash.ts:13-15 | two writes to one key leave the store as the second write alone does |
| `Flash.WritesCommute` | host/src/firmware/storage/flash.ts:13-15 | writes to two different keys can be swapped |
| `Bootloader.DecideBoot` | host/src/firmware/bootloader/bootloader.ts:21-24 | the device enters DFU exactly when the flag key holds "1"; an absent key or any other value boots the application |
| `Bootloader.OnlyOneEntersDfu` | host/src/firmware/bootloader/bootloader.ts:21-24 | writing any flag value other than "1" makes the device boot the application, and writing "1" makes it enter DFU |
| `Bootloader.PrepareDfuSession` | host/src/firmware/bootloader/bootloader.ts:26-35 | fails as missing metadata exactly when the checksum or size key is absent or empty; fails with the typed array's range error exactly when both are present, the checksum is a digit string and the size is a digit string above 2^53 - 1; succeeds exactly when both are digit strings and the size is at most 2^53 - 1; the session's checksum and size are the decimal values of the stored texts, and it starts zero-filled with nothing received |
| `Bootloader.PrepareReadsShownNumbers` | host/src/firmware/bootloader/bootloader.ts:26-35 | with two numbers stored as their decimal text, prepare opens the session for exactly those numbers, or fails with the range error when the size is above 2^53 - 1 |
| `Bootloader.CommitFirmware` | host/src/firmware/bootloader/bootloader.ts:37-41 | after the commit the flag reads "0"; the size key holds the decimal length unless it is the flag; the checksum key holds the decimal checksum unless it aliases a later write; every other key is unchanged |
| `Bootloader.CommitThenBootApp` | host/src/firmware/bootloader/bootloader.ts:21-41 | after a commit the device boots the application, even when keys alias, because the flag is written last |
| `Bootloader.CommitThenPrepare` | host/src/firmware/bootloader/bootloader.ts:26-41 | with three distinct keys, and a checksum and length no larger than JavaScript's largest exact integer, preparing after a commit gives the session for the committed image's checksum and length |
| `DfuClient.ClientChunkSize` | host/src/loader/ble/dfuClient.ts:17-20 | the chunk size is 128 unless one is given |
| `DfuClient.Slice` | host/src/loader/ble/dfuClient.ts:25 | a slice has length `min(chunkSize, length - sent)` |
| `DfuClient.ChunksSliced` | host/src/loader/ble/dfuClient.ts:23-27 | every prefix of the upload's writes is a run of consecutive slices of the image, each starting where the previous ones end |
| `DfuClient.ChunksConcat` | host/src/loader/ble/dfuClient.ts:23-27 | the written chunks concatenate to exactly the image |
| `DfuClient.ChunkLengths` | host/src/loader/ble/dfuClient.ts:25 | every chunk is 1 to chunkSize bytes long, and all but the last are exactly chunkSize |
| `DfuClient.ChunkCount` | host/src/loader/ble/dfuClient.ts:24-32 | the number of writes is `ceil(length / chunkSize)` |
| `DfuClient.EmptyImage` | host/src/loader/ble/dfuClient.ts:24-34 | an empty image is written as no chunks, and its checksum is 0 |
| `DfuClient.PercentageBound` | host/src/loader/ble/dfuClient.ts:31 | the reported percentage never exceeds 100 |
| `DfuClient.PercentageFull` | host/src/loader/ble/dfuClient.ts:31 | all bytes sent is 100 percent |
| `DfuClient.ProgressFacts` | host/src/loader/ble/dfuClient.ts:27-32 | for a non-empty image: every report has the image length as total and at most 100 percent; sentBytes strictly increases; the last report is the full length at 100 |
| `DfuClient.SendChunks` | host/src/loader/ble/dfuClient.ts:23-33 | the loop's log plus the chunks still pending is always the whole chunking; it stops early only at the failing write; there is one progress report per write, each giving the bytes sent up to and including that write |
| `DfuClient.Upload` | host/src/loader/ble/dfuClient.ts:22-35 | succeeds exactly when no write fails; then the writes are the chunking and the result is the checksum of the whole image; after a failure at write i, exactly the first i chunks were written and the error names i; progress matches the writes |
| `DfuClient.LoopStep` | host/src/loader/ble/dfuClient.ts:24-27 | one pass of the loop never moves `sent` backwards or past the end, and moves it forward when chunkSize is at least 1 |
| `DfuClient.ZeroChunkSizeNeverFinishes` | host/src/loader/ble/dfuClient.ts:17-27 | with chunkSize 0 and a non-empty image, `sent` is still 0 after any number of passes |
| `Pipeline.FeedRemaining` | host/src/firmware/bootloader/dfu.ts:29-35 | a session already holding the first `sent` bytes of the image, fed the remaining chunks at offset "bytes sent so far", ends holding exactly the image with the counter at its length |
| `Pipeline.UploadThenReassemble` | host/src/loader/ble/dfuClient.ts:22-34 | a session sized to the image with any expected checksum, fed the uploader's chunks in order, completes with exactly the image in its buffer; it verifies exactly when the expected checksum is the image's, and then returns the image, otherwise the checksum error |
| `Pipeline.PrepareFromStoredMetadata` | host/src/firmware/bootloader/bootloader.ts:26-35 | with the image's decimal checksum and length stored, the bootloader opens the session the upload of that image expects, and an image longer than 2^53 - 1 bytes gets the range error instead |
| `Pipeline.UpdateCycle` | host/src/firmware/bootloader/bootloader.ts:21-41 | for an image whose length is an exact JavaScript integer, stored metadata, then prepare, feed and release, then commit: the released image is the uploaded one, the device then boots the application, and preparing again gives the same session |
| `RestRouter.RouteKeyInjective` | host/src/firmware/networking/restRouter.ts:16-23 | the map key `method:path` determines the method and the path |
| `RestRouter.NewRouter` | host/src/firmware/networking/restRouter.ts:14-26 | a router with no endpoint answers every request 404 with the not-found body |
| `RestRouter.Handle` | host/src/firmware/networking/restRouter.ts:21-30 | the status is 200 or 404; it is 404 exactly when the method and path are not registered, and then the body is the not-found body |
| `RestRouter.Register` | host/src/firmware/networking/restRouter.ts:16-19 | afterwards the endpoint's method and path answer 200 with its body; every other method and path answers as before |
| `RestRouter.ReregisterReplaces` | host/src/firmware/networking/restRouter.ts:16-19 | registering the same method and path twice routes as if only the later endpoint had been registered |
| `RestRouter.MethodsAreSeparate` | host/src/firmware/networking/restRouter.ts:16-29 | a path registered under GET is not found under POST |
| `Sensor.MergeStep` | host/src/firmware/sensors/sensor.ts:11-15 | one merge step takes the reading's timestamp, and for each field the reading's value when it has one, else the accumulated value |
| `Sensor.MergeReadings` | host/src/firmware/sensors/sensor.ts:9-18 | merging nothing gives timestamp 0 and no field; otherwise the merged timestamp is the last reading's |
| `Sensor.MergeField` | host/src/firmware/sensors/sensor.ts:9-18 | a merged field is absent exactly when no reading defines it, and otherwise it is the value of the last reading that defines it |
| `Sensor.MergeSingleton` | host/src/firmware/sensors/sensor.ts:9-18 | merging one reading gives that reading |
| `Sensor.MergeAppend` | host/src/firmware/sensors/sensor.ts:9-18 | merging `a + b` gives, field by field, the merge of `b` spread over the merge of `a`, and the timestamp of `b`'s merge when `b` is non-empty: readings can be merged in batches |
| `Mqtt.ParseDeviceTopicRoundTrip` | host/src/firmware/networking/mqtt.ts:11-18 | a device topic parses back to its device id and channel |
| `Mqtt.DeviceTopicInjective` | host/src/firmware/networking/mqtt.ts:11-18 | two devices, or the telemetry and availability channels, never share a topic |
| `Mqtt.AvailabilityIsNotTelemetry` | host/src/firmware/networking/mqtt.ts:11-18 | no availability topic ends in `/telemetry` |
| `Mqtt.BuildTelemetryMessage` | host/src/firmware/networking/mqtt.ts:9-14 | the message goes to the device's telemetry topic and carries the serialised metrics |
| `Mqtt.BuildAvailabilityMessage` | host/src/firmware/networking/mqtt.ts:16-21 | the message goes to the device's availability topic, and its payload is "online" exactly when available, "offline" otherwise |
| `Mqtt.TelemetryTopicExample` | host/test/mqtt.test.ts:19 | device `awair-01` publishes telemetry on `openawair/awair-01/telemetry` |
| `MqttDiscovery.BuildDiscoveryMessages` | host/src/firmware/networking/mqttDiscovery.ts:19-50 | fails exactly when the device has no identifier; otherwise there is one message per sensor, in order, with topic `homeassistant/sensor/<first identifier>/<unique id>/config` |
| `MqttDiscovery.ConfigTopicInjective` | host/src/firmware/networking/mqttDiscovery.ts:46 | under one base identifier, the topic determines the sensor's unique id |
| `MqttDiscovery.DistinctSensorsDistinctTopics` | host/src/firmware/networking/mqttDiscovery.ts:27-49 | sensors with distinct unique ids get distinct discovery topics |
| `MqttDiscovery.ConfigTopicExample` | host/test/mqttDiscovery.test.ts:27 | sensor `awair-01-temp` of device `awair-01` is announced on `homeassistant/sensor/awair-01/awair-01-temp/config` |
| `MqttDiscovery.GlowTemperatureExample` | host/test/mqttDiscovery.test.ts:7-27 | the tested device and sensor give exactly one message, on that topic |
| `Wifi.Initial` | host/src/firmware/networking/wifi.ts:8 | a new manager is idle |
| `Wifi.Apply` | host/src/firmware/networking/wifi.ts:14-24 | each call leaves a non-idle state: start gives provisioning with its ssid, complete gives connected with its ssid and ip, fail gives error with its reason |
| `Wifi.ApplyIgnoresPriorState` | host/src/firmware/networking/wifi.ts:14-24 | no transition is guarded: the prior state never affects the result |
| `Wifi.RunIsLastEvent` | host/src/firmware/networking/wifi.ts:7-24 | after any calls the state is idle if there were none, and otherwise it is the last call applied to an idle manager |
| `Wifi.RecoverAfterFailure` | host/src/firmware/networking/wifi.ts:14-24 | start, fail, then complete ends connected |
| `Device.NewRelay` | host/src/firmware/device.ts:7 | the relay starts disabled |
| `Device.ToggleRelay` | host/src/firmware/device.ts:23-29 | a toggle flips the reported relay state |
| `Device.ToggleTwice` | host/src/firmware/device.ts:23-25 | two toggles restore the relay |
| `Device.RelayStateObservable` | host/src/firmware/device.ts:7-29 | `getRelayState` tells relays apart exactly (two relays report the same state only when equal), and reports enabled exactly for the relay one toggle away from the start |
| `Device.ToggleParity` | host/src/firmware/device.ts:23-29 | after n toggles the relay is flipped exactly when n is odd |

## Left out

- JSON serialisation is library behaviour, so it is not modelled. This covers MQTT payloads, discovery payloads, REST bodies and the not-found body's exact bytes. Serialised payloads are parameters; the not-found body is the constant `{"error":"Not found"}`.
- An endpoint's asynchronous handler is represented by the fixed body it answers with. The relay and metrics endpoints of `host/src/firmware/networking/rest.ts` are glue and are not part of this model.
- The sensor drivers, `host/src/firmware/sensors/scheduler.ts` and `AwairDevice.collectMetrics` are not part of this model. They produce constant floating-point readings and orchestrate promises; their only logic is `mergeReadings`, which is modelled.
- `host/src/loader/wifi/provisioning.ts` is not part of this model; it is an asynchronous transport wrapper.
- Promises, `await` and the `onProgress` callback are not modelled. The transport is an append-only log, and progress records are returned as a sequence.
- Dates are opaque integer timestamps, and sensor values are opaque reals.
- `getState` and `getRelayState` read a value without changing it; in a functional model that holds by construction.
- The MQTT builders are stateless and deterministic. In a functional model this holds by construction.
- Chunk offsets that are not integers (fractional JavaScript numbers) are not modelled.
- A negative session size is not representable, because `size` is a `nat`. The source's `new Uint8Array(-1)` would throw.
- `Dfu.NewSession`: it allocates for every natural size. The source's constructor throws a RangeError above 2^53 - 1, which the model reports as `SizeOutOfRange` in `Bootloader.PrepareDfuSession`, the only place a size comes from outside. The engine may also refuse smaller sizes it cannot allocate; that limit is not part of the language and is not modelled.
- `DfuClient.ProgressFacts`: the percentage is modelled as exact rational round-half-up, `(200 * sent + total) div (2 * total)`, not as the floating-point `Math.round((sent / total) * 100)`. The two can differ where float division rounds across a .5 boundary. The stated facts are bounds, monotonicity and the final 100.
- `Decimal.Parse`: `Number.parseInt` leniency is not modelled: leading whitespace, a sign, trailing junk, and `NaN` turning into a session of size `NaN`. Only non-empty digit strings parse, and `Bootloader.PrepareDfuSession` reports any other stored text as the `MalformedMetadata` error.
- `Decimal.Parse`: it keeps the exact value of every digit string, while `parseInt` rounds one above 2^53 - 1 to the nearest double ("9007199254740993" reads as 9007199254740992). Neither use in the bootloader can tell: a size above the bound is the range error either way, since the rounded value is still above it, and a checksum above it never equals a CRC-32, which is below 2^32.
- `Bootloader.PrepareDfuSession`: the code tests `!value`, so an empty stored string counts as missing, the same as an absent key; the model does the same.
- `Decimal.Show`: it writes exact decimal digits for every natural. JavaScript's `toString(10)` agrees only up to `Decimal.MaxSafeInteger` (2^53 - 1): above it the number is already rounded, and from 10^21 on the text is exponent notation such as `1e+21`, which `parseInt` reads back as 1. Neither is modelled.
- `Bootloader.CommitFirmware`: a checksum or length above `Decimal.MaxSafeInteger` is stored as exact digits, where the source would store rounded or exponent text; `Bootloader.CommitThenPrepare` therefore requires both to be at most that bound. Real CRC-32 values are below 2^32, far inside it.
- `Dfu.GetImage`: the source returns the session's own buffer (dfu.ts:52), and `createFirmwareImage` keeps the caller's array (dfu.ts:14). A later `acceptChunk`, or any write to that array, changes the released image's bytes while its `crc` stays as it was. The model returns an immutable snapshot, so its `crc == checksum(bytes)` holds for good, not only at the moment of return.
- `DfuClient.ClientChunkSize`: the source accepts any number as the chunk size. A negative or fractional size is not modelled: the size is a natural. For example, with -1 and a 5-byte image, `slice(0, -1)` sends 4 bytes and then `slice(4, 3)` sends empty chunks forever. Only the size 0 is covered by the Findings row.
- `Sensor.MergeStep`: a reading whose field is present but explicitly `undefined` would, through object spread, erase an earlier value. An absent optional field is modelled as `None`, which never overrides.
- `DfuClient.Upload`: requires a chunk size of at least 1; see Findings for the source's behaviour with 0.

## Findings

| source | as written | input that shows it | evidently intended | confidence | as-written member | corrected member |
|---|---|---|---|---|---|---|
| host/src/loader/ble/dfuClient.ts:17-27 | the chunk size is not checked, and each pass advances `sent` by the slice length `min(chunkSize, length - sent)` | `chunkSize = 0` with any non-empty image: every slice is empty, `sent` stays 0, and the loop writes empty chunks forever | a chunk size of at least 1, so that every pass advances and the upload ends after `ceil(length / chunkSize)` writes | not executed | `DfuClient.ZeroChunkSizeNeverFinishes` | `DfuClient.Upload` |
