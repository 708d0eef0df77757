# VbmetaPatcher engine, modelled in Dafny

VbmetaPatcher is an Android app that switches Android Verified Boot on or off
by rewriting one byte of a device's vbmeta partitions. This project models its
engine: the two classes `SlotState` (one per vbmeta partition) and
`DeviceState` (the device's A/B slot pair).

- **Header reading** (module `Vbmeta`, with `BigEndian` for `ByteBuffer`):
  - the first 256 bytes of a partition form libavb's `AvbVBMetaImageHeader`;
  - the format check wants the magic `AVB0` at offset 0 and a release string that starts with `avbtool` at offset 128;
  - the authentication and auxiliary data block sizes are signed big-endian 64-bit values at offsets 12 and 20;
  - the flags word is a signed big-endian 32-bit value at offset 120;
  - `imageSize = roundToMultiple(256 + auth + aux, 4096)` is computed in Kotlin `Long` arithmetic, with Kotlin's truncating `%`;
  - the status is Patched exactly when the flags word equals 3;
  - the fingerprint `sha1` hashes the first `imageSize` bytes; for a Patched partition it hashes a scratch copy whose byte 123 has been cleared.
- **The engine** (module `Slot`, class `SlotState`): `refresh`, `refreshPatchStatus`, `setFlags`, and `patch`/`restore` run through `launch` under the shared busy flag.
  - A partition is a `Partition` object: a byte array and a read-only switch.
  - Each root shell command is one of its methods.
  - Whether `blockdev --setrw`, the one-byte `dd` write and `blockdev --setro` succeed is given as a parameter each. The source ignores the outcome of the write and of `--setro`: `setFlags` returns true whenever `--setrw` succeeded, and re-reads byte 123 to learn the status.
  - SHA-1 is the injected function `sha1sum`.
- **The topology** (module `Device`, class `DeviceState`): construction looks up the hardware platform, then the `/misc` device in the vendor fstab.
  - `vbmeta_a` and `vbmeta_b` are resolved as siblings of that device.
  - It then reads the boot slot suffix and opens engine A, then engine B.
  - `refresh` refreshes A, then B.
  - Shell lookups are given as the lines they print.

Behaviour kept as the code has it:
- The device is always treated as two-slot.
- When `blockdev --setrw` fails, `setFlags` returns false and writes nothing.
- When `--setrw` succeeds but the write does not land, `setFlags` still returns true, and the status it re-reads is the old byte's.
- The status check in `refresh` reads the whole flags word. The check in `refreshPatchStatus` reads only byte 123. The two disagree when bytes 120..122 are not all zero: `Vbmeta.StatusChecksAgree` states exactly when they agree.
- `refresh` assigns `patchStatus` before it computes the fingerprint. If the engine over the scratch copy then throws, the new status stays and `sha1` keeps its old value.
- An exception inside `launch` ends the coroutine before `false` is emitted, so the busy flag stays set.
- A non-standard flags value reads as Stock.

## Model

| member | source | states |
|---|---|---|
| BigEndian.Decode | app/src/main/java/com/github/capntrips/vbmetapatcher/SlotState.kt:47-48 | the value of n bytes, first byte most significant, is below 256^n |
| BigEndian.DecodeEncode | app/src/main/java/com/github/capntrips/vbmetapatcher/SlotState.kt:47-52 | decoding the big-endian encoding of a value gives the value back |
| BigEndian.EncodeDecode | app/src/main/java/com/github/capntrips/vbmetapatcher/SlotState.kt:47-52 | encoding the decoded value of a byte string at its width gives the bytes back, so decoding is injective |
| BigEndian.GetLong | app/src/main/java/com/github/capntrips/vbmetapatcher/SlotState.kt:47-52 | `getLong` at an offset is the two's-complement value of eight bytes; it is non-negative exactly when the first byte is below 0x80 |
| BigEndian.GetInt | app/src/main/java/com/github/capntrips/vbmetapatcher/SlotState.kt:59-60 | `getInt` at an offset is the two's-complement value of four bytes; non-negative exactly when the first byte is below 0x80 |
| BigEndian.ToSigned64 | app/src/main/java/com/github/capntrips/vbmetapatcher/SlotState.kt:48 | a 64-bit reading lies in the `Long` range, is congruent to the unsigned value, and is negative exactly in the upper half |
| Vbmeta.AuthenticationDataBlockSize | app/src/main/java/com/github/capntrips/vbmetapatcher/SlotState.kt:47-48 | the value at offset 12 is a `Long`, negative exactly when byte 12 has its high bit set |
| Vbmeta.AuxiliaryDataBlockSize | app/src/main/java/com/github/capntrips/vbmetapatcher/SlotState.kt:51-52 | the value at offset 20 is a `Long`, negative exactly when byte 20 has its high bit set |
| Vbmeta.Flags | app/src/main/java/com/github/capntrips/vbmetapatcher/SlotState.kt:59-60 | the flags word at offset 120 is an `Int`, negative exactly when byte 120 has its high bit set |
| Vbmeta.Read | app/src/main/java/com/github/capntrips/vbmetapatcher/SlotState.kt:43 | a `dd skip count` read yields the bytes from `skip` on, at most `count` of them, and nothing past the end |
| Vbmeta.CheckFormat | app/src/main/java/com/github/capntrips/vbmetapatcher/SlotState.kt:138-146 | the check passes exactly for bytes with `AVB0` at 0 and `avbtool` at 128; an empty first read, or a missing release string behind a good magic, throws instead of failing |
| Vbmeta.Wrap64 | app/src/main/java/com/github/capntrips/vbmetapatcher/SlotState.kt:56 | `Long` arithmetic: the result is in range, congruent to the exact value, and equal to it when that is in range |
| Vbmeta.TruncRem | app/src/main/java/com/github/capntrips/vbmetapatcher/SlotState.kt:151 | Kotlin `%`: the remainder has the dividend's sign, is smaller than the divisor, leaves a multiple, and is zero exactly for multiples |
| Vbmeta.RoundToMultiple | app/src/main/java/com/github/capntrips/vbmetapatcher/SlotState.kt:150-153 | the result is a multiple of `size` and at least `number`; it equals `number` exactly when that is a multiple; for non-negative `number` it is less than `number + size` |
| Vbmeta.RoundToMultipleIsLeast | app/src/main/java/com/github/capntrips/vbmetapatcher/SlotState.kt:150-153 | for non-negative `number`, no multiple of `size` at or above `number` is below the result |
| Vbmeta.RoundToMultipleNegativeOvershoots | app/src/main/java/com/github/capntrips/vbmetapatcher/SlotState.kt:150-153 | for a negative `number` that is not a multiple, the truncating remainder overshoots by exactly one block: one block less is still a multiple at or above `number`, two blocks less is below it |
| Vbmeta.ImageSizeOf | app/src/main/java/com/github/capntrips/vbmetapatcher/SlotState.kt:47-56 | the image size is a `Long`; with non-negative block sizes whose padded sum fits, it is a positive multiple of 4096, at least 256 + auth + aux and less than one block above it (`ImageSize` applies it to the two header fields) |
| Vbmeta.ImageSizeIsLeast | app/src/main/java/com/github/capntrips/vbmetapatcher/SlotState.kt:47-56 | under the same condition, the image size is the least multiple of 4096 covering header and both blocks |
| Vbmeta.FlagByte | app/src/main/java/com/github/capntrips/vbmetapatcher/SlotState.kt:127 | the byte written for a target status is 0x00 or 0x03, and reading it back gives that status |
| Vbmeta.FlagByteRoundTrip | app/src/main/java/com/github/capntrips/vbmetapatcher/SlotState.kt:81-85 | for the two bytes the engine writes, reading the status back and writing the byte for it gives the same byte, so `ByteStatus` and `FlagByte` are inverse on 0x00 and 0x03 |
| Vbmeta.FlagsWordIsThree | app/src/main/java/com/github/capntrips/vbmetapatcher/SlotState.kt:58-60 | the flags word equals 3 exactly when bytes 120..123 are 00 00 00 03 |
| Vbmeta.WordStatus | app/src/main/java/com/github/capntrips/vbmetapatcher/SlotState.kt:59-60 | `refresh` reads Patched exactly when bytes 120..123 are 00 00 00 03 |
| Vbmeta.StatusChecksAgree | app/src/main/java/com/github/capntrips/vbmetapatcher/SlotState.kt:79-86 | the word check of `refresh` and the byte check of `refreshPatchStatus` agree exactly when byte 123 is not 0x03 or bytes 120..122 are zero |
| Vbmeta.StatusChecksDisagreeOnHighFlags | app/src/main/java/com/github/capntrips/vbmetapatcher/SlotState.kt:79-86 | flags 00 00 01 03: `refreshPatchStatus` says Patched, `refresh` says Stock |
| Vbmeta.Prefix | app/src/main/java/com/github/capntrips/vbmetapatcher/SlotState.kt:75 | `dd count=n` hashes the first n bytes, the whole partition when n is larger, nothing when n is not positive |
| Vbmeta.Fingerprint | app/src/main/java/com/github/capntrips/vbmetapatcher/SlotState.kt:62-76 | computing `sha1` can fail only for a Patched partition, and then with the format-check error of its `imageSize`-byte copy |
| Vbmeta.Inspect | app/src/main/java/com/github/capntrips/vbmetapatcher/SlotState.kt:39-77 | a successful refresh implies a valid format and a status read from the flags word |
| Vbmeta.FingerprintIsCanonical | app/src/main/java/com/github/capntrips/vbmetapatcher/SlotState.kt:62-76 | the fingerprint is the hash of the first `imageSize` bytes, with byte 123 cleared when Patched; it fails only when a Patched image's copy is too short to pass the format check |
| Vbmeta.HeaderOfPrefix | app/src/main/java/com/github/capntrips/vbmetapatcher/SlotState.kt:68-71 | the scratch copy reads the same image size and status as the partition it was copied from |
| Vbmeta.FingerprintIgnoresPatch | app/src/main/java/com/github/capntrips/vbmetapatcher/SlotState.kt:62-76 | with zero upper flag bytes and sizes in range, writing 0x00 or 0x03 at 123 leaves the same fingerprint: a Stock image and its patched twin hash alike |
| Vbmeta.PrefixKeepsFormat | app/src/main/java/com/github/capntrips/vbmetapatcher/SlotState.kt:68-70 | a copy of a vbmeta partition that still holds the release string passes the nested engine's format check |
| Vbmeta.ImageHashIgnoresPatch | app/src/main/java/com/github/capntrips/vbmetapatcher/SlotState.kt:63-66 | the nested engine over a copy with zero upper flag bytes and flags byte 0x00 or 0x03 hashes the copy with a Stock flags byte |
| Vbmeta.RefreshSucceedsOnSaneHeader | app/src/main/java/com/github/capntrips/vbmetapatcher/SlotState.kt:39-77 | a vbmeta partition with non-negative block sizes whose padded sum fits a `Long` always refreshes |
| Slot.Partition.SetReadWrite | app/src/main/java/com/github/capntrips/vbmetapatcher/SlotState.kt:126 | `blockdev --setrw` reports the device's verdict and clears read-only only on success |
| Slot.Partition.SetReadOnly | app/src/main/java/com/github/capntrips/vbmetapatcher/SlotState.kt:129 | `blockdev --setro` sets read-only when it succeeds |
| Slot.Partition.WriteByte | app/src/main/java/com/github/capntrips/vbmetapatcher/SlotState.kt:128 | the one-byte `dd` write replaces exactly that byte when the command succeeds on a writable device, and changes nothing otherwise |
| Slot.BusyFlag.Emit | app/src/main/java/com/github/capntrips/vbmetapatcher/SlotState.kt:90-92 | an emission sets the value and is appended to the emitted values |
| Slot.SlotState.Open | app/src/main/java/com/github/capntrips/vbmetapatcher/SlotState.kt:35-37 | construction succeeds exactly when the first refresh does; the new engine holds that reading |
| Slot.SlotState.Refresh | app/src/main/java/com/github/capntrips/vbmetapatcher/SlotState.kt:39-77 | format check first; on success the status from the flags word and the canonical fingerprint; on failure no fingerprint change, and the partition is never written |
| Slot.SlotState.RefreshPatchStatus | app/src/main/java/com/github/capntrips/vbmetapatcher/SlotState.kt:79-86 | the status becomes Patched exactly when byte 123 is 0x03 |
| Slot.SlotState.SetFlags | app/src/main/java/com/github/capntrips/vbmetapatcher/SlotState.kt:122-136 | a bad format throws before any write; a failed `setrw` returns false with nothing changed; otherwise true is returned whether or not the write lands, exactly byte 123 becomes 0x03 or 0x00 when it does, `setro` runs, the status is re-read from byte 123 (the target when the write landed), and `sha1` is untouched |
| Slot.SlotState.Launch | app/src/main/java/com/github/capntrips/vbmetapatcher/SlotState.kt:88-94 | true is emitted before the operation and false after it; an exception leaves the flag set |
| Slot.SlotState.Patch | app/src/main/java/com/github/capntrips/vbmetapatcher/SlotState.kt:106-112 | `setFlags(Patched)` under the busy flag |
| Slot.SlotState.Restore | app/src/main/java/com/github/capntrips/vbmetapatcher/SlotState.kt:114-120 | `setFlags(Stock)` under the busy flag |
| Slot.PatchTwice | app/src/main/java/com/github/capntrips/vbmetapatcher/SlotState.kt:106-112 | two patches on a vbmeta partition return the two `setrw` verdicts; once one attempt's `setrw` and write both succeed, byte 123 is 0x03, every other byte is unchanged and the status is Patched; otherwise nothing is written |
| Slot.SetFlagsThenRefresh | app/src/main/java/com/github/capntrips/vbmetapatcher/SlotState.kt:122-131 | a `setFlags` with a successful `setrw` followed by `refresh`, on a header with zero upper flag bytes and sizes in range: the refresh passes; when the write landed it reports the target status and the fingerprint of the image with a Stock flags byte, whichever the target; when it did not, it reads the unchanged partition |
| Device.Dir | app/src/main/java/com/github/capntrips/vbmetapatcher/DeviceState.kt:48-50 | the directory part of a path is a prefix that is empty or ends in '/', and the rest holds no '/' |
| Device.ResolveSibling | app/src/main/java/com/github/capntrips/vbmetapatcher/DeviceState.kt:49-50 | for a name without '/', the sibling lies in the same directory as the path and its last component is the name |
| Device.VbmetaPathsAreSiblings | app/src/main/java/com/github/capntrips/vbmetapatcher/DeviceState.kt:48-50 | `vbmeta_a` and `vbmeta_b` share the misc device's directory, differ only in their last component, and are distinct |
| Device.DeviceState.OpenSlot | app/src/main/java/com/github/capntrips/vbmetapatcher/DeviceState.kt:59-60 | an engine opens exactly when the device at the path exists and its refresh succeeds |
| Device.Probe | app/src/main/java/com/github/capntrips/vbmetapatcher/DeviceState.kt:59-60 | opening a slot reads a vbmeta partition whenever it succeeds; a path with no device behind it gives the empty-read failure |
| Device.DeviceState.Create | app/src/main/java/com/github/capntrips/vbmetapatcher/DeviceState.kt:35-61 | an empty platform, misc or slot-suffix lookup throws, in that order and before any slot is opened; otherwise slot A then slot B are opened over the sibling paths, fresh, distinct, sharing the busy flag, each refreshed once, suffix = first suffix line |
| Device.DeviceState.Refresh | app/src/main/java/com/github/capntrips/vbmetapatcher/DeviceState.kt:30-33 | slot A is refreshed exactly once; slot B is refreshed exactly once when A succeeds and not at all when A throws |
| Scenarios.SampleHeaderFields | app/src/main/java/com/github/capntrips/vbmetapatcher/SlotState.kt:46-60 | the block sizes and flags of a sample header read back as written, and it passes the format check |
| Scenarios.PatchedSingleBlock | app/src/main/java/com/github/capntrips/vbmetapatcher/SlotState.kt:47-60 | auth 0, aux 1000, flags 3: image size 4096, Patched |
| Scenarios.StockTwoBlocks | app/src/main/java/com/github/capntrips/vbmetapatcher/SlotState.kt:47-60 | auth 0, aux 4096, flags 0: image size 8192, Stock |
| Scenarios.WrongMagicRejected | app/src/main/java/com/github/capntrips/vbmetapatcher/SlotState.kt:40-42 | the magic `XXXX` fails the format check with "Unexpected Format" |

## Left out

- The Compose UI, activity and view models, including `MainViewModel.refresh`, are not part of this model. So are toasts and `Log` output.
- Coroutines: `launch` runs synchronously here. Interleavings of the two slots' operations on the shared flag, and the gap between a `refresh` and a later `patch`, are not modelled.
- The root shell, `base64` and `xxd` text round trips are reduced to the bytes they carry. The first line of a read is compared as bytes, which is exact because `AVB0` and `avbtool` hold no line break.
- SHA-1 itself and the `sha1sum | awk` text output: `sha1sum` is a parameter.
- The scratch file: the copy is assumed to land in the file the nested engine reads (the shell writes `vbmeta.img` relative to its working directory; the engine opens it under the app's files directory). Its deletion is not modelled.
- The nested `SlotState(isImage = true)` object is the pure function `Vbmeta.ImageHash`; no second engine object is built.
- Device.Dir: `java.io.File` normalisation of repeated or trailing separators, and the `..` fallback for a path with no component, are not modelled. An fstab field that contains `/misc` never reaches that fallback.
- Slot.SlotState.RefreshPatchStatus: requires the partition to hold byte 123, which the format check before every call guarantees. The exception for a shorter device is not modelled.
- Vbmeta.ImageSizeOf: the bounds are stated only for non-negative block sizes whose padded sum fits a `Long`. Wrapped sizes are modelled but not characterised.
- Vbmeta.ImageHash: the nested engine's write of 0x00 at offset 123 of the scratch copy is taken to succeed, because the copy is an app-owned file rather than a block device.
