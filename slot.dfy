/**
 * One vbmeta partition's engine (`SlotState`): `refresh` re-reads the header
 * and recomputes the status and the fingerprint; `patch` and `restore` write
 * the flags byte between a `blockdev --setrw` and a `blockdev --setro`, and
 * run under the shared busy flag.
 *
 * Root shell commands are methods of `Partition`; whether `blockdev` succeeds
 * is decided by the device and arrives as a parameter. SHA-1 is the injected
 * function `sha1sum`, from bytes to the hex text `sha1sum | awk` prints.
 */
module Slot {
  import opened Results
  import opened BigEndian
  import opened Vbmeta

  /** A block device as the root shell reaches it: its bytes and its read-only switch. */
  class Partition {
    const data: array<byte>
    var readOnly: bool

    constructor (bytes: seq<byte>, readOnly: bool)
      ensures data[..] == bytes && this.readOnly == readOnly
      ensures fresh(data)
    {
      data := new byte[|bytes|](i requires 0 <= i < |bytes| => bytes[i]);
      this.readOnly := readOnly;
    }

    /** `blockdev --setrw`: clears the read-only switch when the command succeeds. */
    method SetReadWrite(succeeds: bool) returns (ok: bool)
      modifies this
      ensures ok == succeeds
      ensures readOnly == (old(readOnly) && !succeeds)
    {
      ok := succeeds;
      if ok {
        readOnly := false;
      }
    }

    /** `blockdev --setro`: sets the read-only switch when the command succeeds. */
    method SetReadOnly(succeeds: bool)
      modifies this
      ensures readOnly == (old(readOnly) || succeeds)
    {
      if succeeds {
        readOnly := true;
      }
    }

    /**
     * `printf '\xNN' | dd bs=1 seek=offset count=1 conv=notrunc`: replaces one
     * byte in place when the command succeeds; a read-only device refuses it
     * and a block device does not grow past its end.
     */
    method WriteByte(offset: nat, value: byte, succeeds: bool)
      modifies data
      ensures succeeds && !readOnly && offset < data.Length ==> data[..] == old(data[..])[offset := value]
      ensures !succeeds || readOnly || offset >= data.Length ==> data[..] == old(data[..])
    {
      if succeeds && !readOnly && offset < data.Length {
        data[offset] := value;
      }
    }
  }

  /** The `MutableStateFlow<Boolean>` the engines share: its value, and the values emitted into it so far. */
  class BusyFlag {
    var value: bool
    ghost var emitted: seq<bool>

    constructor (initial: bool)
      ensures value == initial && emitted == []
    {
      value := initial;
      emitted := [];
    }

    method Emit(v: bool)
      modifies this
      ensures value == v && emitted == old(emitted) + [v]
    {
      value := v;
      emitted := emitted + [v];
    }
  }

  class SlotState {
    const device: Partition
    const isRefreshing: BusyFlag
    const sha1sum: seq<byte> -> string
    var patchStatus: PatchStatus
    var sha1: string
    /** How many times `refresh` has run on this engine. */
    ghost var refreshes: nat

    /**
     * The engine before its first refresh. `patchStatus` and `sha1` are
     * `lateinit` in the source and cannot be read yet; `Open` refreshes at once.
     */
    constructor (device: Partition, isRefreshing: BusyFlag, sha1sum: seq<byte> -> string)
      ensures this.device == device && this.isRefreshing == isRefreshing && this.sha1sum == sha1sum
      ensures refreshes == 0
    {
      this.device := device;
      this.isRefreshing := isRefreshing;
      this.sha1sum := sha1sum;
      patchStatus := Stock;
      sha1 := "";
      refreshes := 0;
    }

    /** `SlotState(context, vbmeta, _isRefreshing)`: construction runs `refresh`, and throws with it. */
    static method Open(device: Partition, isRefreshing: BusyFlag, sha1sum: seq<byte> -> string)
      returns (r: Result<SlotState, Error>)
      ensures r.Success? <==> Inspect(device.data[..], sha1sum).Success?
      ensures r.Failure? ==> r.error == Inspect(device.data[..], sha1sum).error
      ensures r.Success? ==>
        var slot := r.value;
        fresh(slot) && slot.device == device && slot.isRefreshing == isRefreshing &&
        slot.sha1sum == sha1sum && slot.refreshes == 1 &&
        Inspect(device.data[..], sha1sum).value == Reading(slot.patchStatus, slot.sha1)
    {
      var slot := new SlotState(device, isRefreshing, sha1sum);
      var outcome := slot.Refresh();
      if outcome.Fail? {
        return Failure(outcome.error);
      }
      r := Success(slot);
    }

    /**
     * `refresh`: the format check first, then the header: the two block sizes
     * give `imageSize`, the flags word gives `patchStatus`, and the fingerprint
     * of the first `imageSize` bytes gives `sha1`. A Patched partition is
     * copied to a scratch image and the engine over that copy supplies the
     * hash. The partition itself is only read.
     */
    method Refresh() returns (r: Outcome<Error>)
      modifies this`patchStatus, this`sha1, this`refreshes
      ensures refreshes == old(refreshes) + 1
      ensures RefreshedFrom(old(patchStatus), old(sha1), r)
    {
      refreshes := refreshes + 1;
      var format := CheckFormat(device.data[..]);
      if format.Fail? {
        return format;
      }
      // `dd count=256 | base64`, decoded and wrapped in a ByteBuffer
      var data := Read(device.data[..], 0, HEADER_SIZE);
      HeaderOfPrefix(device.data[..], data);
      var authenticationDataBlockSize := GetLong(data, AUTH_SIZE_OFFSET);
      var auxiliaryDataBlockSize := GetLong(data, AUX_SIZE_OFFSET);
      var imageSize := ImageSizeOf(authenticationDataBlockSize, auxiliaryDataBlockSize);
      patchStatus := StatusOfFlags(GetInt(data, FLAGS_OFFSET));
      if patchStatus == Patched {
        // `dd of=vbmeta.img count=imageSize`, then a new engine over the copy
        var copy := Prefix(device.data[..], imageSize);
        var nested := CheckFormat(copy);
        if nested.Fail? {
          return nested;
        }
        sha1 := ImageHash(copy, sha1sum);
      } else {
        sha1 := sha1sum(Prefix(device.data[..], imageSize));
      }
      r := Pass;
    }

    /**
     * The fields `refresh` leaves, given those before it: on success the
     * reading of the partition; on failure the old fingerprint, and the new
     * status only when the failure came after the status was assigned.
     */
    ghost predicate RefreshedFrom(statusBefore: PatchStatus, sha1Before: string, r: Outcome<Error>)
      reads this, device, device.data
    {
      var d := device.data[..];
      match Inspect(d, sha1sum)
      case Success(reading) => r == Pass && patchStatus == reading.status && sha1 == reading.sha1
      case Failure(e) =>
        r == Fail(e) && sha1 == sha1Before &&
        patchStatus == if CheckFormat(d).Pass? then WordStatus(d) else statusBefore
    }

    /** `refreshPatchStatus`: Patched exactly when `xxd -p` of the byte at 123 prints "03". */
    method RefreshPatchStatus()
      requires device.data.Length > FLAGS_BYTE_OFFSET
      modifies this`patchStatus
      ensures patchStatus == ByteStatus(device.data[FLAGS_BYTE_OFFSET])
    {
      var flagsByte := Read(device.data[..], FLAGS_BYTE_OFFSET, 1);
      patchStatus := if flagsByte == [FLAGS_PATCHED] then Patched else Stock;
    }

    /**
     * The state `setFlags(toStatus)` leaves, given the partition's bytes, its
     * read-only switch and the engine's status before the call: a failed
     * format check throws before anything is written; a failed `setrw`
     * returns false with nothing written; otherwise true is returned whether
     * or not the one-byte write succeeded: when it did, exactly the byte at 123
     * becomes the target's flags byte; `setro` runs, and the status is re-read
     * from the byte at 123, so it is the target exactly when the write landed
     * or the byte already held the target's value.
     */
    ghost predicate FlagsSet(toStatus: PatchStatus, setrwSucceeds: bool, writeSucceeds: bool,
                             setroSucceeds: bool, before: seq<byte>, wasReadOnly: bool,
                             statusBefore: PatchStatus, r: Result<bool, Error>)
      reads this, device, device.data
    {
      match CheckFormat(before)
      case Fail(e) =>
        r == Failure(e) && device.data[..] == before &&
        device.readOnly == wasReadOnly && patchStatus == statusBefore
      case Pass =>
        if setrwSucceeds then
          var after := if writeSucceeds then before[FLAGS_BYTE_OFFSET := FlagByte(toStatus)] else before;
          r == Success(true) && device.data[..] == after && device.readOnly == setroSucceeds &&
          patchStatus == ByteStatus(after[FLAGS_BYTE_OFFSET]) &&
          (writeSucceeds ==> patchStatus == toStatus)
        else
          r == Success(false) && device.data[..] == before &&
          device.readOnly == wasReadOnly && patchStatus == statusBefore
    }

    /** `setFlags`. */
    method SetFlags(toStatus: PatchStatus, setrwSucceeds: bool, writeSucceeds: bool, setroSucceeds: bool)
      returns (r: Result<bool, Error>)
      modifies this`patchStatus, device, device.data
      ensures sha1 == old(sha1)
      ensures FlagsSet(toStatus, setrwSucceeds, writeSucceeds, setroSucceeds,
                       old(device.data[..]), old(device.readOnly), old(patchStatus), r)
    {
      var format := CheckFormat(device.data[..]);
      if format.Fail? {
        return Failure(format.error);
      }
      var ok := device.SetReadWrite(setrwSucceeds);
      if ok {
        device.WriteByte(FLAGS_BYTE_OFFSET, FlagByte(toStatus), writeSucceeds);
        device.SetReadOnly(setroSucceeds);
        RefreshPatchStatus();
        r := Success(true);
      } else {
        r := Success(false);
      }
    }

    /**
     * `launch { setFlags(toStatus) }`: true is emitted into the busy flag
     * before the operation and false after it. An exception in the operation
     * ends the coroutine before false is emitted.
     */
    method Launch(toStatus: PatchStatus, setrwSucceeds: bool, writeSucceeds: bool, setroSucceeds: bool)
      returns (r: Result<bool, Error>)
      modifies this`patchStatus, device, device.data, isRefreshing
      ensures sha1 == old(sha1)
      ensures FlagsSet(toStatus, setrwSucceeds, writeSucceeds, setroSucceeds,
                       old(device.data[..]), old(device.readOnly), old(patchStatus), r)
      ensures r.Success? ==> isRefreshing.emitted == old(isRefreshing.emitted) + [true, false] && !isRefreshing.value
      ensures r.Failure? ==> isRefreshing.emitted == old(isRefreshing.emitted) + [true] && isRefreshing.value
    {
      isRefreshing.Emit(true);
      r := SetFlags(toStatus, setrwSucceeds, writeSucceeds, setroSucceeds);
      if r.Success? {
        isRefreshing.Emit(false);
      }
    }

    /** `patch`: sets the flags byte to 0x03 under the busy flag. */
    method Patch(setrwSucceeds: bool, writeSucceeds: bool, setroSucceeds: bool) returns (r: Result<bool, Error>)
      modifies this`patchStatus, device, device.data, isRefreshing
      ensures sha1 == old(sha1)
      ensures FlagsSet(Patched, setrwSucceeds, writeSucceeds, setroSucceeds,
                       old(device.data[..]), old(device.readOnly), old(patchStatus), r)
      ensures r.Success? ==> isRefreshing.emitted == old(isRefreshing.emitted) + [true, false] && !isRefreshing.value
      ensures r.Failure? ==> isRefreshing.emitted == old(isRefreshing.emitted) + [true] && isRefreshing.value
    {
      r := Launch(Patched, setrwSucceeds, writeSucceeds, setroSucceeds);
    }

    /** `restore`: sets the flags byte to 0x00 under the busy flag. */
    method Restore(setrwSucceeds: bool, writeSucceeds: bool, setroSucceeds: bool) returns (r: Result<bool, Error>)
      modifies this`patchStatus, device, device.data, isRefreshing
      ensures sha1 == old(sha1)
      ensures FlagsSet(Stock, setrwSucceeds, writeSucceeds, setroSucceeds,
                       old(device.data[..]), old(device.readOnly), old(patchStatus), r)
      ensures r.Success? ==> isRefreshing.emitted == old(isRefreshing.emitted) + [true, false] && !isRefreshing.value
      ensures r.Failure? ==> isRefreshing.emitted == old(isRefreshing.emitted) + [true] && isRefreshing.value
    {
      r := Launch(Stock, setrwSucceeds, writeSucceeds, setroSucceeds);
    }
  }

  /**
   * Patching twice: when either attempt's `setrw` and write both succeed on a
   * vbmeta partition, the partition ends exactly as after one successful
   * patch, byte 123 at 0x03 and every other byte as before, and the engine
   * reports Patched; when neither does, nothing is written.
   */
  method PatchTwice(slot: SlotState, setrw1: bool, write1: bool, setro1: bool,
                    setrw2: bool, write2: bool, setro2: bool)
    returns (r1: Result<bool, Error>, r2: Result<bool, Error>)
    requires IsVbmeta(slot.device.data[..])
    modifies slot`patchStatus, slot.device, slot.device.data, slot.isRefreshing
    ensures r1 == Success(setrw1) && r2 == Success(setrw2)
    ensures (setrw1 && write1) || (setrw2 && write2) ==>
      slot.device.data[..] == old(slot.device.data[..])[FLAGS_BYTE_OFFSET := FLAGS_PATCHED] &&
      slot.patchStatus == Patched
    ensures !(setrw1 && write1) && !(setrw2 && write2) ==> slot.device.data[..] == old(slot.device.data[..])
  {
    ghost var d := slot.device.data[..];
    r1 := slot.Patch(setrw1, write1, setro1);
    ghost var d1 := slot.device.data[..];
    assert d1[..|MAGIC|] == d[..|MAGIC|];
    assert d1[RELEASE_OFFSET..RELEASE_OFFSET + |AVBTOOL|] == d[RELEASE_OFFSET..RELEASE_OFFSET + |AVBTOOL|];
    r2 := slot.Patch(setrw2, write2, setro2);
    if setrw1 && write1 && !(setrw2 && write2) {
      FlagByteRoundTrip(FLAGS_PATCHED);
    }
  }

  /**
   * The round trip of a patch and a refresh on a partition whose upper flag
   * bytes are zero and whose block sizes do not overflow: after `setFlags`
   * with a successful `setrw`, `refresh` passes. When the write landed it
   * reports the target status, and the fingerprint it computes is the one the
   * partition had with a Stock flags byte; when the write failed, it reads the
   * unchanged partition.
   */
  method SetFlagsThenRefresh(slot: SlotState, toStatus: PatchStatus, writeSucceeds: bool, setroSucceeds: bool)
    returns (r: Result<bool, Error>, refreshed: Outcome<Error>)
    requires IsVbmeta(slot.device.data[..]) && SizesInRangeOf(slot.device.data[..])
    requires slot.device.data[FLAGS_OFFSET..FLAGS_BYTE_OFFSET] == [0, 0, 0]
    modifies slot`patchStatus, slot`sha1, slot`refreshes, slot.device, slot.device.data
    ensures r == Success(true) && refreshed == Pass
    ensures writeSucceeds ==>
      slot.patchStatus == toStatus &&
      slot.sha1 == slot.sha1sum(Prefix(old(slot.device.data[..])[FLAGS_BYTE_OFFSET := FLAGS_STOCK],
                                       ImageSize(old(slot.device.data[..]))))
    ensures !writeSucceeds ==>
      slot.device.data[..] == old(slot.device.data[..]) &&
      Inspect(slot.device.data[..], slot.sha1sum) == Success(Reading(slot.patchStatus, slot.sha1))
  {
    ghost var d := slot.device.data[..];
    r := slot.SetFlags(toStatus, true, writeSucceeds, setroSucceeds);
    ghost var e := slot.device.data[..];
    if writeSucceeds {
      assert e == d[FLAGS_BYTE_OFFSET := FlagByte(toStatus)];
      FingerprintIgnoresPatch(d, FlagByte(toStatus), slot.sha1sum);
      assert e[FLAGS_OFFSET..FLAGS_BYTE_OFFSET] == [0, 0, 0];
      StatusChecksAgree(e);
    } else {
      RefreshSucceedsOnSaneHeader(e, slot.sha1sum);
    }
    refreshed := slot.Refresh();
  }
}
