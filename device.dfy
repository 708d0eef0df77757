/**
 * The device topology (`DeviceState`): the two vbmeta partitions are found
 * beside the `/misc` block device named in the vendor fstab, the boot slot
 * suffix is recorded, and one engine is opened per partition, A then B.
 *
 * Each shell lookup is given as the lines it prints: `getprop
 * ro.boot.hardware.platform`, the fstab search for `/misc` (a function of the
 * platform name, since the fstab file is named after it), and `getprop
 * ro.boot.slot_suffix`. Block devices are looked up by path in `devices`.
 */
module Device {
  import opened Results
  import Vbmeta
  import opened BigEndian
  import opened Slot

  const VBMETA_A: string := "vbmeta_a"
  const VBMETA_B: string := "vbmeta_b"

  /**
   * The directory part of a path that `File.resolveSibling` keeps: everything
   * up to and including the last '/', or nothing when there is none.
   */
  function Dir(path: string): (dir: string)
    ensures |dir| <= |path| && dir == path[..|dir|]
    ensures dir == [] || dir[|dir| - 1] == '/'
    ensures forall i :: |dir| <= i < |path| ==> path[i] != '/'
  {
    if path == [] then []
    else if path[|path| - 1] == '/' then path
    else Dir(path[..|path| - 1])
  }

  predicate NoSeparator(name: string)
  {
    forall i :: 0 <= i < |name| ==> name[i] != '/'
  }

  /** Appending a name without '/' to a directory path leaves that directory. */
  lemma {:induction false} DirOfAppend(dir: string, name: string)
    requires dir == [] || dir[|dir| - 1] == '/'
    requires NoSeparator(name)
    ensures Dir(dir + name) == dir
  {
    if name != [] {
      var init := name[..|name| - 1];
      assert (dir + name)[..|dir + name| - 1] == dir + init;
      DirOfAppend(dir, init);
    } else {
      assert dir + name == dir;
    }
  }

  /**
   * `File(path).resolveSibling(name)`: `name` in the directory that holds
   * `path`. For a plain name, the result lies in that same directory and its
   * last component is `name`.
   */
  function ResolveSibling(path: string, name: string): (r: string)
    ensures NoSeparator(name) ==> Dir(r) == Dir(path) && r[|Dir(r)|..] == name
  {
    var r := Dir(path) + name;
    if NoSeparator(name) then
      DirOfAppend(Dir(path), name);
      assert r[|Dir(path)|..] == name;
      r
    else r
  }

  /**
   * The two partition paths lie in the directory of the misc device, differ
   * only in their last component, and are therefore distinct.
   */
  lemma VbmetaPathsAreSiblings(misc: string)
    ensures var a, b := ResolveSibling(misc, VBMETA_A), ResolveSibling(misc, VBMETA_B);
      Dir(a) == Dir(misc) == Dir(b) && a[|Dir(a)|..] == VBMETA_A && b[|Dir(b)|..] == VBMETA_B &&
      a != b
  {
    var a, b := ResolveSibling(misc, VBMETA_A), ResolveSibling(misc, VBMETA_B);
    assert NoSeparator(VBMETA_A) && NoSeparator(VBMETA_B);
    assert VBMETA_A[7] != VBMETA_B[7];
  }

  datatype InitError =
    | NoHardwarePlatform                          // "Failed to get ro.boot.hardware.platform"
    | NoMisc                                      // "Failed to find /misc"
    | NoSlotSuffix                                // "Failed to get ro.boot.slot_suffix"
    | SlotFailed(path: string, cause: Vbmeta.Error)  // the engine over `path` threw while refreshing

  /** What opening an engine over `path` reads: a missing device prints nothing, so its first read throws. */
  ghost function Probe(path: string, devices: map<string, Partition>, sha1sum: seq<byte> -> string)
    : (r: Result<Vbmeta.Reading, Vbmeta.Error>)
    reads if path in devices then {devices[path].data} else {}
    ensures r.Success? ==> path in devices && Vbmeta.IsVbmeta(devices[path].data[..])
    ensures path !in devices ==> r == Failure(Vbmeta.EmptyRead)
  {
    if path in devices then Vbmeta.Inspect(devices[path].data[..], sha1sum) else Failure(Vbmeta.EmptyRead)
  }

  class DeviceState {
    const slotSuffix: string
    const slotA: SlotState
    const slotB: SlotState

    /** Two distinct engines that share one busy flag. */
    ghost predicate Valid()
      reads this
    {
      slotA != slotB && slotA.isRefreshing == slotB.isRefreshing
    }

    constructor (slotSuffix: string, slotA: SlotState, slotB: SlotState)
      requires slotA != slotB && slotA.isRefreshing == slotB.isRefreshing
      ensures Valid()
      ensures this.slotSuffix == slotSuffix && this.slotA == slotA && this.slotB == slotB
    {
      this.slotSuffix := slotSuffix;
      this.slotA := slotA;
      this.slotB := slotB;
    }

    /** `SlotState(context, File(path), _isRefreshing)` for the device at `path`. */
    static method OpenSlot(path: string, devices: map<string, Partition>, isRefreshing: BusyFlag,
                           sha1sum: seq<byte> -> string)
      returns (r: Result<SlotState, InitError>)
      ensures r.Success? <==> Probe(path, devices, sha1sum).Success?
      ensures r.Failure? ==> r.error == SlotFailed(path, Probe(path, devices, sha1sum).error)
      ensures r.Success? ==>
        fresh(r.value) && r.value.device == devices[path] && r.value.isRefreshing == isRefreshing &&
        r.value.sha1sum == sha1sum && r.value.refreshes == 1 &&
        Probe(path, devices, sha1sum).value == Vbmeta.Reading(r.value.patchStatus, r.value.sha1)
    {
      if path !in devices {
        return Failure(SlotFailed(path, Vbmeta.EmptyRead));
      }
      var slot := SlotState.Open(devices[path], isRefreshing, sha1sum);
      if slot.Failure? {
        return Failure(SlotFailed(path, slot.error));
      }
      r := Success(slot.value);
    }

    /**
     * The `init` block: the platform lookup, the `/misc` lookup, the two
     * sibling paths, the slot-suffix lookup, then the engine for A and the
     * engine for B. Each empty lookup throws before anything after it runs.
     */
    static method Create(hardwarePlatformOut: seq<string>, miscOut: string -> seq<string>,
                         slotSuffixOut: seq<string>, devices: map<string, Partition>,
                         isRefreshing: BusyFlag, sha1sum: seq<byte> -> string)
      returns (r: Result<DeviceState, InitError>)
      ensures hardwarePlatformOut == [] ==> r == Failure(NoHardwarePlatform)
      ensures hardwarePlatformOut != [] && miscOut(hardwarePlatformOut[0]) == [] ==> r == Failure(NoMisc)
      ensures hardwarePlatformOut != [] && miscOut(hardwarePlatformOut[0]) != [] && slotSuffixOut == [] ==>
                r == Failure(NoSlotSuffix)
      ensures hardwarePlatformOut != [] && miscOut(hardwarePlatformOut[0]) != [] && slotSuffixOut != [] ==>
        var misc := miscOut(hardwarePlatformOut[0])[0];
        var pathA, pathB := ResolveSibling(misc, VBMETA_A), ResolveSibling(misc, VBMETA_B);
        var probeA, probeB := Probe(pathA, devices, sha1sum), Probe(pathB, devices, sha1sum);
        if probeA.Failure? then r == Failure(SlotFailed(pathA, probeA.error))
        else if probeB.Failure? then r == Failure(SlotFailed(pathB, probeB.error))
        else
          r.Success? && fresh(r.value) && fresh(r.value.slotA) && fresh(r.value.slotB) && r.value.Valid() &&
          r.value.slotSuffix == slotSuffixOut[0] &&
          r.value.slotA.device == devices[pathA] && r.value.slotB.device == devices[pathB] &&
          r.value.slotA.isRefreshing == isRefreshing && r.value.slotA.sha1sum == sha1sum &&
          r.value.slotB.sha1sum == sha1sum &&
          r.value.slotA.refreshes == 1 && r.value.slotB.refreshes == 1 &&
          probeA.value == Vbmeta.Reading(r.value.slotA.patchStatus, r.value.slotA.sha1) &&
          probeB.value == Vbmeta.Reading(r.value.slotB.patchStatus, r.value.slotB.sha1)
    {
      if hardwarePlatformOut == [] {
        return Failure(NoHardwarePlatform);
      }
      var hardwarePlatform := hardwarePlatformOut[0];
      var miscResult := miscOut(hardwarePlatform);
      if miscResult == [] {
        return Failure(NoMisc);
      }
      var misc := miscResult[0];
      var vbmetaA := ResolveSibling(misc, VBMETA_A);
      var vbmetaB := ResolveSibling(misc, VBMETA_B);
      if slotSuffixOut == [] {
        return Failure(NoSlotSuffix);
      }
      var slotSuffix := slotSuffixOut[0];
      var slotA := OpenSlot(vbmetaA, devices, isRefreshing, sha1sum);
      if slotA.Failure? {
        return Failure(slotA.error);
      }
      var slotB := OpenSlot(vbmetaB, devices, isRefreshing, sha1sum);
      if slotB.Failure? {
        return Failure(slotB.error);
      }
      var state := new DeviceState(slotSuffix, slotA.value, slotB.value);
      r := Success(state);
    }

    /** `refresh`: slot A, then slot B; a failure in A is thrown before B is refreshed. */
    method Refresh() returns (r: Outcome<Vbmeta.Error>)
      requires Valid()
      modifies slotA`patchStatus, slotA`sha1, slotA`refreshes
      modifies slotB`patchStatus, slotB`sha1, slotB`refreshes
      ensures slotA.refreshes == old(slotA.refreshes) + 1
      ensures var aOk := Vbmeta.Inspect(slotA.device.data[..], slotA.sha1sum).Success?;
        slotA.RefreshedFrom(old(slotA.patchStatus), old(slotA.sha1), if aOk then Pass else r) &&
        (aOk ==> slotB.refreshes == old(slotB.refreshes) + 1 &&
                 slotB.RefreshedFrom(old(slotB.patchStatus), old(slotB.sha1), r)) &&
        (!aOk ==> slotB.refreshes == old(slotB.refreshes) &&
                  slotB.patchStatus == old(slotB.patchStatus) && slotB.sha1 == old(slotB.sha1))
    {
      r := slotA.Refresh();
      if r.Fail? {
        return;
      }
      r := slotB.Refresh();
    }
  }
}
