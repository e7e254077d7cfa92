/**
 * windrive.cpp, DiskPerformanceWorker::Execute: open the device of a drive
 * through the `\\.\` namespace, ask it for its DISK_PERFORMANCE counters, close
 * it, and keep the counters. The handle is a small state machine: opened at
 * most once, used by exactly one control call, closed exactly once.
 */
module Performance {
  import opened Wrappers
  import opened Host

  /** The four characters `\\.\` that put a device name in the Win32 device namespace. */
  const DEVICE_NAMESPACE: string := "\\\\.\\"

  const INVALID_HANDLE_ERROR: string := "Invalid Handle value for indicated Drive!"

  /** The path handed to CreateFileA: the namespace prefix, then the drive name unchanged. */
  function DevicePath(driveName: string): (path: string)
    ensures |path| == |DEVICE_NAMESPACE| + |driveName| && |DEVICE_NAMESPACE| == 4
    ensures path[..4] == DEVICE_NAMESPACE && path[4..] == driveName
  {
    DEVICE_NAMESPACE + driveName
  }

  /** Different drive names open different paths. */
  lemma DevicePathInjective(a: string, b: string)
    requires DevicePath(a) == DevicePath(b)
    ensures a == b
  {
    assert a == DevicePath(a)[4..];
  }

  /**
   * The counters the worker keeps: `pdg` starts zeroed and the result of
   * DeviceIoControl is ignored, so a failed control call leaves the zeroes.
   */
  function Sample(answer: ControlAnswer): (p: DiskPerformance)
    ensures !answer.success ==> p == ZERO_PERFORMANCE
    ensures answer.success ==> p == answer.data
  {
    if answer.success then answer.data else ZERO_PERFORMANCE
  }

  /**
   * The OS calls of one Execute, given the handle CreateFileA returned: only
   * the open for an invalid handle; otherwise the open, one control call on the
   * handle and the close of that same handle.
   */
  function PerformanceCalls(path: string, h: Handle): seq<Call> {
    if h.InvalidHandle? then [CreateFileCall(path)]
    else [CreateFileCall(path), PerformanceControlCall(h), CloseHandleCall(h)]
  }

  /**
   * The handle discipline of one Execute: exactly one open, first; with a
   * valid handle exactly one control call on it, second, and exactly one close
   * of the same handle, last; with an invalid one no control call and no close.
   */
  lemma ControlThenClose(path: string, h: Handle)
    ensures var cs := PerformanceCalls(path, h);
      && cs[0] == CreateFileCall(path)
      && (forall i | 0 < i < |cs| :: !cs[i].CreateFileCall?)
      && (h.InvalidHandle? <==> |cs| == 1)
      && (h.InvalidHandle? ==> cs == [CreateFileCall(path)])
      && (h.DeviceHandle? ==> |cs| == 3 && cs[1] == PerformanceControlCall(h) && cs[2] == CloseHandleCall(h))
      && (forall i | 0 <= i < |cs| && cs[i].PerformanceControlCall? :: i == 1 && cs[i].handle == h)
      && (forall i | 0 <= i < |cs| && cs[i].CloseHandleCall? :: i == |cs| - 1 && cs[i].handle == h)
  {
  }

  /** What a query for `driveName` yields: an error when the device does not open, else its counters. */
  function QueryPerformance(driveName: string, opensDevice: string -> bool, diskPerformance: string -> ControlAnswer):
    (r: Result<DiskPerformance, string>)
    ensures r.Failure? <==> !opensDevice(DevicePath(driveName))
    ensures r.Failure? ==> r.error == INVALID_HANDLE_ERROR
    ensures r.Success? && !diskPerformance(DevicePath(driveName)).success ==> r.value == ZERO_PERFORMANCE
    ensures r.Success? && diskPerformance(DevicePath(driveName)).success ==>
      r.value == diskPerformance(DevicePath(driveName)).data
  {
    var path := DevicePath(driveName);
    if !opensDevice(path) then Failure(INVALID_HANDLE_ERROR) else Success(Sample(diskPerformance(path)))
  }

  /**
   * The worker of getDevicePerformance. `sDiskPerformance` is `None` while the
   * member struct has never been assigned; `error` is the message passed to SetError.
   */
  class DiskPerformanceWorker {
    const driveName: string
    var sDiskPerformance: Option<DiskPerformance>
    var error: Option<string>

    constructor(driveName: string)
      ensures this.driveName == driveName && sDiskPerformance == None && error == None
    {
      this.driveName := driveName;
      sDiskPerformance, error := None, None;
    }

    /**
     * Execute: the result (error or counters) is `QueryPerformance`'s; the log
     * grows by `PerformanceCalls` for the handle CreateFileA returned; every
     * handle opened is closed again, so the set of open handles is unchanged.
     */
    method Execute(os: Os)
      requires os.Valid()
      modifies this`sDiskPerformance, this`error
      modifies os`calls, os`nextHandle, os`openHandles, os`openCount, os`closeCount
      ensures os.Valid() && os.openHandles == old(os.openHandles)
      ensures os.openCount - os.closeCount == old(os.openCount) - old(os.closeCount)
      ensures var path := DevicePath(driveName);
        && os.calls == old(os.calls)
             + PerformanceCalls(path, if os.opensDevice(path) then DeviceHandle(old(os.nextHandle), path) else InvalidHandle)
        && os.openCount == old(os.openCount) + (if os.opensDevice(path) then 1 else 0)
        && os.closeCount == old(os.closeCount) + (if os.opensDevice(path) then 1 else 0)
      ensures match QueryPerformance(driveName, os.opensDevice, os.diskPerformance)
        case Failure(e) => error == Some(e) && sDiskPerformance == old(sDiskPerformance)
        case Success(p) => error == old(error) && sDiskPerformance == Some(p)
    {
      var tDriveName := DEVICE_NAMESPACE + driveName;
      var pdg := ZERO_PERFORMANCE;
      var hDevice := os.CreateFile(tDriveName);
      if hDevice == InvalidHandle {
        error := Some(INVALID_HANDLE_ERROR);
        return;
      }
      var bResult;
      bResult, pdg := os.DeviceIoControl(hDevice, pdg);
      os.CloseHandle(hDevice);
      sDiskPerformance := Some(pdg);
    }
  }
}
