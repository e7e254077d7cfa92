/**
 * The Windows host as the core sees it. Every OS call the core makes is a
 * method of `Os` whose answer comes from a fixed table (a const field), so the
 * model covers every possible host; a ghost log records which calls were made,
 * in order, and ghost counters track device handles. None of the calls'
 * internals are modelled.
 */
module Host {
  import opened Wrappers
  import opened WinTypes
  import MultiString

  // The codes GetDriveType returns.
  const DRIVE_UNKNOWN: Dword := 0
  const DRIVE_NO_ROOT_DIR: Dword := 1
  const DRIVE_REMOVABLE: Dword := 2
  const DRIVE_FIXED: Dword := 3
  const DRIVE_REMOTE: Dword := 4
  const DRIVE_CDROM: Dword := 5
  const DRIVE_RAMDISK: Dword := 6

  /**
   * The answer of a call that fills a caller's character buffer
   * (GetLogicalDriveStrings, QueryDosDevice): the count it returns and the
   * characters it leaves in the buffer.
   */
  datatype BufferAnswer = BufferAnswer(count: Dword, contents: seq<char>)

  /** The answer of GetDiskFreeSpace: its success flag and its four out-parameters. */
  datatype FreeSpace = FreeSpace(
    success: bool,
    sectorsPerCluster: Dword,
    bytesPerSector: Dword,
    freeClusters: Dword,
    totalClusters: Dword)

  /**
   * The DISK_PERFORMANCE structure filled in by IOCTL_DISK_PERFORMANCE, with the
   * wide StorageManagerName already narrowed to a string. The source keeps that
   * name as a pointer into a `_bstr_t` destroyed at the end of Execute
   * (windrive.cpp:225, 238); here it is a value.
   */
  datatype DiskPerformance = DiskPerformance(
    bytesRead: LongLong,
    bytesWritten: LongLong,
    readTime: LongLong,
    writeTime: LongLong,
    idleTime: LongLong,
    readCount: Dword,
    writeCount: Dword,
    queueDepth: Dword,
    splitCount: Dword,
    queryTime: LongLong,
    storageDeviceNumber: Dword,
    storageManagerName: string)

  /** `DISK_PERFORMANCE pdg = { 0 }`: every counter zero, an empty manager name. */
  const ZERO_PERFORMANCE: DiskPerformance := DiskPerformance(0, 0, 0, 0, 0, 0, 0, 0, 0, 0, 0, "")

  /** The answer of DeviceIoControl(IOCTL_DISK_PERFORMANCE): success, and what it writes on success. */
  datatype ControlAnswer = ControlAnswer(success: bool, data: DiskPerformance)

  /** A device handle as CreateFileA returns it; INVALID_HANDLE_VALUE is `InvalidHandle`. */
  datatype Handle = InvalidHandle | DeviceHandle(id: nat, path: string)

  /** One OS call, as the ghost log records it. */
  datatype Call =
    | LogicalDriveStringsCall(capacity: nat)
    | DriveTypeCall(root: string)
    | FreeSpaceCall(root: string)
    | CreateFileCall(path: string)
    | PerformanceControlCall(handle: Handle)
    | CloseHandleCall(handle: Handle)
    | DosDeviceCall(device: Option<string>, capacity: nat)

  /**
   * What a buffer of `capacity` characters holds after a call wrote `contents`
   * into it: the contents cut to the capacity, the rest NUL.
   */
  function Fit(contents: seq<char>, capacity: nat): (r: seq<char>)
    ensures |r| == capacity
  {
    if |contents| >= capacity then contents[..capacity]
    else contents + seq(capacity - |contents|, _ => MultiString.NUL)
  }

  /** Contents that fit are kept whole, followed only by NUL padding. */
  lemma FitKeepsContents(contents: seq<char>, capacity: nat)
    requires |contents| <= capacity
    ensures Fit(contents, capacity)[..|contents|] == contents
    ensures forall i | |contents| <= i < capacity :: Fit(contents, capacity)[i] == MultiString.NUL
  {
  }

  class Os {
    /** GetLogicalDriveStrings' answer, by the capacity of the buffer it is given. */
    const logicalDriveStrings: nat -> BufferAnswer
    /** GetDriveType's answer, by root path. */
    const driveType: string -> Dword
    /** GetDiskFreeSpace's answer, by root path. */
    const diskFreeSpace: string -> FreeSpace
    /** Whether CreateFileA opens the path. */
    const opensDevice: string -> bool
    /** DeviceIoControl(IOCTL_DISK_PERFORMANCE)'s answer, by the path of the open handle. */
    const diskPerformance: string -> ControlAnswer
    /** QueryDosDeviceA's answer: `None` lists all device names, `Some(name)` resolves one. */
    const dosDevice: Option<string> -> BufferAnswer

    /** The identity the next opened handle gets. */
    var nextHandle: nat

    ghost var calls: seq<Call>
    ghost var openHandles: set<Handle>
    ghost var openCount: nat
    ghost var closeCount: nat

    /** Handles are counted: every open handle is one that was opened and not yet closed. */
    ghost predicate Valid()
      reads this
    {
      closeCount <= openCount && |openHandles| == openCount - closeCount &&
      forall h | h in openHandles :: h.DeviceHandle? && h.id < nextHandle
    }

    constructor(
      logicalDriveStrings: nat -> BufferAnswer,
      driveType: string -> Dword,
      diskFreeSpace: string -> FreeSpace,
      opensDevice: string -> bool,
      diskPerformance: string -> ControlAnswer,
      dosDevice: Option<string> -> BufferAnswer)
      ensures Valid()
      ensures this.logicalDriveStrings == logicalDriveStrings && this.driveType == driveType
      ensures this.diskFreeSpace == diskFreeSpace && this.opensDevice == opensDevice
      ensures this.diskPerformance == diskPerformance && this.dosDevice == dosDevice
      ensures calls == [] && openHandles == {} && openCount == 0 && closeCount == 0
    {
      this.logicalDriveStrings := logicalDriveStrings;
      this.driveType := driveType;
      this.diskFreeSpace := diskFreeSpace;
      this.opensDevice := opensDevice;
      this.diskPerformance := diskPerformance;
      this.dosDevice := dosDevice;
      nextHandle := 0;
      calls, openHandles, openCount, closeCount := [], {}, 0, 0;
    }

    /** GetLogicalDriveStrings(buffer.Length, buffer). */
    method GetLogicalDriveStrings(buffer: array<char>) returns (count: Dword)
      modifies this`calls, buffer
      ensures count == logicalDriveStrings(buffer.Length).count
      ensures buffer[..] == Fit(logicalDriveStrings(buffer.Length).contents, buffer.Length)
      ensures calls == old(calls) + [LogicalDriveStringsCall(buffer.Length)]
    {
      var answer := logicalDriveStrings(buffer.Length);
      var written := Fit(answer.contents, buffer.Length);
      forall i | 0 <= i < buffer.Length {
        buffer[i] := written[i];
      }
      count := answer.count;
      calls := calls + [LogicalDriveStringsCall(buffer.Length)];
    }

    /** QueryDosDeviceA(device, buffer, buffer.Length); `None` stands for a NULL device name. */
    method QueryDosDevice(device: Option<string>, buffer: array<char>) returns (count: Dword)
      modifies this`calls, buffer
      ensures count == dosDevice(device).count
      ensures buffer[..] == Fit(dosDevice(device).contents, buffer.Length)
      ensures calls == old(calls) + [DosDeviceCall(device, buffer.Length)]
    {
      var answer := dosDevice(device);
      var written := Fit(answer.contents, buffer.Length);
      forall i | 0 <= i < buffer.Length {
        buffer[i] := written[i];
      }
      count := answer.count;
      calls := calls + [DosDeviceCall(device, buffer.Length)];
    }

    method GetDriveType(root: string) returns (code: Dword)
      modifies this`calls
      ensures code == driveType(root)
      ensures calls == old(calls) + [DriveTypeCall(root)]
    {
      code := driveType(root);
      calls := calls + [DriveTypeCall(root)];
    }

    method GetDiskFreeSpace(root: string) returns (space: FreeSpace)
      modifies this`calls
      ensures space == diskFreeSpace(root)
      ensures calls == old(calls) + [FreeSpaceCall(root)]
    {
      space := diskFreeSpace(root);
      calls := calls + [FreeSpaceCall(root)];
    }

    /** CreateFileA(path, 0, FILE_SHARE_READ | FILE_SHARE_WRITE, NULL, OPEN_EXISTING, 0, NULL). */
    method CreateFile(path: string) returns (h: Handle)
      requires Valid()
      modifies this`calls, this`nextHandle, this`openHandles, this`openCount
      ensures Valid()
      ensures calls == old(calls) + [CreateFileCall(path)]
      ensures opensDevice(path) ==>
        (h == DeviceHandle(old(nextHandle), path) && h !in old(openHandles)
         && openHandles == old(openHandles) + {h} && openCount == old(openCount) + 1)
      ensures !opensDevice(path) ==>
        (h == InvalidHandle && openHandles == old(openHandles) && openCount == old(openCount))
    {
      calls := calls + [CreateFileCall(path)];
      if opensDevice(path) {
        h := DeviceHandle(nextHandle, path);
        assert h !in openHandles;
        nextHandle := nextHandle + 1;
        openHandles := openHandles + {h};
        openCount := openCount + 1;
      } else {
        h := InvalidHandle;
      }
    }

    /**
     * DeviceIoControl(h, IOCTL_DISK_PERFORMANCE, ..., &out, ...): on success the
     * structure receives the device's counters, on failure it keeps what it held.
     */
    method DeviceIoControl(h: Handle, out: DiskPerformance) returns (success: bool, result: DiskPerformance)
      requires Valid() && h in openHandles
      modifies this`calls
      ensures success == diskPerformance(h.path).success
      ensures result == if success then diskPerformance(h.path).data else out
      ensures calls == old(calls) + [PerformanceControlCall(h)]
    {
      var answer := diskPerformance(h.path);
      success := answer.success;
      result := if success then answer.data else out;
      calls := calls + [PerformanceControlCall(h)];
    }

    /** CloseHandle(h): only an open handle can be closed, and only once. */
    method CloseHandle(h: Handle)
      requires Valid() && h in openHandles
      modifies this`calls, this`openHandles, this`closeCount
      ensures Valid()
      ensures openHandles == old(openHandles) - {h} && closeCount == old(closeCount) + 1
      ensures calls == old(calls) + [CloseHandleCall(h)]
    {
      openHandles := openHandles - {h};
      closeCount := closeCount + 1;
      calls := calls + [CloseHandleCall(h)];
    }
  }
}
