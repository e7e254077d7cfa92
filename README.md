# Windrive, modelled in Dafny

Windrive is a Node.js binding to the Windows disk API. Its native part asks
the OS for the logical drive strings, a NUL-separated list of root paths
closed by an empty name. It walks that list and builds one record per root
from the drive type and the free-space answer. It also reads a device's
DISK_PERFORMANCE counters through the `\\.\` device namespace, and lists the
MS-DOS device names with their targets. A JavaScript layer (index.js) checks
and normalises drive names and turns each worker's callback into a promise.

This project models that core:

- three revisions of the enumeration:
  - windrive.cpp keeps every root;
  - windisk.cpp builds a sparse array indexed by OS position;
  - src/Disk.cpp builds a dense filtered vector;
- the handle sequence of the performance query: open, one control call, close;
- the DOS-device listing and the object built from it;
- the argument checks of the native entry points;
- the drive-name normalisation and promise settlement of index.js;
- `guidToString` of include/slimio.h, with a decoder and both round trips;
- the annotation loop of windisk.js.

Every OS call is a method of the class `Host.Os`. It answers from fixed
function-valued tables, so each result holds for every possible host. A ghost
log records the calls in order, and ghost counters track open device handles.

Modules:

| module | file | models |
|---|---|---|
| `Host` | host.dfy | the OS calls, their answers and the call log |
| `MultiString` | multistring.dfy | the NUL-separated buffer format and its `strlen` walk |
| `LogicalDrives` | logical_drives.dfy | windrive.cpp, LogicalDriveWorker |
| `Performance` | performance.dfy | windrive.cpp, DiskPerformanceWorker |
| `DosDevices` | dos_devices.dfy | windrive.cpp, DosDevicesWorker |
| `WinDisk` | windisk.dfy | windisk.cpp, getLogicalDrives |
| `DiskEnumeration` | disk.dfy | src/Disk.cpp and include/Disk.h |
| `Facade` | facade.dfy | windrive.cpp entry points and index.js wrappers |
| `GuidText` | guid.dfy | include/slimio.h, guidToString |
| `WinDiskScript` | windisk_js.dfy | windisk.js |
| `Js` | js.dfy | JavaScript values, objects and double arithmetic |
| `WinTypes`, `Wrappers` | wintypes.dfy, wrappers.dfy | DWORD and related widths; Option and Result |

The free percentage of windrive.cpp follows the code as written. The code
divides two DWORDs before it multiplies by 100, so a drive that is not
entirely free reports 0 percent free and 100 percent used.
`LogicalDrives.TwoVolumeExample` illustrates this with `C:\` at 400 of 1000
clusters free: an exact percentage would be 40 free and 60 used, but the
DWORD division gives 0 free and 100 used.

## Model

| member | source | states |
|---|---|---|
| Host.Os.GetLogicalDriveStrings | windrive.cpp:66-67 | the buffer holds the host's answer cut or NUL-padded to the buffer's capacity; the returned count is the host's; one call is logged |
| Host.Os.QueryDosDevice | windrive.cpp:305-307 | the buffer holds the host's answer for that device (or for NULL) fitted to the buffer; one call is logged |
| Host.Os.GetDriveType | windrive.cpp:83 | returns the host's code for the root and logs the call |
| Host.Os.GetDiskFreeSpace | windrive.cpp:111-117 | returns the host's success flag and four counts for the root and logs the call |
| Host.Os.CreateFile | windrive.cpp:209-211 | a path that opens yields a fresh handle not already open, added to the open set, and the open count goes up by one; otherwise INVALID_HANDLE_VALUE and no change to the open handles |
| Host.Os.DeviceIoControl | windrive.cpp:219-221 | only on an open handle; on success the structure receives the device's counters, on failure it keeps what it held |
| Host.Os.CloseHandle | windrive.cpp:222 | only an open handle can be closed; it leaves the open set and the close count goes up by one |
| Host.Fit | windrive.cpp:66-67 | what a buffer holds after a call writes into it: exactly the buffer's capacity in characters; `Host.FitKeepsContents` states that an answer that fits is kept whole and NUL-padded |
| Host.FitKeepsContents | windrive.cpp:66-67 | an answer that fits is kept whole in the buffer, followed only by NULs |
| MultiString.StrLen | windrive.cpp:131 | `strlen` never counts past the end of the buffer; `MultiString.StrLenStopsAtFirstNul` states that it stops exactly at the first NUL |
| MultiString.EntriesFrom | windrive.cpp:74-131 | the names the `while (*p)` walk visits, advancing by `strlen + 1`; `MultiString.EntriesFromAreNames`, `MultiString.EntriesOfEncode` and `MultiString.EntriesFromBound` state what it yields |
| MultiString.StrLenStopsAtFirstNul | windrive.cpp:131 | `strlen` counts exactly the non-NUL characters up to the first NUL or the buffer end |
| MultiString.EntriesFromAreNames | windrive.cpp:75 | every entry the walk yields is non-empty and free of NUL |
| MultiString.EntriesOfEncode | windrive.cpp:74-131 | walking a buffer that lists names in order, whatever follows it, yields exactly those names in order |
| MultiString.EntriesFromBound | windrive.cpp:66-75 | a buffer of n characters holds at most (n + 1) / 2 names |
| LogicalDrives.TypeName | windrive.cpp:84-106 | the name is empty exactly for codes outside the seven known ones |
| LogicalDrives.TypeNameInjective | windrive.cpp:84-106 | each of the seven codes has its own name |
| LogicalDrives.FreePercent | windrive.cpp:120 | DWORD arithmetic: 0 when free < total, 100 when free == total |
| LogicalDrives.QuotientOfAtMost | windrive.cpp:120 | the truncating quotient of a count by a larger or equal one is 0 or 1 |
| LogicalDrives.CapacityOf | windrive.cpp:119-126 | the counts are copied from the answer, used + free == 100, and a drive not entirely free reports 100 used and 0 free |
| LogicalDrives.DriveRecord | windrive.cpp:82-127 | the record carries the root and its type name; capacity is present exactly for a non-CD-ROM root whose query succeeded with a non-zero sector size, and then used + free == 100 |
| LogicalDrives.Drives | windrive.cpp:74-131 | the records pushed into `vLogicalDrives`: exactly one per root; `LogicalDrives.DrivesOnePerRoot` states that record i is the record of root i |
| LogicalDrives.DrivesOnePerRoot | windrive.cpp:74-131 | one record per root, in buffer order: record i is the record of root i |
| LogicalDrives.NoFreeSpaceQueryForCdrom | windrive.cpp:108-117 | every free-space query is for a listed root that is not a CD-ROM |
| LogicalDrives.EveryRootClassified | windrive.cpp:83 | the drive type of every listed root is queried |
| LogicalDrives.Enumerate | windrive.cpp:67-72 | failure with "Failed to retrieve logical drives names!" exactly when the count is 0 or above 120 |
| LogicalDrives.PrefixDivisionDefined | windrive.cpp:120 | the division stays defined for every prefix of the roots |
| LogicalDrives.TwoVolumeExample | windrive.cpp:67-131 | for `C:\` FIXED with 400 of 1000 clusters free and `D:\` a CD-ROM: C: gets 100 used and 0 free, D: gets no capacity |
| LogicalDrives.LogicalDriveWorker.constructor | windrive.cpp:56-60 | the worker starts with no records and no error |
| LogicalDrives.LogicalDriveWorker.PushDrive | windrive.cpp:77-130 | appends exactly that root's record; logs the type query, then the free-space query unless it is a CD-ROM |
| LogicalDrives.LogicalDriveWorker.Execute | windrive.cpp:63-133 | the outcome is `Enumerate`'s: a rejected count sets its error and pushes nothing; otherwise its records, one per root in buffer order, are appended with the error unchanged; the call log is stated in both cases |
| LogicalDrives.LogicalDriveWorker.WalkRoots | windrive.cpp:74-132 | the loop appends the records and calls of all the buffer's roots, in order |
| LogicalDrives.LogicalDriveWorker.VisitRoot | windrive.cpp:75-131 | one turn keeps the walk invariant and strictly advances the pointer |
| Performance.DevicePath | windrive.cpp:201-204 | the path is the four characters `\\.\` followed by the drive name unchanged |
| Performance.DevicePathInjective | windrive.cpp:201-204 | different drive names give different paths |
| Performance.Sample | windrive.cpp:207-237 | the result of DeviceIoControl is ignored: a failed control call leaves every counter of the zero-initialised structure, a successful one gives the device's counters |
| Performance.PerformanceCalls | windrive.cpp:209-222 | the OS calls of one Execute for the handle CreateFileA returned; `Performance.ControlThenClose` states their order and that each handle operation happens once |
| Performance.ControlThenClose | windrive.cpp:209-222 | exactly one open, first; for an invalid handle nothing else; otherwise exactly three calls: the open, one control call on that handle, and one close of the same handle, last |
| Performance.QueryPerformance | windrive.cpp:200-239 | failure with "Invalid Handle value for indicated Drive!" exactly when the device does not open; otherwise the device's counters, or zeroes when the control call failed |
| Performance.DiskPerformanceWorker.constructor | windrive.cpp:192 | the worker keeps the drive name and starts with no counters and no error |
| Performance.DiskPerformanceWorker.Execute | windrive.cpp:200-239 | the error or counters are QueryPerformance's; the call log grows by exactly the open/control/close sequence; every handle opened is closed, so the open handles are unchanged; the open and close counts each rise by one when the device opens and stay put when it does not |
| Js.Set | windrive.cpp:317 | the property takes the new value and every other property keeps its own |
| Js.SetWellFormed | windrive.cpp:317 | setting keeps each name once in creation order and never reorders existing names |
| Js.Divide | windisk.cpp:44 | a non-zero divisor gives the exact quotient; zero gives an infinity, or NaN for 0 / 0 |
| Js.Scale | windisk.cpp:44 | multiplying by a positive constant keeps finiteness and scales the value |
| Js.SubtractFrom | windisk.cpp:54 | `k - n` is finite exactly when n is, and then adds back to k; NaN stays NaN |
| DosDevices.CString | windrive.cpp:307-308 | the target read from the buffer is its prefix up to the first NUL, free of NUL |
| DosDevices.Target | windrive.cpp:306-308 | the target read back for one device name fits the 65536-character buffer and holds no NUL; `DosDevices.CString` states that it is the buffer up to its first NUL |
| DosDevices.DevicePairs | windrive.cpp:305-309 | one pair per listed name, in order, each with that name's target |
| DosDevices.ResolveCalls | windrive.cpp:306-307 | one resolving call per listed name, in order |
| DosDevices.ObjectOf | windrive.cpp:312-318 | the object built by the Set calls is well formed; `DosDevices.ObjectKeys`, `DosDevices.ObjectKeyOrder` and `DosDevices.LastWriteWins` state its names, their order and its values |
| DosDevices.ObjectKeys | windrive.cpp:315-318 | the object has a property for exactly the names among the pairs |
| DosDevices.FirstOccurrences | windrive.cpp:315-318 | the names with repeats dropped: the same names, each exactly once |
| DosDevices.ObjectKeyOrder | windrive.cpp:315-318 | the object's key order is the device names in order of first occurrence, because setting an existing name keeps its place |
| DosDevices.LastWriteWins | windrive.cpp:315-318 | a name maps to the target of its last pair: a later duplicate overwrites an earlier one |
| DosDevices.DosDevicesWorker.constructor | windrive.cpp:293-297 | the worker starts with no pairs |
| DosDevices.DosDevicesWorker.Execute | windrive.cpp:300-310 | appends one pair per listed name, in order; the log is the listing call followed by one resolving call per name |
| DosDevices.DosDevicesWorker.OnOK | windrive.cpp:312-321 | the returned object is the one built by setting every pair in order |
| WinDisk.FreePercent | windisk.cpp:42-44 | finite exactly when total > 0, then between 0 and 100 when free <= total; NaN exactly for 0 / 0 |
| WinDisk.DiskRecord | windisk.cpp:39-55 | the raw type code and the unchanged cluster counts; used + free == 100 whenever free is finite |
| WinDisk.SetIndex | windisk.cpp:59-62 | `napi_set_property` on an index: the value is stored there, the length grows to one past the index when it was not already beyond it, and every other element is kept |
| WinDisk.Emitted | windisk.cpp:30-62 | the objects stored for the roots, each at its root's OS position; `WinDisk.SparseStep` and `DiskEnumeration.DenseIsCompactedSparse` state which roots are kept and where |
| WinDisk.SparseDrives | windisk.cpp:27-67 | the array getLogicalDrives returns; `WinDisk.LengthCoversElements` states its length and `WinDisk.SparseStep` how each root extends it |
| WinDisk.LengthCoversElements | windisk.cpp:27-67 | the array length is at most the number of roots; every element lies below it; the last index below it is set; the array is empty exactly when its length is 0 |
| WinDisk.SparseStep | windisk.cpp:38-67 | one more root sets its own index when it is emitted and leaves the array alone otherwise |
| WinDisk.DriveTypeOnlyForEmitted | windisk.cpp:30-39 | the drive type is queried for a root exactly when its free-space query succeeded with a non-zero sector size |
| WinDisk.GetLogicalDrives | windisk.cpp:14-72 | for a count in 1..150, object i is the record of root i and is present exactly for the kept roots; for any other count the array is empty; the call log is stated too |
| WinDisk.VisitRoot | windisk.cpp:28-67 | one turn keeps the walk invariant, counts the root and advances the pointer |
| DiskEnumeration.DenseDrives | src/Disk.cpp:24-38 | the push_back vector holds no more records than roots; `DiskEnumeration.DenseIsCompactedSparse` states its contents: windisk.cpp's sparse array for the same roots with the holes dropped |
| DiskEnumeration.Compact | src/Disk.cpp:35 | a sparse array read in index order with the holes dropped holds at most as many records as indexes read; `DiskEnumeration.DenseIsCompactedSparse` states that it turns windisk.cpp's array into src/Disk.cpp's vector |
| DiskEnumeration.DenseIsCompactedSparse | src/Disk.cpp:5-43 | the dense vector is windisk.cpp's sparse array for the same roots with the holes dropped, in OS order |
| DiskEnumeration.CompactAgrees | src/Disk.cpp:35 | records already pushed are not changed by later roots |
| DiskEnumeration.WalkCalls | src/Disk.cpp:15-22 | free space and then drive type are queried for every root, kept or not |
| DiskEnumeration.Disk.GetAllDiskInformation | src/Disk.cpp:5-43 | for a count in 1..1024 the dense records of the roots, otherwise empty; it changes nothing but the call log (`Disk` has no fields, include/Disk.h:23-29) |
| DiskEnumeration.Disk.VisitRoot | src/Disk.cpp:13-38 | one turn keeps the walk invariant and advances the pointer |
| GuidText.HexDigit | include/slimio.h:8 | `%x` prints a lowercase hexadecimal digit |
| GuidText.DigitValue | include/slimio.h:8 | each lowercase hexadecimal digit is printed for exactly one value below 16 |
| GuidText.HexDigitInjective | include/slimio.h:8 | distinct values print as distinct digits |
| GuidText.Pow16Widths | include/slimio.h:8-11 | two digits hold a byte, four a WORD, eight a DWORD |
| GuidText.Hex | include/slimio.h:8-9 | `%0Nx` prints exactly N characters |
| GuidText.HexDigitsOnly | include/slimio.h:8 | every printed character is a lowercase hexadecimal digit |
| GuidText.HexValueOfHex | include/slimio.h:8-11 | reading back what `%0Nx` printed gives the value |
| GuidText.HexOfHexValue | include/slimio.h:8-11 | printing the value of N digits at width N gives the digits back |
| GuidText.ByteHex | include/slimio.h:10-11 | each byte of Data4 prints as two characters |
| GuidText.LayoutOfFields | include/slimio.h:8 | the format puts its eleven fields at fixed offsets between braces and dashes |
| GuidText.GuidToString | include/slimio.h:5-14 | the text is 38 characters between braces; `GuidText.GuidToStringFields`, `GuidText.GuidToStringShape`, `GuidText.ParseGuidToString` and `GuidText.GuidToStringInjective` state its layout, its digits and that it can be decoded |
| GuidText.GuidToStringFields | include/slimio.h:7-11 | braces at 0 and 37, dashes at 9, 14, 19 and 24; Data1, Data2, Data3 and Data4[0..7] are printed at their fixed offsets, in order |
| GuidText.GuidToStringShape | include/slimio.h:6-8 | the text is 38 characters (39 with the NUL); every position other than a brace or dash is a lowercase hexadecimal digit |
| GuidText.FieldsAreHex | include/slimio.h:8 | every field of a registry-form text is made of hexadecimal digits |
| GuidText.ParseGuid | include/slimio.h:8-11 | a text decodes exactly when it has the registry form |
| GuidText.ParseGuidToString | include/slimio.h:8-11 | decoding the text of a GUID gives back Data1, Data2, Data3 and Data4 exactly |
| GuidText.GuidToStringOfParse | include/slimio.h:8-11 | every registry-form text is the text of the GUID it decodes to |
| GuidText.GuidToStringInjective | include/slimio.h:8-11 | distinct GUIDs have distinct texts |
| Facade.Returned | windrive.cpp:163-178 | the entry point returns undefined exactly when it queued a worker and null exactly when it threw |
| Facade.CheckArguments | windrive.cpp:163-172 | accepted exactly with enough arguments and a function at the callback index; too few arguments give "Wrong number of argument provided!", otherwise a non-function gives "argument callback should be a Function!" |
| Facade.GetLogicalDrives | windrive.cpp:159-179 | a worker is queued, with the callback at index 0, exactly when it is called with at least one argument and the first is a function; otherwise one of the two errors |
| Facade.GetDevicePerformance | windrive.cpp:265-286 | a worker is queued, with the drive name and the callback at index 1, exactly when it is called with at least two arguments and the second is a function; otherwise one of the two errors |
| Facade.GetDosDevices | windrive.cpp:328-348 | a worker is queued, with the callback at index 0, exactly when it is called with at least one argument and the first is a function; otherwise one of the two errors |
| Facade.CountCheckedFirst | windrive.cpp:163-172 | every call with fewer arguments than the entry point takes (1, 2 and 1) throws the count error, whatever the arguments are; the callback is never looked at |
| Facade.NormalizeDriveName | index.js:63-65 | with `\` at index 2 the length drops by exactly one, keeping a prefix; otherwise, short names included, the name is unchanged |
| Facade.NormalizeRoot | index.js:63-65 | `X:\` becomes `X:`, and a second pass leaves `X:` alone |
| Facade.NormalizeDropsLast | index.js:63-65 | for every name with `\` at index 2 the result is the name without its last character, which is not necessarily the backslash: `C:\x` becomes `C:\` |
| Facade.CheckedDriveName | index.js:59-65 | a TypeError "driveName should be typeof string!" exactly for a non-string; otherwise the normalised name; one function serves all three device queries, whose checks at lines 128-134 and 157-163 are identical |
| Facade.Settle | index.js:27-33 | the promise rejects with `error` exactly when it is truthy, and otherwise resolves with the payload; the callbacks at lines 68-74 and 96-102 are the same |
| Facade.CallbackArguments | windrive.cpp:241-258 | the first callback argument is truthy exactly when the worker set an error; `Facade.SettleWorkerResult` states how the promise then settles |
| Facade.SettleWorkerResult | windrive.cpp:241-258 | a worker that succeeded resolves with its payload; one that set an error rejects with that error |
| Facade.DevicePerformanceSettles | index.js:59-76 | for a string name the promise rejects with the handle error exactly when the device `\\.\` + normalised name does not open |
| Facade.DevicePerformanceTypeError | index.js:60-62 | a non-string name throws the TypeError before any native call |
| Facade.RootDevicePath | index.js:63-65 | the root `C:\` opens the device path `\\.\C:` |
| WinDiskScript.TableMatchesNativeNames | windisk.js:5-13 | for codes 0..6 the table's name is the name windrive.cpp gives that code |
| WinDiskScript.TypeNameOf | windisk.js:23 | a name exactly for the numbers 0..6, the table's entry for that code, undefined for anything else |
| WinDiskScript.DiskObject | windisk.cpp:46-55 | the object carries the drive's name and its numeric type code; its six property names are distinct and `driveTypeName` is not among them |
| WinDiskScript.ScriptArray | windisk.cpp:57-62 | the array script code sees has the native length, with a hole wherever no object was set |
| WinDiskScript.ScriptArrayHoldsDisks | windisk.cpp:49-51 | every element that is not a hole has a string name and a numeric type |
| WinDiskScript.Annotate | windisk.js:20-24 | `Reflect.set` of `driveTypeName` keeps the object a disk object; `WinDiskScript.AnnotateAddsOneField` states that it adds only that property, at the end |
| WinDiskScript.AnnotateAddsOneField | windisk.js:20-24 | annotation adds exactly `driveTypeName`, at the end of the key order, and changes no other property |
| WinDiskScript.CleanDiskName | windisk.js:26 | drops the last character whatever it is; "" stays "" |
| WinDiskScript.CleanIsUnconditional | windisk.js:26 | `C:\` becomes `C:`, and `C:` becomes `C` |
| WinDiskScript.FirstHole | windisk.js:19 | the index of the first hole: every element before it is present |
| WinDiskScript.StopFrom | windisk.js:19-29 | where the loop stops: every disk before it is present and its performance call returns; at the stop there is a hole or a throwing call |
| WinDiskScript.Stop | windisk.js:19-29 | the loop never passes the first hole |
| WinDiskScript.Processed | windisk.js:19-29 | the number of disks annotated never passes the first hole, so every annotated element is a disk |
| WinDiskScript.AnnotateDisks | windisk.js:19-32 | the disks up to where the loop stops are annotated in place, in order, and their cleaned names are passed to getDevicePerformance; the rest of the array is unchanged; it throws exactly when it stops before the end, at a hole or at a disk whose performance call throws, and that disk is annotated first |
| WinDiskScript.ThrowsIffHole | windisk.js:19-29 | for a getDevicePerformance present and returning normally on one string, the loop throws exactly when the native array has a hole below its length; every disk it annotates is one the native code set |
| WinDiskScript.AlwaysThrowingPerformance | windisk.js:19-29 | with a getDevicePerformance that throws on every call, as both windisk.cpp (no such export) and windrive.cpp (one argument, windrive.cpp:269-272) give, the loop throws exactly when the array is non-empty, after annotating only a first disk at index 0 |

## Left out

- The internals of the OS calls (GetLogicalDriveStrings, GetDriveType, GetDiskFreeSpace, CreateFileA, DeviceIoControl, CloseHandle, QueryDosDeviceA). They are abstract tables in `Host.Os`.
- The N-API and AsyncWorker machinery: `Init`, the module registration, queueing, threads and the event loop. A queued worker is a `Facade.Job`, and its callback is modelled by its arguments.
- The JavaScript Promise machinery: only which way each promise settles is modelled.
- LogicalDriveWorker::OnOK (windrive.cpp:135-152): property-by-property copying into an object. For records without capacity it reads struct fields that were never assigned, which have no value to model.
- DiskPerformanceWorker::OnOK (windrive.cpp:241-258): the conversion of the counters into an object is the parameter `toObject` of `Facade.DevicePerformance`.
- Facade.DevicePerformance: the end-to-end value has no ensures of its own; its properties are in `Facade.DevicePerformanceSettles` and `Facade.DevicePerformanceTypeError`.
- getDeviceGeometry and getDiskCacheInformation: the native side is not part of this model. Only their shared name check, `Facade.CheckedDriveName`, is modelled.
- getLastErrorMessage (include/slimio.h:16-21): it only formats an OS message.
- JavaScriptObject (src/JavaScriptObject.cpp): each `add*` call is one `Js.Set`.
- Doubles are exact reals or an infinity or NaN (`Js.Number`). Rounding is not modelled. `WinDisk.DiskRecord` can therefore state `used + free == 100` exactly.
- LONGLONG and DWORD counters are bounded integers. Their conversion to JavaScript numbers (precision above 2^53) is not modelled.
- LogicalDrives.FreePercent: zero total clusters with a capacity present is a precondition (`LogicalDrives.DivisionDefined`), because the source divides by it unguarded, which is undefined behaviour in C.
- Facade.GetDevicePerformance: requires a string first argument when the other checks pass, because the source reads it with an unchecked `As<String>()`. The index.js wrapper always passes one.
- The `storageManagerName` pointer into a `_bstr_t` that is destroyed at the end of Execute (windrive.cpp:225, 238). The model keeps the name as a value. The `_bstr_t` is built from the `WCHAR[8]` StorageManagerName, which need not be NUL-terminated; the model takes the name as already narrowed.
- `drive.name` points into Execute's stack buffer `szBuffer` (windrive.cpp:82), and OnOK reads it after Execute has returned. The model keeps the name as a value.
- `Name` in src/Disk.cpp:26-28 points into the buffer of a `CString` that is destroyed at the end of its block. The model keeps the name as a value.
- DOS-device pairs hold pointers into two stack buffers, and every pair's target points at the same `logical` buffer (windrive.cpp:302-308). The model keeps each target as a value, taken when its pair is pushed.
- Characters are narrow: `strlen` on a `TCHAR` buffer (windrive.cpp:131) is modelled as a character count. A walk that reaches the buffer end without an empty name stops there, where C would read past the buffer.
- JavaScript strings count UTF-16 code units: `charAt`, `substr` and `length` (index.js:63-64, windisk.js:26) index code units, while a Dafny `char` is one character. `Facade.NormalizeDriveName` and `WinDiskScript.CleanDiskName` agree with the source only for names without characters outside the Basic Multilingual Plane.
- The order of integer-like property names in JavaScript objects: `Js.JsObject` keeps creation order for every name.
- WinDiskScript.AnnotateDisks: whether `windisk.getDevicePerformance(cleanDiskName)` (windisk.js:29) throws is the parameter `performanceThrows`, per cleaned name; its result, a promise or undefined, is not modelled. windisk.cpp does not export the function (windisk.cpp:74-82), so the call is a TypeError, and windrive.cpp's throws the argument-count error on one argument; `WinDiskScript.AlwaysThrowingPerformance` covers both.
- WinDiskScript.ThrowsIffHole: holds only for a getDevicePerformance that returns normally on one string argument, which neither module of the repository provides.
- Timing and logging in windisk.js (`console.time`, `console.log`) are not modelled.
- The free percentage of windrive.cpp follows the code: DWORD division truncates before the multiplication by 100, so 400 of 1000 clusters free gives 0 percent, not an exact 40.
