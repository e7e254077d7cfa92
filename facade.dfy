/**
 * The script-facing surface: the native entry points of windrive.cpp, which
 * check their arguments and queue one worker, and the index.js wrappers, which
 * check and normalise the drive name and turn the worker's callback into a
 * settled promise.
 */
module Facade {
  import opened Wrappers
  import opened Js
  import opened Host
  import Performance

  const WRONG_ARGUMENT_COUNT: string := "Wrong number of argument provided!"
  const CALLBACK_NOT_FUNCTION: string := "argument callback should be a Function!"
  const DRIVE_NAME_NOT_STRING: string := "driveName should be typeof string!"

  /** A worker queued by a native entry point, with the callback it will call. */
  datatype Job =
    | LogicalDrivesJob(callback: nat)
    | PerformanceJob(driveName: string, callback: nat)
    | DosDevicesJob(callback: nat)

  /** What a native entry point does: throw an Error (and return null), or queue a job (and return undefined). */
  datatype NativeOutcome = Threw(message: string) | Queued(job: Job)

  /** The value the entry point returns to script code. */
  function Returned(outcome: NativeOutcome): (v: JsValue)
    ensures v == Undefined <==> outcome.Queued?
    ensures v == Null <==> outcome.Threw?
  {
    if outcome.Threw? then Null else Undefined
  }

  /**
   * The two checks every entry point makes, in order: at least `arity`
   * arguments, then a function at index `callbackAt`.
   */
  function CheckArguments(info: seq<JsValue>, arity: nat, callbackAt: nat): (r: Option<string>)
    requires callbackAt < arity
    ensures r == None <==> |info| >= arity && info[callbackAt].Function?
    ensures |info| < arity ==> r == Some(WRONG_ARGUMENT_COUNT)
    ensures |info| >= arity && !info[callbackAt].Function? ==> r == Some(CALLBACK_NOT_FUNCTION)
  {
    if |info| < arity then Some(WRONG_ARGUMENT_COUNT)
    else if !info[callbackAt].Function? then Some(CALLBACK_NOT_FUNCTION)
    else None
  }

  /** getLogicalDrives(callback). */
  function GetLogicalDrives(info: seq<JsValue>): (r: NativeOutcome)
    ensures r.Queued? <==> |info| >= 1 && info[0].Function?
    ensures r.Queued? ==> r.job == LogicalDrivesJob(info[0].id)
    ensures r.Threw? ==> r.message in {WRONG_ARGUMENT_COUNT, CALLBACK_NOT_FUNCTION}
  {
    match CheckArguments(info, 1, 0)
    case Some(message) => Threw(message)
    case None => Queued(LogicalDrivesJob(info[0].id))
  }

  /**
   * getDevicePerformance(driveName, callback). The first argument is read as
   * a string without a check; the wrapper in index.js always passes one.
   */
  function GetDevicePerformance(info: seq<JsValue>): (r: NativeOutcome)
    requires |info| >= 2 && info[1].Function? ==> info[0].Str?
    ensures r.Queued? <==> |info| >= 2 && info[1].Function?
    ensures r.Queued? ==> r.job == PerformanceJob(info[0].s, info[1].id)
    ensures r.Threw? ==> r.message in {WRONG_ARGUMENT_COUNT, CALLBACK_NOT_FUNCTION}
  {
    match CheckArguments(info, 2, 1)
    case Some(message) => Threw(message)
    case None => Queued(PerformanceJob(info[0].s, info[1].id))
  }

  /** getDosDevices(callback). */
  function GetDosDevices(info: seq<JsValue>): (r: NativeOutcome)
    ensures r.Queued? <==> |info| >= 1 && info[0].Function?
    ensures r.Queued? ==> r.job == DosDevicesJob(info[0].id)
    ensures r.Threw? ==> r.message in {WRONG_ARGUMENT_COUNT, CALLBACK_NOT_FUNCTION}
  {
    match CheckArguments(info, 1, 0)
    case Some(message) => Threw(message)
    case None => Queued(DosDevicesJob(info[0].id))
  }

  /**
   * The argument count is checked first: every call with fewer arguments than
   * the entry point takes throws the count error, whatever those arguments are.
   */
  lemma CountCheckedFirst(info: seq<JsValue>)
    ensures |info| < 1 ==> GetLogicalDrives(info) == Threw(WRONG_ARGUMENT_COUNT)
    ensures |info| < 1 ==> GetDosDevices(info) == Threw(WRONG_ARGUMENT_COUNT)
    ensures |info| < 2 ==> GetDevicePerformance(info) == Threw(WRONG_ARGUMENT_COUNT)
  {
  }

  /**
   * The drive-name normalisation of index.js: when the character at index 2
   * is a backslash, the LAST character is dropped; otherwise, including for
   * names shorter than three characters, the name is unchanged.
   */
  function NormalizeDriveName(driveName: string): (r: string)
    ensures r <= driveName
    ensures |driveName| >= 3 && driveName[2] == '\\' ==> |r| == |driveName| - 1
    ensures !(|driveName| >= 3 && driveName[2] == '\\') ==> r == driveName
  {
    if |driveName| >= 3 && driveName[2] == '\\' then driveName[..|driveName| - 1] else driveName
  }

  /** A root such as `C:\` loses its backslash, and its normalised form is left alone by a second pass. */
  lemma NormalizeRoot(letter: char)
    ensures NormalizeDriveName([letter, ':', '\\']) == [letter, ':']
    ensures NormalizeDriveName(NormalizeDriveName([letter, ':', '\\'])) == [letter, ':']
  {
  }

  /**
   * The character removed is the last one, not the backslash at index 2:
   * putting the last character back gives the name again, so `C:\x` becomes `C:\`.
   */
  lemma NormalizeDropsLast(driveName: string)
    ensures |driveName| >= 3 && driveName[2] == '\\' ==>
      NormalizeDriveName(driveName) == driveName[..|driveName| - 1]
      && NormalizeDriveName(driveName) + [driveName[|driveName| - 1]] == driveName
    ensures NormalizeDriveName("C:\\x") == "C:\\"
  {
  }

  /**
   * The check and normalisation shared by getDevicePerformance,
   * getDeviceGeometry and getDiskCacheInformation: a TypeError for a
   * non-string, the normalised name otherwise.
   */
  function CheckedDriveName(driveName: JsValue): (r: Result<string, string>)
    ensures r.Failure? <==> !driveName.Str?
    ensures r.Failure? ==> r.error == DRIVE_NAME_NOT_STRING
    ensures r.Success? ==> r.value == NormalizeDriveName(driveName.s)
  {
    if !driveName.Str? then Failure(DRIVE_NAME_NOT_STRING) else Success(NormalizeDriveName(driveName.s))
  }

  /** How a promise of index.js ends. */
  datatype Settlement = Resolved(value: JsValue) | Rejected(reason: JsValue)

  /** The callback of every wrapper: a truthy `error` rejects with it, anything else resolves with the payload. */
  function Settle(error: JsValue, payload: JsValue): (r: Settlement)
    ensures r.Rejected? <==> Truthy(error)
    ensures r.Rejected? ==> r.reason == error
    ensures r.Resolved? ==> r.value == payload
  {
    if Truthy(error) then Rejected(error) else Resolved(payload)
  }

  /**
   * The arguments a worker passes to its callback: `(null, payload)` from
   * OnOK, a single Error from the error path, which leaves the payload undefined.
   */
  function CallbackArguments(result: Result<JsValue, string>): (args: (JsValue, JsValue))
    ensures Truthy(args.0) <==> result.Failure?
  {
    match result
    case Success(payload) => (Null, payload)
    case Failure(message) => (ErrorObject(message), Undefined)
  }

  /** A worker that succeeded resolves its promise with its payload; one that set an error rejects with that Error. */
  lemma SettleWorkerResult(result: Result<JsValue, string>)
    ensures var (error, payload) := CallbackArguments(result);
      Settle(error, payload) == match result
        case Success(p) => Resolved(p)
        case Failure(m) => Rejected(ErrorObject(m))
  {
  }

  /**
   * getDevicePerformance of index.js, end to end, for a callback `cb`: a
   * TypeError for a non-string name; otherwise the promise the queued worker
   * settles for the host's answers. `toObject` stands for OnOK's conversion
   * of the counters into a JavaScript object.
   */
  function DevicePerformance(driveName: JsValue, cb: nat, opensDevice: string -> bool,
                             diskPerformance: string -> ControlAnswer, toObject: DiskPerformance -> JsValue):
    Result<Settlement, string>
  {
    match CheckedDriveName(driveName)
    case Failure(e) => Failure(e)
    case Success(name) =>
      match GetDevicePerformance([Str(name), Function(cb)])
      case Threw(message) => Success(Rejected(ErrorObject(message)))
      case Queued(job) =>
        var result := Performance.QueryPerformance(job.driveName, opensDevice, diskPerformance);
        var payload := match result
          case Success(p) => Success(toObject(p))
          case Failure(m) => Failure(m);
        var (error, value) := CallbackArguments(payload);
        Success(Settle(error, value))
  }

  /**
   * For a string name the native call is always reached, and its device path
   * is `\\.\` followed by the normalised name; the promise rejects with the
   * handle error exactly when that device does not open.
   */
  lemma DevicePerformanceSettles(name: string, cb: nat, opensDevice: string -> bool,
                                 diskPerformance: string -> ControlAnswer, toObject: DiskPerformance -> JsValue)
    ensures var r := DevicePerformance(Str(name), cb, opensDevice, diskPerformance, toObject);
      && r.Success?
      && (r.value.Rejected? <==> !opensDevice(Performance.DevicePath(NormalizeDriveName(name))))
      && (r.value.Rejected? ==> r.value.reason == ErrorObject(Performance.INVALID_HANDLE_ERROR))
  {
    SettleWorkerResult(
      match Performance.QueryPerformance(NormalizeDriveName(name), opensDevice, diskPerformance)
      case Success(p) => Success(toObject(p))
      case Failure(m) => Failure(m));
  }

  /** A non-string name throws the TypeError before any native call. */
  lemma DevicePerformanceTypeError(driveName: JsValue, cb: nat, opensDevice: string -> bool,
                                   diskPerformance: string -> ControlAnswer, toObject: DiskPerformance -> JsValue)
    requires !driveName.Str?
    ensures DevicePerformance(driveName, cb, opensDevice, diskPerformance, toObject) == Failure(DRIVE_NAME_NOT_STRING)
  {
  }

  /** The root `C:\` as listed by the enumeration opens the device path `\\.\C:`. */
  lemma RootDevicePath()
    ensures Performance.DevicePath(NormalizeDriveName("C:\\")) == "\\\\.\\C:"
  {
    NormalizeRoot('C');
  }
}
