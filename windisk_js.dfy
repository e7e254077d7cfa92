/**
 * windisk.js: the script that runs windisk.cpp's getLogicalDrives and then,
 * disk by disk, adds the drive type's name to each object in place and asks
 * for the performance of the disk's cleaned name.
 *
 * The array it walks is sparse: `for...of` visits the holes as `undefined`,
 * and `Reflect.set` on `undefined` throws a TypeError. Whether the native
 * module exports getDevicePerformance is a parameter: the windisk.cpp of
 * this repository exports only getLogicalDrives, and calling the missing
 * function throws a TypeError too.
 */
module WinDiskScript {
  import opened Wrappers
  import opened Js
  import opened WinTypes
  import LogicalDrives
  import WinDisk

  /** `driveTypeName`, indexed by the numeric drive-type code. */
  const DRIVE_TYPE_NAME: seq<string> := ["UNKNOWN", "NO_ROOT_DIR", "REMOVABLE", "FIXED", "REMOTE", "CDROM", "RAMDISK"]

  /** For each code 0..6 the table gives the name the native enumeration of windrive.cpp assigns to it. */
  lemma TableMatchesNativeNames(code: Dword)
    requires code < |DRIVE_TYPE_NAME|
    ensures DRIVE_TYPE_NAME[code] == LogicalDrives.TypeName(code)
    ensures DRIVE_TYPE_NAME[code] != ""
  {
    if code == 0 {} else if code == 1 {} else if code == 2 {} else if code == 3 {}
    else if code == 4 {} else if code == 5 {} else {}
  }

  /** The JavaScript number a drive-type code becomes. */
  function CodeValue(code: nat): JsValue {
    Num(Finite(code as real))
  }

  /** `driveTypeName[v]`: a name for an integral code 0..6, `undefined` for any other value. */
  function TypeNameOf(v: JsValue): (r: JsValue)
    ensures r != Undefined <==> exists code: nat | code < |DRIVE_TYPE_NAME| :: CodeValue(code) == v
    ensures forall code: nat | code < |DRIVE_TYPE_NAME| && CodeValue(code) == v :: r == Str(DRIVE_TYPE_NAME[code])
  {
    if v.Num? && v.n.Finite? && v.n.value == v.n.value.Floor as real && 0 <= v.n.value.Floor < |DRIVE_TYPE_NAME|
    then
      assert v == CodeValue(v.n.value.Floor);
      Str(DRIVE_TYPE_NAME[v.n.value.Floor])
    else Undefined
  }

  /** The object JavaScriptObject builds for one disk of windisk.cpp, properties in the order they are added. */
  function DiskObject(d: WinDisk.DiskInfo): (o: JsObject)
    ensures "name" in o.values && o.values["name"] == Str(d.name)
    ensures "driveType" in o.values && o.values["driveType"] == CodeValue(d.driveType)
    ensures WellFormed(o) && "driveTypeName" !in o.values
  {
    JsObject(
      ["name", "driveType", "freeClusters", "totalClusters", "usedClusterPourcent", "freeClusterPourcent"],
      map["name" := Str(d.name),
          "driveType" := CodeValue(d.driveType),
          "freeClusters" := Num(Finite(d.freeClusters as real)),
          "totalClusters" := Num(Finite(d.totalClusters as real)),
          "usedClusterPourcent" := Num(d.usedClusterPercent),
          "freeClusterPourcent" := Num(d.freeClusterPercent)])
  }

  /** The array script code receives: length as set by the native code, holes where no object was stored. */
  function ScriptArray(a: WinDisk.SparseArray): (s: seq<Option<JsObject>>)
    ensures |s| == a.length
    ensures forall k | 0 <= k < |s| :: s[k].Some? <==> k in a.elements
  {
    seq(a.length, k requires 0 <= k < a.length => if k in a.elements then Some(DiskObject(a.elements[k])) else None)
  }

  /** An object as getLogicalDrives builds it: a string name and a numeric drive type. */
  predicate IsDiskObject(d: JsObject) {
    && "name" in d.values && d.values["name"].Str?
    && "driveType" in d.values && d.values["driveType"].Num?
  }

  /** Every element that is not a hole is an object as getLogicalDrives builds it. */
  predicate AllDiskObjects(s: seq<Option<JsObject>>) {
    forall k | 0 <= k < |s| && s[k].Some? :: IsDiskObject(s[k].value)
  }

  /** `Reflect.set(disk, 'driveTypeName', driveTypeName[disk.driveType])`. */
  function Annotate(d: JsObject): (r: JsObject)
    requires IsDiskObject(d)
    ensures IsDiskObject(r)
  {
    Set(d, "driveTypeName", TypeNameOf(d.values["driveType"]))
  }

  /** The annotation adds exactly one property, at the end of the key order, and changes no other. */
  lemma AnnotateAddsOneField(d: JsObject)
    requires IsDiskObject(d) && WellFormed(d) && "driveTypeName" !in d.values
    ensures Annotate(d).keys == d.keys + ["driveTypeName"]
    ensures forall k | k in d.values :: k in Annotate(d).values && Annotate(d).values[k] == d.values[k]
    ensures Annotate(d).values.Keys == d.values.Keys + {"driveTypeName"}
    ensures WellFormed(Annotate(d))
  {
    SetWellFormed(d, "driveTypeName", TypeNameOf(d.values["driveType"]));
    forall k | k in d.values ensures Annotate(d).values[k] == d.values[k] {
      assert k != "driveTypeName";
    }
  }

  /** `disk.name.substr(0, disk.name.length - 1)`: always drops the last character; "" stays "". */
  function CleanDiskName(name: string): (r: string)
    ensures r <= name
    ensures |name| > 0 ==> |r| == |name| - 1
    ensures |name| == 0 ==> r == ""
  {
    if |name| == 0 then "" else name[..|name| - 1]
  }

  /** Unlike the normalisation of index.js, the cleaning drops the last character whatever is at index 2. */
  lemma CleanIsUnconditional()
    ensures CleanDiskName("C:\\") == "C:"
    ensures CleanDiskName("C:") == "C"
  {
  }

  /** The index of the first hole, or the length when there is none. */
  function FirstHole(s: seq<Option<JsObject>>): (h: nat)
    ensures h <= |s|
    ensures h < |s| ==> s[h].None?
    ensures forall k | 0 <= k < h :: s[k].Some?
    decreases |s|
  {
    if s == [] then 0
    else if s[0].None? then 0
    else 1 + FirstHole(s[1..])
  }

  /** The name a disk object carries, as `disk.name` reads it. */
  function DiskName(d: JsObject): string
    requires IsDiskObject(d)
  {
    d.values["name"].s
  }

  /**
   * The index at which the loop, started at `i`, stops: the first hole, or the
   * first disk for which `windisk.getDevicePerformance(cleanDiskName)` throws,
   * or the length when neither occurs. `performanceThrows` says, per cleaned
   * name, whether that call throws.
   */
  function StopFrom(s: seq<Option<JsObject>>, i: nat, performanceThrows: string -> bool): (n: nat)
    requires i <= |s| && AllDiskObjects(s)
    ensures i <= n <= |s|
    ensures forall k | i <= k < n :: s[k].Some? && !performanceThrows(CleanDiskName(DiskName(s[k].value)))
    ensures n < |s| ==> s[n].None? || performanceThrows(CleanDiskName(DiskName(s[n].value)))
    decreases |s| - i
  {
    if i == |s| || s[i].None? || performanceThrows(CleanDiskName(DiskName(s[i].value))) then i
    else StopFrom(s, i + 1, performanceThrows)
  }

  /** The index at which the loop over the whole array stops. */
  function Stop(s: seq<Option<JsObject>>, performanceThrows: string -> bool): (n: nat)
    requires AllDiskObjects(s)
    ensures n <= FirstHole(s)
  {
    StopFrom(s, 0, performanceThrows)
  }

  /**
   * How many disks the loop annotates: every disk before the stop, and the disk
   * at the stop too when it is one, since `Reflect.set` runs before the
   * performance call that throws.
   */
  function Processed(s: seq<Option<JsObject>>, performanceThrows: string -> bool): (n: nat)
    requires AllDiskObjects(s)
    ensures n <= FirstHole(s)
  {
    var stop := Stop(s, performanceThrows);
    if stop < |s| && s[stop].Some? then stop + 1 else stop
  }

  /** Whether the loop ends by an exception rather than by running out of disks. */
  predicate Throws(s: seq<Option<JsObject>>, performanceThrows: string -> bool)
    requires AllDiskObjects(s)
  {
    Stop(s, performanceThrows) < |s|
  }

  /** The array after the first `n` disks have been annotated in place. */
  function AnnotatedPrefix(s: seq<Option<JsObject>>, n: nat): (r: seq<Option<JsObject>>)
    requires n <= FirstHole(s) && AllDiskObjects(s)
    ensures |r| == |s|
  {
    seq(|s|, k requires 0 <= k < |s| => if k < n then Some(Annotate(s[k].value)) else s[k])
  }

  /** The cleaned names of the first `n` disks, in order: what the loop passes to getDevicePerformance. */
  function CleanedNames(s: seq<Option<JsObject>>, n: nat): (names: seq<string>)
    requires n <= FirstHole(s) && AllDiskObjects(s)
    ensures |names| == n
  {
    seq(n, k requires 0 <= k < n => CleanDiskName(DiskName(s[k].value)))
  }

  /** Annotating disk `n` extends the annotated prefix and the cleaned names by one. */
  lemma AnnotateOneMore(s: seq<Option<JsObject>>, n: nat, a: seq<Option<JsObject>>, queried: seq<string>)
    requires n < FirstHole(s) && AllDiskObjects(s)
    requires a == AnnotatedPrefix(s, n) && queried == CleanedNames(s, n)
    ensures a[n := Some(Annotate(s[n].value))] == AnnotatedPrefix(s, n + 1)
    ensures queried + [CleanDiskName(DiskName(s[n].value))] == CleanedNames(s, n + 1)
  {
  }

  /**
   * The loop of windisk.js over `logicalDrives`: the disks it reaches get
   * their drive-type name in place and their cleaned names are passed to
   * getDevicePerformance, in order; a hole (`disk.name` of undefined), or a
   * performance call that throws, ends it with that exception.
   */
  method AnnotateDisks(logicalDrives: array<Option<JsObject>>, performanceThrows: string -> bool)
    returns (threw: bool, queried: seq<string>)
    requires AllDiskObjects(logicalDrives[..])
    modifies logicalDrives
    ensures threw == Throws(old(logicalDrives[..]), performanceThrows)
    ensures logicalDrives[..] == AnnotatedPrefix(old(logicalDrives[..]), Processed(old(logicalDrives[..]), performanceThrows))
    ensures queried == CleanedNames(old(logicalDrives[..]), Processed(old(logicalDrives[..]), performanceThrows))
  {
    ghost var s := logicalDrives[..];
    assert s == AnnotatedPrefix(s, 0);
    queried := [];
    var i := 0;
    while i < logicalDrives.Length
      invariant i <= Stop(s, performanceThrows)
      invariant logicalDrives[..] == AnnotatedPrefix(s, i)
      invariant queried == CleanedNames(s, i)
    {
      var disk := logicalDrives[i];
      assert disk == s[i];
      if disk.None? {
        return true, queried;
      }
      AnnotateOneMore(s, i, logicalDrives[..], queried);
      logicalDrives[i] := Some(Annotate(disk.value));
      var cleanDiskName := CleanDiskName(DiskName(disk.value));
      queried := queried + [cleanDiskName];
      if performanceThrows(cleanDiskName) {
        return true, queried;
      }
      i := i + 1;
    }
    threw := false;
  }

  /** Every element of the array getLogicalDrives hands over is a disk object. */
  lemma ScriptArrayHoldsDisks(a: WinDisk.SparseArray)
    ensures AllDiskObjects(ScriptArray(a))
  {
  }

  /**
   * With a getDevicePerformance that returns normally on one string, the
   * script throws exactly when the native array has a hole below its length,
   * and then it annotates every disk before the first hole.
   */
  lemma ThrowsIffHole(a: WinDisk.SparseArray, performanceThrows: string -> bool)
    requires forall name :: !performanceThrows(name)
    ensures Throws(ScriptArray(a), performanceThrows) <==> exists k :: 0 <= k < a.length && k !in a.elements
    ensures forall k | 0 <= k < Processed(ScriptArray(a), performanceThrows) :: k in a.elements
  {
    var s := ScriptArray(a);
    ScriptArrayHoldsDisks(a);
    StopAtFirstHole(s, performanceThrows);
    if FirstHole(s) < |s| {
      assert FirstHole(s) !in a.elements;
    }
  }

  /** A performance call that never throws leaves the hole as the only way out. */
  lemma StopAtFirstHole(s: seq<Option<JsObject>>, performanceThrows: string -> bool)
    requires AllDiskObjects(s) && forall name :: !performanceThrows(name)
    ensures Stop(s, performanceThrows) == FirstHole(s)
  {
  }

  /**
   * Neither module of the repository gives the script a getDevicePerformance
   * that returns on one argument: windisk.cpp exports none, so the call is a
   * TypeError, and windrive.cpp's throws the argument-count error. With a call
   * that always throws, the loop annotates the first disk and throws there,
   * or throws at once on a hole at index 0; an empty array does not throw.
   */
  lemma AlwaysThrowingPerformance(s: seq<Option<JsObject>>, performanceThrows: string -> bool)
    requires AllDiskObjects(s) && forall name :: performanceThrows(name)
    ensures Throws(s, performanceThrows) <==> |s| > 0
    ensures Processed(s, performanceThrows) == if |s| > 0 && s[0].Some? then 1 else 0
  {
  }
}
