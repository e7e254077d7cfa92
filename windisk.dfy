/**
 * windisk.cpp, getLogicalDrives: the earlier revision of the enumeration. It
 * reads free space first and emits an object only for roots whose free-space
 * query succeeded with a non-zero sector size; the object is stored at the
 * root's position in the OS list, so skipped roots leave holes in the array.
 */
module WinDisk {
  import opened Wrappers
  import opened WinTypes
  import opened Host
  import MultiString
  import Js
  import LogicalDrives

  /** LogicalDriverLength in windisk.cpp: the capacity of the drive-strings buffer. */
  const LOGICAL_DRIVER_LENGTH: nat := 150

  /**
   * One emitted disk: the name, the raw drive-type code, the cluster counts
   * unchanged, and the two double percentages.
   */
  datatype DiskInfo = DiskInfo(
    name: string,
    driveType: Dword,
    freeClusters: Dword,
    totalClusters: Dword,
    usedClusterPercent: Js.Number,
    freeClusterPercent: Js.Number)

  /** `(FreeClusters / TotalClusters) * 100` in doubles; zero total clusters give an infinity or NaN. */
  function FreePercent(free: Dword, total: Dword): (p: Js.Number)
    ensures p.Finite? <==> total > 0
    ensures p.Finite? ==> 0.0 <= p.value && (free <= total ==> p.value <= 100.0)
    ensures p.NaN? <==> free == 0 && total == 0
  {
    var q := Js.Divide(free as real, total as real);
    assert q.Finite? ==> q.value == free as real / total as real;
    Js.Scale(q, 100.0)
  }

  /** The record for a root with drive-type code `code` whose free-space query answered `space`. */
  function DiskRecord(root: string, code: Dword, space: FreeSpace): (d: DiskInfo)
    ensures d.name == root && d.driveType == code
    ensures d.freeClusters == space.freeClusters && d.totalClusters == space.totalClusters
    ensures d.freeClusterPercent.Finite? <==> space.totalClusters > 0
    ensures d.freeClusterPercent.Finite? ==>
      d.usedClusterPercent.Finite? && d.usedClusterPercent.value + d.freeClusterPercent.value == 100.0
  {
    var free := FreePercent(space.freeClusters, space.totalClusters);
    DiskInfo(root, code, space.freeClusters, space.totalClusters, Js.SubtractFrom(100.0, free), free)
  }

  /**
   * A JavaScript array filled by index: its `length` is one past the highest
   * index set so far, and the indexes never set are holes.
   */
  datatype SparseArray = SparseArray(length: nat, elements: map<nat, DiskInfo>)

  const EMPTY_ARRAY: SparseArray := SparseArray(0, map[])

  /** `napi_set_property(array, i, value)`: stores the value at `i` and grows the length past `i`. */
  function SetIndex(a: SparseArray, i: nat, d: DiskInfo): (r: SparseArray)
    ensures i in r.elements && r.elements[i] == d && i < r.length
    ensures a.length <= r.length && (a.length <= i ==> r.length == i + 1)
    ensures forall j | j in a.elements && j != i :: j in r.elements && r.elements[j] == a.elements[j]
    ensures forall j | j in r.elements :: j == i || j in a.elements
  {
    SparseArray(if i + 1 > a.length then i + 1 else a.length, a.elements[i := d])
  }

  /**
   * The objects emitted for `roots`: the record of root `i`, at index `i`,
   * exactly when its free-space query succeeded with a non-zero sector size.
   */
  function Emitted(roots: seq<string>, typeOf: string -> Dword, spaceOf: string -> FreeSpace): map<nat, DiskInfo> {
    map i: nat | i < |roots| && LogicalDrives.HasCapacity(spaceOf(roots[i]))
      :: DiskRecord(roots[i], typeOf(roots[i]), spaceOf(roots[i]))
  }

  /** One past the index of the last emitted root, or 0 when none is emitted. */
  function ArrayLength(roots: seq<string>, spaceOf: string -> FreeSpace): nat
    decreases |roots|
  {
    if roots == [] then 0
    else if LogicalDrives.HasCapacity(spaceOf(roots[|roots| - 1])) then |roots|
    else ArrayLength(roots[..|roots| - 1], spaceOf)
  }

  /** The array getLogicalDrives returns for `roots`. */
  function SparseDrives(roots: seq<string>, typeOf: string -> Dword, spaceOf: string -> FreeSpace): SparseArray {
    SparseArray(ArrayLength(roots, spaceOf), Emitted(roots, typeOf, spaceOf))
  }

  /**
   * The array's `length` counts up to the last emitted root and no further:
   * every element lies below it, the last index below it is an element, and
   * the array is empty exactly when its length is 0.
   */
  lemma {:induction false} LengthCoversElements(roots: seq<string>, typeOf: string -> Dword, spaceOf: string -> FreeSpace)
    ensures var a := SparseDrives(roots, typeOf, spaceOf);
      && a.length <= |roots|
      && (forall i | i in a.elements :: i < a.length)
      && (a.length > 0 ==> a.length - 1 in a.elements)
      && (a.length == 0 <==> a.elements == map[])
    decreases |roots|
  {
    if roots != [] {
      var init, last := roots[..|roots| - 1], roots[|roots| - 1];
      LengthCoversElements(init, typeOf, spaceOf);
      var e, e' := Emitted(init, typeOf, spaceOf), Emitted(roots, typeOf, spaceOf);
      forall i: nat | i < |init| ensures i in e <==> i in e' {
        assert init[i] == roots[i];
      }
      if !LogicalDrives.HasCapacity(spaceOf(last)) {
        assert e.Keys == e'.Keys;
      } else {
        assert |roots| - 1 in e';
      }
    }
  }

  /** Visiting one more root sets its index when it is emitted and leaves the array alone otherwise. */
  lemma SparseStep(done: seq<string>, root: string, typeOf: string -> Dword, spaceOf: string -> FreeSpace)
    ensures SparseDrives(done + [root], typeOf, spaceOf)
         == if LogicalDrives.HasCapacity(spaceOf(root))
            then SetIndex(SparseDrives(done, typeOf, spaceOf), |done|, DiskRecord(root, typeOf(root), spaceOf(root)))
            else SparseDrives(done, typeOf, spaceOf)
  {
    var roots := done + [root];
    assert roots[..|done|] == done;
    LengthCoversElements(done, typeOf, spaceOf);
    var e, e' := Emitted(done, typeOf, spaceOf), Emitted(roots, typeOf, spaceOf);
    forall i: nat | i < |done| ensures (i in e <==> i in e') && (i in e ==> e[i] == e'[i]) {
      assert roots[i] == done[i];
    }
    if LogicalDrives.HasCapacity(spaceOf(root)) {
      assert e' == e[|done| := DiskRecord(root, typeOf(root), spaceOf(root))];
    } else {
      assert e' == e;
    }
  }

  /** The OS calls for one root: its free space, and its drive type only when it is emitted. */
  function RootCalls(root: string, space: FreeSpace): seq<Call> {
    [FreeSpaceCall(root)] + if LogicalDrives.HasCapacity(space) then [DriveTypeCall(root)] else []
  }

  /** The OS calls of the walk over `roots`, in order. */
  function WalkCalls(roots: seq<string>, spaceOf: string -> FreeSpace): seq<Call>
    decreases |roots|
  {
    if roots == [] then []
    else
      var last := roots[|roots| - 1];
      WalkCalls(roots[..|roots| - 1], spaceOf) + RootCalls(last, spaceOf(last))
  }

  /** A drive type is asked for exactly the roots that are emitted. */
  lemma {:induction false} DriveTypeOnlyForEmitted(roots: seq<string>, spaceOf: string -> FreeSpace, root: string)
    ensures DriveTypeCall(root) in WalkCalls(roots, spaceOf)
       <==> exists i | 0 <= i < |roots| :: roots[i] == root && LogicalDrives.HasCapacity(spaceOf(root))
    decreases |roots|
  {
    if roots != [] {
      var init, last := roots[..|roots| - 1], roots[|roots| - 1];
      DriveTypeOnlyForEmitted(init, spaceOf, root);
      assert WalkCalls(roots, spaceOf) == WalkCalls(init, spaceOf) + RootCalls(last, spaceOf(last));
      if exists i | 0 <= i < |init| :: init[i] == root && LogicalDrives.HasCapacity(spaceOf(root)) {
        var i :| 0 <= i < |init| && init[i] == root && LogicalDrives.HasCapacity(spaceOf(root));
        assert roots[i] == init[i];
      }
      if exists i | 0 <= i < |roots| :: roots[i] == root && LogicalDrives.HasCapacity(spaceOf(root)) {
        var i :| 0 <= i < |roots| && roots[i] == root && LogicalDrives.HasCapacity(spaceOf(root));
        if i < |init| { assert init[i] == roots[i]; }
      }
    }
  }

  /** The names in the drive-strings buffer: the answer fitted into LOGICAL_DRIVER_LENGTH characters. */
  function Roots(answer: BufferAnswer): seq<string> {
    MultiString.Entries(Fit(answer.contents, LOGICAL_DRIVER_LENGTH))
  }

  /** `dwResult > 0 && dwResult <= LogicalDriverLength`. */
  predicate Accepted(answer: BufferAnswer) {
    0 < answer.count <= LOGICAL_DRIVER_LENGTH
  }

  /**
   * getLogicalDrives: the sparse array of the roots when the reported length
   * is accepted, an empty array otherwise.
   */
  method GetLogicalDrives(os: Os) returns (JSInterfaceArray: SparseArray)
    modifies os`calls
    ensures var answer := os.logicalDriveStrings(LOGICAL_DRIVER_LENGTH);
      && JSInterfaceArray == (if Accepted(answer) then SparseDrives(Roots(answer), os.driveType, os.diskFreeSpace)
                              else EMPTY_ARRAY)
      && os.calls == old(os.calls) + [LogicalDriveStringsCall(LOGICAL_DRIVER_LENGTH)]
                   + (if Accepted(answer) then WalkCalls(Roots(answer), os.diskFreeSpace) else [])
  {
    JSInterfaceArray := EMPTY_ARRAY;
    var szBuffer := new char[LOGICAL_DRIVER_LENGTH];
    var dwResult := os.GetLogicalDriveStrings(szBuffer);
    if dwResult > 0 && dwResult <= LOGICAL_DRIVER_LENGTH as Dword {
      var s := szBuffer[..];
      ghost var roots := MultiString.Entries(s);
      ghost var calls0 := os.calls;
      ghost var done: seq<string> := [];
      var lpRootPathName: nat := 0;
      var i: nat := 0;
      while lpRootPathName < |s| && s[lpRootPathName] != MultiString.NUL
        invariant Walking(os, s, lpRootPathName, i, JSInterfaceArray, done, roots, calls0)
        decreases |s| + 1 - lpRootPathName
      {
        lpRootPathName, i, JSInterfaceArray, done :=
          VisitRoot(os, s, lpRootPathName, i, JSInterfaceArray, done, roots, calls0);
      }
      assert done == roots;
    }
  }

  /**
   * The state of the walk at offset `p` of buffer `s`, with counter `i` and
   * array `a`: the roots before `p` are `done`, `i` counts them, and the array
   * and the calls so far are theirs.
   */
  ghost predicate Walking(os: Os, s: seq<char>, p: nat, i: nat, a: SparseArray,
                          done: seq<string>, roots: seq<string>, calls0: seq<Call>)
    reads os
  {
    && p <= |s| + 1 && i == |done|
    && roots == done + MultiString.EntriesFrom(s, p)
    && a == SparseDrives(done, os.driveType, os.diskFreeSpace)
    && os.calls == calls0 + WalkCalls(done, os.diskFreeSpace)
  }

  /**
   * One turn of the walk: read the free space of the root at `p`, and if it
   * is emitted read its drive type and set index `i`; then step past the
   * root's NUL and count it.
   */
  method VisitRoot(os: Os, s: seq<char>, p: nat, i: nat, a: SparseArray,
                   ghost done: seq<string>, ghost roots: seq<string>, ghost calls0: seq<Call>)
    returns (p': nat, i': nat, a': SparseArray, ghost done': seq<string>)
    requires p < |s| && s[p] != MultiString.NUL
    requires Walking(os, s, p, i, a, done, roots, calls0)
    modifies os`calls
    ensures Walking(os, s, p', i', a', done', roots, calls0) && p < p'
  {
    var n := MultiString.StrLen(s, p);
    var root := s[p .. p + n];
    WalkStep(s, p, n, root, done, roots, os.diskFreeSpace, calls0);
    SparseStep(done, root, os.driveType, os.diskFreeSpace);
    a' := a;
    var space := os.GetDiskFreeSpace(root);
    if space.success && space.bytesPerSector != 0 {
      var driveType := os.GetDriveType(root);
      a' := SetIndex(a', i, DiskRecord(root, driveType, space));
    }
    done' := done + [root];
    p', i' := p + n + 1, i + 1;
  }

  /** One step of the walk: the root at `p` joins the roots done, and the calls grow by its calls. */
  lemma WalkStep(s: seq<char>, p: nat, n: nat, root: string, done: seq<string>, roots: seq<string>,
                 spaceOf: string -> FreeSpace, calls0: seq<Call>)
    requires p < |s| && s[p] != MultiString.NUL
    requires n == MultiString.StrLen(s, p) && root == s[p .. p + n]
    requires roots == done + MultiString.EntriesFrom(s, p)
    ensures roots == (done + [root]) + MultiString.EntriesFrom(s, p + n + 1)
    ensures calls0 + WalkCalls(done + [root], spaceOf) == (calls0 + WalkCalls(done, spaceOf)) + RootCalls(root, spaceOf(root))
  {
    MultiString.EntriesFromUnfold(s, p);
    assert (done + [root])[..|done|] == done;
  }
}
