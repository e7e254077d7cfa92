/**
 * src/Disk.cpp, Disk::getAllDiskInformation: the class-based revision of the
 * enumeration. It reads free space and the drive type of every root and
 * appends a record, in OS order, for each root whose free-space query
 * succeeded with a non-zero sector size: a dense vector with no holes.
 */
module DiskEnumeration {
  import opened WinTypes
  import opened Host
  import MultiString
  import LogicalDrives
  import WinDisk

  /** LogicalDriverLength in include/Disk.h: the capacity of the drive-strings buffer. */
  const LOGICAL_DRIVER_LENGTH: nat := 1024

  /** The records kept for `roots`, in order: one per root whose free-space query gave a capacity. */
  function DenseDrives(roots: seq<string>, typeOf: string -> Dword, spaceOf: string -> FreeSpace):
    (ds: seq<WinDisk.DiskInfo>)
    ensures |ds| <= |roots|
    decreases |roots|
  {
    if roots == [] then []
    else
      var init, last := roots[..|roots| - 1], roots[|roots| - 1];
      DenseDrives(init, typeOf, spaceOf)
      + if LogicalDrives.HasCapacity(spaceOf(last)) then [WinDisk.DiskRecord(last, typeOf(last), spaceOf(last))] else []
  }

  /** The elements of a sparse array below `n`, in index order, with the holes dropped. */
  function Compact(elements: map<nat, WinDisk.DiskInfo>, n: nat): (r: seq<WinDisk.DiskInfo>)
    ensures |r| <= n
    decreases n
  {
    if n == 0 then []
    else Compact(elements, n - 1) + if n - 1 in elements then [elements[n - 1]] else []
  }

  /**
   * The two revisions agree: the dense vector is the sparse array of windisk.cpp
   * for the same roots with its holes squeezed out.
   */
  lemma {:induction false} DenseIsCompactedSparse(roots: seq<string>, typeOf: string -> Dword, spaceOf: string -> FreeSpace)
    ensures DenseDrives(roots, typeOf, spaceOf) == Compact(WinDisk.Emitted(roots, typeOf, spaceOf), |roots|)
    decreases |roots|
  {
    if roots != [] {
      var init, last := roots[..|roots| - 1], roots[|roots| - 1];
      DenseIsCompactedSparse(init, typeOf, spaceOf);
      CompactAgrees(WinDisk.Emitted(init, typeOf, spaceOf), WinDisk.Emitted(roots, typeOf, spaceOf), |init|, init, roots, typeOf, spaceOf);
    }
  }

  /** Two sparse arrays that agree below `n` compact to the same records below `n`. */
  lemma {:induction false} CompactAgrees(e: map<nat, WinDisk.DiskInfo>, e': map<nat, WinDisk.DiskInfo>, n: nat,
                                         init: seq<string>, roots: seq<string>,
                                         typeOf: string -> Dword, spaceOf: string -> FreeSpace)
    requires e == WinDisk.Emitted(init, typeOf, spaceOf) && e' == WinDisk.Emitted(roots, typeOf, spaceOf)
    requires init <= roots && n <= |init|
    ensures Compact(e, n) == Compact(e', n)
    decreases n
  {
    if n > 0 {
      CompactAgrees(e, e', n - 1, init, roots, typeOf, spaceOf);
      assert init[n - 1] == roots[n - 1];
    }
  }

  /** The OS calls for one root: its free space, then its drive type, whether or not it is kept. */
  function RootCalls(root: string): seq<Call> {
    [FreeSpaceCall(root), DriveTypeCall(root)]
  }

  /** The OS calls of the walk over `roots`, in order. */
  function WalkCalls(roots: seq<string>): (cs: seq<Call>)
    ensures |cs| == 2 * |roots|
    ensures forall i | 0 <= i < |roots| :: cs[2 * i] == FreeSpaceCall(roots[i]) && cs[2 * i + 1] == DriveTypeCall(roots[i])
    decreases |roots|
  {
    if roots == [] then []
    else WalkCalls(roots[..|roots| - 1]) + RootCalls(roots[|roots| - 1])
  }

  /** The names in the drive-strings buffer: the answer fitted into LOGICAL_DRIVER_LENGTH characters. */
  function Roots(answer: BufferAnswer): seq<string> {
    MultiString.Entries(Fit(answer.contents, LOGICAL_DRIVER_LENGTH))
  }

  /** `dwResult > 0 && dwResult <= LogicalDriverLength`. */
  predicate Accepted(answer: BufferAnswer) {
    0 < answer.count <= LOGICAL_DRIVER_LENGTH
  }

  /** One step of the walk: the root at `p` joins the roots done, with its record and calls. */
  lemma WalkStep(s: seq<char>, p: nat, n: nat, root: string, done: seq<string>, roots: seq<string>,
                 typeOf: string -> Dword, spaceOf: string -> FreeSpace, calls0: seq<Call>)
    requires p < |s| && s[p] != MultiString.NUL
    requires n == MultiString.StrLen(s, p) && root == s[p .. p + n]
    requires roots == done + MultiString.EntriesFrom(s, p)
    ensures roots == (done + [root]) + MultiString.EntriesFrom(s, p + n + 1)
    ensures DenseDrives(done + [root], typeOf, spaceOf)
         == DenseDrives(done, typeOf, spaceOf)
            + if LogicalDrives.HasCapacity(spaceOf(root)) then [WinDisk.DiskRecord(root, typeOf(root), spaceOf(root))] else []
    ensures calls0 + WalkCalls(done + [root]) == (calls0 + WalkCalls(done)) + RootCalls(root)
  {
    MultiString.EntriesFromUnfold(s, p);
    assert (done + [root])[..|done|] == done;
  }

  /** `Disk` has no fields: getAllDiskInformation only reads the host and builds a local vector. */
  class Disk {
    constructor()
    {
    }

    method GetAllDiskInformation(os: Os) returns (ret: seq<WinDisk.DiskInfo>)
      modifies os`calls
      ensures var answer := os.logicalDriveStrings(LOGICAL_DRIVER_LENGTH);
        && ret == (if Accepted(answer) then DenseDrives(Roots(answer), os.driveType, os.diskFreeSpace) else [])
        && os.calls == old(os.calls) + [LogicalDriveStringsCall(LOGICAL_DRIVER_LENGTH)]
                     + (if Accepted(answer) then WalkCalls(Roots(answer)) else [])
    {
      ret := [];
      var szBuffer := new char[LOGICAL_DRIVER_LENGTH];
      var dwResult := os.GetLogicalDriveStrings(szBuffer);
      if dwResult > 0 && dwResult <= LOGICAL_DRIVER_LENGTH as Dword {
        var s := szBuffer[..];
        ghost var roots := MultiString.Entries(s);
        ghost var calls0 := os.calls;
        ghost var done: seq<string> := [];
        var lpRootPathName: nat := 0;
        while lpRootPathName < |s| && s[lpRootPathName] != MultiString.NUL
          invariant Walking(os, s, lpRootPathName, ret, done, roots, calls0)
          decreases |s| + 1 - lpRootPathName
        {
          lpRootPathName, ret, done := VisitRoot(os, s, lpRootPathName, ret, done, roots, calls0);
        }
        assert done == roots;
      }
    }

    /** The state of the walk at offset `p`: the roots before it are `done`, and `ret` and the calls are theirs. */
    ghost predicate Walking(os: Os, s: seq<char>, p: nat, ret: seq<WinDisk.DiskInfo>,
                            done: seq<string>, roots: seq<string>, calls0: seq<Call>)
      reads os
    {
      && p <= |s| + 1
      && roots == done + MultiString.EntriesFrom(s, p)
      && ret == DenseDrives(done, os.driveType, os.diskFreeSpace)
      && os.calls == calls0 + WalkCalls(done)
    }

    /** One turn of the walk: query the root at `p`, append its record if it is kept, step past its NUL. */
    method VisitRoot(os: Os, s: seq<char>, p: nat, ret: seq<WinDisk.DiskInfo>,
                     ghost done: seq<string>, ghost roots: seq<string>, ghost calls0: seq<Call>)
      returns (p': nat, ret': seq<WinDisk.DiskInfo>, ghost done': seq<string>)
      requires p < |s| && s[p] != MultiString.NUL
      requires Walking(os, s, p, ret, done, roots, calls0)
      modifies os`calls
      ensures Walking(os, s, p', ret', done', roots, calls0) && p < p'
    {
      var n := MultiString.StrLen(s, p);
      var root := s[p .. p + n];
      WalkStep(s, p, n, root, done, roots, os.driveType, os.diskFreeSpace, calls0);
      ret' := ret;
      var space := os.GetDiskFreeSpace(root);
      var driveType := os.GetDriveType(root);
      if space.success && space.bytesPerSector != 0 {
        ret' := ret' + [WinDisk.DiskRecord(root, driveType, space)];
      }
      done' := done + [root];
      p' := p + n + 1;
    }
  }
}
