/**
 * windrive.cpp, LogicalDriveWorker::Execute: ask the host for the logical
 * drive strings into a fixed buffer, walk the names, classify each root and,
 * except for CD-ROM drives, read its free space; one record per name.
 */
module LogicalDrives {
  import opened Wrappers
  import opened WinTypes
  import opened Host
  import MultiString

  /** DRIVER_LENGTH: the capacity, in characters, of the drive-strings buffer. */
  const DRIVER_LENGTH: nat := 120

  const RETRIEVE_ERROR: string := "Failed to retrieve logical drives names!"

  /**
   * The figures the source assigns when the free-space query succeeded with a
   * non-zero sector size. The percentages are whole numbers: the source divides
   * in DWORD arithmetic before it converts to double.
   */
  datatype Capacity = Capacity(
    bytesPerSect: Dword,
    freeClusters: Dword,
    totalClusters: Dword,
    usedClusterPercent: int,
    freeClusterPercent: Dword)

  /**
   * One `LogicalDrive` as pushed into `vLogicalDrives`. `capacity` is `None`
   * where the source never assigns the five capacity fields (they keep whatever
   * the uninitialised struct held). `name` is kept as a value; in the source it
   * points into Execute's stack buffer `szBuffer` (windrive.cpp:82), which is
   * gone by the time OnOK reads it.
   */
  datatype LogicalDrive = LogicalDrive(name: string, driveType: string, capacity: Option<Capacity>)

  /**
   * The `switch (driveType)`: each of the seven codes has its own name, and any
   * other code leaves `driveType` as the default empty string.
   */
  function TypeName(code: Dword): (name: string)
    ensures name == "" <==> code > DRIVE_RAMDISK
  {
    if code == DRIVE_UNKNOWN then "UNKNOWN"
    else if code == DRIVE_NO_ROOT_DIR then "NO_ROOT_DIR"
    else if code == DRIVE_REMOVABLE then "REMOVABLE"
    else if code == DRIVE_FIXED then "FIXED"
    else if code == DRIVE_REMOTE then "REMOTE"
    else if code == DRIVE_CDROM then "CDROM"
    else if code == DRIVE_RAMDISK then "RAMDISK"
    else ""
  }

  /** Distinct known codes get distinct names, so the name identifies the code. */
  lemma TypeNameInjective(a: Dword, b: Dword)
    requires a <= DRIVE_RAMDISK && b <= DRIVE_RAMDISK && TypeName(a) == TypeName(b)
    ensures a == b
  {
  }

  /**
   * `(dwFreeClusters / dwTotalClusters) * 100` in DWORD arithmetic: the quotient
   * is truncated before the multiplication, so a drive that is not entirely free
   * reports 0, an entirely free one 100.
   */
  function FreePercent(free: Dword, total: Dword): (p: Dword)
    requires total > 0
    ensures free < total ==> p == 0
    ensures free == total ==> p == 100
    ensures p == 0 || p == 100 || free > total
  {
    QuotientOfAtMost(free, total);
    ((free / total) * 100) % DWORD_LIMIT
  }

  /** Integer division of a count by a larger or equal one gives 0 or 1. */
  lemma QuotientOfAtMost(a: nat, b: nat)
    requires b > 0
    ensures a < b ==> a / b == 0
    ensures a == b ==> a / b == 1
    ensures a <= b ==> a / b <= 1
  {
    MultipleBounds(a / b, b);
  }

  /** Where a multiple `q * b` lies, for the quotients that matter above. */
  lemma MultipleBounds(q: int, b: nat)
    ensures q >= 1 ==> q * b >= b
    ensures q >= 2 ==> q * b >= 2 * b
    ensures q <= -1 ==> q * b + b <= 0
  {
  }

  /** The source's condition for assigning capacity: `success && dwBytesPerSect != 0`. */
  predicate HasCapacity(space: FreeSpace) {
    space.success && space.bytesPerSector != 0
  }

  /**
   * The source divides by `dwTotalClusters` without checking it; a host answer
   * that would reach that division with zero total clusters is outside the model.
   */
  predicate DivisionDefined(code: Dword, space: FreeSpace) {
    code != DRIVE_CDROM && HasCapacity(space) ==> space.totalClusters > 0
  }

  /** The capacity fields, copied from the free-space answer, with both percentages. */
  function CapacityOf(space: FreeSpace): (c: Capacity)
    requires HasCapacity(space) && space.totalClusters > 0
    ensures c.usedClusterPercent + c.freeClusterPercent == 100
    ensures c.bytesPerSect == space.bytesPerSector
    ensures c.freeClusters == space.freeClusters && c.totalClusters == space.totalClusters
    ensures space.freeClusters < space.totalClusters ==> c.freeClusterPercent == 0 && c.usedClusterPercent == 100
  {
    var free := FreePercent(space.freeClusters, space.totalClusters);
    Capacity(space.bytesPerSector, space.freeClusters, space.totalClusters, 100 - free, free)
  }

  /** The record built for one root with drive-type code `code` and free-space answer `space`. */
  function DriveRecord(root: string, code: Dword, space: FreeSpace): (d: LogicalDrive)
    requires DivisionDefined(code, space)
    ensures d.name == root && d.driveType == TypeName(code)
    ensures d.capacity.Some? <==> code != DRIVE_CDROM && HasCapacity(space)
    ensures d.capacity.Some? ==> d.capacity.value.usedClusterPercent + d.capacity.value.freeClusterPercent == 100
  {
    LogicalDrive(root, TypeName(code),
      if code != DRIVE_CDROM && HasCapacity(space) then Some(CapacityOf(space)) else None)
  }

  /** Every root in `roots` reaches the division only with non-zero total clusters. */
  predicate DivisionDefinedForAll(roots: seq<string>, typeOf: string -> Dword, spaceOf: string -> FreeSpace) {
    forall i | 0 <= i < |roots| :: DivisionDefined(typeOf(roots[i]), spaceOf(roots[i]))
  }

  /** The records for `roots`, one per root, in order. */
  function Drives(roots: seq<string>, typeOf: string -> Dword, spaceOf: string -> FreeSpace): (ds: seq<LogicalDrive>)
    requires DivisionDefinedForAll(roots, typeOf, spaceOf)
    ensures |ds| == |roots|
    decreases |roots|
  {
    if roots == [] then []
    else
      var last := roots[|roots| - 1];
      Drives(roots[..|roots| - 1], typeOf, spaceOf) + [DriveRecord(last, typeOf(last), spaceOf(last))]
  }

  /** The enumeration keeps every entry: record `i` is the record of root `i`. */
  lemma {:induction false} DrivesOnePerRoot(roots: seq<string>, typeOf: string -> Dword, spaceOf: string -> FreeSpace)
    requires DivisionDefinedForAll(roots, typeOf, spaceOf)
    ensures |Drives(roots, typeOf, spaceOf)| == |roots|
    ensures forall i | 0 <= i < |roots| ::
      Drives(roots, typeOf, spaceOf)[i] == DriveRecord(roots[i], typeOf(roots[i]), spaceOf(roots[i]))
    decreases |roots|
  {
    if roots != [] {
      var init := roots[..|roots| - 1];
      DrivesOnePerRoot(init, typeOf, spaceOf);
      forall i | 0 <= i < |roots|
        ensures Drives(roots, typeOf, spaceOf)[i] == DriveRecord(roots[i], typeOf(roots[i]), spaceOf(roots[i]))
      {
        if i < |init| { assert roots[i] == init[i]; }
      }
    }
  }

  /** The OS calls made for one root: its drive type, then its free space unless it is a CD-ROM. */
  function RootCalls(root: string, code: Dword): seq<Call> {
    [DriveTypeCall(root)] + if code != DRIVE_CDROM then [FreeSpaceCall(root)] else []
  }

  /** The OS calls the walk makes over `roots`, in order. */
  function WalkCalls(roots: seq<string>, typeOf: string -> Dword): seq<Call>
    decreases |roots|
  {
    if roots == [] then []
    else
      var last := roots[|roots| - 1];
      WalkCalls(roots[..|roots| - 1], typeOf) + RootCalls(last, typeOf(last))
  }

  /** No free-space query is ever issued for a CD-ROM root, and every query is for a listed root. */
  lemma {:induction false} NoFreeSpaceQueryForCdrom(roots: seq<string>, typeOf: string -> Dword, root: string)
    requires FreeSpaceCall(root) in WalkCalls(roots, typeOf)
    ensures root in roots && typeOf(root) != DRIVE_CDROM
    decreases |roots|
  {
    var init, last := roots[..|roots| - 1], roots[|roots| - 1];
    assert roots == init + [last];
    if FreeSpaceCall(root) !in RootCalls(last, typeOf(last)) {
      NoFreeSpaceQueryForCdrom(init, typeOf, root);
    }
  }

  /** Every listed root is classified: its drive type is queried. */
  lemma {:induction false} EveryRootClassified(roots: seq<string>, typeOf: string -> Dword, i: nat)
    requires i < |roots|
    ensures DriveTypeCall(roots[i]) in WalkCalls(roots, typeOf)
    decreases |roots|
  {
    var init, last := roots[..|roots| - 1], roots[|roots| - 1];
    if i < |init| {
      assert roots[i] == init[i];
      EveryRootClassified(init, typeOf, i);
    } else {
      assert DriveTypeCall(last) == RootCalls(last, typeOf(last))[0];
    }
  }

  /** The names in the drive-strings buffer after the call: the answer fitted into DRIVER_LENGTH characters. */
  function Roots(answer: BufferAnswer): seq<string> {
    MultiString.Entries(Fit(answer.contents, DRIVER_LENGTH))
  }

  predicate Rejected(answer: BufferAnswer) {
    answer.count == 0 || answer.count > DRIVER_LENGTH
  }

  /** What the worker computes for a host: the error it sets, or the records it pushes. */
  function Enumerate(answer: BufferAnswer, typeOf: string -> Dword, spaceOf: string -> FreeSpace):
    (r: Result<seq<LogicalDrive>, string>)
    requires !Rejected(answer) ==> DivisionDefinedForAll(Roots(answer), typeOf, spaceOf)
    ensures r.Failure? <==> answer.count == 0 || answer.count > DRIVER_LENGTH
    ensures r.Failure? ==> r.error == RETRIEVE_ERROR
  {
    if Rejected(answer) then Failure(RETRIEVE_ERROR)
    else Success(Drives(Roots(answer), typeOf, spaceOf))
  }

  /**
   * One step of the walk over the roots `roots` of buffer `s`: at a non-empty
   * name the walk takes that name as the next root, and the records and calls
   * gathered so far grow by that root's record and calls.
   */
  lemma WalkAdvance(s: seq<char>, p: nat, n: nat, root: string, done: seq<string>, roots: seq<string>,
                    typeOf: string -> Dword, spaceOf: string -> FreeSpace,
                    drives0: seq<LogicalDrive>, calls0: seq<Call>)
    requires p < |s| && s[p] != MultiString.NUL
    requires n == MultiString.StrLen(s, p) && root == s[p .. p + n]
    requires roots == done + MultiString.EntriesFrom(s, p)
    requires DivisionDefinedForAll(roots, typeOf, spaceOf) && DivisionDefinedForAll(done, typeOf, spaceOf)
    ensures roots == (done + [root]) + MultiString.EntriesFrom(s, p + n + 1)
    ensures DivisionDefined(typeOf(root), spaceOf(root))
    ensures DivisionDefinedForAll(done + [root], typeOf, spaceOf)
    ensures drives0 + Drives(done + [root], typeOf, spaceOf)
         == (drives0 + Drives(done, typeOf, spaceOf)) + [DriveRecord(root, typeOf(root), spaceOf(root))]
    ensures calls0 + WalkCalls(done + [root], typeOf) == (calls0 + WalkCalls(done, typeOf)) + RootCalls(root, typeOf(root))
  {
    MultiString.EntriesFromUnfold(s, p);
    assert roots == (done + [root]) + MultiString.EntriesFrom(s, p + n + 1);
    PrefixDivisionDefined(roots, done + [root], typeOf, spaceOf);
    assert (done + [root])[|done|] == root;
    assert (done + [root])[..|done|] == done;
  }

  /** The roots of a prefix of `roots` reach the division safely when those of `roots` do. */
  lemma PrefixDivisionDefined(roots: seq<string>, prefix: seq<string>,
                              typeOf: string -> Dword, spaceOf: string -> FreeSpace)
    requires prefix <= roots && DivisionDefinedForAll(roots, typeOf, spaceOf)
    ensures DivisionDefinedForAll(prefix, typeOf, spaceOf)
  {
    forall i | 0 <= i < |prefix| ensures DivisionDefined(typeOf(prefix[i]), spaceOf(prefix[i])) {
      assert prefix[i] == roots[i];
    }
  }

  /**
   * The worker of getLogicalDrives. `vLogicalDrives` is the member vector
   * Execute pushes into; `error` is the message passed to SetError, if any.
   */
  class LogicalDriveWorker {
    var vLogicalDrives: seq<LogicalDrive>
    var error: Option<string>

    constructor()
      ensures vLogicalDrives == [] && error == None
    {
      vLogicalDrives, error := [], None;
    }

    /**
     * The body of the walk for one root: name it, classify it and, unless it is
     * a CD-ROM, read its free space; then push the record.
     */
    method PushDrive(os: Os, root: string)
      requires DivisionDefined(os.driveType(root), os.diskFreeSpace(root))
      modifies this`vLogicalDrives, os`calls
      ensures vLogicalDrives == old(vLogicalDrives) + [DriveRecord(root, os.driveType(root), os.diskFreeSpace(root))]
      ensures os.calls == old(os.calls) + RootCalls(root, os.driveType(root))
    {
      var drive := LogicalDrive(root, "", None);
      var driveType := os.GetDriveType(root);
      drive := drive.(driveType := TypeName(driveType));
      if driveType != DRIVE_CDROM {
        var space := os.GetDiskFreeSpace(root);
        if space.success && space.bytesPerSector != 0 {
          var freeClusterPercent := FreePercent(space.freeClusters, space.totalClusters);
          drive := drive.(capacity := Some(Capacity(space.bytesPerSector, space.freeClusters,
            space.totalClusters, 100 - freeClusterPercent as int, freeClusterPercent)));
        }
      }
      vLogicalDrives := vLogicalDrives + [drive];
    }

    method Execute(os: Os)
      requires var answer := os.logicalDriveStrings(DRIVER_LENGTH);
        !Rejected(answer) ==> DivisionDefinedForAll(Roots(answer), os.driveType, os.diskFreeSpace)
      modifies this, os`calls
      ensures match Enumerate(os.logicalDriveStrings(DRIVER_LENGTH), os.driveType, os.diskFreeSpace)
        case Failure(e) => error == Some(e) && vLogicalDrives == old(vLogicalDrives)
        case Success(drives) => error == old(error) && vLogicalDrives == old(vLogicalDrives) + drives
      ensures var answer := os.logicalDriveStrings(DRIVER_LENGTH);
        os.calls == old(os.calls) + [LogicalDriveStringsCall(DRIVER_LENGTH)]
                    + (if Rejected(answer) then [] else WalkCalls(Roots(answer), os.driveType))
    {
      var szBuffer := new char[DRIVER_LENGTH];
      var dwResult := os.GetLogicalDriveStrings(szBuffer);
      if dwResult == 0 || dwResult > DRIVER_LENGTH {
        error := Some(RETRIEVE_ERROR);
        return;
      }
      WalkRoots(os, szBuffer);
    }

    /**
     * `while (*lpRootPathName) { ...; lpRootPathName += strlen(lpRootPathName) + 1; }`:
     * one record per name of the buffer, in order.
     */
    method WalkRoots(os: Os, szBuffer: array<char>)
      requires DivisionDefinedForAll(MultiString.Entries(szBuffer[..]), os.driveType, os.diskFreeSpace)
      modifies this`vLogicalDrives, os`calls
      ensures vLogicalDrives
           == old(vLogicalDrives) + Drives(MultiString.Entries(szBuffer[..]), os.driveType, os.diskFreeSpace)
      ensures os.calls == old(os.calls) + WalkCalls(MultiString.Entries(szBuffer[..]), os.driveType)
    {
      var s := szBuffer[..];
      ghost var drives0, calls0 := vLogicalDrives, os.calls;
      ghost var roots := MultiString.Entries(s);
      ghost var done: seq<string> := [];
      var lpRootPathName: nat := 0;
      while lpRootPathName < |s| && s[lpRootPathName] != MultiString.NUL
        invariant Walking(os, s, lpRootPathName, done, roots, drives0, calls0)
        decreases |s| + 1 - lpRootPathName
      {
        lpRootPathName, done := VisitRoot(os, s, lpRootPathName, done, roots, drives0, calls0);
      }
      assert done == roots;
    }

    /**
     * The state of the walk with `lpRootPathName` at offset `p` of buffer `s`:
     * the roots before it are `done`, and the records and calls so far are theirs.
     */
    ghost predicate Walking(os: Os, s: seq<char>, p: nat, done: seq<string>, roots: seq<string>,
                            drives0: seq<LogicalDrive>, calls0: seq<Call>)
      reads this, os
    {
      && p <= |s| + 1
      && roots == done + MultiString.EntriesFrom(s, p)
      && DivisionDefinedForAll(roots, os.driveType, os.diskFreeSpace)
      && DivisionDefinedForAll(done, os.driveType, os.diskFreeSpace)
      && vLogicalDrives == drives0 + Drives(done, os.driveType, os.diskFreeSpace)
      && os.calls == calls0 + WalkCalls(done, os.driveType)
    }

    /** One turn of the walk: record the root at `p` and step past its NUL. */
    method VisitRoot(os: Os, s: seq<char>, p: nat, ghost done: seq<string>, ghost roots: seq<string>,
                     ghost drives0: seq<LogicalDrive>, ghost calls0: seq<Call>)
      returns (next: nat, ghost done': seq<string>)
      requires p < |s| && s[p] != MultiString.NUL
      requires Walking(os, s, p, done, roots, drives0, calls0)
      modifies this`vLogicalDrives, os`calls
      ensures Walking(os, s, next, done', roots, drives0, calls0)
      ensures p < next
    {
      var n := MultiString.StrLen(s, p);
      var root := s[p .. p + n];
      WalkAdvance(s, p, n, root, done, roots, os.driveType, os.diskFreeSpace, drives0, calls0);
      PushDrive(os, root);
      done' := done + [root];
      next := p + n + 1;
    }
  }

  /** The drive types of a two-volume host: `C:\` is FIXED, anything else a CD-ROM. */
  function ExampleType(root: string): Dword {
    if root == "C:\\" then DRIVE_FIXED else DRIVE_CDROM
  }

  /** Its free-space answers: `C:\` has 400 of 1000 clusters free; `D:\` answers nothing. */
  function ExampleSpace(root: string): FreeSpace {
    if root == "C:\\" then FreeSpace(true, 8, 512, 400, 1000) else FreeSpace(false, 0, 0, 0, 0)
  }

  /**
   * A two-volume host: `C:\` is FIXED with 512 bytes per sector and 400 free
   * of 1000 clusters, `D:\` is a CD-ROM. An exact percentage would be 40 free,
   * but the DWORD division truncates, so C: reports 0 percent free and 100 used.
   */
  lemma TwoVolumeExample()
    ensures Enumerate(BufferAnswer(8, MultiString.Encode(["C:\\", "D:\\"])), ExampleType, ExampleSpace)
         == Success([
              LogicalDrive("C:\\", "FIXED", Some(Capacity(512, 400, 1000, 100, 0))),
              LogicalDrive("D:\\", "CDROM", None)])
  {
    var c, d := "C:\\", "D:\\";
    var e := MultiString.Encode([c, d]);
    assert MultiString.AllNames([c, d]);
    assert [c, d][1..] == [d] && [d][1..] == [];
    assert MultiString.Encode([d]) == d + [MultiString.NUL] + [MultiString.NUL];
    assert e == c + [MultiString.NUL] + MultiString.Encode([d]);
    assert |e| == 9;
    var buf := Fit(e, DRIVER_LENGTH);
    FitKeepsContents(e, DRIVER_LENGTH);
    assert buf == e + buf[|e|..];
    MultiString.EntriesOfEncode([c, d], buf[|e|..]);
    assert Roots(BufferAnswer(8, e)) == [c, d];
    assert [c, d][..1] == [c] && [c][..0] == [];
    assert FreePercent(400, 1000) == 0;
    assert c != d by { assert c[0] != d[0]; }
    assert ExampleType(d) == DRIVE_CDROM;
    assert DriveRecord(c, ExampleType(c), ExampleSpace(c)) == LogicalDrive(c, "FIXED", Some(Capacity(512, 400, 1000, 100, 0)));
    assert DriveRecord(d, ExampleType(d), ExampleSpace(d)) == LogicalDrive(d, "CDROM", None);
    assert DivisionDefinedForAll([c, d], ExampleType, ExampleSpace);
    assert Drives([c], ExampleType, ExampleSpace) == [DriveRecord(c, ExampleType(c), ExampleSpace(c))];
    assert Drives([c, d], ExampleType, ExampleSpace)
        == Drives([c], ExampleType, ExampleSpace) + [DriveRecord(d, ExampleType(d), ExampleSpace(d))];
    assert Drives([c, d], ExampleType, ExampleSpace)
        == [LogicalDrive(c, "FIXED", Some(Capacity(512, 400, 1000, 100, 0))), LogicalDrive(d, "CDROM", None)];
    assert !Rejected(BufferAnswer(8, e));
    assert Enumerate(BufferAnswer(8, e), ExampleType, ExampleSpace) == Success(Drives([c, d], ExampleType, ExampleSpace));
  }
}
