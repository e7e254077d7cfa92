/**
 * windrive.cpp, DosDevicesWorker: list every MS-DOS device name with
 * QueryDosDeviceA(NULL, ...), resolve each name in turn, and hand the
 * name/target pairs to script code as one object, set in list order.
 *
 * The source keeps `char*` pointers into two stack buffers, and every pair's
 * target points at the same buffer `logical`; the model keeps each pair's
 * strings as values, taken at the moment the pair is pushed.
 */
module DosDevices {
  import opened Wrappers
  import opened Host
  import MultiString
  import Js

  /** The size, in characters, of both the `physical` and the `logical` buffer. */
  const DOS_BUFFER_LENGTH: nat := 65536

  /** The C string a buffer starts with: its characters up to the first NUL. */
  function CString(s: seq<char>): (c: string)
    ensures c <= s && MultiString.NUL !in c
    ensures |c| == |s| || s[|c|] == MultiString.NUL
  {
    var n := MultiString.StrLen(s, 0);
    MultiString.StrLenStopsAtFirstNul(s, 0);
    MultiString.NulFreeSlice(s, 0, n);
    s[..n]
  }

  /** The device names in `physical` after the listing call. */
  function DeviceNames(listing: BufferAnswer): seq<string> {
    MultiString.Entries(Fit(listing.contents, DOS_BUFFER_LENGTH))
  }

  /** What `logical` holds, read as a C string, after the call that resolves a device. */
  function Target(answer: BufferAnswer): (t: string)
    ensures |t| <= DOS_BUFFER_LENGTH && MultiString.NUL !in t
  {
    CString(Fit(answer.contents, DOS_BUFFER_LENGTH))
  }

  /** The pairs pushed for `names`: each name with its target, in order. */
  function DevicePairs(names: seq<string>, dosDevice: Option<string> -> BufferAnswer): (pairs: seq<(string, string)>)
    ensures |pairs| == |names|
    ensures forall i | 0 <= i < |names| :: pairs[i] == (names[i], Target(dosDevice(Some(names[i]))))
    decreases |names|
  {
    if names == [] then []
    else
      var last := names[|names| - 1];
      DevicePairs(names[..|names| - 1], dosDevice) + [(last, Target(dosDevice(Some(last))))]
  }

  /** The resolving calls for `names`, one per name, in order. */
  function ResolveCalls(names: seq<string>): (cs: seq<Call>)
    ensures |cs| == |names|
    ensures forall i | 0 <= i < |names| :: cs[i] == DosDeviceCall(Some(names[i]), DOS_BUFFER_LENGTH)
    decreases |names|
  {
    if names == [] then []
    else ResolveCalls(names[..|names| - 1]) + [DosDeviceCall(Some(names[|names| - 1]), DOS_BUFFER_LENGTH)]
  }

  /** One step of the walk: the name at `p` joins the names done, and the walk resumes after its NUL. */
  lemma WalkStep(s: seq<char>, p: nat, n: nat, name: string, done: seq<string>, names: seq<string>,
                 dosDevice: Option<string> -> BufferAnswer, pairs0: seq<(string, string)>, calls0: seq<Call>)
    requires p < |s| && s[p] != MultiString.NUL
    requires n == MultiString.StrLen(s, p) && name == s[p .. p + n]
    requires names == done + MultiString.EntriesFrom(s, p)
    ensures names == (done + [name]) + MultiString.EntriesFrom(s, p + n + 1)
    ensures pairs0 + DevicePairs(done + [name], dosDevice)
         == (pairs0 + DevicePairs(done, dosDevice)) + [(name, Target(dosDevice(Some(name))))]
    ensures calls0 + ResolveCalls(done + [name])
         == (calls0 + ResolveCalls(done)) + [DosDeviceCall(Some(name), DOS_BUFFER_LENGTH)]
  {
    MultiString.EntriesFromUnfold(s, p);
    assert (done + [name])[..|done|] == done;
  }

  /**
   * The object OnOK builds from `pairs`: `ret.Set(name, target)` for each pair
   * in order. It is well formed, and its property names are the names of the pairs.
   */
  function ObjectOf(pairs: seq<(string, string)>): (o: Js.JsObject)
    ensures Js.WellFormed(o)
    decreases |pairs|
  {
    if pairs == [] then Js.EMPTY_OBJECT
    else
      var init, last := pairs[..|pairs| - 1], pairs[|pairs| - 1];
      var o := ObjectOf(init);
      Js.SetWellFormed(o, last.0, Js.Str(last.1));
      Js.Set(o, last.0, Js.Str(last.1))
  }

  /** The object has one property per distinct name among the pairs, and no other. */
  lemma {:induction false} ObjectKeys(pairs: seq<(string, string)>)
    ensures forall k :: k in ObjectOf(pairs).values <==> exists i | 0 <= i < |pairs| :: pairs[i].0 == k
    decreases |pairs|
  {
    if pairs != [] {
      var init, last := pairs[..|pairs| - 1], pairs[|pairs| - 1];
      ObjectKeys(init);
      assert ObjectOf(pairs).values == ObjectOf(init).values[last.0 := Js.Str(last.1)];
      forall k ensures k in ObjectOf(pairs).values <==> exists i | 0 <= i < |pairs| :: pairs[i].0 == k {
        if k in ObjectOf(init).values {
          var i :| 0 <= i < |init| && init[i].0 == k;
          assert pairs[i] == init[i];
        }
        if exists i | 0 <= i < |pairs| :: pairs[i].0 == k {
          var i :| 0 <= i < |pairs| && pairs[i].0 == k;
          if i < |init| { assert init[i] == pairs[i]; }
        }
      }
    }
  }

  /** The device names of `pairs`, in order. */
  function Names(pairs: seq<(string, string)>): (names: seq<string>)
    ensures |names| == |pairs| && forall i | 0 <= i < |pairs| :: names[i] == pairs[i].0
  {
    seq(|pairs|, i requires 0 <= i < |pairs| => pairs[i].0)
  }

  /**
   * `names` with every repeat dropped: each name once, at the place of its
   * first occurrence.
   */
  function FirstOccurrences(names: seq<string>): (r: seq<string>)
    ensures forall k :: k in r <==> k in names
    ensures forall i, j | 0 <= i < j < |r| :: r[i] != r[j]
    decreases |names|
  {
    if names == [] then []
    else
      var init, last := names[..|names| - 1], names[|names| - 1];
      assert names == init + [last];
      var r := FirstOccurrences(init);
      if last in r then r else r + [last]
  }

  /**
   * The key order of the object: each device name once, where it first
   * appears among the pairs, since setting an existing name keeps its place.
   */
  lemma {:induction false} ObjectKeyOrder(pairs: seq<(string, string)>)
    ensures ObjectOf(pairs).keys == FirstOccurrences(Names(pairs))
    decreases |pairs|
  {
    if pairs != [] {
      var init, last := pairs[..|pairs| - 1], pairs[|pairs| - 1];
      ObjectKeyOrder(init);
      assert Names(pairs)[..|pairs| - 1] == Names(init);
      var o := ObjectOf(init);
      assert last.0 in o.values <==> last.0 in o.keys;
    }
  }

  /** A later pair with the same name overwrites an earlier one: each name maps to its last target. */
  lemma {:induction false} LastWriteWins(pairs: seq<(string, string)>, i: nat)
    requires i < |pairs|
    requires forall j | i < j < |pairs| :: pairs[j].0 != pairs[i].0
    ensures pairs[i].0 in ObjectOf(pairs).values && ObjectOf(pairs).values[pairs[i].0] == Js.Str(pairs[i].1)
    decreases |pairs|
  {
    var init, last := pairs[..|pairs| - 1], pairs[|pairs| - 1];
    var o := ObjectOf(init);
    assert ObjectOf(pairs).values == o.values[last.0 := Js.Str(last.1)];
    if i < |init| {
      assert init[i] == pairs[i] && last.0 != pairs[i].0;
      forall j | i < j < |init| ensures init[j].0 != init[i].0 {
        assert init[j] == pairs[j];
      }
      LastWriteWins(init, i);
    }
  }

  /**
   * The worker of getDosDevices. `vDosDevices` is the member vector Execute
   * pushes the name/target pairs into.
   */
  class DosDevicesWorker {
    var vDosDevices: seq<(string, string)>

    constructor()
      ensures vDosDevices == []
    {
      vDosDevices := [];
    }

    /**
     * Execute: one listing call, then one resolving call and one pair per
     * listed name, in order. The counts the calls return are ignored.
     */
    method Execute(os: Os)
      modifies this`vDosDevices, os`calls
      ensures var names := DeviceNames(os.dosDevice(None));
        && vDosDevices == old(vDosDevices) + DevicePairs(names, os.dosDevice)
        && os.calls == old(os.calls) + [DosDeviceCall(None, DOS_BUFFER_LENGTH)] + ResolveCalls(names)
    {
      var logical := new char[DOS_BUFFER_LENGTH];
      var physical := new char[DOS_BUFFER_LENGTH];
      var _ := os.QueryDosDevice(None, physical);
      var s := physical[..];
      ghost var names := MultiString.Entries(s);
      ghost var pairs0, calls0 := vDosDevices, os.calls;
      ghost var done: seq<string> := [];
      var pos: nat := 0;
      while pos < |s| && s[pos] != MultiString.NUL
        invariant pos <= |s| + 1
        invariant names == done + MultiString.EntriesFrom(s, pos)
        invariant vDosDevices == pairs0 + DevicePairs(done, os.dosDevice)
        invariant os.calls == calls0 + ResolveCalls(done)
        decreases |s| + 1 - pos
      {
        var n := MultiString.StrLen(s, pos);
        var name := s[pos .. pos + n];
        WalkStep(s, pos, n, name, done, names, os.dosDevice, pairs0, calls0);
        var _ := os.QueryDosDevice(Some(name), logical);
        vDosDevices := vDosDevices + [(name, CString(logical[..]))];
        done := done + [name];
        pos := pos + n + 1;
      }
      assert done == names;
    }

    /** OnOK: `ret.Set(device.first, device.second)` for each pair, in order. */
    method OnOK() returns (ret: Js.JsObject)
      ensures ret == ObjectOf(vDosDevices)
    {
      ret := Js.EMPTY_OBJECT;
      for i := 0 to |vDosDevices|
        invariant ret == ObjectOf(vDosDevices[..i])
      {
        var device := vDosDevices[i];
        assert vDosDevices[..i + 1][..i] == vDosDevices[..i];
        ret := Js.Set(ret, device.0, Js.Str(device.1));
      }
      assert vDosDevices[..|vDosDevices|] == vDosDevices;
    }
  }
}
