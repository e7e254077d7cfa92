/**
 * The Windows "multi-string" buffer format: NUL-terminated names laid end to
 * end and closed by an empty name, as filled in by GetLogicalDriveStrings and
 * by QueryDosDevice. Characters are narrow (`char`), as the walks in
 * windrive.cpp assume when they call `strlen` on the buffer.
 */
module MultiString {

  const NUL: char := '\0'

  /** A name as it can appear in a multi-string: non-empty and free of NUL. */
  predicate IsName(name: string) {
    |name| > 0 && NUL !in name
  }

  predicate AllNames(names: seq<string>) {
    forall i | 0 <= i < |names| :: IsName(names[i])
  }

  /**
   * `strlen` of the string that starts at `pos`: the distance to the first NUL
   * at or after `pos`. The end of the buffer stops the count too, where C would
   * read past the buffer. Characters are narrow here: in a UNICODE build the
   * source's `strlen` on a `TCHAR` buffer (windrive.cpp:131) would stop after
   * the first character of each name.
   */
  function StrLen(s: seq<char>, pos: nat): (n: nat)
    requires pos <= |s|
    ensures pos + n <= |s|
    decreases |s| - pos
  {
    if pos == |s| || s[pos] == NUL then 0 else 1 + StrLen(s, pos + 1)
  }

  /** `strlen` stops exactly at the first NUL (or at the buffer end when there is none). */
  lemma {:induction false} StrLenStopsAtFirstNul(s: seq<char>, pos: nat)
    requires pos <= |s|
    ensures forall k | pos <= k < pos + StrLen(s, pos) :: s[k] != NUL
    ensures pos + StrLen(s, pos) == |s| || s[pos + StrLen(s, pos)] == NUL
    decreases |s| - pos
  {
    if pos < |s| && s[pos] != NUL {
      StrLenStopsAtFirstNul(s, pos + 1);
    }
  }

  /**
   * The names the walk `while (*p) { ...; p += strlen(p) + 1; }` visits when it
   * starts at `pos`: it stops at the first empty name or at the buffer end.
   */
  function EntriesFrom(s: seq<char>, pos: nat): seq<string>
    decreases |s| - pos
  {
    if pos >= |s| || s[pos] == NUL then []
    else
      var n := StrLen(s, pos);
      [s[pos .. pos + n]] + EntriesFrom(s, pos + n + 1)
  }

  /** Every entry the walk yields is a name: non-empty and without NUL. */
  lemma {:induction false} EntriesFromAreNames(s: seq<char>, pos: nat)
    ensures AllNames(EntriesFrom(s, pos))
    decreases |s| - pos
  {
    if pos < |s| && s[pos] != NUL {
      var n := StrLen(s, pos);
      StrLenStopsAtFirstNul(s, pos);
      NulFreeSlice(s, pos, pos + n);
      EntriesFromAreNames(s, pos + n + 1);
      AllNamesCons(s[pos .. pos + n], EntriesFrom(s, pos + n + 1));
    }
  }

  lemma NulFreeSlice(s: seq<char>, a: nat, b: nat)
    requires a <= b <= |s|
    requires forall k | a <= k < b :: s[k] != NUL
    ensures NUL !in s[a..b]
  {
    forall j | 0 <= j < b - a ensures s[a..b][j] != NUL {
      assert s[a..b][j] == s[a + j];
    }
  }

  lemma AllNamesCons(name: string, rest: seq<string>)
    requires IsName(name) && AllNames(rest)
    ensures AllNames([name] + rest)
  {
    forall i | 0 <= i < 1 + |rest| ensures IsName(([name] + rest)[i]) {
      if i > 0 { assert ([name] + rest)[i] == rest[i - 1]; }
    }
  }

  /** The names of a whole multi-string buffer, in buffer order. */
  function Entries(s: seq<char>): seq<string> {
    EntriesFrom(s, 0)
  }

  /** The multi-string that lists `names` in order: each name and its NUL, then the closing NUL. */
  function Encode(names: seq<string>): (s: seq<char>)
    ensures |s| > 0 && s[|s| - 1] == NUL
  {
    if names == [] then [NUL] else names[0] + [NUL] + Encode(names[1..])
  }

  /** `strlen` finds the end of a name that is followed by its NUL. */
  lemma {:induction false} StrLenOfName(s: seq<char>, pos: nat, name: string)
    requires NUL !in name
    requires pos <= |s| && name + [NUL] <= s[pos..]
    ensures StrLen(s, pos) == |name|
    decreases |name|
  {
    assert s[pos..][0] == (name + [NUL])[0];
    if |name| > 0 {
      assert name[1..] + [NUL] <= s[pos + 1..] by {
        assert s[pos + 1..] == s[pos..][1..];
        assert (name + [NUL])[1..] == name[1..] + [NUL];
      }
      StrLenOfName(s, pos + 1, name[1..]);
    }
  }

  lemma AllNamesTail(names: seq<string>)
    requires names != [] && AllNames(names)
    ensures IsName(names[0]) && AllNames(names[1..])
  {
    forall i | 0 <= i < |names| - 1 ensures IsName(names[1..][i]) {
      assert names[1..][i] == names[i + 1];
    }
  }

  /** The walk at a non-empty entry takes that entry and goes on after its NUL. */
  lemma EntriesFromUnfold(s: seq<char>, pos: nat)
    requires pos < |s| && s[pos] != NUL
    ensures EntriesFrom(s, pos) == [s[pos .. pos + StrLen(s, pos)]] + EntriesFrom(s, pos + StrLen(s, pos) + 1)
  {
  }

  /** The walk at a non-empty name takes that name and goes on after its NUL. */
  lemma EntriesFromStep(s: seq<char>, pos: nat, name: string)
    requires pos < |s| && s[pos] != NUL
    requires StrLen(s, pos) == |name| && s[pos .. pos + |name|] == name
    ensures EntriesFrom(s, pos) == [name] + EntriesFrom(s, pos + |name| + 1)
  {
  }

  /** One step of the walk over `name`, its NUL and then `rest`. */
  lemma StepOverName(s: seq<char>, pos: nat, name: string, rest: seq<char>)
    requires IsName(name)
    requires pos <= |s| && name + [NUL] + rest <= s[pos..]
    ensures pos < |s| && s[pos] != NUL
    ensures StrLen(s, pos) == |name| && s[pos .. pos + |name|] == name
    ensures pos + |name| + 1 <= |s| && rest <= s[pos + |name| + 1..]
  {
    var w := name + [NUL] + rest;
    assert s[pos..][0] == w[0] == name[0];
    assert name + [NUL] <= s[pos..];
    StrLenOfName(s, pos, name);
    assert s[pos .. pos + |name|] == s[pos..][..|name|] == w[..|name|] == name;
    assert s[pos + |name| + 1..] == s[pos..][|name| + 1..];
    assert w[|name| + 1..] == rest;
  }

  /**
   * Walking the encoding of `names`, wherever it sits in a buffer and whatever
   * follows it, yields exactly `names`, in order.
   */
  lemma {:induction false} EntriesFromEncode(s: seq<char>, pos: nat, names: seq<string>)
    requires AllNames(names)
    requires pos <= |s| && Encode(names) <= s[pos..]
    ensures EntriesFrom(s, pos) == names
    decreases names, 1
  {
    if names == [] {
      assert s[pos..][0] == Encode(names)[0];
    } else {
      AllNamesTail(names);
      assert Encode(names) == names[0] + [NUL] + Encode(names[1..]);
      StepOverName(s, pos, names[0], Encode(names[1..]));
      EntriesFromEncodeStep(s, pos, names);
    }
  }

  /** The inductive step of EntriesFromEncode, once the first name has been stepped over. */
  lemma {:induction false} EntriesFromEncodeStep(s: seq<char>, pos: nat, names: seq<string>)
    requires names != [] && AllNames(names[1..])
    requires pos < |s| && s[pos] != NUL && StrLen(s, pos) == |names[0]|
    requires s[pos .. pos + |names[0]|] == names[0]
    requires pos + |names[0]| + 1 <= |s| && Encode(names[1..]) <= s[pos + |names[0]| + 1..]
    ensures EntriesFrom(s, pos) == names
    decreases names, 0
  {
    var tail, next := names[1..], pos + |names[0]| + 1;
    EntriesFromEncode(s, next, tail);
    EntriesFromStep(s, pos, names[0]);
    assert names == [names[0]] + tail;
  }

  /** Round trip: the entries of an encoded list of names, with any bytes after it, are the names. */
  lemma EntriesOfEncode(names: seq<string>, tail: seq<char>)
    requires AllNames(names)
    ensures Entries(Encode(names) + tail) == names
  {
    var s := Encode(names) + tail;
    assert s[0..] == s;
    EntriesFromEncode(s, 0, names);
  }

  /**
   * A buffer holds at most about half its length in names: every name takes at
   * least one character and its NUL (the last one may lack its NUL).
   */
  lemma {:induction false} EntriesFromBound(s: seq<char>, pos: nat)
    requires pos <= |s|
    ensures 2 * |EntriesFrom(s, pos)| <= |s| - pos + 1
    decreases |s| - pos
  {
    if pos < |s| && s[pos] != NUL {
      var n := StrLen(s, pos);
      if pos + n + 1 <= |s| {
        EntriesFromBound(s, pos + n + 1);
      } else {
        assert EntriesFrom(s, pos + n + 1) == [];
      }
    }
  }
}
