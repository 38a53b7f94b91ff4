/** Octets, C strings and lists of byte blocks, shared by the framing and routing modules. */
module Bytes {

  type byte = x: int | 0 <= x < 256

  datatype Option<+T> = None | Some(value: T)

  /** What a reader of a `char*` sees in this storage: everything before the first NUL. */
  function CString(storage: seq<byte>): (s: seq<byte>)
    ensures |s| <= |storage| && s == storage[..|s|] && 0 !in s
    ensures |s| < |storage| ==> storage[|s|] == 0
  {
    if storage == [] || storage[0] == 0 then [] else [storage[0]] + CString(storage[1..])
  }

  /** A NUL ends it, whatever follows. */
  lemma {:induction false} CStringOfTerminated(text: seq<byte>, rest: seq<byte>)
    ensures CString(text + [0] + rest) == CString(text)
    decreases |text|
  {
    if text != [] && text[0] != 0 {
      assert (text + [0] + rest)[1..] == text[1..] + [0] + rest;
      CStringOfTerminated(text[1..], rest);
    }
  }

  lemma {:induction false} CStringOfPlain(text: seq<byte>)
    requires 0 !in text
    ensures CString(text) == text
    decreases |text|
  {
    if text != [] {
      assert text[0] in text;
      CStringOfPlain(text[1..]);
    }
  }

  /** The storage after `chunk` has been copied to position `at`. */
  function Overwrite<T>(storage: seq<T>, at: nat, chunk: seq<T>): (r: seq<T>)
    requires at + |chunk| <= |storage|
    ensures |r| == |storage|
  {
    storage[..at] + chunk + storage[at + |chunk|..]
  }

  lemma SliceOfSlice<T>(s: seq<T>, from: nat, to: nat, a: nat, b: nat)
    requires a <= b && from + b <= to <= |s|
    ensures s[from..to][a..b] == s[from + a..from + b]
  {
    var slice := s[from..to];
    assert |slice[a..b]| == |s[from + a..from + b]|;
    assert forall i :: 0 <= i < b - a ==> slice[a..b][i] == slice[a + i] == s[from + a + i] == s[from + a..from + b][i];
  }

  lemma SplitSlice<T>(input: seq<T>, from: nat, to: nat, front: seq<T>, last: seq<T>)
    requires from <= to <= |input| && input[from..to] == front + last
    ensures from + |front| <= to && input[from..from + |front|] == front && input[from + |front|..to] == last
  {
    var slice := input[from..to];
    assert input[from..from + |front|] == slice[..|front|];
    assert input[from + |front|..to] == slice[|front|..];
  }

  /** Nothing has changed before `from` and from `to` on. */
  ghost predicate Outside<T>(now: seq<T>, was: seq<T>, from: nat, to: nat) {
    |now| == |was| && from <= to <= |was| && now[..from] == was[..from] && now[to..] == was[to..]
  }

  /** Just this has been written over what the buffer was. */
  ghost predicate Wrote<T>(now: seq<T>, was: seq<T>, at: nat, chunk: seq<T>) {
    Outside(now, was, at, at + |chunk|) && now[at..at + |chunk|] == chunk
  }

  /** Nothing has changed but between `from` and `to`, if they are in order. */
  ghost predicate Spared<T>(now: seq<T>, was: seq<T>, from: nat, to: nat) {
    if from <= to then Outside(now, was, from, to) else now == was
  }

  lemma OutsideBoth<T>(now: seq<T>, mid: seq<T>, was: seq<T>, a: nat, b: nat, c: nat, d: nat)
    requires Outside(mid, was, a, b) && Outside(now, mid, c, d) && a <= c && b <= d
    ensures Outside(now, was, a, d)
  {
    assert now[..a] == now[..c][..a] == mid[..c][..a] == mid[..a];
    assert mid[d..] == mid[b..][d - b..] == was[b..][d - b..] == was[d..];
  }

  lemma WroteBoth<T>(now: seq<T>, mid: seq<T>, was: seq<T>, at: nat, first: seq<T>, second: seq<T>)
    requires Wrote(mid, was, at, first) && Wrote(now, mid, at + |first|, second)
    ensures Wrote(now, was, at, first + second)
  {
    var a, b := at + |first|, at + |first + second|;
    OutsideBoth(now, mid, was, at, a, a, b);
    SliceOfSlice(now, 0, a, at, a);
    SliceOfSlice(mid, 0, a, at, a);
    assert now[at..b] == now[at..a] + now[a..b];
  }

  function Flatten(blocks: seq<seq<byte>>): seq<byte> {
    if blocks == [] then [] else blocks[0] + Flatten(blocks[1..])
  }

  lemma {:induction false} FlattenAppend(blocks: seq<seq<byte>>, last: seq<byte>)
    ensures Flatten(blocks + [last]) == Flatten(blocks) + last
  {
    if blocks == [] {
      assert Flatten([last]) == last + Flatten([]) == last;
      assert blocks + [last] == [last];
    } else {
      assert (blocks + [last])[1..] == blocks[1..] + [last];
      FlattenAppend(blocks[1..], last);
    }
  }
}
