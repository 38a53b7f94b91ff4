/** Records of one size, packed one behind the other. */
module Records {
  import opened Bytes

  function Total(count: nat, size: nat): nat {
    if count == 0 then 0 else Total(count - 1, size) + size
  }

  /** The first n items. */
  function Pack<T>(pack: T -> seq<byte>, items: seq<T>, n: nat): seq<byte>
    requires n <= |items|
  {
    if n == 0 then [] else Pack(pack, items, n - 1) + pack(items[n - 1])
  }

  /** `count` records, the first at position `at`. */
  function Read<T>(read: nat -> T, size: nat, at: nat, count: nat): (items: seq<T>)
    ensures |items| == count
  {
    if count == 0 then [] else Read(read, size, at, count - 1) + [read(at + Total(count - 1, size))]
  }

  ghost predicate Sized<T>(pack: T -> seq<byte>, size: nat, items: seq<T>) {
    forall i :: 0 <= i < |items| ==> |pack(items[i])| == size
  }

  lemma {:induction false} PackLength<T>(pack: T -> seq<byte>, size: nat, items: seq<T>, n: nat)
    requires n <= |items| && Sized(pack, size, items)
    ensures |Pack(pack, items, n)| == Total(n, size)
  {
    if n > 0 {
      PackLength(pack, size, items, n - 1);
    }
  }

  /** Every packed record lies where it is looked for. */
  lemma {:induction false} PackedAt<T>(pack: T -> seq<byte>, size: nat, items: seq<T>, n: nat, input: seq<byte>, at: nat,
                                       i: nat)
    requires i < n <= |items| && Sized(pack, size, items) && at + Total(n, size) <= |input|
    requires input[at..at + Total(n, size)] == Pack(pack, items, n)
    ensures at + Total(i, size) + size <= |input|
    ensures input[at + Total(i, size)..at + Total(i, size) + size] == pack(items[i])
  {
    PackLength(pack, size, items, n - 1);
    SplitSlice(input, at, at + Total(n, size), Pack(pack, items, n - 1), pack(items[n - 1]));
    if i < n - 1 {
      PackedAt(pack, size, items, n - 1, input, at, i);
    }
  }

  lemma {:induction false} ReadBack<T>(read: nat -> T, size: nat, items: seq<T>, n: nat, at: nat)
    requires n <= |items| && forall i :: 0 <= i < n ==> read(at + Total(i, size)) == items[i]
    ensures Read(read, size, at, n) == items[..n]
  {
    if n > 0 {
      ReadBack(read, size, items, n - 1, at);
    }
  }

  lemma {:induction false} ReadAt<T>(read: nat -> T, size: nat, at: nat, n: nat, i: nat)
    requires i < n
    ensures Read(read, size, at, n)[i] == read(at + Total(i, size))
  {
    if i < n - 1 {
      ReadAt(read, size, at, n - 1, i);
    }
  }

  lemma {:induction false} TotalMonotonic(a: nat, b: nat, size: nat)
    requires a <= b
    ensures Total(a, size) <= Total(b, size)
    ensures a < b ==> Total(a, size) + size <= Total(b, size)
  {
    if a < b {
      TotalMonotonic(a, b - 1, size);
    }
  }

  /** What the code computes as a product. */
  lemma {:induction false} TotalIsProduct(count: nat, size: nat)
    ensures Total(count, size) == count * size
  {
    if count > 0 {
      TotalIsProduct(count - 1, size);
      assert count * size == (count - 1) * size + size;
    }
  }

  /** Records do not overlap and leave no gap: each position lies in exactly one. */
  lemma {:induction false} RecordOf(count: nat, size: nat, position: nat) returns (i: nat)
    requires position < Total(count, size)
    ensures i < count && Total(i, size) <= position < Total(i, size) + size
    ensures forall j :: 0 <= j < count && Total(j, size) <= position < Total(j, size) + size ==> j == i
  {
    if Total(count - 1, size) <= position {
      i := count - 1;
    } else {
      i := RecordOf(count - 1, size, position);
    }
    forall j | 0 <= j < count && Total(j, size) <= position < Total(j, size) + size ensures j == i {
      if i < j {
        TotalMonotonic(i, j, size);
      } else if j < i {
        TotalMonotonic(j, i, size);
      }
    }
  }
}
