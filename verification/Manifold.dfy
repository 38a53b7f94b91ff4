/** dtmanifold.c as it is written: linear scans, slots filled and cleared in place, the semaphore around them. */
module Manifold {
  import opened Bytes
  import opened Slots
  import opened ManifoldSpec

  /** A counting semaphore. A wait takes a token, or fails: by timing out, or because `granted` says it does. */
  class Semaphore {
    var count: nat

    constructor (initial: nat)
      ensures count == initial
    {
      count := initial;
    }

    method Wait(granted: bool) returns (acquired: bool)
      modifies this
      ensures acquired <==> granted && old(count) > 0
      ensures count == if acquired then old(count) - 1 else old(count)
    {
      acquired := granted && count > 0;
      if acquired {
        count := count - 1;
      }
    }

    method Post()
      modifies this
      ensures count == old(count) + 1
    {
      count := count + 1;
    }
  }

  class Manifold {
    const subjects: array<Subject>
    var semaphore: Semaphore?

    ghost predicate Valid()
      reads this, subjects
    {
      && subjects.Length == MAX_SUBJECTS
      && forall i :: 0 <= i < subjects.Length ==> |subjects[i].recipients| == MAX_RECIPIENTS
    }

    /** The semaphore is attached and the wait for it fails. */
    ghost predicate Blocked(granted: bool)
      reads this, semaphore
    {
      semaphore != null && !(granted && semaphore.count > 0)
    }

    constructor ()
      ensures Valid() && fresh(subjects) && semaphore == null
      ensures subjects[..] == ZeroTable()
    {
      subjects := new Subject[MAX_SUBJECTS](i => Subject(UNNAMED, NoRecipients()));
      semaphore := null;
    }

    method SetThreadsafeSemaphore(s: Semaphore?)
      modifies `semaphore
      ensures semaphore == s
    {
      semaphore := s;
    }

    method Acquire(granted: bool) returns (ok: bool, acquired: bool)
      modifies semaphore
      ensures ok == !old(Blocked(granted)) && acquired == (ok && semaphore != null)
      ensures semaphore != null ==> semaphore.count == if acquired then old(semaphore.count) - 1 else old(semaphore.count)
    {
      ok, acquired := true, false;
      if semaphore != null {
        acquired := semaphore.Wait(granted);
        ok := acquired;
      }
    }

    method Release(acquired: bool)
      requires acquired ==> semaphore != null
      modifies semaphore
      ensures semaphore != null ==> semaphore.count == if acquired then old(semaphore.count) + 1 else old(semaphore.count)
    {
      if acquired {
        semaphore.Post();
      }
    }

    // ----- Scans -----

    method SearchSubject(name: Name) returns (index: nat)
      requires Valid()
      ensures index == if name == UNNAMED then subjects.Length else IndexOf(Names(subjects[..]), name)
    {
      index := 0;
      ghost var keys := Names(subjects[..]);
      while index < subjects.Length
        invariant index <= subjects.Length
        invariant forall j :: 0 <= j < index ==> keys[j] == UNNAMED || keys[j] != name
      {
        if subjects[index].name != UNNAMED && subjects[index].name == name {
          break;
        }
        index := index + 1;
      }
    }

    static method SearchRecipient(rs: seq<Recipient>, self: Pointer) returns (index: nat)
      ensures index == IndexOf(Selves(rs), self)
    {
      index := 0;
      ghost var keys := Selves(rs);
      while index < |rs|
        invariant index <= |rs|
        invariant forall j :: 0 <= j < index ==> keys[j] != self
      {
        if rs[index].self == self {
          break;
        }
        index := index + 1;
      }
    }

    method FindOrAddSubject(name: Name) returns (index: nat, err: Option<Error>)
      requires Valid()
      modifies subjects
      ensures Valid() && index == SubjectSlot(old(subjects[..]), name)
      ensures IsSlotFor(Names(old(subjects[..])), UNNAMED, name, index)
      ensures subjects[..] == AddSubject(old(subjects[..]), name)
      ensures err == if index < subjects.Length then None else Some(Overflow)
    {
      ghost var keys := Names(subjects[..]);
      var n: nat := subjects.Length;
      var free: nat := n;
      index := n;
      var i: nat := 0;
      while i < n
        invariant i <= n && index == n
        invariant forall j :: 0 <= j < i ==> keys[j] == UNNAMED || keys[j] != name
        invariant free <= n && (free < n ==> free < i && keys[free] == UNNAMED)
        invariant forall j :: 0 <= j < i && j < free ==> keys[j] != UNNAMED
      {
        if subjects[i].name == UNNAMED {
          if free == n {
            free := i;
          }
        } else if subjects[i].name == name {
          index := i;
          break;
        }
        i := i + 1;
      }
      err := None;
      if index == n {
        assert IndexOf(keys, UNNAMED) == free;
        assert name != UNNAMED ==> IndexOf(keys, name) == n;
        if free == n {
          err := Some(Overflow);
        } else {
          subjects[free] := subjects[free].(name := name);
          index := free;
        }
      } else {
        assert IndexOf(keys, name) == index;
      }
    }

    method FindOrAddRecipient(i: nat, self: Pointer) returns (index: nat, err: Option<Error>)
      requires Valid() && i < subjects.Length && self != NULL
      modifies subjects
      ensures Valid()
      ensures var before := old(subjects[..]);
              var rs := before[i].recipients;
              && index == RecipientSlot(rs, self) && IsSlotFor(Selves(rs), NULL, self, index)
              && err == (if index < MAX_RECIPIENTS then None else Some(Overflow))
              && subjects[..] == if index < MAX_RECIPIENTS
                                 then SetRecipient(before, i, index, Recipient(self, rs[index].callback)) else before
    {
      var rs := subjects[i].recipients;
      ghost var keys := Selves(rs);
      var n: nat := |rs|;
      var free: nat := n;
      index := n;
      var j: nat := 0;
      while j < n
        invariant j <= n && index == n
        invariant forall l :: 0 <= l < j ==> keys[l] != self
        invariant free <= n && (free < n ==> free < j && keys[free] == NULL)
        invariant forall l :: 0 <= l < j && l < free ==> keys[l] != NULL
      {
        if rs[j].self == NULL {
          if free == n {
            free := j;
          }
        } else if rs[j].self == self {
          index := j;
          break;
        }
        j := j + 1;
      }
      err := None;
      if index == n {
        assert IndexOf(keys, NULL) == free && IndexOf(keys, self) == n;
        if free == n {
          err := Some(Overflow);
        } else {
          subjects[i] := subjects[i].(recipients := rs[free := rs[free].(self := self)]);
          index := free;
        }
      } else {
        assert IndexOf(keys, self) == index;
        assert rs[index := Recipient(self, rs[index].callback)] == rs;
      }
    }

    static method CountRecipients(rs: seq<Recipient>) returns (n: nat)
      ensures n == CountTaken(Selves(rs), NULL)
    {
      n := 0;
      ghost var keys := Selves(rs);
      for i := 0 to |rs|
        invariant n + CountTaken(keys[i..], NULL) == CountTaken(keys, NULL)
      {
        assert keys[i..][1..] == keys[i + 1..];
        if rs[i].self != NULL {
          n := n + 1;
        }
      }
    }

    // ----- Subscribing -----

    method Subscribe(name: Name, self: Pointer, callback: Pointer, granted: bool) returns (err: Option<Error>)
      requires Valid()
      modifies subjects, semaphore
      ensures Valid() && (semaphore != null ==> semaphore.count == old(semaphore.count))
      ensures Result(subjects[..], err) ==
              Guarded(old(subjects[..]), SubscribeOp(name, self, callback), old(Blocked(granted)))
      ensures err == Some(ArgumentNull) <==> self == NULL || callback == NULL
      ensures err == Some(NameTooLong) <==> self != NULL && callback != NULL && |name| > MAX_NAME_LENGTH
      ensures err == Some(SemaphoreFailed) <==>
              self != NULL && callback != NULL && |name| <= MAX_NAME_LENGTH && old(Blocked(granted))
      ensures err != Some(CallbackFailed) && (err.Some? && err != Some(Overflow) ==> subjects[..] == old(subjects[..]))
    {
      if self == NULL || callback == NULL {
        return Some(ArgumentNull);
      }
      if |name| > MAX_NAME_LENGTH {
        return Some(NameTooLong);
      }
      var ok, acquired := Acquire(granted);
      if !ok {
        return Some(SemaphoreFailed);
      }
      err := SubscribeHeld(name, self, callback);
      Release(acquired);
    }

    /** The guarded part of a subscribe: the subject found or added, and the recipient in it. */
    method SubscribeHeld(name: Name, self: Pointer, callback: Pointer) returns (err: Option<Error>)
      requires Valid() && self != NULL && callback != NULL && |name| <= MAX_NAME_LENGTH
      modifies subjects
      ensures Valid() && (err.None? || err == Some(Overflow))
      ensures Result(subjects[..], err) == Apply(old(subjects[..]), SubscribeOp(name, self, callback))
    {
      var i, j: nat;
      i, err := FindOrAddSubject(name);
      if err.None? {
        ghost var named := subjects[..];
        j, err := FindOrAddRecipient(i, self);
        if err.None? {
          var rs := subjects[i].recipients;
          subjects[i] := subjects[i].(recipients := rs[j := rs[j].(callback := callback)]);
          assert rs[j := rs[j].(callback := callback)] == named[i].recipients[j := Recipient(self, callback)];
          assert subjects[..] == SetRecipient(named, i, j, Recipient(self, callback));
        }
      }
    }

    method Unsubscribe(name: Name, self: Pointer, granted: bool) returns (err: Option<Error>)
      requires Valid()
      modifies subjects, semaphore
      ensures Valid() && (semaphore != null ==> semaphore.count == old(semaphore.count))
      ensures Result(subjects[..], err) ==
              Guarded(old(subjects[..]), UnsubscribeOp(name, self), old(Blocked(granted)))
      ensures err == Some(ArgumentNull) <==> self == NULL
      ensures err == Some(NameTooLong) <==> self != NULL && |name| > MAX_NAME_LENGTH
      ensures err == Some(SemaphoreFailed) <==> self != NULL && |name| <= MAX_NAME_LENGTH && old(Blocked(granted))
      ensures err != Some(CallbackFailed) && err != Some(Overflow) && (err.Some? ==> subjects[..] == old(subjects[..]))
    {
      if self == NULL {
        return Some(ArgumentNull);
      }
      if |name| > MAX_NAME_LENGTH {
        return Some(NameTooLong);
      }
      var ok, acquired := Acquire(granted);
      if !ok {
        return Some(SemaphoreFailed);
      }
      var i := SearchSubject(name);
      if i < subjects.Length {
        var j := SearchRecipient(subjects[i].recipients, self);
        if j < |subjects[i].recipients| {
          subjects[i] := subjects[i].(recipients := subjects[i].recipients[j := EMPTY]);
        }
      }
      err := None;
      Release(acquired);
    }

    // ----- Publishing -----

    static method TakeSnapshot(rs: seq<Recipient>) returns (snaps: seq<Recipient>)
      ensures snaps == Snapshot(rs)
    {
      snaps := [];
      for i := 0 to |rs|
        invariant snaps + Snapshot(rs[i..]) == Snapshot(rs)
      {
        assert rs[i..][0] == rs[i] && rs[i..][1..] == rs[i + 1..];
        if rs[i].self != NULL && rs[i].callback != NULL {
          snaps := snaps + [rs[i]];
        }
      }
    }

    /** The calls a callback makes on the manifold while it runs: the semaphore is free for them. */
    method React(ops: seq<Op>)
      requires Valid() && !Blocked(true)
      modifies subjects, semaphore
      ensures Valid() && (semaphore != null ==> semaphore.count == old(semaphore.count))
      ensures subjects[..] == ApplyAll(old(subjects[..]), ops)
    {
      var k := 0;
      while k < |ops|
        invariant k <= |ops| && Valid() && (semaphore != null ==> semaphore.count == old(semaphore.count))
        invariant ApplyAll(subjects[..], ops[k..]) == ApplyAll(old(subjects[..]), ops)
      {
        ghost var before, rest := subjects[..], ops[k..];
        match ops[k] {
          case SubscribeOp(name, self, callback) =>
            var _ := Subscribe(name, self, callback, true);
          case UnsubscribeOp(name, self) =>
            var _ := Unsubscribe(name, self, true);
          case PublishOp(name) =>
            if |name| <= MAX_NAME_LENGTH {
              var _, _ := FindOrAddSubject(name);
            }
        }
        assert subjects[..] == Apply(before, rest[0]).table && rest[1..] == ops[k + 1..];
        k := k + 1;
      }
    }

    /** `calls` are the callbacks invoked, in order, and `copies` the buffers they were given. */
    method Publish(name: Name, buffer: array<byte>, reactions: Reactions, granted: bool)
      returns (err: Option<Error>, calls: seq<Recipient>, copies: seq<array<byte>>)
      requires Valid()
      modifies subjects, semaphore
      ensures Valid() && (semaphore != null ==> semaphore.count == old(semaphore.count))
      ensures var touched := Guarded(old(subjects[..]), PublishOp(name), old(Blocked(granted)));
              if touched.err.Some? then err == touched.err && calls == [] && subjects[..] == touched.table
              else
                var snapshot := Snapshot(RowOf(old(subjects[..]), name));
                var count := CallCount(reactions.ok, |snapshot|);
                && calls == snapshot[..count]
                && (err.Some? <==> count > 0 && !reactions.ok(count - 1))
                && (err.Some? ==> err == Some(CallbackFailed))
                && subjects[..] == AfterReactions(touched.table, reactions.ops, count)
      ensures err.None? || err == Some(CallbackFailed) ==>
                CalledInOrder(RowOf(old(subjects[..]), name), calls, calls == Snapshot(RowOf(old(subjects[..]), name)))
      ensures err.None? ==> calls == Snapshot(RowOf(old(subjects[..]), name))
      ensures err != Some(ArgumentNull) && (err == Some(NameTooLong) <==> |name| > MAX_NAME_LENGTH)
      ensures err == Some(SemaphoreFailed) <==> |name| <= MAX_NAME_LENGTH && old(Blocked(granted))
      ensures err.Some? && err != Some(CallbackFailed) ==> subjects[..] == old(subjects[..]) && calls == []
      ensures |copies| == |calls|
      ensures forall k :: 0 <= k < |copies| ==> fresh(copies[k]) && copies[k][..] == old(buffer[..])
      ensures forall k, l :: 0 <= k < l < |copies| ==> copies[k] != copies[l]
    {
      calls, copies := [], [];
      if |name| > MAX_NAME_LENGTH {
        return Some(NameTooLong), calls, copies;
      }
      var snaps: seq<Recipient>;
      err, snaps := SnapshotFor(name, granted);
      if err.None? {
        SnapshotPrefix(RowOf(old(subjects[..]), name), CallCount(reactions.ok, |snaps|));
        calls, copies, err := Deliver(snaps, buffer, reactions);
      }
    }

    /** The guarded part of a publish: the subject found or added, and its recipients of that moment. */
    method SnapshotFor(name: Name, granted: bool) returns (err: Option<Error>, snaps: seq<Recipient>)
      requires Valid() && |name| <= MAX_NAME_LENGTH
      modifies subjects, semaphore
      ensures Valid() && (semaphore != null ==> semaphore.count == old(semaphore.count))
      ensures var touched := Guarded(old(subjects[..]), PublishOp(name), old(Blocked(granted)));
              err == touched.err && subjects[..] == touched.table
      ensures err.None? ==> !Blocked(true) && snaps == Snapshot(RowOf(old(subjects[..]), name))
    {
      snaps := [];
      var ok, acquired := Acquire(granted);
      if !ok {
        return Some(SemaphoreFailed), snaps;
      }
      var i: nat;
      i, err := FindOrAddSubject(name);
      if err.None? {
        snaps := TakeSnapshot(subjects[i].recipients);
      }
      Release(acquired);
    }

    static method CopyOf(buffer: array<byte>) returns (copy: array<byte>)
      ensures fresh(copy) && copy[..] == buffer[..]
    {
      copy := new byte[buffer.Length];
      forall i | 0 <= i < buffer.Length {
        copy[i] := buffer[i];
      }
    }

    /** One callback, with a copy of its own, and the calls it makes. */
    method DeliverOne(buffer: array<byte>, ops: seq<Op>) returns (copy: array<byte>)
      requires Valid() && !Blocked(true)
      modifies subjects, semaphore
      ensures Valid() && (semaphore != null ==> semaphore.count == old(semaphore.count))
      ensures fresh(copy) && copy[..] == old(buffer[..])
      ensures subjects[..] == ApplyAll(old(subjects[..]), ops)
    {
      copy := CopyOf(buffer);
      React(ops);
    }

    /** The deliveries, with the semaphore released: the callbacks are free to change the tables. */
    method Deliver(snaps: seq<Recipient>, buffer: array<byte>, reactions: Reactions)
      returns (calls: seq<Recipient>, copies: seq<array<byte>>, err: Option<Error>)
      requires Valid() && !Blocked(true)
      modifies subjects, semaphore
      ensures Valid() && (semaphore != null ==> semaphore.count == old(semaphore.count))
      ensures var count := CallCount(reactions.ok, |snaps|);
              && calls == snaps[..count]
              && err == (if count > 0 && !reactions.ok(count - 1) then Some(CallbackFailed) else None)
              && subjects[..] == AfterReactions(old(subjects[..]), reactions.ops, count)
      ensures |copies| == |calls|
      ensures forall k :: 0 <= k < |copies| ==> fresh(copies[k]) && copies[k][..] == old(buffer[..])
      ensures forall k, l :: 0 <= k < l < |copies| ==> copies[k] != copies[l]
    {
      calls, copies, err := [], [], None;
      var k: nat := 0;
      while k < |snaps|
        invariant k <= |snaps| && calls == snaps[..k] && |copies| == k && err.None?
        invariant Valid() && (semaphore != null ==> semaphore.count == old(semaphore.count))
        invariant forall c :: 0 <= c < k ==> reactions.ok(c)
        invariant subjects[..] == AfterReactions(old(subjects[..]), reactions.ops, k)
        invariant forall c :: 0 <= c < k ==> fresh(copies[c]) && copies[c][..] == old(buffer[..])
        invariant forall c, d :: 0 <= c < d < k ==> copies[c] != copies[d]
      {
        var copy := DeliverOne(buffer, reactions.ops(k));
        calls, copies := calls + [snaps[k]], copies + [copy];
        k := k + 1;
        if !reactions.ok(k - 1) {
          err := Some(CallbackFailed);
          break;
        }
      }
      CallCountIs(reactions.ok, |snaps|, k);
    }

    // ----- Inspection -----

    method CollectTopics() returns (topics: seq<Topic>)
      ensures topics == Topics(subjects[..])
    {
      topics := [];
      ghost var table := subjects[..];
      for i := 0 to subjects.Length
        invariant topics + Topics(table[i..]) == Topics(table)
      {
        assert table[i..][1..] == table[i + 1..];
        if subjects[i].name != UNNAMED {
          var count := CountRecipients(subjects[i].recipients);
          topics := topics + [Topic(subjects[i].name, count)];
        }
      }
    }

    method ForeachTopic(goOn: nat -> bool, granted: bool) returns (err: Option<Error>, visited: seq<Topic>)
      requires Valid()
      modifies semaphore
      ensures semaphore != null ==> semaphore.count == old(semaphore.count)
      ensures err == if old(Blocked(granted)) then Some(SemaphoreFailed) else None
      ensures visited == if err.Some? then [] else Topics(subjects[..])[..CallCount(goOn, |Topics(subjects[..])|)]
      ensures err.None? ==> VisitedInOrder(subjects[..], visited, visited == Topics(subjects[..]))
      ensures err.None? && (forall k :: goOn(k)) ==> visited == Topics(subjects[..])
    {
      visited := [];
      var ok, acquired := Acquire(granted);
      if !ok {
        return Some(SemaphoreFailed), [];
      }
      var topics := CollectTopics();
      Release(acquired);
      err := None;
      TopicsPrefix(subjects[..], CallCount(goOn, |topics|));
      visited := Visit(topics, goOn);
    }

    static method Visit(topics: seq<Topic>, goOn: nat -> bool) returns (visited: seq<Topic>)
      ensures visited == topics[..CallCount(goOn, |topics|)]
    {
      visited := [];
      var k: nat := 0;
      while k < |topics|
        invariant k <= |topics| && visited == topics[..k]
        invariant forall c :: 0 <= c < k ==> goOn(c)
      {
        visited := visited + [topics[k]];
        k := k + 1;
        if !goOn(k - 1) {
          break;
        }
      }
      CallCountIs(goOn, |topics|, k);
    }

    method SubjectRecipientCount(name: Name, granted: bool) returns (err: Option<Error>, count: nat)
      requires Valid()
      modifies semaphore
      ensures semaphore != null ==> semaphore.count == old(semaphore.count)
      ensures err == if |name| > MAX_NAME_LENGTH then Some(NameTooLong)
                     else if old(Blocked(granted)) then Some(SemaphoreFailed) else None
      ensures var i := IndexOf(Names(subjects[..]), name);
              err.None? ==>
              count == if name == UNNAMED || i == subjects.Length then 0
                       else CountTaken(Selves(subjects[i].recipients), NULL)
    {
      count := 0;
      if |name| > MAX_NAME_LENGTH {
        return Some(NameTooLong), 0;
      }
      var ok, acquired := Acquire(granted);
      if !ok {
        return Some(SemaphoreFailed), 0;
      }
      var i := SearchSubject(name);
      if i < subjects.Length {
        count := CountRecipients(subjects[i].recipients);
      }
      Release(acquired);
      err := None;
    }

    method HasSubject(name: Name, granted: bool) returns (err: Option<Error>, has: bool)
      requires Valid()
      modifies semaphore
      ensures semaphore != null ==> semaphore.count == old(semaphore.count)
      ensures err == if |name| > MAX_NAME_LENGTH then Some(NameTooLong)
                     else if old(Blocked(granted)) then Some(SemaphoreFailed) else None
      ensures err.None? ==> (has <==> name != UNNAMED && IndexOf(Names(subjects[..]), name) < subjects.Length)
    {
      has := false;
      if |name| > MAX_NAME_LENGTH {
        return Some(NameTooLong), false;
      }
      var ok, acquired := Acquire(granted);
      if !ok {
        return Some(SemaphoreFailed), false;
      }
      var i := SearchSubject(name);
      has := i < subjects.Length;
      Release(acquired);
      err := None;
    }
  }
}
