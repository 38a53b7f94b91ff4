/** The slot tables of dtmanifold.c as values, and the routes they stand for. */
module ManifoldSpec {
  import opened Bytes
  import opened Slots

  const MAX_SUBJECTS := 10
  const MAX_RECIPIENTS := 10
  const MAX_NAME_LENGTH := 64

  type Name = seq<byte>
  type Pointer = nat
  const NULL: Pointer := 0
  const UNNAMED: Name := []

  datatype Recipient = Recipient(self: Pointer, callback: Pointer)
  datatype Subject = Subject(name: Name, recipients: seq<Recipient>)
  type Table = seq<Subject>

  const EMPTY := Recipient(NULL, NULL)

  datatype Error = ArgumentNull | NameTooLong | SemaphoreFailed | Overflow | CallbackFailed

  datatype Result = Result(table: Table, err: Option<Error>)

  function Selves(rs: seq<Recipient>): (keys: seq<Pointer>)
    ensures |keys| == |rs| && forall i :: 0 <= i < |rs| ==> keys[i] == rs[i].self
  {
    seq(|rs|, i requires 0 <= i < |rs| => rs[i].self)
  }

  function Names(t: Table): (keys: seq<Name>)
    ensures |keys| == |t| && forall i :: 0 <= i < |t| ==> keys[i] == t[i].name
  {
    seq(|t|, i requires 0 <= i < |t| => t[i].name)
  }

  function NoRecipients(): (rs: seq<Recipient>)
    ensures |rs| == MAX_RECIPIENTS && forall j :: 0 <= j < |rs| ==> rs[j] == EMPTY
  {
    seq(MAX_RECIPIENTS, j => EMPTY)
  }

  function ZeroTable(): (t: Table)
    ensures |t| == MAX_SUBJECTS && forall i :: 0 <= i < |t| ==> t[i] == Subject(UNNAMED, NoRecipients())
  {
    seq(MAX_SUBJECTS, i => Subject(UNNAMED, NoRecipients()))
  }

  // ----- The operations, as the code performs them on the tables -----

  /** The subject's slot, or the first free one, or the number of slots. For the empty name this is a free slot. */
  function SubjectSlot(t: Table, name: Name): nat {
    var i := IndexOf(Names(t), name);
    if i < |t| then i else IndexOf(Names(t), UNNAMED)
  }

  function RecipientSlot(rs: seq<Recipient>, self: Pointer): nat {
    var j := IndexOf(Selves(rs), self);
    if j < |rs| then j else IndexOf(Selves(rs), NULL)
  }

  function AddSubject(t: Table, name: Name): Table {
    var i := SubjectSlot(t, name);
    if i < |t| then t[i := t[i].(name := name)] else t
  }

  function SetRecipient(t: Table, i: nat, j: nat, r: Recipient): Table
    requires i < |t| && j < |t[i].recipients|
  {
    t[i := t[i].(recipients := t[i].recipients[j := r])]
  }

  /** dtmanifold_subscribe, once the semaphore is held. */
  function Subscribe(t: Table, name: Name, self: Pointer, callback: Pointer): Result {
    var i := SubjectSlot(t, name);
    if i >= |t| then Result(t, Some(Overflow))
    else
      var named := AddSubject(t, name);
      var j := RecipientSlot(t[i].recipients, self);
      if j >= |t[i].recipients| then Result(named, Some(Overflow))
      else Result(SetRecipient(named, i, j, Recipient(self, callback)), None)
  }

  /** dtmanifold_unsubscribe, once the semaphore is held. */
  function Unsubscribe(t: Table, name: Name, self: Pointer): Table {
    var i := IndexOf(Names(t), name);
    if name == UNNAMED || i >= |t| then t
    else
      var j := IndexOf(Selves(t[i].recipients), self);
      if j >= |t[i].recipients| then t else SetRecipient(t, i, j, EMPTY)
  }

  /** dtmanifold_publish, up to the release of the semaphore: the subject is created if it is absent. */
  function Touch(t: Table, name: Name): Result {
    Result(AddSubject(t, name), if SubjectSlot(t, name) < |t| then None else Some(Overflow))
  }

  /** The recipients a publish will call, in slot order. */
  function Snapshot(rs: seq<Recipient>): seq<Recipient> {
    if rs == [] then []
    else (if rs[0].self != NULL && rs[0].callback != NULL then [rs[0]] else []) + Snapshot(rs[1..])
  }

  predicate Callable(r: Recipient) {
    r.self != NULL && r.callback != NULL
  }

  /** These items lie in these slots, in the order of the slots. */
  ghost predicate InSlots<T>(table: seq<T>, items: seq<T>, slots: seq<nat>) {
    && |slots| == |items|
    && (forall k :: 0 <= k < |slots| ==> slots[k] < |table| && table[slots[k]] == items[k])
    && (forall k, l :: 0 <= k < l < |slots| ==> slots[k] < slots[l])
  }

  lemma {:induction false} SnapshotAppend(rs: seq<Recipient>, r: Recipient)
    ensures Snapshot(rs + [r]) == Snapshot(rs) + if Callable(r) then [r] else []
    decreases |rs|
  {
    if rs == [] {
      assert [r][1..] == [];
    } else {
      assert (rs + [r])[0] == rs[0] && (rs + [r])[1..] == rs[1..] + [r];
      SnapshotAppend(rs[1..], r);
      assert Snapshot(rs) == (if Callable(rs[0]) then [rs[0]] else []) + Snapshot(rs[1..]);
    }
  }

  lemma OneMoreSlot<T>(table: seq<T>, items: seq<T>, slots: seq<nat>, last: T)
    requires InSlots(table, items, slots)
    ensures InSlots(table + [last], items, slots) && InSlots(table + [last], items + [last], slots + [|table|])
  {
  }

  /** The snapshot is the recipients with a callback, in slot order, and all of them. */
  lemma {:induction false} SnapshotSlots(rs: seq<Recipient>) returns (slots: seq<nat>)
    ensures InSlots(rs, Snapshot(rs), slots)
    ensures forall i :: 0 <= i < |rs| ==> (i in slots <==> Callable(rs[i]))
    decreases |rs|
  {
    if rs == [] {
      slots := [];
    } else {
      var n := |rs| - 1;
      assert rs == rs[..n] + [rs[n]];
      slots := SnapshotSlots(rs[..n]);
      SnapshotAppend(rs[..n], rs[n]);
      OneMoreSlot(rs[..n], Snapshot(rs[..n]), slots, rs[n]);
      if Callable(rs[n]) {
        slots := slots + [n];
      }
    }
  }

  /** The recipients called: those with a callback, in slot order, none left out but, if not `all` were called, behind the
      last. */
  ghost predicate CalledInOrder(rs: seq<Recipient>, calls: seq<Recipient>, all: bool) {
    exists slots: seq<nat> :: InSlots(rs, calls, slots) && NoneLeftOut(rs, slots, all)
  }

  ghost predicate NoneLeftOut(rs: seq<Recipient>, slots: seq<nat>, all: bool) {
    forall i :: 0 <= i < |rs| ==>
      if i in slots then Callable(rs[i])
      else Callable(rs[i]) ==> !all && slots != [] && slots[|slots| - 1] < i
  }

  lemma SnapshotPrefix(rs: seq<Recipient>, n: nat)
    requires n <= |Snapshot(rs)| && (n > 0 || Snapshot(rs) == [])
    ensures CalledInOrder(rs, Snapshot(rs)[..n], n == |Snapshot(rs)|)
  {
    var slots := SnapshotSlots(rs);
    assert InSlots(rs, Snapshot(rs)[..n], slots[..n]);
    forall i | 0 <= i < |rs| && i in slots && i !in slots[..n] ensures n < |slots| && slots[n - 1] < i {
      OnlyBehind(slots, n, i);
    }
    assert NoneLeftOut(rs, slots[..n], n == |Snapshot(rs)|);
  }

  lemma OnlyBehind(slots: seq<nat>, n: nat, i: nat)
    requires forall k, l :: 0 <= k < l < |slots| ==> slots[k] < slots[l]
    requires n <= |slots| && (n > 0 || slots == []) && i in slots && i !in slots[..n]
    ensures n < |slots| && slots[n - 1] < i
  {
    assert forall j :: 0 <= j < n ==> slots[..n][j] == slots[j];
    var k :| 0 <= k < |slots| && slots[k] == i;
  }

  datatype Topic = Topic(name: Name, count: nat)

  function TopicOf(s: Subject): Topic {
    Topic(s.name, CountTaken(Selves(s.recipients), NULL))
  }

  /** What dtmanifold_foreach_topic collects. */
  function Topics(t: Table): seq<Topic> {
    if t == [] then []
    else (if t[0].name == UNNAMED then [] else [TopicOf(t[0])])
         + Topics(t[1..])
  }

  lemma {:induction false} TopicsAppend(t: Table, s: Subject)
    ensures Topics(t + [s]) == Topics(t) + if s.name == UNNAMED then [] else [TopicOf(s)]
    decreases |t|
  {
    if t == [] {
      assert [s][1..] == [];
    } else {
      assert (t + [s])[1..] == t[1..] + [s];
      TopicsAppend(t[1..], s);
    }
  }

  /** These are the topics of these subjects: their names and how many recipients they have. */
  ghost predicate TopicsFor(topics: seq<Topic>, named: seq<Subject>) {
    |topics| == |named|
    && forall k :: 0 <= k < |named| ==>
         topics[k].name == named[k].name && topics[k].count == CountTaken(Selves(named[k].recipients), NULL)
  }

  /** What is collected are the named subjects, in slot order, and all of them. */
  lemma {:induction false} TopicSlots(t: Table) returns (named: seq<Subject>, slots: seq<nat>)
    ensures InSlots(t, named, slots) && TopicsFor(Topics(t), named)
    ensures forall i :: 0 <= i < |t| ==> (i in slots <==> t[i].name != UNNAMED)
    decreases |t|
  {
    if t == [] {
      named, slots := [], [];
    } else {
      var n := |t| - 1;
      assert t == t[..n] + [t[n]];
      named, slots := TopicSlots(t[..n]);
      TopicsAppend(t[..n], t[n]);
      OneMoreSlot(t[..n], named, slots, t[n]);
      if t[n].name != UNNAMED {
        named, slots := named + [t[n]], slots + [n];
      }
    }
  }

  /** The topics visited: those of the named subjects, in slot order, none left out but, if not `all` were visited,
      behind the last. */
  ghost predicate VisitedInOrder(t: Table, topics: seq<Topic>, all: bool) {
    exists named: seq<Subject>, slots: seq<nat> ::
      InSlots(t, named, slots) && TopicsFor(topics, named) && NoNameLeftOut(t, slots, all)
  }

  ghost predicate NoNameLeftOut(t: Table, slots: seq<nat>, all: bool) {
    forall i :: 0 <= i < |t| ==>
      if i in slots then t[i].name != UNNAMED
      else t[i].name != UNNAMED ==> !all && slots != [] && slots[|slots| - 1] < i
  }

  lemma TopicsPrefix(t: Table, n: nat)
    requires n <= |Topics(t)| && (n > 0 || Topics(t) == [])
    ensures VisitedInOrder(t, Topics(t)[..n], n == |Topics(t)|)
  {
    var named, slots := TopicSlots(t);
    assert InSlots(t, named[..n], slots[..n]) && TopicsFor(Topics(t)[..n], named[..n]);
    forall i | 0 <= i < |t| && i in slots && i !in slots[..n] ensures n < |slots| && slots[n - 1] < i {
      OnlyBehind(slots, n, i);
    }
    assert NoNameLeftOut(t, slots[..n], n == |Topics(t)|);
  }

  datatype Op =
    | SubscribeOp(name: Name, self: Pointer, callback: Pointer)
    | UnsubscribeOp(name: Name, self: Pointer)
    | PublishOp(name: Name)

  /** One call with its argument checks, but for the semaphore and the deliveries. */
  function Apply(t: Table, op: Op): Result {
    match op
    case SubscribeOp(name, self, callback) =>
      if self == NULL || callback == NULL then Result(t, Some(ArgumentNull))
      else if |name| > MAX_NAME_LENGTH then Result(t, Some(NameTooLong))
      else Subscribe(t, name, self, callback)
    case UnsubscribeOp(name, self) =>
      if self == NULL then Result(t, Some(ArgumentNull))
      else if |name| > MAX_NAME_LENGTH then Result(t, Some(NameTooLong))
      else Result(Unsubscribe(t, name, self), None)
    case PublishOp(name) =>
      if |name| > MAX_NAME_LENGTH then Result(t, Some(NameTooLong))
      else Touch(t, name)
  }

  function ApplyAll(t: Table, ops: seq<Op>): Table
    decreases |ops|
  {
    if ops == [] then t else ApplyAll(Apply(t, ops[0]).table, ops[1..])
  }

  predicate NullArguments(op: Op) {
    (!op.PublishOp? && op.self == NULL) || (op.SubscribeOp? && op.callback == NULL)
  }

  predicate BadArguments(op: Op) {
    NullArguments(op) || |op.name| > MAX_NAME_LENGTH
  }

  /** One call, when the wait for the semaphore may fail. */
  function Guarded(t: Table, op: Op, blocked: bool): Result {
    if blocked && !BadArguments(op) then Result(t, Some(SemaphoreFailed)) else Apply(t, op)
  }

  /** What the callbacks of one publish do, by invocation: whether each succeeds, and the calls it makes itself. */
  datatype Reactions = Reactions(ok: nat -> bool, ops: nat -> seq<Op>)

  /** How many of `n` callbacks are called when the first to say no is the last. */
  function CallCount(goOn: nat -> bool, n: nat, from: nat := 0): (c: nat)
    requires from <= n
    ensures from <= c <= n
    ensures forall k :: from <= k < c - 1 ==> goOn(k)
    ensures from < n ==> from < c
    ensures c < n ==> !goOn(c - 1)
    decreases n - from
  {
    if from == n then n else if goOn(from) then CallCount(goOn, n, from + 1) else from + 1
  }

  lemma CallCountIs(goOn: nat -> bool, n: nat, count: nat)
    requires count <= n && forall k :: 0 <= k < count - 1 ==> goOn(k)
    requires count == n || (count > 0 && !goOn(count - 1))
    ensures CallCount(goOn, n) == count
  {
  }

  /** The table after the calls that the first `count` callbacks made. */
  function AfterReactions(t: Table, ops: nat -> seq<Op>, count: nat): Table {
    if count == 0 then t else ApplyAll(AfterReactions(t, ops, count - 1), ops(count - 1))
  }

  /** All the calls that they made, one after another. */
  function AllOps(ops: nat -> seq<Op>, count: nat): seq<Op> {
    if count == 0 then [] else AllOps(ops, count - 1) + ops(count - 1)
  }

  lemma {:induction false} ApplyAllAppend(t: Table, ops: seq<Op>, more: seq<Op>)
    ensures ApplyAll(t, ops + more) == ApplyAll(ApplyAll(t, ops), more)
    decreases |ops|
  {
    if ops == [] {
      assert ops + more == more;
    } else {
      assert (ops + more)[1..] == ops[1..] + more;
      ApplyAllAppend(Apply(t, ops[0]).table, ops[1..], more);
    }
  }

  lemma {:induction false} ReactionsAreCalls(t: Table, ops: nat -> seq<Op>, count: nat)
    ensures AfterReactions(t, ops, count) == ApplyAll(t, AllOps(ops, count))
  {
    if count > 0 {
      ReactionsAreCalls(t, ops, count - 1);
      ApplyAllAppend(t, AllOps(ops, count - 1), ops(count - 1));
    }
  }

  /** The row a publish reads, whether or not the subject was there. */
  function RowOf(t: Table, name: Name): seq<Recipient> {
    var i := SubjectSlot(t, name);
    if i < |t| then t[i].recipients else []
  }

  // ----- What the tables mean -----

  type Routes = map<Name, map<Pointer, Pointer>>

  function Callbacks(rs: seq<Recipient>): map<Pointer, Pointer> {
    map self | self in Taken(Selves(rs), NULL) :: rs[IndexOf(Selves(rs), self)].callback
  }

  /** Who is called for what: subject name to recipient to callback. */
  function RoutesOf(t: Table): Routes {
    map name | name in Taken(Names(t), UNNAMED) :: Callbacks(t[IndexOf(Names(t), name)].recipients)
  }

  ghost predicate GoodRow(rs: seq<Recipient>) {
    && |rs| == MAX_RECIPIENTS
    && Distinct(Selves(rs), NULL)
    && forall j :: 0 <= j < |rs| ==> (rs[j].self == NULL <==> rs[j].callback == NULL)
  }

  /** The sizes are fixed, names and recipients are unique in spite of holes, and unnamed subjects are empty. */
  ghost predicate Good(t: Table) {
    && |t| == MAX_SUBJECTS
    && Distinct(Names(t), UNNAMED)
    && forall i :: 0 <= i < |t| ==>
         && |t[i].name| <= MAX_NAME_LENGTH && GoodRow(t[i].recipients)
         && (t[i].name == UNNAMED ==> t[i].recipients == NoRecipients())
  }

  // ----- The operations, on the meaning -----

  function RecipientsOf(m: Routes, name: Name): map<Pointer, Pointer> {
    if name in m then m[name] else map[]
  }

  /** Room for the subject and room for the recipient in it. */
  predicate CanTouch(m: Routes, name: Name) {
    name in m || |m| < MAX_SUBJECTS
  }

  predicate CanSubscribe(m: Routes, name: Name, self: Pointer) {
    CanTouch(m, name) && (self in RecipientsOf(m, name) || |RecipientsOf(m, name)| < MAX_RECIPIENTS)
  }

  function RouteSubscribe(m: Routes, name: Name, self: Pointer, callback: Pointer): Routes {
    if CanSubscribe(m, name, self) then m[name := RecipientsOf(m, name)[self := callback]] else m
  }

  function RouteUnsubscribe(m: Routes, name: Name, self: Pointer): Routes {
    if name in m then m[name := m[name] - {self}] else m
  }

  function RouteTouch(m: Routes, name: Name): Routes {
    if CanTouch(m, name) then m[name := RecipientsOf(m, name)] else m
  }

  function RouteApply(m: Routes, op: Op): Routes {
    if |op.name| > MAX_NAME_LENGTH then m
    else
      match op
      case SubscribeOp(name, self, callback) =>
        if self == NULL || callback == NULL then m else RouteSubscribe(m, name, self, callback)
      case UnsubscribeOp(name, self) => if self == NULL then m else RouteUnsubscribe(m, name, self)
      case PublishOp(name) => RouteTouch(m, name)
  }

  function RouteApplyAll(m: Routes, ops: seq<Op>): Routes
    decreases |ops|
  {
    if ops == [] then m else RouteApplyAll(RouteApply(m, ops[0]), ops[1..])
  }

  ghost predicate AllNamed(ops: seq<Op>) {
    forall op :: op in ops ==> op.name != UNNAMED
  }
}
