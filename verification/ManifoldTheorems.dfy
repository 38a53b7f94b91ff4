/** The slot tables refine the routes. */
module ManifoldTheorems {
  import opened Bytes
  import opened Slots
  import opened ManifoldSpec

  // ----- Rows -----

  lemma RowAfterSet(rs: seq<Recipient>, self: Pointer, callback: Pointer)
    requires GoodRow(rs) && self != NULL && callback != NULL && RecipientSlot(rs, self) < |rs|
    ensures var after := rs[RecipientSlot(rs, self) := Recipient(self, callback)];
            GoodRow(after) && Callbacks(after) == Callbacks(rs)[self := callback]
  {
    var keys, j := Selves(rs), RecipientSlot(rs, self);
    assert Selves(rs[j := Recipient(self, callback)]) == keys[j := self];
    TakenAfterUpdate(keys, NULL, j, self);
    forall k | k in Taken(keys, NULL) && k != self ensures IndexOf(keys[j := self], k) == IndexOf(keys, k) != j {
      IndexAfterUpdate(keys, NULL, j, self, k);
    }
    assert IndexOf(keys[j := self], self) == j;
    var after := rs[j := Recipient(self, callback)];
    SameMap(Callbacks(after), Callbacks(rs)[self := callback]);
  }

  /** Two maps with the same keys and, at each key, the same value. */
  lemma SameMap<K, V>(a: map<K, V>, b: map<K, V>)
    requires a.Keys == b.Keys && forall k :: k in a.Keys ==> a[k] == b[k]
    ensures a == b
  {
  }

  lemma RowAfterClear(rs: seq<Recipient>, j: nat)
    requires GoodRow(rs) && j < |rs| && rs[j].self != NULL
    ensures GoodRow(rs[j := EMPTY]) && Callbacks(rs[j := EMPTY]) == Callbacks(rs) - {rs[j].self}
  {
    var keys := Selves(rs);
    assert Selves(rs[j := EMPTY]) == keys[j := NULL];
    TakenAfterUpdate(keys, NULL, j, NULL);
    forall k | k in Taken(keys, NULL) && k != rs[j].self ensures IndexOf(keys[j := NULL], k) == IndexOf(keys, k) != j {
      IndexAfterUpdate(keys, NULL, j, NULL, k);
    }
  }

  lemma EmptyRow()
    ensures GoodRow(NoRecipients()) && Callbacks(NoRecipients()) == map[]
  {
  }

  /** A row has room for this recipient exactly when it is there or fewer than all slots are taken. */
  lemma RowCapacity(rs: seq<Recipient>, self: Pointer)
    requires GoodRow(rs) && self != NULL
    ensures RecipientSlot(rs, self) < |rs| <==> self in Callbacks(rs) || |Callbacks(rs)| < MAX_RECIPIENTS
    ensures |Callbacks(rs)| == CountTaken(Selves(rs), NULL)
  {
    CountIsCardinality(Selves(rs), NULL);
    assert Callbacks(rs).Keys == Taken(Selves(rs), NULL);
    FreeSlotIffBelowCapacity(Selves(rs), NULL);
    InTaken(Selves(rs), NULL, self);
  }

  lemma InTaken<K>(keys: seq<K>, free: K, key: K)
    requires key != free
    ensures key in Taken(keys, free) <==> IndexOf(keys, key) < |keys|
  {
    var i := IndexOf(keys, key);
    assert i < |keys| ==> keys[i] in Taken(keys, free);
  }

  // ----- Tables -----

  lemma ZeroTableIsGood()
    ensures Good(ZeroTable()) && RoutesOf(ZeroTable()) == map[]
  {
    EmptyRow();
  }

  lemma RoutesAfterRow(t: Table, i: nat, rs: seq<Recipient>)
    requires Good(t) && i < |t| && t[i].name != UNNAMED && GoodRow(rs)
    ensures var after := t[i := t[i].(recipients := rs)];
            Good(after) && RoutesOf(after) == RoutesOf(t)[t[i].name := Callbacks(rs)]
  {
    var after := t[i := t[i].(recipients := rs)];
    GoodAfterRow(t, i, rs);
    OwnSlot(Names(t), UNNAMED, i);
    assert RoutesOf(after) == RoutesOf(t)[t[i].name := Callbacks(rs)] by {
      forall k | k in Taken(Names(t), UNNAMED) && k != t[i].name ensures IndexOf(Names(t), k) != i {
      }
    }
  }

  lemma GoodAfterRow(t: Table, i: nat, rs: seq<Recipient>)
    requires Good(t) && i < |t| && t[i].name != UNNAMED && GoodRow(rs)
    ensures var after := t[i := t[i].(recipients := rs)]; Good(after) && Names(after) == Names(t)
  {
    assert Names(t[i := t[i].(recipients := rs)]) == Names(t);
  }

  /** Each name is found in its own slot. */
  lemma OwnSlot<K>(keys: seq<K>, free: K, i: nat)
    requires Distinct(keys, free) && i < |keys| && keys[i] != free
    ensures IndexOf(keys, keys[i]) == i && keys[i] in Taken(keys, free)
  {
  }

  lemma TableCapacity(t: Table, name: Name)
    requires Good(t) && name != UNNAMED
    ensures SubjectSlot(t, name) < |t| <==> CanTouch(RoutesOf(t), name)
    ensures name in RoutesOf(t) <==> IndexOf(Names(t), name) < |t|
    ensures |RoutesOf(t)| == CountTaken(Names(t), UNNAMED)
  {
    CountIsCardinality(Names(t), UNNAMED);
    FreeSlotIffBelowCapacity(Names(t), UNNAMED);
    InTaken(Names(t), UNNAMED, name);
    assert RoutesOf(t).Keys == Taken(Names(t), UNNAMED);
  }

  lemma RoutesAfterNewName(t: Table, i: nat, name: Name)
    requires Good(t) && name != UNNAMED && |name| <= MAX_NAME_LENGTH && name !in Names(t)
    requires i < |t| && t[i].name == UNNAMED
    ensures var after := t[i := t[i].(name := name)];
            Good(after) && RoutesOf(after) == RoutesOf(t)[name := map[]]
  {
    var keys, after := Names(t), t[i := t[i].(name := name)];
    EmptyRow();
    assert Names(after) == keys[i := name];
    TakenAfterUpdate(keys, UNNAMED, i, name);
    forall k | k in Taken(keys, UNNAMED) ensures IndexOf(Names(after), k) == IndexOf(keys, k) != i {
      IndexAfterUpdate(keys, UNNAMED, i, name, k);
    }
    assert IndexOf(Names(after), name) == i;
    SameMap(RoutesOf(after), RoutesOf(t)[name := map[]]);
  }

  /** Creating a subject adds a route with no recipients, because a free slot has none. */
  lemma RoutesAfterName(t: Table, name: Name)
    requires Good(t) && name != UNNAMED && |name| <= MAX_NAME_LENGTH
    ensures Good(AddSubject(t, name)) && RoutesOf(AddSubject(t, name)) == RouteTouch(RoutesOf(t), name)
    ensures SubjectSlot(t, name) < |t| ==>
              && AddSubject(t, name)[SubjectSlot(t, name)] == Subject(name, t[SubjectSlot(t, name)].recipients)
              && Callbacks(t[SubjectSlot(t, name)].recipients) == RecipientsOf(RoutesOf(t), name)
  {
    TableCapacity(t, name);
    var i := SubjectSlot(t, name);
    if name in RoutesOf(t) {
      assert AddSubject(t, name) == t && RouteTouch(RoutesOf(t), name) == RoutesOf(t);
    } else if i < |t| {
      EmptyRow();
      RoutesAfterNewName(t, i, name);
    }
  }

  /** Only the row of a subject that was already there can be full, so failing to add a recipient adds no subject. */
  lemma FullRowIsNamed(t: Table, name: Name)
    requires Good(t) && name != UNNAMED && SubjectSlot(t, name) < |t|
    requires |Callbacks(t[SubjectSlot(t, name)].recipients)| == MAX_RECIPIENTS
    ensures AddSubject(t, name) == t
  {
    EmptyRow();
    assert IndexOf(Names(t), name) < |t|;
  }

  /** Subscribing succeeds exactly when it can, then routes the callback, and otherwise changes nothing at all. */
  lemma SubscribeRefines(t: Table, name: Name, self: Pointer, callback: Pointer)
    requires Good(t) && name != UNNAMED && |name| <= MAX_NAME_LENGTH && self != NULL && callback != NULL
    ensures var r := Subscribe(t, name, self, callback);
            && Good(r.table)
            && RoutesOf(r.table) == RouteSubscribe(RoutesOf(t), name, self, callback)
            && (r.err.None? <==> CanSubscribe(RoutesOf(t), name, self))
            && (r.err.Some? ==> r == Result(t, Some(Overflow)))
  {
    TableCapacity(t, name);
    var i := SubjectSlot(t, name);
    if i < |t| {
      RoutesAfterName(t, name);
      RowCapacity(t[i].recipients, self);
      if RecipientSlot(t[i].recipients, self) < |t[i].recipients| {
        SubscribeWithRoom(t, name, self, callback);
      } else {
        FullRowIsNamed(t, name);
      }
    }
  }

  lemma SubscribeWithRoom(t: Table, name: Name, self: Pointer, callback: Pointer)
    requires Good(t) && name != UNNAMED && |name| <= MAX_NAME_LENGTH && self != NULL && callback != NULL
    requires var i := SubjectSlot(t, name); i < |t| && RecipientSlot(t[i].recipients, self) < |t[i].recipients|
    ensures var after := Subscribe(t, name, self, callback).table;
            && Good(after)
            && RoutesOf(after) == RoutesOf(t)[name := RecipientsOf(RoutesOf(t), name)[self := callback]]
  {
    var i := SubjectSlot(t, name);
    var rs := t[i].recipients;
    var row := rs[RecipientSlot(rs, self) := Recipient(self, callback)];
    var named := AddSubject(t, name);
    RoutesAfterName(t, name);
    RowAfterSet(rs, self, callback);
    RoutesAfterRow(named, i, row);
    SubscribeSetsRow(t, name, self, callback);
    TouchThenSet(RoutesOf(t), name, Callbacks(row));
  }

  lemma SubscribeSetsRow(t: Table, name: Name, self: Pointer, callback: Pointer)
    requires var i := SubjectSlot(t, name); i < |t| && RecipientSlot(t[i].recipients, self) < |t[i].recipients|
    ensures var i, named := SubjectSlot(t, name), AddSubject(t, name);
            var row := t[i].recipients[RecipientSlot(t[i].recipients, self) := Recipient(self, callback)];
            Subscribe(t, name, self, callback) == Result(named[i := named[i].(recipients := row)], None)
  {
  }

  lemma TouchThenSet(m: Routes, name: Name, row: map<Pointer, Pointer>)
    ensures RouteTouch(m, name)[name := row] == m[name := row]
  {
  }

  lemma UnsubscribeRefines(t: Table, name: Name, self: Pointer)
    requires Good(t) && self != NULL
    ensures Good(Unsubscribe(t, name, self))
    ensures RoutesOf(Unsubscribe(t, name, self)) == RouteUnsubscribe(RoutesOf(t), name, self)
  {
    var i := IndexOf(Names(t), name);
    if name != UNNAMED && i < |t| {
      var rs := t[i].recipients;
      var j := IndexOf(Selves(rs), self);
      InTaken(Names(t), UNNAMED, name);
      InTaken(Selves(rs), NULL, self);
      if j < |rs| {
        RowAfterClear(rs, j);
        RoutesAfterRow(t, i, rs[j := EMPTY]);
      } else {
        assert Callbacks(rs) - {self} == Callbacks(rs);
      }
    } else if name != UNNAMED {
      InTaken(Names(t), UNNAMED, name);
    }
  }

  lemma TouchRefines(t: Table, name: Name)
    requires Good(t) && name != UNNAMED && |name| <= MAX_NAME_LENGTH
    ensures var r := Touch(t, name);
            && Good(r.table) && RoutesOf(r.table) == RouteTouch(RoutesOf(t), name)
            && (r.err.None? <==> CanTouch(RoutesOf(t), name)) && (r.err.Some? ==> r.table == t)
  {
    RoutesAfterName(t, name);
    TableCapacity(t, name);
  }

  // ----- Runs -----

  lemma ApplyRefines(t: Table, op: Op)
    requires Good(t) && op.name != UNNAMED
    ensures Good(Apply(t, op).table) && RoutesOf(Apply(t, op).table) == RouteApply(RoutesOf(t), op)
  {
    if |op.name| <= MAX_NAME_LENGTH {
      match op {
        case SubscribeOp(name, self, callback) =>
          if self != NULL && callback != NULL {
            SubscribeRefines(t, name, self, callback);
          }
        case UnsubscribeOp(name, self) =>
          if self != NULL {
            UnsubscribeRefines(t, name, self);
          }
        case PublishOp(name) => TouchRefines(t, name);
      }
    }
  }

  /** Over any sequence of calls with nonempty names, the slot tables stand for the map that the same calls build. */
  lemma {:induction false} RunRefines(t: Table, ops: seq<Op>)
    requires Good(t) && AllNamed(ops)
    ensures Good(ApplyAll(t, ops)) && RoutesOf(ApplyAll(t, ops)) == RouteApplyAll(RoutesOf(t), ops)
    decreases |ops|
  {
    if ops != [] {
      ApplyRefines(t, ops[0]);
      RunRefines(Apply(t, ops[0]).table, ops[1..]);
    }
  }

  // ----- Queries -----

  /** has_subject, subject_recipient_count: what they report is in the map. */
  lemma QueriesAgree(t: Table, name: Name)
    requires Good(t) && name != UNNAMED
    ensures IndexOf(Names(t), name) < |t| <==> name in RoutesOf(t)
    ensures name in RoutesOf(t) ==>
              CountTaken(Selves(t[IndexOf(Names(t), name)].recipients), NULL) == |RoutesOf(t)[name]|
  {
    TableCapacity(t, name);
    if name in RoutesOf(t) {
      RowCapacity(t[IndexOf(Names(t), name)].recipients, 1);
    }
  }

  lemma {:induction false} InTopics(t: Table, topic: Topic)
    ensures topic in Topics(t) <==> exists i :: 0 <= i < |t| && t[i].name != UNNAMED && TopicOf(t[i]) == topic
    decreases |t|
  {
    if t != [] {
      var rest := t[1..];
      InTopics(rest, topic);
      assert forall i :: 0 <= i < |rest| ==> rest[i] == t[i + 1];
      if i :| 0 <= i < |t| && t[i].name != UNNAMED && TopicOf(t[i]) == topic {
        assert i > 0 ==> rest[i - 1] == t[i];
      }
    }
  }

  lemma {:induction false} TopicsAreDistinct(t: Table)
    requires Distinct(Names(t), UNNAMED)
    ensures |Topics(t)| == CountTaken(Names(t), UNNAMED)
    ensures forall k, l :: 0 <= k < l < |Topics(t)| ==> Topics(t)[k].name != Topics(t)[l].name
    decreases |t|
  {
    if t != [] {
      var rest := t[1..];
      assert Names(t)[1..] == Names(rest);
      assert Distinct(Names(rest), UNNAMED) by {
        assert forall i :: 0 <= i < |rest| ==> Names(rest)[i] == Names(t)[i + 1];
      }
      TopicsAreDistinct(rest);
      if t[0].name != UNNAMED {
        assert Topics(t) == [TopicOf(t[0])] + Topics(rest);
        forall l | 0 <= l < |Topics(rest)| ensures Topics(rest)[l].name != t[0].name {
          InTopics(rest, Topics(rest)[l]);
          var i :| 0 <= i < |rest| && rest[i].name != UNNAMED && TopicOf(rest[i]) == Topics(rest)[l];
          assert Names(t)[0] != Names(t)[i + 1];
        }
      }
    }
  }

  lemma NamedSlotIsIndex(t: Table, i: nat)
    requires Distinct(Names(t), UNNAMED) && i < |t| && t[i].name != UNNAMED
    ensures IndexOf(Names(t), t[i].name) == i
  {
    assert Names(t)[i] == t[i].name;
  }

  /** What foreach_topic reports is the map: each subject once, with its true number of recipients, and no other. */
  lemma TopicsAgree(t: Table)
    requires Good(t)
    ensures |Topics(t)| == |RoutesOf(t)|
    ensures forall k :: 0 <= k < |Topics(t)| ==>
              Topics(t)[k].name in RoutesOf(t) && Topics(t)[k].count == |RoutesOf(t)[Topics(t)[k].name]|
    ensures forall k, l :: 0 <= k < l < |Topics(t)| ==> Topics(t)[k].name != Topics(t)[l].name
  {
    TopicsAreDistinct(t);
    CountIsCardinality(Names(t), UNNAMED);
    assert RoutesOf(t).Keys == Taken(Names(t), UNNAMED);
    forall k | 0 <= k < |Topics(t)|
      ensures Topics(t)[k].name in RoutesOf(t) && Topics(t)[k].count == |RoutesOf(t)[Topics(t)[k].name]|
    {
      var topic := Topics(t)[k];
      InTopics(t, topic);
      var i :| 0 <= i < |t| && t[i].name != UNNAMED && TopicOf(t[i]) == topic;
      NamedSlotIsIndex(t, i);
      QueriesAgree(t, topic.name);
    }
  }

  // ----- Publishing -----

  lemma {:induction false} InSnapshot(rs: seq<Recipient>, r: Recipient)
    ensures r in Snapshot(rs) <==> r in rs && r.self != NULL && r.callback != NULL
    decreases |rs|
  {
    if rs != [] {
      InSnapshot(rs[1..], r);
      assert rs == [rs[0]] + rs[1..];
    }
  }

  lemma {:induction false} SnapshotIsDistinct(rs: seq<Recipient>)
    requires Distinct(Selves(rs), NULL)
    requires forall j :: 0 <= j < |rs| ==> (rs[j].self == NULL <==> rs[j].callback == NULL)
    ensures |Snapshot(rs)| == CountTaken(Selves(rs), NULL)
    ensures forall k, l :: 0 <= k < l < |Snapshot(rs)| ==> Snapshot(rs)[k].self != Snapshot(rs)[l].self
    decreases |rs|
  {
    if rs != [] {
      var rest := rs[1..];
      assert Selves(rs)[1..] == Selves(rest);
      assert Distinct(Selves(rest), NULL) by {
        assert forall i :: 0 <= i < |rest| ==> Selves(rest)[i] == Selves(rs)[i + 1];
      }
      SnapshotIsDistinct(rest);
      if rs[0].self != NULL {
        assert Snapshot(rs) == [rs[0]] + Snapshot(rest);
        forall l | 0 <= l < |Snapshot(rest)| ensures Snapshot(rest)[l].self != rs[0].self {
          InSnapshot(rest, Snapshot(rest)[l]);
          var i :| 0 <= i < |rest| && rest[i] == Snapshot(rest)[l];
          assert Selves(rs)[0] != Selves(rs)[i + 1];
        }
      }
    }
  }

  /** A publish calls the recipients subscribed at that moment and no others, each once and with its own callback. */
  lemma SnapshotAgrees(rs: seq<Recipient>)
    requires GoodRow(rs)
    ensures forall self, callback ::
              Recipient(self, callback) in Snapshot(rs) <==> self in Callbacks(rs) && Callbacks(rs)[self] == callback
    ensures forall k, l :: 0 <= k < l < |Snapshot(rs)| ==> Snapshot(rs)[k].self != Snapshot(rs)[l].self
    ensures |Snapshot(rs)| == |Callbacks(rs)|
  {
    SnapshotIsDistinct(rs);
    CountIsCardinality(Selves(rs), NULL);
    assert Callbacks(rs).Keys == Taken(Selves(rs), NULL);
    forall self, callback
      ensures Recipient(self, callback) in Snapshot(rs) <==> self in Callbacks(rs) && Callbacks(rs)[self] == callback
    {
      RouteOfRecipient(rs, Recipient(self, callback));
    }
  }

  lemma RouteOfRecipient(rs: seq<Recipient>, r: Recipient)
    requires GoodRow(rs)
    ensures r in Snapshot(rs) <==> r.self in Callbacks(rs) && Callbacks(rs)[r.self] == r.callback
  {
    InSnapshot(rs, r);
    if r.self == NULL {
      assert r.self !in Taken(Selves(rs), NULL);
    } else {
      InTaken(Selves(rs), NULL, r.self);
      if r in rs {
        var i :| 0 <= i < |rs| && rs[i] == r;
        assert Selves(rs)[i] == r.self;
        assert IndexOf(Selves(rs), r.self) == i;
      }
    }
  }

  /** The recipients are called in the order of their slots. */
  lemma SnapshotInOrder(rs: seq<Recipient>)
    requires GoodRow(rs)
    ensures forall k, l :: 0 <= k < l < |Snapshot(rs)| ==>
              IndexOf(Selves(rs), Snapshot(rs)[k].self) < IndexOf(Selves(rs), Snapshot(rs)[l].self) < |rs|
  {
    var slots := SnapshotSlots(rs);
    forall k | 0 <= k < |Snapshot(rs)| ensures IndexOf(Selves(rs), Snapshot(rs)[k].self) == slots[k] < |rs| {
      assert slots[k] in slots;
      OwnSlot(Selves(rs), NULL, slots[k]);
    }
  }

  // ----- Empty names -----

  /** Subscribing keeps the tables good exactly when the subject is named or every subject slot is taken: for the empty
      name the code fills in a slot that it still takes for free. */
  lemma EmptyNameBreaksTable(t: Table, name: Name, self: Pointer, callback: Pointer)
    requires Good(t) && |name| <= MAX_NAME_LENGTH && self != NULL && callback != NULL
    ensures Good(Subscribe(t, name, self, callback).table) <==> name != UNNAMED || SubjectSlot(t, UNNAMED) == |t|
  {
    if name != UNNAMED {
      SubscribeRefines(t, name, self, callback);
    } else if SubjectSlot(t, UNNAMED) < |t| {
      var i := SubjectSlot(t, UNNAMED);
      var j := RecipientSlot(t[i].recipients, self);
      assert t[i].recipients == NoRecipients();
      assert Selves(NoRecipients())[0] == NULL;
      var after := Subscribe(t, name, self, callback).table;
      assert after[i].recipients[j] == Recipient(self, callback) != EMPTY == NoRecipients()[j];
    }
  }

  lemma EmptyNameFillsFreeSlot(t: Table, self: Pointer, callback: Pointer)
    requires Good(t) && self != NULL && SubjectSlot(t, UNNAMED) < |t|
    ensures var i, filled := SubjectSlot(t, UNNAMED), Subscribe(t, UNNAMED, self, callback).table;
            && |filled| == |t| && Names(filled) == Names(t)
            && IndexOf(Selves(filled[i].recipients), self) < |filled[i].recipients|
  {
    var i := SubjectSlot(t, UNNAMED);
    assert Names(t)[i] == UNNAMED;
    assert t[i].recipients == NoRecipients() && Selves(NoRecipients())[0] == NULL;
    var j := RecipientSlot(t[i].recipients, self);
    assert Subscribe(t, UNNAMED, self, callback).table == SetRecipient(t, i, j, Recipient(self, callback));
    RecipientIsSet(t, i, j, self, callback);
  }

  lemma RecipientIsSet(t: Table, i: nat, j: nat, self: Pointer, callback: Pointer)
    requires i < |t| && j < |t[i].recipients|
    ensures var filled := SetRecipient(t, i, j, Recipient(self, callback));
            && |filled| == |t| && Names(filled) == Names(t)
            && IndexOf(Selves(filled[i].recipients), self) < |filled[i].recipients|
  {
    var filled := SetRecipient(t, i, j, Recipient(self, callback));
    assert Selves(filled[i].recipients)[j] == self;
  }

  lemma TouchTakesSlot(t: Table, i: nat, name: Name)
    requires name != UNNAMED && name !in Names(t) && i < |t| && i == IndexOf(Names(t), UNNAMED)
    ensures var after := Touch(t, name).table;
            && |after| == |t| && after[i] == Subject(name, t[i].recipients)
            && IndexOf(Names(after), name) == i
  {
    var after := Touch(t, name).table;
    assert SubjectSlot(t, name) == i;
    assert after == t[i := t[i].(name := name)];
    assert Names(after) == Names(t)[i := name];
  }

  /** The next subject created inherits a recipient that was subscribed to the empty name. */
  lemma EmptyNameIsInherited(t: Table, self: Pointer, callback: Pointer, name: Name)
    requires Good(t) && self != NULL && callback != NULL
    requires name != UNNAMED && name !in RoutesOf(t) && |RoutesOf(t)| < MAX_SUBJECTS
    ensures var after := Touch(Subscribe(t, UNNAMED, self, callback).table, name).table;
            name in RoutesOf(after) && self in RoutesOf(after)[name]
  {
    TableCapacity(t, name);
    var i := SubjectSlot(t, UNNAMED);
    EmptyNameFillsFreeSlot(t, self, callback);
    var filled := Subscribe(t, UNNAMED, self, callback).table;
    TouchTakesSlot(filled, i, name);
    var after := Touch(filled, name).table;
    InTaken(Names(after), UNNAMED, name);
    InTaken(Selves(after[i].recipients), NULL, self);
  }
}
