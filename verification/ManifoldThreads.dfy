/** Any number of threads calling one manifold, in any interleaving, with the semaphore of count 1 that
    dtmanifold_set_threadsafe_semaphore attaches, or without it. Each step is one read or one write of the tables, one
    wait, one post or one callback. A call that a callback makes is a call of another thread. */
module ManifoldThreads {
  import opened Bytes
  import opened Slots
  import opened ManifoldSpec

  datatype Call = Mutation(op: Op) | Foreach | Query(name: Name)

  /** What a call learns at the tables: its result, or the recipients it goes on to call, or the topics it goes on to
      visit, or what it reports of a subject. */
  datatype Reply =
    | Returned(err: Option<Error>)
    | Calls(snaps: seq<Recipient>)
    | Visits(topics: seq<Topic>)
    | Reports(count: Option<nat>)

  /** `answered` says that the call has had its turn at the tables before. */
  datatype Pc =
    | Resting
    | Waiting
    | Entered
    | SubjectPicked(i: nat)
    | SubjectNamed(i: nat)
    | RecipientPicked(i: nat, j: nat)
    | RecipientSet(i: nat, j: nat)
    | Snapped(snaps: seq<Recipient>)
    | Collected(topics: seq<Topic>)
    | Reported(count: Option<nat>)
    | Calling(snaps: seq<Recipient>, done: nat, at: nat)
    | Iterating(topics: seq<Topic>, done: nat, at: nat)
    | Cleanup(err: Option<Error>, answered: bool)

  /** `todo` starts with the call being made; `acquired` is the local flag of that call, set only when there is a
      semaphore. `turn` only records that the call is at the tables. */
  datatype Thread = Thread(todo: seq<Call>, pc: Pc, acquired: bool, turn: bool)

  /** A thread's call as it was answered. */
  datatype Turn = Turn(id: nat, call: Call, reply: Reply)

  /** `base` and `history` only record: the tables as the last turn left them, and the turns taken. */
  datatype Sys = Sys(count: nat, threads: seq<Thread>, table: Table, base: Table, history: seq<Turn>)

  function WithThread(s: Sys, id: nat, th: Thread): Sys
    requires id < |s.threads|
  {
    s.(threads := s.threads[id := th])
  }

  /** The semaphore is posted if the call acquired it; its turn, if it had one, is over. */
  function Release(s: Sys, id: nat, reply: Option<Reply>, next: Thread): Sys
    requires id < |s.threads| && s.threads[id].todo != []
  {
    var th := s.threads[id];
    WithThread(s, id, next.(acquired := false, turn := false)).(
      count := if th.acquired then s.count + 1 else s.count,
      base := if th.turn then s.table else s.base,
      history := if reply.Some? then s.history + [Turn(id, th.todo[0], reply.value)] else s.history)
  }

  /** Ready for the next call. */
  function Rest(th: Thread): Thread
    requires th.todo != []
  {
    th.(pc := Resting, todo := th.todo[1..])
  }

  /** The thread's next step; `choice` says whether its wait is granted or its callback says yes. A thread that waits
      for a taken semaphore, or has nothing to do, stays where it is. */
  function Advance(attached: bool, s: Sys, id: nat, choice: bool): Sys
    requires id < |s.threads|
  {
    var th := s.threads[id];
    if th.todo == [] then s
    else
      match th.pc
      case Resting => WithThread(s, id, th.(pc := Start(th.todo[0])))
      case Waiting =>
        if !attached then WithThread(s, id, th.(pc := Entered, turn := true))
        else if !choice then WithThread(s, id, th.(pc := Cleanup(Some(SemaphoreFailed), false)))
        else if s.count == 0 then s
        else WithThread(s, id, th.(pc := Entered, acquired := true, turn := true)).(count := s.count - 1)
      case Snapped(snaps) => Release(s, id, Some(Calls(snaps)), th.(pc := Calling(snaps, 0, |s.history|)))
      case Collected(topics) => Release(s, id, Some(Visits(topics)), th.(pc := Iterating(topics, 0, |s.history|)))
      case Reported(count) => Release(s, id, Some(Reports(count)), Rest(th))
      case Calling(snaps, done, at) =>
        WithThread(s, id, th.(pc :=
          if done >= |snaps| then Cleanup(None, true)
          else if choice then Calling(snaps, done + 1, at)
          else Cleanup(Some(CallbackFailed), true)))
      case Iterating(topics, done, at) =>
        WithThread(s, id, th.(pc :=
          if done >= |topics| || !choice then Cleanup(None, true) else Iterating(topics, done + 1, at)))
      case Cleanup(err, answered) => Release(s, id, if answered then None else Some(Returned(err)), Rest(th))
      case _ =>
        var (pc, table) := Work(th.todo[0], th.pc, s.table);
        WithThread(s, id, th.(pc := pc)).(table := table)
  }

  predicate BadCall(call: Call) {
    match call
    case Mutation(op) => BadArguments(op)
    case Foreach => false
    case Query(name) => |name| > MAX_NAME_LENGTH
  }

  function BadError(call: Call): Error {
    if call.Mutation? && NullArguments(call.op) then ArgumentNull else NameTooLong
  }

  /** The argument checks come before the wait. */
  function Start(call: Call): Pc {
    if BadCall(call) then Cleanup(Some(BadError(call)), false) else Waiting
  }

  /** What has_subject and subject_recipient_count report: nothing, or the number of recipients. */
  function CountOf(t: Table, name: Name): Option<nat> {
    var i := IndexOf(Names(t), name);
    if name == UNNAMED || i >= |t| then None else Some(CountTaken(Selves(t[i].recipients), NULL))
  }

  /** One read or write of the tables. The slots picked are trusted by the later writes. */
  function Work(call: Call, pc: Pc, t: Table): (Pc, Table) {
    match pc
    case Entered =>
      (match call
       case Foreach => (Collected(Topics(t)), t)
       case Query(name) => (Reported(CountOf(t, name)), t)
       case Mutation(UnsubscribeOp(name, _)) =>
         var i := IndexOf(Names(t), name);
         (if name == UNNAMED || i >= |t| then Cleanup(None, false) else SubjectPicked(i), t)
       case Mutation(op) =>
         var i := SubjectSlot(t, op.name);
         (if i >= |t| then Cleanup(Some(Overflow), false) else SubjectPicked(i), t))
    case SubjectPicked(i) =>
      if i >= |t| || !call.Mutation? then (pc, t)
      else if call.op.UnsubscribeOp? then
        var j := IndexOf(Selves(t[i].recipients), call.op.self);
        (if j >= |t[i].recipients| then Cleanup(None, false) else RecipientPicked(i, j), t)
      else (SubjectNamed(i), t[i := t[i].(name := call.op.name)])
    case SubjectNamed(i) =>
      if i >= |t| || !call.Mutation? then (pc, t)
      else if call.op.SubscribeOp? then
        var j := RecipientSlot(t[i].recipients, call.op.self);
        (if j >= |t[i].recipients| then Cleanup(Some(Overflow), false) else RecipientPicked(i, j), t)
      else (Snapped(Snapshot(t[i].recipients)), t)
    case RecipientPicked(i, j) =>
      if i >= |t| || j >= |t[i].recipients| || !call.Mutation? then (pc, t)
      else if call.op.SubscribeOp? then
        (RecipientSet(i, j), SetRecipient(t, i, j, Recipient(call.op.self, t[i].recipients[j].callback)))
      else (Cleanup(None, false), SetRecipient(t, i, j, EMPTY))
    case RecipientSet(i, j) =>
      if i >= |t| || j >= |t[i].recipients| || !(call.Mutation? && call.op.SubscribeOp?) then (pc, t)
      else (Cleanup(None, false), SetRecipient(t, i, j, Recipient(t[i].recipients[j].self, call.op.callback)))
    case _ => (pc, t)
  }

  datatype Tick = Tick(id: nat, choice: bool)

  function After(attached: bool, s: Sys, tick: Tick): Sys {
    if tick.id < |s.threads| then Advance(attached, s, tick.id, tick.choice) else s
  }

  /** A schedule of any length; a tick for a thread that does not exist passes. */
  function Execute(attached: bool, s: Sys, schedule: seq<Tick>): Sys
    decreases |schedule|
  {
    if schedule == [] then s else Execute(attached, After(attached, s, schedule[0]), schedule[1..])
  }

  function Launch(t: Table, programs: seq<seq<Call>>): Sys {
    Sys(1, seq(|programs|, k requires 0 <= k < |programs| => Thread(programs[k], Resting, false, false)), t, t, [])
  }

  // ----- One call at a time -----

  /** A call made when nobody else is at the tables: what it leaves there, and what it learns. */
  function Answer(t: Table, call: Call): (Table, Reply) {
    match call
    case Foreach => (t, Visits(Topics(t)))
    case Query(name) => (t, if BadCall(call) then Returned(Some(NameTooLong)) else Reports(CountOf(t, name)))
    case Mutation(op) =>
      var r := Apply(t, op);
      (r.table, if op.PublishOp? && r.err.None? then Calls(Snapshot(RowOf(t, op.name))) else Returned(r.err))
  }

  /** The call was refused by the semaphore, as only calls that get that far are. */
  predicate Refused(turn: Turn) {
    turn.reply == Returned(Some(SemaphoreFailed)) && !BadCall(turn.call)
  }

  /** The tables after these turns, one after another. */
  function TableAfter(start: Table, history: seq<Turn>): Table {
    if history == [] then start
    else
      var n := |history| - 1;
      var t := TableAfter(start, history[..n]);
      if Refused(history[n]) then t else Answer(t, history[n].call).0
  }

  /** Each turn was answered as if the calls had been made one after another. */
  ghost predicate Explained(start: Table, history: seq<Turn>) {
    forall k :: 0 <= k < |history| ==>
      Refused(history[k]) || history[k].reply == Answer(TableAfter(start, history[..k]), history[k].call).1
  }

  /** The calls of one thread, in the order of their turns. */
  function CallsOf(history: seq<Turn>, id: nat): seq<Call> {
    if history == [] then []
    else
      var n := |history| - 1;
      CallsOf(history[..n], id) + if history[n].id == id then [history[n].call] else []
  }

  /** No call comes to the tables while another is there: what the semaphore is for, and what callers must see to when
      there is none. */
  ghost predicate Serial(s: Sys, schedule: seq<Tick>)
    decreases |schedule|
  {
    schedule != [] ==>
      (Enters(s, schedule[0].id) ==> NobodyThere(s)) && Serial(After(false, s, schedule[0]), schedule[1..])
  }

  predicate Enters(s: Sys, id: nat) {
    id < |s.threads| && s.threads[id].todo != [] && s.threads[id].pc.Waiting?
  }

  ghost predicate NobodyThere(s: Sys) {
    forall k :: 0 <= k < |s.threads| ==> !s.threads[k].turn
  }

  // ----- Invariant -----

  function Holders(threads: seq<Thread>): nat {
    if threads == [] then 0 else (if threads[0].acquired then 1 else 0) + Holders(threads[1..])
  }

  predicate InCritical(pc: Pc) {
    pc.Entered? || pc.SubjectPicked? || pc.SubjectNamed? || pc.RecipientPicked? || pc.RecipientSet? || pc.Snapped?
    || pc.Collected? || pc.Reported?
  }

  predicate InUserCode(pc: Pc) {
    pc.Calling? || pc.Iterating?
  }

  predicate Answered(pc: Pc) {
    InUserCode(pc) || (pc.Cleanup? && pc.answered)
  }

  /** How far a call at the tables has got from what it found. */
  ghost predicate Progress(base: Table, t: Table, call: Call, pc: Pc) {
    && !BadCall(call)
    && match call
       case Foreach => t == base && (pc.Entered? || (pc.Collected? && pc.topics == Topics(base)))
       case Query(name) => t == base && (pc.Entered? || (pc.Reported? && pc.count == CountOf(base, name)))
       case Mutation(op) =>
         match pc
         case Entered => t == base
         case SubjectPicked(i) =>
           t == base && i < |t|
           && (if op.UnsubscribeOp? then op.name != UNNAMED && i == IndexOf(Names(t), op.name)
               else i == SubjectSlot(t, op.name))
         case SubjectNamed(i) =>
           !op.UnsubscribeOp? && i == SubjectSlot(base, op.name) < |base| && t == AddSubject(base, op.name)
         case RecipientPicked(i, j) =>
           !op.PublishOp? && i < |base| && j < |base[i].recipients|
           && (if op.SubscribeOp?
               then i == SubjectSlot(base, op.name) && j == RecipientSlot(base[i].recipients, op.self)
                    && t == AddSubject(base, op.name)
               else op.name != UNNAMED && i == IndexOf(Names(base), op.name)
                    && j == IndexOf(Selves(base[i].recipients), op.self) && t == base)
         case RecipientSet(i, j) =>
           op.SubscribeOp? && i == SubjectSlot(base, op.name) < |base|
           && j == RecipientSlot(base[i].recipients, op.self) < |base[i].recipients|
           && t == SetRecipient(AddSubject(base, op.name), i, j, Recipient(op.self, base[i].recipients[j].callback))
         case Snapped(snaps) => Answer(base, call) == (t, Calls(snaps))
         case Cleanup(err, _) => Answer(base, call) == (t, Returned(err))
         case _ => false
  }

  ghost predicate ThreadOk(s: Sys, id: nat)
    requires id < |s.threads|
  {
    var th := s.threads[id];
    && (th.turn ==> th.todo != [] && (InCritical(th.pc) || (th.pc.Cleanup? && !th.pc.answered))
                    && Progress(s.base, s.table, th.todo[0], th.pc))
    && (InCritical(th.pc) ==> th.turn)
    && (th.pc.Waiting? ==> th.todo != [] && !BadCall(th.todo[0]))
    && (th.pc.Cleanup? && !th.pc.answered && !th.turn ==>
          th.todo != [] && th.pc.err == Some(if BadCall(th.todo[0]) then BadError(th.todo[0]) else SemaphoreFailed))
    && (th.pc.Calling? ==>
          th.todo != [] && th.pc.at < |s.history| && s.history[th.pc.at] == Turn(id, th.todo[0], Calls(th.pc.snaps)))
    && (th.pc.Iterating? ==>
          th.todo != [] && th.pc.at < |s.history| && s.history[th.pc.at] == Turn(id, th.todo[0], Visits(th.pc.topics)))
  }

  /** The turns of a thread are its calls so far, each once and in the order of its program. */
  ghost predicate OrderOk(program: seq<Call>, s: Sys, id: nat)
    requires id < |s.threads|
  {
    var th := s.threads[id];
    var done := |program| - |th.todo|;
    && 0 <= done && th.todo == program[done..]
    && (if Answered(th.pc) then th.todo != [] && CallsOf(s.history, id) == program[..done + 1]
        else CallsOf(s.history, id) == program[..done])
  }

  ghost predicate SemaphoreOk(attached: bool, s: Sys) {
    && (forall k :: 0 <= k < |s.threads| ==> s.threads[k].acquired == (attached && s.threads[k].turn))
    && s.count + Holders(s.threads) == 1
  }

  ghost predicate AtMostOneThere(threads: seq<Thread>) {
    forall a, b :: 0 <= a < |threads| && 0 <= b < |threads| && threads[a].turn && threads[b].turn ==> a == b
  }

  ghost predicate Recorded(start: Table, s: Sys) {
    && s.base == TableAfter(start, s.history) && Explained(start, s.history)
    && (NobodyThere(s) ==> s.table == s.base)
    && forall k :: 0 <= k < |s.history| ==> s.history[k].id < |s.threads|
  }

  ghost predicate AllOk(programs: seq<seq<Call>>, s: Sys) {
    && |s.threads| == |programs|
    && forall id :: 0 <= id < |s.threads| ==> ThreadOk(s, id) && OrderOk(programs[id], s, id)
  }

  ghost predicate Inv(attached: bool, start: Table, programs: seq<seq<Call>>, s: Sys) {
    SemaphoreOk(attached, s) && AtMostOneThere(s.threads) && Recorded(start, s) && AllOk(programs, s)
  }

  lemma {:induction false} HoldersUpdate(threads: seq<Thread>, id: nat, th: Thread)
    requires id < |threads|
    ensures Holders(threads[id := th]) ==
            Holders(threads) - (if threads[id].acquired then 1 else 0) + (if th.acquired then 1 else 0)
    decreases |threads|
  {
    if id == 0 {
      assert threads[id := th][1..] == threads[1..];
    } else {
      assert threads[id := th][1..] == threads[1..][id - 1 := th];
      HoldersUpdate(threads[1..], id - 1, th);
    }
  }

  /** With a token there, nobody holds one. */
  lemma {:induction false} NoHolders(threads: seq<Thread>)
    ensures Holders(threads) == 0 <==> forall k :: 0 <= k < |threads| ==> !threads[k].acquired
  {
    if threads != [] {
      NoHolders(threads[1..]);
      assert forall k :: 0 < k < |threads| ==> threads[k] == threads[1..][k - 1];
      assert forall k :: 0 <= k < |threads[1..]| ==> threads[1..][k] == threads[k + 1];
    }
  }

  // ----- Every step keeps it -----

  ghost predicate OnlyThread(s: Sys, s': Sys, id: nat) {
    && |s'.threads| == |s.threads|
    && forall k :: 0 <= k < |s.threads| && k != id ==> s'.threads[k] == s.threads[k]
  }

  /** What a step of one thread means for the others. */
  lemma OthersOk(programs: seq<seq<Call>>, s: Sys, s': Sys, id: nat)
    requires AllOk(programs, s) && id < |s.threads| && OnlyThread(s, s', id)
    requires s'.history == s.history || (|s'.history| == |s.history| + 1 && s'.history[..|s.history|] == s.history
                                         && s'.history[|s.history|].id == id)
    requires (forall k :: 0 <= k < |s.threads| && k != id ==> !s.threads[k].turn)
             || (s'.table == s.table && s'.base == s.base)
    requires ThreadOk(s', id) && OrderOk(programs[id], s', id)
    ensures AllOk(programs, s')
  {
    forall k | 0 <= k < |s'.threads| ensures ThreadOk(s', k) && OrderOk(programs[k], s', k) {
      if k != id {
        assert s'.threads[k] == s.threads[k] && ThreadOk(s, k) && OrderOk(programs[k], s, k);
        assert s.history <= s'.history;
      }
    }
  }

  /** A thread that is not at the tables changes nothing but itself. */
  lemma LocalStep(attached: bool, start: Table, programs: seq<seq<Call>>, s: Sys, id: nat, th: Thread)
    requires Inv(attached, start, programs, s) && id < |s.threads|
    requires !s.threads[id].turn && !th.turn && !th.acquired
    requires ThreadOk(WithThread(s, id, th), id) && OrderOk(programs[id], WithThread(s, id, th), id)
    ensures Inv(attached, start, programs, WithThread(s, id, th))
  {
    HoldersUpdate(s.threads, id, th);
    OthersOk(programs, s, WithThread(s, id, th), id);
    assert NobodyThere(WithThread(s, id, th)) ==> NobodyThere(s);
  }

  lemma EnterStep(attached: bool, start: Table, programs: seq<seq<Call>>, s: Sys, id: nat)
    requires Inv(attached, start, programs, s) && Enters(s, id)
    requires if attached then s.count > 0 else NobodyThere(s)
    ensures Inv(attached, start, programs, Advance(attached, s, id, true))
  {
    var s' := Advance(attached, s, id, true);
    assert NobodyThere(s) by {
      NoHolders(s.threads);
    }
    assert ThreadOk(s, id) && OrderOk(programs[id], s, id);
    HoldersUpdate(s.threads, id, s'.threads[id]);
    OthersOk(programs, s, s', id);
  }

  predicate AtWork(pc: Pc) {
    InCritical(pc) && !pc.Snapped? && !pc.Collected? && !pc.Reported?
  }

  lemma SubscribeProgress(base: Table, t: Table, call: Call, pc: Pc)
    requires call.Mutation? && call.op.SubscribeOp? && AtWork(pc) && Progress(base, t, call, pc)
    ensures var (pc', t') := Work(call, pc, t);
            Progress(base, t', call, pc') && (InCritical(pc') || (pc'.Cleanup? && !pc'.answered))
  {
    if pc.RecipientSet? {
      var (i, j, op) := (pc.i, pc.j, call.op);
      var named := AddSubject(base, op.name);
      assert named[i].recipients == base[i].recipients;
      var half := base[i].recipients[j := Recipient(op.self, base[i].recipients[j].callback)];
      assert half[j := Recipient(op.self, op.callback)] == base[i].recipients[j := Recipient(op.self, op.callback)];
      assert Work(call, pc, t).1 == SetRecipient(named, i, j, Recipient(op.self, op.callback));
    }
  }

  lemma OtherProgress(base: Table, t: Table, call: Call, pc: Pc)
    requires !(call.Mutation? && call.op.SubscribeOp?) && AtWork(pc) && Progress(base, t, call, pc)
    ensures var (pc', t') := Work(call, pc, t);
            Progress(base, t', call, pc') && (InCritical(pc') || (pc'.Cleanup? && !pc'.answered))
  {
  }

  lemma HolderOk(programs: seq<seq<Call>>, s: Sys, id: nat, pc: Pc, table: Table)
    requires AllOk(programs, s) && id < |s.threads| && s.threads[id].turn && s.threads[id].todo != []
    requires InCritical(pc) || (pc.Cleanup? && !pc.answered)
    requires Progress(s.base, table, s.threads[id].todo[0], pc)
    ensures var s' := WithThread(s, id, s.threads[id].(pc := pc)).(table := table);
            ThreadOk(s', id) && OrderOk(programs[id], s', id)
  {
    assert ThreadOk(s, id) && OrderOk(programs[id], s, id);
  }

  lemma HolderMoves(attached: bool, start: Table, programs: seq<seq<Call>>, s: Sys, id: nat, pc: Pc, table: Table)
    requires Inv(attached, start, programs, s) && id < |s.threads| && s.threads[id].turn
    requires InCritical(pc) || (pc.Cleanup? && !pc.answered)
    requires s.threads[id].todo != [] && Progress(s.base, table, s.threads[id].todo[0], pc)
    ensures Inv(attached, start, programs, WithThread(s, id, s.threads[id].(pc := pc)).(table := table))
  {
    var s' := WithThread(s, id, s.threads[id].(pc := pc)).(table := table);
    HolderOk(programs, s, id, pc, table);
    HoldersUpdate(s.threads, id, s'.threads[id]);
    OthersOk(programs, s, s', id);
    assert s'.threads[id].turn;
  }

  lemma WorkStep(attached: bool, start: Table, programs: seq<seq<Call>>, s: Sys, id: nat, choice: bool)
    requires Inv(attached, start, programs, s) && id < |s.threads| && AtWork(s.threads[id].pc)
    ensures Inv(attached, start, programs, Advance(attached, s, id, choice))
  {
    assert ThreadOk(s, id);
    var th := s.threads[id];
    if th.todo[0].Mutation? && th.todo[0].op.SubscribeOp? {
      SubscribeProgress(s.base, s.table, th.todo[0], th.pc);
    } else {
      OtherProgress(s.base, s.table, th.todo[0], th.pc);
    }
    var (pc, table) := Work(th.todo[0], th.pc, s.table);
    HolderMoves(attached, start, programs, s, id, pc, table);
  }

  /** One turn more still explains the tables. */
  lemma HistoryGrows(start: Table, history: seq<Turn>, turn: Turn)
    requires Explained(start, history)
    requires Refused(turn) || turn.reply == Answer(TableAfter(start, history), turn.call).1
    ensures Explained(start, history + [turn])
    ensures TableAfter(start, history + [turn]) ==
            if Refused(turn) then TableAfter(start, history) else Answer(TableAfter(start, history), turn.call).0
  {
    var longer := history + [turn];
    assert longer[..|history|] == history;
    forall k | 0 <= k < |longer|
      ensures Refused(longer[k]) || longer[k].reply == Answer(TableAfter(start, longer[..k]), longer[k].call).1
    {
      if k < |history| {
        assert longer[k] == history[k] && longer[..k] == history[..k];
      }
    }
  }

  /** The call's turn at the tables ends: it joins the history, and the others are not affected. */
  lemma TurnEnds(attached: bool, start: Table, programs: seq<seq<Call>>, s: Sys, id: nat, reply: Reply, next: Thread)
    requires Inv(attached, start, programs, s) && id < |s.threads| && s.threads[id].turn && s.threads[id].todo != []
    requires Answer(s.base, s.threads[id].todo[0]) == (s.table, reply) && !BadCall(s.threads[id].todo[0])
    requires reply != Returned(Some(SemaphoreFailed))
    requires ThreadOk(Release(s, id, Some(reply), next), id)
    requires OrderOk(programs[id], Release(s, id, Some(reply), next), id)
    ensures Inv(attached, start, programs, Release(s, id, Some(reply), next))
  {
    var s' := Release(s, id, Some(reply), next);
    HoldersUpdate(s.threads, id, s'.threads[id]);
    HistoryGrows(start, s.history, Turn(id, s.threads[id].todo[0], reply));
    OthersOk(programs, s, s', id);
  }

  /** A call that is answered as it returns. */
  lemma OrderAfterCall(program: seq<Call>, s: Sys, s': Sys, id: nat, reply: Reply)
    requires id < |s.threads| == |s'.threads| && OrderOk(program, s, id)
    requires s.threads[id].todo != [] && !Answered(s.threads[id].pc)
    requires s'.threads[id].pc.Resting? && s'.threads[id].todo == s.threads[id].todo[1..]
    requires s'.history == s.history + [Turn(id, s.threads[id].todo[0], reply)]
    ensures OrderOk(program, s', id)
  {
    var done := |program| - |s.threads[id].todo|;
    assert s.threads[id].todo[0] == program[done];
    assert s'.history[..|s.history|] == s.history;
    assert program[..done + 1] == program[..done] + [program[done]];
  }

  /** A call that is answered and goes on to user code. */
  lemma OrderInCall(program: seq<Call>, s: Sys, s': Sys, id: nat, reply: Reply)
    requires id < |s.threads| == |s'.threads| && OrderOk(program, s, id)
    requires s.threads[id].todo != [] && !Answered(s.threads[id].pc)
    requires Answered(s'.threads[id].pc) && s'.threads[id].todo == s.threads[id].todo
    requires s'.history == s.history + [Turn(id, s.threads[id].todo[0], reply)]
    ensures OrderOk(program, s', id)
  {
    var done := |program| - |s.threads[id].todo|;
    assert s.threads[id].todo[0] == program[done];
    assert s'.history[..|s.history|] == s.history;
    assert program[..done + 1] == program[..done] + [program[done]];
  }

  /** What a release leaves of its thread. */
  lemma Released(s: Sys, id: nat, reply: Reply, next: Thread)
    requires id < |s.threads| && s.threads[id].todo != []
    ensures var s' := Release(s, id, Some(reply), next);
            && |s'.threads| == |s.threads| && s'.threads[id] == next.(acquired := false, turn := false)
            && s'.history == s.history + [Turn(id, s.threads[id].todo[0], reply)]
  {
  }

  lemma RestingIsOk(s: Sys, id: nat)
    requires id < |s.threads| && s.threads[id].pc.Resting? && !s.threads[id].turn
    ensures ThreadOk(s, id)
  {
  }

  /** What the invariant says of the thread whose turn it is. */
  lemma HolderIsOk(attached: bool, start: Table, programs: seq<seq<Call>>, s: Sys, id: nat)
    requires Inv(attached, start, programs, s) && id < |s.threads| && s.threads[id].turn
    ensures var th := s.threads[id];
            && th.todo != [] && !Answered(th.pc) && OrderOk(programs[id], s, id)
            && Progress(s.base, s.table, th.todo[0], th.pc)
  {
    assert ThreadOk(s, id);
  }

  /** The call returns as it is answered. */
  lemma CallReturns(attached: bool, start: Table, programs: seq<seq<Call>>, s: Sys, id: nat, reply: Reply)
    requires Inv(attached, start, programs, s) && id < |s.threads| && s.threads[id].turn && s.threads[id].todo != []
    requires !Answered(s.threads[id].pc) && OrderOk(programs[id], s, id)
    requires Answer(s.base, s.threads[id].todo[0]) == (s.table, reply) && !BadCall(s.threads[id].todo[0])
    requires reply != Returned(Some(SemaphoreFailed))
    ensures Inv(attached, start, programs, Release(s, id, Some(reply), Rest(s.threads[id])))
  {
    var next := Rest(s.threads[id]);
    Released(s, id, reply, next);
    OrderAfterCall(programs[id], s, Release(s, id, Some(reply), next), id, reply);
    RestingIsOk(Release(s, id, Some(reply), next), id);
    TurnEnds(attached, start, programs, s, id, reply, next);
  }

  /** The thread goes on to user code with what its call was answered. */
  lemma InUserCodeIsOk(s: Sys, id: nat, call: Call, reply: Reply, at: nat)
    requires id < |s.threads| && !s.threads[id].turn && s.threads[id].todo != [] && s.threads[id].todo[0] == call
    requires at < |s.history| && s.history[at] == Turn(id, call, reply)
    requires (reply.Calls? && s.threads[id].pc == Calling(reply.snaps, 0, at))
             || (reply.Visits? && s.threads[id].pc == Iterating(reply.topics, 0, at))
    ensures ThreadOk(s, id)
  {
  }

  lemma UserCodeBegins(attached: bool, start: Table, programs: seq<seq<Call>>, s: Sys, id: nat, reply: Reply, pc: Pc)
    requires Inv(attached, start, programs, s) && id < |s.threads| && s.threads[id].turn && s.threads[id].todo != []
    requires !Answered(s.threads[id].pc) && OrderOk(programs[id], s, id)
    requires Answer(s.base, s.threads[id].todo[0]) == (s.table, reply) && !BadCall(s.threads[id].todo[0])
    requires (reply.Calls? && pc == Calling(reply.snaps, 0, |s.history|))
             || (reply.Visits? && pc == Iterating(reply.topics, 0, |s.history|))
    ensures Inv(attached, start, programs, Release(s, id, Some(reply), s.threads[id].(pc := pc)))
  {
    var next := s.threads[id].(pc := pc);
    Released(s, id, reply, next);
    InUserCodeIsOk(Release(s, id, Some(reply), next), id, s.threads[id].todo[0], reply, |s.history|);
    OrderInCall(programs[id], s, Release(s, id, Some(reply), next), id, reply);
    TurnEnds(attached, start, programs, s, id, reply, next);
  }

  /** What a call that has done its work at the tables is answered, and how its thread goes on. */
  function ReplyOf(pc: Pc): Reply {
    match pc
    case Snapped(snaps) => Calls(snaps)
    case Collected(topics) => Visits(topics)
    case Reported(count) => Reports(count)
    case Cleanup(err, _) => Returned(err)
    case _ => Returned(None)
  }

  predicate DoneThere(pc: Pc) {
    pc.Snapped? || pc.Collected? || pc.Reported? || (pc.Cleanup? && !pc.answered)
  }

  function GoesOnTo(th: Thread, at: nat): Thread
    requires th.todo != []
  {
    match th.pc
    case Snapped(snaps) => th.(pc := Calling(snaps, 0, at))
    case Collected(topics) => th.(pc := Iterating(topics, 0, at))
    case _ => Rest(th)
  }

  lemma DoneIsRelease(attached: bool, s: Sys, id: nat, choice: bool)
    requires id < |s.threads| && s.threads[id].todo != [] && DoneThere(s.threads[id].pc)
    ensures Advance(attached, s, id, choice) ==
            Release(s, id, Some(ReplyOf(s.threads[id].pc)), GoesOnTo(s.threads[id], |s.history|))
  {
  }

  lemma DoneIsAnswer(base: Table, t: Table, call: Call, pc: Pc)
    requires Progress(base, t, call, pc) && DoneThere(pc)
    ensures Answer(base, call) == (t, ReplyOf(pc)) && !BadCall(call)
    ensures ReplyOf(pc) != Returned(Some(SemaphoreFailed))
  {
  }

  /** The end of a turn at the tables. */
  lemma DoneStep(attached: bool, start: Table, programs: seq<seq<Call>>, s: Sys, id: nat, choice: bool)
    requires Inv(attached, start, programs, s) && id < |s.threads| && s.threads[id].turn
    requires DoneThere(s.threads[id].pc)
    ensures Inv(attached, start, programs, Advance(attached, s, id, choice))
  {
    var th := s.threads[id];
    HolderIsOk(attached, start, programs, s, id);
    DoneIsAnswer(s.base, s.table, th.todo[0], th.pc);
    DoneIsRelease(attached, s, id, choice);
    if th.pc.Snapped? || th.pc.Collected? {
      UserCodeBegins(attached, start, programs, s, id, ReplyOf(th.pc), GoesOnTo(th, |s.history|).pc);
    } else {
      CallReturns(attached, start, programs, s, id, ReplyOf(th.pc));
    }
  }

  lemma RefusalIsExplained(t: Table, call: Call, err: Option<Error>, id: nat)
    requires err == Some(if BadCall(call) then BadError(call) else SemaphoreFailed)
    ensures Refused(Turn(id, call, Returned(err))) || Answer(t, call) == (t, Returned(err))
  {
  }

  /** What the invariant says of a thread whose call never came to the tables. */
  lemma RefusedIsOk(attached: bool, start: Table, programs: seq<seq<Call>>, s: Sys, id: nat)
    requires Inv(attached, start, programs, s) && id < |s.threads|
    requires var th := s.threads[id]; th.pc.Cleanup? && !th.pc.answered && !th.turn
    ensures var th := s.threads[id];
            && th.todo != [] && !th.acquired && OrderOk(programs[id], s, id)
            && th.pc.err == Some(if BadCall(th.todo[0]) then BadError(th.todo[0]) else SemaphoreFailed)
  {
    assert ThreadOk(s, id);
  }

  /** A call that never came to the tables returns. */
  lemma RefusalEnds(attached: bool, start: Table, programs: seq<seq<Call>>, s: Sys, id: nat)
    requires Inv(attached, start, programs, s) && id < |s.threads|
    requires var th := s.threads[id]; th.pc.Cleanup? && !th.pc.answered && !th.turn
    ensures Inv(attached, start, programs, Advance(attached, s, id, true))
  {
    RefusedIsOk(attached, start, programs, s, id);
    DoneIsRelease(attached, s, id, true);
    RefusalReturns(attached, start, programs, s, id, Returned(s.threads[id].pc.err));
  }

  lemma RefusalReturns(attached: bool, start: Table, programs: seq<seq<Call>>, s: Sys, id: nat, reply: Reply)
    requires Inv(attached, start, programs, s) && id < |s.threads| && s.threads[id].todo != []
    requires !s.threads[id].turn && !s.threads[id].acquired
    requires !Answered(s.threads[id].pc) && OrderOk(programs[id], s, id)
    requires var call := s.threads[id].todo[0];
             reply == Returned(Some(if BadCall(call) then BadError(call) else SemaphoreFailed))
    ensures Inv(attached, start, programs, Release(s, id, Some(reply), Rest(s.threads[id])))
  {
    var th, s' := s.threads[id], Release(s, id, Some(reply), Rest(s.threads[id]));
    Released(s, id, reply, Rest(th));
    HoldersUpdate(s.threads, id, s'.threads[id]);
    RefusalIsExplained(s.base, th.todo[0], reply.err, id);
    HistoryGrows(start, s.history, Turn(id, th.todo[0], reply));
    OrderAfterCall(programs[id], s, s', id, reply);
    RestingIsOk(s', id);
    OthersOk(programs, s, s', id);
    assert NobodyThere(s') ==> NobodyThere(s);
  }

  /** The steps of a thread that is not at the tables and does not come to them, and that is not refused. */
  function LocalNext(th: Thread, choice: bool): Thread
    requires th.todo != []
  {
    match th.pc
    case Resting => th.(pc := Start(th.todo[0]))
    case Waiting => th.(pc := Cleanup(Some(SemaphoreFailed), false))
    case Calling(snaps, done, at) =>
      th.(pc := if done >= |snaps| then Cleanup(None, true)
                else if choice then Calling(snaps, done + 1, at) else Cleanup(Some(CallbackFailed), true))
    case Iterating(topics, done, at) =>
      th.(pc := if done >= |topics| || !choice then Cleanup(None, true) else Iterating(topics, done + 1, at))
    case Cleanup(_, _) => Rest(th).(acquired := false, turn := false)
    case _ => th
  }

  lemma LocalNextOk(program: seq<Call>, s: Sys, id: nat, choice: bool)
    requires id < |s.threads| && s.threads[id].todo != [] && !s.threads[id].turn
    requires var pc := s.threads[id].pc; (pc.Waiting? ==> !choice) && (pc.Cleanup? ==> pc.answered)
    requires ThreadOk(s, id) && OrderOk(program, s, id)
    ensures var next := LocalNext(s.threads[id], choice);
            ThreadOk(WithThread(s, id, next), id) && OrderOk(program, WithThread(s, id, next), id)
  {
    if s.threads[id].pc.Cleanup? {
      AnsweredReturns(program, s, id);
    } else {
      SameCallOk(program, s, id, choice);
    }
  }

  /** A call that was answered before returns. */
  lemma AnsweredReturns(program: seq<Call>, s: Sys, id: nat)
    requires id < |s.threads| && s.threads[id].todo != [] && !s.threads[id].turn
    requires Answered(s.threads[id].pc) && OrderOk(program, s, id)
    ensures var next := Rest(s.threads[id]).(acquired := false, turn := false);
            ThreadOk(WithThread(s, id, next), id) && OrderOk(program, WithThread(s, id, next), id)
  {
    RestingIsOk(WithThread(s, id, Rest(s.threads[id]).(acquired := false, turn := false)), id);
  }

  lemma SameCallOk(program: seq<Call>, s: Sys, id: nat, choice: bool)
    requires id < |s.threads| && s.threads[id].todo != [] && !s.threads[id].turn && !s.threads[id].pc.Cleanup?
    requires s.threads[id].pc.Waiting? ==> !choice
    requires ThreadOk(s, id) && OrderOk(program, s, id)
    ensures var next := LocalNext(s.threads[id], choice);
            ThreadOk(WithThread(s, id, next), id) && OrderOk(program, WithThread(s, id, next), id)
  {
    SamePlace(s.threads[id], choice);
  }

  lemma SamePlace(th: Thread, choice: bool)
    requires th.todo != [] && !InCritical(th.pc) && !th.pc.Cleanup?
    ensures var next := LocalNext(th, choice);
            && next.todo == th.todo && next.turn == th.turn && Answered(next.pc) == Answered(th.pc)
            && !InCritical(next.pc)
  {
  }

  lemma LocalAdvance(attached: bool, start: Table, programs: seq<seq<Call>>, s: Sys, id: nat, choice: bool)
    requires Inv(attached, start, programs, s) && id < |s.threads| && s.threads[id].todo != [] && !s.threads[id].turn
    requires var pc := s.threads[id].pc;
             (pc.Waiting? ==> attached && !choice) && (pc.Cleanup? ==> pc.answered)
    ensures Inv(attached, start, programs, Advance(attached, s, id, choice))
  {
    assert ThreadOk(s, id) && OrderOk(programs[id], s, id);
    LocalNextOk(programs[id], s, id, choice);
    AdvanceIsLocal(attached, s, id, choice);
    LocalStep(attached, start, programs, s, id, LocalNext(s.threads[id], choice));
  }

  lemma AdvanceIsLocal(attached: bool, s: Sys, id: nat, choice: bool)
    requires id < |s.threads|
    requires var th := s.threads[id];
             && th.todo != [] && !th.turn && !th.acquired && !InCritical(th.pc)
             && (th.pc.Waiting? ==> attached && !choice) && (th.pc.Cleanup? ==> th.pc.answered)
    ensures Advance(attached, s, id, choice) == WithThread(s, id, LocalNext(s.threads[id], choice))
  {
  }

  lemma AdvanceInv(attached: bool, start: Table, programs: seq<seq<Call>>, s: Sys, id: nat, choice: bool)
    requires Inv(attached, start, programs, s) && id < |s.threads|
    requires attached || (Enters(s, id) ==> NobodyThere(s))
    ensures Inv(attached, start, programs, Advance(attached, s, id, choice))
  {
    var th := s.threads[id];
    assert ThreadOk(s, id);
    if th.todo != [] {
      if th.pc.Waiting? && (choice || !attached) {
        if !attached || s.count > 0 {
          EnterStep(attached, start, programs, s, id);
        }
      } else if th.turn && DoneThere(th.pc) {
        DoneStep(attached, start, programs, s, id, choice);
      } else if InCritical(th.pc) {
        WorkStep(attached, start, programs, s, id, choice);
      } else if th.pc.Cleanup? && !th.pc.answered {
        RefusalEnds(attached, start, programs, s, id);
      } else {
        LocalAdvance(attached, start, programs, s, id, choice);
      }
    }
  }

  lemma {:induction false} ExecuteInv(attached: bool, start: Table, programs: seq<seq<Call>>, s: Sys, schedule: seq<Tick>)
    requires Inv(attached, start, programs, s) && (attached || Serial(s, schedule))
    ensures Inv(attached, start, programs, Execute(attached, s, schedule))
    decreases |schedule|
  {
    if schedule != [] {
      var tick := schedule[0];
      if tick.id < |s.threads| {
        AdvanceInv(attached, start, programs, s, tick.id, tick.choice);
      }
      ExecuteInv(attached, start, programs, After(attached, s, tick), schedule[1..]);
    }
  }

  lemma LaunchInv(attached: bool, start: Table, programs: seq<seq<Call>>)
    ensures Inv(attached, start, programs, Launch(start, programs))
  {
    var s := Launch(start, programs);
    NoHolders(s.threads);
    forall id | 0 <= id < |s.threads| ensures ThreadOk(s, id) && OrderOk(programs[id], s, id) {
    }
  }

  // ----- What it means -----

  /** In every interleaving the semaphore's count and its holders make one, so at most one call is at the tables, and
      none that is in a user callback holds the semaphore. */
  lemma MutualExclusion(start: Table, programs: seq<seq<Call>>, schedule: seq<Tick>, a: nat, b: nat)
    requires a < |programs| && b < |programs|
    ensures var s := Execute(true, Launch(start, programs), schedule);
            && |s.threads| == |programs|
            && s.count + Holders(s.threads) == 1
            && (InCritical(s.threads[a].pc) && InCritical(s.threads[b].pc) ==> a == b)
            && (InUserCode(s.threads[a].pc) ==> !s.threads[a].acquired)
  {
    LaunchInv(true, start, programs);
    ExecuteInv(true, start, programs, Launch(start, programs), schedule);
    AloneThere(start, programs, Execute(true, Launch(start, programs), schedule), a, b);
  }

  lemma AloneThere(start: Table, programs: seq<seq<Call>>, s: Sys, a: nat, b: nat)
    requires Inv(true, start, programs, s) && a < |programs| && b < |programs|
    ensures InCritical(s.threads[a].pc) && InCritical(s.threads[b].pc) ==> a == b
    ensures InUserCode(s.threads[a].pc) ==> !s.threads[a].acquired
  {
    assert ThreadOk(s, a) && ThreadOk(s, b);
  }

  /** Only the holder changes the tables. */
  lemma OnlyHolderWrites(start: Table, programs: seq<seq<Call>>, schedule: seq<Tick>, tick: Tick)
    requires tick.id < |programs|
    ensures var s := Execute(true, Launch(start, programs), schedule);
            |s.threads| == |programs|
            && (Advance(true, s, tick.id, tick.choice).table != s.table ==> s.threads[tick.id].acquired)
  {
    LaunchInv(true, start, programs);
    ExecuteInv(true, start, programs, Launch(start, programs), schedule);
    assert ThreadOk(Execute(true, Launch(start, programs), schedule), tick.id);
  }

  /** The history is a linear order of the calls: it holds the calls that each thread has been answered, each once and in
      the order of its program; each was answered as if they had all been made one after another, unless the semaphore
      refused it; when nobody is at the tables they are what that leaves; and a thread in user code is called with, or
      visits, what its own turn found. */
  ghost predicate Linear(attached: bool, start: Table, programs: seq<seq<Call>>, s: Sys) {
    && |s.threads| == |programs|
    && Explained(start, s.history) && (!attached ==> forall k :: 0 <= k < |s.history| ==> !Refused(s.history[k]))
    && (NobodyThere(s) ==> s.table == TableAfter(start, s.history))
    && (forall k :: 0 <= k < |s.history| ==> s.history[k].id < |programs|)
    && forall id :: 0 <= id < |s.threads| ==> OrderOk(programs[id], s, id) && UserCodeOk(s, id)
  }

  ghost predicate UserCodeOk(s: Sys, id: nat)
    requires id < |s.threads|
  {
    var th := s.threads[id];
    && (th.pc.Calling? ==>
          th.todo != [] && th.pc.at < |s.history| && s.history[th.pc.at] == Turn(id, th.todo[0], Calls(th.pc.snaps)))
    && (th.pc.Iterating? ==>
          th.todo != [] && th.pc.at < |s.history| && s.history[th.pc.at] == Turn(id, th.todo[0], Visits(th.pc.topics)))
  }

  /** Linearizability, with the semaphore in every interleaving. */
  lemma Linearizable(start: Table, programs: seq<seq<Call>>, schedule: seq<Tick>)
    ensures Linear(true, start, programs, Execute(true, Launch(start, programs), schedule))
  {
    LaunchInv(true, start, programs);
    ExecuteInv(true, start, programs, Launch(start, programs), schedule);
    var s := Execute(true, Launch(start, programs), schedule);
    forall id | 0 <= id < |s.threads| ensures OrderOk(programs[id], s, id) && UserCodeOk(s, id) {
      assert ThreadOk(s, id);
    }
  }
}
