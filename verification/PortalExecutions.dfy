/** An execution of several threads on the portal's manifold, of which one is the receiver, is a run of PortalSystem, as
    long as no call comes to the tables while another is there. */
module PortalExecutions {
  import opened Bytes
  import opened FramerSpec
  import opened FramerTheorems
  import R = ManifoldSpec
  import opened ManifoldThreads
  import opened ManifoldRaces
  import opened Portal
  import P = PortalSystem
  import opened PortalRuns
  import opened PortalThreads

  // ----- A history, turn after turn of one thread -----

  /** Where the thread's next turn is, from `at` on. */
  function NextTurn(history: seq<Turn>, id: nat, at: nat): (i: nat)
    requires at <= |history|
    ensures at <= i <= |history| && (i < |history| ==> history[i].id == id)
    ensures forall k :: at <= k < i ==> history[k].id != id
    decreases |history| - at
  {
    if at == |history| || history[at].id == id then at else NextTurn(history, id, at + 1)
  }

  /** Its turns, the first of which is at `at`. */
  function TurnsFrom(history: seq<Turn>, id: nat, at: nat): seq<Turn>
    requires at <= |history|
    decreases |history| - at
  {
    if at == |history| then [] else [history[at]] + TurnsFrom(history, id, NextTurn(history, id, at + 1))
  }

  function TurnsOf(history: seq<Turn>, id: nat): seq<Turn> {
    TurnsFrom(history, id, NextTurn(history, id, 0))
  }

  /** What happens behind each of them: the calls of others up to the next. */
  function FatesFrom(history: seq<Turn>, id: nat, at: nat, failAt: nat -> Option<nat>, from: nat): (fates: seq<P.Fate>)
    requires at <= |history|
    ensures |fates| == |TurnsFrom(history, id, at)|
    decreases |history| - at
  {
    if at == |history| then []
    else
      var next := NextTurn(history, id, at + 1);
      [P.Fate(failAt(from), OpsOf(history[at + 1..next]))] + FatesFrom(history, id, next, failAt, from + 1)
  }

  lemma {:induction false} CallsUntil(history: seq<Turn>, id: nat, a: nat, b: nat)
    requires a <= b <= |history| && forall k :: a <= k < b ==> history[k].id != id
    ensures CallsOf(history[..b], id) == CallsOf(history[..a], id)
    decreases b
  {
    if a < b {
      assert history[..b][..b - 1] == history[..b - 1];
      CallsUntil(history, id, a, b - 1);
    }
  }

  /** The calls of a thread are those of its turns. */
  lemma {:induction false} CallsAreOfTurns(history: seq<Turn>, id: nat, at: nat)
    requires at <= |history| && (at < |history| ==> history[at].id == id)
    ensures CallsOf(history, id) == CallsOf(history[..at], id) + CallsIn(TurnsFrom(history, id, at))
    decreases |history| - at
  {
    if at == |history| {
      assert history[..at] == history;
      assert CallsOf(history, id) + [] == CallsOf(history, id);
    } else {
      var next := NextTurn(history, id, at + 1);
      CallsUntilNext(history, id, at);
      CallsAreOfTurns(history, id, next);
      CallsOneMore(CallsOf(history[..at], id), history[at], TurnsFrom(history, id, next));
    }
  }

  lemma CallsUntilNext(history: seq<Turn>, id: nat, at: nat)
    requires at < |history| && history[at].id == id
    ensures CallsOf(history[..NextTurn(history, id, at + 1)], id) == CallsOf(history[..at], id) + [history[at].call]
  {
    CallsUntil(history, id, at + 1, NextTurn(history, id, at + 1));
    assert history[..at + 1][..at] == history[..at];
  }

  lemma CallsOneMore(before: seq<Call>, turn: Turn, turns: seq<Turn>)
    ensures before + [turn.call] + CallsIn(turns) == before + CallsIn([turn] + turns)
  {
    assert ([turn] + turns)[1..] == turns;
  }

  function CallsIn(turns: seq<Turn>): (calls: seq<Call>)
    ensures |calls| == |turns| && forall k :: 0 <= k < |turns| ==> calls[k] == turns[k].call
  {
    if turns == [] then [] else [turns[0].call] + CallsIn(turns[1..])
  }

  // ----- The receiver's turns are fan-outs -----

  /** Each turn publishes on the message's topic. */
  ghost predicate Publishes(turns: seq<Turn>, ms: seq<Message>) {
    |turns| == |ms| && forall k :: 0 <= k < |ms| ==> turns[k].call == Mutation(R.PublishOp(ms[k].topic))
  }

  /** The calls that these turns make, each on what it found. */
  function CallsMade(turns: seq<Turn>, ms: seq<Message>, failAt: nat -> Option<nat>, from: nat): seq<P.Call>
    requires |turns| == |ms|
  {
    if turns == [] then []
    else CallsOn(turns[0].reply, ms[0], failAt(from)) + CallsMade(turns[1..], ms[1..], failAt, from + 1)
  }

  /** Each turn was answered as if the calls had been made one after another, and none was refused. */
  ghost predicate Sequential(start: R.Table, history: seq<Turn>) {
    Explained(start, history) && forall k :: 0 <= k < |history| ==> !ManifoldThreads.Refused(history[k])
  }

  ghost predicate FannedAsMade(f: P.FannedAll, t: R.Table, turns: seq<Turn>, ms: seq<Message>, failAt: nat -> Option<nat>,
                               from: nat)
    requires |turns| == |ms|
  {
    && f.table == t && f.calls == CallsMade(turns, ms, failAt, from)
    && |f.oks| == |ms| && forall k :: 0 <= k < |ms| ==> f.oks[k] == Succeeds(turns[k].reply, failAt(from + k))
  }

  ghost predicate FatesAre(fates: nat -> P.Fate, from: nat, list: seq<P.Fate>) {
    forall k :: 0 <= k < |list| ==> fates(from + k) == list[k]
  }

  /** One turn at `at`, and the turns of others behind it. */
  lemma OneTurn(start: R.Table, history: seq<Turn>, at: nat, next: nat, m: Message, failAt: Option<nat>)
    returns (f: P.Fanned)
    requires Sequential(start, history) && at < next <= |history|
    requires history[at].call == Mutation(R.PublishOp(m.topic))
    ensures f == P.FanOut(TableAfter(start, history[..at]), m, P.Fate(failAt, OpsOf(history[at + 1..next])))
    ensures f.table == TableAfter(start, history[..next])
    ensures f.ok == Succeeds(history[at].reply, failAt) && f.calls == CallsOn(history[at].reply, m, failAt)
  {
    assert history[..at] + [history[at]] + history[at + 1..next] == history[..next];
    f := TurnIsFanOut(start, history[..at], history[at], history[at + 1..next], m, failAt);
  }

  lemma FannedNext(first: P.Fanned, rest: P.FannedAll, t: R.Table, turn: Turn, turns: seq<Turn>, m: Message,
                   ms: seq<Message>, failAt: nat -> Option<nat>, from: nat)
    requires first.ok == Succeeds(turn.reply, failAt(from)) && first.calls == CallsOn(turn.reply, m, failAt(from))
    requires |turns| == |ms| && FannedAsMade(rest, t, turns, ms, failAt, from + 1)
    ensures FannedAsMade(P.FannedAll(rest.table, first.calls + rest.calls, [first.ok] + rest.oks), t, [turn] + turns,
                         [m] + ms, failAt, from)
  {
    assert ([turn] + turns)[1..] == turns && ([m] + ms)[1..] == ms;
    var oks := [first.ok] + rest.oks;
    forall k | 0 <= k < |oks| ensures oks[k] == Succeeds(([turn] + turns)[k].reply, failAt(from + k)) {
      assert k > 0 ==> oks[k] == rest.oks[k - 1] && from + k == from + 1 + (k - 1);
    }
  }

  /** All the receiver's turns, and the turns of others in between, are the fan-outs of its messages. */
  lemma {:induction false} TurnsAreFanOuts(start: R.Table, history: seq<Turn>, id: nat, at: nat, ms: seq<Message>,
                                           failAt: nat -> Option<nat>, fates: nat -> P.Fate, from: nat)
    requires Sequential(start, history) && at <= |history|
    requires Publishes(TurnsFrom(history, id, at), ms)
    requires FatesAre(fates, from, FatesFrom(history, id, at, failAt, from))
    ensures FannedAsMade(P.FanOutAll(TableAfter(start, history[..at]), ms, fates, from), TableAfter(start, history),
                         TurnsFrom(history, id, at), ms, failAt, from)
    decreases |history| - at
  {
    if at == |history| {
      assert history[..at] == history;
    } else {
      var next := NextTurn(history, id, at + 1);
      var turns, list := TurnsFrom(history, id, next), FatesFrom(history, id, next, failAt, from + 1);
      var fate := P.Fate(failAt(from), OpsOf(history[at + 1..next]));
      TailOfTurns(history[at], turns, ms);
      TailOfFates(fates, from, fate, list);
      var first := OneTurn(start, history, at, next, ms[0], failAt(from));
      TurnsAreFanOuts(start, history, id, next, ms[1..], failAt, fates, from + 1);
      FannedNext(first, P.FanOutAll(TableAfter(start, history[..next]), ms[1..], fates, from + 1),
                 TableAfter(start, history), history[at], turns, ms[0], ms[1..], failAt, from);
      assert ms == [ms[0]] + ms[1..];
    }
  }

  lemma TailOfTurns(turn: Turn, turns: seq<Turn>, ms: seq<Message>)
    requires Publishes([turn] + turns, ms)
    ensures ms != [] && turn.call == Mutation(R.PublishOp(ms[0].topic)) && Publishes(turns, ms[1..])
  {
    assert ([turn] + turns)[0] == turn;
    assert forall k :: 0 <= k < |turns| ==> turns[k] == ([turn] + turns)[k + 1];
  }

  lemma TailOfFates(fates: nat -> P.Fate, from: nat, fate: P.Fate, list: seq<P.Fate>)
    requires FatesAre(fates, from, [fate] + list)
    ensures fates(from) == fate && FatesAre(fates, from + 1, list)
  {
    assert ([fate] + list)[0] == fate;
    forall k | 0 <= k < |list| ensures fates(from + 1 + k) == list[k] {
      assert list[k] == ([fate] + list)[k + 1] && from + (k + 1) == from + 1 + k;
    }
  }

  // ----- The turns of others before the receiver's first -----

  function Routes(ops: seq<R.Op>): (events: seq<P.Event>)
    ensures |events| == |ops|
  {
    if ops == [] then [] else [P.Route(ops[0])] + Routes(ops[1..])
  }

  lemma {:induction false} RoutesLead(env: P.Env, s: P.Sys, ops: seq<R.Op>)
    ensures Leads(env, s, Routes(ops), s.(table := R.ApplyAll(s.table, ops)))
    decreases |ops|
  {
    if ops != [] {
      var mid := s.(table := R.Apply(s.table, ops[0]).table);
      RoutesLead(env, mid, ops[1..]);
      assert P.Next(env, s, P.Route(ops[0]), mid);
      LeadsFirst(env, s, P.Route(ops[0]), mid, Routes(ops[1..]), s.(table := R.ApplyAll(s.table, ops)));
    }
  }

  // ----- The execution -----

  function PublishesOf(ms: seq<Message>): (program: seq<Call>)
    ensures |program| == |ms|
    ensures forall k :: 0 <= k < |ms| ==> program[k] == Mutation(R.PublishOp(ms[k].topic))
  {
    seq(|ms|, k requires 0 <= k < |ms| => Mutation(R.PublishOp(ms[k].topic)))
  }

  function ListedFates(from: nat, list: seq<P.Fate>): nat -> P.Fate {
    (k: nat) => if from <= k < from + |list| then list[k - from] else P.Fate(None, [])
  }

  /** A thread that has ended its program has had a turn for each call of it. */
  lemma EndedTurns(start: R.Table, programs: seq<seq<Call>>, e: Sys, id: nat, ms: seq<Message>)
    requires Linear(false, start, programs, e) && id < |programs| && e.threads[id].todo == []
    requires programs[id] == PublishesOf(ms)
    ensures Sequential(start, e.history) && Publishes(TurnsOf(e.history, id), ms)
  {
    var first := NextTurn(e.history, id, 0);
    assert OrderOk(programs[id], e, id);
    assert programs[id][..|programs[id]|] == programs[id];
    CallsUntil(e.history, id, 0, first);
    CallsAreOfTurns(e.history, id, first);
    assert [] + CallsIn(TurnsOf(e.history, id)) == CallsIn(TurnsOf(e.history, id));
  }

  /** The decoder's answers are those of the receiver's turns. */
  ghost predicate AnsweredAs(accepts: nat -> bool, from: nat, turns: seq<Turn>, failAt: nat -> Option<nat>) {
    forall k :: 0 <= k < |turns| ==> accepts(from + k) == Succeeds(turns[k].reply, failAt(from + k))
  }

  lemma GivenAsAnswered(accepts: nat -> bool, from: nat, f: P.FannedAll, t: R.Table, turns: seq<Turn>,
                        ms: seq<Message>, failAt: nat -> Option<nat>)
    requires |turns| == |ms| && FannedAsMade(f, t, turns, ms, failAt, from)
    requires AnsweredAs(accepts, from, turns, failAt)
    ensures P.Gives(accepts, from, f.oks)
  {
  }

  /** The drains of all the chunks from the state in which the receiver has its first turn. */
  lemma DrainsAsExecuted(env: P.Env, s: P.Sys, start: R.Table, history: seq<Turn>, id: nat, chunks: seq<seq<byte>>,
                         rest: seq<byte>, failAt: nat -> Option<nat>)
    returns (s': P.Sys)
    requires s.alive && s.decoder.Valid(env.cfg) && s.wire == Flatten(chunks) + rest
    requires forall k :: 0 <= k < |chunks| ==> 0 < |chunks[k]| <= P.RAW_INPUT_SIZE
    requires OnlyLastFails(env.cfg, Callback(env.accepts), s.decoder, chunks)
    requires Sequential(start, history) && Publishes(TurnsOf(history, id), HandedBy(env, s.decoder, chunks))
    requires s.table == TableAfter(start, history[..NextTurn(history, id, 0)])
    requires FatesAre(env.fates, |s.decoder.log|,
                      FatesFrom(history, id, NextTurn(history, id, 0), failAt, |s.decoder.log|))
    requires AnsweredAs(env.accepts, |s.decoder.log|, TurnsOf(history, id), failAt)
    ensures Leads(env, s, Drains(chunks), s') && s' == DrainedAll(env, s, chunks, rest)
    ensures s'.table == TableAfter(start, history)
    ensures s'.calls ==
            s.calls + CallsMade(TurnsOf(history, id), HandedBy(env, s.decoder, chunks), failAt, |s.decoder.log|)
  {
    var ms, from := HandedBy(env, s.decoder, chunks), |s.decoder.log|;
    TurnsAreFanOuts(start, history, id, NextTurn(history, id, 0), ms, failAt, env.fates, from);
    var f := FannedBy(env, s.decoder, s.table, chunks);
    GivenAsAnswered(env.accepts, from, f, TableAfter(start, history), TurnsOf(history, id), ms, failAt);
    AgreeOnAll(env, s.decoder, s.table, chunks);
    DrainIsARun(env, s, chunks, rest);
    s' := DrainedAll(env, s, chunks, rest);
  }

  /** An execution without a semaphore in which no call comes to the tables while another is there, and in which the
      program of one thread, the receiver, is to publish the messages that its decoder hands over: the calls that others
      make before the receiver's first, then the drains of the chunks, are a run of PortalSystem from any state, which
      leaves the tables of the execution and makes the calls of the receiver's snapshots, whichever callbacks fail. */
  lemma SerialExecutionIsARun(env: P.Env, s: P.Sys, chunks: seq<seq<byte>>, rest: seq<byte>,
                              programs: seq<seq<Call>>, schedule: seq<Tick>, id: nat, failAt: nat -> Option<nat>)
    returns (fates: nat -> P.Fate, events: seq<P.Event>, s': P.Sys, e: Sys)
    requires s.alive && s.decoder.Valid(env.cfg) && s.wire == Flatten(chunks) + rest
    requires forall k :: 0 <= k < |chunks| ==> 0 < |chunks[k]| <= P.RAW_INPUT_SIZE
    requires OnlyLastFails(env.cfg, Callback(env.accepts), s.decoder, chunks)
    requires Serial(Launch(s.table, programs), schedule) && id < |programs|
    requires programs[id] == PublishesOf(HandedBy(env, s.decoder, chunks))
    requires var h := Execute(false, Launch(s.table, programs), schedule);
             && id < |h.threads| && h.threads[id].todo == []
             && AnsweredAs(env.accepts, |s.decoder.log|, TurnsOf(h.history, id), failAt)
    ensures e == Execute(false, Launch(s.table, programs), schedule)
    ensures |TurnsOf(e.history, id)| == |HandedBy(env, s.decoder, chunks)|
    ensures events == Routes(OpsOf(e.history[..NextTurn(e.history, id, 0)])) + Drains(chunks)
    ensures Leads(env.(fates := fates), s, events, s')
    ensures NobodyThere(e) ==> s'.table == e.table
    ensures s'.calls ==
            s.calls + CallsMade(TurnsOf(e.history, id), HandedBy(env, s.decoder, chunks), failAt, |s.decoder.log|)
    ensures s'.decoder == RunChunks(env.cfg, Callback(env.accepts), s.decoder, chunks).state && s'.wire == rest
  {
    e := Execute(false, Launch(s.table, programs), schedule);
    SerialIsLinear(s.table, programs, schedule);
    EndedTurns(s.table, programs, e, id, HandedBy(env, s.decoder, chunks));
    var first, from := NextTurn(e.history, id, 0), |s.decoder.log|;
    fates := ListedFates(from, FatesFrom(e.history, id, first, failAt, from));
    var env', ops := env.(fates := fates), OpsOf(e.history[..first]);
    var mid := s.(table := R.ApplyAll(s.table, ops));
    RoutesLead(env', s, ops);
    TurnsAreCalls(s.table, e.history[..first]);
    s' := DrainsAsExecuted(env', mid, s.table, e.history, id, chunks, rest, failAt);
    LeadsOn(env', s, Routes(ops), mid, Drains(chunks), s');
    events := Routes(ops) + Drains(chunks);
  }
}
