/** What the calls that threads make on a manifold come to: what a query reports, and which callbacks are made behind a
    snapshot, in any interleaving. */
module ManifoldCalls {
  import opened Bytes
  import opened Slots
  import opened ManifoldSpec
  import opened ManifoldTheorems
  import opened ManifoldThreads

  /** Of good tables a query reports the number of recipients that the map has, and nothing of an absent subject. */
  lemma CountAgrees(t: Table, name: Name)
    requires Good(t)
    ensures CountOf(t, name) == if name in RoutesOf(t) then Some(|RoutesOf(t)[name]|) else None
  {
    if name != UNNAMED {
      QueriesAgree(t, name);
    }
  }

  // ----- Callbacks -----

  /** What the schedule answers the steps of one thread. */
  function Choices(schedule: seq<Tick>, id: nat): seq<bool> {
    if schedule == [] then []
    else (if schedule[0].id == id then [schedule[0].choice] else []) + Choices(schedule[1..], id)
  }

  /** All of these answers, or all but the last, are yes. */
  predicate AllYes(choices: seq<bool>) {
    false !in choices
  }

  predicate NoAtLast(choices: seq<bool>) {
    choices != [] && !choices[|choices| - 1] && AllYes(choices[..|choices| - 1])
  }

  predicate YesBeforeLast(choices: seq<bool>) {
    choices != [] && AllYes(choices[..|choices| - 1])
  }

  lemma OneMoves(attached: bool, s: Sys, id: nat, choice: bool)
    requires id < |s.threads|
    ensures |Advance(attached, s, id, choice).threads| == |s.threads|
    ensures forall k :: 0 <= k < |s.threads| && k != id ==> Advance(attached, s, id, choice).threads[k] == s.threads[k]
  {
  }

  lemma OthersStay(attached: bool, s: Sys, tick: Tick, id: nat)
    requires id < |s.threads| && tick.id != id
    ensures |After(attached, s, tick).threads| == |s.threads| && After(attached, s, tick).threads[id] == s.threads[id]
  {
    if tick.id < |s.threads| {
      OneMoves(attached, s, tick.id, tick.choice);
    }
  }

  lemma {:induction false} ThreadsStay(attached: bool, s: Sys, schedule: seq<Tick>)
    ensures |Execute(attached, s, schedule).threads| == |s.threads|
    decreases |schedule|
  {
    if schedule != [] {
      ThreadsStay(attached, After(attached, s, schedule[0]), schedule[1..]);
    }
  }

  lemma {:induction false} StaysPut(attached: bool, s: Sys, schedule: seq<Tick>, id: nat)
    requires id < |s.threads| && Choices(schedule, id) == []
    ensures id < |Execute(attached, s, schedule).threads|
    ensures Execute(attached, s, schedule).threads[id] == s.threads[id]
    decreases |schedule|
  {
    if schedule != [] {
      OthersStay(attached, s, schedule[0], id);
      StaysPut(attached, After(attached, s, schedule[0]), schedule[1..], id);
    }
  }

  lemma RestOfChoices(first: bool, rest: seq<bool>)
    ensures AllYes([first] + rest) <==> first && AllYes(rest)
    ensures NoAtLast([first] + rest) <==> if rest == [] then !first else first && NoAtLast(rest)
    ensures rest != [] ==> (YesBeforeLast([first] + rest) <==> first && YesBeforeLast(rest))
  {
    if rest != [] {
      assert ([first] + rest)[..|rest|] == [first] + rest[..|rest| - 1];
    }
  }

  /** How many callbacks there are to make behind this reply, where the thread is when so many have been made, and the
      error of one that says no, which to a visitor is none. */
  function Size(reply: Reply): nat {
    match reply
    case Calls(snaps) => |snaps|
    case Visits(topics) => |topics|
    case _ => 0
  }

  function PcAt(reply: Reply, done: nat, at: nat): Pc {
    match reply
    case Calls(snaps) => Calling(snaps, done, at)
    case Visits(topics) => Iterating(topics, done, at)
    case _ => Resting
  }

  function ErrorOfNo(reply: Reply): Option<Error> {
    if reply.Calls? then Some(CallbackFailed) else None
  }

  /** The thread goes on from where `done` callbacks have been made, and the schedule gives these answers to its steps. */
  ghost predicate CallsOn(thread: Thread, choices: seq<bool>, reply: Reply, done: nat, at: nat) {
    && (AllYes(choices) && done + |choices| <= Size(reply) ==> thread.pc == PcAt(reply, done + |choices|, at))
    && (NoAtLast(choices) && done + |choices| <= Size(reply) ==> thread.pc == Cleanup(ErrorOfNo(reply), true))
    && (YesBeforeLast(choices) && done + |choices| == Size(reply) + 1 ==> thread.pc == Cleanup(None, true))
  }

  lemma CallMade(thread: Thread, rest: seq<bool>, reply: Reply, done: nat, at: nat)
    requires done < Size(reply) && CallsOn(thread, rest, reply, done + 1, at)
    ensures CallsOn(thread, [true] + rest, reply, done, at)
  {
    RestOfChoices(true, rest);
  }

  /** Where the calls end, and nothing is said of later steps. */
  lemma CallsEnd(thread: Thread, last: bool, rest: seq<bool>, reply: Reply, done: nat, at: nat)
    requires done == Size(reply) || (done < Size(reply) && !last)
    requires rest == [] ==> thread.pc == Cleanup(if done == Size(reply) then None else ErrorOfNo(reply), true)
    ensures CallsOn(thread, [last] + rest, reply, done, at)
  {
    RestOfChoices(last, rest);
  }

  lemma CallStep(attached: bool, s: Sys, tick: Tick, reply: Reply, done: nat, at: nat)
    requires tick.id < |s.threads| && s.threads[tick.id].todo != [] && (reply.Calls? || reply.Visits?)
    requires s.threads[tick.id].pc == PcAt(reply, done, at) && done <= Size(reply)
    ensures |After(attached, s, tick).threads| == |s.threads|
    ensures After(attached, s, tick).threads[tick.id] ==
            s.threads[tick.id].(pc := if done == Size(reply) then Cleanup(None, true)
                                      else if tick.choice then PcAt(reply, done + 1, at)
                                      else Cleanup(ErrorOfNo(reply), true))
  {
  }

  /** The recipients of a snapshot are called, and its topics visited, one after another, each once: after so many steps
      that many more have been, the first that says no ends them, for a recipient with its error, and behind the
      last there is none. */
  lemma {:induction false} CallsEach(attached: bool, s: Sys, schedule: seq<Tick>, id: nat, reply: Reply, done: nat,
                                     at: nat)
    requires id < |s.threads| && s.threads[id].todo != [] && (reply.Calls? || reply.Visits?)
    requires s.threads[id].pc == PcAt(reply, done, at) && done <= Size(reply)
    ensures id < |Execute(attached, s, schedule).threads|
    ensures CallsOn(Execute(attached, s, schedule).threads[id], Choices(schedule, id), reply, done, at)
    decreases |schedule|
  {
    ThreadsStay(attached, s, schedule);
    if schedule != [] {
      var tick, rest := schedule[0], schedule[1..];
      var s1 := After(attached, s, tick);
      var choices := Choices(rest, id);
      if tick.id != id {
        assert Choices(schedule, id) == choices;
        OthersStay(attached, s, tick, id);
        CallsEach(attached, s1, rest, id, reply, done, at);
      } else {
        CallStep(attached, s, tick, reply, done, at);
        var end := Execute(attached, s1, rest).threads[id];
        if done < Size(reply) && tick.choice {
          CallsEach(attached, s1, rest, id, reply, done + 1, at);
          CallMade(end, choices, reply, done, at);
        } else {
          if choices == [] {
            StaysPut(attached, s1, rest, id);
          }
          CallsEnd(end, tick.choice, choices, reply, done, at);
        }
      }
    }
  }
}
