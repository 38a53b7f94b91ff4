/** dtdebouncer.c over real, unbounded time, of which the code sees 32 bits. */
module Debouncer {

  import opened Clock

  /** A raw sample, and when it was really taken. */
  datatype Sample = Sample(time: nat, raw: bool)

  /** The debouncer with counters that do not wrap; the candidate's time is what the code stores. */
  datatype State = State(
    stable: bool,
    candidate: bool,
    candidateTime: uint32,
    rawEdges: nat,
    edges: nat,
    rises: nat,
    falls: nat,
    calls: seq<bool>)

  function Init(first: Sample): State {
    State(first.raw, first.raw, Low(first.time), 0, 0, 0, 0, [])
  }

  function Update(debounce: nat, s: State, sample: Sample): State {
    var now := Low(sample.time);
    if sample.raw != s.candidate then
      s.(candidate := sample.raw, candidateTime := now, rawEdges := s.rawEdges + 1)
    else if s.candidate != s.stable && Elapsed(now, s.candidateTime) >= debounce then
      s.(stable := s.candidate, edges := s.edges + 1,
         rises := s.rises + (if s.candidate then 1 else 0), falls := s.falls + (if s.candidate then 0 else 1),
         calls := s.calls + [s.candidate])
    else s
  }

  /** The state after a history of samples, the first of which stands for the initial state at the time of init. */
  function After(debounce: nat, h: seq<Sample>): State
    requires h != []
    decreases |h|
  {
    var n := |h| - 1;
    if n == 0 then Init(h[0]) else Update(debounce, After(debounce, h[..n]), h[n])
  }

  ghost predicate InOrder(h: seq<Sample>) {
    forall i, j :: 0 <= i < j < |h| ==> h[i].time <= h[j].time
  }

  /** Where the unbroken run of equal samples that ends the history begins. */
  function RunStart(h: seq<Sample>): (start: nat)
    requires h != []
    ensures start < |h|
    ensures forall i :: start <= i < |h| ==> h[i].raw == h[|h| - 1].raw
    ensures start > 0 ==> h[start - 1].raw != h[|h| - 1].raw
    decreases |h|
  {
    var n := |h| - 1;
    if n == 0 || h[n - 1].raw != h[n].raw then n else RunStart(h[..n])
  }

  /** The accepted state changes with the last sample. */
  predicate Accepts(debounce: nat, h: seq<Sample>)
    requires |h| > 1
  {
    After(debounce, h).stable != After(debounce, h[..|h| - 1]).stable
  }

  // ----- When a transition is accepted -----

  lemma {:induction false} CandidateIsRun(debounce: nat, h: seq<Sample>)
    requires h != []
    ensures var s := After(debounce, h);
            s.candidate == h[|h| - 1].raw && s.candidateTime == Low(h[RunStart(h)].time)
    decreases |h|
  {
    if |h| > 1 {
      CandidateIsRun(debounce, h[..|h| - 1]);
    }
  }

  lemma ElapsedIsModulo(now: nat, since: nat)
    requires since <= now
    ensures Elapsed(Low(now), Low(since)) == (now - since) % WRAP <= now - since
  {
    var a, b := now / WRAP, since / WRAP;
    assert now - since == (a - b) * WRAP + (Low(now) - Low(since));
  }

  /** A transition is accepted with a sample exactly when that sample continues a run that differs from the accepted
      state and whose real length, taken modulo 2^32, has reached the debounce time. */
  lemma AcceptedIff(debounce: nat, h: seq<Sample>)
    requires |h| > 1 && InOrder(h)
    ensures var last := |h| - 1;
            Accepts(debounce, h) <==>
            && RunStart(h) < last
            && h[last].raw != After(debounce, h[..last]).stable
            && (h[last].time - h[RunStart(h)].time) % WRAP >= debounce
  {
    var last := |h| - 1;
    CandidateIsRun(debounce, h[..last]);
    if h[last].raw == h[last - 1].raw {
      assert RunStart(h) == RunStart(h[..last]);
      assert h[..last][RunStart(h)] == h[RunStart(h)];
      ElapsedIsModulo(h[last].time, h[RunStart(h)].time);
    }
  }

  /** An accepted transition is preceded by an unbroken run of at least two equal samples spanning at least the debounce
      time, whatever the clock's wrap-arounds. */
  lemma AcceptedNeedsStableRun(debounce: nat, h: seq<Sample>)
    requires |h| > 1 && InOrder(h) && Accepts(debounce, h)
    ensures var last := |h| - 1;
            exists start :: 0 <= start < last && h[last].time - h[start].time >= debounce
                            && forall i :: start <= i <= last ==> h[i].raw == After(debounce, h).stable
  {
    var last := |h| - 1;
    AcceptedIff(debounce, h);
    ElapsedIsModulo(h[last].time, h[RunStart(h)].time);
    CandidateIsRun(debounce, h);
    assert forall i :: RunStart(h) <= i <= last ==> h[i].raw == After(debounce, h).stable;
  }

  /** A run that differs from the accepted state is accepted at its first sample to reach the debounce time, if it does
      so within 2^32 milliseconds, and at no sample before. */
  lemma LongRunIsAccepted(debounce: nat, h: seq<Sample>)
    requires |h| > 1 && InOrder(h)
    requires var last := |h| - 1;
             && RunStart(h) < last && h[last].raw != After(debounce, h[..last]).stable
             && h[last].time - h[RunStart(h)].time < WRAP
    ensures Accepts(debounce, h) <==> h[|h| - 1].time - h[RunStart(h)].time >= debounce
  {
    AcceptedIff(debounce, h);
  }

  /** Past that the promise fails: a change that has held for more than 49 days is not accepted when it is sampled soon
      after the clock has come round. */
  lemma WrappedRunIsMissed()
    ensures var h := [Sample(0, false), Sample(0, true), Sample(WRAP + 5, true)];
            InOrder(h) && h[2].time - h[RunStart(h)].time >= 10 && !Accepts(10, h)
  {
    var h := [Sample(0, false), Sample(0, true), Sample(WRAP + 5, true)];
    var two := h[..2];
    assert two[..1] == [h[0]] && two[1] == h[1];
    assert After(10, [h[0]]) == Init(h[0]);
    assert After(10, two) == Update(10, Init(h[0]), h[1]);
    assert h[..2][..1] == two[..1];
    assert RunStart(h) == 1;
  }

  // ----- Whole runs -----

  function Flipped(initial: bool, times: nat): bool {
    if times % 2 == 0 then initial else !initial
  }

  /** How many samples differ from the one before. */
  function Changes(h: seq<Sample>): nat {
    if |h| <= 1 then 0
    else Changes(h[..|h| - 1]) + if h[|h| - 1].raw != h[|h| - 2].raw then 1 else 0
  }

  /** The laws of the counters: accepted edges alternate and are what the callback is called with, rises are the calls
      with true and falls those with false; raw edges are the changes in the history, and accepted ones no more. */
  lemma {:induction false} CounterLaws(debounce: nat, h: seq<Sample>)
    requires h != []
    ensures var s := After(debounce, h);
            && s.stable == Flipped(h[0].raw, s.edges)
            && |s.calls| == s.edges && (forall k :: 0 <= k < |s.calls| ==> s.calls[k] == Flipped(h[0].raw, k + 1))
            && s.rises == multiset(s.calls)[true] && s.falls == multiset(s.calls)[false]
            && s.rises + s.falls == s.edges
            && s.rawEdges == Changes(h)
            && s.edges + (if s.candidate != s.stable then 1 else 0) <= s.rawEdges
    decreases |h|
  {
    var last := |h| - 1;
    if last > 0 {
      CounterLaws(debounce, h[..last]);
      CandidateIsRun(debounce, h[..last]);
      UpdateKeepsLaws(debounce, h[0].raw, After(debounce, h[..last]), h[last]);
    }
  }

  lemma UpdateKeepsLaws(debounce: nat, initial: bool, s: State, sample: Sample)
    requires s.stable == Flipped(initial, s.edges) && |s.calls| == s.edges && s.rises + s.falls == s.edges
    requires forall k :: 0 <= k < |s.calls| ==> s.calls[k] == Flipped(initial, k + 1)
    requires s.rises == multiset(s.calls)[true] && s.falls == multiset(s.calls)[false]
    requires s.edges + (if s.candidate != s.stable then 1 else 0) <= s.rawEdges
    ensures Update(debounce, s, sample).rawEdges == s.rawEdges + if sample.raw != s.candidate then 1 else 0
    ensures var s := Update(debounce, s, sample);
            && s.stable == Flipped(initial, s.edges) && |s.calls| == s.edges && s.rises + s.falls == s.edges
            && (forall k :: 0 <= k < |s.calls| ==> s.calls[k] == Flipped(initial, k + 1))
            && s.rises == multiset(s.calls)[true] && s.falls == multiset(s.calls)[false]
            && s.edges + (if s.candidate != s.stable then 1 else 0) <= s.rawEdges
  {
  }

  /** The real time by which the last accepted transition had been debounced, counting from init. */
  function TimeUsed(debounce: nat, h: seq<Sample>): int
    requires h != []
  {
    var s := After(debounce, h);
    (if s.candidate != s.stable then h[RunStart(h)] else h[|h| - 1]).time - h[0].time
  }

  /** Accepted transitions take at least their debounce times of real time: no input makes the debouncer change more
      often than once a debounce time. */
  lemma {:induction false} TimeLaw(debounce: nat, h: seq<Sample>)
    requires h != [] && InOrder(h)
    ensures After(debounce, h).edges * debounce <= TimeUsed(debounce, h) <= h[|h| - 1].time - h[0].time
    decreases |h|
  {
    var last := |h| - 1;
    if last > 0 {
      TimeLaw(debounce, h[..last]);
      TimeStep(debounce, h);
      OneMore(After(debounce, h[..last]).edges, debounce);
    }
  }

  lemma OneMore(edges: nat, debounce: nat)
    ensures (edges + 1) * debounce == edges * debounce + debounce
  {
  }

  lemma TimeStep(debounce: nat, h: seq<Sample>)
    requires |h| > 1 && InOrder(h)
    ensures var before := h[..|h| - 1];
            && After(debounce, h).edges == After(debounce, before).edges + (if Accepts(debounce, h) then 1 else 0)
            && TimeUsed(debounce, h) >= TimeUsed(debounce, before) + (if Accepts(debounce, h) then debounce else 0)
  {
    var last := |h| - 1;
    var before := h[..last];
    CandidateIsRun(debounce, before);
    CandidateIsRun(debounce, h);
    AcceptedIff(debounce, h);
    ElapsedIsModulo(h[last].time, h[RunStart(h)].time);
    if h[last].raw == before[last - 1].raw {
      assert RunStart(h) == RunStart(before) && before[RunStart(h)] == h[RunStart(h)];
    }
  }

  // ----- The object -----

  lemma AfterOneMore(debounce: nat, h: seq<Sample>, sample: Sample)
    requires h != []
    ensures After(debounce, h + [sample]) == Update(debounce, After(debounce, h), sample)
  {
    assert (h + [sample])[..|h|] == h;
  }

  class DebouncerObject {
    var stableState: bool
    var candidateState: bool
    var candidateTimeMs: uint32
    var debounceMs: uint32
    var hasCallback: bool
    /** The values the callback has been called with. */
    var calls: seq<bool>
    var rawEdgeCount: uint32
    var debouncedEdgeCount: uint32
    var riseCount: uint32
    var fallCount: uint32
    /** Every sample so far, with its real time. */
    ghost var history: seq<Sample>

    /** The fields are the state that the history leads to, the counters modulo 2^32. */
    ghost predicate Valid()
      reads this
    {
      history != [] && Shows(After(debounceMs, history))
    }

    ghost predicate Shows(s: State)
      reads this
    {
      && stableState == s.stable && candidateState == s.candidate && candidateTimeMs == s.candidateTime
      && rawEdgeCount == Low(s.rawEdges) && debouncedEdgeCount == Low(s.edges)
      && riseCount == Low(s.rises) && fallCount == Low(s.falls)
      && calls == if hasCallback then s.calls else []
    }

    constructor (initialState: bool, debounceMs: uint32, hasCallback: bool, now: uint32, ghost time: nat)
      requires now == Low(time)
      ensures Valid() && history == [Sample(time, initialState)]
      ensures this.debounceMs == debounceMs && this.hasCallback == hasCallback
    {
      stableState, candidateState := initialState, initialState;
      candidateTimeMs := now;
      this.debounceMs := debounceMs;
      this.hasCallback := hasCallback;
      calls := [];
      rawEdgeCount, debouncedEdgeCount, riseCount, fallCount := 0, 0, 0, 0;
      history := [Sample(time, initialState)];
    }

    /** `now` is what the clock shows at the real `time`. */
    method Update(rawState: bool, now: uint32, ghost time: nat)
      requires Valid() && now == Low(time)
      modifies this
      ensures Valid() && history == old(history) + [Sample(time, rawState)]
      ensures debounceMs == old(debounceMs) && hasCallback == old(hasCallback)
    {
      ghost var s := After(debounceMs, history);
      AfterOneMore(debounceMs, history, Sample(time, rawState));
      history := history + [Sample(time, rawState)];
      if rawState != candidateState {
        NewCandidate(rawState, now, s);
        return;
      }
      if candidateState != stableState {
        if Elapsed(now, candidateTimeMs) >= debounceMs {
          Accept(s);
        }
      }
    }

    method NewCandidate(rawState: bool, now: uint32, ghost s: State)
      requires Shows(s)
      modifies `candidateState, `candidateTimeMs, `rawEdgeCount
      ensures Shows(s.(candidate := rawState, candidateTime := now, rawEdges := s.rawEdges + 1))
    {
      candidateState := rawState;
      candidateTimeMs := now;
      IncrementWraps(s.rawEdges);
      rawEdgeCount := Increment(rawEdgeCount);
    }

    /** The candidate has held long enough. */
    method Accept(ghost s: State)
      requires Shows(s) && candidateState != stableState
      modifies `stableState, `debouncedEdgeCount, `riseCount, `fallCount, `calls
      ensures Shows(s.(stable := s.candidate, edges := s.edges + 1,
                       rises := s.rises + (if s.candidate then 1 else 0),
                       falls := s.falls + (if s.candidate then 0 else 1), calls := s.calls + [s.candidate]))
    {
      var before, after := stableState, candidateState;
      stableState := after;
      IncrementWraps(s.edges);
      debouncedEdgeCount := Increment(debouncedEdgeCount);
      if !before && after {
        IncrementWraps(s.rises);
        riseCount := Increment(riseCount);
      } else if before && !after {
        IncrementWraps(s.falls);
        fallCount := Increment(fallCount);
      }
      if hasCallback {
        calls := calls + [stableState];
      }
    }
  }
}
