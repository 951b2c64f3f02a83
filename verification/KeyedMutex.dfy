/**
  The promise-chain mutex. A call of `run` is three uninterrupted segments: entering (up to
  `await previous`), starting its body once the previous promise has settled, and leaving (the `finally`
  block, which runs whether or not the body threw). Any schedule of the segments of any calls is a run.
 */
module KeyedMutex {
  import opened Base

  type Key = string

  datatype Phase = Waiting | Running | Done(threw: bool)

  /** `prev` is the call whose promise `chains` held on entry; its own promise is `prev.then(() => slot)`. */
  datatype Call = Call(key: Key, prev: Option<nat>, phase: Phase, released: bool)

  datatype State = State(chains: map<Key, nat>, calls: seq<Call>)

  /** The promise of call i has settled: its predecessor's has, and its own slot is released. */
  predicate Settled(s: State, i: nat)
    requires i < |s.calls| && WellLinked(s)
    decreases i
  {
    s.calls[i].released && (s.calls[i].prev.None? || Settled(s, s.calls[i].prev.value))
  }

  ghost predicate WellLinked(s: State) {
    forall i :: 0 <= i < |s.calls| && s.calls[i].prev.Some? ==> s.calls[i].prev.value < i
  }

  // ---------------------------------------------------------------------------------------------
  // The segments
  // ---------------------------------------------------------------------------------------------

  function Entered(s: State, key: Key): State {
    State(s.chains[key := |s.calls|],
          s.calls + [Call(key, if key in s.chains then Some(s.chains[key]) else None, Waiting, false)])
  }

  ghost predicate CanStart(s: State, i: nat) {
    && WellLinked(s) && i < |s.calls| && s.calls[i].phase == Waiting
    && (s.calls[i].prev.None? || Settled(s, s.calls[i].prev.value))
  }

  function Started(s: State, i: nat): State
    requires i < |s.calls|
  {
    s.(calls := s.calls[i := s.calls[i].(phase := Running)])
  }

  function Left(s: State, i: nat, threw: bool): State
    requires i < |s.calls|
  {
    var key := s.calls[i].key;
    State(if key in s.chains && s.chains[key] == i then s.chains - {key} else s.chains,
          s.calls[i := s.calls[i].(phase := Done(threw), released := true)])
  }

  ghost predicate Step(s: State, t: State) {
    || (exists key :: t == Entered(s, key))
    || (exists i: nat :: CanStart(s, i) && t == Started(s, i))
    || (exists i: nat, threw :: i < |s.calls| && s.calls[i].phase == Running && t == Left(s, i, threw))
  }

  class Mutex {
    var chains: map<Key, nat>
    var calls: seq<Call>

    constructor ()
      ensures View() == State(map[], [])
    {
      chains, calls := map[], [];
    }

    ghost function View(): State
      reads this
    {
      State(chains, calls)
    }

    /** `run` up to its first await. */
    method Enter(key: Key) returns (i: nat)
      modifies this
      ensures i == |old(calls)| && View() == Entered(old(View()), key)
    {
      var previous := if key in chains then Some(chains[key]) else None;
      i := |calls|;
      calls := calls + [Call(key, previous, Waiting, false)];
      chains := chains[key := i];
    }

    /** The continuation after `await previous`. */
    method Start(i: nat)
      requires CanStart(View(), i)
      modifies this
      ensures View() == Started(old(View()), i)
    {
      calls := calls[i := calls[i].(phase := Running)];
    }

    /** The `finally` block. */
    method Leave(i: nat, threw: bool)
      requires i < |calls| && calls[i].phase == Running
      modifies this
      ensures View() == Left(old(View()), i, threw)
    {
      calls := calls[i := calls[i].(phase := Done(threw), released := true)];
      var key := calls[i].key;
      if key in chains && chains[key] == i { chains := chains - {key}; }
    }
  }

  // ---------------------------------------------------------------------------------------------
  // The invariant
  // ---------------------------------------------------------------------------------------------

  /** Every call on the key before i is finished. */
  ghost predicate ClearBefore(s: State, i: nat)
    requires i <= |s.calls|
  {
    forall j :: 0 <= j < i && i < |s.calls| && s.calls[j].key == s.calls[i].key ==> s.calls[j].phase.Done?
  }

  /** No call on the key lies strictly between the two. */
  ghost predicate Adjacent(s: State, p: nat, i: nat)
    requires p < i < |s.calls|
  {
    s.calls[p].key == s.calls[i].key && forall j :: p < j < i ==> s.calls[j].key != s.calls[i].key
  }

  ghost predicate CallOk(s: State, i: nat)
    requires i < |s.calls|
  {
    var call := s.calls[i];
    && (call.released <==> call.phase.Done?)
    && (call.prev.Some? ==> call.prev.value < i && Adjacent(s, call.prev.value, i))
    && (call.prev.None? ==> ClearBefore(s, i))
    && (call.phase != Waiting ==> ClearBefore(s, i))
  }

  /** The entry of `chains` is the last call on the key, and it is unfinished. */
  ghost predicate ChainOk(s: State, key: Key)
    requires key in s.chains
  {
    var i := s.chains[key];
    && i < |s.calls| && s.calls[i].key == key && !s.calls[i].phase.Done?
    && forall j :: i < j < |s.calls| ==> s.calls[j].key != key
  }

  ghost predicate Inv(s: State) {
    && (forall i: nat :: i < |s.calls| ==> CallOk(s, i))
    && (forall key :: key in s.chains ==> ChainOk(s, key))
    && (forall i: nat :: i < |s.calls| && !s.calls[i].phase.Done? ==> s.calls[i].key in s.chains)
  }

  lemma EnterKeepsInv(s: State, key: Key)
    requires Inv(s)
    ensures Inv(Entered(s, key))
  {
    var t := Entered(s, key);
    forall i: nat | i < |t.calls| ensures CallOk(t, i) {
      if i < |s.calls| { assert CallOk(s, i); }
      else if key in s.chains { assert ChainOk(s, key); }
    }
    forall k | k in t.chains ensures ChainOk(t, k) { if k != key { assert ChainOk(s, k); } }
  }

  /** A settled promise means that every call on the key so far is finished. */
  lemma {:induction false} SettledMeansClear(s: State, i: nat)
    requires Inv(s) && WellLinked(s) && i < |s.calls|
    ensures Settled(s, i) <==> s.calls[i].phase.Done? && ClearBefore(s, i)
    decreases i
  {
    assert CallOk(s, i);
    if s.calls[i].prev.Some? {
      var p := s.calls[i].prev.value;
      SettledMeansClear(s, p);
      assert Adjacent(s, p, i);
    }
  }

  lemma Linked(s: State)
    requires Inv(s)
    ensures WellLinked(s)
  {
    forall i | 0 <= i < |s.calls| && s.calls[i].prev.Some? ensures s.calls[i].prev.value < i { assert CallOk(s, i); }
  }

  /** A waiting call may start exactly when all calls before it on its key are finished. */
  lemma EnabledIff(s: State, i: nat)
    requires Inv(s) && i < |s.calls| && s.calls[i].phase == Waiting
    ensures CanStart(s, i) <==> ClearBefore(s, i)
  {
    Linked(s);
    assert CallOk(s, i);
    if s.calls[i].prev.Some? {
      var p := s.calls[i].prev.value;
      SettledMeansClear(s, p);
      assert Adjacent(s, p, i);
      assert CallOk(s, p);
    }
  }

  lemma StartKeepsInv(s: State, i: nat)
    requires Inv(s) && CanStart(s, i)
    ensures Inv(Started(s, i))
  {
    EnabledIff(s, i);
    var t := Started(s, i);
    forall j: nat | j < |t.calls| ensures CallOk(t, j) { assert CallOk(s, j); }
    forall k | k in t.chains ensures ChainOk(t, k) { assert ChainOk(s, k); }
  }

  lemma LeaveKeepsInv(s: State, i: nat, threw: bool)
    requires Inv(s) && i < |s.calls| && s.calls[i].phase == Running
    ensures Inv(Left(s, i, threw))
  {
    var t := Left(s, i, threw);
    assert CallOk(s, i) && ChainOk(s, s.calls[i].key);
    forall j: nat | j < |t.calls| ensures CallOk(t, j) { assert CallOk(s, j); }
    forall k | k in t.chains ensures ChainOk(t, k) { assert ChainOk(s, k); }
    forall j: nat | j < |t.calls| && !t.calls[j].phase.Done? ensures t.calls[j].key in t.chains {
      if t.calls[j].key == s.calls[i].key {
        assert CallOk(s, j);
        assert j > i;
      }
    }
  }

  lemma StepKeepsInv(s: State, t: State)
    requires Inv(s) && Step(s, t)
    ensures Inv(t)
  {
    if key :| t == Entered(s, key) { EnterKeepsInv(s, key); }
    else if i: nat :| CanStart(s, i) && t == Started(s, i) { StartKeepsInv(s, i); }
    else if i: nat, threw :| i < |s.calls| && s.calls[i].phase == Running && t == Left(s, i, threw) {
      LeaveKeepsInv(s, i, threw);
    }
  }

  ghost predicate IsSchedule(tr: seq<State>) {
    |tr| > 0 && tr[0] == State(map[], []) && forall n :: 0 <= n < |tr| - 1 ==> Step(tr[n], tr[n + 1])
  }

  lemma {:induction false} ScheduleKeepsInv(tr: seq<State>, n: nat)
    requires IsSchedule(tr) && n < |tr|
    ensures Inv(tr[n])
  {
    if n > 0 {
      ScheduleKeepsInv(tr, n - 1);
      StepKeepsInv(tr[n - 1], tr[n - 1 + 1]);
    }
  }

  /** At most one body per key is running. */
  ghost predicate OneBodyPerKey(s: State) {
    forall i: nat, j: nat ::
      (i < |s.calls| && j < |s.calls| && s.calls[i].key == s.calls[j].key && s.calls[i].phase == Running
       && s.calls[j].phase == Running) ==> i == j
  }

  /** A body that has started had every earlier call on its key finished first. */
  ghost predicate CallOrder(s: State) {
    forall i: nat :: i < |s.calls| && s.calls[i].phase != Waiting ==> ClearBefore(s, i)
  }

  /** A waiting call can start exactly when every earlier call on its key is finished. */
  ghost predicate WaitersAreEnabled(s: State) {
    forall i: nat :: i < |s.calls| && s.calls[i].phase == Waiting ==> (CanStart(s, i) <==> ClearBefore(s, i))
  }

  /** A key has an entry exactly while some call on it is unfinished. */
  ghost predicate ChainsTrackUnfinished(s: State) {
    forall key :: key in s.chains
      <==> exists i: nat :: i < |s.calls| && s.calls[i].key == key && !s.calls[i].phase.Done?
  }

  /**
    In every schedule: at most one body per key runs; a body that has started had all earlier calls on its
    key finished first, throwing or not; a waiting call is enabled once they are; and a key has an entry in
    `chains` exactly while some call on it is unfinished.
   */
  lemma MutexIsCorrect(tr: seq<State>, n: nat)
    requires IsSchedule(tr) && n < |tr|
    ensures OneBodyPerKey(tr[n]) && CallOrder(tr[n]) && WaitersAreEnabled(tr[n]) && ChainsTrackUnfinished(tr[n])
  {
    var s := tr[n];
    ScheduleKeepsInv(tr, n);
    forall i: nat | i < |s.calls| && s.calls[i].phase != Waiting ensures ClearBefore(s, i) { assert CallOk(s, i); }
    forall i: nat | i < |s.calls| && s.calls[i].phase == Waiting
      ensures CanStart(s, i) <==> ClearBefore(s, i)
    {
      EnabledIff(s, i);
    }
    forall key | key in s.chains
      ensures exists i: nat :: i < |s.calls| && s.calls[i].key == key && !s.calls[i].phase.Done?
    {
      assert ChainOk(s, key);
    }
    forall i: nat, j: nat | i < j < |s.calls| && s.calls[i].key == s.calls[j].key && s.calls[j].phase == Running
      ensures s.calls[i].phase.Done?
    {
      assert CallOk(s, j);
    }
  }
}
