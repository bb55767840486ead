/** The lock of the user library (library/src/Mutex.cc, and its C form in library/src/stdlib.c) as a transition system: any
    number of threads, in any interleaving. Testing and setting the counter is one step; every other access is a step of
    its own. */
module Mutex {

  /** Where a thread stands. */
  datatype Place =
    | Outside
    | Trying(blocking: bool)  // before testing and setting the counter
    | Waiting                 // blocked until signalled
    | Entered                 // the counter was taken, and the store behind the loop is still to come
    | Inside                  // acquire has returned
    | Signalling              // release has stored, and is still to signal

  predicate Owns(p: Place) {
    p == Entered || p == Inside
  }

  datatype State = State(counter: int, places: seq<Place>)

  /** The C++ form stores 0 again once it has the counter; the C form clears only its own pointer instead. */
  datatype Form = Cpp | C

  datatype Action =
    | CallAcquire(blocking: bool)
    | Take                    // the counter was 1 and is 0 now
    | Fail                    // the counter was not 1: give up, or go on to wait
    | Wake                    // a waiting thread tries again
    | StoreZero
    | Release                 // the store of release
    | Signal

  predicate Init(s: State) {
    s.counter == 1 && forall t :: 0 <= t < |s.places| ==> s.places[t] == Outside
  }

  predicate Moves(s: State, s': State, t: nat, to: Place, counter: int) {
    t < |s.places| && s' == State(counter, s.places[t := to])
  }

  /** One step of thread `t`. Only a thread that has acquired the lock releases it. */
  predicate Step(form: Form, s: State, s': State, t: nat, a: Action) {
    t < |s.places| &&
    var p := s.places[t];
    match a
    case CallAcquire(blocking) => p == Outside && Moves(s, s', t, Trying(blocking), s.counter)
    case Take => p.Trying? && s.counter == 1 && Moves(s, s', t, Entered, 0)
    case Fail => p.Trying? && s.counter != 1 && Moves(s, s', t, if p.blocking then Waiting else Outside, s.counter)
    case Wake => p == Waiting && Moves(s, s', t, Trying(true), s.counter)
    case StoreZero => p == Entered && Moves(s, s', t, Inside, if form == Cpp then 0 else s.counter)
    case Release => p == Inside && Moves(s, s', t, Signalling, 1)
    case Signal => p == Signalling && Moves(s, s', t, Outside, s.counter)
  }

  predicate Unowned(s: State) {
    forall t :: 0 <= t < |s.places| ==> !Owns(s.places[t])
  }

  predicate OwnedBy(s: State, h: nat) {
    && h < |s.places| && Owns(s.places[h])
    && forall t :: 0 <= t < |s.places| && t != h ==> !Owns(s.places[t])
  }

  /** Either the counter is 1 and no thread has the lock, or it is 0 and exactly one has. */
  ghost predicate Safe(s: State) {
    (s.counter == 1 && Unowned(s)) || (s.counter == 0 && exists h: nat :: OwnedBy(s, h))
  }

  lemma StepSafe(form: Form, s: State, s': State, t: nat, a: Action)
    requires Safe(s) && Step(form, s, s', t, a)
    ensures Safe(s')
  {
    if a == Take || a == StoreZero {
      assert OwnedBy(s', t);
    } else if s.counter == 0 && a != Release {
      var h: nat :| OwnedBy(s, h);
      assert OwnedBy(s', h);
    }
  }

  // ---------- runs ----------

  datatype Event = Event(thread: nat, action: Action)

  predicate Run(form: Form, states: seq<State>, events: seq<Event>) {
    && |states| == |events| + 1 && Init(states[0])
    && forall i :: 0 <= i < |events| ==> Step(form, states[i], states[i + 1], events[i].thread, events[i].action)
  }

  lemma {:induction false} RunSafe(form: Form, states: seq<State>, events: seq<Event>, n: nat)
    requires Run(form, states, events) && n < |states|
    ensures Safe(states[n])
  {
    if n > 0 {
      RunSafe(form, states, events, n - 1);
      StepSafe(form, states[n - 1], states[n], events[n - 1].thread, events[n - 1].action);
    }
  }

  /** No two threads have the lock at the same time, and when none has, the next attempt to take it succeeds. */
  lemma MutualExclusion(form: Form, states: seq<State>, events: seq<Event>, n: nat, t: nat, u: nat)
    requires Run(form, states, events) && n < |states| && t < |states[n].places| && u < |states[n].places|
    ensures Owns(states[n].places[t]) && Owns(states[n].places[u]) ==> t == u
    ensures states[n].counter == 1 <==> Unowned(states[n])
  {
    RunSafe(form, states, events, n);
  }

  lemma OwnerStays(form: Form, s: State, s': State, h: nat, e: Event)
    requires Safe(s) && OwnedBy(s, h) && Step(form, s, s', e.thread, e.action) && e != Event(h, Release)
    ensures OwnedBy(s', h)
  {
  }

  lemma {:induction false} OwnerStaysUntilRelease(form: Form, states: seq<State>, events: seq<Event>, h: nat, i: nat, j: nat)
    requires Run(form, states, events) && i <= j < |states| && OwnedBy(states[i], h)
    requires forall k :: i <= k < j ==> events[k] != Event(h, Release)
    ensures OwnedBy(states[j], h)
    decreases j
  {
    if i < j {
      OwnerStaysUntilRelease(form, states, events, h, i, j - 1);
      RunSafe(form, states, events, j - 1);
      OwnerStays(form, states[j - 1], states[j], h, events[j - 1]);
    }
  }

  /** The lock passes from one thread to another only by the first one's release. */
  lemma HandOver(form: Form, states: seq<State>, events: seq<Event>, t: nat, u: nat, i: nat, j: nat)
    requires Run(form, states, events) && i < j < |states| && t != u
    requires t < |states[i].places| && Owns(states[i].places[t])
    requires u < |states[j].places| && Owns(states[j].places[u])
    ensures exists k :: i <= k < j && events[k] == Event(t, Release)
  {
    RunSafe(form, states, events, i);
    if forall k :: i <= k < j ==> events[k] != Event(t, Release) {
      OwnerStaysUntilRelease(form, states, events, t, i, j);
      assert false;
    }
  }

  // ---------- what an attempt comes to ----------

  /** In every reachable state a thread that tries can take its step, and its step takes the lock exactly if no thread has it.
      Otherwise the thread waits if it blocks, and else is done. */
  lemma TryExact(form: Form, states: seq<State>, events: seq<Event>, n: nat, t: nat)
    requires Run(form, states, events) && n < |states| && t < |states[n].places| && states[n].places[t].Trying?
    ensures exists s', a :: Step(form, states[n], s', t, a)
    ensures forall s', a {:trigger Step(form, states[n], s', t, a)} :: Step(form, states[n], s', t, a) ==>
              s'.places[t] == if Unowned(states[n]) then Entered else if states[n].places[t].blocking then Waiting else Outside
  {
    var s := states[n];
    RunSafe(form, states, events, n);
    if s.counter == 1 {
      assert Step(form, s, State(0, s.places[t := Entered]), t, Take);
    } else {
      assert Step(form, s, State(s.counter, s.places[t := if s.places[t].blocking then Waiting else Outside]), t, Fail);
    }
  }

  /** A thread stays where it is until its own next step. */
  lemma {:induction false} PlaceKept(form: Form, states: seq<State>, events: seq<Event>, t: nat, i: nat, j: nat)
    requires Run(form, states, events) && i <= j < |states| && t < |states[i].places|
    requires forall k :: i <= k < j ==> events[k].thread != t
    ensures t < |states[j].places| && states[j].places[t] == states[i].places[t]
    decreases j
  {
    if i < j {
      PlaceKept(form, states, events, t, i, j - 1);
      assert Step(form, states[j - 1], states[j], events[j - 1].thread, events[j - 1].action);
    }
  }

  /** A call of acquire that finds the lock taken ends in waiting exactly if it was asked to block, and else gives up; one that
      finds it free has it. */
  lemma AcquireExact(form: Form, states: seq<State>, events: seq<Event>, t: nat, blocking: bool, i: nat, j: nat)
    requires Run(form, states, events) && i < j < |events| && events[i] == Event(t, CallAcquire(blocking)) && events[j].thread == t
    requires forall k :: i < k < j ==> events[k].thread != t
    ensures t < |states[j + 1].places|
    ensures states[j + 1].places[t] == if Unowned(states[j]) then Entered else if blocking then Waiting else Outside
  {
    assert Step(form, states[i], states[i + 1], t, CallAcquire(blocking));
    PlaceKept(form, states, events, t, i + 1, j);
    TryExact(form, states, events, j, t);
    assert Step(form, states[j], states[j + 1], t, events[j].action);
  }

  // ---------- releases by other threads ----------

  /** The store of `release`, by a thread at any place outside the lock's own calls. */
  predicate AnyRelease(s: State, s': State, t: nat) {
    && t < |s.places| && (s.places[t] == Outside || s.places[t] == Inside)
    && Moves(s, s', t, Signalling, 1)
  }

  /** A release is safe exactly when no other thread has the lock. */
  lemma ReleaseExact(s: State, s': State, t: nat)
    requires Safe(s) && AnyRelease(s, s', t)
    ensures Safe(s') <==> forall u :: 0 <= u < |s.places| && u != t ==> !Owns(s.places[u])
  {
    if Safe(s') {
      assert Unowned(s');
      forall u | 0 <= u < |s.places| && u != t
        ensures !Owns(s.places[u])
      {
        assert s'.places[u] == s.places[u];
      }
    }
  }

  /** After a release by a thread that does not have the lock while another has, any thread that tries gets in too. */
  lemma ForeignRelease(form: Form, s: State, s': State, s'': State, t: nat, h: nat, u: nat)
    requires OwnedBy(s, h) && t != h && u != h && AnyRelease(s, s', t) && Step(form, s', s'', u, Take)
    ensures Owns(s''.places[h]) && Owns(s''.places[u])
  {
  }
}
