/**
 * The byte counter of the read cache under interleaving. A put adds to the counter and then inserts
 * its entry, overwriting what another put of the key left there; a removal takes an entry out and then
 * subtracts its size. Each of the four is one atomic step, and any task may take the next one.
 */
module CacheConcurrency {
  import opened Counting

  /** What a task is in the middle of: a counted entry not yet inserted, or a taken one not yet uncounted. */
  datatype Task = Added(key: string, size: nat) | Taken(size: nat)

  datatype State = State(counter: int, held: map<string, nat>, tasks: map<nat, Task>)

  datatype Event =
    | Add(task: nat, key: string, size: nat)
    | Insert(task: nat)
    | Take(task: nat, key: string)
    | Subtract(task: nat)

  const Empty := State(0, map[], map[])

  predicate Enabled(s: State, e: Event) {
    match e
    case Add(t, _, size) => t !in s.tasks && size > 0
    case Insert(t) => t in s.tasks && s.tasks[t].Added?
    case Take(t, key) => t !in s.tasks && key in s.held
    case Subtract(t) => t in s.tasks && s.tasks[t].Taken?
  }

  function Apply(s: State, e: Event): State
    requires Enabled(s, e)
  {
    match e
    case Add(t, key, size) => State(s.counter + size, s.held, s.tasks[t := Added(key, size)])
    case Insert(t) => State(s.counter, s.held[s.tasks[t].key := s.tasks[t].size], s.tasks - {t})
    case Take(t, key) => State(s.counter, s.held - {key}, s.tasks[t := Taken(s.held[key])])
    case Subtract(t) => State(s.counter - s.tasks[t].size, s.held, s.tasks - {t})
  }

  /** The states of a run from the empty cache, one more than its events. */
  ghost predicate Run(states: seq<State>, events: seq<Event>) {
    && |states| == |events| + 1
    && states[0] == Empty
    && forall i :: 0 <= i < |events| ==> Enabled(states[i], events[i]) && states[i + 1] == Apply(states[i], events[i])
  }

  ghost function TaskSizes(tasks: map<nat, Task>): map<nat, nat> {
    map t | t in tasks :: tasks[t].size
  }

  /** The bytes counted for tasks that have not finished. */
  ghost function InFlight(s: State): nat {
    Total(TaskSizes(s.tasks))
  }

  /** The bytes of the entry an event overwrites. */
  function OverwrittenBy(s: State, e: Event): nat
    requires Enabled(s, e)
  {
    if e.Insert? && s.tasks[e.task].key in s.held then s.held[s.tasks[e.task].key] else 0
  }

  /** The bytes of all entries overwritten in the first `n` events of a run. */
  ghost function Overwritten(states: seq<State>, events: seq<Event>, n: nat): nat
    requires Run(states, events) && n <= |events|
  {
    if n == 0 then 0 else Overwritten(states, events, n - 1) + OverwrittenBy(states[n - 1], events[n - 1])
  }

  /** Sizes are positive, held or in flight. */
  ghost predicate PositiveSizes(s: State) {
    && (forall k :: k in s.held ==> s.held[k] > 0)
    && (forall t :: t in s.tasks ==> s.tasks[t].size > 0)
  }

  lemma ApplyBalance(s: State, e: Event)
    requires Enabled(s, e)
    ensures var s' := Apply(s, e);
            s'.counter - Total(s'.held) - InFlight(s') == s.counter - Total(s.held) - InFlight(s) + OverwrittenBy(s, e)
  {
    var s' := Apply(s, e);
    match e {
      case Add(t, key, size) =>
        TotalUpdate(TaskSizes(s.tasks), t, size);
        assert TaskSizes(s'.tasks) == TaskSizes(s.tasks)[t := size];
      case Insert(t) =>
        TotalUpdate(TaskSizes(s.tasks), t, 0);
        assert TaskSizes(s'.tasks) == TaskSizes(s.tasks) - {t};
        TotalUpdate(s.held, s.tasks[t].key, s.tasks[t].size);
      case Take(t, key) =>
        TotalUpdate(s.held, key, 0);
        TotalUpdate(TaskSizes(s.tasks), t, s.held[key]);
        assert TaskSizes(s'.tasks) == TaskSizes(s.tasks)[t := s.held[key]];
      case Subtract(t) =>
        TotalUpdate(TaskSizes(s.tasks), t, 0);
        assert TaskSizes(s'.tasks) == TaskSizes(s.tasks) - {t};
    }
    assert TaskSizes(s.tasks)[e.task := 0] - {e.task} == TaskSizes(s.tasks) - {e.task};
  }

  /** At every moment of every run the counter is what is held, plus what is in flight, plus what was overwritten. */
  lemma {:induction false} CounterBalance(states: seq<State>, events: seq<Event>, n: nat)
    requires Run(states, events) && n <= |events|
    ensures states[n].counter == Total(states[n].held) + InFlight(states[n]) + Overwritten(states, events, n)
    ensures PositiveSizes(states[n])
  {
    if n > 0 {
      CounterBalance(states, events, n - 1);
      ApplyBalance(states[n - 1], events[n - 1]);
    } else {
      assert TaskSizes(map[]) == map[];
    }
  }

  /** The counter is never below the bytes held. */
  lemma CounterCoversHeld(states: seq<State>, events: seq<Event>, n: nat)
    requires Run(states, events) && n <= |events|
    ensures states[n].counter >= Total(states[n].held)
  {
    CounterBalance(states, events, n);
  }

  /** No subtraction takes the counter below zero, nor below the bytes still held. */
  lemma NoUnderflow(states: seq<State>, events: seq<Event>, n: nat)
    requires Run(states, events) && n < |events| && events[n].Subtract?
    ensures states[n].counter - states[n].tasks[events[n].task].size >= Total(states[n].held)
  {
    CounterBalance(states, events, n);
    TotalUpdate(TaskSizes(states[n].tasks), events[n].task, 0);
  }

  ghost predicate OverwritesAt(states: seq<State>, events: seq<Event>, i: nat)
    requires Run(states, events)
  {
    i < |events| && events[i].Insert? && states[i].tasks[events[i].task].key in states[i].held
  }

  /** Once no task is in the middle, the counter is exact if and only if no insertion ever overwrote an entry. */
  lemma ExactAtRestIffNoOverwrite(states: seq<State>, events: seq<Event>)
    requires Run(states, events) && states[|events|].tasks == map[]
    ensures states[|events|].counter == Total(states[|events|].held)
            <==> forall i: nat :: i < |events| ==> !OverwritesAt(states, events, i)
  {
    CounterBalance(states, events, |events|);
    assert TaskSizes(map[]) == map[];
    OverwrittenIffSome(states, events, |events|);
  }

  lemma {:induction false} OverwrittenIffSome(states: seq<State>, events: seq<Event>, n: nat)
    requires Run(states, events) && n <= |events|
    ensures Overwritten(states, events, n) == 0 <==> forall i: nat :: i < n ==> !OverwritesAt(states, events, i)
  {
    if n > 0 {
      CounterBalance(states, events, n - 1);
      OverwrittenIffSome(states, events, n - 1);
      assert OverwritesAt(states, events, n - 1) <==> OverwrittenBy(states[n - 1], events[n - 1]) > 0;
    }
  }

  /** Bytes once overwritten stay counted for the rest of the run. */
  lemma OverwrittenNeverRecovered(states: seq<State>, events: seq<Event>, m: nat, n: nat)
    requires Run(states, events) && m <= n <= |events|
    ensures states[n].counter >= Total(states[n].held) + Overwritten(states, events, m)
  {
    CounterBalance(states, events, n);
    OverwrittenGrows(states, events, m, n);
  }

  lemma {:induction false} OverwrittenGrows(states: seq<State>, events: seq<Event>, m: nat, n: nat)
    requires Run(states, events) && m <= n <= |events|
    ensures Overwritten(states, events, m) <= Overwritten(states, events, n)
  {
    if m < n {
      OverwrittenGrows(states, events, m, n - 1);
    }
  }

  /** Two puts of one key that overlap: the first entry's bytes stay counted though nothing holds them. */
  lemma OverlappingPutsLeak(key: string, a: nat, b: nat)
    requires a > 0 && b > 0
    ensures exists states, events ::
              Run(states, events) && |events| == 4 && states[4] == State(a + b, map[key := b], map[])
  {
    var events := [Add(0, key, a), Add(1, key, b), Insert(0), Insert(1)];
    var s1 := Apply(Empty, events[0]);
    var s2 := Apply(s1, events[1]);
    var s3 := Apply(s2, events[2]);
    var s4 := Apply(s3, events[3]);
    var states := [Empty, s1, s2, s3, s4];
    assert Run(states, events);
    assert s4 == State(a + b, map[key := b], map[]);
  }
}
