/** Round-robin scheduling (src/multitasking.cpp) as a function on its state, and what it promises
  over whole runs. T stands for tasks and S for pointers to saved CPU states. */
module RoundRobin {

  const MAX_TASKS := 256

  datatype Sched<T, S> = Sched(tasks: seq<T>, saved: map<T, S>, current: int)

  ghost predicate Valid<T, S>(s: Sched<T, S>) {
    && |s.tasks| <= MAX_TASKS
    && -1 <= s.current && (s.current == -1 || s.current < |s.tasks|)
    && forall t :: t in s.tasks ==> t in s.saved
  }

  /** AddTask, for a task whose state pointer is `init`. */
  function Add<T(==), S>(s: Sched<T, S>, t: T, init: S): Sched<T, S> {
    if |s.tasks| >= MAX_TASKS then s else s.(tasks := s.tasks + [t], saved := s.saved[t := init])
  }

  /** Does the next Schedule start again at the first task? */
  predicate AtEnd<T(==), S>(s: Sched<T, S>) {
    s.current + 1 >= |s.tasks|
  }

  /** Schedule, called with state pointer `cpu`. */
  function Tick<T(==), S(==)>(s: Sched<T, S>, cpu: S): (r: Sched<T, S>)
    requires Valid(s)
    ensures Valid(r)
  {
    if s.tasks == [] then s else
    s.(saved := if s.current >= 0 then s.saved[s.tasks[s.current] := cpu] else s.saved,
       current := if AtEnd(s) then 0 else s.current + 1)
  }

  function TickResult<T(==), S(==)>(s: Sched<T, S>, cpu: S): S
    requires Valid(s)
  {
    var r := Tick(s, cpu);
    if s.tasks == [] then cpu else r.saved[r.tasks[r.current]]
  }

  // Runs

  datatype Event<T, S> = Join(t: T, init: S) | Preempt(cpu: S)

  function Step<T(==), S(==)>(s: Sched<T, S>, ev: Event<T, S>): (r: Sched<T, S>)
    requires Valid(s)
    ensures Valid(r)
  {
    match ev
    case Join(t, init) => Add(s, t, init)
    case Preempt(cpu) => Tick(s, cpu)
  }

  function Run<T(==), S(==)>(s: Sched<T, S>, evs: seq<Event<T, S>>): (r: Sched<T, S>)
    requires Valid(s)
    ensures Valid(r)
    decreases |evs|
  {
    if evs == [] then s else Run(Step(s, evs[0]), evs[1..])
  }

  function Ticks<T, S>(evs: seq<Event<T, S>>): nat {
    if evs == [] then 0 else (if evs[0].Preempt? then 1 else 0) + Ticks(evs[1..])
  }

  function Joins<T, S>(evs: seq<Event<T, S>>): nat {
    if evs == [] then 0 else (if evs[0].Join? then 1 else 0) + Joins(evs[1..])
  }

  /** Over any run tasks stay in the order in which they joined, and the first 256 are kept. */
  lemma {:induction false} TasksKept<T, S>(s: Sched<T, S>, evs: seq<Event<T, S>>)
    requires Valid(s)
    ensures s.tasks <= Run(s, evs).tasks
    ensures |Run(s, evs).tasks| == if |s.tasks| + Joins(evs) < 256 then |s.tasks| + Joins(evs) else 256
    decreases |evs|
  {
    if evs != [] {
      TasksKept(Step(s, evs[0]), evs[1..]);
    }
  }

  // Fairness

  /** How often the index wraps in a run, and how many tasks there are at those moments together. */
  function Wraps<T(==), S(==)>(s: Sched<T, S>, evs: seq<Event<T, S>>): (r: (nat, nat))
    requires Valid(s)
    decreases |evs|
  {
    if evs == [] then (0, 0) else
    var rest := Wraps(Step(s, evs[0]), evs[1..]);
    if evs[0].Preempt? && AtEnd(s) then (rest.0 + 1, rest.1 + |s.tasks|) else rest
  }

  /** Every call moves the index by one, up to the tasks counted at wraps: in any run the number
      of calls is the distance moved plus those tasks. */
  lemma {:induction false} CallsAccount<T, S>(s: Sched<T, S>, evs: seq<Event<T, S>>)
    requires Valid(s) && s.tasks != []
    ensures Ticks(evs) == Run(s, evs).current - s.current + Wraps(s, evs).1
    ensures Wraps(s, evs).0 <= Wraps(s, evs).1 <= 256 * Wraps(s, evs).0
    decreases |evs|
  {
    if evs != [] {
      CallsAccount(Step(s, evs[0]), evs[1..]);
    }
  }

  /** The last event of the run selects slot i, and no earlier one does. */
  predicate FirstHit<T(==), S(==)>(s: Sched<T, S>, evs: seq<Event<T, S>>, i: nat)
    requires Valid(s)
    decreases |evs|
  {
    evs != [] &&
    var hit := evs[0].Preempt? && Step(s, evs[0]).current == i;
    if |evs| == 1 then hit else !hit && FirstHit(Step(s, evs[0]), evs[1..], i)
  }

  lemma {:induction false} HitFromBelow<T, S>(s: Sched<T, S>, evs: seq<Event<T, S>>, i: nat)
    requires Valid(s) && s.current < i < |s.tasks| && FirstHit(s, evs, i)
    ensures Wraps(s, evs) == (0, 0) && Run(s, evs).current == i
    decreases |evs|
  {
    if |evs| > 1 {
      HitFromBelow(Step(s, evs[0]), evs[1..], i);
    } else {
      assert evs[1..] == [];
    }
  }

  lemma {:induction false} HitFromAbove<T, S>(s: Sched<T, S>, evs: seq<Event<T, S>>, i: nat)
    requires Valid(s) && i <= s.current && FirstHit(s, evs, i)
    ensures Wraps(s, evs).0 == 1 && Run(s, evs).current == i
    decreases |evs|
  {
    var next := Step(s, evs[0]);
    if |evs| == 1 {
      assert evs[1..] == [];
      assert Wraps(next, []) == (0, 0);
    } else if next.current < i {
      HitFromBelow(next, evs[1..], i);
    } else {
      HitFromAbove(next, evs[1..], i);
    }
  }

  /** A selected task is selected again after exactly as many calls as there are tasks when the
      index wraps, hence after at most 256, whatever tasks are added meanwhile. */
  lemma RoundLength<T, S>(s: Sched<T, S>, evs: seq<Event<T, S>>)
    requires Valid(s) && s.current >= 0 && FirstHit(s, evs, s.current)
    ensures Wraps(s, evs).0 == 1
    ensures Ticks(evs) == Wraps(s, evs).1 <= 256
  {
    HitFromAbove(s, evs, s.current);
    CallsAccount(s, evs);
  }

  /** Upper bound on the calls until slot i is selected. */
  function Wait<T(==), S>(s: Sched<T, S>, i: nat): int {
    if s.current < i then i - s.current else MAX_TASKS - s.current + i
  }

  /** No task waits for more than 256 calls: any run with that many calls selects it. */
  lemma {:induction false} NoStarvation<T, S>(s: Sched<T, S>, evs: seq<Event<T, S>>, i: nat)
    requires Valid(s) && i < |s.tasks| && Ticks(evs) >= Wait(s, i)
    ensures 0 < Wait(s, i) <= 256
    ensures exists k :: 0 < k <= |evs| && FirstHit(s, evs[..k], i)
    decreases |evs|
  {
    var next := Step(s, evs[0]);
    if evs[0].Preempt? && next.current == i {
      assert evs[..1] == [evs[0]];
      assert FirstHit(s, evs[..1], i);
    } else {
      NoStarvation(next, evs[1..], i);
      var k :| 0 < k <= |evs[1..]| && FirstHit(next, evs[1..][..k], i);
      assert evs[..k + 1][1..] == evs[1..][..k];
      assert FirstHit(s, evs[..k + 1], i);
    }
  }

  // Context preservation

  /** One call of Schedule that switched: the task selected, the state passed in and the state
      returned. */
  datatype Entry<T, S> = Entry(task: T, passed: S, returned: S)

  function Log<T(==), S(==)>(s: Sched<T, S>, evs: seq<Event<T, S>>): seq<Entry<T, S>>
    requires Valid(s)
    decreases |evs|
  {
    if evs == [] then []
    else LogOf(s, evs[0]) + Log(Step(s, evs[0]), evs[1..])
  }

  function LogOf<T(==), S(==)>(s: Sched<T, S>, ev: Event<T, S>): seq<Entry<T, S>>
    requires Valid(s)
  {
    if ev.Join? || s.tasks == [] then [] else
    var r := Tick(s, ev.cpu);
    [Entry(r.tasks[r.current], ev.cpu, TickResult(s, ev.cpu))]
  }

  /** The last entry that selected t, or -1. */
  function LastRun<T(==), S>(log: seq<Entry<T, S>>, t: T): (j: int)
    ensures -1 <= j < |log|
    ensures j >= 0 ==> log[j].task == t
    ensures forall k :: j < k < |log| ==> log[k].task != t
  {
    if log == [] then -1
    else if log[|log| - 1].task == t then |log| - 1
    else LastRun(log[..|log| - 1], t)
  }

  /** What entry k has to return: the state passed in by the call that last preempted the task, or
      its initial state if it never ran. */
  predicate Faithful<T(==), S(==)>(log: seq<Entry<T, S>>, k: nat, initial: map<T, S>)
    requires k < |log|
  {
    var j := LastRun(log[..k], log[k].task);
    if j >= 0 then log[k].returned == log[j + 1].passed
    else log[k].task in initial && log[k].returned == initial[log[k].task]
  }

  /** Tasks join once, with the given initial states. */
  predicate JoinsOnce<T(==), S(==)>(tasks: seq<T>, evs: seq<Event<T, S>>, initial: map<T, S>)
    decreases |evs|
  {
    evs == [] ||
    match evs[0]
    case Join(t, x) => t !in tasks && t in initial && initial[t] == x && JoinsOnce(tasks + [t], evs[1..], initial)
    case Preempt(_) => JoinsOnce(tasks, evs[1..], initial)
  }

  /** The scheduler remembers the log: it knows the task of the last entry as current, and holds
      for every other task the state that its next entry has to return. */
  ghost predicate Remembers<T, S>(s: Sched<T, S>, log: seq<Entry<T, S>>, initial: map<T, S>) {
    && Valid(s)
    && (s.current == -1 <==> log == [])
    && (log != [] ==> s.tasks[s.current] == log[|log| - 1].task)
    && (forall k :: 0 <= k < |log| ==> log[k].task in s.tasks)
    && (forall t :: t in s.tasks ==> t in initial)
    && (forall t :: t in s.tasks && (s.current == -1 || t != s.tasks[s.current]) ==>
          s.saved[t] == var j := LastRun(log, t); if j >= 0 then log[j + 1].passed else initial[t])
  }

  lemma JoinRemembers<T, S>(s: Sched<T, S>, log: seq<Entry<T, S>>, initial: map<T, S>, t: T)
    requires Remembers(s, log, initial) && t in initial && t !in s.tasks
    ensures Remembers(Add(s, t, initial[t]), log, initial)
  {
  }

  lemma LastRunAppend<T, S>(log: seq<Entry<T, S>>, e: Entry<T, S>, t: T)
    ensures LastRun(log + [e], t) == if e.task == t then |log| else LastRun(log, t)
  {
    assert (log + [e])[..|log|] == log;
  }

  lemma TickFaithful<T, S>(s: Sched<T, S>, log: seq<Entry<T, S>>, initial: map<T, S>, cpu: S)
    requires Remembers(s, log, initial) && s.tasks != []
    ensures Faithful(log + LogOf(s, Preempt(cpu)), |log|, initial)
  {
    var log' := log + LogOf(s, Preempt(cpu));
    assert log'[..|log|] == log;
    var u := log'[|log|].task;
    assert log != [] && u == s.tasks[s.current] ==> LastRun(log, u) == |log| - 1;
  }

  lemma TickRemembers<T, S>(s: Sched<T, S>, log: seq<Entry<T, S>>, initial: map<T, S>, cpu: S)
    requires Remembers(s, log, initial) && s.tasks != []
    ensures Remembers(Tick(s, cpu), log + LogOf(s, Preempt(cpu)), initial)
  {
    var r := Tick(s, cpu);
    var e := LogOf(s, Preempt(cpu))[0];
    var log' := log + [e];
    assert LogOf(s, Preempt(cpu)) == [e];
    forall t | t in r.tasks && t != r.tasks[r.current]
      ensures r.saved[t] == var j := LastRun(log', t); if j >= 0 then log'[j + 1].passed else initial[t]
    {
      LastRunAppend(log, e, t);
      if s.current >= 0 && t == s.tasks[s.current] {
        assert LastRun(log, t) == |log| - 1;
      }
    }
  }

  ghost predicate AllFaithful<T, S>(log: seq<Entry<T, S>>, initial: map<T, S>) {
    forall k :: 0 <= k < |log| ==> Faithful(log, k, initial)
  }

  lemma AppendFaithful<T, S>(log: seq<Entry<T, S>>, e: Entry<T, S>, initial: map<T, S>)
    requires AllFaithful(log, initial) && Faithful(log + [e], |log|, initial)
    ensures AllFaithful(log + [e], initial)
  {
    forall k | 0 <= k < |log| ensures Faithful(log + [e], k, initial) {
      assert (log + [e])[..k] == log[..k];
      assert Faithful(log, k, initial);
    }
  }

  lemma {:induction false} ContextPreservedFrom<T, S>(s: Sched<T, S>, log: seq<Entry<T, S>>, initial: map<T, S>, evs: seq<Event<T, S>>, tasks: seq<T>)
    requires Remembers(s, log, initial) && JoinsOnce(tasks, evs, initial) && (forall t :: t in s.tasks ==> t in tasks)
    requires AllFaithful(log, initial)
    ensures AllFaithful(log + Log(s, evs), initial)
    decreases |evs|
  {
    hide Faithful, AllFaithful, LastRun;
    if evs == [] {
      assert log + Log(s, evs) == log;
    } else {
      var next, switch := Step(s, evs[0]), LogOf(s, evs[0]);
      assert log + Log(s, evs) == (log + switch) + Log(next, evs[1..]);
      match evs[0] {
        case Join(t, x) =>
          assert log + switch == log;
          JoinRemembers(s, log, initial, t);
          hide Remembers, LogOf, Log, Tick, Add;
          ContextPreservedFrom(next, log, initial, evs[1..], tasks + [t]);
        case Preempt(cpu) =>
          if s.tasks == [] {
            assert log + switch == log;
          } else {
            TickRemembers(s, log, initial, cpu);
            TickFaithful(s, log, initial, cpu);
            AppendFaithful(log, switch[0], initial);
            assert switch == [switch[0]] && next.tasks == s.tasks;
          }
          hide Remembers, LogOf, Log, Tick, Add;
          ContextPreservedFrom(next, log + switch, initial, evs[1..], tasks);
      }
    }
  }

  /** The scheduler as constructed. */
  function Empty<T, S>(): Sched<T, S> {
    Sched([], map[], -1)
  }

  /** In every run the state returned for a task is the one passed in when that task was last
      preempted, or its initial state if it never ran. */
  lemma ContextPreserved<T, S>(initial: map<T, S>, evs: seq<Event<T, S>>)
    requires JoinsOnce([], evs, initial)
    ensures forall k :: 0 <= k < |Log(Empty(), evs)| ==> Faithful(Log(Empty(), evs), k, initial)
  {
    var s: Sched<T, S> := Empty();
    ContextPreservedFrom(s, [], initial, evs, []);
    assert [] + Log(s, evs) == Log(s, evs);
  }
}
