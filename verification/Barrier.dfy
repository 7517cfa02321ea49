/** The reusable thread barrier of `Barrier.cpp`: two sub-barriers that take turns.

    `AceBarrier` is the object itself, with one method for each stretch of code that
    runs under the barrier's lock.  `System` puts any number of threads around it:
    a run interleaves arrivals, spurious wakeups, re-tests of the wait condition and
    shutdowns in any order. */
module Barrier {

  /** The fields guarded by the lock.  `live` says that the two `sub_barrier_`
      pointers are not null; shutdown nulls both at once. */
  datatype Shared = Shared(count: int, generation: int, running: seq<int>, live: bool) {
    predicate Valid() { |running| == 2 && 0 <= generation <= 1 }
  }

  /** What a stretch of `wait()` ends in: sleeping on the condition of a sub-barrier,
      or returning, in which case `released` says whether it broadcast. */
  datatype Outcome = Sleep(sub: int) | Return(value: int, released: bool)

  predicate ExitTest(b: Shared, sub: int)
    requires b.Valid() && 0 <= sub <= 1
  {
    b.running[sub] == b.count
  }

  /** The tail of `wait()`, from the loop test on; it is what a woken thread runs. */
  function Retest(b: Shared, sub: int): Outcome
    requires b.Valid() && 0 <= sub <= 1
  {
    if !ExitTest(b, sub) then Sleep(sub) else Return(if b.live then 0 else -1, false)
  }

  /** `wait()` from taking the lock to returning or sleeping. */
  function Arrive(b: Shared): (r: (Shared, Outcome))
    requires b.Valid()
    ensures r.0.Valid()
  {
    var sub := b.generation;
    if !b.live then (b, Return(-1, false))
    else if b.running[sub] == 1 then
      (b.(running := b.running[sub := b.count], generation := 1 - sub), Return(0, true))
    else
      var b' := b.(running := b.running[sub := b.running[sub] - 1]);
      (b', Retest(b', sub))
  }

  function Shut(b: Shared): (r: (Shared, Outcome))
    requires b.Valid()
    ensures r.0.Valid()
  {
    if !b.live then (b, Return(-1, false))
    else (b.(running := b.running[b.generation := b.count], live := false), Return(0, true))
  }

  // ----- the object -----

  class SubBarrier {
    var runningThreads: int
    constructor (count: int)
      ensures runningThreads == count
    {
      runningThreads := count;
    }
  }

  class AceBarrier {
    const count: int
    const subBarrier1: SubBarrier
    const subBarrier2: SubBarrier
    const subBarrier: array<SubBarrier?>
    var currentGeneration: int

    ghost predicate Valid()
      reads this, subBarrier
    {
      && subBarrier1 != subBarrier2
      && subBarrier.Length == 2
      && 0 <= currentGeneration <= 1
      && ((subBarrier[0] == subBarrier1 && subBarrier[1] == subBarrier2) || subBarrier[0] == subBarrier[1] == null)
    }

    ghost function View(): (b: Shared)
      requires Valid()
      reads this, subBarrier, subBarrier1, subBarrier2
      ensures b.Valid()
    {
      Shared(count, currentGeneration, [subBarrier1.runningThreads, subBarrier2.runningThreads], subBarrier[0] != null)
    }

    ghost function Sub(sub: int): SubBarrier { if sub == 0 then subBarrier1 else subBarrier2 }

    constructor (n: int)
      ensures Valid() && View() == Shared(n, 0, [n, n], true)
      ensures fresh(subBarrier) && fresh(subBarrier1) && fresh(subBarrier2)
    {
      count := n;
      currentGeneration := 0;
      var s1 := new SubBarrier(n);
      var s2 := new SubBarrier(n);
      subBarrier1, subBarrier2 := s1, s2;
      subBarrier := new SubBarrier?[2] [s1, s2];
    }

    method WakeUp(sbp: SubBarrier, ghost sub: int) returns (o: Outcome)
      requires Valid() && 0 <= sub <= 1 && sbp == Sub(sub)
      ensures o == Retest(View(), sub)
    {
      if sbp.runningThreads != count {
        var which := if sbp == subBarrier1 then 0 else 1;
        return Sleep(which);
      }
      o := Return(0, false);
      if subBarrier[currentGeneration] == null {
        o := Return(-1, false);
      }
    }

    method Wait() returns (o: Outcome)
      requires Valid()
      modifies this`currentGeneration, subBarrier1, subBarrier2
      ensures Valid() && (View(), o) == Arrive(old(View()))
    {
      var sbp := subBarrier[currentGeneration];
      if sbp == null {
        return Return(-1, false);
      }
      ghost var sub := currentGeneration;
      if sbp.runningThreads == 1 {
        sbp.runningThreads := count;
        currentGeneration := 1 - currentGeneration;
        o := Return(0, true);

      } else {
        sbp.runningThreads := sbp.runningThreads - 1;
        o := WakeUp(sbp, sub);
      }
      assert View().running == Arrive(old(View())).0.running;
    }

    method Shutdown() returns (o: Outcome)
      requires Valid()
      modifies subBarrier, subBarrier1, subBarrier2
      ensures Valid() && (View(), o) == Shut(old(View()))
    {
      var sbp := subBarrier[currentGeneration];
      if sbp == null {
        return Return(-1, false);
      }
      subBarrier[0] := null;
      subBarrier[1] := null;
      sbp.runningThreads := count;
      o := Return(0, true);
      assert View().running == Shut(old(View())).0.running;
    }
  }

  // ----- threads around it -----

  type Tid = nat

  /** Where a thread is: not in `wait()`, asleep on a condition, or woken (by a
      broadcast or spuriously) and still to take the lock and test again. */
  datatype Place = Outside | Asleep(sub: int) | Awake(sub: int)

  /** The rest is history: the `wait()` calls each thread has made, the threads that have joined each round,
      the last of which is the current one, and the round that each thread's last call joined. */
  datatype System = System(
    shared: Shared, place: seq<Place>, entered: seq<nat>, joined: seq<set<Tid>>, round: seq<nat>)
  {
    predicate WellFormed() {
      && shared.Valid()
      && |entered| == |round| == |place| && joined != []
      && forall t :: 0 <= t < |place| && !place[t].Outside? ==> 0 <= place[t].sub <= 1
    }

    function Rounds(): nat
      requires joined != []
    {
      |joined| - 1
    }

    function Now(): set<Tid>
      requires joined != []
    {
      joined[Rounds()]
    }
  }

  datatype Action = Enter(t: Tid) | Spurious(t: Tid) | Recheck(t: Tid) | Close

  /** `Done(t, v)`: the call of `wait()` by `t` returned `v` in this step. */
  datatype Report = Quiet | Done(t: Tid, value: int) | Closed(value: int)

  function Init(threads: nat, count: nat): System
  {
    System(Shared(count, 0, [count, count], true), seq(threads, t => Outside), seq(threads, t => 0), [{}],
           seq(threads, t => 0))
  }

  predicate Enabled(s: System, a: Action)
  {
    match a
    case Enter(t) => t < |s.place| && s.place[t].Outside?
    case Spurious(t) => t < |s.place| && s.place[t].Asleep?
    case Recheck(t) => t < |s.place| && s.place[t].Awake?
    case Close => true
  }

  function Broadcast(place: seq<Place>, sub: int): seq<Place>
  {
    seq(|place|, t requires 0 <= t < |place| => if place[t] == Asleep(sub) then Awake(sub) else place[t])
  }

  function Settle(o: Outcome): Place
  {
    if o.Sleep? then Asleep(o.sub) else Outside
  }

  function Tell(t: Tid, o: Outcome): Report
  {
    if o.Return? then Done(t, o.value) else Quiet
  }

  /** A thread joins the current round, which its call may complete. */
  function Join(joined: seq<set<Tid>>, t: Tid, last: bool): (r: seq<set<Tid>>)
    requires joined != []
    ensures |r| == |joined| + if last then 1 else 0
  {
    var n := |joined| - 1;
    var now := joined[n := joined[n] + {t}];
    if last then now + [{}] else now
  }

  function Step(s: System, a: Action): (r: (System, Report))
    requires s.WellFormed() && Enabled(s, a)
    ensures r.0.WellFormed() && |r.0.place| == |s.place|
  {
    match a
    case Enter(t) =>
      var (b, o) := Arrive(s.shared);
      var last := o.Return? && o.released;
      var woken := if last then Broadcast(s.place, s.shared.generation) else s.place;
      (System(b, woken[t := Settle(o)], s.entered[t := s.entered[t] + 1],
              if s.shared.live then Join(s.joined, t, last) else s.joined,
              if s.shared.live then s.round[t := s.Rounds()] else s.round),
        Tell(t, o))
    case Spurious(t) =>
      (s.(place := s.place[t := Awake(s.place[t].sub)]), Quiet)
    case Recheck(t) =>
      var o := Retest(s.shared, s.place[t].sub);
      (s.(place := s.place[t := Settle(o)]), Tell(t, o))
    case Close =>
      var (b, o) := Shut(s.shared);
      (s.(shared := b, place := if o.released then Broadcast(s.place, s.shared.generation) else s.place),
        Closed(o.value))
  }

  predicate CanRun(s: System, acts: seq<Action>)
    requires s.WellFormed()
    decreases acts
  {
    acts == [] || (Enabled(s, acts[0]) && CanRun(Step(s, acts[0]).0, acts[1..]))
  }

  function After(s: System, acts: seq<Action>): (r: System)
    requires s.WellFormed() && CanRun(s, acts)
    ensures r.WellFormed() && |r.place| == |s.place|
    decreases acts
  {
    if acts == [] then s else After(Step(s, acts[0]).0, acts[1..])
  }

  ghost predicate Reachable(threads: nat, count: nat, s: System)
  {
    exists acts :: CanRun(Init(threads, count), acts) && After(Init(threads, count), acts) == s
  }

  // ----- the invariant -----

  /** How many of the rounds a thread has joined. */
  function Times(joined: seq<set<Tid>>, t: Tid): nat
  {
    if joined == [] then 0
    else Times(joined[..|joined| - 1], t) + if t in joined[|joined| - 1] then 1 else 0
  }

  /** The current sub-barrier counts who is missing from the current round, the other one is full, and each
      completed round was joined by as many threads as the barrier counts. */
  ghost predicate RoundsOk(s: System)
    requires s.WellFormed()
  {
    Turns(s.shared, s.joined) && Sizes(s.joined, s.shared.count, |s.place|)
  }

  ghost predicate Turns(b: Shared, joined: seq<set<Tid>>)
    requires b.Valid() && joined != []
  {
    && b.generation == (|joined| - 1) % 2
    && b.running[1 - b.generation] == b.count
    && b.running[b.generation] == b.count - |joined[|joined| - 1]|
  }

  ghost predicate Sizes(joined: seq<set<Tid>>, count: int, threads: nat)
    requires joined != []
  {
    && (count > 0 ==> |joined[|joined| - 1]| < count)
    && (forall r :: 0 <= r < |joined| - 1 ==> |joined[r]| == count)
    && (forall r :: 0 <= r < |joined| ==> joined[r] <= Everyone(threads))
  }

  /** While the barrier is live, a thread inside `wait()` is held on the sub-barrier of the last round it has
      joined, and sleeps only if that is the current sub-barrier and not full; a thread outside has not joined
      the current round. */
  ghost predicate ThreadOk(s: System, t: Tid)
    requires s.WellFormed() && 0 <= t < |s.place|
  {
    Counted(s, t) && Placed(s, t)
  }

  ghost predicate Counted(s: System, t: Tid)
    requires s.WellFormed() && 0 <= t < |s.place|
  {
    && s.entered[t] == Times(s.joined, t)
    && (forall r :: 0 <= r < |s.joined| && t in s.joined[r] ==> r <= s.round[t])
  }

  ghost predicate Placed(s: System, t: Tid)
    requires s.WellFormed() && 0 <= t < |s.place|
  {
    match s.place[t]
    case Outside => t !in s.Now()
    case Awake(sub) => Member(s, t, sub)
    case Asleep(sub) => Member(s, t, sub) && sub == s.shared.generation && !ExitTest(s.shared, sub)
  }

  ghost predicate Member(s: System, t: Tid, sub: int)
    requires s.WellFormed() && 0 <= t < |s.place|
  {
    s.round[t] < |s.joined| && t in s.joined[s.round[t]] && sub == s.round[t] % 2
  }

  ghost predicate LiveInv(s: System)
  {
    s.WellFormed() && s.shared.live && RoundsOk(s) && forall t :: 0 <= t < |s.place| ==> ThreadOk(s, t)
  }

  /** After shutdown nobody sleeps and both exit tests hold. */
  ghost predicate ShutInv(s: System)
  {
    && s.WellFormed()
    && !s.shared.live
    && s.shared.running == [s.shared.count, s.shared.count]
    && (forall t :: 0 <= t < |s.place| ==> !s.place[t].Asleep?)
  }

  ghost predicate Inv(s: System) { LiveInv(s) || ShutInv(s) }

  function Everyone(n: nat): (r: set<Tid>)
    ensures forall t: Tid :: t in r <==> t < n
    ensures |r| == n
  {
    if n == 0 then {} else Everyone(n - 1) + {n - 1}
  }

  lemma FullHouse(a: set<Tid>, n: nat)
    requires a <= Everyone(n)
    ensures |a| <= n
    ensures |a| == n ==> a == Everyone(n)
  {
    if n == 0 {
      assert a == {};
    } else {
      assert a - {n - 1} <= Everyone(n - 1);
      FullHouse(a - {n - 1}, n - 1);
      if n - 1 in a { assert a == (a - {n - 1}) + {n - 1}; } else { assert a == a - {n - 1}; }
    }
  }

  lemma InitInv(threads: nat, count: nat)
    ensures Inv(Init(threads, count))
  {
    var s := Init(threads, count);
    assert s.Now() == {};
    forall t | 0 <= t < threads ensures ThreadOk(s, t) { assert Times([{}], t) == Times([], t); }
  }

  /** A call counts once for the thread that makes it, and a new round counts for nobody. */
  lemma TimesJoin(joined: seq<set<Tid>>, t: Tid, last: bool, u: Tid)
    requires joined != [] && t !in joined[|joined| - 1]
    ensures Times(Join(joined, t, last), u) == Times(joined, u) + if u == t then 1 else 0
  {
    var n := |joined| - 1;
    var now := joined[n := joined[n] + {t}];
    assert now[..n] == joined[..n];
    if last { assert (now + [{}])[..n + 1] == now; }
  }

  lemma JoinRounds(joined: seq<set<Tid>>, t: Tid, last: bool)
    requires joined != []
    ensures var r, n := Join(joined, t, last), |joined| - 1;
            && r[..n] == joined[..n] && r[n] == joined[n] + {t} && (last ==> r[n + 1] == {})
  {
  }

  lemma EnterIs(s: System, t: Tid)
    requires s.WellFormed() && Enabled(s, Enter(t))
    requires s.shared.live && s.shared.running[s.shared.generation] <= s.shared.count
    ensures var (s', report) := Step(s, Enter(t));
            var gen, running := s.shared.generation, s.shared.running;
            var last := running[gen] == 1;
            && report == (if last then Done(t, 0) else Quiet)
            && s'.shared == (if last then Shared(s.shared.count, 1 - gen, running[gen := s.shared.count], true)
                             else s.shared.(running := running[gen := running[gen] - 1]))
            && s'.place == if last then Broadcast(s.place, gen)[t := Outside] else s.place[t := Asleep(gen)]
    ensures Step(s, Enter(t)).0.entered == s.entered[t := s.entered[t] + 1]
  {
  }

  lemma EnterJoins(s: System, t: Tid)
    requires s.WellFormed() && Enabled(s, Enter(t))
    requires s.shared.live && s.shared.running[s.shared.generation] <= s.shared.count
    ensures var s' := Step(s, Enter(t)).0;
            && s'.joined == Join(s.joined, t, s.shared.running[s.shared.generation] == 1)
            && s'.round == s.round[t := s.Rounds()] && s'.entered == s.entered[t := s.entered[t] + 1]
  {
  }

  lemma JoinSizes(joined: seq<set<Tid>>, t: Tid, count: int, threads: nat)
    requires joined != [] && Sizes(joined, count, threads) && t < threads && t !in joined[|joined| - 1]
    ensures Sizes(Join(joined, t, |joined[|joined| - 1]| == count - 1), count, threads)
  {
    var n := |joined| - 1;
    assert |joined[n] + {t}| == |joined[n]| + 1;
    JoinRounds(joined, t, |joined[n]| == count - 1);
    hide Everyone; hide Join;
  }

  lemma JoinTurns(b: Shared, joined: seq<set<Tid>>, t: Tid)
    requires b.Valid() && b.live && joined != [] && Turns(b, joined) && t !in joined[|joined| - 1]
    ensures Turns(Arrive(b).0, Join(joined, t, b.running[b.generation] == 1))
  {
    var n := |joined| - 1;
    assert |joined[n] + {t}| == |joined[n]| + 1;
    JoinRounds(joined, t, b.running[b.generation] == 1);
    hide Join;
  }

  lemma EnterKeepsRounds(s: System, t: Tid)
    requires s.WellFormed() && s.shared.live && RoundsOk(s) && Enabled(s, Enter(t)) && t !in s.Now()
    ensures RoundsOk(Step(s, Enter(t)).0)
  {
    EnterJoins(s, t);
    JoinSizes(s.joined, t, s.shared.count, |s.place|);
    JoinTurns(s.shared, s.joined, t);
    hide Sizes; hide Join;
  }

  /** The last round that `u` has joined. */
  lemma LastJoined(joined: seq<set<Tid>>, t: Tid, last: bool, u: Tid, m: nat)
    requires joined != [] && forall r :: 0 <= r < |joined| && u in joined[r] ==> r <= m
    ensures var after := Join(joined, t, last);
            forall r :: 0 <= r < |after| && u in after[r] ==> r <= if u == t then |joined| - 1 else m
  {
  }

  lemma EnterKeepsCounted(s: System, t: Tid, u: Tid)
    requires s.WellFormed() && Enabled(s, Enter(t)) && u < |s.place| && Counted(s, u) && t !in s.Now()
    requires s.shared.live && s.shared.running[s.shared.generation] <= s.shared.count
    ensures Counted(Step(s, Enter(t)).0, u)
  {
    var last := s.shared.running[s.shared.generation] == 1;
    EnterJoins(s, t);
    hide Step; hide Times; hide Join;
    TimesJoin(s.joined, t, last, u);
    LastJoined(s.joined, t, last, u, s.round[u]);
  }

  lemma EnterKeepsPlaced(s: System, t: Tid, u: Tid)
    requires LiveInv(s) && Enabled(s, Enter(t)) && u < |s.place|
    ensures Placed(Step(s, Enter(t)).0, u)
  {
    var last := s.shared.running[s.shared.generation] == 1;
    EnterIs(s, t);
    EnterJoins(s, t);
    assert ThreadOk(s, t) && ThreadOk(s, u);
    JoinRounds(s.joined, t, last);
    hide Step; hide Join; hide Counted; hide ThreadOk; hide Everyone;
  }

  lemma OtherKeepsInv(s: System, a: Action)
    requires LiveInv(s) && Enabled(s, a) && (a.Recheck? || a.Spurious?)
    ensures LiveInv(Step(s, a).0)
  {
    var s' := Step(s, a).0;
    assert s'.shared == s.shared && s'.joined == s.joined && s'.round == s.round && s'.entered == s.entered;
    forall u | 0 <= u < |s'.place| ensures ThreadOk(s', u) {
      assert ThreadOk(s, u);
      if u == a.t && a.Recheck? { RecheckIs(s, u); }
    }
  }

  /** A thread that tests again leaves just when it has not joined the current round, or sleeps on. */
  lemma RecheckIs(s: System, t: Tid)
    requires LiveInv(s) && Enabled(s, Recheck(t))
    ensures var (s', report) := Step(s, Recheck(t));
            if ExitTest(s.shared, s.place[t].sub) then
              t !in s.Now() && s'.place == s.place[t := Outside] && report == Done(t, 0)
            else
              && s.place[t].sub == s.shared.generation && s'.place == s.place[t := Asleep(s.place[t].sub)]
              && report == Quiet
  {
    assert ThreadOk(s, t);
    if t in s.Now() {
      assert s.round[t] == s.Rounds() && s.Now() != {};
    }
  }

  lemma CloseShutsDown(s: System)
    requires LiveInv(s)
    ensures ShutInv(Step(s, Close).0)
  {
    forall t | 0 <= t < |s.place| ensures !Step(s, Close).0.place[t].Asleep? { assert ThreadOk(s, t); }
  }

  lemma StepsAfterShutdown(s: System, a: Action)
    requires ShutInv(s) && Enabled(s, a)
    ensures ShutInv(Step(s, a).0)
    ensures a.Enter? || a.Recheck? ==> Step(s, a).1 == Done(a.t, -1)
  {
    if a.Recheck? {
      assert s.place[a.t].sub == 0 || s.place[a.t].sub == 1;
    }
  }

  lemma Joins(s: System, t: Tid)
    requires LiveInv(s) && Enabled(s, Enter(t))
    ensures t !in s.Now() && s.shared.running[s.shared.generation] <= s.shared.count
  {
    assert ThreadOk(s, t);
  }

  lemma StepKeepsInv(s: System, a: Action)
    requires Inv(s) && Enabled(s, a)
    ensures Inv(Step(s, a).0) && Step(s, a).0.shared.count == s.shared.count
    ensures !s.shared.live || a.Close? ==> !Step(s, a).0.shared.live
  {
    hide RoundsOk; hide Counted; hide Placed;
    if !s.shared.live {
      StepsAfterShutdown(s, a);
    } else if a.Enter? {
      Joins(s, a.t);
      EnterKeepsRounds(s, a.t);
      forall u | 0 <= u < |s.place| ensures ThreadOk(Step(s, a).0, u) {
        assert ThreadOk(s, u);
        EnterKeepsCounted(s, a.t, u);
        EnterKeepsPlaced(s, a.t, u);
      }
    } else if a.Close? {
      CloseShutsDown(s);
    } else {
      OtherKeepsInv(s, a);
    }
  }

  lemma {:induction false} RunKeepsInv(s: System, acts: seq<Action>)
    requires Inv(s) && CanRun(s, acts)
    ensures Inv(After(s, acts)) && After(s, acts).shared.count == s.shared.count
    ensures !s.shared.live ==> !After(s, acts).shared.live
    decreases acts
  {
    hide RoundsOk; hide ThreadOk; hide Step;
    if acts != [] {
      StepKeepsInv(s, acts[0]);
      RunKeepsInv(Step(s, acts[0]).0, acts[1..]);
    }
  }

  /** For every number of threads and every count. */
  lemma ReachableInv(threads: nat, count: nat, s: System)
    requires Reachable(threads, count, s)
    ensures Inv(s) && s.shared.count == count && |s.place| == threads
  {
    var acts :| CanRun(Init(threads, count), acts) && After(Init(threads, count), acts) == s;
    InitInv(threads, count);
    RunKeepsInv(Init(threads, count), acts);
  }

  // ----- what a user of the barrier relies on -----

  /** In every interleaving of any number of threads a `wait()` returns 0 as long as the barrier is not shut down and
      -1 afterwards.  One that returns 0 had joined a round that by then was completed by as many
      different threads as the barrier counts.  With exactly that many threads,
      one that is a thread's k-th call returns 0 only when every thread has made at least k calls. */
  lemma NobodyLeavesEarly(threads: nat, count: nat, s: System, a: Action)
    requires Reachable(threads, count, s) && Enabled(s, a)
    ensures var (s', report) := Step(s, a);
            && (report.Done? ==> report.value == if s.shared.live then 0 else -1)
            && (report.Done? && report.value == 0 ==>
              && report.t < threads && s'.round[report.t] < s'.Rounds()
              && report.t in s'.joined[s'.round[report.t]] && |s'.joined[s'.round[report.t]]| == count
              && (threads == count ==> forall u :: 0 <= u < threads ==> s'.entered[u] >= s'.entered[report.t]))
  {
    ReachableInv(threads, count, s);
    StepKeepsInv(s, a);
    if !s.shared.live {
      StepsAfterShutdown(s, a);
    } else if Step(s, a).1.Done? {
      LiveReturn(s, a);
      if threads == count {
        var s' := Step(s, a).0;
        forall u | 0 <= u < threads ensures s'.entered[u] >= s'.entered[a.t] {
          KeepsUp(s', u);
          KeepsUp(s', a.t);
        }
      }
    }
  }

  lemma LiveReturn(s: System, a: Action)
    requires LiveInv(s) && Enabled(s, a) && (a.Enter? || a.Recheck?) && Step(s, a).1.Done?
    requires LiveInv(Step(s, a).0)
    ensures var s' := Step(s, a).0;
            && Step(s, a).1 == Done(a.t, 0) && a.t !in s'.Now() && s'.round[a.t] < s'.Rounds()
            && a.t in s'.joined[s'.round[a.t]] && |s'.joined[s'.round[a.t]]| == s'.shared.count
  {
    assert ThreadOk(s, a.t) && ThreadOk(Step(s, a).0, a.t);
    if a.Recheck? { RecheckIs(s, a.t); } else { EnterIs(s, a.t); }
  }

  /** With no more threads than the barrier counts each completed round was joined by every thread. */
  lemma AllJoined(s: System, r: nat)
    requires LiveInv(s) && |s.place| <= s.shared.count && r < s.Rounds()
    ensures s.joined[r] == Everyone(|s.place|)
  {
    FullHouse(s.joined[r], |s.place|);
  }

  lemma {:induction false} AlwaysOrNever(joined: seq<set<Tid>>, t: Tid, always: bool)
    requires forall r :: 0 <= r < |joined| ==> (t in joined[r] <==> always)
    ensures Times(joined, t) == if always then |joined| else 0
  {
    if joined != [] { AlwaysOrNever(joined[..|joined| - 1], t, always); }
  }

  /** Then each thread has made one call for each completed round, and one more if it has joined this one. */
  lemma KeepsUp(s: System, t: Tid)
    requires LiveInv(s) && |s.place| <= s.shared.count && t < |s.place|
    ensures s.entered[t] == s.Rounds() + if t in s.Now() then 1 else 0
  {
    assert ThreadOk(s, t);
    forall r | 0 <= r < s.Rounds() ensures t in s.joined[r] { AllJoined(s, r); }
    AlwaysOrNever(s.joined[..s.Rounds()], t, true);
  }

  /** Whatever the number of threads, a sleeping thread always sleeps on the current sub-barrier of a live
      barrier with its exit test false, and the sub-barrier whose turn it is not is full again. */
  lemma NoWakeupIsLost(threads: nat, count: nat, s: System)
    requires Reachable(threads, count, s)
    ensures forall t :: 0 <= t < |s.place| && s.place[t].Asleep? ==>
              s.shared.live && s.place[t].sub == s.shared.generation && !ExitTest(s.shared, s.place[t].sub)
    ensures s.shared.live ==> ExitTest(s.shared, 1 - s.shared.generation)
  {
    ReachableInv(threads, count, s);
    forall t | 0 <= t < |s.place| && s.place[t].Asleep?
      ensures s.shared.live && s.place[t].sub == s.shared.generation && !ExitTest(s.shared, s.place[t].sub)
    {
      assert s.shared.live && ThreadOk(s, t);
    }
  }

  /** No thread is more than one call ahead of another. */
  ghost predicate InStep(s: System)
    requires s.WellFormed()
  {
    forall t, u :: 0 <= t < |s.place| && 0 <= u < |s.place| ==> s.entered[t] <= s.entered[u] + 1
  }

  /** Threads stay in step until shutdown just when there are no more than the barrier counts, or it counts
      none and lets nobody through. */
  lemma InStepIff(threads: nat, count: nat)
    ensures (forall s: System :: s.WellFormed() && Reachable(threads, count, s) && s.shared.live ==> InStep(s))
       <==> threads <= count || count == 0
  {
    if threads <= count || count == 0 {
      forall s: System | s.WellFormed() && Reachable(threads, count, s) && s.shared.live ensures InStep(s) {
        ReachableInv(threads, count, s);
        if count == 0 {
          NobodyGoesTwice(s);
        } else {
          forall t | 0 <= t < |s.place| ensures s.Rounds() <= s.entered[t] <= s.Rounds() + 1 { KeepsUp(s, t); }
        }
      }
    } else {
      var s := SomeoneLaps(threads, count);
      assert Reachable(threads, count, s) && !InStep(s);
    }
  }

  /** A barrier for none completes no round that anybody has joined. */
  lemma NobodyGoesTwice(s: System)
    requires LiveInv(s) && s.shared.count == 0
    ensures forall t :: 0 <= t < |s.place| ==> s.entered[t] <= 1
  {
    forall t | 0 <= t < |s.place| ensures s.entered[t] <= 1 {
      assert ThreadOk(s, t);
      AlwaysOrNever(s.joined[..s.Rounds()], t, false);
    }
  }

  // ----- deadlock -----

  /** The thread's next step returns. */
  predicate CanLeave(s: System, t: Tid)
    requires s.WellFormed()
  {
    Enabled(s, Recheck(t)) && Step(s, Recheck(t)).1.Done?
  }

  /** There are threads, all are inside `wait()`, and none of them can leave. */
  ghost predicate Stuck(s: System)
  {
    && s.WellFormed() && s.place != []
    && forall t :: 0 <= t < |s.place| ==> !s.place[t].Outside? && !CanLeave(s, t)
  }

  /** Deadlock is possible just when there are threads, but fewer than the barrier counts, or it counts none. */
  lemma StuckIff(threads: nat, count: nat)
    ensures (exists s :: Reachable(threads, count, s) && Stuck(s)) <==> 0 < threads && (threads < count || count == 0)
  {
    if 0 < threads && (threads < count || count == 0) {
      var s := ReachWaiting(threads, count, threads);
      assert Stuck(s);
    } else {
      forall s | Reachable(threads, count, s) ensures !Stuck(s) {
        ReachableInv(threads, count, s);
        if Stuck(s) { var t := SomeoneCanLeave(threads, count, s); }
      }
    }
  }

  /** With at least as many threads as the barrier counts, all of them inside `wait()`, one is awake and its next
      step returns: of those who joined the last completed round, one has not joined the current one. */
  lemma SomeoneCanLeave(threads: nat, count: nat, s: System) returns (t: Tid)
    requires threads >= count > 0 && Reachable(threads, count, s)
    requires forall u :: 0 <= u < |s.place| ==> !s.place[u].Outside?
    ensures s.WellFormed() && t < threads && CanLeave(s, t)
  {
    ReachableInv(threads, count, s);
    if s.shared.live {
      var last := if s.Rounds() == 0 then Everyone(|s.place|) else s.joined[s.Rounds() - 1];
      assert |last| > |s.Now()| && last <= Everyone(|s.place|);
      t := Missing(last, s.Now());
      assert t in Everyone(|s.place|);
      LeftBehind(s, t);
    } else {
      t := 0;
      assert s.place[t].Awake? && (s.place[t].sub == 0 || s.place[t].sub == 1);
    }
  }

  /** A thread inside `wait()` that has not joined the current round can leave if it has joined the one before
      or there was none. */
  lemma LeftBehind(s: System, t: Tid)
    requires LiveInv(s) && t < |s.place| && !s.place[t].Outside? && t !in s.Now()
    requires s.Rounds() > 0 ==> t in s.joined[s.Rounds() - 1]
    ensures CanLeave(s, t)
  {
    assert ThreadOk(s, t);
    hide Everyone; hide Times;
    assert s.round[t] == s.Rounds() - 1;
  }

  lemma Missing(a: set<Tid>, b: set<Tid>) returns (t: Tid)
    requires |a| > |b|
    ensures t in a && t !in b
  {
    if a <= b {
      Smaller(a, b);
      assert false;
    }
    t :| t in a && t !in b;
  }

  lemma Smaller(a: set<Tid>, b: set<Tid>)
    requires a <= b
    ensures |a| <= |b|
  {
    assert b == a + (b - a);
  }

  /** Only a shutdown ends a deadlock: spurious wakeups do not. */
  lemma {:induction false} StuckStays(s: System, later: seq<Action>)
    requires Inv(s) && Stuck(s) && CanRun(s, later) && Close !in later
    ensures Stuck(After(s, later))
    decreases later
  {
    if later != [] {
      StuckOnce(s, later[0]);
      StepKeepsInv(s, later[0]);
      StuckStays(Step(s, later[0]).0, later[1..]);
    }
  }

  lemma StuckOnce(s: System, a: Action)
    requires Inv(s) && Stuck(s) && Enabled(s, a) && a != Close
    ensures Stuck(Step(s, a).0)
  {
    assert a.Spurious? || a.Recheck?;
    var s' := Step(s, a).0;
    if s.shared.live { assert ThreadOk(s, a.t); } else { assert !s.place[a.t].Asleep?; }
    forall t | 0 <= t < |s'.place| ensures !s'.place[t].Outside? && !CanLeave(s', t) {
      assert !CanLeave(s, t);
    }
  }

  // ----- shutdown -----

  /** The first shutdown reports 0.  Once shut down the barrier stays so, whatever the number of threads: later
      shutdowns report -1, each blocked thread, stranded ones too, is awake with its exit test true, and
      every step that takes the lock in `wait()` returns -1. */
  lemma ShutdownIsFinal(threads: nat, count: nat, s: System, later: seq<Action>, a: Action)
    requires Reachable(threads, count, s)
    requires CanRun(Step(s, Close).0, later) && Enabled(After(Step(s, Close).0, later), a)
    ensures Step(s, Close).1 == Closed(if s.shared.live then 0 else -1)
    ensures var s' := After(Step(s, Close).0, later);
            && (a.Close? ==> Step(s', a).1 == Closed(-1))
            && (forall t :: 0 <= t < |s'.place| && !s'.place[t].Outside? ==>
                  s'.place[t].Awake? && ExitTest(s'.shared, s'.place[t].sub))
            && (a.Enter? || a.Recheck? ==> Step(s', a).1 == Done(a.t, -1))
  {
    ReachableInv(threads, count, s);
    StepKeepsInv(s, Close);
    RunKeepsInv(Step(s, Close).0, later);
    var s' := After(Step(s, Close).0, later);
    StepsAfterShutdown(s', a);
    forall t | 0 <= t < |s'.place| && !s'.place[t].Outside?
      ensures s'.place[t].Awake? && ExitTest(s'.shared, s'.place[t].sub)
    {
      assert s'.place[t].sub == 0 || s'.place[t].sub == 1;
    }
  }

  // ----- how many threads are too many -----

  /** The call of `u` completes the round of the current sub-barrier. */
  predicate Completes(s: System, u: Tid)
    requires s.WellFormed()
  {
    Enabled(s, Enter(u)) && s.shared.live && s.shared.running[s.shared.generation] == 1
  }

  /** Thread `t` sleeps in a call whose round has been completed by `u`: it was waiting for that round
      and has not made another call since. */
  ghost predicate Stranded(threads: nat, count: nat, s: System, u: Tid, t: Tid, later: seq<Action>)
  {
    && s.WellFormed() && Reachable(threads, count, s) && Completes(s, u)
    && t < |s.place| && s.place[t] == Asleep(s.shared.generation)
    && CanRun(Step(s, Enter(u)).0, later) && Enter(t) !in later
    && After(Step(s, Enter(u)).0, later).place[t].Asleep?
  }

  /** Two sub-barriers are enough for exactly as many threads as the barrier counts: a thread can be
      stranded just when there are more, and the barrier counts at least two. */
  lemma StrandsIff(threads: nat, count: nat)
    ensures (exists s, u, t, later :: Stranded(threads, count, s, u, t, later)) <==> threads > count >= 2
  {
    if threads > count >= 2 {
      ManyThreadsStrand(threads, count);
    } else {
      forall s, u, t, later ensures !Stranded(threads, count, s, u, t, later) {
        if Stranded(threads, count, s, u, t, later) {
          SleepersWaitForTwo(threads, count, s, u, t);
          FewThreadsAreReleased(threads, count, s, u, t, later);
        }
      }
    }
  }

  /** Nobody sleeps on a barrier for one, and one for none completes no round. */
  lemma SleepersWaitForTwo(threads: nat, count: nat, s: System, u: Tid, t: Tid)
    requires s.WellFormed() && Reachable(threads, count, s) && Completes(s, u)
    requires t < |s.place| && s.place[t] == Asleep(s.shared.generation)
    ensures count >= 2
  {
    ReachableInv(threads, count, s);
    assert ThreadOk(s, t);
  }

  lemma FewThreadsAreReleased(threads: nat, count: nat, s: System, u: Tid, t: Tid, later: seq<Action>)
    requires threads <= count && Reachable(threads, count, s) && s.WellFormed() && Completes(s, u)
    requires t < |s.place| && s.place[t] == Asleep(s.shared.generation)
    requires CanRun(Step(s, Enter(u)).0, later) && Enter(t) !in later
    ensures !After(Step(s, Enter(u)).0, later).place[t].Asleep?
  {
    ReachableInv(threads, count, s);
    StepKeepsInv(s, Enter(u));
    EnterIs(s, u);
    StaysReleased(Step(s, Enter(u)).0, t, later);
  }

  /** A thread that has not joined the current round is not asleep, and no round completes without it. */
  lemma {:induction false} StaysReleased(s: System, t: Tid, later: seq<Action>)
    requires Inv(s) && |s.place| <= s.shared.count && t < |s.place| && CanRun(s, later) && Enter(t) !in later
    requires s.shared.live ==> t !in s.Now()
    ensures !After(s, later).place[t].Asleep?
    decreases later
  {
    hide RoundsOk; hide ThreadOk; hide Step;
    NotAsleep(s, t);
    if later != [] {
      StepKeepsInv(s, later[0]);
      StillMissing(s, later[0], t);
      StaysReleased(Step(s, later[0]).0, t, later[1..]);
    }
  }

  lemma NotAsleep(s: System, t: Tid)
    requires Inv(s) && |s.place| <= s.shared.count && t < |s.place| && (s.shared.live ==> t !in s.Now())
    ensures !s.place[t].Asleep?
  {
    if s.shared.live {
      assert ThreadOk(s, t);
      if s.Rounds() > 0 { AllJoined(s, s.Rounds() - 1); }
    }
  }

  lemma StillMissing(s: System, a: Action, t: Tid)
    requires Inv(s) && |s.place| <= s.shared.count && t < |s.place| && (s.shared.live ==> t !in s.Now())
    requires Enabled(s, a) && a != Enter(t)
    ensures Step(s, a).0.shared.live ==> t !in Step(s, a).0.Now()
  {
    if s.shared.live && a.Enter? { EnterIs(s, a.t); }
  }

  // One thread too many: in a barrier for n, threads 0 to n - 1 complete a round, thread 0 is slow to
  // take the lock, threads 1 to n complete the next round, and thread 1 enters the sub-barrier of
  // the first round again before thread 0 looks at it.

  ghost predicate Waiting(s: System, threads: nat, n: nat, k: nat)
  {
    && s.WellFormed() && |s.place| == threads && s.shared == Shared(n, 0, [n - k, n], true)
    && forall t :: 0 <= t < threads ==>
         s.place[t] == (if t < k then Asleep(0) else Outside) && s.entered[t] == if t < k then 1 else 0
  }

  ghost predicate Released(s: System, threads: nat, n: nat, k: nat)
  {
    && s.WellFormed() && |s.place| == threads && s.shared == Shared(n, 1, [n, n], true)
    && forall t :: 0 <= t < threads ==>
         && s.place[t] == (if t == 0 || k <= t < n - 1 then Awake(0) else Outside)
         && s.entered[t] == if t < n then 1 else 0
  }

  ghost predicate WaitingAgain(s: System, threads: nat, n: nat, k: nat)
  {
    && s.WellFormed() && |s.place| == threads && s.shared == Shared(n, 1, [n, n - k], true)
    && forall t :: 0 <= t < threads ==>
         && s.place[t] == (if t == 0 then Awake(0) else if t <= k then Asleep(1) else Outside)
         && s.entered[t] == if 0 < t <= k then 2 else if t < n then 1 else 0
  }

  lemma {:induction false} ReachWaiting(threads: nat, n: nat, k: nat) returns (s: System)
    requires k <= threads && (k < n || n == 0)
    ensures Reachable(threads, n, s) && Waiting(s, threads, n, k)
  {
    if k == 0 {
      s := Init(threads, n);
      Reach(threads, n, s, []);
    } else {
      hide Reachable; hide Step;
      var w := ReachWaiting(threads, n, k - 1);
      OneMoreSleeps(w, threads, n, k);
      s := Extend(threads, n, w, Enter(k - 1));
    }
  }

  lemma OneMoreSleeps(w: System, threads: nat, n: nat, k: nat)
    requires 0 < k <= threads && (k < n || n == 0) && Waiting(w, threads, n, k - 1)
    ensures Enabled(w, Enter(k - 1)) && Waiting(Step(w, Enter(k - 1)).0, threads, n, k)
  {
    EnterIs(w, k - 1);
    hide Step;
  }

  /** The call that completes the first round. */
  lemma FirstRoundEnds(w: System, threads: nat, n: nat)
    requires threads > n >= 2 && Waiting(w, threads, n, n - 1)
    ensures Completes(w, n - 1) && Released(Step(w, Enter(n - 1)).0, threads, n, 1)
  {
    EnterIs(w, n - 1);
    hide Step;
  }

  lemma {:induction false} ReachReleased(s: System, threads: nat, n: nat, k: nat) returns (later: seq<Action>)
    requires threads > n >= 2 && 1 <= k <= n - 1 && Released(s, threads, n, 1)
    ensures CanRun(s, later) && Released(After(s, later), threads, n, k) && Enter(0) !in later
  {
    if k == 1 {
      later := [];
    } else {
      later := ReachReleased(s, threads, n, k - 1);
      var r := After(s, later);
      later := OneMore(s, later, Recheck(k - 1));
      hide After; hide CanRun;
      assert Step(r, Recheck(k - 1)).0 == r.(place := r.place[k - 1 := Outside]);
    }
  }

  lemma {:induction false} ReachWaitingAgain(s: System, threads: nat, n: nat, k: nat) returns (later: seq<Action>)
    requires threads > n >= 2 && k < n && Released(s, threads, n, 1)
    ensures CanRun(s, later) && WaitingAgain(After(s, later), threads, n, k) && Enter(0) !in later
  {
    if k == 0 {
      later := ReachReleased(s, threads, n, n - 1);
    } else {
      hide After; hide CanRun; hide Step;
      later := ReachWaitingAgain(s, threads, n, k - 1);
      OneMoreWaits(After(s, later), threads, n, k);
      later := OneMore(s, later, Enter(k));
    }
  }

  lemma OneMoreWaits(w: System, threads: nat, n: nat, k: nat)
    requires threads > n >= 2 && 0 < k < n && WaitingAgain(w, threads, n, k - 1)
    ensures Enabled(w, Enter(k)) && WaitingAgain(Step(w, Enter(k)).0, threads, n, k)
  {
    EnterIs(w, k);
    hide Step;
  }

  lemma OneMore(s: System, acts: seq<Action>, a: Action) returns (more: seq<Action>)
    requires s.WellFormed() && CanRun(s, acts) && Enabled(After(s, acts), a) && Enter(0) !in acts && a != Enter(0)
    ensures CanRun(s, more) && After(s, more) == Step(After(s, acts), a).0 && Enter(0) !in more
  {
    more := acts + [a];
    Append(s, acts, a);
  }

  /** The end of the second round, and what happens then: thread 1 leaves and comes back, and thread
      0 goes to sleep again. */
  lemma LastSteps(s: System, threads: nat, n: nat) returns (s1: System, s2: System, s3: System, s4: System)
    requires threads > n >= 2 && WaitingAgain(s, threads, n, n - 1)
    ensures Enabled(s, Enter(n)) && s1 == Step(s, Enter(n)).0
    ensures Enabled(s1, Recheck(1)) && s2 == Step(s1, Recheck(1)).0
    ensures Enabled(s2, Enter(1)) && s3 == Step(s2, Enter(1)).0
    ensures Enabled(s3, Recheck(0)) && s4 == Step(s3, Recheck(0)).0
    ensures |s4.place| == threads && s4.place[0] == Asleep(0)
  {
    s1 := Step(s, Enter(n)).0;
    assert s1.shared == Shared(n, 0, [n, n], true) && s1.place[1] == Awake(1) && s1.place[0] == Awake(0);
    s2 := Step(s1, Recheck(1)).0;
    assert s2.shared == s1.shared && s2.place[1] == Outside && s2.place[0] == Awake(0);
    s3 := Step(s2, Enter(1)).0;
    assert s3.shared == Shared(n, 0, [n - 1, n], true) && s3.place[0] == Awake(0);
    s4 := Step(s3, Recheck(0)).0;
  }

  lemma ManyThreadsStrand(threads: nat, n: nat)
    requires threads > n >= 2
    ensures exists s, u, t, later :: Stranded(threads, n, s, u, t, later)
  {
    var w := ReachWaiting(threads, n, n - 1);
    FirstRoundEnds(w, threads, n);
    var s := Step(w, Enter(n - 1)).0;
    var later := ReachWaitingAgain(s, threads, n, n - 1);
    var s1, s2, s3, s4 := LastSteps(After(s, later), threads, n);
    hide After; hide CanRun; hide Step; hide Reachable; hide WaitingAgain; hide Enabled; hide Released;
    later := OneMore(s, later, Enter(n));
    later := OneMore(s, later, Recheck(1));
    later := OneMore(s, later, Enter(1));
    later := OneMore(s, later, Recheck(0));
    assert Stranded(threads, n, w, n - 1, 0, later);
  }

  lemma Reach(threads: nat, count: nat, s: System, acts: seq<Action>)
    requires CanRun(Init(threads, count), acts) && After(Init(threads, count), acts) == s
    ensures Reachable(threads, count, s)
  {
  }

  lemma Extend(threads: nat, count: nat, s: System, a: Action) returns (s': System)
    requires Reachable(threads, count, s) && s.WellFormed() && Enabled(s, a)
    ensures s' == Step(s, a).0 && Reachable(threads, count, s')
  {
    s' := Step(s, a).0;
    var acts :| CanRun(Init(threads, count), acts) && After(Init(threads, count), acts) == s;
    Append(Init(threads, count), acts, a);
    Reach(threads, count, s', acts + [a]);
  }

  lemma {:induction false} Append(s: System, acts: seq<Action>, a: Action)
    requires s.WellFormed() && CanRun(s, acts) && Enabled(After(s, acts), a)
    ensures CanRun(s, acts + [a]) && After(s, acts + [a]) == Step(After(s, acts), a).0
    decreases acts
  {
    if acts == [] {
      assert (acts + [a])[1..] == [];
    } else {
      Append(Step(s, acts[0]).0, acts[1..], a);
      assert (acts + [a])[1..] == acts[1..] + [a];
    }
  }

  lemma {:induction false} ReachLater(threads: nat, count: nat, s: System, later: seq<Action>)
    requires Reachable(threads, count, s) && s.WellFormed() && CanRun(s, later)
    ensures Reachable(threads, count, After(s, later))
    decreases later
  {
    if later != [] {
      hide Reachable;
      var s' := Extend(threads, count, s, later[0]);
      ReachLater(threads, count, s', later[1..]);
    }
  }

  /** A thread that is two calls ahead of another. */
  lemma SomeoneLaps(threads: nat, n: nat) returns (s: System)
    requires threads > n >= 1
    ensures Reachable(threads, n, s) && s.WellFormed() && s.shared.live && !InStep(s)
  {
    hide Reachable; hide Step; hide CanRun; hide After;
    var w := ReachWaiting(threads, n, n - 1);
    if n == 1 {
      FirstLaps(w, threads);
      s := Extend(threads, 1, w, Enter(0));
      s := Extend(threads, 1, s, Enter(0));
    } else {
      FirstRoundEnds(w, threads, n);
      s := Extend(threads, n, w, Enter(n - 1));
      var later := ReachWaitingAgain(s, threads, n, 1);
      ReachLater(threads, n, s, later);
      s := After(s, later);
      assert s.entered[1] == 2 && s.entered[n] == 0;
    }
  }

  /** On a barrier for one nobody waits. */
  lemma FirstLaps(w: System, threads: nat)
    requires threads > 1 && Waiting(w, threads, 1, 0)
    ensures Enabled(w, Enter(0)) && Enabled(Step(w, Enter(0)).0, Enter(0))
    ensures var s := Step(Step(w, Enter(0)).0, Enter(0)).0;
            s.shared.live && s.entered[0] == 2 && s.entered[1] == 0
  {
    EnterIs(w, 0);
    EnterIs(Step(w, Enter(0)).0, 0);
    hide Step;
  }
}
