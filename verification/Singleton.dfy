/** Double-checked creation of a lazy singleton: cSingleton_IMPL's get_Single, the base constructor
    that publishes the pointer, RegisterSingleton, and the reentrant lock of GetLockAll, for any
    number of threads. Every load, store and compare-exchange of a shared field is a step; a run is
    any interleaving of steps under sequential consistency. */
module Singleton {
  import opened Wrappers

  type Obj = nat

  /** Which guard a lock operation is for: that of get_Single, or the one inside RegisterSingleton. */
  datatype Guard = Outer | Nested(o: Obj)

  datatype Pc =
    | Start                          // about to test sm_pThe without the lock
    | TryLock(g: Guard)              // about to compare-exchange _ThreadLockOwner
    | CountUp(g: Guard)              // owner; about to load _nLockCount
    | CountUpStore(g: Guard, c: int) // ... about to store c + 1
    | Recheck                        // about to test sm_pThe again
    | CtorTest(o: Obj)               // in the base constructor of the new object
    | Publish(o: Obj)                // ... about to store sm_pThe
    | CtorRest(o: Obj)               // in the constructors of the derived classes
    | Register(o: Obj)               // under the nested guard, about to look at the register
    | CountDown(g: Guard)            // about to load _nLockCount
    | CountDownStore(g: Guard, c: int)
    | ClearOwner                     // count reached 0; about to store _ThreadLockOwner
    | Final(locked: bool)            // about to load sm_pThe for the result
    | Done(locked: bool, result: Option<Obj>)

  datatype State = State(
    threads: seq<Pc>,
    the: Option<Obj>,       // sm_pThe
    owner: Option<nat>,     // _ThreadLockOwner
    count: int,             // _nLockCount
    made: nat,              // objects allocated so far; the next one is named made
    built: set<Obj>,        // objects whose construction has finished
    register: seq<Obj>)     // cDependMgr's list

  function Init(n: nat): State { State(seq(n, _ => Start), None, None, 0, 0, {}, []) }

  function Go(s: State, t: nat, pc: Pc): State
    requires t < |s.threads|
  {
    s.(threads := s.threads[t := pc])
  }

  /** One step of thread t. */
  function Do(s: State, t: nat): (s': State)
    ensures |s'.threads| == |s.threads|
  {
    if t >= |s.threads| then s else
    match s.threads[t]
    case Start => Go(s, t, if s.the.Some? then Final(false) else TryLock(Outer))
    case TryLock(g) =>
      if s.owner == None || s.owner == Some(t) then Go(s.(owner := Some(t)), t, CountUp(g)) else s
    case CountUp(g) => Go(s, t, CountUpStore(g, s.count))
    case CountUpStore(g, c) => Go(s.(count := c + 1), t, if g.Outer? then Recheck else Register(g.o))
    case Recheck =>
      if s.the.Some? then Go(s, t, CountDown(Outer))
      else Go(s.(made := s.made + 1), t, CtorTest(s.made))
    case CtorTest(o) => Go(s, t, if s.the.Some? then CtorRest(o) else Publish(o))
    case Publish(o) => Go(s.(the := Some(o)), t, CtorRest(o))
    case CtorRest(o) => Go(s.(built := s.built + {o}), t, TryLock(Nested(o)))
    case Register(o) =>
      Go(if o in s.register then s else s.(register := s.register + [o]), t, CountDown(Nested(o)))
    case CountDown(g) => Go(s, t, CountDownStore(g, s.count))
    case CountDownStore(g, c) =>
      Go(s.(count := c - 1), t, if c - 1 == 0 then ClearOwner else CountDown(Outer))
    case ClearOwner => Go(s.(owner := None), t, Final(true))
    case Final(locked) => Go(s, t, Done(locked, s.the))
    case Done(_, _) => s
  }

  /** A schedule says which thread takes each step. */
  function Run(s: State, schedule: seq<nat>): (s': State)
    ensures |s'.threads| == |s.threads|
  {
    if schedule == [] then s else Do(Run(s, schedule[..|schedule| - 1]), schedule[|schedule| - 1])
  }

  /** The thread is between its successful compare-exchange and clearing the owner. */
  predicate InLock(pc: Pc) {
    !pc.Start? && !pc.Final? && !pc.Done? && pc != TryLock(Outer)
  }

  /** The lock count while the thread is at pc. */
  function Depth(pc: Pc): int {
    match pc
    case CountUp(g) => if g.Outer? then 0 else 1
    case CountUpStore(g, _) => if g.Outer? then 0 else 1
    case Register(_) => 2
    case CountDown(g) => if g.Outer? then 1 else 2
    case CountDownStore(g, _) => if g.Outer? then 1 else 2
    case ClearOwner => 0
    case _ => 1
  }

  /** How far creation has come when the thread that owns the lock is at pc. */
  datatype Stage = Nothing | Allocated | Published | Built | Registered

  function StageAt(pc: Pc, the: Option<Obj>): Stage {
    match pc
    case CtorTest(_) => Allocated
    case Publish(_) => Allocated
    case CtorRest(_) => Published
    case TryLock(g) => if g.Nested? then Built else if the.Some? then Registered else Nothing
    case CountUp(g) => if g.Nested? then Built else if the.Some? then Registered else Nothing
    case CountUpStore(g, _) => if g.Nested? then Built else if the.Some? then Registered else Nothing
    case Register(_) => Built
    case CountDown(_) => Registered
    case CountDownStore(_, _) => Registered
    case ClearOwner => Registered
    case _ => if the.Some? then Registered else Nothing
  }

  ghost predicate AtStage(s: State, stage: Stage) {
    match stage
    case Nothing => s.the == None && s.made == 0 && s.built == {} && s.register == []
    case Allocated => s.the == None && s.made == 1 && s.built == {} && s.register == []
    case Published => s.the == Some(0) && s.made == 1 && s.built == {} && s.register == []
    case Built => s.the == Some(0) && s.made == 1 && s.built == {0} && s.register == []
    case Registered => s.the == Some(0) && s.made == 1 && s.built == {0} && s.register == [0]
  }

  ghost predicate ThreadOk(s: State, t: nat)
    requires t < |s.threads|
  {
    var pc := s.threads[t];
    && (InLock(pc) <==> s.owner == Some(t))
    && (InLock(pc) ==> s.count == Depth(pc) && AtStage(s, StageAt(pc, s.the)))
    && (pc.CountUpStore? || pc.CountDownStore? ==> pc.c == s.count)
    && (pc.CtorTest? || pc.Publish? || pc.CtorRest? || pc.Register? ==> pc.o == 0)
    && ((pc.TryLock? || pc.CountUp? || pc.CountUpStore?) && pc.g.Nested? ==> pc.g.o == 0)
    && (pc.Final? ==> s.the.Some? && (pc.locked ==> s.register == [0]))
    && (pc.Done? ==> pc.result == s.the == Some(0) && (pc.locked ==> s.register == [0]))
  }

  ghost predicate Inv(s: State) {
    && (forall t :: 0 <= t < |s.threads| ==> ThreadOk(s, t))
    && (s.owner.Some? ==> s.owner.value < |s.threads|)
    && (s.owner == None ==> s.count == 0 && AtStage(s, if s.the.Some? then Registered else Nothing))
    && (s.the.Some? ==> s.the == Some(0))
    && (s.register == [] || (s.register == [0] && s.built == {0} && s.the == Some(0)))
    && s.made <= 1
  }

  /** A thread that is not stepping keeps its part of the invariant. */
  lemma OthersKeep(s: State, t: nat, i: nat)
    requires Inv(s) && t < |s.threads| && i < |s.threads| && i != t
    ensures ThreadOk(Do(s, t), i)
  {
    assert ThreadOk(s, t) && ThreadOk(s, i);
  }

  lemma StepKeepsInv(s: State, t: nat)
    requires Inv(s)
    ensures Inv(Do(s, t))
    ensures s.the.Some? ==> Do(s, t).the == s.the
  {
    if t < |s.threads| {
      var s' := Do(s, t);
      assert ThreadOk(s, t);
      forall i | 0 <= i < |s.threads| ensures ThreadOk(s', i) {
        if i != t {
          OthersKeep(s, t, i);
        }
      }
    }
  }

  lemma {:induction false} RunKeepsInv(n: nat, schedule: seq<nat>)
    ensures Inv(Run(Init(n), schedule))
  {
    if schedule != [] {
      RunKeepsInv(n, schedule[..|schedule| - 1]);
      StepKeepsInv(Run(Init(n), schedule[..|schedule| - 1]), schedule[|schedule| - 1]);
    }
  }

  /** Over every schedule: at most one object is ever made and at most one registered; no two threads
      are inside the lock; and every caller gets that one object. */
  lemma OnlyOne(n: nat, schedule: seq<nat>)
    ensures var s := Run(Init(n), schedule);
            && s.made <= 1 && |s.register| <= 1
            && (forall i, j :: 0 <= i < n && 0 <= j < n && InLock(s.threads[i]) && InLock(s.threads[j]) ==> i == j)
            && (forall i :: 0 <= i < n && s.threads[i].Done? ==> s.threads[i].result == s.the == Some(0))
  {
    RunKeepsInv(n, schedule);
    var s := Run(Init(n), schedule);
    forall i, j | 0 <= i < n && 0 <= j < n && InLock(s.threads[i]) && InLock(s.threads[j]) ensures i == j {
      assert ThreadOk(s, i) && ThreadOk(s, j);
    }
    forall i | 0 <= i < n && s.threads[i].Done? ensures s.threads[i].result == s.the == Some(0) {
      assert ThreadOk(s, i);
    }
  }

  /** sm_pThe never changes once it is set, however the run goes on. */
  lemma {:induction false} PointerIsStable(n: nat, schedule: seq<nat>, more: seq<nat>)
    requires Run(Init(n), schedule).the.Some?
    ensures Run(Init(n), schedule + more).the == Run(Init(n), schedule).the
  {
    if more == [] {
      assert schedule + more == schedule;
    } else {
      var front := schedule + more[..|more| - 1];
      PointerIsStable(n, schedule, more[..|more| - 1]);
      assert (schedule + more)[..|schedule + more| - 1] == front;
      RunKeepsInv(n, front);
      StepKeepsInv(Run(Init(n), front), more[|more| - 1]);
    }
  }

  /** A caller that took the lock returns only after construction and registration have finished. */
  lemma LockedCallersSeeItFinished(n: nat, schedule: seq<nat>, t: nat)
    requires t < n && Run(Init(n), schedule).threads[t].Done? && Run(Init(n), schedule).threads[t].locked
    ensures var s := Run(Init(n), schedule);
            s.threads[t].result.Some? && s.threads[t].result.value in s.built && s.threads[t].result.value in s.register
  {
    RunKeepsInv(n, schedule);
    assert ThreadOk(Run(Init(n), schedule), t);
  }

  /** The one object is published, built and registered. */
  predicate Finished(s: State) { s.the.Some? && s.the.value in s.built && s.the.value in s.register }

  /** The thread has published the pointer and not yet finished: it is in the constructors of the derived classes, or
      on its way to registration under the second guard. */
  predicate Busy(pc: Pc) {
    pc.CtorRest? || pc.Register? || ((pc.TryLock? || pc.CountUp? || pc.CountUpStore?) && pc.g.Nested?)
  }

  /** A caller that got the pointer without the lock got a finished object exactly when no thread is busy with it,
      and only the owner of the lock can be. */
  lemma FinishedUnlessBusy(n: nat, schedule: seq<nat>)
    ensures var s := Run(Init(n), schedule);
            && (s.the.Some? ==> (Finished(s) <==> forall i :: 0 <= i < n ==> !Busy(s.threads[i])))
            && (forall i :: 0 <= i < n && Busy(s.threads[i]) ==> s.the.Some? && s.owner == Some(i))
  {
    RunKeepsInv(n, schedule);
    var s := Run(Init(n), schedule);
    forall i | 0 <= i < n && Busy(s.threads[i]) ensures s.the.Some? && s.owner == Some(i) && !Finished(s) {
      assert ThreadOk(s, i);
    }
    if s.the.Some? && s.owner.Some? {
      assert ThreadOk(s, s.owner.value);
    }
  }

  /** What an unlocked caller gets, and when: its result is the object, finished unless the lock's owner is busy. */
  lemma UnlockedCallerIsEarlyWhenBusy(n: nat, schedule: seq<nat>, t: nat)
    requires t < n && Run(Init(n), schedule).threads[t].Done?
    ensures var s := Run(Init(n), schedule);
            && s.threads[t].result == s.the == Some(0)
            && (!Finished(s) <==> s.owner.Some? && s.owner.value < n && Busy(s.threads[s.owner.value]))
  {
    OnlyOne(n, schedule);
    FinishedUnlessBusy(n, schedule);
    RunKeepsInv(n, schedule);
  }

  lemma StepStaysFinished(s: State, t: nat)
    requires Inv(s) && Finished(s)
    ensures Finished(Do(s, t))
  {
    StepKeepsInv(s, t);
    if t < |s.threads| {
      assert ThreadOk(s, t);
    }
  }

  /** Once the object is finished it stays so, however the run goes on. */
  lemma {:induction false} StaysFinished(n: nat, schedule: seq<nat>, more: seq<nat>)
    requires Finished(Run(Init(n), schedule))
    ensures Finished(Run(Init(n), schedule + more))
  {
    if more == [] {
      assert schedule + more == schedule;
    } else {
      var front := schedule + more[..|more| - 1];
      StaysFinished(n, schedule, more[..|more| - 1]);
      assert (schedule + more)[..|schedule + more| - 1] == front;
      RunKeepsInv(n, front);
      StepStaysFinished(Run(Init(n), front), more[|more| - 1]);
    }
  }

  /** What a caller can look at: with the pointer set and nobody in the lock, the object is finished, for good. */
  lemma UnownedIsFinished(n: nat, schedule: seq<nat>, more: seq<nat>)
    requires Run(Init(n), schedule).the.Some? && Run(Init(n), schedule).owner == None
    ensures Finished(Run(Init(n), schedule + more))
  {
    FinishedUnlessBusy(n, schedule);
    StaysFinished(n, schedule, more);
  }

  /** The thread that owns the lock is never kept waiting by it, not even by the second guard that it
      takes while it registers. */
  lemma OwnerNeverWaits(n: nat, schedule: seq<nat>, t: nat)
    requires t < n && InLock(Run(Init(n), schedule).threads[t])
    ensures var s := Run(Init(n), schedule); Do(s, t).threads[t] != s.threads[t]
  {
    RunKeepsInv(n, schedule);
    assert ThreadOk(Run(Init(n), schedule), t);
  }

  // ----- every call comes to its end

  /** How many steps a thread needs at most, if the lock is free or its own. */
  function Left(pc: Pc): nat {
    match pc
    case Start => 18
    case TryLock(g) => if g.Outer? then 17 else 10
    case CountUp(g) => if g.Outer? then 16 else 9
    case CountUpStore(g, _) => if g.Outer? then 15 else 8
    case Recheck => 14
    case CtorTest(_) => 13
    case Publish(_) => 12
    case CtorRest(_) => 11
    case Register(_) => 7
    case CountDown(g) => if g.Outer? then 4 else 6
    case CountDownStore(g, _) => if g.Outer? then 3 else 5
    case ClearOwner => 2
    case Final(_) => 1
    case Done(_, _) => 0
  }

  function Turns(t: nat, k: nat): seq<nat> { if k == 0 then [] else Turns(t, k - 1) + [t] }

  lemma StepComesNearer(s: State, t: nat)
    requires Inv(s) && t < |s.threads| && (s.owner == None || s.owner == Some(t)) && !s.threads[t].Done?
    ensures var s' := Do(s, t); (s'.owner == None || s'.owner == Some(t)) && Left(s'.threads[t]) < Left(s.threads[t])
  {
    assert ThreadOk(s, t);
  }

  /** After k turns of a thread that began with so many steps to go. */
  ghost predicate AfterTurns(s: State, t: nat, k: nat, left: nat)
    requires t < |s.threads|
  {
    Inv(s) && (s.owner == None || s.owner == Some(t)) && (s.threads[t].Done? || Left(s.threads[t]) + k <= left)
  }

  lemma OneMoreTurn(s: State, t: nat, k: nat, left: nat)
    requires t < |s.threads| && AfterTurns(s, t, k, left)
    ensures AfterTurns(Do(s, t), t, k + 1, left)
  {
    StepKeepsInv(s, t);
    if !s.threads[t].Done? {
      StepComesNearer(s, t);
    }
  }

  lemma {:induction false} TurnsComeNearer(s: State, t: nat, k: nat)
    requires Inv(s) && t < |s.threads| && (s.owner == None || s.owner == Some(t))
    ensures AfterTurns(Run(s, Turns(t, k)), t, k, Left(s.threads[t]))
  {
    if k > 0 {
      TurnsComeNearer(s, t, k - 1);
      LastTurn(s, t, k);
      OneMoreTurn(Run(s, Turns(t, k - 1)), t, k - 1, Left(s.threads[t]));
    }
  }

  /** No call gets stuck, and none waits for one that cannot go on: whatever has happened, a thread for which the lock is
      free, or which owns it, returns after at most 18 steps of its own, with the one object. */
  lemma CallEnds(n: nat, schedule: seq<nat>, t: nat)
    requires t < n && (Run(Init(n), schedule).owner == None || Run(Init(n), schedule).owner == Some(t))
    ensures var s := Run(Run(Init(n), schedule), Turns(t, 18));
            s.threads[t].Done? && s.threads[t].result == s.the == Some(0) && (s.owner == None || s.owner == Some(t))
  {
    RunKeepsInv(n, schedule);
    TurnsEnd(Run(Init(n), schedule), t);
  }

  lemma TurnsEnd(s: State, t: nat)
    requires Inv(s) && t < |s.threads| && (s.owner == None || s.owner == Some(t))
    ensures var s' := Run(s, Turns(t, 18));
            s'.threads[t].Done? && s'.threads[t].result == s'.the == Some(0) && (s'.owner == None || s'.owner == Some(t))
  {
    TurnsComeNearer(s, t, 18);
    LeftIsBounded(s.threads[t]);
    LeftIsBounded(Run(s, Turns(t, 18)).threads[t]);
    assert ThreadOk(Run(s, Turns(t, 18)), t);
  }

  lemma LeftIsBounded(pc: Pc)
    ensures Left(pc) <= 18 && (Left(pc) == 0 <==> pc.Done?)
  {
  }

  /** A first caller on its own gets an object that is built and registered, and leaves the lock free. */
  lemma FirstCallMakesIt(n: nat, t: nat)
    requires t < n
    ensures var s := Run(Init(n), Turns(t, 18));
            && Finished(s) && s.owner == None && s.made == 1 && s.register == [0]
            && s.threads[t] == Done(true, Some(0))
  {
    assert Run(Init(n), []) == Init(n);
    CallEnds(n, [], t);
    LocksIfFirst(n, t, 18);
    var s := Run(Init(n), Turns(t, 18));
    TurnsComeNearer(Init(n), t, 18);
    assert ThreadOk(s, t);
  }

  /** A thread that runs alone from the start finds no object, and takes the lock. */
  lemma {:induction false} LocksIfFirst(n: nat, t: nat, k: nat)
    requires t < n && k > 0
    ensures Locks(Run(Init(n), Turns(t, k)).threads[t])
  {
    LastTurn(Init(n), t, k);
    if k > 1 {
      LocksIfFirst(n, t, k - 1);
      StillLocks(Run(Init(n), Turns(t, k - 1)), t);
    } else {
      FirstTurn(n, t);
    }
  }

  lemma LastTurn(s: State, t: nat, k: nat)
    requires k > 0
    ensures Run(s, Turns(t, k)) == Do(Run(s, Turns(t, k - 1)), t)
  {
    assert Turns(t, k)[..|Turns(t, k)| - 1] == Turns(t, k - 1);
  }

  lemma FirstTurn(n: nat, t: nat)
    requires t < n
    ensures Run(Init(n), Turns(t, 0)) == Init(n) && Locks(Do(Init(n), t).threads[t])
  {
    assert Init(n).threads[t] == Start;
  }

  predicate Locks(pc: Pc) { !pc.Start? && (pc.Final? ==> pc.locked) && (pc.Done? ==> pc.locked) }

  lemma StillLocks(s: State, t: nat)
    requires t < |s.threads| && Locks(s.threads[t])
    ensures Locks(Do(s, t).threads[t])
  {
  }

  /** What thread 0 does in k steps until it has published the pointer; thread 1 has not begun. */
  function Early(k: nat): (s: State)
    ensures |s.threads| == 2 && s.threads[1] == Start
  {
    if k == 0 then State([Start, Start], None, None, 0, 0, {}, [])
    else if k == 1 then State([TryLock(Outer), Start], None, None, 0, 0, {}, [])
    else if k == 2 then State([CountUp(Outer), Start], None, Some(0), 0, 0, {}, [])
    else if k == 3 then State([CountUpStore(Outer, 0), Start], None, Some(0), 0, 0, {}, [])
    else if k == 4 then State([Recheck, Start], None, Some(0), 1, 0, {}, [])
    else if k == 5 then State([CtorTest(0), Start], None, Some(0), 1, 1, {}, [])
    else if k == 6 then State([Publish(0), Start], None, Some(0), 1, 1, {}, [])
    else State([CtorRest(0), Start], Some(0), Some(0), 1, 1, {}, [])
  }

  lemma EarlyStep(k: nat)
    requires k < 7
    ensures Do(Early(k), 0) == Early(k + 1)
  {
    assert Do(Early(k), 0).threads == Early(k + 1).threads;
  }

  lemma {:induction false} EarlyRun(k: nat) returns (schedule: seq<nat>)
    requires k <= 7
    ensures Run(Init(2), schedule) == Early(k)
  {
    if k == 0 {
      assert Init(2).threads == [Start, Start];
      return [];
    }
    var s;
    schedule := EarlyRun(k - 1);
    schedule, s := Play(Init(2), schedule, Early(k - 1), 0);
    EarlyStep(k - 1);
  }

  lemma Play(s0: State, schedule: seq<nat>, s: State, t: nat) returns (schedule': seq<nat>, s': State)
    requires Run(s0, schedule) == s
    ensures schedule' == schedule + [t] && s' == Do(s, t) && Run(s0, schedule') == s'
  {
    schedule', s' := schedule + [t], Do(s, t);
    assert schedule'[..|schedule|] == schedule;
  }

  /** A caller that saw the pointer without the lock has no such promise: there is a run of two threads
      in which the second returns an object that is neither built nor registered. */
  lemma UnlockedCallerMayBeEarly()
    ensures exists schedule :: var s := Run(Init(2), schedule);
              s.threads[1] == Done(false, Some(0)) && 0 !in s.built && 0 !in s.register
  {
    var schedule := EarlyRun(7);
    var s := Run(Init(2), schedule);
    schedule, s := Play(Init(2), schedule, s, 1);
    schedule, s := Play(Init(2), schedule, s, 1);
  }
}
