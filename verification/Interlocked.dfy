/** The compare-exchange retry loops of cInterlockedVal: any number of threads run increments, decrements,
    exchanges and additions on one 32 bit word, a load and a compare-exchange at a time. */
module Interlocked {

  const TWO31 := 0x8000_0000
  const TWO32 := 0x1_0000_0000

  /** What an INT32 keeps of a number. */
  function Wrap32(n: int): int { (n + TWO31) % TWO32 - TWO31 }

  datatype Op = Increment | Decrement | Exchange(val: int) | ExchangeAdd(val: int)

  /** What the loop stores for the value it loaded, and what it returns. */
  function Next(op: Op, w: int): int {
    match op
    case Increment => Wrap32(w + 1)
    case Decrement => Wrap32(w - 1)
    case Exchange(val) => val
    case ExchangeAdd(val) => Wrap32(w + val)
  }

  function Result(op: Op, w: int): int { if op.Increment? || op.Decrement? then Next(op, w) else w }

  /** Where a thread is: between operations, about to load, or about to compare with what it loaded when
      so many operations had completed. */
  datatype Pc = Idle | Load(op: Op) | Compare(op: Op, comp: int, seen: nat)

  datatype Done = Done(t: nat, op: Op, result: int)

  /** log holds the operations that completed, in the order of their compare-exchanges. */
  datatype State = State(word: int, threads: seq<Pc>, log: seq<Done>)

  datatype Step = Begin(t: nat, op: Op) | Advance(t: nat)

  function Init(word: int, n: nat): State { State(word, seq(n, _ => Idle), []) }

  /** One step; a step that the state does not allow changes nothing. */
  function Do(s: State, step: Step): (s': State)
    ensures |s'.threads| == |s.threads|
  {
    var t := step.t;
    if t >= |s.threads| then s else
    match s.threads[t]
    case Idle => if step.Begin? then s.(threads := s.threads[t := Load(step.op)]) else s
    case Load(op) => if step.Begin? then s else s.(threads := s.threads[t := Compare(op, s.word, |s.log|)])
    case Compare(op, comp, seen) =>
      if step.Begin? then s
      else if s.word == comp then
        State(Next(op, comp), s.threads[t := Idle], s.log + [Done(t, op, Result(op, comp))])
      else s.(threads := s.threads[t := Load(op)])
  }

  function Run(s: State, steps: seq<Step>): (s': State)
    ensures |s'.threads| == |s.threads|
  {
    if steps == [] then s else Do(Run(s, steps[..|steps| - 1]), steps[|steps| - 1])
  }

  /** The word after whole operations, one after the other. */
  function Replay(word: int, log: seq<Done>): int {
    if log == [] then word else Next(log[|log| - 1].op, Replay(word, log[..|log| - 1]))
  }

  /** Every operation of the log returned what it returns when the ones before it are over and it runs alone. */
  ghost predicate Sequential(word: int, log: seq<Done>) {
    forall i :: 0 <= i < |log| ==> ResultIs(word, log, i)
  }

  ghost predicate ResultIs(word: int, log: seq<Done>, i: nat)
    requires i < |log|
  {
    log[i].result == Result(log[i].op, Replay(word, log[..i]))
  }

  /** A thread about to compare holds the value that the word had when it was loaded. */
  ghost predicate Loaded(word: int, log: seq<Done>, pc: Pc) {
    pc.Compare? ==> pc.seen <= |log| && pc.comp == Replay(word, log[..pc.seen])
  }

  ghost predicate Inv(word: int, s: State) {
    && s.word == Replay(word, s.log) && Sequential(word, s.log)
    && forall t :: 0 <= t < |s.threads| ==> Loaded(word, s.log, s.threads[t])
  }

  lemma LogGrows(word: int, log: seq<Done>, d: Done)
    requires Sequential(word, log) && d.result == Result(d.op, Replay(word, log))
    ensures Sequential(word, log + [d]) && Replay(word, log + [d]) == Next(d.op, Replay(word, log))
    ensures forall pc :: Loaded(word, log, pc) ==> Loaded(word, log + [d], pc)
  {
    assert (log + [d])[..|log|] == log;
    forall i | 0 <= i < |log + [d]| ensures ResultIs(word, log + [d], i) {
      assert (log + [d])[..i] == log[..i];
      assert i < |log| ==> ResultIs(word, log, i);
    }
    forall pc | Loaded(word, log, pc) ensures Loaded(word, log + [d], pc) {
      assert pc.Compare? ==> (log + [d])[..pc.seen] == log[..pc.seen];
    }
  }

  lemma StepKeepsInv(word: int, s: State, step: Step)
    requires Inv(word, s)
    ensures Inv(word, Do(s, step))
  {
    assert s.log[..|s.log|] == s.log;
    if step.t < |s.threads| && step.Advance? && s.threads[step.t].Compare? {
      var pc := s.threads[step.t];
      if s.word == pc.comp {
        LogGrows(word, s.log, Done(step.t, pc.op, Result(pc.op, pc.comp)));
      }
    }
  }

  lemma {:induction false} RunKeepsInv(word: int, n: nat, steps: seq<Step>)
    ensures Inv(word, Run(Init(word, n), steps))
  {
    if steps != [] {
      RunKeepsInv(word, n, steps[..|steps| - 1]);
      StepKeepsInv(word, Run(Init(word, n), steps[..|steps| - 1]), steps[|steps| - 1]);
    }
  }

  /** Over every interleaving, the loops act as if every operation happened at once at its successful
      compare-exchange: the word and all results are those of running the operations one by one. It does
      not matter that the word may have changed and changed back since the load. */
  lemma LoopsAreAtomic(word: int, n: nat, steps: seq<Step>)
    ensures var s := Run(Init(word, n), steps); s.word == Replay(word, s.log) && Sequential(word, s.log)
  {
    RunKeepsInv(word, n, steps);
  }

  /** What Wrap32 keeps: the one number of 32 bits that is the same modulo 2^32. */
  lemma WrapKeeps(n: int)
    ensures -TWO31 <= Wrap32(n) < TWO31 && (n - Wrap32(n)) % TWO32 == 0
  {
    var m := n + TWO31;
    assert n - Wrap32(n) == TWO32 * (m / TWO32);
  }

  /** What an operation does to a word and what it returns. */
  ghost predicate Effect(op: Op, before: int, after: int, result: int) {
    match op
    case Increment => after == Wrap32(before + 1) && result == after
    case Decrement => after == Wrap32(before - 1) && result == after
    case Exchange(val) => after == val && result == before
    case ExchangeAdd(val) => after == Wrap32(before + val) && result == before
  }

  /** Every operation that completed found the word as the one before it left it, changed it as it should and
      returned what it should: a counter the new value, an exchange the old one. */
  lemma EachDoesItsWork(word: int, n: nat, steps: seq<Step>, i: nat)
    requires i < |Run(Init(word, n), steps).log|
    ensures var log := Run(Init(word, n), steps).log;
            Effect(log[i].op, Replay(word, log[..i]), Replay(word, log[..i + 1]), log[i].result)
    ensures var s := Run(Init(word, n), steps); i + 1 == |s.log| ==> Replay(word, s.log[..i + 1]) == s.word
    ensures Replay(word, Run(Init(word, n), steps).log[..0]) == word
  {
    RunKeepsInv(word, n, steps);
    var log := Run(Init(word, n), steps).log;
    assert ResultIs(word, log, i);
    assert log[..i + 1][..i] == log[..i];
    assert log[..|log|] == log;
  }

  // ----- whole operations

  /** The steps of other threads, and those by which thread t goes on with what it is doing. */
  predicate Quiet(t: nat, steps: seq<Step>) { forall step <- steps :: step.t == t ==> step.Advance? }

  /** The operations of one thread that completed. */
  function Mine(log: seq<Done>, t: nat): seq<Done> {
    if log == [] then [] else
    var last := log[|log| - 1];
    Mine(log[..|log| - 1], t) + if last.t == t then [last] else []
  }

  /** Between its call and its return an operation is under way; then it is in the log, once. */
  ghost predicate UnderWay(s0: State, s: State, t: nat, op: Op)
    requires t < |s.threads|
  {
    && s0.log <= s.log
    && match s.threads[t]
       case Load(op') => op' == op && Mine(s.log, t) == Mine(s0.log, t)
       case Compare(op', _, _) => op' == op && Mine(s.log, t) == Mine(s0.log, t)
       case Idle => |Mine(s.log, t)| == |Mine(s0.log, t)| + 1 && Mine(s0.log, t) < Mine(s.log, t)
                    && Mine(s.log, t)[|Mine(s0.log, t)|].op == op
  }

  lemma UnderWayStep(s0: State, s: State, t: nat, op: Op, step: Step)
    requires t < |s.threads| && UnderWay(s0, s, t, op) && (step.t == t ==> step.Advance?)
    ensures UnderWay(s0, Do(s, step), t, op)
  {
    var s' := Do(s, step);
    if s'.log != s.log {
      assert s'.log[..|s'.log| - 1] == s.log;
    }
  }

  /** Whatever the other threads do meanwhile, a thread that begins an operation completes that one, once, before it
      is ready for another. */
  lemma {:induction false} EachCompletesOnce(s0: State, t: nat, op: Op, steps: seq<Step>)
    requires t < |s0.threads| && s0.threads[t].Idle? && Quiet(t, steps)
    ensures UnderWay(s0, Run(Do(s0, Begin(t, op)), steps), t, op)
  {
    if steps != [] {
      var front, last := steps[..|steps| - 1], steps[|steps| - 1];
      assert last in steps;
      EachCompletesOnce(s0, t, op, front);
      UnderWayStep(s0, Run(Do(s0, Begin(t, op)), front), t, op, last);
    }
  }

  /** Left alone, it does so in two steps. */
  lemma CompletesAlone(s: State, t: nat, op: Op)
    requires t < |s.threads| && s.threads[t].Idle?
    ensures Do(Do(Do(s, Begin(t, op)), Advance(t)), Advance(t)).threads[t].Idle?
  {
  }

  /** A compare-exchange fails only if another operation completed since the load: some thread always makes
      progress. */
  lemma RetryMeansProgress(word: int, n: nat, steps: seq<Step>, t: nat)
    requires t < n && Run(Init(word, n), steps).threads[t].Compare?
    ensures var s := Run(Init(word, n), steps);
            var pc := s.threads[t];
            && (Do(s, Advance(t)).threads[t] == Idle || Do(s, Advance(t)).threads[t] == Load(pc.op))
            && (Do(s, Advance(t)).threads[t] != Idle ==> pc.seen < |s.log| && Do(s, Advance(t)).word == s.word)
  {
    RunKeepsInv(word, n, steps);
    var s := Run(Init(word, n), steps);
    assert Loaded(word, s.log, s.threads[t]);
    assert s.log[..|s.log|] == s.log;
  }

  /** What the operations of a log add up to. */
  function Total(log: seq<Done>): int {
    if log == [] then 0 else Total(log[..|log| - 1]) + Added(log[|log| - 1].op)
  }

  function Added(op: Op): int {
    match op
    case Increment => 1
    case Decrement => -1
    case Exchange(_) => 0
    case ExchangeAdd(val) => val
  }

  lemma WrapAdds(n: int, d: int)
    ensures Wrap32(Wrap32(n) + d) == Wrap32(n + d)
  {
    var k := (n + TWO31) / TWO32;
    assert Wrap32(n) == n - k * TWO32;
    WrapPeriodic(n + d, -k);
  }

  lemma WrapPeriodic(n: int, k: int)
    ensures Wrap32(n + k * TWO32) == Wrap32(n)
  {
    var m := n + TWO31;
    assert m + k * TWO32 == (m / TWO32 + k) * TWO32 + m % TWO32;
  }

  lemma {:induction false} NothingIsLost(word: int, log: seq<Done>)
    requires Wrap32(word) == word && forall d <- log :: !d.op.Exchange?
    ensures Replay(word, log) == Wrap32(word + Total(log))
  {
    if log != [] {
      NothingIsLost(word, log[..|log| - 1]);
      WrapAdds(word + Total(log[..|log| - 1]), Added(log[|log| - 1].op));
    }
  }

  /** Counting loses nothing: however the loops interleave, the word is the first value plus everything
      that completed operations added, modulo 2^32. */
  lemma CountIsSum(word: int, n: nat, steps: seq<Step>)
    requires Wrap32(word) == word && forall step <- steps :: step.Begin? ==> !step.op.Exchange?
    ensures var s := Run(Init(word, n), steps); s.word == Wrap32(word + Total(s.log))
  {
    RunKeepsInv(word, n, steps);
    OnlyBegun(word, n, steps);
    NothingIsLost(word, Run(Init(word, n), steps).log);
  }

  lemma {:induction false} OnlyBegun(word: int, n: nat, steps: seq<Step>)
    requires forall step <- steps :: step.Begin? ==> !step.op.Exchange?
    ensures var s := Run(Init(word, n), steps);
            && (forall d <- s.log :: !d.op.Exchange?)
            && (forall pc <- s.threads :: !pc.Idle? ==> !pc.op.Exchange?)
  {
    if steps != [] {
      OnlyBegun(word, n, steps[..|steps| - 1]);
      var s := Run(Init(word, n), steps[..|steps| - 1]);
      assert steps[|steps| - 1] in steps;
      forall pc | pc in Do(s, steps[|steps| - 1]).threads && !pc.Idle? ensures !pc.op.Exchange? {
        assert pc in s.threads || steps[|steps| - 1].t < |s.threads|;
      }
    }
  }
}
