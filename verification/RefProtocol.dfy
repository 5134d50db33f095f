/** The reference counting protocol of cRefBase and cRefPtr over the compare-exchange loops of
    cInterlockedVal, for any number of threads and objects. Every load, compare-exchange and store of
    a shared word is a step of its own; a run is any interleaving of steps under sequential
    consistency. */
module RefProtocol {
  import opened Wrappers
  import opened Arith

  const WORD := 0x1_0000_0000         // the count is a UINT32
  const COUNT := 0x4000_0000          // values kept by & ~k_REFCOUNT_MASK
  const STATIC := 0x2000_0000         // k_REFCOUNT_STATIC
  const DESTRUCT := 0x8000_0000       // k_REFCOUNT_DESTRUCT

  type Obj = nat

  datatype Pc =
    | Idle
    | IncLoad(o: Obj, first: bool)                  // InterlockedIncrement, before its load
    | IncCas(o: Obj, first: bool, comp: int)        // ... before its compare-exchange
    | DecLoad(o: Obj, next: Option<Obj>)            // the pointer is cleared; InterlockedDecrement
    | DecCas(o: Obj, next: Option<Obj>, comp: int)
    | ZeroTest(o: Obj, next: Option<Obj>, val: int) // Dec has returned val
    | Marking(o: Obj, next: Option<Obj>)            // onZeroRefCount, before SetDestructing
    | Deleting(o: Obj, next: Option<Obj>)           // ... before delete

  /** held: the cRefPtrs of this thread, by object. next of Pc: what put_Ptr attaches afterwards. */
  datatype Thread = Thread(held: multiset<Obj>, pc: Pc)

  datatype Cell = Cell(word: int, isStatic: bool, alive: bool, destroyed: nat)

  datatype State = State(cells: map<Obj, Cell>, threads: seq<Thread>)

  datatype Action =
    | Create(o: Obj, isStatic: bool)  // new object, StaticConstruct if static, first cRefPtr
    | AttachStatic(o: Obj)            // a cRefPtr made from the address of a static object
    | Copy(o: Obj)                    // copy a cRefPtr the thread holds
    | Release(o: Obj)                 // ReleasePtr on a cRefPtr the thread holds
    | Assign(o: Obj, p: Obj)          // put_Ptr(p) on a cRefPtr to o, while holding another to p
    | Give(u: nat, o: Obj)            // move a cRefPtr to thread u
    | Advance                         // the next instruction of the operation under way

  datatype Step = Step(t: nat, action: Action)

  function Base(c: Cell): int { if c.isStatic then STATIC else 0 }

  function After(next: Option<Obj>): Pc {
    match next
    case None => Idle
    case Some(p) => IncLoad(p, false)
  }

  function SetPc(s: State, t: nat, pc: Pc): State
    requires t < |s.threads|
  {
    s.(threads := s.threads[t := s.threads[t].(pc := pc)])
  }

  function SetThread(s: State, t: nat, th: Thread): State
    requires t < |s.threads|
  {
    s.(threads := s.threads[t := th])
  }

  /** The instructions that touch a shared word, or decide on one. */
  function AdvancePc(s: State, t: nat): State
    requires t < |s.threads|
  {
    var th := s.threads[t];
    if th.pc.Idle? || th.pc.o !in s.cells then s else
    var o := th.pc.o;
    var c := s.cells[o];
    match th.pc
    case IncLoad(_, first) => SetPc(s, t, IncCas(o, first, c.word))
    case IncCas(_, first, comp) =>
      if c.word == comp then
        SetThread(s.(cells := s.cells[o := c.(word := (comp + 1) % WORD)]), t,
                  Thread(th.held + multiset{o}, Idle))
      else SetPc(s, t, IncLoad(o, first))
    case DecLoad(_, next) => SetPc(s, t, DecCas(o, next, c.word))
    case DecCas(_, next, comp) =>
      if c.word == comp then
        SetPc(s.(cells := s.cells[o := c.(word := (comp - 1) % WORD)]), t, ZeroTest(o, next, (comp - 1) % WORD))
      else SetPc(s, t, DecLoad(o, next))
    case ZeroTest(_, next, val) =>
      SetPc(s, t, if val % COUNT == 0 then Marking(o, next) else After(next))
    case Marking(_, next) =>
      if (c.word / DESTRUCT) % 2 == 1 then SetPc(s, t, Deleting(o, next))
      else SetPc(s.(cells := s.cells[o := c.(word := DESTRUCT)]), t, Deleting(o, next))
    case Deleting(_, next) =>
      SetPc(s.(cells := s.cells[o := c.(alive := false, destroyed := c.destroyed + 1)]), t, After(next))
  }

  /** One step; a step that the state does not allow changes nothing. */
  function Do(s: State, step: Step): (s': State)
    ensures |s'.threads| == |s.threads|
  {
    var t := step.t;
    if t >= |s.threads| then s else
    var th := s.threads[t];
    if step.action.Advance? then AdvancePc(s, t)
    else if !th.pc.Idle? then s
    else match step.action
    case Create(o, isStatic) =>
      if o in s.cells then s else
      SetPc(s.(cells := s.cells[o := Cell(if isStatic then STATIC else 0, isStatic, true, 0)]), t, IncLoad(o, true))
    case AttachStatic(o) =>
      if o in s.cells && s.cells[o].isStatic && s.cells[o].alive then SetPc(s, t, IncLoad(o, true)) else s
    case Copy(o) =>
      if th.held[o] > 0 then SetPc(s, t, IncLoad(o, false)) else s
    case Release(o) =>
      if th.held[o] > 0 then SetThread(s, t, Thread(th.held - multiset{o}, DecLoad(o, None))) else s
    case Assign(o, p) =>
      if o != p && th.held[o] > 0 && th.held[p] > 0
      then SetThread(s, t, Thread(th.held - multiset{o}, DecLoad(o, Some(p)))) else s
    case Give(u, o) =>
      if u < |s.threads| && u != t && th.held[o] > 0 then
        var s1 := SetThread(s, t, th.(held := th.held - multiset{o}));
        SetThread(s1, u, s.threads[u].(held := s.threads[u].held + multiset{o}))
      else s
    case Advance => s
  }

  function Init(n: nat): State { State(map[], seq(n, _ => Thread(multiset{}, Idle))) }

  function Run(s: State, steps: seq<Step>): (s': State)
    ensures |s'.threads| == |s.threads|
  {
    if steps == [] then s else Do(Run(s, steps[..|steps| - 1]), steps[|steps| - 1])
  }

  // ----- what is counted

  /** References of one thread that the count must still include: its cRefPtrs, and a pointer it has
      cleared but not yet counted down. */
  function Owed(th: Thread, o: Obj): nat {
    th.held[o] + if (th.pc.DecLoad? || th.pc.DecCas?) && th.pc.o == o then 1 else 0
  }

  function Refs(threads: seq<Thread>, o: Obj): nat {
    if threads == [] then 0 else Refs(threads[..|threads| - 1], o) + Owed(threads[|threads| - 1], o)
  }

  lemma {:induction false} RefsUpdate(threads: seq<Thread>, t: nat, th: Thread, o: Obj)
    requires t < |threads|
    ensures Refs(threads[t := th], o) == Refs(threads, o) - Owed(threads[t], o) + Owed(th, o)
    ensures Owed(threads[t], o) <= Refs(threads, o)
  {
    var n := |threads| - 1;
    if t == n {
      assert threads[t := th][..n] == threads[..n];
    } else {
      assert threads[t := th][..n] == threads[..n][t := th];
      RefsUpdate(threads[..n], t, th, o);
    }
  }

  /** The thread is about to read, write or delete the object. */
  predicate Touches(th: Thread, o: Obj) {
    && !th.pc.Idle? && th.pc.o == o
    && (th.pc.ZeroTest? ==> th.pc.val % COUNT == 0)
  }

  /** The thread has counted the object down to zero and will destroy it. */
  predicate Dooms(th: Thread, o: Obj) {
    Touches(th, o) && (th.pc.ZeroTest? || th.pc.Marking? || th.pc.Deleting?)
  }

  predicate Deletes(th: Thread, o: Obj) { th.pc.Deleting? && th.pc.o == o }

  /** The thread is making the first cRefPtr to the object. */
  predicate First(th: Thread, o: Obj) {
    (th.pc.IncLoad? || th.pc.IncCas?) && th.pc.first && th.pc.o == o
  }

  /** The thread alone decides about an object without references. */
  predicate Minds(th: Thread, o: Obj) { Dooms(th, o) || First(th, o) }

  /** What a count without limits would be. */
  function Total(s: State, o: Obj): nat
    requires o in s.cells
  {
    Base(s.cells[o]) + Refs(s.threads, o)
  }

  /** While nobody is deleting it, the word of a live object is its count, as far as it has bits for it. */
  ghost predicate Counted(s: State, o: Obj)
    requires o in s.cells
  {
    s.cells[o].word == Total(s, o) % WORD
  }

  ghost predicate ThreadOk(cells: map<Obj, Cell>, th: Thread) {
    && (forall o :: th.held[o] > 0 ==> o in cells && cells[o].alive)
    && (!th.pc.Idle? ==> th.pc.o in cells && (Touches(th, th.pc.o) ==> cells[th.pc.o].alive))
    && ((th.pc.IncLoad? || th.pc.IncCas?) && !th.pc.first ==> th.held[th.pc.o] > 0)
    && (!th.pc.Idle? && !th.pc.IncLoad? && !th.pc.IncCas? && th.pc.next.Some? ==> th.held[th.pc.next.value] > 0)
  }

  ghost predicate ThreadInv(s: State, i: nat)
    requires i < |s.threads|
  {
    ThreadOk(s.cells, s.threads[i])
  }

  ghost predicate CellInv(s: State, o: Obj)
    requires o in s.cells
  {
    var c := s.cells[o];
    && c.destroyed == (if c.alive then 0 else 1)
    && (c.isStatic ==> c.alive)
    && (c.alive && (forall i :: 0 <= i < |s.threads| ==> !Deletes(s.threads[i], o)) ==> Counted(s, o))
    && (!c.alive ==> Refs(s.threads, o) == 0)
    // an object with no references is the business of one thread
    && (c.alive && !c.isStatic && Refs(s.threads, o) == 0 ==>
      exists i :: 0 <= i < |s.threads| && Minds(s.threads[i], o))
  }

  ghost predicate Alone(s: State, i: nat, o: Obj)
    requires i < |s.threads|
  {
    && o in s.cells && !s.cells[o].isStatic
    && Refs(s.threads, o) == 0
    && (forall j :: 0 <= j < |s.threads| && j != i ==> !Touches(s.threads[j], o))
  }

  ghost predicate Inv(s: State) {
    && (forall i :: 0 <= i < |s.threads| ==> ThreadInv(s, i))
    && Cells(s)
    && Exclusive(s)
  }

  ghost predicate Cells(s: State) {
    forall o :: o in s.cells ==> CellInv(s, o)
  }

  /** An object without references is touched by the one thread that minds it. */
  ghost predicate Exclusive(s: State) {
    && (forall i, o :: 0 <= i < |s.threads| && Minds(s.threads[i], o) && o in s.cells && !s.cells[o].isStatic ==> Alone(s, i, o))
    && (forall i, o :: 0 <= i < |s.threads| && Dooms(s.threads[i], o) ==> o in s.cells && !s.cells[o].isStatic)
  }

  /** The compare-exchange of a decrement, about to succeed. */
  predicate CountsDown(s: State, step: Step) {
    && step.action.Advance? && step.t < |s.threads| && s.threads[step.t].pc.DecCas?
    && var pc := s.threads[step.t].pc;
       pc.o in s.cells && pc.comp == s.cells[pc.o].word
  }

  /** The step is not a decrement after which the bits kept of a count say zero while the count is not. */
  predicate Harmless(s: State, step: Step) {
    CountsDown(s, step) ==>
      var left := Total(s, s.threads[step.t].pc.o) - 1;
      left == 0 || left % COUNT != 0
  }

  /** No count spills into the flag bits. */
  ghost predicate Bounded(s: State) {
    forall o :: o in s.cells ==> Total(s, o) < COUNT
  }

  lemma BoundedIsHarmless(s: State, step: Step)
    requires Bounded(s)
    ensures Harmless(s, step)
  {
    if CountsDown(s, step) {
      var o := s.threads[step.t].pc.o;
      RefsUpdate(s.threads, step.t, s.threads[step.t], o);
      ModSmall(Total(s, o) - 1, COUNT);
    }
  }

  // ----- counting modulo

  /** Masking a word is masking the count. */
  lemma ModMask(a: int)
    ensures (a % WORD) % COUNT == a % COUNT
  {
    var q, r := a / WORD, a % WORD;
    DivModUnique(a, 4 * q + r / COUNT, r % COUNT, COUNT);
  }

  // ----- every step keeps the invariant

  lemma Refs1(threads: seq<Thread>, t: nat, th: Thread)
    requires t < |threads|
    ensures forall p :: Refs(threads[t := th], p) == Refs(threads, p) - Owed(threads[t], p) + Owed(th, p)
    ensures forall p :: Owed(threads[t], p) <= Refs(threads, p)
  {
    forall p
      ensures Refs(threads[t := th], p) == Refs(threads, p) - Owed(threads[t], p) + Owed(th, p)
      ensures Owed(threads[t], p) <= Refs(threads, p)
    {
      RefsUpdate(threads, t, th, p);
    }
  }

  predicate Static(s: State, o: Obj) { o in s.cells && s.cells[o].isStatic }

  /** A step that changes only its own thread and none of the references it owes. */
  lemma LocalStep(s: State, t: nat, th': Thread)
    requires Inv(s) && t < |s.threads|
    requires forall p :: Owed(th', p) == Owed(s.threads[t], p)
    requires forall p :: Deletes(th', p) == Deletes(s.threads[t], p)
    requires forall p :: Minds(s.threads[t], p) && !Static(s, p) ==> Minds(th', p)
    requires forall p :: Minds(th', p) && p in s.cells && !Static(s, p) ==> Minds(s.threads[t], p)
    requires forall p :: Dooms(th', p) ==> p in s.cells && !Static(s, p)
    requires forall p :: Touches(th', p) ==> Touches(s.threads[t], p) || Refs(s.threads, p) > 0 || Static(s, p)
    requires ThreadInv(SetThread(s, t, th'), t)
    ensures Inv(SetThread(s, t, th'))
  {
    var s' := SetThread(s, t, th');
    Refs1(s.threads, t, th');
    forall i | 0 <= i < |s.threads| ensures ThreadInv(s', i) {
      assert ThreadInv(s, i);
    }
    forall o | o in s.cells ensures CellInv(s', o) {
      CellFrame(s, s', t, o);
    }
    LocalExclusive(s, t, th');
  }

  lemma LocalExclusive(s: State, t: nat, th': Thread)
    requires Inv(s) && t < |s.threads|
    requires forall p :: Refs(s.threads[t := th'], p) == Refs(s.threads, p)
    requires forall p :: Minds(th', p) && p in s.cells && !Static(s, p) ==> Minds(s.threads[t], p)
    requires forall p :: Dooms(th', p) ==> p in s.cells && !Static(s, p)
    requires forall p :: Touches(th', p) ==> Touches(s.threads[t], p) || Refs(s.threads, p) > 0 || Static(s, p)
    ensures Exclusive(SetThread(s, t, th'))
  {
    var s' := SetThread(s, t, th');
    forall i, o | 0 <= i < |s.threads| && Minds(s'.threads[i], o) && o in s.cells && !s.cells[o].isStatic
      ensures Alone(s', i, o)
    {
      assert Minds(s.threads[i], o);
      assert Alone(s, i, o);
    }
    forall i, o | 0 <= i < |s.threads| && Dooms(s'.threads[i], o) ensures o in s.cells && !s.cells[o].isStatic {
      if i != t {
        assert Dooms(s.threads[i], o);
      }
    }
  }

  lemma HolderCounts(s: State, t: nat)
    requires t < |s.threads|
    ensures forall p :: s.threads[t].held[p] > 0 ==> Refs(s.threads, p) > 0
  {
    forall p | s.threads[t].held[p] > 0 ensures Refs(s.threads, p) > 0 {
      RefsUpdate(s.threads, t, s.threads[t], p);
    }
  }

  lemma CopyKeeps(s: State, t: nat, a: Action)
    requires Inv(s) && t < |s.threads| && s.threads[t].pc.Idle?
    requires a.AttachStatic? || a.Copy?
    ensures Inv(Do(s, Step(t, a)))
  {
    var s' := Do(s, Step(t, a));
    HolderCounts(s, t);
    if s' != s {
      assert ThreadInv(s, t);
      LocalStep(s, t, s'.threads[t]);
    }
  }

  lemma ReleaseKeeps(s: State, t: nat, o: Obj, next: Option<Obj>)
    requires Inv(s) && t < |s.threads| && s.threads[t].pc.Idle? && s.threads[t].held[o] > 0
    requires next.Some? ==> next.value != o && s.threads[t].held[next.value] > 0
    ensures Inv(SetThread(s, t, Thread(s.threads[t].held - multiset{o}, DecLoad(o, next))))
  {
    HolderCounts(s, t);
    assert ThreadInv(s, t);
    LocalStep(s, t, Thread(s.threads[t].held - multiset{o}, DecLoad(o, next)));
  }

  /** Loads, failed compare-exchanges and the zero test. */
  lemma LoadKeeps(s: State, t: nat)
    requires Inv(s) && t < |s.threads|
    requires s.threads[t].pc.IncLoad? || s.threads[t].pc.DecLoad?
    ensures Inv(AdvancePc(s, t))
  {
    assert ThreadInv(s, t);
    var th := s.threads[t];
    var word := s.cells[th.pc.o].word;
    if th.pc.IncLoad? {
      LocalStep(s, t, th.(pc := IncCas(th.pc.o, th.pc.first, word)));
    } else {
      LocalStep(s, t, th.(pc := DecCas(th.pc.o, th.pc.next, word)));
    }
  }

  lemma RetryKeeps(s: State, t: nat)
    requires Inv(s) && t < |s.threads|
    requires var pc := s.threads[t].pc;
      (pc.IncCas? || pc.DecCas?) && pc.o in s.cells && pc.comp != s.cells[pc.o].word
    ensures Inv(AdvancePc(s, t))
  {
    assert ThreadInv(s, t);
    LocalStep(s, t, AdvancePc(s, t).threads[t]);
  }

  lemma ZeroTestKeeps(s: State, t: nat)
    requires Inv(s) && t < |s.threads| && s.threads[t].pc.ZeroTest?
    ensures Inv(AdvancePc(s, t))
  {
    assert ThreadInv(s, t);
    HolderCounts(s, t);
    var th := s.threads[t];
    if th.pc.val % COUNT == 0 {
      assert Dooms(th, th.pc.o);
    }
    LocalStep(s, t, AdvancePc(s, t).threads[t]);
  }

  /** The other threads after a step of thread t, given that it kills nothing they know. */
  lemma ThreadFrame(s: State, s': State, t: nat)
    requires Inv(s) && |s.threads| == |s'.threads| && t < |s.threads|
    requires forall i :: 0 <= i < |s.threads| && i != t ==> s'.threads[i] == s.threads[i]
    requires forall o :: o in s.cells ==> o in s'.cells
    requires forall o, i :: o in s.cells && s.cells[o].alive && !s'.cells[o].alive && 0 <= i < |s.threads| && i != t ==>
      s.threads[i].held[o] == 0 && !Touches(s.threads[i], o)
    requires ThreadInv(s', t)
    ensures forall i :: 0 <= i < |s.threads| ==> ThreadInv(s', i)
  {
    forall i | 0 <= i < |s.threads| ensures ThreadInv(s', i) {
      assert ThreadInv(s, i);
    }
  }

  /** Nobody knows an object that does not exist yet. */
  lemma Unknown(s: State, o: Obj)
    requires Inv(s) && o !in s.cells
    ensures Refs(s.threads, o) == 0
    ensures forall i :: 0 <= i < |s.threads| ==> !Touches(s.threads[i], o)
  {
    NoRefs(s, o);
    forall i | 0 <= i < |s.threads| ensures !Touches(s.threads[i], o) {
      assert ThreadInv(s, i);
    }
  }

  function Created(s: State, t: nat, o: Obj, isStatic: bool): State
    requires t < |s.threads|
  {
    SetPc(s.(cells := s.cells[o := Cell(if isStatic then STATIC else 0, isStatic, true, 0)]), t, IncLoad(o, true))
  }

  lemma CreateCells(s: State, t: nat, o: Obj, isStatic: bool)
    requires Inv(s) && t < |s.threads| && s.threads[t].pc.Idle? && o !in s.cells
    ensures Cells(Created(s, t, o, isStatic))
  {
    var s' := Created(s, t, o, isStatic);
    Refs1(s.threads, t, s'.threads[t]);
    Unknown(s, o);
    forall p | p in s'.cells ensures CellInv(s', p) {
      if p != o {
        CellFrame(s, s', t, p);
      } else {
        assert Minds(s'.threads[t], o);
      }
    }
  }

  lemma CreateExclusive(s: State, t: nat, o: Obj, isStatic: bool)
    requires Inv(s) && t < |s.threads| && s.threads[t].pc.Idle? && o !in s.cells
    ensures Exclusive(Created(s, t, o, isStatic))
  {
    var s' := Created(s, t, o, isStatic);
    Refs1(s.threads, t, s'.threads[t]);
    Unknown(s, o);
    AloneFrame(s, s', t, o);
  }

  lemma CreateKeeps(s: State, t: nat, o: Obj, isStatic: bool)
    requires Inv(s) && t < |s.threads| && s.threads[t].pc.Idle? && o !in s.cells
    ensures Inv(Created(s, t, o, isStatic))
  {
    CreateCells(s, t, o, isStatic);
    CreateExclusive(s, t, o, isStatic);
    assert ThreadInv(s, t);
    ThreadFrame(s, Created(s, t, o, isStatic), t);
  }

  /** An object that neither the step of thread t nor its program counter is about. */
  lemma CellFrame(s: State, s': State, t: nat, p: Obj)
    requires |s.threads| == |s'.threads| && t < |s.threads|
    requires forall i :: 0 <= i < |s.threads| && i != t ==> s'.threads[i] == s.threads[i]
    requires p in s.cells && p in s'.cells && s.cells[p] == s'.cells[p] && CellInv(s, p)
    requires Refs(s'.threads, p) == Refs(s.threads, p)
    requires Minds(s.threads[t], p) && !s.cells[p].isStatic ==> Minds(s'.threads[t], p)
    requires Deletes(s.threads[t], p) ==> Deletes(s'.threads[t], p)
    ensures CellInv(s', p)
  {
    if forall i :: 0 <= i < |s.threads| ==> !Deletes(s'.threads[i], p) {
      forall i | 0 <= i < |s.threads| ensures !Deletes(s.threads[i], p) {
        assert !Deletes(s'.threads[i], p);
      }
    }
    if s.cells[p].alive && !s.cells[p].isStatic && Refs(s.threads, p) == 0 {
      var i :| 0 <= i < |s.threads| && Minds(s.threads[i], p);
      assert Minds(s'.threads[i], p);
    }
  }

  /** The exclusivity part of Inv after a step of thread t about object o. */
  lemma AloneFrame(s: State, s': State, t: nat, o: Obj)
    requires Inv(s) && |s.threads| == |s'.threads| && t < |s.threads|
    requires forall i :: 0 <= i < |s.threads| && i != t ==> s'.threads[i] == s.threads[i]
    requires forall p :: p in s.cells ==> p in s'.cells && s.cells[p].isStatic == s'.cells[p].isStatic
    requires forall p :: p in s'.cells && p != o ==> p in s.cells
    requires forall p :: p != o ==> Refs(s'.threads, p) == Refs(s.threads, p)
    requires forall p :: p != o && Touches(s'.threads[t], p) ==> Refs(s.threads, p) > 0
    requires forall p :: p != o ==> !Minds(s'.threads[t], p)
    requires Minds(s'.threads[t], o) && !Static(s', o) ==> Alone(s', t, o)
    requires Dooms(s'.threads[t], o) ==> o in s'.cells && !Static(s', o)
    requires forall i :: 0 <= i < |s.threads| && i != t && Minds(s.threads[i], o) ==> Static(s', o)
    ensures Exclusive(s')
  {
    forall i, p | 0 <= i < |s.threads| && Minds(s'.threads[i], p) && p in s'.cells && !s'.cells[p].isStatic
      ensures Alone(s', i, p)
    {
      if i != t && p != o {
        assert Minds(s.threads[i], p);
        assert Alone(s, i, p);
      }
    }
    forall i, p | 0 <= i < |s.threads| && Dooms(s'.threads[i], p) ensures p in s'.cells && !s'.cells[p].isStatic {
      assert Minds(s'.threads[i], p);
      if i != t {
        assert Dooms(s.threads[i], p);
        assert Minds(s.threads[i], p);
      }
    }
  }
  /** An object that does not exist yet has no references. */
  lemma NoRefs(s: State, o: Obj)
    requires forall i :: 0 <= i < |s.threads| ==> ThreadInv(s, i)
    requires o !in s.cells
    ensures Refs(s.threads, o) == 0
  {
    forall i | 0 <= i < |s.threads| ensures Owed(s.threads[i], o) == 0 {
      assert ThreadInv(s, i);
    }
    AllZero(s.threads, o);
  }

  lemma {:induction false} AllZero(threads: seq<Thread>, o: Obj)
    requires forall i :: 0 <= i < |threads| ==> Owed(threads[i], o) == 0
    ensures Refs(threads, o) == 0
  {
    if threads != [] {
      AllZero(threads[..|threads| - 1], o);
    }
  }

  /** Whoever touches an object keeps everybody else from minding or deleting it. */
  lemma TouchedIsCounted(s: State, t: nat, o: Obj)
    requires Inv(s) && t < |s.threads| && Touches(s.threads[t], o) && !Deletes(s.threads[t], o)
    ensures o in s.cells && s.cells[o].alive && Counted(s, o)
    ensures forall j :: 0 <= j < |s.threads| && j != t && Minds(s.threads[j], o) ==> Static(s, o)
  {
    assert ThreadInv(s, t);
    assert CellInv(s, o);
    forall j | 0 <= j < |s.threads| ensures !Deletes(s.threads[j], o) {
      assert Deletes(s.threads[j], o) ==> Dooms(s.threads[j], o) && Minds(s.threads[j], o);
    }
  }

  /** A step of thread t that changes the cell of o, the object it was about, and nothing else. */
  lemma StepOn(s: State, s': State, t: nat, o: Obj)
    requires Inv(s) && t < |s.threads| && o in s.cells && o in s'.cells
    requires |s'.threads| == |s.threads|
    requires s' == State(s.cells[o := s'.cells[o]], s.threads[t := s'.threads[t]])
    requires s'.cells[o].isStatic == s.cells[o].isStatic
    requires Touches(s.threads[t], o)
    requires forall p :: p != o ==> s'.threads[t].held[p] == s.threads[t].held[p]
    requires !s'.threads[t].pc.DecLoad? && !s'.threads[t].pc.DecCas?
    requires forall p :: p != o ==> !Minds(s'.threads[t], p)
    requires forall p :: p != o && Touches(s'.threads[t], p) ==> s.threads[t].held[p] > 0
    requires ThreadInv(s', t) && CellInv(s', o)
    requires Dooms(s'.threads[t], o) ==> !Static(s, o)
    requires Minds(s'.threads[t], o) && !Static(s, o) ==> Alone(s', t, o)
    requires s.cells[o].alive && !s'.cells[o].alive ==> Alone(s, t, o)
    requires forall i :: 0 <= i < |s.threads| && i != t && Minds(s.threads[i], o) ==> Static(s, o)
    ensures Inv(s')
  {
    Refs1(s.threads, t, s'.threads[t]);
    HolderCounts(s, t);
    forall i | 0 <= i < |s.threads| && Refs(s.threads, o) == 0 ensures s.threads[i].held[o] == 0 {
      RefsUpdate(s.threads, i, s.threads[i], o);
    }
    ThreadFrame(s, s', t);
    assert Cells(s') by {
      forall p | p in s'.cells ensures CellInv(s', p) {
        if p != o {
          CellFrame(s, s', t, p);
        }
      }
    }
    AloneFrame(s, s', t, o);
  }

  function CountedUp(s: State, t: nat, o: Obj): State
    requires t < |s.threads| && o in s.cells
  {
    SetThread(s.(cells := s.cells[o := s.cells[o].(word := (s.cells[o].word + 1) % WORD)]), t,
              Thread(s.threads[t].held + multiset{o}, Idle))
  }

  lemma CountUpCell(s: State, t: nat, o: Obj)
    requires Inv(s) && t < |s.threads| && o in s.cells
    requires s.threads[t].pc.IncCas? && s.threads[t].pc.o == o
    ensures CellInv(CountedUp(s, t, o), o)
  {
    CountUpCounts(s, t, o);
    assert CellInv(s, o);
  }

  lemma CountUpCounts(s: State, t: nat, o: Obj)
    requires Inv(s) && t < |s.threads| && o in s.cells
    requires s.threads[t].pc.IncCas? && s.threads[t].pc.o == o
    ensures s.cells[o].alive && Counted(CountedUp(s, t, o), o) && Refs(CountedUp(s, t, o).threads, o) == Refs(s.threads, o) + 1
  {
    TouchedIsCounted(s, t, o);
    CountUpTotal(s, t, o);
  }

  lemma CountUpTotal(s: State, t: nat, o: Obj)
    requires t < |s.threads| && o in s.cells && Counted(s, o) && s.threads[t].pc.IncCas?
    ensures Counted(CountedUp(s, t, o), o) && Refs(CountedUp(s, t, o).threads, o) == Refs(s.threads, o) + 1
  {
    RefsUpdate(s.threads, t, CountedUp(s, t, o).threads[t], o);
    ModSucc(Total(s, o), WORD);
  }

  lemma CountUpKeeps(s: State, t: nat, o: Obj)
    requires Inv(s) && t < |s.threads| && o in s.cells
    requires s.threads[t].pc.IncCas? && s.threads[t].pc.o == o
    ensures Inv(CountedUp(s, t, o))
  {
    TouchedIsCounted(s, t, o);
    CountUpCell(s, t, o);
    assert ThreadInv(s, t);
    StepOn(s, CountedUp(s, t, o), t, o);
  }

  function CountedDown(s: State, t: nat, o: Obj): State
    requires t < |s.threads| && o in s.cells && s.threads[t].pc.DecCas?
  {
    var word := (s.cells[o].word - 1) % WORD;
    SetPc(s.(cells := s.cells[o := s.cells[o].(word := word)]), t, ZeroTest(o, s.threads[t].pc.next, word))
  }

  /** After the decrement that leaves no references, no other thread can reach the object. */
  lemma LastOneAlone(s: State, t: nat, o: Obj)
    requires Inv(s) && t < |s.threads| && o in s.cells && !s.cells[o].isStatic
    requires s.threads[t].pc.DecCas? && s.threads[t].pc.o == o && Refs(s.threads, o) == 1
    ensures forall j :: 0 <= j < |s.threads| && j != t ==> !Touches(s.threads[j], o)
  {
    TouchedIsCounted(s, t, o);
    forall j | 0 <= j < |s.threads| && j != t ensures !Touches(s.threads[j], o) {
      var without := s.threads[t := Thread(multiset{}, Idle)];
      RefsUpdate(s.threads, t, without[t], o);
      RefsUpdate(without, j, without[j], o);
      assert ThreadInv(s, j) && !Minds(s.threads[j], o);
    }
  }

  /** The thread is about to count o down, and may. */
  ghost predicate MayCountDown(s: State, t: nat, o: Obj) {
    && Inv(s) && t < |s.threads| && o in s.cells && s.threads[t].pc.DecCas? && s.threads[t].pc.o == o
    && s.threads[t].pc.comp == s.cells[o].word && Harmless(s, Step(t, Advance))
  }

  lemma CountDownLeaves(s: State, t: nat, o: Obj)
    requires Inv(s) && t < |s.threads| && o in s.cells && s.threads[t].pc.DecCas? && s.threads[t].pc.o == o
    ensures Refs(s.threads, o) > 0 && (s.cells[o].word - 1) % WORD == (Total(s, o) - 1) % WORD
    ensures (s.cells[o].word - 1) % WORD % COUNT == (Total(s, o) - 1) % COUNT
  {
    TouchedIsCounted(s, t, o);
    RefsUpdate(s.threads, t, s.threads[t], o);
    ModPred(Total(s, o), WORD);
    ModMask(Total(s, o) - 1);
  }

  lemma CountDownCell(s: State, t: nat, o: Obj)
    requires MayCountDown(s, t, o)
    ensures CellInv(CountedDown(s, t, o), o)
    ensures (s.cells[o].word - 1) % WORD % COUNT == 0 ==> Refs(s.threads, o) == 1 && !s.cells[o].isStatic
  {
    CountDownLeaves(s, t, o);
    CountDownCounts(s, t, o);
    assert CellInv(s, o);
    if Total(s, o) == 1 {
      assert Minds(CountedDown(s, t, o).threads[t], o);
    }
  }

  lemma CountDownCounts(s: State, t: nat, o: Obj)
    requires Inv(s) && t < |s.threads| && o in s.cells && s.threads[t].pc.DecCas? && s.threads[t].pc.o == o
    ensures s.cells[o].alive && Counted(CountedDown(s, t, o), o) && Refs(CountedDown(s, t, o).threads, o) == Refs(s.threads, o) - 1
  {
    TouchedIsCounted(s, t, o);
    CountDownTotal(s, t, o);
  }

  lemma CountDownTotal(s: State, t: nat, o: Obj)
    requires t < |s.threads| && o in s.cells && Counted(s, o) && s.threads[t].pc.DecCas? && s.threads[t].pc.o == o
    ensures Counted(CountedDown(s, t, o), o) && Refs(CountedDown(s, t, o).threads, o) == Refs(s.threads, o) - 1
  {
    RefsUpdate(s.threads, t, CountedDown(s, t, o).threads[t], o);
    ModPred(Total(s, o), WORD);
  }

  lemma CountDownAlone(s: State, t: nat, o: Obj)
    requires MayCountDown(s, t, o) && (s.cells[o].word - 1) % WORD % COUNT == 0
    ensures !s.cells[o].isStatic && Alone(CountedDown(s, t, o), t, o)
  {
    CountDownCell(s, t, o);
    LastOneAlone(s, t, o);
    RefsUpdate(s.threads, t, CountedDown(s, t, o).threads[t], o);
  }

  lemma CountDownKeeps(s: State, t: nat, o: Obj)
    requires MayCountDown(s, t, o)
    ensures Inv(CountedDown(s, t, o))
  {
    CountDownCell(s, t, o);
    CountDownThread(s, t, o);
    CountDownMinds(s, t, o);
    if (s.cells[o].word - 1) % WORD % COUNT == 0 {
      CountDownAlone(s, t, o);
    }
    StepOn(s, CountedDown(s, t, o), t, o);
  }

  lemma CountDownThread(s: State, t: nat, o: Obj)
    requires MayCountDown(s, t, o)
    ensures ThreadInv(CountedDown(s, t, o), t) && s.cells[o].alive
    ensures forall i :: 0 <= i < |s.threads| && i != t && Minds(s.threads[i], o) ==> Static(s, o)
  {
    TouchedIsCounted(s, t, o);
    assert ThreadInv(s, t);
  }

  lemma CountDownMinds(s: State, t: nat, o: Obj)
    requires t < |s.threads| && o in s.cells
    requires s.threads[t].pc.DecCas? && s.threads[t].pc.o == o
    ensures forall p :: Minds(CountedDown(s, t, o).threads[t], p) ==> p == o && (s.cells[o].word - 1) % WORD % COUNT == 0
  {
  }

  function Marked(s: State, t: nat, o: Obj): State
    requires t < |s.threads| && o in s.cells && s.threads[t].pc.Marking?
  {
    SetPc(s.(cells := s.cells[o := s.cells[o].(word := DESTRUCT)]), t, Deleting(o, s.threads[t].pc.next))
  }

  lemma MarkCell(s: State, t: nat, o: Obj)
    requires Inv(s) && t < |s.threads| && s.threads[t].pc.Marking? && s.threads[t].pc.o == o
    ensures o in s.cells && s.cells[o].word == 0 && Alone(s, t, o)
    ensures CellInv(Marked(s, t, o), o) && Alone(Marked(s, t, o), t, o)
  {
    assert Dooms(s.threads[t], o) && Minds(s.threads[t], o);
    TouchedIsCounted(s, t, o);
    assert Alone(s, t, o) && CellInv(s, o);
    RefsUpdate(s.threads, t, Marked(s, t, o).threads[t], o);
    assert Deletes(Marked(s, t, o).threads[t], o) && Minds(Marked(s, t, o).threads[t], o);
  }

  lemma MarkKeeps(s: State, t: nat, o: Obj)
    requires Inv(s) && t < |s.threads| && s.threads[t].pc.Marking? && s.threads[t].pc.o == o
    ensures o in s.cells && s.cells[o].word == 0 && Inv(Marked(s, t, o))
  {
    MarkCell(s, t, o);
    TouchedIsCounted(s, t, o);
    assert ThreadInv(s, t);
    StepOn(s, Marked(s, t, o), t, o);
  }

  function Deleted(s: State, t: nat, o: Obj): State
    requires t < |s.threads| && o in s.cells && s.threads[t].pc.Deleting?
  {
    var c := s.cells[o];
    SetPc(s.(cells := s.cells[o := c.(alive := false, destroyed := c.destroyed + 1)]), t, After(s.threads[t].pc.next))
  }

  lemma DeleteCell(s: State, t: nat, o: Obj)
    requires Inv(s) && t < |s.threads| && s.threads[t].pc.Deleting? && s.threads[t].pc.o == o
    ensures o in s.cells && Alone(s, t, o) && CellInv(Deleted(s, t, o), o)
  {
    assert Dooms(s.threads[t], o) && Minds(s.threads[t], o);
    assert Alone(s, t, o) && CellInv(s, o) && ThreadInv(s, t);
    RefsUpdate(s.threads, t, Deleted(s, t, o).threads[t], o);
  }

  lemma DeleteThread(s: State, t: nat, o: Obj)
    requires Inv(s) && t < |s.threads| && s.threads[t].pc.Deleting? && s.threads[t].pc.o == o && o in s.cells
    requires Refs(s.threads, o) == 0
    ensures ThreadInv(Deleted(s, t, o), t)
  {
    assert ThreadInv(s, t);
    RefsUpdate(s.threads, t, s.threads[t], o);
  }

  lemma DeleteKeeps(s: State, t: nat, o: Obj)
    requires Inv(s) && t < |s.threads| && s.threads[t].pc.Deleting? && s.threads[t].pc.o == o
    ensures o in s.cells && Inv(Deleted(s, t, o))
  {
    DeleteCell(s, t, o);
    DeleteThread(s, t, o);
    forall j | 0 <= j < |s.threads| && j != t ensures !Minds(s.threads[j], o) {
      assert !Touches(s.threads[j], o);
    }
    StepOn(s, Deleted(s, t, o), t, o);
  }

  function Given(s: State, t: nat, u: nat, o: Obj): State
    requires t < |s.threads| && u < |s.threads|
  {
    var s1 := SetThread(s, t, s.threads[t].(held := s.threads[t].held - multiset{o}));
    SetThread(s1, u, s.threads[u].(held := s.threads[u].held + multiset{o}))
  }

  /** A change of hands: the program counters, the cells and every total stay as they are. */
  lemma SameTotals(s: State, s': State)
    requires Inv(s) && s'.cells == s.cells && |s'.threads| == |s.threads|
    requires forall p :: Refs(s'.threads, p) == Refs(s.threads, p)
    requires forall i :: 0 <= i < |s.threads| ==> s'.threads[i].pc == s.threads[i].pc
    requires forall i :: 0 <= i < |s.threads| ==> ThreadInv(s', i)
    ensures Inv(s')
  {
    forall p | p in s.cells ensures CellInv(s', p) {
      assert CellInv(s, p);
      if forall i :: 0 <= i < |s.threads| ==> !Deletes(s'.threads[i], p) {
        forall i | 0 <= i < |s.threads| ensures !Deletes(s.threads[i], p) {
          assert !Deletes(s'.threads[i], p);
        }
      }
      if s.cells[p].alive && !s.cells[p].isStatic && Refs(s.threads, p) == 0 {
        var i :| 0 <= i < |s.threads| && Minds(s.threads[i], p);
        assert Minds(s'.threads[i], p);
      }
    }
    forall i, p | 0 <= i < |s.threads| && Minds(s'.threads[i], p) && p in s'.cells && !s'.cells[p].isStatic
      ensures Alone(s', i, p)
    {
      assert Minds(s.threads[i], p);
      assert Alone(s, i, p);
    }
    forall i, p | 0 <= i < |s.threads| && Dooms(s'.threads[i], p) ensures p in s'.cells && !s'.cells[p].isStatic {
      assert Dooms(s.threads[i], p);
    }
  }

  lemma GiveTotals(s: State, t: nat, u: nat, o: Obj)
    requires t < |s.threads| && u < |s.threads| && t != u && s.threads[t].held[o] > 0
    ensures forall p :: Refs(Given(s, t, u, o).threads, p) == Refs(s.threads, p)
  {
    var s' := Given(s, t, u, o);
    Refs1(s.threads, t, s'.threads[t]);
    Refs1(s.threads[t := s'.threads[t]], u, s'.threads[u]);
  }

  lemma HandsOk(cells: map<Obj, Cell>, giver: Thread, taker: Thread, o: Obj)
    requires ThreadOk(cells, giver) && giver.pc.Idle? && giver.held[o] > 0 && ThreadOk(cells, taker)
    ensures ThreadOk(cells, giver.(held := giver.held - multiset{o}))
    ensures ThreadOk(cells, taker.(held := taker.held + multiset{o}))
  {
  }

  lemma GiveThreads(s: State, t: nat, u: nat, o: Obj)
    requires Inv(s) && t < |s.threads| && u < |s.threads| && t != u
    requires s.threads[t].pc.Idle? && s.threads[t].held[o] > 0
    ensures forall i :: 0 <= i < |s.threads| ==> ThreadInv(Given(s, t, u, o), i)
  {
    var s' := Given(s, t, u, o);
    assert ThreadInv(s, t) && ThreadInv(s, u);
    HandsOk(s.cells, s.threads[t], s.threads[u], o);
    forall i | 0 <= i < |s.threads| ensures ThreadInv(s', i) {
      assert ThreadInv(s, i);
    }
  }

  lemma GiveKeeps(s: State, t: nat, u: nat, o: Obj)
    requires Inv(s) && t < |s.threads| && u < |s.threads| && t != u
    requires s.threads[t].pc.Idle? && s.threads[t].held[o] > 0
    ensures Inv(Given(s, t, u, o))
  {
    GiveTotals(s, t, u, o);
    GiveThreads(s, t, u, o);
    SameTotals(s, Given(s, t, u, o));
  }

  lemma StepKeepsInv(s: State, step: Step)
    requires Inv(s) && Harmless(s, step)
    ensures Inv(Do(s, step))
  {
    var t := step.t;
    if t < |s.threads| && Do(s, step) != s {
      match step.action
      case Create(o, isStatic) => CreateKeeps(s, t, o, isStatic);
      case AttachStatic(o) => CopyKeeps(s, t, step.action);
      case Copy(o) => CopyKeeps(s, t, step.action);
      case Release(o) => ReleaseKeeps(s, t, o, None);
      case Assign(o, p) => ReleaseKeeps(s, t, o, Some(p));
      case Give(u, o) => GiveKeeps(s, t, u, o);
      case Advance => AdvanceKeepsInv(s, t);
    }
  }

  lemma AdvanceKeepsInv(s: State, t: nat)
    requires Inv(s) && t < |s.threads| && Harmless(s, Step(t, Advance))
    ensures Inv(AdvancePc(s, t))
  {
    match s.threads[t].pc
    case Idle =>
    case IncLoad(_, _) => LoadKeeps(s, t);
    case DecLoad(_, _) => LoadKeeps(s, t);
    case IncCas(o, _, comp) => CasKeeps(s, t, o);
    case DecCas(o, _, comp) => CasKeeps(s, t, o);
    case ZeroTest(_, _, _) => ZeroTestKeeps(s, t);
    case Marking(o, _) => MarkKeeps(s, t, o);
    case Deleting(o, _) => DeleteKeeps(s, t, o);
  }

  /** What a successful compare-exchange does: the word goes up or down by one from the value it has
      at that instant, and the decrement returns the value it left. */
  lemma CasSucceeds(s: State, t: nat, o: Obj)
    requires t < |s.threads| && o in s.cells && (s.threads[t].pc.IncCas? || s.threads[t].pc.DecCas?)
    requires s.threads[t].pc.o == o && s.threads[t].pc.comp == s.cells[o].word
    ensures AdvancePc(s, t) == if s.threads[t].pc.IncCas? then CountedUp(s, t, o) else CountedDown(s, t, o)
  {
  }

  lemma CasKeeps(s: State, t: nat, o: Obj)
    requires Inv(s) && t < |s.threads| && Harmless(s, Step(t, Advance))
    requires (s.threads[t].pc.IncCas? || s.threads[t].pc.DecCas?) && s.threads[t].pc.o == o
    ensures Inv(AdvancePc(s, t))
  {
    TouchedIsCounted(s, t, o);
    if s.threads[t].pc.comp != s.cells[o].word {
      RetryKeeps(s, t);
    } else {
      if s.threads[t].pc.IncCas? {
        CountUpKeeps(s, t, o);
      } else {
        CountDownKeeps(s, t, o);
      }
      CasSucceeds(s, t, o);
    }
  }

  // ----- what holds over every run

  /** Step k of the run is harmless. */
  predicate HarmlessAt(n: nat, steps: seq<Step>, k: nat)
    requires k < |steps|
  {
    Harmless(Run(Init(n), steps[..k]), steps[k])
  }

  ghost predicate AlwaysHarmless(n: nat, steps: seq<Step>) {
    forall k :: 0 <= k < |steps| ==> HarmlessAt(n, steps, k)
  }

  lemma HarmlessFront(n: nat, steps: seq<Step>)
    requires steps != []
    ensures var front := steps[..|steps| - 1];
            AlwaysHarmless(n, steps) <==> AlwaysHarmless(n, front) && Harmless(Run(Init(n), front), steps[|steps| - 1])
  {
    var front := steps[..|steps| - 1];
    assert HarmlessAt(n, steps, |front|) <==> Harmless(Run(Init(n), front), steps[|front|]);
    forall k | 0 <= k < |front| ensures HarmlessAt(n, front, k) <==> HarmlessAt(n, steps, k) {
      assert front[..k] == steps[..k];
    }
  }

  lemma {:induction false} RunKeepsInv(n: nat, steps: seq<Step>)
    requires AlwaysHarmless(n, steps)
    ensures Inv(Run(Init(n), steps)) && |Run(Init(n), steps).threads| == n
  {
    if steps != [] {
      HarmlessFront(n, steps);
      RunKeepsInv(n, steps[..|steps| - 1]);
      StepKeepsInv(Run(Init(n), steps[..|steps| - 1]), steps[|steps| - 1]);
    }
  }

  /** The state after a run, by any number of threads, of harmless steps. */
  ghost predicate Reached(n: nat, steps: seq<Step>, s: State) {
    AlwaysHarmless(n, steps) && s == Run(Init(n), steps)
  }

  lemma ReachedInv(n: nat, steps: seq<Step>, s: State)
    requires Reached(n, steps, s)
    ensures Inv(s)
  {
    RunKeepsInv(n, steps);
  }

  /** No count spills into the flag bits after the first k steps. */
  ghost predicate BoundedAfter(n: nat, steps: seq<Step>, k: nat)
    requires k <= |steps|
  {
    Bounded(Run(Init(n), steps[..k]))
  }

  /** A run in which no object ever has 2^30 references is harmless; for a static one it is half of that. */
  lemma BoundedRunIsHarmless(n: nat, steps: seq<Step>)
    requires forall k :: 0 <= k <= |steps| ==> BoundedAfter(n, steps, k)
    ensures AlwaysHarmless(n, steps)
  {
    forall k | 0 <= k < |steps| ensures HarmlessAt(n, steps, k) {
      assert BoundedAfter(n, steps, k);
      BoundedIsHarmless(Run(Init(n), steps[..k]), steps[k]);
    }
  }

  /** The masked count of an object that anybody refers to is the number of references owed to it, with the mark
      of a static object on top, modulo 2^30: exactly that number as long as it is below. */
  lemma CountIsReferences(n: nat, steps: seq<Step>, s: State, o: Obj)
    requires Reached(n, steps, s) && o in s.cells && Refs(s.threads, o) > 0
    ensures s.cells[o].word == Total(s, o) % WORD && s.cells[o].word % COUNT == Total(s, o) % COUNT
    ensures Total(s, o) < COUNT ==> s.cells[o].word % COUNT == Total(s, o)
  {
    ReachedInv(n, steps, s);
    ReferencedIsCounted(s, o);
    ModMask(Total(s, o));
  }

  lemma ReferencedIsCounted(s: State, o: Obj)
    requires Inv(s) && o in s.cells && Refs(s.threads, o) > 0
    ensures Counted(s, o)
  {
    assert CellInv(s, o);
    forall i | 0 <= i < |s.threads| ensures !Deletes(s.threads[i], o) {
      assert Deletes(s.threads[i], o) ==> Dooms(s.threads[i], o) && Minds(s.threads[i], o);
    }
  }

  /** A pointer that is held, and an object whose word is about to be read or written, is alive. */
  lemma NoUseAfterDelete(n: nat, steps: seq<Step>, s: State, i: nat, o: Obj)
    requires Reached(n, steps, s) && i < |s.threads|
    requires s.threads[i].held[o] > 0 || Touches(s.threads[i], o)
    ensures o in s.cells && s.cells[o].alive
  {
    ReachedInv(n, steps, s);
    assert ThreadInv(s, i);
  }

  /** No object is destroyed twice, none while it is referenced, and a static one never. */
  lemma DestroyedAtMostOnce(n: nat, steps: seq<Step>, s: State, o: Obj)
    requires Reached(n, steps, s) && o in s.cells
    ensures s.cells[o].destroyed <= 1
    ensures s.cells[o].destroyed == 1 ==> Refs(s.threads, o) == 0 && !s.cells[o].isStatic
  {
    ReachedInv(n, steps, s);
    assert CellInv(s, o);
  }

  /** Nothing leaks: once every thread is between operations, an object that is not static has been
      destroyed exactly once if nobody refers to it, and not at all otherwise. */
  lemma DestroyedExactlyOnce(n: nat, steps: seq<Step>, s: State, o: Obj)
    requires Reached(n, steps, s) && o in s.cells && !s.cells[o].isStatic
    requires forall i :: 0 <= i < |s.threads| ==> s.threads[i].pc.Idle?
    ensures s.cells[o].destroyed == if Refs(s.threads, o) == 0 then 1 else 0
  {
    ReachedInv(n, steps, s);
    assert CellInv(s, o);
  }

  /** The thread whose decrement leaves no reference is the one that goes on to destroy, and no other: the test on
      the value its compare-exchange returned succeeds exactly then, as long as that step is harmless. */
  lemma LastReleaseDestroys(n: nat, steps: seq<Step>, s: State, t: nat)
    requires Reached(n, steps, s) && t < |s.threads| && s.threads[t].pc.DecCas?
    ensures DecidesRightly(s, t)
  {
    ReachedInv(n, steps, s);
    DecCasDecides(s, t);
  }

  /** A compare-exchange that fails goes back to its load. One that succeeds goes on to destroy if and only if the
      count it left is a multiple of 2^30, which, if the step is harmless, is so if and only if this was the last
      reference to an object that is not static. */
  ghost predicate DecidesRightly(s: State, t: nat)
    requires t < |s.threads| && s.threads[t].pc.DecCas?
  {
    var pc, pc' := s.threads[t].pc, AdvancePc(s, t).threads[t].pc;
    && pc.o in s.cells && Refs(s.threads, pc.o) > 0
    && (pc.comp != s.cells[pc.o].word ==> pc' == DecLoad(pc.o, pc.next) && AdvancePc(s, t).cells == s.cells)
    && (pc.comp == s.cells[pc.o].word ==>
          && pc' == ZeroTest(pc.o, pc.next, (Total(s, pc.o) - 1) % WORD)
          && (pc'.val % COUNT == 0 <==> (Total(s, pc.o) - 1) % COUNT == 0)
          && (Harmless(s, Step(t, Advance)) ==> (pc'.val % COUNT == 0 <==> !s.cells[pc.o].isStatic && Refs(s.threads, pc.o) == 1)))
  }

  lemma DecCasDecides(s: State, t: nat)
    requires Inv(s) && t < |s.threads| && s.threads[t].pc.DecCas?
    ensures DecidesRightly(s, t)
  {
    var o := s.threads[t].pc.o;
    TouchedIsCounted(s, t, o);
    CountDownLeaves(s, t, o);
  }

  // ----- whole operations

  /** The steps by which thread t goes on with what it is doing, and those of other threads that do not hand it
      references. */
  predicate Undisturbed(t: nat, steps: seq<Step>) {
    forall i :: 0 <= i < |steps| ==>
      if steps[i].t == t then steps[i].action.Advance? else steps[i].action.Give? ==> steps[i].action.u != t
  }

  /** What an operation needs to begin. */
  predicate Allowed(s: State, t: nat, a: Action)
    requires t < |s.threads|
  {
    var held := s.threads[t].held;
    match a
    case Create(o, _) => o !in s.cells
    case AttachStatic(o) => o in s.cells && s.cells[o].isStatic && s.cells[o].alive
    case Copy(o) => held[o] > 0
    case Release(o) => held[o] > 0
    case Assign(o, p) => o != p && held[o] > 0 && held[p] > 0
    case Give(u, o) => u < |s.threads| && u != t && held[o] > 0
    case Advance => false
  }

  /** What a thread holds after a whole operation, given what it held before. */
  predicate Ends(held: multiset<Obj>, a: Action, held': multiset<Obj>) {
    match a
    case Create(o, _) => held' == held + multiset{o}
    case AttachStatic(o) => held' == held + multiset{o}
    case Copy(o) => held' == held + multiset{o}
    case Release(o) => held' == held - multiset{o}
    case Assign(o, p) => held' == held - multiset{o} + multiset{p}
    case Give(_, o) => held' == held - multiset{o}
    case Advance => true
  }

  /** The references that an operation under way has yet to add. */
  function Coming(pc: Pc): multiset<Obj> {
    match pc
    case Idle => multiset{}
    case IncLoad(o, _) => multiset{o}
    case IncCas(o, _, _) => multiset{o}
    case _ => if pc.next.Some? then multiset{pc.next.value} else multiset{}
  }

  /** A step changes what another thread holds only by giving it a pointer, which this one held. */
  lemma OthersHold(s: State, step: Step, i: nat)
    requires i < |s.threads| && i != step.t
    ensures var a, th, th' := step.action, s.threads[i], Do(s, step).threads[i];
            && th'.pc == th.pc
            && if step.t < |s.threads| && s.threads[step.t].pc.Idle? && Allowed(s, step.t, a) && a.Give? && a.u == i
               then th'.held == th.held + multiset{a.o} else th'.held == th.held
  {
  }

  /** What the thread will hold in the end. */
  function Final(th: Thread): multiset<Obj> { th.held + Coming(th.pc) }

  lemma AdvanceKeepsFinal(s: State, t: nat)
    requires t < |s.threads|
    ensures Final(AdvancePc(s, t).threads[t]) == Final(s.threads[t])
  {
    var th, th' := s.threads[t], AdvancePc(s, t).threads[t];
    if th.pc.IncCas? && th' != th && th'.pc.Idle? {
      assert th' == Thread(th.held + multiset{th.pc.o}, Idle);
      IdleIsFinal(th');
    } else {
      AdvanceKeepsComing(s, t);
    }
  }

  lemma AdvanceKeepsComing(s: State, t: nat)
    requires t < |s.threads| && !(s.threads[t].pc.IncCas? && AdvancePc(s, t).threads[t].pc.Idle?)
    ensures var th, th' := s.threads[t], AdvancePc(s, t).threads[t]; th'.held == th.held && Coming(th'.pc) == Coming(th.pc)
  {
    var pc, pc' := s.threads[t].pc, AdvancePc(s, t).threads[t].pc;
    if pc.Idle? || pc.o !in s.cells {
    } else if pc.IncLoad? || pc.IncCas? {
      assert (pc'.IncLoad? || pc'.IncCas?) && pc'.o == pc.o;
    } else {
      assert pc' == After(pc.next) || (!pc'.Idle? && !pc'.IncLoad? && !pc'.IncCas? && pc'.next == pc.next);
    }
  }

  lemma StepKeepsFinal(s: State, t: nat, step: Step)
    requires t < |s.threads|
    requires if step.t == t then step.action.Advance? else step.action.Give? ==> step.action.u != t
    ensures Final(Do(s, step).threads[t]) == Final(s.threads[t])
  {
    if step.t == t {
      AdvanceKeepsFinal(s, t);
    } else {
      OthersHold(s, step, t);
    }
  }

  lemma {:induction false} RunKeepsFinal(s: State, t: nat, steps: seq<Step>)
    requires t < |s.threads| && Undisturbed(t, steps)
    ensures Final(Run(s, steps).threads[t]) == Final(s.threads[t])
  {
    if steps != [] {
      var front, last := steps[..|steps| - 1], steps[|steps| - 1];
      RunKeepsFinal(s, t, front);
      StepKeepsFinal(Run(s, front), t, last);
    }
  }

  /** The thread right after it began an operation. */
  function Begun(th: Thread, a: Action): Thread {
    match a
    case Create(o, _) => Thread(th.held, IncLoad(o, true))
    case AttachStatic(o) => Thread(th.held, IncLoad(o, true))
    case Copy(o) => Thread(th.held, IncLoad(o, false))
    case Release(o) => Thread(th.held - multiset{o}, DecLoad(o, None))
    case Assign(o, p) => Thread(th.held - multiset{o}, DecLoad(o, Some(p)))
    case Give(_, o) => Thread(th.held - multiset{o}, Idle)
    case Advance => th
  }

  lemma BeginsAs(s: State, t: nat, a: Action)
    requires t < |s.threads| && s.threads[t].pc.Idle? && Allowed(s, t, a)
    ensures Do(s, Step(t, a)).threads[t] == Begun(s.threads[t], a)
  {
  }

  lemma BegunEnds(th: Thread, a: Action)
    requires !a.Advance?
    ensures Ends(th.held, a, Final(Begun(th, a)))
  {
    if a.Give? {
      IdleIsFinal(Begun(th, a));
    }
  }

  /** Whatever other threads do meanwhile, when a thread has begun an operation and is idle again it holds what the
      operation is for: a new pointer attached, an old one let go, or one exchanged for another. */
  lemma OperationEnds(s: State, t: nat, a: Action, steps: seq<Step>)
    requires t < |s.threads| && s.threads[t].pc.Idle? && Allowed(s, t, a) && Undisturbed(t, steps)
    ensures var s' := Run(Do(s, Step(t, a)), steps);
            s'.threads[t].pc.Idle? ==> Ends(s.threads[t].held, a, s'.threads[t].held)
  {
    BeginsAs(s, t, a);
    BegunEnds(s.threads[t], a);
    RunKeepsFinal(Do(s, Step(t, a)), t, steps);
    IdleIsFinal(Run(Do(s, Step(t, a)), steps).threads[t]);
  }

  lemma IdleIsFinal(th: Thread)
    ensures th.pc.Idle? ==> Final(th) == th.held
  {
  }

  /** One that may not begin changes nothing. */
  lemma NotAllowedIsNothing(s: State, t: nat, a: Action)
    requires t < |s.threads| && s.threads[t].pc.Idle? && !Allowed(s, t, a)
    ensures Do(s, Step(t, a)) == s
  {
  }

  /** An object is created as what it is, and stays so. */
  lemma {:induction false} CreatedAsIs(s: State, t: nat, o: Obj, isStatic: bool, steps: seq<Step>)
    requires t < |s.threads| && s.threads[t].pc.Idle? && o !in s.cells
    ensures var s' := Run(Do(s, Step(t, Create(o, isStatic))), steps); o in s'.cells && s'.cells[o].isStatic == isStatic
  {
    if steps != [] {
      CreatedAsIs(s, t, o, isStatic, steps[..|steps| - 1]);
      StaysAsIs(Run(Do(s, Step(t, Create(o, isStatic))), steps[..|steps| - 1]), steps[|steps| - 1], o);
    }
  }

  lemma StaysAsIs(s: State, step: Step, o: Obj)
    requires o in s.cells
    ensures o in Do(s, step).cells && Do(s, step).cells[o].isStatic == s.cells[o].isStatic
  {
  }

  /** How many steps of its own a thread needs to end what it is doing, if no other comes between. */
  function Left(s: State, t: nat): nat
    requires t < |s.threads|
  {
    var pc := s.threads[t].pc;
    if pc.Idle? || pc.o !in s.cells then 0 else
    var word := s.cells[pc.o].word;
    match pc
    case IncLoad(_, _) => 2
    case IncCas(_, _, comp) => if comp == word then 1 else 3
    case DecLoad(_, next) => 5 + ToAttach(next)
    case DecCas(_, next, comp) => ToAttach(next) + if comp == word then 4 else 6
    case ZeroTest(_, next, _) => 3 + ToAttach(next)
    case Marking(_, next) => 2 + ToAttach(next)
    case Deleting(_, next) => 1 + ToAttach(next)
  }

  function ToAttach(next: Option<Obj>): nat { if next.Some? then 2 else 0 }

  /** The objects that the operation under way is about exist. */
  predicate Known(s: State, t: nat)
    requires t < |s.threads|
  {
    var pc := s.threads[t].pc;
    !pc.Idle? ==> pc.o in s.cells && (!pc.IncLoad? && !pc.IncCas? && pc.next.Some? ==> pc.next.value in s.cells)
  }

  lemma AdvanceComesNearer(s: State, t: nat)
    requires t < |s.threads| && Known(s, t) && !s.threads[t].pc.Idle?
    ensures Known(AdvancePc(s, t), t) && Left(AdvancePc(s, t), t) < Left(s, t)
  {
  }

  function Advances(t: nat, k: nat): seq<Step> { if k == 0 then [] else Advances(t, k - 1) + [Step(t, Advance)] }

  lemma {:induction false} LeftGoesDown(s: State, t: nat, k: nat)
    requires t < |s.threads| && Known(s, t)
    ensures var s' := Run(s, Advances(t, k)); Known(s', t) && (s'.threads[t].pc.Idle? || Left(s', t) + k <= Left(s, t))
  {
    if k > 0 {
      LeftGoesDown(s, t, k - 1);
      var s1 := Run(s, Advances(t, k - 1));
      AdvancesLast(s, t, k);
      if !s1.threads[t].pc.Idle? {
        AdvanceComesNearer(s1, t);
      }
    }
  }

  lemma AdvancesLast(s: State, t: nat, k: nat)
    requires k > 0
    ensures Run(s, Advances(t, k)) == Do(Run(s, Advances(t, k - 1)), Step(t, Advance))
  {
    assert Advances(t, k)[..|Advances(t, k)| - 1] == Advances(t, k - 1);
  }

  /** No operation gets stuck: from any state that is reached, a thread left alone is idle again after at most eight
      steps of its own. */
  lemma OperationsEndAlone(n: nat, steps: seq<Step>, s: State, t: nat)
    requires Reached(n, steps, s) && t < n
    ensures Run(s, Advances(t, 8)).threads[t].pc.Idle?
  {
    RunKeepsInv(n, steps);
    InvKnows(s, t);
    LeftGoesDown(s, t, 8);
  }

  lemma InvKnows(s: State, t: nat)
    requires Inv(s) && t < |s.threads|
    ensures Known(s, t)
  {
    assert ThreadInv(s, t);
  }

  /** While an object is being deleted its word says so. */
  ghost predicate Flagged(s: State) {
    forall i, o :: 0 <= i < |s.threads| && Deletes(s.threads[i], o) && o in s.cells ==> (s.cells[o].word / DESTRUCT) % 2 == 1
  }

  lemma StepKeepsFlagged(s: State, step: Step)
    requires Inv(s) && Flagged(s)
    ensures Flagged(Do(s, step))
  {
    var s' := Do(s, step);
    forall i, o | 0 <= i < |s.threads| && Deletes(s'.threads[i], o) && o in s'.cells
      ensures (s'.cells[o].word / DESTRUCT) % 2 == 1
    {
      if i != step.t {
        OthersHold(s, step, i);
        DeletedIsAlone(s, i, o);
        UntouchedKeepsWord(s, step, o);
      } else if step.action.Advance? {
        assert ThreadInv(s, i);
        MarkingFlags(s, i, o);
      }
    }
  }

  lemma DeletedIsAlone(s: State, i: nat, o: Obj)
    requires Inv(s) && i < |s.threads| && Deletes(s.threads[i], o)
    ensures o in s.cells && forall j :: 0 <= j < |s.threads| && j != i ==> !Touches(s.threads[j], o)
  {
    assert Dooms(s.threads[i], o) && Minds(s.threads[i], o) && ThreadInv(s, i);
    assert Alone(s, i, o);
  }

  lemma UntouchedKeepsWord(s: State, step: Step, o: Obj)
    requires o in s.cells && (step.t < |s.threads| ==> !Touches(s.threads[step.t], o))
    ensures o in Do(s, step).cells && Do(s, step).cells[o].word == s.cells[o].word
  {
  }

  lemma MarkingFlags(s: State, t: nat, o: Obj)
    requires t < |s.threads| && (!s.threads[t].pc.Idle? ==> s.threads[t].pc.o in s.cells) && Deletes(AdvancePc(s, t).threads[t], o)
    ensures var s' := AdvancePc(s, t); o in s'.cells && (s'.cells[o].word / DESTRUCT) % 2 == 1
  {
  }

  lemma DeletedIsFlagged(n: nat, steps: seq<Step>, s: State, i: nat, o: Obj)
    requires Reached(n, steps, s) && i < n && Deletes(s.threads[i], o)
    ensures o in s.cells && (s.cells[o].word / DESTRUCT) % 2 == 1
  {
    RunKeepsFlagged(n, steps);
    RunKeepsInv(n, steps);
    assert ThreadInv(s, i);
  }

  lemma {:induction false} RunKeepsFlagged(n: nat, steps: seq<Step>)
    requires AlwaysHarmless(n, steps)
    ensures Flagged(Run(Init(n), steps))
  {
    if steps != [] {
      HarmlessFront(n, steps);
      RunKeepsInv(n, steps[..|steps| - 1]);
      RunKeepsFlagged(n, steps[..|steps| - 1]);
      StepKeepsFlagged(Run(Init(n), steps[..|steps| - 1]), steps[|steps| - 1]);
    }
  }

  // ----- exactly when it is safe

  /** Whoever is about to destroy an object destroys one that is not static and that nobody refers to. */
  ghost predicate Spares(s: State) {
    forall i, o :: 0 <= i < |s.threads| && Dooms(s.threads[i], o) ==> o in s.cells && !s.cells[o].isStatic && Refs(s.threads, o) == 0
  }

  ghost predicate SparesAfter(n: nat, steps: seq<Step>, k: nat)
    requires k <= |steps|
  {
    Spares(Run(Init(n), steps[..k]))
  }

  lemma InvSpares(s: State)
    requires Inv(s)
    ensures Spares(s)
  {
    forall i, o | 0 <= i < |s.threads| && Dooms(s.threads[i], o)
      ensures o in s.cells && !s.cells[o].isStatic && Refs(s.threads, o) == 0
    {
      assert Minds(s.threads[i], o) && Alone(s, i, o);
    }
  }

  /** A run never gets ready to destroy an object that is static or referred to, exactly when each of its steps is
      harmless: no decrement leaves a count other than zero that is a multiple of 2^30. */
  lemma {:induction false} SafeIfHarmless(n: nat, steps: seq<Step>)
    ensures AlwaysHarmless(n, steps) <==> forall k :: 0 <= k <= |steps| ==> SparesAfter(n, steps, k)
  {
    if AlwaysHarmless(n, steps) {
      forall k | 0 <= k <= |steps| ensures SparesAfter(n, steps, k) {
        HarmlessPrefix(n, steps, k);
        RunKeepsInv(n, steps[..k]);
        InvSpares(Run(Init(n), steps[..k]));
      }
    } else if steps != [] {
      var front, last := steps[..|steps| - 1], steps[|steps| - 1];
      HarmlessFront(n, steps);
      if AlwaysHarmless(n, front) {
        RunKeepsInv(n, front);
        HarmDooms(Run(Init(n), front), last);
        assert steps[..|steps|] == steps && !SparesAfter(n, steps, |steps|);
      } else {
        SafeIfHarmless(n, front);
        var k :| 0 <= k <= |front| && !SparesAfter(n, front, k);
        assert front[..k] == steps[..k];
        assert !SparesAfter(n, steps, k);
      }
    }
  }

  lemma HarmlessPrefix(n: nat, steps: seq<Step>, k: nat)
    requires AlwaysHarmless(n, steps) && k <= |steps|
    ensures AlwaysHarmless(n, steps[..k])
  {
    forall j | 0 <= j < k ensures HarmlessAt(n, steps[..k], j) {
      assert steps[..k][..j] == steps[..j] && HarmlessAt(n, steps, j);
    }
  }

  lemma HarmDooms(s: State, step: Step)
    requires Inv(s) && !Harmless(s, step)
    ensures !Spares(Do(s, step))
  {
    var t, o := step.t, s.threads[step.t].pc.o;
    HarmStep(s, t, o);
    assert Dooms(CountedDown(s, t, o).threads[t], o);
  }

  /** A harmful step: the test will say zero, of an object that is static or still referred to. */
  lemma HarmStep(s: State, t: nat, o: Obj)
    requires Inv(s) && !Harmless(s, Step(t, Advance)) && s.threads[t].pc.o == o
    ensures Do(s, Step(t, Advance)) == CountedDown(s, t, o)
    ensures s.cells[o].alive && (s.cells[o].word - 1) % WORD % COUNT == 0
    ensures s.cells[o].isStatic || Refs(CountedDown(s, t, o).threads, o) > 0
  {
    CountDownLeaves(s, t, o);
    CountDownCounts(s, t, o);
    CasSucceeds(s, t, o);
  }

  /** And then it destroys: after the first harmful step it only takes the thread's own next steps. */
  lemma HarmDestroys(n: nat, steps: seq<Step>, s: State, step: Step)
    requires Reached(n, steps, s) && !Harmless(s, step)
    ensures var next, o := Step(step.t, Advance), s.threads[step.t].pc.o;
            var s' := Do(Do(Do(Do(s, step), next), next), next);
            && o in s.cells && s.cells[o].alive && s.cells[o].destroyed == 0
            && o in s'.cells && s'.cells[o].destroyed == 1 && !s'.cells[o].alive
            && (s.cells[o].isStatic || Refs(s'.threads, o) > 0)
  {
    ReachedInv(n, steps, s);
    var t, o := step.t, s.threads[step.t].pc.o;
    HarmStep(s, t, o);
    assert CellInv(s, o);
    var s1 := CountedDown(s, t, o);
    TestDestroys(s1, t, o, s.threads[t].pc.next);
    RefsUpdate(s1.threads, t, Thread(s.threads[t].held, After(s.threads[t].pc.next)), o);
  }

  /** A thread whose test says zero destroys the object, whatever the flag of destruction says. */
  lemma TestDestroys(s: State, t: nat, o: Obj, next: Option<Obj>)
    requires t < |s.threads| && o in s.cells
    requires s.threads[t].pc.ZeroTest? && s.threads[t].pc.o == o && s.threads[t].pc.next == next && s.threads[t].pc.val % COUNT == 0
    ensures var s' := AdvancePc(AdvancePc(AdvancePc(s, t), t), t);
            && o in s'.cells && s'.cells[o].destroyed == s.cells[o].destroyed + 1 && !s'.cells[o].alive
            && s'.threads == s.threads[t := Thread(s.threads[t].held, After(next))]
  {
    var th := s.threads[t];
    var s1 := AdvancePc(s, t);
    assert s1 == SetPc(s, t, Marking(o, next));
    var s2 := AdvancePc(s1, t);
    assert s2.threads == s.threads[t := th.(pc := Deleting(o, next))];
    assert o in s2.cells && s2.cells[o].destroyed == s.cells[o].destroyed;
  }

  // ----- runs that do harm

  /** One thread that holds k references to one object. */
  function Holding(k: nat): State {
    State(map[0 := Cell(k % WORD, false, true, 0)], [Thread(multiset{}[0 := k], Idle)])
  }

  const CREATE := [Step(0, Create(0, false)), Step(0, Advance), Step(0, Advance)]
  const COPY := [Step(0, Copy(0)), Step(0, Advance), Step(0, Advance)]
  const RELEASE := [Step(0, Release(0)), Step(0, Advance), Step(0, Advance), Step(0, Advance), Step(0, Advance), Step(0, Advance)]

  /** The thread creates the object and copies its pointer k - 1 times. */
  function Hoard(k: nat): seq<Step> {
    if k <= 1 then CREATE else Hoard(k - 1) + COPY
  }

  lemma {:induction false} RunConcat(s: State, a: seq<Step>, b: seq<Step>)
    ensures Run(s, a + b) == Run(Run(s, a), b)
  {
    if b == [] {
      assert a + b == a;
    } else {
      RunConcat(s, a, b[..|b| - 1]);
      assert (a + b)[..|a + b| - 1] == a + b[..|b| - 1];
    }
  }

  lemma RunThree(s: State, x: Step, y: Step, z: Step)
    ensures Run(s, [x, y, z]) == Do(Do(Do(s, x), y), z)
  {
    assert [x, y, z][..2] == [x, y] && [x, y][..1] == [x] && [x][..0] == [];
    assert Run(s, [x]) == Do(s, x);
    assert Run(s, [x, y]) == Do(Do(s, x), y);
  }

  lemma CreateHolds()
    ensures Run(Init(1), CREATE) == Holding(1)
  {
    RunThree(Init(1), CREATE[0], CREATE[1], CREATE[2]);
    var s1 := Do(Init(1), CREATE[0]);
    assert s1 == State(map[0 := Cell(0, false, true, 0)], [Thread(multiset{}, IncLoad(0, true))]);
    var s2 := Do(s1, CREATE[1]);
    assert s2 == State(map[0 := Cell(0, false, true, 0)], [Thread(multiset{}, IncCas(0, true, 0))]);
    assert multiset{} + multiset{0 as Obj} == multiset{}[0 := 1];
  }

  lemma CopyHolds(k: nat)
    requires 0 < k
    ensures Run(Holding(k), COPY) == Holding(k + 1)
  {
    RunThree(Holding(k), COPY[0], COPY[1], COPY[2]);
    var held := multiset{}[0 as Obj := k];
    var s1 := Do(Holding(k), COPY[0]);
    assert s1 == State(map[0 := Cell(k % WORD, false, true, 0)], [Thread(held, IncLoad(0, false))]);
    var s2 := Do(s1, COPY[1]);
    assert s2 == State(map[0 := Cell(k % WORD, false, true, 0)], [Thread(held, IncCas(0, false, k % WORD))]);
    assert held + multiset{0 as Obj} == multiset{}[0 := k + 1];
    ModSucc(k, WORD);
    assert Do(s2, COPY[2]).cells == map[0 := Cell((k + 1) % WORD, false, true, 0)];
  }

  lemma {:induction false} HoardHolds(k: nat)
    requires 0 < k
    ensures Run(Init(1), Hoard(k)) == Holding(k)
  {
    if k == 1 {
      CreateHolds();
    } else {
      HoardHolds(k - 1);
      RunConcat(Init(1), Hoard(k - 1), COPY);
      CopyHolds(k - 1);
    }
  }

  /** A thread that holds k references and releases one goes on to destroy the object exactly when the references
      left are a multiple of 2^30 - not only when none are left. */
  lemma ReleaseHoarded(k: nat)
    requires 0 < k
    ensures var s := Run(Holding(k), RELEASE);
            && s.threads == [Thread(multiset{}[0 := k - 1], Idle)] && 0 in s.cells
            && s.cells[0].destroyed == (if (k - 1) % COUNT == 0 then 1 else 0) && (s.cells[0].alive <==> (k - 1) % COUNT != 0)
  {
    RunConcat(Holding(k), RELEASE[..3], RELEASE[3..]);
    assert RELEASE == RELEASE[..3] + RELEASE[3..];
    ReleaseCounts(k);
    ReleaseEnds(k - 1);
  }

  function Counting(k: nat): State {
    State(map[0 := Cell(k % WORD, false, true, 0)], [Thread(multiset{}[0 := k], ZeroTest(0, None, k % WORD))])
  }

  lemma ReleaseCounts(k: nat)
    requires 0 < k
    ensures Run(Holding(k), RELEASE[..3]) == Counting(k - 1)
  {
    assert RELEASE[..3] == [RELEASE[0], RELEASE[1], RELEASE[2]];
    RunThree(Holding(k), RELEASE[0], RELEASE[1], RELEASE[2]);
    var held := multiset{}[0 as Obj := k - 1];
    assert multiset{}[0 as Obj := k] - multiset{0 as Obj} == held;
    var s1 := Do(Holding(k), RELEASE[0]);
    assert s1 == State(map[0 := Cell(k % WORD, false, true, 0)], [Thread(held, DecLoad(0, None))]);
    var s2 := Do(s1, RELEASE[1]);
    assert s2 == State(map[0 := Cell(k % WORD, false, true, 0)], [Thread(held, DecCas(0, None, k % WORD))]);
    ModPred(k, WORD);
    assert Do(s2, RELEASE[2]).cells == map[0 := Cell((k - 1) % WORD, false, true, 0)];
  }

  lemma ReleaseEnds(k: nat)
    ensures var s := Run(Counting(k), RELEASE[3..]);
            && s.threads == [Thread(multiset{}[0 := k], Idle)] && 0 in s.cells
            && s.cells[0].destroyed == (if k % COUNT == 0 then 1 else 0) && (s.cells[0].alive <==> k % COUNT != 0)
  {
    assert RELEASE[3..] == [RELEASE[3], RELEASE[4], RELEASE[5]];
    RunThree(Counting(k), RELEASE[3], RELEASE[4], RELEASE[5]);
    var held := multiset{}[0 as Obj := k];
    ModMask(k);
    var s1 := Do(Counting(k), RELEASE[3]);
    if k % COUNT == 0 {
      assert s1 == State(map[0 := Cell(k % WORD, false, true, 0)], [Thread(held, Marking(0, None))]);
      var s2 := Do(s1, RELEASE[4]);
      assert s2.threads == [Thread(held, Deleting(0, None))] && 0 in s2.cells && s2.cells[0].destroyed == 0;
    } else {
      assert s1 == State(map[0 := Cell(k % WORD, false, true, 0)], [Thread(held, Idle)]);
    }
  }

  /** The runs that reach the limit. One thread creates an object, copies its pointer until it holds k, and
      releases one. The object is then destroyed exactly when the references left are a multiple of 2^30: for
      2^30 + 1 it is destroyed while the thread holds 2^30 references to it. */
  lemma ReleaseAtTheLimit(k: nat)
    requires 0 < k
    ensures var s := Run(Init(1), Hoard(k) + RELEASE);
            && Refs(s.threads, 0) == k - 1 && 0 in s.cells && s.threads[0].pc.Idle?
            && (s.cells[0].destroyed == 1 <==> (k - 1) % COUNT == 0) && (s.cells[0].alive <==> (k - 1) % COUNT != 0)
  {
    HoardHolds(k);
    RunConcat(Init(1), Hoard(k), RELEASE);
    ReleaseHoarded(k);
    var s := Run(Init(1), Hoard(k) + RELEASE);
    assert s.threads[..0] == [] && Owed(s.threads[0], 0) == k - 1;
  }
}
