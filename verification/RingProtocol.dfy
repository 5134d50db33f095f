/** The wrapping queue of cQueueStatic, shared by one writer thread and one reader thread.

    Every load and every store of a shared field is a step of its own, and a run is any
    interleaving of steps under sequential consistency. Fields that the program does not have
    (histories and credits) are only ever written by the steps, never tested by them. */
module RingProtocol {

  import opened Arith

  datatype WriterPc<T> =
    | WIdle
    | WBegun(val: T, iWrite: nat)       // Write1 has loaded _nWriteIndex
    | WRoom(val: T, iWrite: nat)        // ... and has seen a read index other than the next slot
    | WStored(val: T, iWrite: nat)      // ... and has stored the element, not yet the index
    | WCounting(iRead: nat, seen: nat)  // get_WriteQtyT has loaded _nReadIndex; seen is history

  datatype ReaderPc<T> =
    | RIdle
    | RPolling(iRead: nat)              // isEmptyQ has loaded _nReadIndex
    | RCounting(iRead: nat)             // get_ReadQtyT has loaded _nReadIndex
    | RChecking(iRead: nat)             // the ASSERT of Read1 has loaded _nReadIndex
    | RChecked                          // ... and has compared it with _nWriteIndex
    | RBegun(iRead: nat)                // Read1 has loaded _nReadIndex into iRead
    | RLoaded(iRead: nat, val: T)       // ... and has loaded the element, not yet stored the index

  datatype State<T> = State(
    data: seq<T>, readIndex: nat, writeIndex: nat,
    writer: WriterPc<T>, reader: ReaderPc<T>,
    failed: bool,          // some ASSERT has failed
    accepted: seq<T>,      // history: every element whose Write1 returned true
    consumed: seq<T>,      // history: every element Read1 has returned
    readCredit: nat,       // elements the reader was told it may still read
    writeCredit: nat)      // elements the writer was told it may still write

  datatype Step<T> =
    | BeginWrite(val: T) | TestRoom | StoreElement | PublishWrite
    | BeginWriteQty | EndWriteQty
    | BeginPoll | EndPoll | BeginReadQty | EndReadQty
    | BeginRead | CheckRead | LoadReadIndex | LoadElement | PublishRead

  function Init<T>(data: seq<T>): State<T> {
    State(data, 0, 0, WIdle, RIdle, false, [], [], 0, 0)
  }

  function Wrap(i: nat, qty: nat): nat
    requires 0 < qty
  {
    i % qty
  }

  /** get_ReadQtyT from a read index and a write index that were loaded one after the other. */
  function Qty(iRead: nat, iWrite: nat, qty: nat): int {
    if iRead > iWrite then iWrite + qty - iRead else iWrite - iRead
  }

  function Max(a: int, b: nat): nat {
    if a > b then a else b
  }

  /** One step of the writer thread; a step that its program counter does not allow changes nothing. */
  function WriterStep<T>(s: State<T>, step: Step<T>): State<T>
    requires 0 < |s.data|
  {
    match (step, s.writer)
    case (BeginWrite(val), WIdle) =>
      s.(writer := WBegun(val, s.writeIndex), failed := s.failed || s.writeIndex >= |s.data|)
    case (TestRoom, WBegun(val, iWrite)) =>
      if Wrap(iWrite + 1, |s.data|) == s.readIndex then s.(writer := WIdle)
      else s.(writer := WRoom(val, iWrite))
    case (StoreElement, WRoom(val, iWrite)) =>
      if iWrite < |s.data| then s.(writer := WStored(val, iWrite), data := s.data[iWrite := val])
      else s.(failed := true)
    case (PublishWrite, WStored(val, iWrite)) =>
      s.(writer := WIdle, writeIndex := Wrap(iWrite + 1, |s.data|), accepted := s.accepted + [val],
         writeCredit := Max(s.writeCredit - 1, 0))
    case (BeginWriteQty, WIdle) =>
      s.(writer := WCounting(s.readIndex, |s.consumed|))
    case (EndWriteQty, WCounting(iRead, _)) =>
      s.(writer := WIdle, writeCredit := Max(|s.data| - 1 - Qty(iRead, s.writeIndex, |s.data|), 0))
    case _ => s
  }

  /** One step of the reader thread. A caller starts Read1 only on credit: isEmptyQ answered false,
      or get_ReadQtyT promised elements it has not used up. */
  function ReaderStep<T>(s: State<T>, step: Step<T>): State<T> {
    match (step, s.reader)
    case (BeginPoll, RIdle) => s.(reader := RPolling(s.readIndex))
    case (EndPoll, RPolling(iRead)) =>
      if iRead == s.writeIndex then s.(reader := RIdle)
      else s.(reader := RIdle, readCredit := Max(s.readCredit, 1))
    case (BeginReadQty, RIdle) => s.(reader := RCounting(s.readIndex))
    case (EndReadQty, RCounting(iRead)) =>
      s.(reader := RIdle, readCredit := Max(Qty(iRead, s.writeIndex, |s.data|), 0))
    case (BeginRead, RIdle) =>
      if s.readCredit > 0 then s.(reader := RChecking(s.readIndex)) else s
    case (CheckRead, RChecking(iRead)) =>
      s.(reader := RChecked, failed := s.failed || iRead == s.writeIndex)
    case (LoadReadIndex, RChecked) =>
      s.(reader := RBegun(s.readIndex), failed := s.failed || s.readIndex >= |s.data|)
    case (LoadElement, RBegun(iRead)) =>
      if iRead < |s.data| then s.(reader := RLoaded(iRead, s.data[iRead])) else s.(failed := true)
    case (PublishRead, RLoaded(iRead, val)) =>
      if |s.data| == 0 then s else
      s.(reader := RIdle, readIndex := Wrap(iRead + 1, |s.data|), consumed := s.consumed + [val],
         readCredit := Max(s.readCredit - 1, 0))
    case _ => s
  }

  predicate IsWriterStep<T>(step: Step<T>) {
    step.BeginWrite? || step.TestRoom? || step.StoreElement? || step.PublishWrite?
    || step.BeginWriteQty? || step.EndWriteQty?
  }

  function Do<T>(s: State<T>, step: Step<T>): State<T>
    requires 0 < |s.data|
  {
    if IsWriterStep(step) then WriterStep(s, step) else ReaderStep(s, step)
  }

  function Run<T>(s: State<T>, steps: seq<Step<T>>): (s': State<T>)
    requires 0 < |s.data|
    ensures |s'.data| == |s.data|
  {
    if steps == [] then s else Do(Run(s, steps[..|steps| - 1]), steps[|steps| - 1])
  }

  function Outstanding<T>(s: State<T>): int {
    |s.accepted| - |s.consumed|
  }

  ghost predicate Window<T>(s: State<T>)
    requires 0 < |s.data|
  {
    forall k: nat {:trigger s.accepted[k]} :: |s.consumed| <= k < |s.accepted| ==> s.data[k % |s.data|] == s.accepted[k]
  }

  ghost predicate WriterInv<T>(s: State<T>)
    requires 0 < |s.data|
  {
    match s.writer
    case WIdle => true
    case WBegun(_, iWrite) => iWrite == s.writeIndex
    case WRoom(_, iWrite) => iWrite == s.writeIndex && Outstanding(s) < |s.data| - 1
    case WStored(val, iWrite) =>
      iWrite == s.writeIndex < |s.data| && Outstanding(s) < |s.data| - 1 && s.data[iWrite] == val
    case WCounting(iRead, seen) =>
      seen <= |s.consumed| && iRead == seen % |s.data| && |s.accepted| - seen <= |s.data| - 1
  }

  ghost predicate ReaderInv<T>(s: State<T>) {
    match s.reader
    case RIdle => true
    case RPolling(iRead) => iRead == s.readIndex
    case RCounting(iRead) => iRead == s.readIndex
    case RChecking(iRead) => iRead == s.readIndex && s.readCredit > 0
    case RChecked => s.readCredit > 0
    case RBegun(iRead) => iRead == s.readIndex && s.readCredit > 0
    case RLoaded(iRead, val) =>
      iRead == s.readIndex && s.readCredit > 0 && |s.consumed| < |s.accepted| && val == s.accepted[|s.consumed|]
  }

  ghost predicate Inv<T>(s: State<T>) {
    && 0 < |s.data|
    && !s.failed
    && s.consumed <= s.accepted
    && s.readIndex == |s.consumed| % |s.data|
    && s.writeIndex == |s.accepted| % |s.data|
    && s.readCredit <= Outstanding(s)
    && Outstanding(s) + s.writeCredit <= |s.data| - 1
    && Window(s)
    && WriterInv(s)
    && ReaderInv(s)
  }

  lemma StoreKeepsInv<T>(s: State<T>)
    requires Inv(s) && s.writer.WRoom?
    ensures Inv(WriterStep(s, StoreElement))
  {
    var s' := WriterStep(s, StoreElement);
    var n, a, c := |s.data|, |s.accepted|, |s.consumed|;
    forall k: nat {:trigger s'.accepted[k]} | c <= k < a ensures s'.data[k % n] == s'.accepted[k] {
      ModDistance(k, a, n);
      assert s.data[k % n] == s.accepted[k];
    }
  }

  lemma PublishKeepsInv<T>(s: State<T>)
    requires Inv(s) && s.writer.WStored?
    ensures Inv(WriterStep(s, PublishWrite))
  {
    ModSucc(|s.accepted|, |s.data|);
    var s' := WriterStep(s, PublishWrite);
    forall k: nat {:trigger s'.accepted[k]} | |s'.consumed| <= k < |s'.accepted|
      ensures s'.data[k % |s'.data|] == s'.accepted[k]
    {
      if k < |s.accepted| {
        assert s.data[k % |s.data|] == s.accepted[k];
      }
    }
  }

  lemma WriterStepKeepsInv<T>(s: State<T>, step: Step<T>)
    requires Inv(s)
    ensures Inv(WriterStep(s, step))
  {
    if step.StoreElement? && s.writer.WRoom? {
      StoreKeepsInv(s);
    } else if step.PublishWrite? && s.writer.WStored? {
      PublishKeepsInv(s);
    } else if step.EndWriteQty? && s.writer.WCounting? {
      ModDistance(s.writer.seen, |s.accepted|, |s.data|);
    } else if step.TestRoom? && s.writer.WBegun? {
      FullTest(s);
    }
  }

  /** The test of Write1: the slot after the write index is the read index exactly when QTY-1
      elements are outstanding. */
  lemma FullTest<T>(s: State<T>)
    requires Inv(s)
    ensures Wrap(s.writeIndex + 1, |s.data|) == s.readIndex <==> Outstanding(s) == |s.data| - 1
  {
    var n, a, c := |s.data|, |s.accepted|, |s.consumed|;
    ModSucc(a, n);
    if a + 1 < c + n {
      ModDistance(c, a + 1, n);
    } else {
      ModShift(c, n);
    }
  }

  lemma ReaderStepKeepsInv<T>(s: State<T>, step: Step<T>)
    requires Inv(s)
    ensures Inv(ReaderStep(s, step))
  {
    var n, a, c := |s.data|, |s.accepted|, |s.consumed|;
    ModDistance(c, a, n);
    if step.LoadElement? && s.reader.RBegun? {
      assert s.data[c % n] == s.accepted[c];
    } else if step.PublishRead? && s.reader.RLoaded? {
      ModSucc(c, n);
    }
  }

  lemma {:induction false} RunKeepsInv<T>(data: seq<T>, steps: seq<Step<T>>)
    requires 0 < |data|
    ensures Inv(Run(Init(data), steps))
  {
    if steps != [] {
      var s, step := Run(Init(data), steps[..|steps| - 1]), steps[|steps| - 1];
      RunKeepsInv(data, steps[..|steps| - 1]);
      if IsWriterStep(step) {
        WriterStepKeepsInv(s, step);
      } else {
        ReaderStepKeepsInv(s, step);
      }
    }
  }

  /** Over every interleaving: the elements read are, in order, the first elements accepted; at most
      QTY-1 are outstanding; both indexes stay in range; no ASSERT fails; and neither quantity query
      has promised more than its caller can still use, whatever the other thread has done since. */
  lemma RingIsSafe<T>(data: seq<T>, steps: seq<Step<T>>)
    requires 0 < |data|
    ensures var s := Run(Init(data), steps);
            && s.consumed <= s.accepted
            && 0 <= |s.accepted| - |s.consumed| <= |data| - 1
            && s.readIndex < |data| && s.writeIndex < |data|
            && !s.failed
            && s.readCredit <= |s.accepted| - |s.consumed|
            && s.writeCredit <= |data| - 1 - (|s.accepted| - |s.consumed|)
  {
    RunKeepsInv(data, steps);
  }

  /** Write1 answers false only from a full queue, and so never to a writer with credit. */
  lemma RejectedOnlyWhenFull<T>(data: seq<T>, steps: seq<Step<T>>)
    requires 0 < |data|
    requires Run(Init(data), steps).writer.WBegun?
    ensures var s := Run(Init(data), steps);
            Do(s, TestRoom).writer.WIdle? <==> |s.accepted| - |s.consumed| == |data| - 1
    ensures var s := Run(Init(data), steps);
            s.writeCredit > 0 ==> Do(s, TestRoom).writer.WRoom?
  {
    RunKeepsInv(data, steps);
    var s := Run(Init(data), steps);
    FullTest(s);
  }

  /** isEmptyQ answers true only from an empty queue: a reader is never told of emptiness while an
      element has been published. */
  lemma EmptyOnlyWhenEmpty<T>(data: seq<T>, steps: seq<Step<T>>)
    requires 0 < |data|
    requires Run(Init(data), steps).reader.RPolling?
    ensures var s := Run(Init(data), steps);
            Do(s, EndPoll).readCredit > 0 <==> s.consumed != s.accepted
  {
    RunKeepsInv(data, steps);
    var s := Run(Init(data), steps);
    ModDistance(|s.consumed|, |s.accepted|, |s.data|);
  }

  /** What the queries answer: the reader gets the exact number outstanding when it loads the write
      index, the writer exactly the room there was when it loaded the read index. */
  lemma QuantityAnswers<T>(data: seq<T>, steps: seq<Step<T>>)
    requires 0 < |data|
    ensures var s := Run(Init(data), steps);
            && (s.reader.RCounting? ==> Do(s, EndReadQty).readCredit == |s.accepted| - |s.consumed|)
            && (s.writer.WCounting? ==> Do(s, EndWriteQty).writeCredit == |data| - 1 - (|s.accepted| - s.writer.seen))
  {
    RunKeepsInv(data, steps);
    var s := Run(Init(data), steps);
    ModDistance(|s.consumed|, |s.accepted|, |s.data|);
    if s.writer.WCounting? {
      ModDistance(s.writer.seen, |s.accepted|, |s.data|);
    }
  }

  // ----- whole operations

  lemma {:induction false} RunOnKeepsInv<T>(s: State<T>, steps: seq<Step<T>>)
    requires Inv(s)
    ensures Inv(Run(s, steps))
  {
    if steps != [] {
      var front, last := steps[..|steps| - 1], steps[|steps| - 1];
      RunOnKeepsInv(s, front);
      if IsWriterStep(last) {
        WriterStepKeepsInv(Run(s, front), last);
      } else {
        ReaderStepKeepsInv(Run(s, front), last);
      }
    }
  }

  predicate ReaderOnly<T>(steps: seq<Step<T>>) { forall i :: 0 <= i < |steps| ==> !IsWriterStep(steps[i]) }

  predicate WriterOnly<T>(steps: seq<Step<T>>) { forall i :: 0 <= i < |steps| ==> IsWriterStep(steps[i]) }

  /** The reader leaves alone what is the writer's; what it consumes only grows. */
  lemma {:induction false} ReaderLeaves<T>(s: State<T>, steps: seq<Step<T>>)
    requires 0 < |s.data| && ReaderOnly(steps)
    ensures var s' := Run(s, steps);
            && s'.writer == s.writer && s'.data == s.data && s'.writeIndex == s.writeIndex
            && s'.accepted == s.accepted && s'.writeCredit == s.writeCredit && s.consumed <= s'.consumed
  {
    if steps != [] {
      ReaderLeaves(s, steps[..|steps| - 1]);
    }
  }

  /** The writer leaves alone what is the reader's; what it has accepted only grows. */
  lemma {:induction false} WriterLeaves<T>(s: State<T>, steps: seq<Step<T>>)
    requires 0 < |s.data| && WriterOnly(steps)
    ensures var s' := Run(s, steps);
            && s'.reader == s.reader && s'.readIndex == s.readIndex
            && s'.consumed == s.consumed && s'.readCredit == s.readCredit && s.accepted <= s'.accepted
  {
    if steps != [] {
      WriterLeaves(s, steps[..|steps| - 1]);
    }
  }

  /** One step of the writer after any of the reader, and the other way round. */
  function Then<T>(s: State<T>, others: seq<Step<T>>, step: Step<T>): (s': State<T>)
    requires 0 < |s.data|
    ensures |s'.data| == |s.data|
  {
    Do(Run(s, others), step)
  }

  lemma ThenKeepsInv<T>(s: State<T>, others: seq<Step<T>>, step: Step<T>)
    requires Inv(s)
    ensures Inv(Run(s, others)) && Inv(Then(s, others, step))
  {
    RunOnKeepsInv(s, others);
    if IsWriterStep(step) {
      WriterStepKeepsInv(Run(s, others), step);
    } else {
      ReaderStepKeepsInv(Run(s, others), step);
    }
  }

  /** As the writer sees it nothing has happened since s0, but that the reader has gone on. */
  ghost predicate WriterSees<T>(s0: State<T>, s: State<T>) {
    && |s.data| == |s0.data| && s.writeIndex == s0.writeIndex && s.accepted == s0.accepted
    && |s0.consumed| <= |s.consumed|
  }

  /** A step of Write1 before the last. */
  lemma WriteGoesOn<T>(s0: State<T>, s: State<T>, x: T, r: seq<Step<T>>)
    requires Inv(s) && WriterSees(s0, s) && ReaderOnly(r) && s.writer == WRoom(x, s.writeIndex)
    ensures var s' := Then(s, r, StoreElement);
            Inv(s') && WriterSees(s0, s') && s'.writer == WStored(x, s.writeIndex)
  {
    ThenKeepsInv(s, r, StoreElement);
    ReaderLeaves(s, r);
  }

  lemma WriteEnds<T>(s0: State<T>, s: State<T>, x: T, r: seq<Step<T>>)
    requires Inv(s) && WriterSees(s0, s) && ReaderOnly(r) && s.writer == WStored(x, s.writeIndex)
    ensures var s' := Then(s, r, PublishWrite);
            s'.writer.WIdle? && s'.accepted == s0.accepted + [x] && s'.writeIndex == (s0.writeIndex + 1) % |s0.data|
  {
    ReaderLeaves(s, r);
  }

  lemma WriteTests<T>(s: State<T>, x: T, r: seq<Step<T>>)
    requires Inv(s) && s.writer.WIdle? && ReaderOnly(r)
    ensures var looked := Run(Do(s, BeginWrite(x)), r);
            var tested := Do(looked, TestRoom);
            && Inv(tested) && WriterSees(s, tested) && looked.accepted == s.accepted && tested.data == s.data
            && tested.writer == if Outstanding(looked) == |s.data| - 1 then WIdle else WRoom(x, s.writeIndex)
  {
    WriterStepKeepsInv(s, BeginWrite(x));
    var begun := Do(s, BeginWrite(x));
    ThenKeepsInv(begun, r, TestRoom);
    ReaderLeaves(begun, r);
    FullTest(Run(begun, r));
  }

  lemma NothingToWrite<T>(s: State<T>, r: seq<Step<T>>, step: Step<T>)
    requires 0 < |s.data| && s.writer.WIdle? && ReaderOnly(r) && (step.StoreElement? || step.PublishWrite?)
    ensures var s' := Then(s, r, step);
            s'.writer.WIdle? && s'.accepted == s.accepted && s'.data == s.data && s'.writeIndex == s.writeIndex
  {
    ReaderLeaves(s, r);
  }

  /** A whole Write1(x), with any steps of the reader between its own: it is rejected exactly when QTY-1 elements were
      outstanding as it looked at the read index, and then changes nothing; otherwise it adds x to what was accepted. */
  lemma Write1Delivers<T>(data: seq<T>, before: seq<Step<T>>, x: T, r1: seq<Step<T>>, r2: seq<Step<T>>, r3: seq<Step<T>>)
    requires 0 < |data| && Run(Init(data), before).writer.WIdle?
    requires ReaderOnly(r1) && ReaderOnly(r2) && ReaderOnly(r3)
    ensures var s := Run(Init(data), before);
            var looked := Run(Do(s, BeginWrite(x)), r1);
            var tested := Do(looked, TestRoom);
            var s' := Then(Then(tested, r2, StoreElement), r3, PublishWrite);
            && looked.accepted == s.accepted && s'.writer.WIdle?
            && if Outstanding(looked) == |data| - 1
               then tested.writer.WIdle? && s'.accepted == s.accepted && s'.data == s.data && s'.writeIndex == s.writeIndex
               else s'.accepted == s.accepted + [x] && s'.writeIndex == (s.writeIndex + 1) % |data|
  {
    RunKeepsInv(data, before);
    var s := Run(Init(data), before);
    WriteTests(s, x, r1);
    var tested := Do(Run(Do(s, BeginWrite(x)), r1), TestRoom);
    if tested.writer.WIdle? {
      NothingToWrite(tested, r2, StoreElement);
      NothingToWrite(Then(tested, r2, StoreElement), r3, PublishWrite);
    } else {
      WriteGoesOn(s, tested, x, r2);
      WriteEnds(s, Then(tested, r2, StoreElement), x, r3);
    }
  }

  /** As the reader sees it nothing has happened since s0, but that the writer has gone on. */
  ghost predicate ReadUnderWay<T>(s0: State<T>, s: State<T>) {
    Inv(s) && |s.data| == |s0.data| && s.readIndex == s0.readIndex && s.consumed == s0.consumed && s0.accepted <= s.accepted
  }

  /** A step of Read1 before the last. */
  lemma ReadGoesOn<T>(s0: State<T>, s: State<T>, w: seq<Step<T>>, step: Step<T>)
    requires ReadUnderWay(s0, s) && WriterOnly(w)
    requires (s.reader.RChecking? && step == CheckRead) || (s.reader.RChecked? && step == LoadReadIndex)
             || (s.reader.RBegun? && step == LoadElement)
    ensures var s' := Then(s, w, step);
            && ReadUnderWay(s0, s')
            && (step == CheckRead ==> s'.reader.RChecked?) && (step == LoadReadIndex ==> s'.reader.RBegun?)
            && (step == LoadElement ==> s'.reader.RLoaded?)
  {
    ThenKeepsInv(s, w, step);
    WriterLeaves(s, w);
  }

  lemma ReadEnds<T>(s0: State<T>, s: State<T>, w: seq<Step<T>>)
    requires ReadUnderWay(s0, s) && WriterOnly(w) && s.reader.RLoaded? && |s0.consumed| < |s0.accepted|
    ensures var s' := Then(s, w, PublishRead);
            && s'.reader.RIdle? && s'.consumed == s0.consumed + [s0.accepted[|s0.consumed|]] && s0.accepted <= s'.accepted
            && s'.readIndex == (s0.readIndex + 1) % |s0.data|
  {
    RunOnKeepsInv(s, w);
    WriterLeaves(s, w);
  }

  /** A whole Read1 of a reader with credit, with any steps of the writer between its own, takes exactly the next
      element of what was accepted. */
  lemma Read1Takes<T>(data: seq<T>, before: seq<Step<T>>,
                      w1: seq<Step<T>>, w2: seq<Step<T>>, w3: seq<Step<T>>, w4: seq<Step<T>>)
    requires 0 < |data| && Run(Init(data), before).reader.RIdle? && Run(Init(data), before).readCredit > 0
    requires WriterOnly(w1) && WriterOnly(w2) && WriterOnly(w3) && WriterOnly(w4)
    ensures var s := Run(Init(data), before);
            var checked := Then(Do(s, BeginRead), w1, CheckRead);
            var s' := Then(Then(Then(checked, w2, LoadReadIndex), w3, LoadElement), w4, PublishRead);
            && |s.consumed| < |s.accepted| && s.accepted <= s'.accepted
            && s'.reader.RIdle? && s'.consumed == s.consumed + [s.accepted[|s.consumed|]]
            && s'.readIndex == (s.readIndex + 1) % |data|
  {
    RunKeepsInv(data, before);
    var s := Run(Init(data), before);
    ReaderStepKeepsInv(s, BeginRead);
    var s1 := Do(s, BeginRead);
    ReadGoesOn(s, s1, w1, CheckRead);
    var s2 := Then(s1, w1, CheckRead);
    ReadGoesOn(s, s2, w2, LoadReadIndex);
    var s3 := Then(s2, w2, LoadReadIndex);
    ReadGoesOn(s, s3, w3, LoadElement);
    ReadEnds(s, Then(s3, w3, LoadElement), w4);
  }

  /** A whole isEmptyQ of the reader: it gives credit exactly if something accepted is unread when it loads the write
      index. */
  lemma PollTells<T>(data: seq<T>, before: seq<Step<T>>, w: seq<Step<T>>)
    requires 0 < |data| && Run(Init(data), before).reader.RIdle? && WriterOnly(w)
    ensures var s := Run(Init(data), before);
            var loaded := Run(Do(s, BeginPoll), w);
            var s' := Do(loaded, EndPoll);
            && s'.reader.RIdle? && s'.consumed == s.consumed && s'.accepted == loaded.accepted && s.accepted <= s'.accepted
            && (s'.readCredit > 0 <==> s.consumed != s'.accepted) && s.readCredit <= s'.readCredit
  {
    RunKeepsInv(data, before);
    var s := Run(Init(data), before);
    ThenKeepsInv(s, [], BeginPoll);
    ThenKeepsInv(Do(s, BeginPoll), w, EndPoll);
    WriterLeaves(Do(s, BeginPoll), w);
    ModDistance(|s.consumed|, |Run(Do(s, BeginPoll), w).accepted|, |data|);
  }

  /** A whole get_ReadQtyT of the reader promises what is outstanding when it loads the write index. */
  lemma ReadQtyTells<T>(data: seq<T>, before: seq<Step<T>>, w: seq<Step<T>>)
    requires 0 < |data| && Run(Init(data), before).reader.RIdle? && WriterOnly(w)
    ensures var s := Run(Init(data), before);
            var s' := Then(Do(s, BeginReadQty), w, EndReadQty);
            && s'.reader.RIdle? && s'.consumed == s.consumed && s.accepted <= s'.accepted
            && s'.readCredit == |s'.accepted| - |s.consumed|
  {
    RunKeepsInv(data, before);
    var s := Run(Init(data), before);
    ThenKeepsInv(s, [], BeginReadQty);
    ThenKeepsInv(Do(s, BeginReadQty), w, EndReadQty);
    WriterLeaves(Do(s, BeginReadQty), w);
    ModDistance(|s.consumed|, |Run(Do(s, BeginReadQty), w).accepted|, |data|);
  }

  /** A whole get_WriteQtyT of the writer promises the room there was when it loaded the read index. */
  lemma WriteQtyTells<T>(data: seq<T>, before: seq<Step<T>>, r: seq<Step<T>>)
    requires 0 < |data| && Run(Init(data), before).writer.WIdle? && ReaderOnly(r)
    ensures var s := Run(Init(data), before);
            var s' := Then(Do(s, BeginWriteQty), r, EndWriteQty);
            && s'.writer.WIdle? && s'.accepted == s.accepted && s.consumed <= s'.consumed
            && s'.writeCredit == |data| - 1 - (|s.accepted| - |s.consumed|)
  {
    RunKeepsInv(data, before);
    var s := Run(Init(data), before);
    ThenKeepsInv(s, [], BeginWriteQty);
    var counting := Do(s, BeginWriteQty);
    ThenKeepsInv(counting, r, EndWriteQty);
    ReaderLeaves(counting, r);
    ModDistance(|s.consumed|, |s.accepted|, |data|);
  }
}
