/**
  The batching writer of the log store: records are queued in memory, flushed as one transaction
  when enough have gathered or a timer fires, and dropped oldest first when the queue is full.
 */
module LogWriter {
  import opened Basics

  datatype Options = Options(flushIntervalMs: int, flushThreshold: int, maxQueue: int)

  predicate Synchronous(o: Options) { o.flushIntervalMs <= 0 }

  /** Where the database fails while a batch is written, if it does. */
  datatype Fault = NoFault | AtBegin | AtRow(i: nat) | AtCommit

  predicate Commits(fault: Fault, size: nat) {
    fault == NoFault || (fault.AtRow? && fault.i >= size)
  }

  // ---------------------------------------------------------------------------
  // What becomes of a record
  // ---------------------------------------------------------------------------

  datatype Fate = Written | Dropped | Lost

  datatype Settled<R> = Settled(row: R, fate: Fate)

  function Mark<R>(rows: seq<R>, fate: Fate): (m: seq<Settled<R>>)
    ensures |m| == |rows|
  {
    if rows == [] then [] else [Settled(rows[0], fate)] + Mark(rows[1..], fate)
  }

  function RowsOf<R>(settled: seq<Settled<R>>): (rows: seq<R>)
    ensures |rows| == |settled|
  {
    if settled == [] then [] else [settled[0].row] + RowsOf(settled[1..])
  }

  function CountOf<R>(settled: seq<Settled<R>>, fate: Fate): nat {
    if settled == [] then 0 else (if settled[0].fate == fate then 1 else 0) + CountOf(settled[1..], fate)
  }

  /** The rows written, in the order in which they were settled. */
  function WrittenRows<R>(settled: seq<Settled<R>>): seq<R> {
    if settled == [] then []
    else (if settled[0].fate == Written then [settled[0].row] else []) + WrittenRows(settled[1..])
  }

  /**
    The variables of the writer; `committed` is what the database has executed and committed.
    `accepted` and `settled` are the history: every record taken, and every one that left the queue.
   */
  datatype State<R> = State(
    queue: seq<R>, armed: bool, stopped: bool,
    queued: int, written: int, dropped: int, writeErrors: int,
    committed: seq<R>, accepted: seq<R>, settled: seq<Settled<R>>)

  function Start<R>(): State<R> {
    State([], false, false, 0, 0, 0, 0, [], [], [])
  }

  // ---------------------------------------------------------------------------
  // The operations
  // ---------------------------------------------------------------------------

  function Flush<R>(s: State<R>, ok: bool): State<R> {
    var c := s.(armed := false);
    if s.queue == [] then c
    else
      var d := c.(queue := [], queued := 0, settled := s.settled + Mark(s.queue, if ok then Written else Lost));
      if ok then d.(written := s.written + |s.queue|, committed := s.committed + s.queue)
      else d.(writeErrors := s.writeErrors + |s.queue|)
  }

  /** `queue.splice(0, overflow)` removes no more than there is; the counter takes `overflow` as it is. */
  function Trim<R>(o: Options, s: State<R>): State<R> {
    if |s.queue| <= o.maxQueue then s
    else
      var overflow := |s.queue| - o.maxQueue;
      var n := if overflow <= |s.queue| then overflow else |s.queue|;
      s.(queue := s.queue[n..], queued := |s.queue| - n, dropped := s.dropped + overflow,
         settled := s.settled + Mark(s.queue[..n], Dropped))
  }

  function Push<R>(s: State<R>, row: R): State<R> {
    s.(queue := s.queue + [row], queued := |s.queue| + 1, accepted := s.accepted + [row])
  }

  function WriteThrough<R>(s: State<R>, row: R, ok: bool): State<R> {
    var d := s.(accepted := s.accepted + [row], settled := s.settled + [Settled(row, if ok then Written else Lost)]);
    if ok then d.(written := s.written + 1, committed := s.committed + [row]) else d.(writeErrors := s.writeErrors + 1)
  }

  function Enqueue<R>(o: Options, s: State<R>, row: R, fault: Fault): State<R> {
    if s.stopped then s
    else if Synchronous(o) then WriteThrough(s, row, Commits(fault, 1))
    else
      var t := Trim(o, Push(s, row));
      if |t.queue| >= o.flushThreshold then Flush(t, Commits(fault, |t.queue|)) else t.(armed := true)
  }

  datatype Step<R> =
    | Record(row: R, fault: Fault)
    | FlushNow(fault: Fault)
    | TimerFires(fault: Fault)
    | Stop(fault: Fault)

  /** A timer that is not armed does not fire. */
  function Next<R>(o: Options, s: State<R>, step: Step<R>): State<R> {
    match step
    case Record(row, fault) => Enqueue(o, s, row, fault)
    case FlushNow(fault) => Flush(s, Commits(fault, |s.queue|))
    case TimerFires(fault) => if s.armed then Flush(s, Commits(fault, |s.queue|)) else s
    case Stop(fault) => if s.stopped then s else Flush(s.(stopped := true), Commits(fault, |s.queue|))
  }

  function Run<R>(o: Options, s: State<R>, steps: seq<Step<R>>): State<R>
    decreases |steps|
  {
    if steps == [] then s else Run(o, Next(o, s, steps[0]), steps[1..])
  }

  class Writer<R(==)> {
    const o: Options
    var queue: seq<R>
    var flushTimer: bool
    var stopped: bool
    var queued: int
    var written: int
    var dropped: int
    var writeErrors: int
    var committed: seq<R>
    ghost var accepted: seq<R>
    ghost var settled: seq<Settled<R>>

    ghost function Now(): State<R>
      reads this
    {
      State(queue, flushTimer, stopped, queued, written, dropped, writeErrors, committed, accepted, settled)
    }

    constructor (o: Options)
      ensures this.o == o && Now() == Start()
    {
      this.o := o;
      queue, flushTimer, stopped, committed, accepted, settled := [], false, false, [], [], [];
      queued, written, dropped, writeErrors := 0, 0, 0, 0;
    }

    /** The rows go in one by one inside a transaction, which takes effect only as a whole. */
    method FlushNow(fault: Fault)
      modifies this
      ensures Now() == Flush(old(Now()), Commits(fault, |old(queue)|))
    {
      hide Mark;
      flushTimer := false;
      if queue == [] {
        return;
      }
      var batch := queue;
      queue := [];
      queued := 0;
      var done := false;
      if fault != AtBegin {
        var staged: seq<R>, i, thrown := [], 0, false;
        while i < |batch| && !thrown
          invariant 0 <= i <= |batch| && staged == batch[..i]
          invariant thrown <==> i < |batch| && fault == AtRow(i) && thrown
          invariant forall j: nat | j < i :: fault != AtRow(j)
          decreases |batch| - i, !thrown
        {
          if fault == AtRow(i) {
            thrown := true;
          } else {
            staged := staged + [batch[i]];
            i := i + 1;
          }
        }
        if !thrown && fault != AtCommit {
          assert staged == batch;
          committed := committed + staged;
          done := true;
          written := written + |batch|;
        }
      }
      if !done {
        writeErrors := writeErrors + |batch|;
      }
      settled := settled + Mark(batch, if done then Written else Lost);
    }

    /** The oldest rows go when the queue is over its bound. */
    method DropOverflow()
      modifies this`queue, this`queued, this`dropped, this`settled
      ensures Now() == Trim(o, old(Now()))
    {
      hide Mark;
      if |queue| > o.maxQueue {
        var overflow := |queue| - o.maxQueue;
        var n := if overflow <= |queue| then overflow else |queue|;
        settled := settled + Mark(queue[..n], Dropped);
        queue := queue[n..];
        dropped := dropped + overflow;
        queued := |queue|;
      }
    }

    method Write(row: R, fault: Fault)
      modifies this`accepted, this`settled, this`committed, this`written, this`writeErrors
      ensures Now() == WriteThrough(old(Now()), row, Commits(fault, 1))
    {
      accepted := accepted + [row];
      settled := settled + [Settled(row, if Commits(fault, 1) then Written else Lost)];
      if Commits(fault, 1) {
        committed := committed + [row];
        written := written + 1;
      } else {
        writeErrors := writeErrors + 1;
      }
    }

    method Record(row: R, fault: Fault)
      modifies this
      ensures Now() == Enqueue(o, old(Now()), row, fault)
    {
      hide Flush, Mark, Trim, WriteThrough, Commits;
      if stopped {
        return;
      }
      if o.flushIntervalMs <= 0 {
        Write(row, fault);
        return;
      }
      accepted := accepted + [row];
      queue := queue + [row];
      queued := |queue|;
      DropOverflow();
      if |queue| >= o.flushThreshold {
        FlushNow(fault);
        return;
      }
      if !flushTimer {
        flushTimer := true;
      }
    }

    method TimerFired(fault: Fault)
      requires flushTimer
      modifies this
      ensures Now() == Next(o, old(Now()), Step.TimerFires(fault))
    {
      flushTimer := false;
      FlushNow(fault);
    }

    method Stop(fault: Fault)
      modifies this
      ensures Now() == Next(o, old(Now()), Step.Stop(fault))
    {
      if stopped {
        return;
      }
      stopped := true;
      FlushNow(fault);
    }
  }

  // ---------------------------------------------------------------------------
  // Facts about the history
  // ---------------------------------------------------------------------------

  lemma {:induction false} SettleRows<R>(a: seq<Settled<R>>, b: seq<Settled<R>>)
    ensures RowsOf(a + b) == RowsOf(a) + RowsOf(b)
  {
    if a == [] {
      assert a + b == b;
    } else {
      assert (a + b)[1..] == a[1..] + b;
      SettleRows(a[1..], b);
    }
  }

  lemma {:induction false} SettleWritten<R>(a: seq<Settled<R>>, b: seq<Settled<R>>)
    ensures WrittenRows(a + b) == WrittenRows(a) + WrittenRows(b)
  {
    if a == [] {
      assert a + b == b;
    } else {
      SettleWritten(a[1..], b);
      var head := if a[0].fate == Written then [a[0].row] else [];
      assert WrittenRows(a + b) == head + WrittenRows(a[1..] + b) by { assert (a + b)[1..] == a[1..] + b; }
      Regroup(head, WrittenRows(a[1..]), WrittenRows(b));
    }
  }

  lemma {:induction false} SettleCount<R>(a: seq<Settled<R>>, b: seq<Settled<R>>, fate: Fate)
    ensures CountOf(a + b, fate) == CountOf(a, fate) + CountOf(b, fate)
  {
    if a == [] {
      assert a + b == b;
    } else {
      assert (a + b)[1..] == a[1..] + b;
      SettleCount(a[1..], b, fate);
    }
  }

  lemma {:induction false} Marked<R>(rows: seq<R>, fate: Fate, other: Fate)
    ensures RowsOf(Mark(rows, fate)) == rows
    ensures CountOf(Mark(rows, fate), other) == if other == fate then |rows| else 0
    ensures WrittenRows(Mark(rows, fate)) == if fate == Written then rows else []
  {
    if rows != [] { Marked(rows[1..], fate, other); }
  }

  /** What settling a stretch of rows does to the history. */
  lemma SettleMarked<R>(settled: seq<Settled<R>>, rows: seq<R>, fate: Fate)
    ensures var s := settled + Mark(rows, fate);
            && RowsOf(s) == RowsOf(settled) + rows
            && WrittenRows(s) == WrittenRows(settled) + (if fate == Written then rows else [])
            && (forall f :: CountOf(s, f) == CountOf(settled, f) + if f == fate then |rows| else 0)
  {
    hide RowsOf, CountOf, WrittenRows, Mark;
    SettleRows(settled, Mark(rows, fate));
    SettleWritten(settled, Mark(rows, fate));
    Marked(rows, fate, fate);
    forall f ensures CountOf(settled + Mark(rows, fate), f) == CountOf(settled, f) + if f == fate then |rows| else 0 {
      SettleCount(settled, Mark(rows, fate), f);
      Marked(rows, fate, f);
    }
  }

  lemma {:induction false} FatesPartition<R>(settled: seq<Settled<R>>)
    ensures CountOf(settled, Written) + CountOf(settled, Dropped) + CountOf(settled, Lost) == |settled|
  {
    if settled != [] { FatesPartition(settled[1..]); }
  }

  // ---------------------------------------------------------------------------
  // What every run keeps
  // ---------------------------------------------------------------------------

  /** The counter of dropped rows counts rows: the bound on the queue is one. */
  predicate Counting(o: Options) { Synchronous(o) || o.maxQueue >= 0 }

  /**
    Records leave in the order they came: those settled, then those queued, are those accepted.
    What is committed is the part of them settled as written.
   */
  ghost predicate Traced<R>(o: Options, s: State<R>) {
    && RowsOf(s.settled) + s.queue == s.accepted
    && s.committed == WrittenRows(s.settled)
    && s.queued == |s.queue|
    && forall fate | fate != Dropped || Counting(o) :: Counter(s, fate) == CountOf(s.settled, fate)
  }

  /** The counter of `stats` that a fate goes by. */
  function Counter<R>(s: State<R>, fate: Fate): int {
    match fate
    case Written => s.written
    case Dropped => s.dropped
    case Lost => s.writeErrors
  }

  ghost predicate Armed<R>(o: Options, s: State<R>) {
    && (s.queue != [] ==> s.armed)
    && (s.stopped ==> s.queue == [] && !s.armed)
    && (s.queue == [] || (!Synchronous(o) && |s.queue| < o.flushThreshold && |s.queue| <= o.maxQueue))
  }

  lemma FlushTraced<R>(o: Options, s: State<R>, ok: bool)
    requires Traced(o, s)
    ensures Traced(o, Flush(s, ok))
  {
    SettleMarked(s.settled, s.queue, if ok then Written else Lost);
  }

  lemma TrimTraced<R>(o: Options, s: State<R>)
    requires Traced(o, s) && !Synchronous(o)
    ensures Traced(o, Trim(o, s))
  {
    hide RowsOf, CountOf, WrittenRows, Mark;
    var overflow := |s.queue| - o.maxQueue;
    if overflow > 0 {
      var n := if overflow <= |s.queue| then overflow else |s.queue|;
      SettleMarked(s.settled, s.queue[..n], Dropped);
      assert WrittenRows(s.settled) + [] == WrittenRows(s.settled);
      assert s.queue == s.queue[..n] + s.queue[n..];
      Regroup(RowsOf(s.settled), s.queue[..n], s.queue[n..]);
    }
  }

  lemma WriteThroughTraced<R>(o: Options, s: State<R>, row: R, ok: bool)
    requires Traced(o, s) && s.queue == []
    ensures Traced(o, WriteThrough(s, row, ok))
  {
    hide RowsOf, CountOf, WrittenRows, Mark;
    var fate := if ok then Written else Lost;
    SettleMarked(s.settled, [row], fate);
    MarkOne(row, fate);
    assert RowsOf(s.settled) + [] == RowsOf(s.settled) && WrittenRows(s.settled) + [] == WrittenRows(s.settled);
  }

  lemma EnqueueTraced<R>(o: Options, s: State<R>, row: R, fault: Fault)
    requires Traced(o, s) && Armed(o, s)
    ensures Traced(o, Enqueue(o, s, row, fault))
  {
    hide RowsOf, CountOf, WrittenRows, Mark, Flush, Trim, WriteThrough;
    if !s.stopped && Synchronous(o) {
      WriteThroughTraced(o, s, row, Commits(fault, 1));
    } else if !s.stopped {
      assert RowsOf(s.settled) + (s.queue + [row]) == s.accepted + [row];
      TrimTraced(o, Push(s, row));
      var t := Trim(o, Push(s, row));
      FlushTraced(o, t, Commits(fault, |t.queue|));
    }
  }

  lemma MarkOne<R>(row: R, fate: Fate)
    ensures Mark([row], fate) == [Settled(row, fate)]
  {
  }

  lemma StepKeeps<R>(o: Options, s: State<R>, step: Step<R>)
    requires Traced(o, s) && Armed(o, s)
    ensures Traced(o, Next(o, s, step)) && Armed(o, Next(o, s, step))
  {
    hide RowsOf, CountOf, WrittenRows, Mark;
    match step
    case Record(row, fault) => EnqueueTraced(o, s, row, fault);
    case FlushNow(fault) => FlushTraced(o, s, Commits(fault, |s.queue|));
    case TimerFires(fault) => FlushTraced(o, s, Commits(fault, |s.queue|));
    case Stop(fault) => FlushTraced(o, s.(stopped := true), Commits(fault, |s.queue|));
  }

  /** In every run: records in order, what is committed in order, a queue that will be flushed. */
  lemma {:induction false} RunKeeps<R>(o: Options, s: State<R>, steps: seq<Step<R>>)
    requires Traced(o, s) && Armed(o, s)
    ensures Traced(o, Run(o, s, steps)) && Armed(o, Run(o, s, steps))
    decreases |steps|
  {
    hide Next, Traced, Armed;
    if steps != [] {
      StepKeeps(o, s, steps[0]);
      RunKeeps(o, Next(o, s, steps[0]), steps[1..]);
    }
  }

  /**
    After any run from the start: the records settled and those queued are, in order, those accepted;
    the rows committed are those of them settled as written; and waiting records have a timer armed.
   */
  lemma RunsKeepOrder<R>(o: Options, steps: seq<Step<R>>)
    ensures var s := Run(o, Start<R>(), steps);
            && s.accepted == RowsOf(s.settled) + s.queue
            && s.committed == WrittenRows(s.settled)
            && (s.queue != [] ==> s.armed)
            && (s.stopped ==> s.queue == [])
  {
    RunKeeps(o, Start<R>(), steps);
  }

  /** A batch takes effect whole: a step commits nothing, or all that was waiting and not dropped. */
  lemma StepCommitsWhole<R>(o: Options, s: State<R>, step: Step<R>)
    requires Armed(o, s)
    ensures var t := Next(o, s, step);
            var waiting := s.queue + if step.Record? && !s.stopped then [step.row] else [];
            || t.committed == s.committed
            || (t.queue == [] && exists n | 0 <= n <= |waiting| ::
                  t.committed == s.committed + waiting[n..] && (n > 0 ==> t.dropped > s.dropped))
  {
    hide Mark;
    var t := Next(o, s, step);
    var waiting := s.queue + if step.Record? && !s.stopped then [step.row] else [];
    if t.committed != s.committed {
      if step.Record? && !Synchronous(o) {
        var n := |waiting| - |Trim(o, Push(s, step.row)).queue|;
        assert t.committed == s.committed + waiting[n..];
      } else {
        assert waiting[0..] == waiting;
        assert t.committed == s.committed + waiting[0..];
      }
    }
  }

  // ---------------------------------------------------------------------------
  // Conservation
  // ---------------------------------------------------------------------------

  ghost predicate Conserved<R>(s: State<R>) {
    |s.accepted| == s.queued + s.written + s.dropped + s.writeErrors
  }

  lemma CountingConserves<R>(o: Options, steps: seq<Step<R>>)
    requires Counting(o)
    ensures Conserved(Run(o, Start<R>(), steps))
  {
    var s := Run(o, Start<R>(), steps);
    RunKeeps(o, Start<R>(), steps);
    FatesPartition(s.settled);
  }

  /**
    Every record accepted is queued, written, dropped or lost to an error, at every point of every
    run, exactly when the writer is synchronous or the bound on its queue is not negative.
   */
  lemma ConservedIff<R(!new)>(o: Options, row: R)
    ensures (forall steps: seq<Step<R>> :: Conserved(Run(o, Start<R>(), steps))) <==> Synchronous(o) || o.maxQueue >= 0
  {
    if Counting(o) {
      forall steps: seq<Step<R>> ensures Conserved(Run(o, Start<R>(), steps)) {
        CountingConserves(o, steps);
      }
    } else {
      assert !Conserved(Run(o, Start<R>(), [Record(row, NoFault)]));
    }
  }

  // ---------------------------------------------------------------------------
  // Nothing is dropped
  // ---------------------------------------------------------------------------

  /** The queue is flushed before it can overflow. */
  predicate Roomy(o: Options) { Synchronous(o) || (1 <= o.maxQueue && o.flushThreshold <= o.maxQueue) }

  lemma {:induction false} RoomyDropsNothing<R>(o: Options, s: State<R>, steps: seq<Step<R>>)
    requires Roomy(o) && Armed(o, s)
    ensures Run(o, s, steps).dropped == s.dropped
    decreases |steps|
  {
    if steps != [] {
      var t := Next(o, s, steps[0]);
      RoomyDropsNothing(o, t, steps[1..]);
    }
  }

  function Records<R>(row: R, n: nat): seq<Step<R>> {
    if n == 0 then [] else [Record(row, NoFault)] + Records(row, n - 1)
  }

  /** Records fill the queue up to its bound when the threshold is above it; one more drops one. */
  lemma {:induction false} Overflows<R>(o: Options, s: State<R>, row: R, n: nat)
    requires !Synchronous(o) && !s.stopped && 0 <= o.maxQueue < o.flushThreshold && |s.queue| + n == o.maxQueue + 1
    requires n >= 1
    ensures Run(o, s, Records(row, n)).dropped == s.dropped + 1
    decreases n
  {
    var t := Enqueue(o, s, row, NoFault);
    assert Records(row, n)[0] == Record(row, NoFault) && Records(row, n)[1..] == Records(row, n - 1);
    if n > 1 {
      assert t.dropped == s.dropped;
      Overflows(o, t, row, n - 1);
    } else {
      assert Run(o, t, []) == t;
    }
  }

  /**
    No run drops anything exactly when the writer is synchronous, or its queue holds at least one row
    and no fewer than the threshold at which it is flushed.
   */
  lemma NothingDroppedIff<R(!new)>(o: Options, row: R)
    ensures (forall steps: seq<Step<R>> :: Run(o, Start<R>(), steps).dropped == 0)
       <==> Synchronous(o) || (1 <= o.maxQueue && o.flushThreshold <= o.maxQueue)
  {
    if Roomy(o) {
      forall steps: seq<Step<R>> ensures Run(o, Start<R>(), steps).dropped == 0 {
        RoomyDropsNothing(o, Start<R>(), steps);
      }
    } else if o.maxQueue >= 1 {
      Overflows(o, Start<R>(), row, o.maxQueue + 1);
      assert Run(o, Start<R>(), Records(row, o.maxQueue + 1)).dropped != 0;
    } else {
      FirstDropped(o, row);
      assert Run(o, Start<R>(), [Record(row, NoFault)]).dropped != 0;
    }
  }

  lemma FirstDropped<R>(o: Options, row: R)
    requires !Synchronous(o) && o.maxQueue <= 0
    ensures Run(o, Start<R>(), [Record(row, NoFault)]).dropped != 0
  {
    var steps := [Record(row, NoFault)];
    var s := Next(o, Start<R>(), steps[0]);
    assert Run(o, Start<R>(), steps) == Run(o, s, []) == s;
  }

  // ---------------------------------------------------------------------------
  // What is committed
  // ---------------------------------------------------------------------------

  /** The fault, if any, comes too late to hit one of so many rows. */
  ghost predicate Harmless(fault: Fault, size: nat) {
    match fault
    case NoFault => true
    case AtRow(i) => i >= size
    case AtBegin => false
    case AtCommit => false
  }

  /** A flush commits the whole queue if and only if nothing fails before its end, and otherwise loses it whole. */
  lemma FlushCommitsIff<R>(o: Options, s: State<R>, fault: Fault)
    requires s.queue != []
    ensures var t := Next(o, s, Step.FlushNow(fault));
            && t.queue == [] && t.queued == 0 && t.dropped == s.dropped && t.accepted == s.accepted
            && (Harmless(fault, |s.queue|) ==>
                  t.committed == s.committed + s.queue && t.written == s.written + |s.queue| && t.writeErrors == s.writeErrors)
            && (!Harmless(fault, |s.queue|) ==>
                  t.committed == s.committed && t.written == s.written && t.writeErrors == s.writeErrors + |s.queue|)
    ensures Next(o, s, Step.FlushNow(fault)).committed == s.committed + s.queue <==> Harmless(fault, |s.queue|)
  {
    hide Mark;
    assert |s.committed + s.queue| > |s.committed|;
  }

  /**
    A record joins the newest that fit; when these reach the threshold they are flushed, and otherwise
    they wait with the timer armed.
   */
  lemma RecordKeepsNewest<R>(o: Options, s: State<R>, row: R, fault: Fault)
    requires !s.stopped && o.flushIntervalMs > 0
    ensures var kept := LastN(s.queue + [row], o.maxQueue);
            var t := Next(o, s, Record(row, fault));
            && t.accepted == s.accepted + [row]
            && (|kept| < o.flushThreshold ==> t.queue == kept && t.armed && t.committed == s.committed)
            && (|kept| >= o.flushThreshold ==> t.queue == [])
            && (|kept| >= o.flushThreshold && kept != [] ==>
                  t.committed == if Harmless(fault, |kept|) then s.committed + kept else s.committed)
  {
    hide Mark;
    var kept, t := LastN(s.queue + [row], o.maxQueue), Trim(o, Push(s, row));
    assert t.queue == kept;
  }

  /** The timer and the end of the writer flush as a caller does. */
  lemma TimerAndStopFlush<R>(o: Options, s: State<R>, fault: Fault)
    ensures s.armed ==> Next(o, s, Step.TimerFires(fault)) == Next(o, s, Step.FlushNow(fault))
    ensures !s.stopped ==> Next(o, s, Step.Stop(fault)) == Next(o, s.(stopped := true), Step.FlushNow(fault))
  {
  }

  ghost predicate NoneLost<R>(s: State<R>) {
    && s.writeErrors == 0 && s.written == |s.committed|
    && forall i | 0 <= i < |s.settled| :: s.settled[i].fate != Lost
  }

  lemma {:induction false} MarkedFates<R>(rows: seq<R>, fate: Fate)
    ensures forall i | 0 <= i < |rows| :: Mark(rows, fate)[i].fate == fate
  {
    if rows != [] { MarkedFates(rows[1..], fate); }
  }

  lemma NoFaultNoneLost<R>(o: Options, s: State<R>, step: Step<R>)
    requires NoneLost(s) && step.fault == NoFault
    ensures NoneLost(Next(o, s, step))
  {
    hide Mark;
    MarkedFates(s.queue, Written);
    if step.Record? {
      var p := Push(s, step.row);
      var n := if |p.queue| - o.maxQueue <= |p.queue| then |p.queue| - o.maxQueue else |p.queue|;
      if |p.queue| > o.maxQueue { MarkedFates(p.queue[..n], Dropped); }
      MarkedFates(Trim(o, p).queue, Written);
    }
  }

  lemma {:induction false} HealthyRun<R>(o: Options, s: State<R>, steps: seq<Step<R>>)
    requires NoneLost(s) && forall i | 0 <= i < |steps| :: steps[i].fault == NoFault
    ensures NoneLost(Run(o, s, steps))
    decreases |steps|
  {
    hide Next, NoneLost;
    if steps != [] {
      NoFaultNoneLost(o, s, steps[0]);
      HealthyRun(o, Next(o, s, steps[0]), steps[1..]);
    }
  }

  lemma {:induction false} AllWritten<R>(settled: seq<Settled<R>>)
    requires CountOf(settled, Dropped) == 0 && forall i | 0 <= i < |settled| :: settled[i].fate != Lost
    ensures WrittenRows(settled) == RowsOf(settled)
  {
    if settled != [] { AllWritten(settled[1..]); }
  }

  /**
    While the database does not fail no record is lost: what was accepted is, in order, committed,
    dropped or still queued; and where nothing can be dropped it is what is committed, then what is
    queued.
   */
  lemma HealthyRunsCommit<R>(o: Options, steps: seq<Step<R>>)
    requires forall i | 0 <= i < |steps| :: steps[i].fault == NoFault
    ensures var s := Run(o, Start<R>(), steps);
            && s.writeErrors == 0 && s.written == |s.committed|
            && (forall i | 0 <= i < |s.settled| :: s.settled[i].fate == Written || s.settled[i].fate == Dropped)
            && s.accepted == RowsOf(s.settled) + s.queue && s.committed == WrittenRows(s.settled)
            && (o.flushIntervalMs <= 0 || (1 <= o.maxQueue && o.flushThreshold <= o.maxQueue) ==>
                  s.accepted == s.committed + s.queue)
  {
    var s := Run(o, Start<R>(), steps);
    HealthyRun(o, Start<R>(), steps);
    RunsKeepOrder(o, steps);
    forall i | 0 <= i < |s.settled| ensures s.settled[i].fate == Written || s.settled[i].fate == Dropped {
      assert s.settled[i].fate != Lost;
    }
    if Roomy(o) {
      RoomyDropsNothing(o, Start<R>(), steps);
      RunKeeps(o, Start<R>(), steps);
      assert Counter(s, Dropped) == CountOf(s.settled, Dropped);
      AllWritten(s.settled);
    }
  }

  /** The rows recorded before the writer was stopped. */
  function RecordedRows<R>(steps: seq<Step<R>>): seq<R> {
    if steps == [] || steps[0].Stop? then []
    else (if steps[0].Record? then [steps[0].row] else []) + RecordedRows(steps[1..])
  }

  /** Exactly what is recorded before the writer is stopped is accepted. */
  lemma {:induction false} AcceptedAreRecorded<R>(o: Options, s: State<R>, steps: seq<Step<R>>)
    ensures Run(o, s, steps).accepted == s.accepted + if s.stopped then [] else RecordedRows(steps)
    decreases |steps|
  {
    if steps == [] {
      assert s.accepted + [] == s.accepted;
    } else {
      var t := Next(o, s, steps[0]);
      AcceptedStep(o, s, steps[0]);
      hide Next;
      AcceptedAreRecorded(o, t, steps[1..]);
      var rest := if t.stopped then [] else RecordedRows(steps[1..]);
      Regroup(s.accepted, if steps[0].Record? && !s.stopped then [steps[0].row] else [], rest);
    }
  }

  lemma RunsAcceptRecorded<R>(o: Options, steps: seq<Step<R>>)
    ensures Run(o, Start<R>(), steps).accepted == RecordedRows(steps)
  {
    AcceptedAreRecorded(o, Start<R>(), steps);
    assert [] + RecordedRows(steps) == RecordedRows(steps);
  }

  lemma AcceptedStep<R>(o: Options, s: State<R>, step: Step<R>)
    ensures var t := Next(o, s, step);
            && t.accepted == s.accepted + (if step.Record? && !s.stopped then [step.row] else [])
            && (t.stopped <==> s.stopped || step.Stop?)
  {
    hide Mark;
    assert s.accepted + [] == s.accepted;
  }
}
