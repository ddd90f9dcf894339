/**
 The gRPC service: any number of requests in flight, each taking the one
 mutex around the log, doing its append or read, releasing it and answering.
 */
module Server {
  import opened Bytes
  import opened Results
  import opened SegmentModel
  import opened LogModel
  import opened Refinement

  datatype Op = Produce(record: Record) | Consume(offset: nat)

  datatype Response = ProduceDone(given: Result<nat>) | ConsumeDone(found: Result<Record>)

  /**
   How far a request has come.  A produce that holds the mutex first rotates
   a full segment away (Prepared), then writes the store (Stored), then the
   index; other requests take steps in between.
   */
  datatype Phase = Waiting | Locked | Prepared | Stored | Executed | Released | Answered

  /**
   A request, with the times of its invocation and answer, and, once it has
   executed, its response and its place in the order of execution.
   */
  datatype Request = Request(
    op: Op, phase: Phase, invokedAt: nat, answeredAt: nat, response: Response, slot: nat)
  {
    predicate HoldsMutex() { phase.Locked? || phase.Prepared? || phase.Stored? || phase.Executed? }

    predicate HasExecuted() { phase.Executed? || phase.Released? || phase.Answered? }
  }

  /** One executed request in the history. */
  datatype Entry = Entry(id: nat, op: Op, response: Response)

  /**
   The log behind its mutex, the requests, and two history variables: the
   executions so far and the log without a half-finished append.
   */
  datatype State = State(
    log: LogState, holder: Option<nat>, requests: map<nat, Request>, clock: nat,
    history: seq<Entry>, settled: LogState)

  datatype Step =
    | Invoke(id: nat, op: Op)
    | Lock(id: nat)
    | Prepare(id: nat)
    | WriteStore(id: nat)
    | WriteIndex(id: nat)
    | Refuse(id: nat)
    | ReadRecord(id: nat)
    | Release(id: nat)
    | Answer(id: nat)

  /** The request in a new phase. */
  function Moved(s: State, id: nat, phase: Phase): map<nat, Request>
    requires id in s.requests
  {
    s.requests[id := s.requests[id].(phase := phase)]
  }

  /** The state after request `id` executed with this response and left the log as `l`. */
  function Done(s: State, id: nat, l: LogState, response: Response): State
    requires id in s.requests
  {
    var q := s.requests[id];
    s.(log := l, settled := l,
       requests := s.requests[id := q.(phase := Executed, response := response, slot := |s.history|)],
       history := s.history + [Entry(id, q.op, response)])
  }

  predicate InPhase(s: State, id: nat, phase: Phase) {
    id in s.requests && s.requests[id].phase == phase
  }

  predicate Producing(s: State, id: nat, phase: Phase) {
    InPhase(s, id, phase) && s.requests[id].op.Produce? && s.log.active < |s.log.segs|
  }

  predicate Next(cfg: Config, s: State, step: Step, t: State) {
    match step
    case Invoke(id, op) =>
      && id !in s.requests
      && t == s.(requests := s.requests[id := Request(op, Waiting, s.clock, 0, NoResponse(), 0)], clock := s.clock + 1)
    case Lock(id) =>
      && InPhase(s, id, Waiting) && s.holder == None
      && t == s.(requests := Moved(s, id, Locked), holder := Some(id))
    case Prepare(id) =>
      && Producing(s, id, Locked) && CanAppendLog(cfg, s.log, s.requests[id].op.record)
      && t == s.(log := BeforeAppend(cfg, s.log), settled := BeforeAppend(cfg, s.log),
                 requests := Moved(s, id, Prepared))
    case WriteStore(id) =>
      && Producing(s, id, Prepared) && !Full(cfg, s.log.segs[s.log.active])
      && t == s.(log := HalfAppended(s.log, s.requests[id].op.record), requests := Moved(s, id, Stored))
    case WriteIndex(id) =>
      && Producing(s, id, Stored)
      && var r, last := s.requests[id].op.record, s.log.segs[s.log.active];
      && 8 + |r| <= |last.data| <= STORE_LIMIT && last.next < MAX_OFFSET
      && t == Done(s, id,
                s.log.(segs := s.log.segs[s.log.active := IndexSeg(last, r)], next := last.next + 1),
                ProduceDone(Ok(last.next)))
    case Refuse(id) =>
      && Producing(s, id, Prepared) && Full(cfg, s.log.segs[s.log.active])
      && var last := s.log.segs[s.log.active];
      && t == Done(s, id, s.log, ProduceDone(Err(SegmentFull(last.base, cfg.maxStoreBytes, |last.data|))))
    case ReadRecord(id) =>
      && InPhase(s, id, Locked) && s.requests[id].op.Consume?
      && t == Done(s, id, s.log, ConsumeDone(ReadLog(s.log, s.requests[id].op.offset)))
    case Release(id) =>
      && InPhase(s, id, Executed)
      && t == s.(requests := Moved(s, id, Released), holder := None)
    case Answer(id) =>
      && InPhase(s, id, Released)
      && t == s.(requests := s.requests[id := s.requests[id].(phase := Answered, answeredAt := s.clock)],
                 clock := s.clock + 1)
  }

  /** The log between the store write and the index write of an append. */
  function HalfAppended(l: LogState, r: Record): LogState
    requires l.active < |l.segs|
  {
    l.(segs := l.segs[l.active := OrphanSeg(l.segs[l.active], r)])
  }

  function NoResponse(): Response { ProduceDone(Ok(0)) }

  ghost predicate Init(s: State, a: AbsLog) {
    && Represents(s.log, a) && s.settled == s.log && s.holder == None
    && s.requests == map[] && s.history == [] && s.clock == 0
  }

  predicate StepAt(cfg: Config, steps: seq<Step>, states: seq<State>, i: int) {
    0 <= i < |steps| && |states| == |steps| + 1 && Next(cfg, states[i], steps[i], states[i + 1])
  }

  /** Any interleaving of requests, starting with a log that represents `a`. */
  ghost predicate IsRun(cfg: Config, a: AbsLog, steps: seq<Step>, states: seq<State>) {
    && |states| == |steps| + 1 && Init(states[0], a)
    && forall i :: 0 <= i < |steps| ==> StepAt(cfg, steps, states, i)
  }

  // ----- The sequential specification -----

  function Apply(a: AbsLog, op: Op): (AbsLog, Response) {
    var end := a.base + |a.records|;
    match op
    case Produce(r) => (AbsLog(a.base, a.records + [r]), ProduceDone(Ok(end)))
    case Consume(o) =>
      (a, ConsumeDone(if a.base <= o < end then Ok(a.records[o - a.base]) else Err(OffsetNotFound(o, a.base, end))))
  }

  function After(a: AbsLog, h: seq<Entry>): AbsLog {
    if h == [] then a else Apply(After(a, h[..|h| - 1]), h[|h| - 1].op).0
  }

  /** Every response is the one the abstract log gives when the requests are executed one by one in this order. */
  predicate Legal(a: AbsLog, h: seq<Entry>) {
    h == [] ||
    (&& Legal(a, h[..|h| - 1])
     && h[|h| - 1].response == Apply(After(a, h[..|h| - 1]), h[|h| - 1].op).1)
  }

  // ----- The invariant -----

  /** The mutex is held by exactly the request between its lock and its release. */
  predicate MutexOk(s: State) {
    && (s.holder.Some? ==> s.holder.value in s.requests)
    && forall id :: id in s.requests ==> (s.holder == Some(id) <==> s.requests[id].HoldsMutex())
  }

  /** A half-finished append has room in a segment that is not full, and only it keeps the log from being settled. */
  predicate LogOk(cfg: Config, s: State) {
    && s.settled.active < |s.settled.segs|
    && (forall id :: id in s.requests && (s.requests[id].phase.Prepared? || s.requests[id].phase.Stored?) ==>
          && s.requests[id].op.Produce?
          && Room(s.settled.segs[s.settled.active], s.requests[id].op.record)
          && !Full(cfg, s.settled.segs[s.settled.active]))
    && (forall id :: id in s.requests && s.requests[id].phase.Stored? ==>
          s.requests[id].op.Produce? && s.log == HalfAppended(s.settled, s.requests[id].op.record))
    && ((forall id :: id in s.requests ==> !s.requests[id].phase.Stored?) ==> s.log == s.settled)
  }

  /** The history holds exactly the executed requests, each at its own slot. */
  predicate HistoryOk(s: State) {
    && (forall id :: id in s.requests && s.requests[id].HasExecuted() ==>
          && s.requests[id].slot < |s.history|
          && s.history[s.requests[id].slot] == Entry(id, s.requests[id].op, s.requests[id].response))
    && (forall k :: 0 <= k < |s.history| ==>
          && s.history[k].id in s.requests
          && s.requests[s.history[k].id].HasExecuted()
          && s.requests[s.history[k].id].slot == k)
  }

  /** A request answered before another was invoked comes first in the history. */
  predicate RealTimeOk(s: State) {
    && (forall id :: id in s.requests ==> s.requests[id].invokedAt < s.clock)
    && (forall i, j | i in s.requests && j in s.requests ::
          (s.requests[i].phase.Answered? && s.requests[i].answeredAt < s.requests[j].invokedAt
           && s.requests[j].HasExecuted())
          ==> s.requests[i].slot < s.requests[j].slot)
  }

  ghost predicate Linearizable(a: AbsLog, s: State) {
    Represents(s.settled, After(a, s.history)) && Legal(a, s.history) && HistoryOk(s) && RealTimeOk(s)
  }

  lemma StepKeepsMutex(cfg: Config, s: State, step: Step, t: State)
    requires MutexOk(s) && Next(cfg, s, step, t)
    ensures MutexOk(t)
  {
  }

  /** Executing a request puts it at the next slot of the history, behind every request answered so far. */
  lemma DoneKeepsHistory(s: State, id: nat, l: LogState, response: Response, t: State)
    requires HistoryOk(s) && id in s.requests && !s.requests[id].HasExecuted()
    requires t == Done(s, id, l, response)
    ensures HistoryOk(t)
  {
  }

  lemma DoneKeepsRealTime(s: State, id: nat, l: LogState, response: Response, t: State)
    requires HistoryOk(s) && RealTimeOk(s) && id in s.requests && !s.requests[id].HasExecuted()
    requires t == Done(s, id, l, response)
    ensures RealTimeOk(t)
  {
  }

  lemma OneRequestChanges(cfg: Config, s: State, step: Step, t: State)
    requires Next(cfg, s, step, t)
    ensures forall id :: id in t.requests && id != step.id ==> id in s.requests && t.requests[id] == s.requests[id]
    ensures forall id :: id in s.requests ==> id in t.requests
  {
  }

  predicate Executes(step: Step) {
    step.WriteIndex? || step.Refuse? || step.ReadRecord?
  }

  lemma StepKeepsHistory(cfg: Config, s: State, step: Step, t: State)
    requires HistoryOk(s) && Next(cfg, s, step, t)
    ensures HistoryOk(t)
  {
    if Executes(step) {
      DoneKeepsHistory(s, step.id, t.log, t.requests[step.id].response, t);
    } else {
      OneRequestChanges(cfg, s, step, t);
      assert t.history == s.history;
    }
  }

  /** Nothing executes; requests may arrive and answers may leave, at the current time or later. */
  predicate Quiet(s: State, t: State) {
    && s.clock <= t.clock
    && forall id :: id in t.requests ==>
         var q := t.requests[id];
         && q.invokedAt < t.clock
         && (id !in s.requests ==> !q.HasExecuted())
         && (id in s.requests ==>
               && q.invokedAt == s.requests[id].invokedAt && q.slot == s.requests[id].slot
               && q.HasExecuted() == s.requests[id].HasExecuted()
               && (q.phase.Answered? ==>
                     q.answeredAt >= s.clock
                      || (s.requests[id].phase.Answered? && q.answeredAt == s.requests[id].answeredAt)))
  }

  lemma QuietKeepsRealTime(s: State, t: State)
    requires RealTimeOk(s) && Quiet(s, t)
    ensures RealTimeOk(t)
  {
  }

  lemma StepKeepsRealTime(cfg: Config, s: State, step: Step, t: State)
    requires HistoryOk(s) && RealTimeOk(s) && Next(cfg, s, step, t)
    ensures RealTimeOk(t)
  {
    if Executes(step) {
      DoneKeepsRealTime(s, step.id, t.log, t.requests[step.id].response, t);
    } else {
      StepIsQuiet(cfg, s, step, t);
      QuietKeepsRealTime(s, t);
    }
  }

  lemma StepIsQuiet(cfg: Config, s: State, step: Step, t: State)
    requires RealTimeOk(s) && Next(cfg, s, step, t) && !Executes(step)
    ensures Quiet(s, t)
  {
    OneRequestChanges(cfg, s, step, t);
  }

  /** With the mutex held by `id` in a phase before Stored, nobody has left the log half-appended. */
  lemma HolderSeesSettled(cfg: Config, s: State, id: nat)
    requires MutexOk(s) && LogOk(cfg, s) && id in s.requests
    requires s.requests[id].HoldsMutex() && !s.requests[id].phase.Stored?
    ensures s.log == s.settled
  {
    assert s.holder == Some(id);
  }

  /** The index write completes exactly the append of the sequential log. */
  lemma IndexCompletes(cfg: Config, l: LogState, r: Record)
    requires l.active < |l.segs| && Room(l.segs[l.active], r) && !Full(cfg, l.segs[l.active])
    ensures var h := HalfAppended(l, r); var last := h.segs[h.active];
            && 8 + |r| <= |last.data| <= STORE_LIMIT && last.next < MAX_OFFSET
            && AppendActive(cfg, l, r) ==
               (h.(segs := h.segs[h.active := IndexSeg(last, r)], next := last.next + 1), Ok(last.next))
  {
    var s := l.segs[l.active];
    StoreThenIndex(s, r);
    assert l.segs[l.active := OrphanSeg(s, r)][l.active := AppendSeg(s, r)] == l.segs[l.active := AppendSeg(s, r)];
  }

  lemma PrepareKeepsLog(cfg: Config, a: AbsLog, s: State, id: nat, t: State)
    requires cfg.Sane() && MutexOk(s) && LogOk(cfg, s) && Represents(s.settled, a)
    requires Next(cfg, s, Prepare(id), t)
    ensures LogOk(cfg, t)
  {
    HolderSeesSettled(cfg, s, id);
    PreparedNotFull(cfg, s.log, a, s.requests[id].op.record);
    OnlyHolder(s, t, id);
  }

  lemma ActKeepsLog(cfg: Config, s: State, step: Step, t: State)
    requires MutexOk(s) && LogOk(cfg, s) && Next(cfg, s, step, t)
    requires step.WriteStore? || step.WriteIndex? || step.ReadRecord?
    ensures LogOk(cfg, t)
  {
    if !step.WriteIndex? { HolderSeesSettled(cfg, s, step.id); }
    OnlyHolder(s, t, step.id);
    assert step.WriteStore? ==> step.id in t.requests && t.requests[step.id].phase.Stored?;
  }

  /** Invoking, locking, releasing and answering leave the log and every append in progress alone. */
  lemma QuietKeepsLog(cfg: Config, s: State, step: Step, t: State)
    requires LogOk(cfg, s) && Next(cfg, s, step, t)
    requires step.Invoke? || step.Lock? || step.Release? || step.Answer?
    ensures LogOk(cfg, t)
  {
    assert t.log == s.log && t.settled == s.settled;
    forall id | id in t.requests && (t.requests[id].phase.Prepared? || t.requests[id].phase.Stored?)
      ensures id in s.requests && t.requests[id] == s.requests[id]
    {
    }
    if forall id :: id in t.requests ==> !t.requests[id].phase.Stored? {
      forall id | id in s.requests ensures !s.requests[id].phase.Stored? {
        assert id in t.requests;
      }
    }
  }

  lemma StepKeepsLog(cfg: Config, a: AbsLog, s: State, step: Step, t: State)
    requires cfg.Sane() && MutexOk(s) && LogOk(cfg, s) && Represents(s.settled, a)
    requires Next(cfg, s, step, t)
    ensures LogOk(cfg, t) && !step.Refuse?
  {
    match step
    case Prepare(id) => PrepareKeepsLog(cfg, a, s, id, t);
    case WriteStore(_) => ActKeepsLog(cfg, s, step, t);
    case WriteIndex(_) => ActKeepsLog(cfg, s, step, t);
    case ReadRecord(_) => ActKeepsLog(cfg, s, step, t);
    case Refuse(id) => HolderSeesSettled(cfg, s, id);
    case _ => QuietKeepsLog(cfg, s, step, t);
  }

  /** While `id` acts on the log no other request is in the middle of an append. */
  lemma OnlyHolder(s: State, t: State, id: nat)
    requires MutexOk(s) && id in s.requests && s.requests[id].HoldsMutex()
    requires forall j :: j in t.requests && j != id ==> j in s.requests && t.requests[j] == s.requests[j]
    ensures forall j :: j in t.requests && j != id ==> !t.requests[j].phase.Prepared? && !t.requests[j].phase.Stored?
  {
    assert s.holder == Some(id);
  }

  lemma PreparedNotFull(cfg: Config, l: LogState, a: AbsLog, r: Record)
    requires cfg.Sane() && Represents(l, a) && CanAppendLog(cfg, l, r)
    ensures !Full(cfg, BeforeAppend(cfg, l).segs[BeforeAppend(cfg, l).active])
    ensures Represents(BeforeAppend(cfg, l), a)
  {
    var parts :| Clean(l, parts) && a == AbsLog(BaseOf(l), Flat(parts));
    var now := PrepareRefines(cfg, l, parts, r);
    assert Clean(BeforeAppend(cfg, l), now);
  }

  lemma StepKeepsLegal(cfg: Config, a: AbsLog, s: State, step: Step, t: State)
    requires cfg.Sane() && MutexOk(s) && LogOk(cfg, s) && Next(cfg, s, step, t) && !step.Refuse?
    requires Represents(s.settled, After(a, s.history)) && Legal(a, s.history)
    ensures Represents(t.settled, After(a, t.history)) && Legal(a, t.history)
  {
    match step
    case Prepare(id) => PrepareLegal(cfg, a, s, id, t);
    case WriteIndex(id) => WriteIndexLegal(cfg, a, s, id, t);
    case ReadRecord(id) => ReadLegal(cfg, a, s, id, t);
    case _ => assert t.settled == s.settled && t.history == s.history;
  }

  lemma PrepareLegal(cfg: Config, a: AbsLog, s: State, id: nat, t: State)
    requires cfg.Sane() && MutexOk(s) && LogOk(cfg, s) && Next(cfg, s, Prepare(id), t)
    requires Represents(s.settled, After(a, s.history))
    ensures Represents(t.settled, After(a, t.history)) && t.history == s.history
  {
    HolderSeesSettled(cfg, s, id);
    PreparedNotFull(cfg, s.log, After(a, s.history), s.requests[id].op.record);
  }

  lemma ReadLegal(cfg: Config, a: AbsLog, s: State, id: nat, t: State)
    requires MutexOk(s) && LogOk(cfg, s) && Next(cfg, s, ReadRecord(id), t)
    requires Represents(s.settled, After(a, s.history)) && Legal(a, s.history)
    ensures Represents(t.settled, After(a, t.history)) && Legal(a, t.history)
  {
    HolderSeesSettled(cfg, s, id);
    ReadRepresented(s.log, After(a, s.history), s.requests[id].op.offset);
    assert t.history[..|t.history| - 1] == s.history;
  }

  lemma WriteIndexLegal(cfg: Config, a: AbsLog, s: State, id: nat, t: State)
    requires MutexOk(s) && LogOk(cfg, s) && Next(cfg, s, WriteIndex(id), t)
    requires Represents(s.settled, After(a, s.history)) && Legal(a, s.history)
    ensures Represents(t.settled, After(a, t.history)) && Legal(a, t.history)
  {
    var r := s.requests[id].op.record;
    IndexCompletes(cfg, s.settled, r);
    AppendsLast(cfg, s.settled, After(a, s.history), r);
    assert t.settled == AppendActive(cfg, s.settled, r).0;
    assert t.history[..|t.history| - 1] == s.history;
  }

  lemma AppendsLast(cfg: Config, l: LogState, a: AbsLog, r: Record)
    requires Represents(l, a) && l.active < |l.segs| && Room(l.segs[l.active], r) && !Full(cfg, l.segs[l.active])
    ensures AppendActive(cfg, l, r).1 == Ok(a.base + |a.records|)
    ensures Represents(AppendActive(cfg, l, r).0, AbsLog(a.base, a.records + [r]))
  {
    var parts :| Clean(l, parts) && a == AbsLog(BaseOf(l), Flat(parts));
    FlatLength(l.segs, parts);
    AppendActiveRefines(cfg, l, parts, r);
    ActiveKeepsBase(cfg, l, r);
    assert Clean(AppendActive(cfg, l, r).0, Extend(parts, r));
  }

  ghost predicate Inv(cfg: Config, a: AbsLog, s: State) {
    Linearizable(a, s) && MutexOk(s) && LogOk(cfg, s)
  }

  lemma StepKeepsInv(cfg: Config, a: AbsLog, s: State, step: Step, t: State)
    requires cfg.Sane() && Inv(cfg, a, s) && Next(cfg, s, step, t)
    ensures Inv(cfg, a, t) && !step.Refuse?
  {
    StepKeepsMutex(cfg, s, step, t);
    StepKeepsHistory(cfg, s, step, t);
    StepKeepsRealTime(cfg, s, step, t);
    StepKeepsLog(cfg, After(a, s.history), s, step, t);
    StepKeepsLegal(cfg, a, s, step, t);
  }

  /**
   Linearizability: after any interleaving, the executed requests, in the
   order in which they held the mutex, form a legal sequential history of the
   abstract log that respects real time, and the log represents its outcome.
   The mutex is never held twice, and no produce is ever refused because
   another one filled the segment it had prepared.
   */
  lemma {:induction false} ServerLinearizable(cfg: Config, a: AbsLog, steps: seq<Step>, states: seq<State>)
    requires cfg.Sane() && IsRun(cfg, a, steps, states)
    ensures Inv(cfg, a, states[|steps|])
    ensures forall i :: 0 <= i < |steps| ==> !steps[i].Refuse?
  {
    if steps == [] {
      InitInv(cfg, a, states[0]);
    } else {
      var n := |steps| - 1;
      var init, before := steps[..n], states[..n + 1];
      RunInit(cfg, a, steps, states);
      ServerLinearizable(cfg, a, init, before);
      assert before[n] == states[n] && steps == init + [steps[n]];
      StepKeepsInv(cfg, a, states[n], steps[n], states[n + 1]);
    }
  }

  lemma InitInv(cfg: Config, a: AbsLog, s: State)
    requires Init(s, a)
    ensures Inv(cfg, a, s)
  {
    assert s.log.active < |s.log.segs|;
  }

  lemma RunInit(cfg: Config, a: AbsLog, steps: seq<Step>, states: seq<State>)
    requires IsRun(cfg, a, steps, states) && steps != []
    ensures IsRun(cfg, a, steps[..|steps| - 1], states[..|steps|]) && StepAt(cfg, steps, states, |steps| - 1)
  {
    var init, before := steps[..|steps| - 1], states[..|steps|];
    forall i | 0 <= i < |init| ensures StepAt(cfg, init, before, i) {
      assert StepAt(cfg, steps, states, i);
    }
  }

  // ----- What clients can rely on -----

  function Produces(h: seq<Entry>): nat {
    if h == [] then 0 else Produces(h[..|h| - 1]) + if h[|h| - 1].op.Produce? then 1 else 0
  }

  lemma {:induction false} AfterLength(a: AbsLog, h: seq<Entry>)
    ensures After(a, h).base == a.base && |After(a, h).records| == |a.records| + Produces(h)
  {
    if h != [] { AfterLength(a, h[..|h| - 1]); }
  }

  lemma {:induction false} ProducesGrow(h: seq<Entry>, j: nat, k: nat)
    requires j <= k <= |h|
    ensures Produces(h[..j]) <= Produces(h[..k])
    ensures j < k && h[j].op.Produce? ==> Produces(h[..j]) < Produces(h[..k])
    decreases k
  {
    if j < k {
      assert h[..k][..k - 1] == h[..k - 1];
      ProducesGrow(h, j, k - 1);
    }
  }

  lemma {:induction false} LegalAt(a: AbsLog, h: seq<Entry>, k: nat)
    requires Legal(a, h) && k < |h|
    ensures Legal(a, h[..k]) && h[k].response == Apply(After(a, h[..k]), h[k].op).1
  {
    var n := |h| - 1;
    if k < n {
      LegalAt(a, h[..n], k);
      assert h[..n][..k] == h[..k];
    }
  }

  /** A produce is answered with the old end of the log plus the number of produces executed before it. */
  lemma ProduceOffset(a: AbsLog, h: seq<Entry>, k: nat)
    requires Legal(a, h) && k < |h| && h[k].op.Produce?
    ensures h[k].response == ProduceDone(Ok(a.base + |a.records| + Produces(h[..k])))
  {
    LegalAt(a, h, k);
    AfterLength(a, h[..k]);
  }

  /** Later produces get larger offsets, so no offset is handed out twice. */
  lemma ProducesDistinct(a: AbsLog, h: seq<Entry>, j: nat, k: nat)
    requires Legal(a, h) && j < k < |h| && h[j].op.Produce? && h[k].op.Produce?
    ensures h[j].response.ProduceDone? && h[j].response.given.Ok?
    ensures h[k].response.ProduceDone? && h[k].response.given.Ok?
    ensures h[j].response.given.value < h[k].response.given.value
  {
    ProduceOffset(a, h, j);
    ProduceOffset(a, h, k);
    ProducesGrow(h, j, k);
  }

  /** No offset below the end is skipped: each was the answer of some produce. */
  lemma {:induction false} ProducesGapFree(a: AbsLog, h: seq<Entry>, n: nat) returns (k: nat)
    requires Legal(a, h) && n < Produces(h)
    ensures k < |h| && h[k].op.Produce?
    ensures h[k].response == ProduceDone(Ok(a.base + |a.records| + n))
    ensures |a.records| + n < |After(a, h).records| && h[k].op.record == After(a, h).records[|a.records| + n]
  {
    var m := |h| - 1;
    AfterLength(a, h);
    AfterLength(a, h[..m]);
    if n == Produces(h[..m]) {
      k := m;
      ProduceOffset(a, h, m);
    } else {
      k := ProducesGapFree(a, h[..m], n);
    }
  }

  /** A successful consume returns a record that was there from the start, or that of the produce with that offset. */
  lemma ConsumeReturnsProduced(a: AbsLog, h: seq<Entry>, k: nat) returns (j: nat)
    requires Legal(a, h) && k < |h| && h[k].op.Consume?
    requires h[k].response.ConsumeDone? && h[k].response.found.Ok?
    ensures h[k].op.offset >= a.base
    ensures h[k].op.offset < a.base + |a.records| ==> h[k].response.found.value == a.records[h[k].op.offset - a.base]
    ensures h[k].op.offset >= a.base + |a.records| ==>
              && j < k && h[j].op == Produce(h[k].response.found.value)
              && h[j].response == ProduceDone(Ok(h[k].op.offset))
  {
    var o := h[k].op.offset;
    LegalAt(a, h, k);
    AfterLength(a, h[..k]);
    AfterPrefix(a, h[..k]);
    j := 0;
    if o >= a.base + |a.records| {
      j := ProducesGapFree(a, h[..k], o - a.base - |a.records|);
    }
  }

  lemma {:induction false} AfterPrefix(a: AbsLog, h: seq<Entry>)
    ensures a.records <= After(a, h).records
  {
    if h != [] { AfterPrefix(a, h[..|h| - 1]); }
  }

  /** A produce answered before another produce was invoked has the smaller offset. */
  lemma ProducesInRealTime(a: AbsLog, s: State, i: nat, j: nat)
    requires Linearizable(a, s) && i in s.requests && j in s.requests
    requires s.requests[i].op.Produce? && s.requests[j].op.Produce?
    requires s.requests[i].phase.Answered? && s.requests[j].phase.Answered?
    requires s.requests[i].answeredAt < s.requests[j].invokedAt
    ensures s.requests[i].response.ProduceDone? && s.requests[i].response.given.Ok?
    ensures s.requests[j].response.ProduceDone? && s.requests[j].response.given.Ok?
    ensures s.requests[i].response.given.value < s.requests[j].response.given.value
  {
    ProduceOffset(a, s.history, s.requests[i].slot);
    ProduceOffset(a, s.history, s.requests[j].slot);
    ProducesGrow(s.history, s.requests[i].slot, s.requests[j].slot);
  }

  /** Times never change once given, and the clock never goes back. */
  lemma TimesStay(cfg: Config, s: State, step: Step, t: State, id: nat)
    requires Next(cfg, s, step, t)
    ensures s.clock <= t.clock
    ensures id in s.requests ==> id in t.requests && t.requests[id].invokedAt == s.requests[id].invokedAt
    ensures id in s.requests && s.requests[id].phase.Answered? ==> t.requests[id] == s.requests[id]
  {
  }

  lemma {:induction false} TimesStayInRun(
    cfg: Config, a: AbsLog, steps: seq<Step>, states: seq<State>, i: nat, k: nat, id: nat)
    requires IsRun(cfg, a, steps, states) && i <= k <= |steps|
    ensures states[i].clock <= states[k].clock
    ensures id in states[i].requests ==>
              id in states[k].requests && states[k].requests[id].invokedAt == states[i].requests[id].invokedAt
    ensures id in states[i].requests && states[i].requests[id].phase.Answered? ==>
              states[k].requests[id] == states[i].requests[id]
    decreases k
  {
    if i < k {
      TimesStayInRun(cfg, a, steps, states, i, k - 1, id);
      assert StepAt(cfg, steps, states, k - 1);
      TimesStay(cfg, states[k - 1], steps[k - 1], states[k], id);
    }
  }

  /**
   Real time, without the clock: if the answer to one request went out before
   another request came in, the first one executed before the second.
   */
  lemma AnsweredBeforeInvoked(
    cfg: Config, a: AbsLog, steps: seq<Step>, states: seq<State>, i: nat, j: nat)
    requires cfg.Sane() && IsRun(cfg, a, steps, states) && i < j < |steps|
    requires steps[i].Answer? && steps[j].Invoke?
    ensures var s := states[|steps|]; var first, second := steps[i].id, steps[j].id;
            && first in s.requests && second in s.requests
            && (s.requests[second].HasExecuted() ==>
                  s.requests[first].HasExecuted() && s.requests[first].slot < s.requests[second].slot)
  {
    var n, first, second := |steps|, steps[i].id, steps[j].id;
    assert StepAt(cfg, steps, states, i) && StepAt(cfg, steps, states, j);
    TimesStayInRun(cfg, a, steps, states, i + 1, n, first);
    TimesStayInRun(cfg, a, steps, states, i + 1, j, first);
    TimesStayInRun(cfg, a, steps, states, j + 1, n, second);
    ServerLinearizable(cfg, a, steps, states);
    assert states[n].requests[first].answeredAt < states[n].requests[second].invokedAt;
  }
}
