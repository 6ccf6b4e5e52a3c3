/** The shell's event ingress: a reader thread and a consumer sharing an atomic byte charge and a bounded queue. */
module EventIngress {
  import opened Geometry

  const QUEUE_DEPTH: nat := 256
  const HEADER_BYTES: nat := 10
  const MAX_MESSAGE_BYTES: nat := 0x10_0000

  /** One maximum envelope, the liveness floor for event delivery. */
  const BYTE_BUDGET: nat := HEADER_BYTES + MAX_MESSAGE_BYTES

  /** A decoded event and the wire bytes it is charged for. */
  datatype Item = Item(event: nat, bytes: nat)

  /** How the pipe itself can fail: a command where events are due, or bytes that cannot be read as an envelope. */
  datatype PipeFailure = WrongDirection | ReadFailed

  datatype Failure = QueueOverflow | QueueByteOverflow | PipeFailed(failure: PipeFailure)

  /** What the pipe will decode to: the events in order, then a clean end or a failure. */
  datatype Source = Source(items: seq<Item>, ending: Option<PipeFailure>)

  ghost predicate WellSized(source: Source) {
    forall i :: 0 <= i < |source.items| ==> source.items[i].bytes <= BYTE_BUDGET
  }

  /** The reader thread between two atomic operations. `held` is the charge it last observed. */
  datatype Reader =
    | Decoding
    | Reserving(item: Item)
    | Comparing(item: Item, held: nat)
    | Sending(item: Item)
    | Undoing(item: Item, after: Option<Failure>)
    | UndoComparing(item: Item, after: Option<Failure>, held: nat)
    | Recording(failure: Failure)
    | Leaving(outcome: Option<Failure>)
    | Gone(outcome: Option<Failure>)

  /** The consumer between two atomic operations; `Quit` once the receiver is dropped. */
  datatype Consumer =
    | Waiting
    | Releasing(item: Item)
    | ReleaseComparing(item: Item, held: nat)
    | Quit

  /** What a receive on a disconnected queue reports. */
  datatype Report = StreamClosed | Failed(failure: Failure)

  datatype State = State(decoded: nat, reader: Reader, consumer: Consumer, outstanding: nat, queue: seq<Item>,
                         slot: Option<Failure>, delivered: seq<Item>, reports: seq<Report>)

  const INITIAL: State := State(0, Decoding, Waiting, 0, [], None, [], [])

  /** One atomic step of either thread. A weak compare-and-swap may fail spuriously. */
  datatype Action =
    | Decode
    | ReserveLoad
    | ReserveSwap(spurious: bool)
    | Send
    | UndoLoad
    | UndoSwap(spurious: bool)
    | Record
    | Leave
    | Receive
    | ReleaseLoad
    | ReleaseSwap(spurious: bool)
    | ReceiveEnd
    | DropReceiver

  predicate Enabled(s: State, a: Action) {
    match a
    case Decode => s.reader.Decoding?
    case ReserveLoad => s.reader.Reserving?
    case ReserveSwap(_) => s.reader.Comparing?
    case Send => s.reader.Sending?
    case UndoLoad => s.reader.Undoing?
    case UndoSwap(_) => s.reader.UndoComparing?
    case Record => s.reader.Recording?
    case Leave => s.reader.Leaving?
    case Receive => s.consumer.Waiting? && |s.queue| > 0
    case ReleaseLoad => s.consumer.Releasing?
    case ReleaseSwap(_) => s.consumer.ReleaseComparing?
    case ReceiveEnd => s.consumer.Waiting? && |s.queue| == 0 && s.reader.Gone?
    case DropReceiver => s.consumer.Waiting?
  }

  function SaturatingSub(a: nat, b: nat): nat { if a < b then 0 else a - b }

  function Next(s: State, a: Action, source: Source): State
    requires Enabled(s, a)
  {
    match a
    case Decode =>
      if s.decoded < |source.items| then s.(decoded := s.decoded + 1, reader := Reserving(source.items[s.decoded]))
      else s.(reader := if source.ending.None? then Leaving(None) else Recording(PipeFailed(source.ending.value)))
    case ReserveLoad => s.(reader := Comparing(s.reader.item, s.outstanding))
    case ReserveSwap(spurious) =>
      var item, next := s.reader.item, s.reader.held + s.reader.item.bytes;
      if next > BYTE_BUDGET then s.(reader := Recording(QueueByteOverflow))
      else if !spurious && s.outstanding == s.reader.held then s.(outstanding := next, reader := Sending(item))
      else s.(reader := Comparing(item, s.outstanding))
    case Send =>
      var item := s.reader.item;
      if s.consumer.Quit? then s.(reader := Undoing(item, None))
      else if |s.queue| >= QUEUE_DEPTH then s.(reader := Undoing(item, Some(QueueOverflow)))
      else s.(queue := s.queue + [item], reader := Decoding)
    case UndoLoad => s.(reader := UndoComparing(s.reader.item, s.reader.after, s.outstanding))
    case UndoSwap(spurious) =>
      var after := s.reader.after;
      if !spurious && s.outstanding == s.reader.held then
        s.(outstanding := SaturatingSub(s.reader.held, s.reader.item.bytes),
           reader := if after.None? then Leaving(None) else Recording(after.value))
      else s.(reader := UndoComparing(s.reader.item, after, s.outstanding))
    case Record => s.(slot := Some(s.reader.failure), reader := Leaving(Some(s.reader.failure)))
    case Leave => s.(reader := Gone(s.reader.outcome))
    case Receive => s.(queue := s.queue[1..], consumer := Releasing(s.queue[0]))
    case ReleaseLoad => s.(consumer := ReleaseComparing(s.consumer.item, s.outstanding))
    case ReleaseSwap(spurious) =>
      var item := s.consumer.item;
      if !spurious && s.outstanding == s.consumer.held then
        s.(outstanding := SaturatingSub(s.consumer.held, item.bytes),
           delivered := s.delivered + [item], consumer := Waiting)
      else s.(consumer := ReleaseComparing(item, s.outstanding))
    case ReceiveEnd =>
      s.(slot := None, reports := s.reports + [if s.slot.None? then StreamClosed else Failed(s.slot.value)])
    case DropReceiver => s.(consumer := Quit)
  }

  // ---- what every interleaving keeps ----------------------------------------------------------------------------

  function Bytes(items: seq<Item>): nat {
    if |items| == 0 then 0 else Bytes(items[..|items| - 1]) + items[|items| - 1].bytes
  }

  /** Bytes the reader has reserved for an event that is not queued. */
  function ReaderHolds(r: Reader): nat {
    if r.Sending? || r.Undoing? || r.UndoComparing? then r.item.bytes else 0
  }

  /** The event the consumer has taken but not yet released. */
  function ConsumerHolds(c: Consumer): seq<Item> {
    if c.Releasing? || c.ReleaseComparing? then [c.item] else []
  }

  /** Events that got past both bounds, oldest first: delivered, being released, queued. */
  function Accepted(s: State): seq<Item> { s.delivered + ConsumerHolds(s.consumer) + s.queue }

  /** The charge is exactly the bytes reserved but unsent, plus queued, plus received but unreleased. */
  predicate ChargeIsExact(s: State) {
    s.outstanding == ReaderHolds(s.reader) + Bytes(s.queue) + Bytes(ConsumerHolds(s.consumer))
  }

  predicate WithinBudget(s: State) { s.outstanding <= BYTE_BUDGET && |s.queue| <= QUEUE_DEPTH }

  /** The reader is working on the event it last decoded; everything before it has been accepted. */
  predicate WorksOnLast(s: State, source: Source, item: Item) {
    0 < s.decoded <= |source.items| && item == source.items[s.decoded - 1]
    && Accepted(s) == source.items[..s.decoded - 1]
  }

  predicate InOrder(s: State, source: Source) {
    match s.reader
    case Decoding => s.decoded <= |source.items| && Accepted(s) == source.items[..s.decoded]
    case Reserving(item) => WorksOnLast(s, source, item)
    case Comparing(item, _) => WorksOnLast(s, source, item)
    case Sending(item) => WorksOnLast(s, source, item)
    case Undoing(item, after) => WorksOnLast(s, source, item) && (after.None? ==> s.consumer.Quit?)
    case UndoComparing(item, after, _) => WorksOnLast(s, source, item) && (after.None? ==> s.consumer.Quit?)
    case Recording(_) => Accepted(s) <= source.items
    case Leaving(outcome) => EndsWell(s, source, outcome)
    case Gone(outcome) => EndsWell(s, source, outcome)
  }

  /** A reader that ends with no failure, under a live consumer, has passed on the whole source. */
  predicate EndsWell(s: State, source: Source, outcome: Option<Failure>) {
    && Accepted(s) <= source.items
    && (outcome.None? && !s.consumer.Quit? ==> Accepted(s) == source.items && source.ending.None?)
  }

  function ReportOf(outcome: Option<Failure>): Report {
    if outcome.None? then StreamClosed else Failed(outcome.value)
  }

  /** The failure slot is written before the reader is gone, and read at most once. */
  predicate FailureKept(s: State) {
    && (|s.reports| == 0 ==>
          match s.reader
          case Leaving(outcome) => s.slot == outcome
          case Gone(outcome) => s.slot == outcome
          case _ => s.slot == None)
    && (|s.reports| > 0 ==>
          && s.reader.Gone? && s.slot == None && s.queue == [] && ConsumerHolds(s.consumer) == []
          && s.reports[0] == ReportOf(s.reader.outcome)
          && forall i :: 0 < i < |s.reports| ==> s.reports[i] == StreamClosed)
  }

  predicate Invariant(s: State, source: Source) {
    ChargeIsExact(s) && WithinBudget(s) && InOrder(s, source) && FailureKept(s)
  }

  lemma BytesOfPush(queue: seq<Item>, item: Item)
    ensures Bytes(queue + [item]) == Bytes(queue) + item.bytes
  {
    assert (queue + [item])[..|queue|] == queue;
  }

  lemma BytesOfOne(item: Item)
    ensures Bytes([item]) == item.bytes
  {}

  lemma {:induction false} BytesOfPop(queue: seq<Item>)
    requires |queue| > 0
    ensures Bytes(queue) == queue[0].bytes + Bytes(queue[1..])
  {
    if |queue| == 1 {
      assert queue == [queue[0]];
      BytesOfOne(queue[0]);
    } else {
      var rest := queue[..|queue| - 1];
      BytesOfPop(rest);
      assert queue[1..][..|queue| - 2] == rest[1..];
    }
  }

  lemma ChargeAfterSend(s: State, source: Source)
    requires ChargeIsExact(s) && WithinBudget(s) && Enabled(s, Send)
    ensures ChargeIsExact(Next(s, Send, source)) && WithinBudget(Next(s, Send, source))
  {
    BytesOfPush(s.queue, s.reader.item);
  }

  lemma ChargeAfterReceive(s: State, source: Source)
    requires ChargeIsExact(s) && WithinBudget(s) && Enabled(s, Receive)
    ensures ChargeIsExact(Next(s, Receive, source)) && WithinBudget(Next(s, Receive, source))
  {
    BytesOfPop(s.queue);
    BytesOfOne(s.queue[0]);
  }

  lemma ChargeAfterRelease(s: State, spurious: bool, source: Source)
    requires ChargeIsExact(s) && WithinBudget(s) && Enabled(s, ReleaseSwap(spurious))
    ensures ChargeIsExact(Next(s, ReleaseSwap(spurious), source)) && WithinBudget(Next(s, ReleaseSwap(spurious), source))
  {
    BytesOfOne(s.consumer.item);
  }

  lemma ChargeStep(s: State, a: Action, source: Source)
    requires ChargeIsExact(s) && WithinBudget(s) && Enabled(s, a)
    ensures ChargeIsExact(Next(s, a, source)) && WithinBudget(Next(s, a, source))
  {
    match a
    case Send => ChargeAfterSend(s, source);
    case Receive => ChargeAfterReceive(s, source);
    case ReleaseSwap(spurious) => ChargeAfterRelease(s, spurious, source);
    case _ =>
  }

  lemma AcceptedStep(s: State, a: Action, source: Source)
    requires Enabled(s, a)
    ensures Accepted(Next(s, a, source))
         == Accepted(s) + if a == Send && Next(s, a, source).reader.Decoding? then [s.reader.item] else []
  {
    var t := Next(s, a, source);
    match a
    case Receive => assert s.queue == [s.queue[0]] + s.queue[1..];
    case _ =>
  }

  lemma OrderAfterSend(s: State, source: Source)
    requires InOrder(s, source) && Enabled(s, Send)
    ensures InOrder(Next(s, Send, source), source)
  {
    AcceptedStep(s, Send, source);
    assert source.items[..s.decoded] == source.items[..s.decoded - 1] + [s.reader.item];
  }

  lemma OrderAfterDecode(s: State, source: Source)
    requires InOrder(s, source) && Enabled(s, Decode)
    ensures InOrder(Next(s, Decode, source), source)
  {
    AcceptedStep(s, Decode, source);
    assert source.items[..|source.items|] == source.items;
  }

  lemma OrderStep(s: State, a: Action, source: Source)
    requires InOrder(s, source) && Enabled(s, a)
    ensures InOrder(Next(s, a, source), source)
  {
    match a
    case Send => OrderAfterSend(s, source);
    case Decode => OrderAfterDecode(s, source);
    case _ =>
      AcceptedStep(s, a, source);
      assert Accepted(Next(s, a, source)) == Accepted(s);
  }

  lemma FailureStep(s: State, a: Action, source: Source)
    requires FailureKept(s) && Enabled(s, a)
    ensures FailureKept(Next(s, a, source))
  {}

  lemma InvariantStep(s: State, a: Action, source: Source)
    requires Invariant(s, source) && Enabled(s, a)
    ensures Invariant(Next(s, a, source), source)
  {
    ChargeStep(s, a, source);
    OrderStep(s, a, source);
    FailureStep(s, a, source);
  }

  /** The state after a schedule of steps; none when a step is not enabled. */
  function After(source: Source, schedule: seq<Action>): Option<State> {
    if |schedule| == 0 then Some(INITIAL)
    else
      var s := After(source, schedule[..|schedule| - 1]);
      var a := schedule[|schedule| - 1];
      if s.Some? && Enabled(s.value, a) then Some(Next(s.value, a, source)) else None
  }

  /** Under every interleaving the charge is exact and within budget, and events are accepted in decode order. */
  lemma {:induction false} InvariantHolds(source: Source, schedule: seq<Action>)
    requires After(source, schedule).Some?
    ensures Invariant(After(source, schedule).value, source)
  {
    if |schedule| > 0 {
      var past, a := schedule[..|schedule| - 1], schedule[|schedule| - 1];
      InvariantHolds(source, past);
      InvariantStep(After(source, past).value, a, source);
    }
  }

  /** The swap of a release or of the reader's rollback finds the charge it loaded, so it takes effect. */
  predicate SwapSucceeds(s: State, a: Action) {
    || (a == ReleaseSwap(false) && s.consumer.ReleaseComparing? && s.outstanding == s.consumer.held)
    || (a == UndoSwap(false) && s.reader.UndoComparing? && s.outstanding == s.reader.held)
  }

  /** A release that takes effect, the consumer's or the reader's rollback, finds at least the event's bytes charged
      and takes off exactly those: saturation never clamps. */
  lemma ReleaseNeverClamps(source: Source, schedule: seq<Action>, a: Action)
    requires After(source, schedule).Some? && SwapSucceeds(After(source, schedule).value, a)
    ensures var s := After(source, schedule).value;
            var item := if a.ReleaseSwap? then s.consumer.item else s.reader.item;
            && Enabled(s, a)
            && item.bytes <= s.outstanding && Next(s, a, source).outstanding + item.bytes == s.outstanding
  {
    InvariantHolds(source, schedule);
    var s := After(source, schedule).value;
    if a.ReleaseSwap? { BytesOfOne(s.consumer.item); }
  }

  /** A zero charge admits any one envelope: the very next reservation attempt succeeds unless the swap is spurious. */
  lemma ZeroChargeAdmits(source: Source, schedule: seq<Action>)
    requires WellSized(source) && After(source, schedule).Some?
    requires After(source, schedule).value.reader.Reserving? && After(source, schedule).value.outstanding == 0
    ensures var s := Next(After(source, schedule).value, ReserveLoad, source);
            Enabled(s, ReserveSwap(false)) &&
            Next(s, ReserveSwap(false), source).reader == Sending(After(source, schedule).value.reader.item)
  {
    InvariantHolds(source, schedule);
  }

  /** An uncontended reservation succeeds exactly when the event fits beside the bytes queued or not yet released. */
  lemma UncontendedReserveIff(source: Source, schedule: seq<Action>)
    requires After(source, schedule).Some? && After(source, schedule).value.reader.Reserving?
    ensures var s := After(source, schedule).value;
            var item, backlog := s.reader.item, Bytes(s.queue) + Bytes(ConsumerHolds(s.consumer));
            var loaded := Next(s, ReserveLoad, source);
            && Enabled(loaded, ReserveSwap(false))
            && var t := Next(loaded, ReserveSwap(false), source);
               if backlog + item.bytes <= BYTE_BUDGET
               then t.reader == Sending(item) && t.outstanding == backlog + item.bytes
               else t.reader == Recording(QueueByteOverflow) && t.outstanding == backlog
  {
    InvariantHolds(source, schedule);
  }

  /** A reader about to compare loaded the charge it holds at some moment at which it already had this event. */
  lemma {:induction false} HeldWasLoaded(source: Source, schedule: seq<Action>) returns (k: nat)
    requires After(source, schedule).Some? && After(source, schedule).value.reader.Comparing?
    ensures k <= |schedule| && After(source, schedule[..k]).Some?
    ensures var now, loaded := After(source, schedule).value, After(source, schedule[..k]).value;
            loaded.reader == now.reader && loaded.outstanding == now.reader.held
  {
    var past, a := schedule[..|schedule| - 1], schedule[|schedule| - 1];
    if a.ReserveLoad? || a.ReserveSwap? {
      k := |schedule|;
      assert schedule[..k] == schedule;
    } else {
      k := HeldWasLoaded(source, past);
      assert past[..k] == schedule[..k];
    }
  }

  /** The byte bound refuses an event only when, at some moment since it was decoded, bytes of earlier events alone,
      queued or not yet released, made up the charge that left no room for it. */
  lemma ByteOverflowNeedsBacklog(source: Source, schedule: seq<Action>, spurious: bool) returns (k: nat)
    requires WellSized(source) && After(source, schedule).Some?
    requires After(source, schedule).value.reader.Comparing?
    requires Next(After(source, schedule).value, ReserveSwap(spurious), source).reader == Recording(QueueByteOverflow)
    ensures k <= |schedule| && After(source, schedule[..k]).Some?
    ensures var item := After(source, schedule).value.reader.item;
            var s := After(source, schedule[..k]).value;
            var backlog := Bytes(s.queue) + Bytes(ConsumerHolds(s.consumer));
            && 0 < s.decoded <= |source.items| && item == source.items[s.decoded - 1]
            && Accepted(s) == source.items[..s.decoded - 1]
            && 0 < backlog && backlog + item.bytes > BYTE_BUDGET
  {
    k := HeldWasLoaded(source, schedule);
    InvariantHolds(source, schedule);
    InvariantHolds(source, schedule[..k]);
  }

  // ---- when the queue refuses an event ------------------------------------------------------------------------------

  /** How many events the consumer has taken off the queue over a schedule. */
  function Receives(schedule: seq<Action>): nat {
    if |schedule| == 0 then 0
    else Receives(schedule[..|schedule| - 1]) + if schedule[|schedule| - 1] == Receive then 1 else 0
  }

  function Taken(s: State): nat { |s.delivered| + |ConsumerHolds(s.consumer)| }

  lemma TakenStep(s: State, a: Action, source: Source)
    requires Enabled(s, a)
    ensures Taken(Next(s, a, source)) == Taken(s) + if a == Receive then 1 else 0
  {}

  lemma {:induction false} TakenAreReceives(source: Source, schedule: seq<Action>)
    requires After(source, schedule).Some?
    ensures Taken(After(source, schedule).value) == Receives(schedule)
  {
    if |schedule| > 0 {
      var past := schedule[..|schedule| - 1];
      TakenAreReceives(source, past);
      TakenStep(After(source, past).value, schedule[|schedule| - 1], source);
    }
  }

  /** What is queued while an event is being sent: the events decoded before it and not taken. */
  lemma QueueIsUntaken(s: State, source: Source, item: Item)
    requires WorksOnLast(s, source, item)
    ensures Taken(s) < s.decoded && s.queue == source.items[Taken(s)..s.decoded - 1]
    ensures s.queue + [item] == source.items[Taken(s)..s.decoded]
  {
    assert s.queue == Accepted(s)[Taken(s)..];
  }

  /** With a live consumer, a send overflows if and only if exactly `QUEUE_DEPTH` of the events decoded before this one
      have not been taken; otherwise the event joins the queue, last. A dropped consumer ends the reader quietly. */
  lemma SendOverflowsIffFull(source: Source, schedule: seq<Action>)
    requires After(source, schedule).Some? && Enabled(After(source, schedule).value, Send)
    ensures var s := After(source, schedule).value;
            var taken := Receives(schedule);
            && taken < s.decoded <= |source.items| && s.reader.item == source.items[s.decoded - 1]
            && s.queue == source.items[taken..s.decoded - 1] && |s.queue| <= QUEUE_DEPTH
            && Next(s, Send, source)
               == if s.consumer.Quit? then s.(reader := Undoing(s.reader.item, None))
                  else if s.decoded - 1 - taken == QUEUE_DEPTH then s.(reader := Undoing(s.reader.item, Some(QueueOverflow)))
                  else s.(reader := Decoding, queue := source.items[taken..s.decoded])
  {
    InvariantHolds(source, schedule);
    TakenAreReceives(source, schedule);
    QueueIsUntaken(After(source, schedule).value, source, After(source, schedule).value.reader.item);
  }

  // ---- which failure is recorded --------------------------------------------------------------------------------------

  predicate Decided(r: Reader) { r.Undoing? || r.UndoComparing? || r.Recording? || r.Leaving? || r.Gone? }

  /** The failure a reader that has stopped decoding goes on to record; none when it leaves quietly. */
  function Outcome(r: Reader): Option<Failure>
    requires Decided(r)
  {
    if r.Undoing? || r.UndoComparing? then r.after
    else if r.Recording? then Some(r.failure)
    else r.outcome
  }

  function EndingOf(source: Source): Option<Failure> {
    if source.ending.None? then None else Some(PipeFailed(source.ending.value))
  }

  /** At state `s` the step `a` refused `item`, and `outcome` is what refuses it: the full queue, the byte bound on the
      charge last loaded, or the receiver's absence. */
  predicate Refuses(s: State, a: Action, item: Item, outcome: Option<Failure>) {
    match outcome
    case Some(QueueOverflow) => a == Send && s.reader == Sending(item) && !s.consumer.Quit? && |s.queue| == QUEUE_DEPTH
    case Some(QueueByteOverflow) =>
      a.ReserveSwap? && s.reader.Comparing? && s.reader.item == item && s.reader.held + item.bytes > BYTE_BUDGET
    case None => a == Send && s.reader == Sending(item) && s.consumer.Quit?
    case _ => false
  }

  /** What ended the reader at step `a`: the pipe, once every event was accepted, or the refusal of the next event. */
  predicate EndedBy(source: Source, s: State, a: Action, accepted: seq<Item>, outcome: Option<Failure>) {
    if accepted == source.items then a == Decode && outcome == EndingOf(source)
    else |accepted| < |source.items| && accepted == source.items[..|accepted|]
         && Refuses(s, a, source.items[|accepted|], outcome)
  }

  lemma DecisionStep(source: Source, s: State, a: Action)
    requires Invariant(s, source) && Enabled(s, a) && Decided(Next(s, a, source).reader)
    ensures Accepted(Next(s, a, source)) == Accepted(s)
    ensures if Decided(s.reader) then Outcome(Next(s, a, source).reader) == Outcome(s.reader)
            else EndedBy(source, s, a, Accepted(s), Outcome(Next(s, a, source).reader))
  {
    AcceptedStep(s, a, source);
    assert Accepted(Next(s, a, source)) == Accepted(s);
    assert source.items[..|source.items|] == source.items;
  }

  /** A reader that stops does so for one reason, and records no other: when every event of the pipe was accepted, the
      pipe's own ending; otherwise what refused the first event that was not, at step `k`. */
  lemma {:induction false} WhyEnded(source: Source, schedule: seq<Action>) returns (k: nat)
    requires After(source, schedule).Some? && Decided(After(source, schedule).value.reader)
    ensures k < |schedule| && After(source, schedule[..k]).Some?
    ensures var s := After(source, schedule).value;
            EndedBy(source, After(source, schedule[..k]).value, schedule[k], Accepted(s), Outcome(s.reader))
  {
    var past, last := schedule[..|schedule| - 1], |schedule| - 1;
    var s := After(source, past).value;
    InvariantHolds(source, past);
    DecisionStep(source, s, schedule[last]);
    if Decided(s.reader) {
      k := WhyEnded(source, past);
      assert past[..k] == schedule[..k];
    } else {
      k := last;
    }
  }

  /** The consumer sees the events in decode order with none missing, and hears of the end only after the last of
      them. The first report names how the reader ended, and a clean close means the whole source was delivered. */
  lemma DeliveryIsFaithful(source: Source, schedule: seq<Action>)
    requires After(source, schedule).Some?
    ensures var s := After(source, schedule).value;
            && s.delivered <= source.items
            && (|s.reports| > 0 && !s.consumer.Quit? ==>
                  && s.reader.Gone? && s.reports[0] == ReportOf(s.reader.outcome)
                  && s.delivered == Accepted(s)
                  && (s.reports[0] == StreamClosed ==> s.delivered == source.items && source.ending.None?)
                  && forall i :: 0 < i < |s.reports| ==> s.reports[i] == StreamClosed)
  {
    InvariantHolds(source, schedule);
    var s := After(source, schedule).value;
    assert s.delivered <= Accepted(s) && Accepted(s) <= source.items;
  }
}
