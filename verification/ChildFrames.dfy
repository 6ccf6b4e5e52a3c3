/** Nested iframes: syncing the frame tree, and the order in which load events fire at every depth. */
module ChildFrames {
  import opened Geometry

  const MAX_DEPTH: nat := 8
  const MAX_FRAMES: nat := 16
  const USIZE_MAX: nat := 0xFFFF_FFFF_FFFF_FFFF

  /** What a document's own event log records, stamped by one clock that all documents share. A document's load
      notes the child frames it tracked at that moment. */
  datatype Entry =
    | Load(at: nat, tracked: seq<Tracked>)
    | FrameEvent(at: nat, owner: nat, isError: bool)

  /** A tracked frame: its iframe element, when it was created, and when its document loaded, if it has one. */
  datatype Tracked = Tracked(owner: nat, born: nat, childLoad: Option<nat>)

  datatype FrameState =
    | Pending
    | Loading
    | Failed
    | Ready(document: Document, loadDispatched: bool)

  /** A child frame; `policy` stands for its sandbox flags. */
  datatype Frame = Frame(owner: nat, source: string, policy: nat, born: nat, state: FrameState)

  /** A document of the frame tree; `page` tells it from every other. */
  datatype Document = Document(page: nat, loadPending: bool, frames: seq<Frame>, log: seq<Entry>)

  /** An iframe element found in a document. */
  datatype Candidate = Candidate(owner: nat, source: string, policy: nat)

  /** The outcome of looking at a frame's fetch: of starting it, or of polling it. A disconnected worker and a page
      that cannot be built are both `Broken`. */
  datatype FetchOutcome = Started | NoPermit | StillLoading | Broken | PageBuilt(page: nat)

  /** What the surroundings answer in one turn: the iframes found in each page, in document order, and for each of
      them, by its place among these, whether it has a viewport and what its fetch comes to; and which pages repaint. */
  datatype World = World(found: nat -> seq<Candidate>, hasViewport: (nat, nat) -> bool,
                         fetch: (nat, nat) -> FetchOutcome, repaints: nat -> bool)

  // ---- what the logs must show --------------------------------------------------------------------------------------

  /** The log records an event of this kind at `owner`, stamped in [from, before). */
  predicate Records(log: seq<Entry>, owner: nat, isError: bool, from: nat, before: nat) {
    exists i :: 0 <= i < |log| && IsEvent(log[i], owner, isError, from, before)
  }

  predicate IsEvent(e: Entry, owner: nat, isError: bool, from: nat, before: nat) {
    e.FrameEvent? && e.owner == owner && e.isError == isError && from <= e.at < before
  }

  predicate InOrder(log: seq<Entry>, clock: nat) {
    && (forall i, j :: 0 <= i < j < |log| ==> log[i].at < log[j].at)
    && forall i :: 0 <= i < |log| ==> log[i].at < clock
  }

  predicate AtMostOneLoad(log: seq<Entry>) {
    forall i, j :: 0 <= i < j < |log| ==> !(log[i].Load? && log[j].Load?)
  }

  /** When the document's load is logged, if it is. */
  function LoadTime(log: seq<Entry>): Option<nat> {
    if |log| == 0 then None
    else if log[|log| - 1].Load? then Some(log[|log| - 1].at)
    else LoadTime(log[..|log| - 1])
  }

  /** By time `t` the frame's owner had an error, or a load that followed the child document's own load. */
  predicate SettledBy(log: seq<Entry>, t: nat, x: Tracked) {
    || Records(log, x.owner, true, x.born, t)
    || (x.childLoad.Some? && Records(log, x.owner, false, x.childLoad.value + 1, t))
  }

  /** Every load in the log came after each frame it tracked had settled. */
  predicate LoadsAfterFrames(log: seq<Entry>) {
    forall i, k :: 0 <= i < |log| && log[i].Load? && 0 <= k < |log[i].tracked| ==>
                     SettledBy(log, log[i].at, log[i].tracked[k])
  }

  /** Everything the ordering claims of one document and, through its frames, of every document below it. */
  predicate DocumentSound(d: Document, clock: nat)
    decreases d, 1
  {
    && InOrder(d.log, clock) && AtMostOneLoad(d.log) && LoadsAfterFrames(d.log)
    && (d.loadPending <==> LoadTime(d.log) == None)
    && forall i :: 0 <= i < |d.frames| ==> FrameSound(d.frames[i], d.log, clock)
  }

  predicate FrameSound(f: Frame, log: seq<Entry>, clock: nat)
    decreases f, 0
  {
    f.born <= clock &&
    match f.state
    case Pending => true
    case Loading => true
    case Failed => Records(log, f.owner, true, f.born, clock)
    case Ready(d, dispatched) =>
      && DocumentSound(d, clock)
      && (dispatched ==> !d.loadPending && LoadTime(d.log).Some?
                         && Records(log, f.owner, false, LoadTime(d.log).value + 1, clock))
  }

  predicate FramesSound(frames: seq<Frame>, log: seq<Entry>, clock: nat) {
    forall i :: 0 <= i < |frames| ==> FrameSound(frames[i], log, clock)
  }

  // ---- logs only grow -------------------------------------------------------------------------------------------------

  lemma RecordsGrow(log: seq<Entry>, log': seq<Entry>, owner: nat, isError: bool, from: nat, before: nat, before': nat)
    requires log <= log' && before <= before' && Records(log, owner, isError, from, before)
    ensures Records(log', owner, isError, from, before')
  {}

  lemma {:induction false} SoundLater(d: Document, clock: nat, clock': nat)
    requires DocumentSound(d, clock) && clock <= clock'
    ensures DocumentSound(d, clock')
    decreases d, 1
  {
    forall i | 0 <= i < |d.frames| ensures FrameSound(d.frames[i], d.log, clock') {
      FrameSoundLater(d.frames[i], d.log, d.log, clock, clock');
    }
  }

  lemma {:induction false} FrameSoundLater(f: Frame, log: seq<Entry>, log': seq<Entry>, clock: nat, clock': nat)
    requires FrameSound(f, log, clock) && log <= log' && clock <= clock'
    ensures FrameSound(f, log', clock')
    decreases f, 0
  {
    match f.state
    case Pending =>
    case Loading =>
    case Failed => RecordsGrow(log, log', f.owner, true, f.born, clock, clock');
    case Ready(d, dispatched) =>
      SoundLater(d, clock, clock');
      if dispatched { RecordsGrow(log, log', f.owner, false, LoadTime(d.log).value + 1, clock, clock'); }
  }

  lemma FramesSoundLater(frames: seq<Frame>, log: seq<Entry>, log': seq<Entry>, clock: nat, clock': nat)
    requires FramesSound(frames, log, clock) && log <= log' && clock <= clock'
    ensures FramesSound(frames, log', clock')
  {
    forall i | 0 <= i < |frames| ensures FrameSound(frames[i], log', clock') {
      FrameSoundLater(frames[i], log, log', clock, clock');
    }
  }

  /** A log in good order whose loads are sound. */
  predicate LogSound(log: seq<Entry>, clock: nat) {
    InOrder(log, clock) && AtMostOneLoad(log) && LoadsAfterFrames(log)
  }

  lemma SettledGrows(log: seq<Entry>, log': seq<Entry>, t: nat, x: Tracked)
    requires log <= log' && SettledBy(log, t, x)
    ensures SettledBy(log', t, x)
  {}

  lemma LogEvent(log: seq<Entry>, clock: nat, owner: nat, isError: bool, from: nat)
    requires LogSound(log, clock) && from <= clock
    ensures var log' := log + [FrameEvent(clock, owner, isError)];
            && LogSound(log', clock + 1) && LoadTime(log') == LoadTime(log)
            && Records(log', owner, isError, from, clock + 1)
  {
    var log' := log + [FrameEvent(clock, owner, isError)];
    assert log'[..|log|] == log;
    forall i, k | 0 <= i < |log'| && log'[i].Load? && 0 <= k < |log'[i].tracked|
      ensures SettledBy(log', log'[i].at, log'[i].tracked[k])
    {
      assert log'[i] == log[i];
      SettledGrows(log, log', log[i].at, log[i].tracked[k]);
    }
    assert IsEvent(log'[|log|], owner, isError, from, clock + 1);
  }

  lemma {:induction false} NoLoadTime(log: seq<Entry>)
    ensures LoadTime(log) == None ==> forall i :: 0 <= i < |log| ==> !log[i].Load?
    ensures LoadTime(log).Some? ==> exists i :: 0 <= i < |log| && log[i].Load? && log[i].at == LoadTime(log).value
  {
    if |log| > 0 {
      NoLoadTime(log[..|log| - 1]);
      if LoadTime(log).Some? && !log[|log| - 1].Load? {
        var i :| 0 <= i < |log| - 1 && log[..|log| - 1][i].Load? && log[..|log| - 1][i].at == LoadTime(log).value;
        assert log[i].Load?;
      }
    }
  }

  // ---- the load itself ------------------------------------------------------------------------------------------------

  function TrackedOf(f: Frame): Tracked {
    Tracked(f.owner, f.born, if f.state.Ready? then LoadTime(f.state.document.log) else None)
  }

  function AllTracked(frames: seq<Frame>): seq<Tracked> {
    seq(|frames|, i requires 0 <= i < |frames| => TrackedOf(frames[i]))
  }

  /** A frame that no longer holds its parent's load back. */
  predicate FrameSettled(f: Frame) {
    match f.state
    case Pending => false
    case Loading => false
    case Failed => true
    case Ready(d, dispatched) => !d.loadPending && dispatched
  }

  lemma SettledFrameIsSettledBy(f: Frame, log: seq<Entry>, clock: nat)
    requires FrameSound(f, log, clock) && FrameSettled(f)
    ensures SettledBy(log, clock, TrackedOf(f))
  {}

  lemma LogLoad(log: seq<Entry>, clock: nat, frames: seq<Frame>)
    requires LogSound(log, clock) && LoadTime(log) == None && FramesSound(frames, log, clock)
    requires forall i :: 0 <= i < |frames| ==> FrameSettled(frames[i])
    ensures var log' := log + [Load(clock, AllTracked(frames))];
            LogSound(log', clock + 1) && LoadTime(log') == Some(clock)
  {
    var log' := log + [Load(clock, AllTracked(frames))];
    NoLoadTime(log);
    forall i, k | 0 <= i < |log'| && log'[i].Load? && 0 <= k < |log'[i].tracked|
      ensures SettledBy(log', log'[i].at, log'[i].tracked[k])
    {
      assert i == |log|;
      SettledFrameIsSettledBy(frames[k], log, clock);
      SettledGrows(log, log', clock, TrackedOf(frames[k]));
    }
  }

  /** Across a sync, a pending load stays pending exactly when some frame now tracked has not settled. */
  predicate LoadedWhenSettled(before: Document, after: Document) {
    after.loadPending == (before.loadPending && exists i :: 0 <= i < |after.frames| && !FrameSettled(after.frames[i]))
  }

  /** Fires the document's load once every tracked frame has settled. */
  method DispatchInitialLoadWhenSettled(d: Document, clock: nat) returns (d': Document, clock': nat, fired: bool)
    requires DocumentSound(d, clock)
    ensures DocumentSound(d', clock')
    ensures fired == (d.loadPending && forall i :: 0 <= i < |d.frames| ==> FrameSettled(d.frames[i]))
    ensures clock' == if fired then clock + 1 else clock
    ensures d' == if fired then Document(d.page, false, d.frames, d.log + [Load(clock, AllTracked(d.frames))]) else d
    ensures LoadedWhenSettled(d, d')
  {
    if !d.loadPending || exists i :: 0 <= i < |d.frames| && !FrameSettled(d.frames[i]) {
      return d, clock, false;
    }
    LogLoad(d.log, clock, d.frames);
    d' := Document(d.page, false, d.frames, d.log + [Load(clock, AllTracked(d.frames))]);
    FramesSoundLater(d.frames, d.log, d'.log, clock, clock + 1);
    clock', fired := clock + 1, true;
  }

  // ---- what a sync does to a frame ---------------------------------------------------------------------------------------

  /** A pending frame is fetched and a loading one polled; nothing else moves a frame. A built page starts with its
      load pending and nothing logged. */
  function NextState(state: FrameState, outcome: FetchOutcome): FrameState {
    match (state, outcome)
    case (Pending, Started) => Loading
    case (Loading, PageBuilt(page)) => Ready(Document(page, true, [], []), false)
    case (Pending, Broken) => Failed
    case (Loading, Broken) => Failed
    case _ => state
  }

  predicate SameFrame(f: Frame, c: Candidate) { f.owner == c.owner && f.source == c.source && f.policy == c.policy }

  /** The frame that candidate `i` continues: an old one for the same element, source and policy, or a new one when
      there is none, or none that an equal candidate before it did not take. */
  predicate StartsFrom(f: Frame, oldFrames: seq<Frame>, found: seq<Candidate>, i: nat) {
    && i < |found| && SameFrame(f, found[i])
    && (f in oldFrames
        || (f.state.Pending?
            && ((forall k :: 0 <= k < |oldFrames| ==> !SameFrame(oldFrames[k], found[i])) || found[i] in found[..i])))
  }

  /** Spending from an exhausted budget wraps, as unsigned subtraction does. */
  function Spend(remaining: nat): nat { if remaining == 0 then USIZE_MAX else remaining - 1 }

  /** A frame's state after its fetch was looked at and, if it is ready then, its document was synced from a budget of
      `before`, leaving `after`. */
  ghost predicate Moved(w: World, depth: nat, start: FrameState, outcome: FetchOutcome, now: FrameState, before: nat,
                        after: nat)
    decreases now
  {
    var next := NextState(start, outcome);
    if next.Ready? then
      && now.Ready? && now.loadDispatched == (next.loadDispatched || !now.document.loadPending)
      && Synced(w, depth + 1, before, next.document, now.document, after)
    else now == next && after == before
  }

  ghost predicate FrameMoved(w: World, depth: nat, page: nat, oldFrames: seq<Frame>, i: nat, f: Frame, before: nat,
                             after: nat)
    decreases f
  {
    exists start :: StartsFrom(start, oldFrames, w.found(page), i) && f == start.(state := f.state)
                    && Moved(w, depth, start.state, w.fetch(page, i), f.state, Spend(before), after)
  }

  /** The places below `k` of the candidates that have a viewport, in order. */
  function Places(w: World, page: nat, k: nat): seq<nat> {
    if k == 0 then [] else Places(w, page, k - 1) + if w.hasViewport(page, k - 1) then [k - 1] else []
  }

  /** The candidates a budget admits. */
  function Accepted(w: World, page: nat, remaining: nat): nat { Min(|w.found(page)|, remaining) }

  ghost predicate Placed(w: World, depth: nat, remaining: nat, d: Document, d': Document, left: nat, budgets: seq<nat>)
    decreases d', 0
  {
    var at := Places(w, d.page, Accepted(w, d.page, remaining));
    && |at| == |d'.frames| && |budgets| == |at| + 1 && budgets[0] == remaining && budgets[|at|] == left
    && forall j :: 0 <= j < |d'.frames| ==>
         FrameMoved(w, depth, d.page, d.frames, at[j], d'.frames[j], budgets[j], budgets[j + 1])
  }

  /** What one sync makes of a document: above the depth limit and with budget left, its frames are exactly those of the
      accepted candidates that have a viewport, in order, each moved on by its fetch and its own document's sync, which
      spend one budget; and its load stays pending exactly when one of them has not settled. */
  ghost predicate Synced(w: World, depth: nat, remaining: nat, d: Document, d': Document, left: nat)
    decreases d', 1
  {
    && d'.page == d.page && LoadedWhenSettled(d, d')
    && if depth < MAX_DEPTH && remaining > 0 then exists budgets :: Placed(w, depth, remaining, d, d', left, budgets)
       else d'.frames == d.frames && left == remaining
  }

  /** The frames of the candidates before `k`, as far as a sync has come. */
  ghost predicate PlacedUpTo(w: World, depth: nat, page: nat, oldFrames: seq<Frame>, frames: seq<Frame>, k: nat,
                             budgets: seq<nat>, remaining: nat, left: nat)
  {
    var at := Places(w, page, k);
    && |at| == |frames| && |budgets| == |at| + 1 && budgets[0] == remaining && budgets[|at|] == left
    && forall j :: 0 <= j < |frames| ==>
         FrameMoved(w, depth, page, oldFrames, at[j], frames[j], budgets[j], budgets[j + 1])
  }

  lemma PlaceOne(w: World, depth: nat, page: nat, oldFrames: seq<Frame>, frames: seq<Frame>, k: nat,
                 budgets: seq<nat>, remaining: nat, left: nat, f: Frame, left': nat)
    requires PlacedUpTo(w, depth, page, oldFrames, frames, k, budgets, remaining, left)
    requires w.hasViewport(page, k) && FrameMoved(w, depth, page, oldFrames, k, f, left, left')
    ensures PlacedUpTo(w, depth, page, oldFrames, frames + [f], k + 1, budgets + [left'], remaining, left')
  {
    assert Places(w, page, k + 1) == Places(w, page, k) + [k];
  }

  lemma PlaceNone(w: World, depth: nat, page: nat, oldFrames: seq<Frame>, frames: seq<Frame>, k: nat,
                  budgets: seq<nat>, remaining: nat, left: nat)
    requires PlacedUpTo(w, depth, page, oldFrames, frames, k, budgets, remaining, left)
    requires !w.hasViewport(page, k)
    ensures PlacedUpTo(w, depth, page, oldFrames, frames, k + 1, budgets, remaining, left)
  {
    assert Places(w, page, k + 1) == Places(w, page, k);
  }

  lemma {:induction false} PlacesAre(w: World, page: nat, k: nat)
    ensures var at := Places(w, page, k);
            && |at| <= k && (forall m, n :: 0 <= m < n < |at| ==> at[m] < at[n])
            && (forall m :: 0 <= m < |at| ==> at[m] < k)
            && forall i: nat :: i in at <==> i < k && w.hasViewport(page, i)
  {
    if k > 0 { PlacesAre(w, page, k - 1); }
  }

  // ---- advancing one frame ----------------------------------------------------------------------------------------------

  /** Starts or polls a frame's fetch. A failure of any kind is an `error` at the owner. */
  method AdvanceChildFetch(log: seq<Entry>, clock: nat, child: Frame, outcome: FetchOutcome)
    returns (child': Frame, log': seq<Entry>, clock': nat, changed: bool)
    requires LogSound(log, clock) && FrameSound(child, log, clock)
    ensures LogSound(log', clock') && FrameSound(child', log', clock') && log <= log' && clock <= clock'
    ensures LoadTime(log') == LoadTime(log)
    ensures child' == child.(state := NextState(child.state, outcome)) && changed == (child'.state != child.state)
    ensures child'.state.Failed? <==>
              child.state.Failed? || (outcome.Broken? && (child.state.Pending? || child.state.Loading?))
    ensures child'.state.Loading? <==> if child.state.Pending? then outcome.Started?
                                       else child.state.Loading? && !outcome.Broken? && !outcome.PageBuilt?
    ensures child'.state.Ready? <==> child.state.Ready? || (child.state.Loading? && outcome.PageBuilt?)
    ensures if child'.state.Failed? && !child.state.Failed?
            then log' == log + [FrameEvent(clock, child.owner, true)] && clock' == clock + 1
            else log' == log && clock' == clock
  {
    child', log', clock', changed := child, log, clock, false;
    var broken := (child.state.Pending? || child.state.Loading?) && outcome.Broken?;
    if child.state.Pending? && outcome.Started? {
      child', changed := child.(state := Loading), true;
    } else if child.state.Loading? && outcome.PageBuilt? {
      child', changed := child.(state := Ready(Document(outcome.page, true, [], []), false)), true;
    } else if broken {
      LogEvent(log, clock, child.owner, true, child.born);
      log', clock' := log + [FrameEvent(clock, child.owner, true)], clock + 1;
      child', changed := child.(state := Failed), true;
    }
  }

  /** Announcing a loaded child at its owner keeps the log and the frame sound. */
  lemma AnnouncedIsSound(log: seq<Entry>, clock: nat, child: Frame)
    requires LogSound(log, clock) && child.born <= clock && child.state.Ready? && child.state.loadDispatched
    requires DocumentSound(child.state.document, clock) && !child.state.document.loadPending
    ensures var log' := log + [FrameEvent(clock, child.owner, false)];
            LogSound(log', clock + 1) && LoadTime(log') == LoadTime(log) && FrameSound(child, log', clock + 1)
  {
    var document := child.state.document;
    NoLoadTime(document.log);
    LogEvent(log, clock, child.owner, false, LoadTime(document.log).value + 1);
    SoundLater(document, clock, clock + 1);
  }

  /** A ready child whose document was synced stays sound while its load is not announced. */
  lemma SyncedChildIsSound(log: seq<Entry>, clock: nat, now: nat, child: Frame, document: Document)
    requires LogSound(log, clock) && FrameSound(child, log, clock) && child.state.Ready? && clock <= now
    requires DocumentSound(document, now) && (child.state.loadDispatched ==> !document.loadPending)
    requires LoadTime(child.state.document.log).Some? ==> LoadTime(document.log) == LoadTime(child.state.document.log)
    ensures LogSound(log, now) && FrameSound(child.(state := Ready(document, child.state.loadDispatched)), log, now)
  {
    if child.state.loadDispatched {
      RecordsGrow(log, log, child.owner, false, LoadTime(document.log).value + 1, clock, now);
    }
  }

  /** A frame after its document, if it has one, was synced. */
  ghost predicate ReadyMoved(w: World, depth: nat, child: Frame, child': Frame, before: nat, after: nat) {
    match child.state
    case Ready(document, dispatched) =>
      && child'.state.Ready? && child' == child.(state := child'.state)
      && child'.state.loadDispatched == (dispatched || !child'.state.document.loadPending)
      && Synced(w, depth + 1, before, document, child'.state.document, after)
    case _ => child' == child && after == before
  }

  /** The log after a frame's document was synced and its load announced at the owner, once; both are sound. */
  ghost predicate ReadySound(log: seq<Entry>, clock: nat, child: Frame, child': Frame, log': seq<Entry>, clock': nat) {
    match child.state
    case Ready(_, dispatched) =>
      && LogSound(log', clock') && FrameSound(child', log', clock') && clock <= clock' && LoadTime(log') == LoadTime(log)
      && child'.state.Ready?
      && log' == if child'.state.loadDispatched && !dispatched
                 then log + [FrameEvent(clock' - 1, child.owner, false)] else log
    case _ => log' == log && clock' == clock
  }

  /** A ready child after its document was synced, its load announced now. */
  lemma AnnouncedNow(log: seq<Entry>, clock: nat, now: nat, child: Frame, document: Document)
    requires LogSound(log, clock) && child.born <= clock <= now && child.state.Ready? && !child.state.loadDispatched
    requires DocumentSound(document, now) && !document.loadPending
    ensures ReadySound(log, clock, child, child.(state := Ready(document, true)),
                       log + [FrameEvent(now, child.owner, false)], now + 1)
  {
    AnnouncedIsSound(log, now, child.(state := Ready(document, true)));
  }

  /** The same with nothing to announce. */
  lemma NotAnnounced(log: seq<Entry>, clock: nat, now: nat, child: Frame, document: Document)
    requires LogSound(log, clock) && FrameSound(child, log, clock) && child.state.Ready? && clock <= now
    requires DocumentSound(document, now) && (child.state.loadDispatched ==> !document.loadPending)
    requires LoadTime(child.state.document.log).Some? ==> LoadTime(document.log) == LoadTime(child.state.document.log)
    ensures ReadySound(log, clock, child, child.(state := Ready(document, child.state.loadDispatched)), log, now)
  {
    SyncedChildIsSound(log, clock, now, child, document);
  }

  /** A child whose load was announced stays loaded, and one whose document has loaded is to be announced. */
  lemma ReadyMoves(w: World, depth: nat, child: Frame, log: seq<Entry>, clock: nat, document: Document, before: nat,
                   after: nat, loaded: bool, child': Frame)
    requires child.state.Ready? && FrameSound(child, log, clock)
    requires Synced(w, depth + 1, before, child.state.document, document, after)
    requires loaded == (!child.state.loadDispatched && !document.loadPending)
    requires child' == child.(state := Ready(document, child.state.loadDispatched || loaded))
    ensures child.state.loadDispatched || loaded ==> !document.loadPending
    ensures ReadyMoved(w, depth, child, child', before, after)
  {}

  /** Syncs a ready child's own document, then announces its load at the owner, once. */
  method AdvanceReadyChild(w: World, log: seq<Entry>, clock: nat, child: Frame, depth: nat, remaining: nat)
    returns (child': Frame, log': seq<Entry>, clock': nat, remaining': nat, changed: bool)
    requires depth < MAX_DEPTH
    requires LogSound(log, clock) && FrameSound(child, log, clock)
    ensures ReadyMoved(w, depth, child, child', remaining, remaining')
    ensures ReadySound(log, clock, child, child', log', clock')
    ensures !changed ==> log' == log
    decreases MAX_DEPTH - depth, 0
  {
    if !child.state.Ready? {
      return child, log, clock, remaining, false;
    }
    var document, dispatched := child.state.document, child.state.loadDispatched;
    var document', now, left, synced := SyncChildFramesInner(w, document, clock, depth + 1, remaining);
    var loaded := !dispatched && !document'.loadPending;
    child' := child.(state := Ready(document', dispatched || loaded));
    ReadyMoves(w, depth, child, log, clock, document', remaining, left, loaded, child');
    log', clock', remaining', changed := log, now, left, w.repaints(document.page) || synced;
    if loaded {
      AnnouncedNow(log, clock, now, child, document');
      log', clock', changed := log + [FrameEvent(now, child.owner, false)], now + 1, true;
    } else {
      NotAnnounced(log, clock, now, child, document');
    }
  }

  predicate TookFirst(oldFrames: seq<Frame>, candidate: Candidate, child: Frame, rest: seq<Frame>) {
    exists i :: 0 <= i < |oldFrames| && child == oldFrames[i] && SameFrame(child, candidate)
                && rest == oldFrames[..i] + oldFrames[i + 1..]
                && forall k :: 0 <= k < i ==> !SameFrame(oldFrames[k], candidate)
  }

  predicate MadeNew(oldFrames: seq<Frame>, candidate: Candidate, clock: nat, child: Frame, rest: seq<Frame>) {
    && (forall k :: 0 <= k < |oldFrames| ==> !SameFrame(oldFrames[k], candidate))
    && rest == oldFrames && child == Frame(candidate.owner, candidate.source, candidate.policy, clock, Pending)
  }

  /** `child` is the frame taken for the candidate, or the new one made for it, moved on. */
  ghost predicate Continues(w: World, page: nat, i: nat, oldFrames: seq<Frame>, candidate: Candidate, clock: nat,
                            depth: nat, child: Frame, rest: seq<Frame>, before: nat, after: nat)
  {
    exists taken: Frame ::
      && child == taken.(state := child.state)
      && (TookFirst(oldFrames, candidate, taken, rest) || MadeNew(oldFrames, candidate, clock, taken, rest))
      && Moved(w, depth, taken.state, w.fetch(page, i), child.state, Spend(before), after)
  }

  lemma TakenIsSound(oldFrames: seq<Frame>, candidate: Candidate, child: Frame, rest: seq<Frame>, log: seq<Entry>,
                     clock: nat)
    requires FramesSound(oldFrames, log, clock)
    requires TookFirst(oldFrames, candidate, child, rest) || MadeNew(oldFrames, candidate, clock, child, rest)
    ensures FrameSound(child, log, clock) && FramesSound(rest, log, clock)
  {}

  /** The first old frame for the same element, source and policy, taken out of the list; else a new one. */
  method TakeReusableChild(oldFrames: seq<Frame>, candidate: Candidate, clock: nat)
    returns (child: Frame, rest: seq<Frame>)
    ensures SameFrame(child, candidate)
    ensures TookFirst(oldFrames, candidate, child, rest) || MadeNew(oldFrames, candidate, clock, child, rest)
  {
    var i := 0;
    while i < |oldFrames| && !SameFrame(oldFrames[i], candidate)
      invariant i <= |oldFrames| && forall k :: 0 <= k < i ==> !SameFrame(oldFrames[k], candidate)
    {
      i := i + 1;
    }
    if i < |oldFrames| {
      child, rest := oldFrames[i], oldFrames[..i] + oldFrames[i + 1..];
    } else {
      child, rest := Frame(candidate.owner, candidate.source, candidate.policy, clock, Pending), oldFrames;
    }
  }

  /** The entry tells what became of the frame: that its fetch failed, or that its document has loaded. */
  predicate TellsOf(e: Entry, f: Frame) {
    e.FrameEvent? && e.owner == f.owner && if e.isError then f.state.Failed? else f.state.Ready? && f.state.loadDispatched
  }

  lemma FetchedThenReady(w: World, depth: nat, frame: Frame, outcome: FetchOutcome, fetched: Frame, advanced: Frame,
                         before: nat, after: nat)
    requires fetched == frame.(state := NextState(frame.state, outcome))
    requires ReadyMoved(w, depth, fetched, advanced, before, after)
    ensures advanced == frame.(state := advanced.state)
    ensures Moved(w, depth, frame.state, outcome, advanced.state, before, after)
  {}

  /** What bringing one frame up to date leaves sound, and the one event it may log. */
  ghost predicate ChildSound(log: seq<Entry>, clock: nat, child: Frame, rest: seq<Frame>, log': seq<Entry>, clock': nat) {
    && LogSound(log', clock') && log <= log' && clock <= clock' && LoadTime(log') == LoadTime(log)
    && FramesSound(rest, log', clock') && FrameSound(child, log', clock')
    && (log' == log || (|log'| == |log| + 1 && TellsOf(log'[|log|], child)))
  }

  /** A candidate's frame has been brought up to date; it has none without a viewport. */
  ghost predicate Accepts(w: World, depth: nat, page: nat, i: nat, had: seq<Frame>, log: seq<Entry>, clock: nat,
                          remaining: nat, child: Option<Frame>, rest: seq<Frame>, log': seq<Entry>, clock': nat, left: nat)
    requires i < |w.found(page)|
  {
    match child
    case None => !w.hasViewport(page, i) && rest == had && log' == log && clock' == clock && left == remaining
    case Some(f) =>
      && w.hasViewport(page, i) && ChildSound(log, clock, f, rest, log', clock')
      && Continues(w, page, i, had, w.found(page)[i], clock, depth, f, rest, remaining, left)
  }

  lemma ChildStaysSound(log: seq<Entry>, clock: nat, frame: Frame, fetched: Frame, log1: seq<Entry>, clock1: nat,
                        advanced: Frame, log2: seq<Entry>, clock2: nat, rest: seq<Frame>)
    requires FramesSound(rest, log, clock) && clock <= clock1 && LogSound(log1, clock1) && FrameSound(fetched, log1, clock1)
    requires LoadTime(log1) == LoadTime(log) && fetched.owner == frame.owner
    requires log1 == if fetched.state.Failed? && !frame.state.Failed?
                     then log + [FrameEvent(clock, frame.owner, true)] else log
    requires ReadySound(log1, clock1, fetched, advanced, log2, clock2)
    requires advanced.owner == fetched.owner && (fetched.state.Ready? || advanced == fetched)
    ensures ChildSound(log, clock, advanced, rest, log2, clock2)
  {
    FramesSoundLater(rest, log, log2, clock, clock2);
  }

  lemma ChildContinues(w: World, page: nat, i: nat, depth: nat, oldFrames: seq<Frame>, candidate: Candidate, clock: nat,
                       frame: Frame, fetched: Frame, advanced: Frame, rest: seq<Frame>, remaining: nat, left: nat)
    requires TookFirst(oldFrames, candidate, frame, rest) || MadeNew(oldFrames, candidate, clock, frame, rest)
    requires fetched == frame.(state := NextState(frame.state, w.fetch(page, i)))
    requires ReadyMoved(w, depth, fetched, advanced, Spend(remaining), left)
    ensures Continues(w, page, i, oldFrames, candidate, clock, depth, advanced, rest, remaining, left)
  {
    FetchedThenReady(w, depth, frame, w.fetch(page, i), fetched, advanced, Spend(remaining), left);
  }

  /** Brings one candidate's frame up to date; none when the element has no viewport. */
  method UpdateChildFrame(w: World, page: nat, i: nat, log: seq<Entry>, clock: nat, oldFrames: seq<Frame>, depth: nat,
                          remaining: nat)
    returns (child: Option<Frame>, rest: seq<Frame>, log': seq<Entry>, clock': nat, remaining': nat, changed: bool)
    requires depth < MAX_DEPTH && i < |w.found(page)|
    requires LogSound(log, clock) && FramesSound(oldFrames, log, clock)
    ensures Accepts(w, depth, page, i, oldFrames, log, clock, remaining, child, rest, log', clock', remaining')
    ensures !changed ==> log' == log
    decreases MAX_DEPTH - depth, 1
  {
    var candidate := w.found(page)[i];
    if !w.hasViewport(page, i) {
      return None, oldFrames, log, clock, remaining, false;
    }
    var frame, others := TakeReusableChild(oldFrames, candidate, clock);
    TakenIsSound(oldFrames, candidate, frame, others, log, clock);
    var fetched, log1, clock1, changed1 := AdvanceChildFetch(log, clock, frame, w.fetch(page, i));
    var advanced, log2, clock2, left, changed2 := AdvanceReadyChild(w, log1, clock1, fetched, depth, Spend(remaining));
    ChildContinues(w, page, i, depth, oldFrames, candidate, clock, frame, fetched, advanced, others, remaining, left);
    ChildStaysSound(log, clock, frame, fetched, log1, clock1, advanced, log2, clock2, others);
    return Some(advanced), others, log2, clock2, left, changed1 || changed2;
  }

  /** Every old frame is still there to take, or an earlier candidate is for the same one; nothing else is there. */
  ghost predicate TakenBefore(oldFrames: seq<Frame>, rest: seq<Frame>, found: seq<Candidate>, i: nat)
    requires i <= |found|
  {
    && (forall k :: 0 <= k < |rest| ==> rest[k] in oldFrames)
    && forall k :: 0 <= k < |oldFrames| ==>
                     oldFrames[k] in rest || exists n :: 0 <= n < i && SameFrame(oldFrames[k], found[n])
  }

  lemma WithoutOne(had: seq<Frame>, n: nat, f: Frame)
    requires n < |had|
    ensures f in had[..n] + had[n + 1..] ==> f in had
    ensures f in had && f != had[n] ==> f in had[..n] + had[n + 1..]
  {
    assert had == had[..n] + [had[n]] + had[n + 1..];
  }

  lemma TakesFirst(oldFrames: seq<Frame>, had: seq<Frame>, found: seq<Candidate>, i: nat, taken: Frame, rest: seq<Frame>)
    requires i < |found| && TakenBefore(oldFrames, had, found, i) && TookFirst(had, found[i], taken, rest)
    ensures TakenBefore(oldFrames, rest, found, i + 1) && StartsFrom(taken, oldFrames, found, i)
  {
    var n: nat :| n < |had| && taken == had[n] && rest == had[..n] + had[n + 1..];
    forall k | 0 <= k < |rest| ensures rest[k] in oldFrames {
      WithoutOne(had, n, rest[k]);
      var m :| 0 <= m < |had| && had[m] == rest[k];
    }
    forall k | 0 <= k < |oldFrames|
      ensures oldFrames[k] in rest || exists n :: 0 <= n < i + 1 && SameFrame(oldFrames[k], found[n])
    {
      WithoutOne(had, n, oldFrames[k]);
      if oldFrames[k] !in had {
        var n :| 0 <= n < i && SameFrame(oldFrames[k], found[n]);
      } else if oldFrames[k] == taken {
        assert SameFrame(oldFrames[k], found[i]);
      }
    }
  }

  lemma TakesNew(oldFrames: seq<Frame>, had: seq<Frame>, found: seq<Candidate>, i: nat, clock: nat, taken: Frame,
                 rest: seq<Frame>)
    requires i < |found| && TakenBefore(oldFrames, had, found, i) && MadeNew(had, found[i], clock, taken, rest)
    ensures TakenBefore(oldFrames, rest, found, i + 1) && StartsFrom(taken, oldFrames, found, i)
  {
    forall k | 0 <= k < |oldFrames| && SameFrame(oldFrames[k], found[i]) ensures found[i] in found[..i] {
      assert oldFrames[k] !in had;
      var n :| 0 <= n < i && SameFrame(oldFrames[k], found[n]);
      assert found[n] == found[i] && found[..i][n] == found[n];
    }
  }

  lemma ContinuesMoves(w: World, page: nat, i: nat, depth: nat, oldFrames: seq<Frame>, had: seq<Frame>, clock: nat,
                       child: Frame, rest: seq<Frame>, before: nat, after: nat)
    requires i < |w.found(page)| && TakenBefore(oldFrames, had, w.found(page), i)
    requires Continues(w, page, i, had, w.found(page)[i], clock, depth, child, rest, before, after)
    ensures TakenBefore(oldFrames, rest, w.found(page), i + 1)
    ensures FrameMoved(w, depth, page, oldFrames, i, child, before, after)
  {
    var found := w.found(page);
    var taken: Frame :| child == taken.(state := child.state)
      && (TookFirst(had, found[i], taken, rest) || MadeNew(had, found[i], clock, taken, rest))
      && Moved(w, depth, taken.state, w.fetch(page, i), child.state, Spend(before), after);
    if TookFirst(had, found[i], taken, rest) {
      TakesFirst(oldFrames, had, found, i, taken, rest);
    } else {
      TakesNew(oldFrames, had, found, i, clock, taken, rest);
    }
  }

  /** Everything added to the log since `log` tells of one of the frames. */
  predicate AllTell(log: seq<Entry>, log': seq<Entry>, frames: seq<Frame>) {
    log <= log' && forall k :: |log| <= k < |log'| ==> Tells(log'[k], frames)
  }

  predicate Tells(e: Entry, frames: seq<Frame>) { exists j :: 0 <= j < |frames| && TellsOf(e, frames[j]) }

  lemma TellOne(log: seq<Entry>, mid: seq<Entry>, log': seq<Entry>, frames: seq<Frame>, f: Frame)
    requires AllTell(log, mid, frames) && mid <= log'
    requires log' == mid || (|log'| == |mid| + 1 && TellsOf(log'[|mid|], f))
    ensures AllTell(log, log', frames + [f])
  {
    var all := frames + [f];
    assert all[|frames|] == f;
    forall k | |log| <= k < |log'| ensures Tells(log'[k], all) {
      if k < |mid| {
        assert Tells(mid[k], frames);
        var j :| 0 <= j < |frames| && TellsOf(mid[k], frames[j]);
        assert TellsOf(log'[k], all[j]);
      }
    }
  }

  /** How far a sync has come: the old frames left, the new ones, the log, the clock, and the budget spent and left. */
  datatype Progress = Progress(had: seq<Frame>, next: seq<Frame>, log: seq<Entry>, clock: nat, budgets: seq<nat>, left: nat)

  /** The candidates before `i` have been brought up to date. */
  ghost predicate AcceptedUpTo(w: World, depth: nat, d: Document, i: nat, p: Progress, remaining: nat) {
    match p
    case Progress(had, next, log, clock, budgets, left) =>
      && i <= |w.found(d.page)| && TakenBefore(d.frames, had, w.found(d.page), i)
      && PlacedUpTo(w, depth, d.page, d.frames, next, i, budgets, remaining, left)
      && LogSound(log, clock) && LoadTime(log) == LoadTime(d.log) && AllTell(d.log, log, next)
      && FramesSound(had, log, clock) && FramesSound(next, log, clock)
  }

  lemma AcceptOne(w: World, depth: nat, d: Document, i: nat, p: Progress, remaining: nat, child: Frame, p': Progress)
    requires AcceptedUpTo(w, depth, d, i, p, remaining) && i < |w.found(d.page)|
    requires Accepts(w, depth, d.page, i, p.had, p.log, p.clock, p.left, Some(child), p'.had, p'.log, p'.clock, p'.left)
    requires p'.next == p.next + [child] && p'.budgets == p.budgets + [p'.left]
    ensures AcceptedUpTo(w, depth, d, i + 1, p', remaining)
  {
    FramesSoundLater(p.next, p.log, p'.log, p.clock, p'.clock);
    ContinuesMoves(w, d.page, i, depth, d.frames, p.had, p.clock, child, p'.had, p.left, p'.left);
    PlaceOne(w, depth, d.page, d.frames, p.next, i, p.budgets, remaining, p.left, child, p'.left);
    TellOne(d.log, p.log, p'.log, p.next, child);
  }

  lemma AcceptNone(w: World, depth: nat, d: Document, i: nat, p: Progress, remaining: nat)
    requires AcceptedUpTo(w, depth, d, i, p, remaining) && i < |w.found(d.page)|
    requires !w.hasViewport(d.page, i)
    ensures AcceptedUpTo(w, depth, d, i + 1, p, remaining)
  {
    PlaceNone(w, depth, d.page, d.frames, p.next, i, p.budgets, remaining, p.left);
    forall k | 0 <= k < |d.frames| && d.frames[k] !in p.had
      ensures exists n :: 0 <= n < i + 1 && SameFrame(d.frames[k], w.found(d.page)[n])
    {
      var n :| 0 <= n < i && SameFrame(d.frames[k], w.found(d.page)[n]);
    }
  }

  lemma NoneAccepted(w: World, depth: nat, d: Document, clock: nat, remaining: nat)
    requires DocumentSound(d, clock)
    ensures AcceptedUpTo(w, depth, d, 0, Progress(d.frames, [], d.log, clock, [remaining], remaining), remaining)
  {}

  /** Brings the accepted candidates' frames up to date, in order; those without a viewport are dropped. */
  method UpdateAccepted(w: World, d: Document, accepted: nat, clock: nat, depth: nat, remaining: nat)
    returns (next: seq<Frame>, log: seq<Entry>, clock': nat, remaining': nat, changed: bool,
             ghost budgets: seq<nat>)
    requires depth < MAX_DEPTH && accepted <= |w.found(d.page)| && DocumentSound(d, clock)
    ensures LogSound(log, clock') && d.log <= log && clock <= clock' && LoadTime(log) == LoadTime(d.log)
    ensures FramesSound(next, log, clock')
    ensures PlacedUpTo(w, depth, d.page, d.frames, next, accepted, budgets, remaining, remaining')
    ensures AllTell(d.log, log, next) && (!changed ==> log == d.log)
    decreases MAX_DEPTH - depth, 2
  {
    var had := d.frames;
    next, log, clock', remaining', changed := [], d.log, clock, remaining, false;
    budgets := [remaining];
    NoneAccepted(w, depth, d, clock, remaining);
    var i := 0;
    while i < accepted
      invariant i <= accepted && clock <= clock' && (!changed ==> log == d.log)
      invariant AcceptedUpTo(w, depth, d, i, Progress(had, next, log, clock', budgets, remaining'), remaining)
    {
      ghost var p := Progress(had, next, log, clock', budgets, remaining');
      var child, rest, log1, now, left, moved := UpdateChildFrame(w, d.page, i, log, clock', had, depth, remaining');
      had, log, clock', remaining' := rest, log1, now, left;
      if child.Some? {
        next, budgets := next + [child.value], budgets + [left];
        changed := changed || moved;
        AcceptOne(w, depth, d, i, p, remaining, child.value, Progress(had, next, log, clock', budgets, remaining'));
      } else {
        AcceptNone(w, depth, d, i, p, remaining);
      }
      i := i + 1;
    }
  }

  /** One `error` per candidate, in order, each with its own stamp. */
  function Errors(candidates: seq<Candidate>, clock: nat): seq<Entry> {
    seq(|candidates|, i requires 0 <= i < |candidates| => FrameEvent(clock + i, candidates[i].owner, true))
  }

  lemma ErrorsGrow(candidates: seq<Candidate>, i: nat, log: seq<Entry>, clock: nat)
    requires i < |candidates|
    ensures log + Errors(candidates[..i], clock) + [FrameEvent(clock + i, candidates[i].owner, true)]
            == log + Errors(candidates[..i + 1], clock)
  {}

  lemma EventKeepsSound(log: seq<Entry>, clock: nat, frames: seq<Frame>, owner: nat)
    requires LogSound(log, clock) && FramesSound(frames, log, clock)
    ensures var log' := log + [FrameEvent(clock, owner, true)];
            LogSound(log', clock + 1) && LoadTime(log') == LoadTime(log) && FramesSound(frames, log', clock + 1)
  {
    LogEvent(log, clock, owner, true, clock);
    FramesSoundLater(frames, log, log + [FrameEvent(clock, owner, true)], clock, clock + 1);
  }

  /** Candidates beyond the budget get an `error` each and no frame. */
  method RejectRest(candidates: seq<Candidate>, frames: seq<Frame>, log: seq<Entry>, clock: nat)
    returns (log': seq<Entry>, clock': nat)
    requires LogSound(log, clock) && FramesSound(frames, log, clock)
    ensures LogSound(log', clock') && LoadTime(log') == LoadTime(log) && FramesSound(frames, log', clock')
    ensures log' == log + Errors(candidates, clock) && clock' == clock + |candidates|
  {
    log', clock' := log, clock;
    var i := 0;
    while i < |candidates|
      invariant i <= |candidates| && clock' == clock + i
      invariant RejectedUpTo(candidates, i, frames, log, clock, log')
    {
      RejectOne(candidates, i, frames, log, clock, log');
      log', clock' := log' + [FrameEvent(clock', candidates[i].owner, true)], clock' + 1;
      i := i + 1;
    }
    assert candidates[..i] == candidates;
  }

  /** The first `i` candidates have been rejected: `log'` is the log with their errors, and is sound. */
  ghost predicate RejectedUpTo(candidates: seq<Candidate>, i: nat, frames: seq<Frame>, log: seq<Entry>, clock: nat,
                           log': seq<Entry>)
    requires i <= |candidates|
  {
    && log' == log + Errors(candidates[..i], clock)
    && LogSound(log', clock + i) && LoadTime(log') == LoadTime(log) && FramesSound(frames, log', clock + i)
  }

  lemma RejectOne(candidates: seq<Candidate>, i: nat, frames: seq<Frame>, log: seq<Entry>, clock: nat, log': seq<Entry>)
    requires i < |candidates| && RejectedUpTo(candidates, i, frames, log, clock, log')
    ensures RejectedUpTo(candidates, i + 1, frames, log, clock, log' + [FrameEvent(clock + i, candidates[i].owner, true)])
  {
    EventKeepsSound(log', clock + i, frames, candidates[i].owner);
    ErrorsGrow(candidates, i, log, clock);
  }

  /** The log grew by entries that tell of the frames, and then by one `error` for each rejected candidate. */
  predicate ToldThenRejected(log: seq<Entry>, log': seq<Entry>, frames: seq<Frame>, rejected: seq<Candidate>, clock: nat) {
    var own := |log'| - |rejected|;
    && |log| <= own && |rejected| <= clock
    && AllTell(log, log'[..own], frames) && log'[own..] == Errors(rejected, clock - |rejected|)
  }

  /** What a sync adds to the document's log: first entries that tell of its frames, then one `error` for each candidate
      beyond the budget, and last its load if it fires. */
  predicate LogsBudgetErrors(d: Document, d': Document, rejected: seq<Candidate>, clock': nat) {
    match d'
    case Document(_, pending', frames, log') =>
      if d.loadPending && !pending' then
        && |log'| > 0 && clock' > 0 && log'[|log'| - 1] == Load(clock' - 1, AllTracked(frames))
        && ToldThenRejected(d.log, log'[..|log'| - 1], frames, rejected, clock' - 1)
      else ToldThenRejected(d.log, log', frames, rejected, clock')
  }

  /** `placed` is the document with its frames taken in, where it takes any, and the rejected ones told of; `told` is
      the log before that. */
  ghost predicate TookIn(w: World, depth: nat, remaining: nat, d: Document, placed: Document, left: nat, told: seq<Entry>,
                         clock: nat)
  {
    match placed
    case Document(page, pending, frames, log) =>
      var rejected := Rejected(w, d, depth, remaining);
      && page == d.page && pending == d.loadPending && AllTell(d.log, told, frames)
      && |rejected| <= clock && log == told + Errors(rejected, clock - |rejected|)
      && if depth < MAX_DEPTH && remaining > 0 then exists budgets :: Placed(w, depth, remaining, d, placed, left, budgets)
         else frames == d.frames && left == remaining
  }

  lemma TakesNothingIn(w: World, depth: nat, remaining: nat, d: Document, clock: nat)
    requires depth == MAX_DEPTH || remaining == 0
    ensures TookIn(w, depth, remaining, d, d, remaining, d.log, clock)
  {
    assert d.log + Errors([], clock) == d.log;
  }

  lemma TakesIn(w: World, depth: nat, remaining: nat, d: Document, d': Document, left: nat, budgets: seq<nat>,
                told: seq<Entry>, clock: nat)
    requires depth < MAX_DEPTH && remaining > 0 && d'.page == d.page && d'.loadPending == d.loadPending
    requires PlacedUpTo(w, depth, d.page, d.frames, d'.frames, Accepted(w, d.page, remaining), budgets, remaining, left)
    requires AllTell(d.log, told, d'.frames)
    requires var rejected := w.found(d.page)[Accepted(w, d.page, remaining)..];
             |rejected| <= clock && d'.log == told + Errors(rejected, clock - |rejected|)
    ensures TookIn(w, depth, remaining, d, d', left, told, clock)
  {
    PlacedAll(w, depth, remaining, d, d', left, budgets);
  }

  lemma NewFramesAreSound(d: Document, clock: nat, d': Document, clock': nat)
    requires DocumentSound(d, clock) && d'.loadPending == d.loadPending
    requires LogSound(d'.log, clock') && LoadTime(d'.log) == LoadTime(d.log) && FramesSound(d'.frames, d'.log, clock')
    ensures DocumentSound(d', clock')
  {}

  /** Replaces a document's frames by those of the iframes found in it, above the depth limit and with budget left; those
      beyond the budget get their errors. The accepted count is fixed before the nested documents spend from the same
      budget. */
  method TakeInFrames(w: World, d: Document, clock: nat, depth: nat, remaining: nat)
    returns (d': Document, clock': nat, remaining': nat, changed: bool, ghost told: seq<Entry>)
    requires depth <= MAX_DEPTH && DocumentSound(d, clock)
    ensures DocumentSound(d', clock') && clock <= clock' && d.log <= d'.log && LoadTime(d'.log) == LoadTime(d.log)
    ensures TookIn(w, depth, remaining, d, d', remaining', told, clock')
    ensures !changed ==> d'.log == d.log
    decreases MAX_DEPTH - depth, 3
  {
    if depth == MAX_DEPTH || remaining == 0 {
      TakesNothingIn(w, depth, remaining, d, clock);
      return d, clock, remaining, false, d.log;
    }
    var candidates := w.found(d.page);
    var accepted := Min(|candidates|, remaining);
    var next, log, now, left, moved, budgets := UpdateAccepted(w, d, accepted, clock, depth, remaining);
    var log1, now1 := RejectRest(candidates[accepted..], next, log, now);
    clock', remaining' := now1, left;
    changed := moved || accepted < |candidates| || |next| != |d.frames|;
    d', told := Document(d.page, d.loadPending, next, log1), log;
    NewFramesAreSound(d, clock, d', clock');
    TakesIn(w, depth, remaining, d, d', left, budgets, told, clock');
  }

  /** Syncs a document's frames with the iframes found in it, then fires its load if everything has settled. */
  method SyncChildFramesInner(w: World, d: Document, clock: nat, depth: nat, remaining: nat)
    returns (d': Document, clock': nat, remaining': nat, changed: bool)
    requires depth <= MAX_DEPTH
    requires DocumentSound(d, clock)
    ensures DocumentSound(d', clock') && clock <= clock' && d.log <= d'.log
    ensures LoadTime(d.log).Some? ==> LoadTime(d'.log) == LoadTime(d.log)
    ensures Synced(w, depth, remaining, d, d', remaining')
    ensures LogsBudgetErrors(d, d', Rejected(w, d, depth, remaining), clock')
    ensures !changed ==> d'.log == d.log
    decreases MAX_DEPTH - depth, 4
  {
    var placed, until, left, moved, told := TakeInFrames(w, d, clock, depth, remaining);
    var settled, last, fired := DispatchInitialLoadWhenSettled(placed, until);
    SyncEnds(w, depth, remaining, d, placed, settled, left, told, until);
    TookInTold(w, depth, remaining, d, placed, left, told, until);
    LogsEnd(d, placed, settled, Rejected(w, d, depth, remaining), until, last, fired);
    d', clock', remaining', changed := settled, last, left, moved || fired;
  }

  /** The candidates a sync rejects: those beyond the budget, where it takes frames in at all. */
  function Rejected(w: World, d: Document, depth: nat, remaining: nat): seq<Candidate> {
    if depth < MAX_DEPTH && remaining > 0 then w.found(d.page)[Accepted(w, d.page, remaining)..] else []
  }

  lemma PlacedAll(w: World, depth: nat, remaining: nat, d: Document, d': Document, left: nat, budgets: seq<nat>)
    requires PlacedUpTo(w, depth, d.page, d.frames, d'.frames, Accepted(w, d.page, remaining), budgets, remaining, left)
    ensures Placed(w, depth, remaining, d, d', left, budgets)
  {}

  /** Firing the load, or not, completes the sync of a document whose frames were taken in. */
  lemma SyncEnds(w: World, depth: nat, remaining: nat, d: Document, placed: Document, d': Document, left: nat,
                 told: seq<Entry>, clock: nat)
    requires TookIn(w, depth, remaining, d, placed, left, told, clock)
    requires d'.frames == placed.frames && d'.page == placed.page && LoadedWhenSettled(placed, d')
    ensures Synced(w, depth, remaining, d, d', left)
  {
    if depth < MAX_DEPTH && remaining > 0 {
      var budgets :| Placed(w, depth, remaining, d, placed, left, budgets);
      assert Placed(w, depth, remaining, d, d', left, budgets);
    }
  }

  lemma ToldInParts(log: seq<Entry>, told: seq<Entry>, log': seq<Entry>, frames: seq<Frame>, rejected: seq<Candidate>,
                    clock: nat)
    requires AllTell(log, told, frames) && |rejected| <= clock && log' == told + Errors(rejected, clock - |rejected|)
    ensures ToldThenRejected(log, log', frames, rejected, clock)
  {
    assert log'[..|told|] == told;
  }

  lemma TookInTold(w: World, depth: nat, remaining: nat, d: Document, placed: Document, left: nat, told: seq<Entry>,
                   clock: nat)
    requires TookIn(w, depth, remaining, d, placed, left, told, clock)
    ensures ToldThenRejected(d.log, placed.log, placed.frames, Rejected(w, d, depth, remaining), clock)
    ensures placed.loadPending == d.loadPending
  {
    ToldInParts(d.log, told, placed.log, placed.frames, Rejected(w, d, depth, remaining), clock);
  }

  /** The load, if it fires, is the last entry, and fires only once. */
  lemma LogsEnd(d: Document, placed: Document, d': Document, rejected: seq<Candidate>, clock: nat, clock': nat, fired: bool)
    requires ToldThenRejected(d.log, placed.log, placed.frames, rejected, clock) && placed.loadPending == d.loadPending
    requires fired ==> placed.loadPending
    requires clock' == if fired then clock + 1 else clock
    requires d' == if fired
                   then Document(placed.page, false, placed.frames, placed.log + [Load(clock, AllTracked(placed.frames))])
                   else placed
    ensures LogsBudgetErrors(d, d', rejected, clock')
  {
    if fired { assert d'.log[..|d'.log| - 1] == placed.log; }
  }

  /** One call from the page's own turn, with the whole frame budget. */
  method SyncChildFrames(w: World, root: Document, clock: nat, depth: nat)
    returns (root': Document, clock': nat, changed: bool)
    requires depth <= MAX_DEPTH && DocumentSound(root, clock)
    ensures DocumentSound(root', clock') && clock <= clock' && root.log <= root'.log
    ensures LoadTime(root.log).Some? ==> LoadTime(root'.log) == LoadTime(root.log)
    ensures exists left :: Synced(w, depth, MAX_FRAMES, root, root', left)
    ensures LogsBudgetErrors(root, root', Rejected(w, root, depth, MAX_FRAMES), clock')
    ensures !changed ==> root'.log == root.log
  {
    var left;
    root', clock', left, changed := SyncChildFramesInner(w, root, clock, depth, MAX_FRAMES);
  }

  /** Any number of turns, each in its own surroundings, from a page that has just been built. */
  method SyncRepeatedly(page: nat, turns: seq<World>) returns (root: Document, clock: nat)
    ensures DocumentSound(root, clock)
  {
    root, clock := Document(page, true, [], []), 0;
    for i := 0 to |turns|
      invariant DocumentSound(root, clock)
    {
      var changed;
      root, clock, changed := SyncChildFrames(turns[i], root, clock, 0);
    }
  }

  // ---- which iframes hold a load back -----------------------------------------------------------------------------------

  /** Where a sync takes frames in, they are exactly those of the iframes that the budget reaches and that have a
      viewport, in document order: frame `j` is for iframe `at[j]`. */
  lemma FramesAreFirstVisible(w: World, depth: nat, remaining: nat, d: Document, d': Document, left: nat)
    returns (at: seq<nat>)
    requires Synced(w, depth, remaining, d, d', left) && depth < MAX_DEPTH && remaining > 0
    ensures |at| == |d'.frames| && forall m, n :: 0 <= m < n < |at| ==> at[m] < at[n]
    ensures forall i: nat :: i in at <==> i < |w.found(d.page)| && i < remaining && w.hasViewport(d.page, i)
    ensures forall j :: 0 <= j < |at| ==> at[j] < |w.found(d.page)| && SameFrame(d'.frames[j], w.found(d.page)[at[j]])
  {
    var budgets :| Placed(w, depth, remaining, d, d', left, budgets);
    at := Places(w, d.page, Accepted(w, d.page, remaining));
    PlacesAre(w, d.page, Accepted(w, d.page, remaining));
    forall j | 0 <= j < |at| ensures at[j] < |w.found(d.page)| && SameFrame(d'.frames[j], w.found(d.page)[at[j]]) {
      assert FrameMoved(w, depth, d.page, d.frames, at[j], d'.frames[j], budgets[j], budgets[j + 1]);
    }
  }

  lemma RejectedIsLogged(log: seq<Entry>, log': seq<Entry>, frames: seq<Frame>, rejected: seq<Candidate>, clock: nat, m: nat)
    requires ToldThenRejected(log, log', frames, rejected, clock) && m < |rejected|
    ensures var k := |log'| - |rejected| + m;
            |log| <= k && log'[k] == FrameEvent(clock - |rejected| + m, rejected[m].owner, true)
  {
    assert log'[|log'| - |rejected|..][m] == Errors(rejected, clock - |rejected|)[m];
  }

  /** Each iframe the budget does not reach gets an `error` in the sync. */
  lemma BeyondBudgetGetsError(w: World, d: Document, d': Document, depth: nat, remaining: nat, clock': nat, i: nat)
    returns (k: nat)
    requires LogsBudgetErrors(d, d', Rejected(w, d, depth, remaining), clock')
    requires depth < MAX_DEPTH && 0 < remaining <= i < |w.found(d.page)|
    ensures |d.log| <= k < |d'.log| && d'.log[k].FrameEvent? && d'.log[k].isError
    ensures d'.log[k].owner == w.found(d.page)[i].owner
  {
    var rejected := Rejected(w, d, depth, remaining);
    var fired := d.loadPending && !d'.loadPending;
    var log', now := if fired then d'.log[..|d'.log| - 1] else d'.log, if fired then clock' - 1 else clock';
    RejectedIsLogged(d.log, log', d'.frames, rejected, now, i - remaining);
    k := |log'| - |rejected| + (i - remaining);
  }

  /** While none of its frames has a document to sync, a document's sync spends one budget for each. */
  lemma BudgetSpentOnFrames(w: World, depth: nat, remaining: nat, d: Document, d': Document, left: nat)
    requires Synced(w, depth, remaining, d, d', left) && depth < MAX_DEPTH && remaining > 0
    requires forall j :: 0 <= j < |d'.frames| ==> !d'.frames[j].state.Ready?
    ensures |d'.frames| <= remaining && left == remaining - |d'.frames|
  {
    var budgets :| Placed(w, depth, remaining, d, d', left, budgets);
    var at := Places(w, d.page, Accepted(w, d.page, remaining));
    PlacesAre(w, d.page, Accepted(w, d.page, remaining));
    var j := 0;
    while j < |at|
      invariant j <= |at| <= remaining && budgets[j] == remaining - j
    {
      assert FrameMoved(w, depth, d.page, d.frames, at[j], d'.frames[j], budgets[j], budgets[j + 1]);
      j := j + 1;
    }
  }

  /** An iframe that the budget reaches and that has a viewport holds the load back, whether its frame is new or
      known, until its fetch breaks or brings a page. */
  lemma AcceptedFrameHoldsLoad(w: World, depth: nat, remaining: nat, d: Document, d': Document, left: nat, i: nat)
    requires Synced(w, depth, remaining, d, d', left) && depth < MAX_DEPTH
    requires i < |w.found(d.page)| && i < remaining && w.hasViewport(d.page, i)
    requires !w.fetch(d.page, i).Broken? && !w.fetch(d.page, i).PageBuilt?
    requires forall k :: 0 <= k < |d.frames| && SameFrame(d.frames[k], w.found(d.page)[i]) ==>
                           d.frames[k].state.Pending? || d.frames[k].state.Loading?
    ensures d'.loadPending == d.loadPending
    ensures exists j :: 0 <= j < |d'.frames| && SameFrame(d'.frames[j], w.found(d.page)[i]) && !FrameSettled(d'.frames[j])
  {
    var budgets :| Placed(w, depth, remaining, d, d', left, budgets);
    var at := Places(w, d.page, Accepted(w, d.page, remaining));
    PlacesAre(w, d.page, Accepted(w, d.page, remaining));
    assert i in at;
    var j :| 0 <= j < |at| && at[j] == i;
    assert FrameMoved(w, depth, d.page, d.frames, i, d'.frames[j], budgets[j], budgets[j + 1]);
    var start :| StartsFrom(start, d.frames, w.found(d.page), i) && d'.frames[j] == start.(state := d'.frames[j].state)
      && Moved(w, depth, start.state, w.fetch(d.page, i), d'.frames[j].state, Spend(budgets[j]), budgets[j + 1]);
    assert !FrameSettled(d'.frames[j]);
  }

  /** A tracked frame is settled once its fetch has failed or its load was announced, and not before. */
  lemma SettledIffTold(f: Frame, log: seq<Entry>, clock: nat)
    requires FrameSound(f, log, clock)
    ensures FrameSettled(f) <==> f.state.Failed? || (f.state.Ready? && f.state.loadDispatched)
  {}

  /** A pending load fires in a sync if and only if every frame the document has then failed or was announced, and it
      notes each of them: its iframe, when it was made, and when its own document loaded. */
  lemma LoadFiresOnceTold(w: World, depth: nat, remaining: nat, d: Document, d': Document, left: nat, clock': nat)
    requires Synced(w, depth, remaining, d, d', left) && DocumentSound(d', clock') && d.loadPending
    requires LogsBudgetErrors(d, d', Rejected(w, d, depth, remaining), clock')
    ensures !d'.loadPending <==> forall i :: 0 <= i < |d'.frames| ==>
              d'.frames[i].state.Failed? || (d'.frames[i].state.Ready? && d'.frames[i].state.loadDispatched)
    ensures !d'.loadPending ==>
              && |d'.log| > 0 && d'.log[|d'.log| - 1].Load? && |d'.log[|d'.log| - 1].tracked| == |d'.frames|
              && forall i :: 0 <= i < |d'.frames| ==>
                   var f, x := d'.frames[i], d'.log[|d'.log| - 1].tracked[i];
                   && x.owner == f.owner && x.born == f.born
                   && (f.state.Ready? ==> x.childLoad == LoadTime(f.state.document.log))
  {
    forall i | 0 <= i < |d'.frames|
      ensures FrameSettled(d'.frames[i])
              <==> d'.frames[i].state.Failed? || (d'.frames[i].state.Ready? && d'.frames[i].state.loadDispatched)
    {
      SettledIffTold(d'.frames[i], d'.log, clock');
    }
  }

  // ---- what this means at every depth -----------------------------------------------------------------------------------

  /** `d` is the document reached from `root` by following ready frames. */
  predicate IsWithin(root: Document, path: seq<nat>, d: Document)
    decreases |path|
  {
    if |path| == 0 then d == root
    else path[0] < |root.frames| && root.frames[path[0]].state.Ready?
         && IsWithin(root.frames[path[0]].state.document, path[1..], d)
  }

  /** Anywhere in a sound tree, a document's load has fired at most once, and if it fired, each frame it tracked then
      had already had an `error` at its owner, or its own document's load followed by a `load` at its owner. */
  lemma {:induction false} LoadOrderAtEveryDepth(root: Document, clock: nat, path: seq<nat>, d: Document)
    requires DocumentSound(root, clock) && IsWithin(root, path, d)
    ensures DocumentSound(d, clock)
    ensures forall i, j :: 0 <= i < |d.log| && 0 <= j < |d.log| && d.log[i].Load? && d.log[j].Load? ==> i == j
    ensures forall i, k :: 0 <= i < |d.log| && d.log[i].Load? && 0 <= k < |d.log[i].tracked| ==>
                             SettledBy(d.log[..i], d.log[i].at, d.log[i].tracked[k])
    decreases |path|
  {
    if |path| > 0 {
      assert FrameSound(root.frames[path[0]], root.log, clock);
      LoadOrderAtEveryDepth(root.frames[path[0]].state.document, clock, path[1..], d);
    } else {
      forall i, k | 0 <= i < |d.log| && d.log[i].Load? && 0 <= k < |d.log[i].tracked|
        ensures SettledBy(d.log[..i], d.log[i].at, d.log[i].tracked[k])
      {
        SettledEarlier(d.log, clock, i, d.log[i].tracked[k]);
      }
    }
  }

  /** What settled by a load's time is logged before it. */
  lemma SettledEarlier(log: seq<Entry>, clock: nat, i: nat, x: Tracked)
    requires InOrder(log, clock) && i < |log| && SettledBy(log, log[i].at, x)
    ensures SettledBy(log[..i], log[i].at, x)
  {}

  /** A child whose load was announced at its owner loaded before the announcement. */
  lemma ChildLoadsFirst(d: Document, clock: nat, i: nat)
    requires DocumentSound(d, clock) && i < |d.frames|
    requires d.frames[i].state.Ready? && d.frames[i].state.loadDispatched
    ensures var child := d.frames[i].state.document;
            && LoadTime(child.log).Some?
            && Records(d.log, d.frames[i].owner, false, LoadTime(child.log).value + 1, clock)
  {}
}
