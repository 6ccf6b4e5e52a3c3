/** Runs of the worker actor with its fetches: no stale commit, and the per-view event grammar. */
module EngineRuns {
  import opened Geometry
  import opened EngineWorker

  /** A fetch that was spawned and has not reported back; `startedAt` is the input that spawned it. */
  datatype Fetch = Fetch(spawn: Spawn, startedAt: nat)

  /** The actor, the fetches in flight, and how many inputs it has handled. */
  datatype System = System(worker: Worker, fetches: seq<Fetch>, handled: nat, status: ActorStatus)

  /** What reaches the actor's queue: a command, the report of any fetch in flight, or the end of the commands. */
  datatype Input =
    | Cmd(command: Command)
    | Done(fetch: nat, result: NavigationResult)
    | CommandsClosed
    | CommandsFailed

  const INITIAL: System := System(Worker([], 0), [], 0, Running)

  predicate Enabled(s: System, input: Input) {
    s.status == Running && (input.Done? ==> input.fetch < |s.fetches|)
  }

  function Handle(s: System, limit: nat, input: Input): Reply
    requires Enabled(s, input)
  {
    match input
    case Cmd(command) => HandleCommand(s.worker, limit, command)
    case Done(fetch, result) => HandleCompletion(s.worker, s.fetches[fetch].spawn, result)
    case CommandsClosed => Reply(s.worker, [], None, Finished)
    case CommandsFailed => Reply(s.worker, [], None, Errored)
  }

  function Next(s: System, limit: nat, input: Input): System
    requires Enabled(s, input)
  {
    var reply := Handle(s, limit, input);
    var left := if input.Done? then s.fetches[..input.fetch] + s.fetches[input.fetch + 1..] else s.fetches;
    System(reply.worker,
           if reply.spawned.Some? then left + [Fetch(reply.spawned.value, s.handled)] else left,
           s.handled + 1, reply.status)
  }

  /** The system after a history of inputs; none when the history asks for something that cannot happen. */
  function After(limit: nat, h: seq<Input>): Option<System> {
    if |h| == 0 then Some(INITIAL)
    else
      var s := After(limit, h[..|h| - 1]);
      if s.Some? && Enabled(s.value, h[|h| - 1]) then Some(Next(s.value, limit, h[|h| - 1])) else None
  }

  /** The events written over a history that can happen. */
  function Trace(limit: nat, h: seq<Input>): seq<Event> {
    if |h| == 0 || After(limit, h).None? then []
    else
      var s := After(limit, h[..|h| - 1]).value;
      Trace(limit, h[..|h| - 1]) + Handle(s, limit, h[|h| - 1]).events
  }

  // ---- no stale commit ------------------------------------------------------------------------------------------

  /** Since input `from` the user has stopped or closed `view`. It mentions no generation and no view table. */
  predicate CancelledSince(h: seq<Input>, from: nat, view: ViewId) {
    exists j :: from < j < |h| && (h[j] == Cmd(Stop(view)) || h[j] == Cmd(CloseView(view)))
  }

  /** The view's active navigation is the one this spawn started. */
  predicate Awaits(w: Worker, spawn: Spawn) {
    var view := Lookup(w.views, spawn.view);
    view.Some? && view.value.active == Some(spawn.generation)
  }

  /** A view that waits for a navigation waits for the only fetch in flight. */
  predicate WaitsForOnlyFetch(id: ViewId, view: Option<View>, fetches: seq<Fetch>) {
    view.Some? && view.value.active.Some? ==>
      |fetches| == 1 && fetches[0].spawn.view == id && fetches[0].spawn.generation == view.value.active.value
  }

  predicate Waits(s: System, id: ViewId) { WaitsForOnlyFetch(id, Lookup(s.worker.views, id), s.fetches) }

  predicate GateCounts(s: System) { Distinct(s.worker.views) && s.worker.inflight == |s.fetches| <= 1 }

  /** With a gate of one, the counter is the number of fetches, and every waiting view waits for the only one. */
  ghost predicate GateInvariant(s: System) {
    GateCounts(s) && forall id :: Waits(s, id)
  }

  lemma GateStepCommand(s: System, command: Command, id: ViewId)
    requires GateCounts(s) && Waits(s, id) && Enabled(s, Cmd(command))
    ensures GateCounts(Next(s, MAX_INFLIGHT, Cmd(command))) && Waits(Next(s, MAX_INFLIGHT, Cmd(command)), id)
  {
    CommandPerView(s.worker, MAX_INFLIGHT, command, id);
  }

  lemma GateStepDone(s: System, fetch: nat, result: NavigationResult, id: ViewId)
    requires GateCounts(s) && Waits(s, id) && Enabled(s, Done(fetch, result))
    ensures GateCounts(Next(s, MAX_INFLIGHT, Done(fetch, result))) && Waits(Next(s, MAX_INFLIGHT, Done(fetch, result)), id)
  {
    CompletionPerView(s.worker, s.fetches[fetch].spawn, result, id);
  }

  lemma GateStepFor(s: System, input: Input, id: ViewId)
    requires GateCounts(s) && Waits(s, id) && Enabled(s, input)
    ensures GateCounts(Next(s, MAX_INFLIGHT, input)) && Waits(Next(s, MAX_INFLIGHT, input), id)
  {
    match input
    case Cmd(command) => GateStepCommand(s, command, id);
    case Done(fetch, result) => GateStepDone(s, fetch, result, id);
    case _ =>
  }

  lemma GateStep(s: System, input: Input)
    requires GateInvariant(s) && Enabled(s, input)
    ensures GateInvariant(Next(s, MAX_INFLIGHT, input))
  {
    var next := Next(s, MAX_INFLIGHT, input);
    if !GateInvariant(next) {
      var id :| !GateCounts(next) || !Waits(next, id);
      GateStepFor(s, input, id);
    }
  }

  lemma {:induction false} GateHolds(h: seq<Input>)
    requires After(MAX_INFLIGHT, h).Some?
    ensures GateInvariant(After(MAX_INFLIGHT, h).value) && After(MAX_INFLIGHT, h).value.handled == |h|
  {
    if |h| > 0 {
      GateHolds(h[..|h| - 1]);
      GateStep(After(MAX_INFLIGHT, h[..|h| - 1]).value, h[|h| - 1]);
    }
  }

  /** A closed gate spawns nothing, and only stopping or closing the awaiting view ends its wait. */
  lemma WaitAfterCommand(s: System, command: Command)
    requires GateInvariant(s) && |s.fetches| == 1
    requires HandleCommand(s.worker, MAX_INFLIGHT, command).status == Running
    ensures HandleCommand(s.worker, MAX_INFLIGHT, command).spawned.None?
    ensures var spawn := s.fetches[0].spawn;
            Awaits(HandleCommand(s.worker, MAX_INFLIGHT, command).worker, spawn)
            <==> Awaits(s.worker, spawn) && command != Stop(spawn.view) && command != CloseView(spawn.view)
  {
    CommandPerView(s.worker, MAX_INFLIGHT, command, s.fetches[0].spawn.view);
  }

  lemma WaitAfterStart(s: System, command: Command)
    requires GateInvariant(s) && |s.fetches| == 0
    requires HandleCommand(s.worker, MAX_INFLIGHT, command).spawned.Some?
    ensures var reply := HandleCommand(s.worker, MAX_INFLIGHT, command);
            Awaits(reply.worker, reply.spawned.value)
  {
    var view := HandleCommand(s.worker, MAX_INFLIGHT, command).spawned.value.view;
    CommandPerView(s.worker, MAX_INFLIGHT, command, view);
  }

  /** In every reachable state the outstanding fetch is awaited by its view exactly when that view has been
      neither stopped nor closed since the fetch was started. */
  lemma {:induction false} AwaitedIffNotCancelled(h: seq<Input>)
    requires After(MAX_INFLIGHT, h).Some? && After(MAX_INFLIGHT, h).value.status == Running
    requires |After(MAX_INFLIGHT, h).value.fetches| == 1
    ensures var s := After(MAX_INFLIGHT, h).value;
            var fetch := s.fetches[0];
            && fetch.startedAt < |h|
            && (Awaits(s.worker, fetch.spawn) <==> !CancelledSince(h, fetch.startedAt, fetch.spawn.view))
  {
    var past, last := h[..|h| - 1], h[|h| - 1];
    var before := After(MAX_INFLIGHT, past).value;
    GateHolds(past);
    if |before.fetches| == 0 {
      WaitAfterStart(before, last.command);
    } else {
      AwaitedIffNotCancelled(past);
      WaitAfterCommand(before, last.command);
      CancelledGrows(h, before.fetches[0].startedAt, before.fetches[0].spawn.view);
    }
  }

  lemma CancelledGrows(h: seq<Input>, from: nat, view: ViewId)
    requires from < |h| - 1
    ensures CancelledSince(h, from, view) <==>
            CancelledSince(h[..|h| - 1], from, view)
            || h[|h| - 1] == Cmd(Stop(view)) || h[|h| - 1] == Cmd(CloseView(view))
  {}

  /** `after` is `before` with its navigation over: the page it shows now is `page`, and nothing else of it changed. */
  predicate RestsOn(before: View, after: View, page: Option<string>) {
    && after.active == None && after.page == page
    && after.requestedUrl == before.requestedUrl && after.generation == before.generation
  }

  /** A fetch that reports back installs its page and is announced if and only if its view was neither stopped nor
      closed since the fetch began, even when the view id has been closed, recreated and its generation restarted.
      A failed fetch keeps the page of before, and a failed build leaves none. */
  lemma NoStaleCommit(h: seq<Input>, result: NavigationResult)
    requires After(MAX_INFLIGHT, h).Some?
    requires Enabled(After(MAX_INFLIGHT, h).value, Done(0, result))
    ensures var s := After(MAX_INFLIGHT, h).value;
            var after := Next(s, MAX_INFLIGHT, Done(0, result));
            var view := s.fetches[0].spawn.view;
            var was, now := Lookup(s.worker.views, view), Lookup(after.worker.views, view);
            var written := Handle(s, MAX_INFLIGHT, Done(0, result)).events;
            && Trace(MAX_INFLIGHT, h + [Done(0, result)]) == Trace(MAX_INFLIGHT, h) + written
            && after.fetches == []
            && (CancelledSince(h, s.fetches[0].startedAt, view) ==>
                  written == [] && after.worker.views == s.worker.views)
            && (!CancelledSince(h, s.fetches[0].startedAt, view) ==>
                  && was.Some? && now.Some?
                  && (forall id :: id != view ==> Lookup(after.worker.views, id) == Lookup(s.worker.views, id))
                  && match result
                     case Built(url) =>
                       && RestsOn(was.value, now.value, Some(url))
                       && written == [UrlChanged(view, url), LoadStateChanged(view, Committed),
                                      LoadStateChanged(view, Interactive), LoadStateChanged(view, Complete)]
                     case FetchFailed(error) =>
                       && RestsOn(was.value, now.value, was.value.page)
                       && written == [LoadStateChanged(view, Failed), StatusChanged(view, error)]
                     case BuildFailed(_, message) =>
                       && RestsOn(was.value, now.value, None)
                       && written == [LoadStateChanged(view, Failed), StatusChanged(view, message)])
  {
    var s := After(MAX_INFLIGHT, h).value;
    GateHolds(h);
    AwaitedIffNotCancelled(h);
    forall id { CompletionPerView(s.worker, s.fetches[0].spawn, result, id); }
    var next := h + [Done(0, result)];
    assert next[..|next| - 1] == h;
    assert After(MAX_INFLIGHT, next) == Some(Next(s, MAX_INFLIGHT, Done(0, result)));
  }

  lemma AfterOneMore(limit: nat, h: seq<Input>, s: System, input: Input)
    requires After(limit, h) == Some(s) && Enabled(s, input)
    ensures After(limit, h + [input]) == Some(Next(s, limit, input))
  {}

  const UNUSED: View := View(None, 0, None, None)

  lemma OpenNext(s: System)
    requires s.status == Running && s.worker.views == []
    ensures Next(s, 2, Cmd(CreateView(1)))
         == System(Worker([Slot(1, UNUSED)], s.worker.inflight), s.fetches, s.handled + 1, Running)
  {}

  lemma NavigateNext(s: System, url: string)
    requires s.status == Running && s.worker.views == [Slot(1, UNUSED)] && s.worker.inflight < 2
    ensures Next(s, 2, Cmd(Navigate(1, url)))
         == System(Worker([Slot(1, View(Some(url), 1, Some(1), None))], s.worker.inflight + 1),
                   s.fetches + [Fetch(Spawn(1, 1, url), s.handled)], s.handled + 1, Running)
  {}

  /** Opening view 1 and navigating it always starts generation 1. */
  lemma OpenAndNavigate(h: seq<Input>, s: System, url: string) returns (h': seq<Input>, s': System)
    requires After(2, h) == Some(s) && s.status == Running
    requires s.worker.views == [] && s.worker.inflight == |s.fetches| < 2
    ensures h' == h + [Cmd(CreateView(1))] + [Cmd(Navigate(1, url))] && After(2, h') == Some(s')
    ensures s' == System(Worker([Slot(1, View(Some(url), 1, Some(1), None))], |s.fetches| + 1),
                         s.fetches + [Fetch(Spawn(1, 1, url), s.handled + 1)], s.handled + 2, Running)
  {
    OpenNext(s);
    AfterOneMore(2, h, s, Cmd(CreateView(1)));
    var created := Next(s, 2, Cmd(CreateView(1)));
    NavigateNext(created, url);
    AfterOneMore(2, h + [Cmd(CreateView(1))], created, Cmd(Navigate(1, url)));
    h' := h + [Cmd(CreateView(1))] + [Cmd(Navigate(1, url))];
    s' := Next(created, 2, Cmd(Navigate(1, url)));
  }

  /** The gate is what makes this true. A worker that admitted two fetches would commit a closed view's page into
      the view that reused its id, because the recreated view's generation starts over. */
  lemma GateOfTwoCommitsStale() returns (h: seq<Input>, s: System)
    ensures After(2, h) == Some(s) && |s.fetches| == 2 && s.status == Running
    ensures s.fetches[0].spawn.view == 1 && CancelledSince(h, s.fetches[0].startedAt, 1)
    ensures HandleCompletion(s.worker, s.fetches[0].spawn, Built("stale")).events == Outcome(1, Built("stale"))
  {
    h, s := OpenAndNavigate([], INITIAL, "stale");
    AfterOneMore(2, h, s, Cmd(CloseView(1)));
    assert SwapRemove(s.worker.views, 0) == [];
    h, s := h + [Cmd(CloseView(1))], System(Worker([], 1), s.fetches, 3, Running);
    var closed := |h| - 1;
    h, s := OpenAndNavigate(h, s, "new");
    assert h[closed] == Cmd(CloseView(1));
  }

  // ---- the event grammar of one view ------------------------------------------------------------------------------

  /** Where one view's event stream stands. `Broken` is the phase no later event leaves. */
  datatype Phase = Absent | Quiet | Loading | HasUrl | HasCommitted | HasInteractive | HasFailed | HasStopped | Broken

  /** The grammar: created and closed alternate; each `Started` is followed by exactly one of the four-event commit,
      a failure with its status, or a stop with its status, before anything else but a busy notice. */
  function Advance(p: Phase, e: Event): Phase {
    match (p, e)
    case (Absent, ViewCreated(_)) => Quiet
    case (Absent, Crashed(_)) => Absent
    case (Quiet, ViewClosed(_)) => Absent
    case (Loading, ViewClosed(_)) => Absent
    case (Quiet, Crashed(_)) => Quiet
    case (Loading, Crashed(_)) => Loading
    case (Quiet, StatusChanged(_, _)) => Quiet
    case (Loading, StatusChanged(_, _)) => Loading
    case (Quiet, LoadStateChanged(_, Started)) => Loading
    case (Loading, UrlChanged(_, _)) => HasUrl
    case (HasUrl, LoadStateChanged(_, Committed)) => HasCommitted
    case (HasCommitted, LoadStateChanged(_, Interactive)) => HasInteractive
    case (HasInteractive, LoadStateChanged(_, Complete)) => Quiet
    case (Loading, LoadStateChanged(_, Failed)) => HasFailed
    case (HasFailed, StatusChanged(_, _)) => Quiet
    case (Loading, LoadStateChanged(_, Idle)) => HasStopped
    case (HasStopped, StatusChanged(_, _)) => Quiet
    case _ => Broken
  }

  function Hear(p: Phase, e: Event, id: ViewId): Phase { if e.view == id then Advance(p, e) else p }

  function PhaseFrom(p: Phase, events: seq<Event>, id: ViewId): Phase {
    if |events| == 0 then p
    else Hear(PhaseFrom(p, events[..|events| - 1], id), events[|events| - 1], id)
  }

  lemma {:induction false} PhaseAppend(p: Phase, a: seq<Event>, b: seq<Event>, id: ViewId)
    ensures PhaseFrom(p, a + b, id) == PhaseFrom(PhaseFrom(p, a, id), b, id)
  {
    if |b| == 0 {
      assert a + b == a;
    } else {
      assert (a + b)[..|a + b| - 1] == a + b[..|b| - 1];
      PhaseAppend(p, a, b[..|b| - 1], id);
    }
  }

  /** An actor that dies while writing leaves a prefix; a stream that obeys the grammar does so at every prefix. */
  lemma {:induction false} PrefixObeysGrammar(events: seq<Event>, k: nat, id: ViewId)
    requires k <= |events|
    requires PhaseFrom(Absent, events, id) != Broken
    ensures PhaseFrom(Absent, events[..k], id) != Broken
  {
    if k < |events| {
      var past := events[..|events| - 1];
      PrefixObeysGrammar(past, k, id);
      assert past[..k] == events[..k];
    } else {
      assert events[..k] == events;
    }
  }

  /** The phase a view entry stands for. */
  function PhaseOf(view: Option<View>): Phase {
    if view.None? then Absent else if view.value.active.Some? then Loading else Quiet
  }

  lemma PhaseOfOne(p: Phase, e: Event, id: ViewId)
    ensures PhaseFrom(p, [e], id) == Hear(p, e, id)
  {}

  lemma PhaseOfTwo(p: Phase, d: Event, e: Event, id: ViewId)
    ensures PhaseFrom(p, [d, e], id) == Hear(Hear(p, d, id), e, id)
  {
    PhaseAppend(p, [d], [e], id);
    assert [d] + [e] == [d, e];
    PhaseOfOne(p, d, id);
    PhaseOfOne(Hear(p, d, id), e, id);
  }

  /** An observed navigation takes a waiting view to rest, and no other view hears of it. */
  lemma PhaseOfOutcome(p: Phase, view: ViewId, result: NavigationResult, id: ViewId)
    requires view == id ==> p == Loading
    ensures PhaseFrom(p, Outcome(view, result), id) == if view == id then Quiet else p
  {
    var events := Outcome(view, result);
    if result.Built? {
      var a, b := [events[0], events[1]], [events[2], events[3]];
      assert a + b == events;
      PhaseAppend(p, a, b, id);
      PhaseOfTwo(p, a[0], a[1], id);
      PhaseOfTwo(PhaseFrom(p, a, id), b[0], b[1], id);
    } else {
      PhaseOfTwo(p, events[0], events[1], id);
    }
  }

  lemma {:induction false} PhaseOfClosings(views: seq<Slot>, id: ViewId, p: Phase)
    requires Distinct(views)
    requires p == PhaseOf(Lookup(views, id))
    ensures PhaseFrom(p, Closings(views), id) == Absent
  {
    PhaseThroughClosings(views, id, p);
  }

  lemma {:induction false} PhaseThroughClosings(views: seq<Slot>, id: ViewId, p: Phase)
    requires Distinct(views)
    ensures PhaseFrom(p, Closings(views), id)
         == if Find(views, id).None? then p else Advance(p, ViewClosed(id))
  {
    if |views| > 0 {
      var rest, last := views[..|views| - 1], views[|views| - 1];
      PhaseThroughClosings(rest, id, p);
      assert Closings(views)[..|Closings(views)| - 1] == Closings(rest);
      var i, k := Find(views, id), Find(rest, id);
      if k.Some? { assert views[k.value].id == id; }
      if i.Some? && i.value < |rest| { assert rest[i.value].id == id; }
    }
  }

  lemma SortKeepsLookup(views: seq<Slot>, id: ViewId)
    requires Distinct(views)
    ensures Distinct(SortById(views)) && Lookup(SortById(views), id) == Lookup(views, id)
  {
    var sorted := SortById(views);
    SortIsSorted(views);
    var i, k := Find(views, id), Find(sorted, id);
    if i.Some? {
      SortMembers(views, views[i.value]);
      var j :| 0 <= j < |sorted| && sorted[j] == views[i.value];
      LookupAt(sorted, j);
    }
    if k.Some? { SortMembers(views, sorted[k.value]); }
  }

  lemma ShutdownObeysGrammar(w: Worker, id: ViewId)
    requires Distinct(w.views)
    ensures PhaseFrom(PhaseOf(Lookup(w.views, id)), Closings(SortById(w.views)), id) == Absent
  {
    SortKeepsLookup(w.views, id);
    PhaseOfClosings(SortById(w.views), id, PhaseOf(Lookup(w.views, id)));
  }

  /** The events of a reply move the view's phase as the reply moves the view's entry. */
  predicate Obeys(w: Worker, reply: Reply, id: ViewId) {
    PhaseFrom(PhaseOf(Lookup(w.views, id)), reply.events, id) == PhaseOf(Lookup(reply.worker.views, id))
  }

  lemma StopObeysGrammar(w: Worker, view: ViewId, id: ViewId)
    requires Distinct(w.views)
    ensures Obeys(w, HandleCommand(w, MAX_INFLIGHT, Stop(view)), id)
  {
    var p := PhaseOf(Lookup(w.views, id));
    var events := HandleCommand(w, MAX_INFLIGHT, Stop(view)).events;
    CommandPerView(w, MAX_INFLIGHT, Stop(view), id);
    if |events| == 2 {
      PhaseOfTwo(p, events[0], events[1], id);
    } else if |events| == 1 {
      PhaseOfOne(p, events[0], id);
    }
  }

  lemma StartObeysGrammar(s: System, view: ViewId, url: string, id: ViewId)
    requires GateInvariant(s)
    ensures Obeys(s.worker, StartNavigation(s.worker, MAX_INFLIGHT, view, url), id)
  {
    assert Waits(s, id);
    StartPerView(s.worker, MAX_INFLIGHT, view, url, id);
    PhaseOfOne(PhaseOf(Lookup(s.worker.views, id)), StartNavigation(s.worker, MAX_INFLIGHT, view, url).events[0], id);
  }

  lemma OpenOrCloseObeysGrammar(w: Worker, command: Command, id: ViewId)
    requires Distinct(w.views) && (command.CreateView? || command.CloseView?)
    ensures Obeys(w, HandleCommand(w, MAX_INFLIGHT, command), id)
  {
    CommandPerView(w, MAX_INFLIGHT, command, id);
    PhaseOfOne(PhaseOf(Lookup(w.views, id)), HandleCommand(w, MAX_INFLIGHT, command).events[0], id);
  }

  lemma ReloadObeysGrammar(s: System, view: ViewId, id: ViewId)
    requires GateInvariant(s)
    ensures Obeys(s.worker, HandleCommand(s.worker, MAX_INFLIGHT, Reload(view)), id)
  {
    var before := Lookup(s.worker.views, view);
    if before.Some? && ReloadUrl(before.value).Some? {
      StartObeysGrammar(s, view, ReloadUrl(before.value).value, id);
    } else {
      PhaseOfOne(PhaseOf(Lookup(s.worker.views, id)), Crashed(view), id);
    }
  }

  lemma CloseAllObeysGrammar(w: Worker, id: ViewId)
    requires Distinct(w.views)
    ensures Obeys(w, HandleCommand(w, MAX_INFLIGHT, Shutdown), id)
  {
    ShutdownObeysGrammar(w, id);
  }

  lemma UnsupportedObeysGrammar(w: Worker, id: ViewId)
    ensures Obeys(w, HandleCommand(w, MAX_INFLIGHT, Unsupported), id)
  {}

  /** One command moves each view's phase as it moves the view's entry. A busy gate is what keeps a second `Started`
      out of a waiting view's stream. */
  lemma CommandObeysGrammar(s: System, command: Command, id: ViewId)
    requires GateInvariant(s)
    ensures Obeys(s.worker, HandleCommand(s.worker, MAX_INFLIGHT, command), id)
  {
    match command
    case Shutdown => CloseAllObeysGrammar(s.worker, id);
    case Stop(view) => StopObeysGrammar(s.worker, view, id);
    case Navigate(view, url) => StartObeysGrammar(s, view, url, id);
    case Reload(view) => ReloadObeysGrammar(s, view, id);
    case Unsupported => UnsupportedObeysGrammar(s.worker, id);
    case _ => OpenOrCloseObeysGrammar(s.worker, command, id);
  }

  lemma CompletionObeysGrammar(w: Worker, spawn: Spawn, result: NavigationResult, id: ViewId)
    requires Distinct(w.views)
    ensures Obeys(w, HandleCompletion(w, spawn, result), id)
  {
    CompletionPerView(w, spawn, result, id);
    if Awaits(w, spawn) {
      PhaseOfOutcome(PhaseOf(Lookup(w.views, id)), spawn.view, result, id);
    }
  }

  /** Over every run, the events written for each view obey the grammar, and the stream's phase is the view's state:
      absent, at rest, or waiting for its one fetch. */
  lemma {:induction false} EventsObeyGrammar(h: seq<Input>, id: ViewId)
    requires After(MAX_INFLIGHT, h).Some?
    ensures PhaseFrom(Absent, Trace(MAX_INFLIGHT, h), id)
         == PhaseOf(Lookup(After(MAX_INFLIGHT, h).value.worker.views, id))
    ensures PhaseFrom(Absent, Trace(MAX_INFLIGHT, h), id) in {Absent, Quiet, Loading}
  {
    if |h| > 0 {
      var past, last := h[..|h| - 1], h[|h| - 1];
      var s := After(MAX_INFLIGHT, past).value;
      EventsObeyGrammar(past, id);
      GateHolds(past);
      var events := Handle(s, MAX_INFLIGHT, last).events;
      PhaseAppend(Absent, Trace(MAX_INFLIGHT, past), events, id);
      match last
      case Cmd(command) => CommandObeysGrammar(s, command, id);
      case Done(fetch, result) => CompletionObeysGrammar(s.worker, s.fetches[fetch].spawn, result, id);
      case _ =>
    }
  }
}
