/** What a running worker's views hold and how it answers, told by the history of its inputs alone. */
module EngineHistory {
  import opened Geometry
  import opened EngineWorker
  import opened EngineRuns

  /** Something an input can be, given the history before it. */
  type Occasion = (seq<Input>, Input) -> bool

  /** `made` was the case at some input, and `undone` at none after it. */
  ghost predicate Stands(h: seq<Input>, made: Occasion, undone: Occasion) {
    exists j :: 0 <= j < |h| && made(h[..j], h[j]) && forall k :: j < k < |h| ==> !undone(h[..k], h[k])
  }

  lemma StandsGrows(h: seq<Input>, made: Occasion, undone: Occasion)
    requires |h| > 0
    ensures var past, last := h[..|h| - 1], h[|h| - 1];
            Stands(h, made, undone) <==> made(past, last) || (Stands(past, made, undone) && !undone(past, last))
  {
    var past, last := h[..|h| - 1], |h| - 1;
    assert forall j :: 0 <= j <= last ==> past[..j] == h[..j];
    if made(past, h[last]) {
      assert made(h[..last], h[last]);
    }
    if Stands(past, made, undone) && !undone(past, h[last]) {
      var j :| 0 <= j < |past| && made(past[..j], past[j]) && forall k :: j < k < |past| ==> !undone(past[..k], past[k]);
      assert made(h[..j], h[j]);
      forall k | j < k < |h| ensures !undone(h[..k], h[k]) {
        if k < last { assert !undone(past[..k], past[k]); }
      }
    }
    if Stands(h, made, undone) && !made(past, h[last]) {
      var j :| 0 <= j < |h| && made(h[..j], h[j]) && forall k :: j < k < |h| ==> !undone(h[..k], h[k]);
      assert made(past[..j], past[j]);
      assert !undone(h[..last], h[last]);
      forall k | j < k < |past| ensures !undone(past[..k], past[k]) {
        assert !undone(h[..k], h[k]);
      }
    }
  }

  predicate Runs(h: seq<Input>) {
    After(MAX_INFLIGHT, h).Some? && After(MAX_INFLIGHT, h).value.status == Running
  }

  lemma RanBefore(h: seq<Input>)
    requires Runs(h) && |h| > 0
    ensures var past, last := h[..|h| - 1], h[|h| - 1];
            && Runs(past) && Enabled(After(MAX_INFLIGHT, past).value, last)
            && After(MAX_INFLIGHT, h).value == Next(After(MAX_INFLIGHT, past).value, MAX_INFLIGHT, last)
            && last != Cmd(Shutdown)
  {}

  // ---- occasions ------------------------------------------------------------------------------------------------------

  /** The input reports the fetch of view `id`, which was neither stopped nor closed since the fetch began. */
  predicate Lands(past: seq<Input>, input: Input, id: ViewId) {
    && input.Done? && Runs(past) && input.fetch < |After(MAX_INFLIGHT, past).value.fetches|
    && var fetch := After(MAX_INFLIGHT, past).value.fetches[input.fetch];
       fetch.spawn.view == id && !CancelledSince(past, fetch.startedAt, id)
  }

  /** The fetch that handling the input starts. */
  function Started(past: seq<Input>, input: Input): Option<Spawn> {
    if Runs(past) && Enabled(After(MAX_INFLIGHT, past).value, input)
    then Handle(After(MAX_INFLIGHT, past).value, MAX_INFLIGHT, input).spawned else None
  }

  /** The input starts a fetch for view `id`. */
  predicate Starts(past: seq<Input>, input: Input, id: ViewId) {
    Started(past, input).Some? && Started(past, input).value.view == id
  }

  function Creates(id: ViewId): Occasion { (past, input) => input == Cmd(CreateView(id)) }

  function Closes(id: ViewId): Occasion { (past, input) => input == Cmd(CloseView(id)) }

  function Builds(id: ViewId, url: string): Occasion {
    (past, input) => Lands(past, input, id) && input.Done? && input.result == Built(url)
  }

  function ClosesOrRebuilds(id: ViewId): Occasion {
    (past, input) => input == Cmd(CloseView(id)) || (Lands(past, input, id) && input.Done? && !input.result.FetchFailed?)
  }

  function Asks(id: ViewId, url: string): Occasion {
    (past, input) => Starts(past, input, id) && Started(past, input).value.url == url
  }

  function ClosesOrAsks(id: ViewId): Occasion {
    (past, input) => input == Cmd(CloseView(id)) || Starts(past, input, id)
  }

  /** View `id` was created and not closed since. */
  ghost predicate Live(h: seq<Input>, id: ViewId) { Stands(h, Creates(id), Closes(id)) }

  /** `url` is what the view's last build that was not cancelled yielded, with no failed build or close since. */
  ghost predicate LastBuilt(h: seq<Input>, id: ViewId, url: string) { Stands(h, Builds(id, url), ClosesOrRebuilds(id)) }

  /** `url` is what the view's last fetch asked for, with no close since. */
  ghost predicate LastAsked(h: seq<Input>, id: ViewId, url: string) { Stands(h, Asks(id, url), ClosesOrAsks(id)) }

  /** The view's fetch is in flight and the user has not cancelled it. */
  predicate InFlight(h: seq<Input>, id: ViewId) {
    Runs(h) && var fetches := After(MAX_INFLIGHT, h).value.fetches;
    |fetches| == 1 && fetches[0].spawn.view == id && !CancelledSince(h, fetches[0].startedAt, id)
  }

  // ---- what a view holds ------------------------------------------------------------------------------------------------

  function Entry(h: seq<Input>, id: ViewId): Option<View> {
    if Runs(h) then Lookup(After(MAX_INFLIGHT, h).value.worker.views, id) else None
  }

  function PageOf(view: Option<View>): Option<string> { if view.Some? then view.value.page else None }

  function RequestedOf(view: Option<View>): Option<string> { if view.Some? then view.value.requestedUrl else None }

  predicate LiveMoves(past: seq<Input>, last: Input, id: ViewId, was: Option<View>, now: Option<View>) {
    now.Some? <==> last == Cmd(CreateView(id)) || (was.Some? && last != Cmd(CloseView(id)))
  }

  predicate PageMoves(past: seq<Input>, last: Input, id: ViewId, was: Option<View>, now: Option<View>) {
    PageOf(now) == if last == Cmd(CloseView(id)) then None
                   else if Lands(past, last, id) && last.result.Built? then Some(last.result.url)
                   else if Lands(past, last, id) && last.result.BuildFailed? then None
                   else PageOf(was)
  }

  predicate RequestMoves(past: seq<Input>, last: Input, id: ViewId, was: Option<View>, now: Option<View>) {
    RequestedOf(now) == if last == Cmd(CloseView(id)) then None
                        else if Starts(past, last, id) then Some(Started(past, last).value.url)
                        else RequestedOf(was)
  }

  /** One input's share: a view's entry moves by what the input is, seen from the history. */
  predicate Moves(past: seq<Input>, last: Input, id: ViewId, was: Option<View>, now: Option<View>) {
    LiveMoves(past, last, id, was, now) && PageMoves(past, last, id, was, now) && RequestMoves(past, last, id, was, now)
  }

  lemma CommandMoves(past: seq<Input>, command: Command, id: ViewId)
    requires Runs(past) && command != Shutdown
    requires Distinct(After(MAX_INFLIGHT, past).value.worker.views)
    ensures Moves(past, Cmd(command), id, Entry(past, id),
                  Lookup(HandleCommand(After(MAX_INFLIGHT, past).value.worker, MAX_INFLIGHT, command).worker.views, id))
  {
    CommandPerView(After(MAX_INFLIGHT, past).value.worker, MAX_INFLIGHT, command, id);
  }

  lemma DoneMoves(past: seq<Input>, result: NavigationResult, id: ViewId)
    requires Runs(past) && Enabled(After(MAX_INFLIGHT, past).value, Done(0, result))
    ensures Moves(past, Done(0, result), id, Entry(past, id),
                  Lookup(Next(After(MAX_INFLIGHT, past).value, MAX_INFLIGHT, Done(0, result)).worker.views, id))
  {
    NoStaleCommit(past, result);
  }

  lemma EntryStep(h: seq<Input>, id: ViewId)
    requires Runs(h) && |h| > 0
    ensures Moves(h[..|h| - 1], h[|h| - 1], id, Entry(h[..|h| - 1], id), Entry(h, id))
  {
    RanBefore(h);
    var past, last := h[..|h| - 1], h[|h| - 1];
    GateHolds(past);
    match last
    case Cmd(command) => CommandMoves(past, command, id);
    case Done(fetch, result) => DoneMoves(past, result, id);
    case _ =>
  }

  /** A view is live exactly when it was created and not closed since. */
  lemma {:induction false} LiveIffCreated(h: seq<Input>, id: ViewId)
    requires Runs(h)
    ensures Entry(h, id).Some? <==> Live(h, id)
  {
    if |h| > 0 {
      RanBefore(h);
      LiveIffCreated(h[..|h| - 1], id);
      EntryStep(h, id);
      StandsGrows(h, Creates(id), Closes(id));
    }
  }

  /** A view shows the page of its last build that was not cancelled, unless a build failed or the view closed since. */
  lemma {:induction false} PageIsLastBuilt(h: seq<Input>, id: ViewId, url: string)
    requires Runs(h)
    ensures PageOf(Entry(h, id)) == Some(url) <==> LastBuilt(h, id, url)
  {
    if |h| > 0 {
      RanBefore(h);
      PageIsLastBuilt(h[..|h| - 1], id, url);
      EntryStep(h, id);
      StandsGrows(h, Builds(id, url), ClosesOrRebuilds(id));
    }
  }

  /** A view remembers the URL that its last fetch asked for. */
  lemma {:induction false} RequestedIsLastAsked(h: seq<Input>, id: ViewId, url: string)
    requires Runs(h)
    ensures RequestedOf(Entry(h, id)) == Some(url) <==> LastAsked(h, id, url)
  {
    if |h| > 0 {
      RanBefore(h);
      RequestedIsLastAsked(h[..|h| - 1], id, url);
      EntryStep(h, id);
      StandsGrows(h, Asks(id, url), ClosesOrAsks(id));
    }
  }

  /** A view waits exactly while its fetch is in flight and not cancelled. */
  lemma WaitsIffInFlight(h: seq<Input>, id: ViewId)
    requires Runs(h)
    ensures Entry(h, id).Some? && Entry(h, id).value.active.Some? <==> InFlight(h, id)
  {
    var s := After(MAX_INFLIGHT, h).value;
    GateHolds(h);
    assert Waits(s, id);
    if |s.fetches| == 1 { AwaitedIffNotCancelled(h); }
  }

  /** What a reload of the view asks for: its last built page's URL, or the URL last asked for when it shows no page. */
  ghost predicate ReloadAsks(h: seq<Input>, id: ViewId, url: string) {
    LastBuilt(h, id, url) || ((forall built :: !LastBuilt(h, id, built)) && LastAsked(h, id, url))
  }

  lemma ReloadUrlIsAsked(h: seq<Input>, id: ViewId, url: string)
    requires Runs(h) && Entry(h, id).Some?
    ensures ReloadUrl(Entry(h, id).value) == Some(url) <==> ReloadAsks(h, id, url)
  {
    var view := Entry(h, id).value;
    PageIsLastBuilt(h, id, url);
    RequestedIsLastAsked(h, id, url);
    forall built ensures LastBuilt(h, id, built) <==> view.page == Some(built) { PageIsLastBuilt(h, id, built); }
  }

  // ---- how commands are answered ----------------------------------------------------------------------------------------

  /** The answer to being asked for `url`: a violation on a dead view, a notice while any fetch is in flight, and
      otherwise the fetch is started and announced. */
  ghost predicate AnswersRequest(h: seq<Input>, id: ViewId, url: string, reply: Reply)
    requires Runs(h)
  {
    if !Live(h, id) then reply.events == [Crashed(id)] && reply.spawned.None?
    else if After(MAX_INFLIGHT, h).value.fetches != [] then
      reply.events == [StatusChanged(id, "navigation worker busy")] && reply.spawned.None?
    else
      && reply.events == [LoadStateChanged(id, LoadState.Started)]
      && reply.spawned.Some? && reply.spawned.value.view == id && reply.spawned.value.url == url
  }

  function Reaction(h: seq<Input>, command: Command): Reply
    requires Runs(h)
  {
    HandleCommand(After(MAX_INFLIGHT, h).value.worker, MAX_INFLIGHT, command)
  }

  /** A navigation asks for its own URL. */
  lemma NavigateAsks(h: seq<Input>, id: ViewId, url: string)
    requires Runs(h)
    ensures AnswersRequest(h, id, url, Reaction(h, Navigate(id, url)))
  {
    GateHolds(h);
    LiveIffCreated(h, id);
  }

  /** A reload asks for the last built page's URL, else for the last one requested. */
  lemma ReloadAsksAgain(h: seq<Input>, id: ViewId, url: string)
    requires Runs(h) && ReloadAsks(h, id, url)
    ensures Live(h, id) && AnswersRequest(h, id, url, Reaction(h, Reload(id)))
  {
    PageIsLastBuilt(h, id, url);
    RequestedIsLastAsked(h, id, url);
    ReloadUrlIsAsked(h, id, url);
    NavigateAsks(h, id, url);
    LiveIffCreated(h, id);
  }

  /** With neither to ask for, a reload is a violation. */
  lemma ReloadOfNothing(h: seq<Input>, id: ViewId)
    requires Runs(h) && forall url :: !ReloadAsks(h, id, url)
    ensures Reaction(h, Reload(id)).events == [Crashed(id)] && Reaction(h, Reload(id)).spawned.None?
  {
    if Entry(h, id).Some? && ReloadUrl(Entry(h, id).value).Some? {
      ReloadUrlIsAsked(h, id, ReloadUrl(Entry(h, id).value).value);
    }
  }

  /** Creating announces a view that is not live, closing one that is, and stopping one whose fetch is in flight and
      not cancelled. A command on a view in the wrong state is a violation, and stopping a view at rest is silent. */
  lemma ViewCommandsAnswer(h: seq<Input>, id: ViewId)
    requires Runs(h)
    ensures Reaction(h, CreateView(id)).events == if Live(h, id) then [Crashed(id)] else [ViewCreated(id)]
    ensures Reaction(h, CloseView(id)).events == if Live(h, id) then [ViewClosed(id)] else [Crashed(id)]
    ensures Reaction(h, Stop(id)).events
         == if !Live(h, id) then [Crashed(id)]
            else if InFlight(h, id) then [LoadStateChanged(id, Idle), StatusChanged(id, "stopped")] else []
  {
    LiveIffCreated(h, id);
    WaitsIffInFlight(h, id);
  }
}
