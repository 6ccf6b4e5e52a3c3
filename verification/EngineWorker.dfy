/** The worker's runtime actor: views, navigation generations, the in-flight gate, and the event stream it writes. */
module EngineWorker {
  import opened Geometry

  type ViewId = nat

  const U64_MAX: nat := 0xFFFF_FFFF_FFFF_FFFF

  /** Fetches one worker admits at a time. */
  const MAX_INFLIGHT: nat := 1

  datatype View = View(requestedUrl: Option<string>, generation: nat, active: Option<nat>, page: Option<string>)

  datatype Slot = Slot(id: ViewId, view: View)

  datatype Worker = Worker(views: seq<Slot>, inflight: nat)

  datatype Command =
    | CreateView(view: ViewId)
    | CloseView(view: ViewId)
    | Navigate(view: ViewId, url: string)
    | Reload(view: ViewId)
    | Stop(view: ViewId)
    | Shutdown
    | Unsupported

  datatype LoadState = Started | Idle | Committed | Interactive | Complete | Failed

  datatype Event =
    | ViewCreated(view: ViewId)
    | ViewClosed(view: ViewId)
    | LoadStateChanged(view: ViewId, state: LoadState)
    | UrlChanged(view: ViewId, url: string)
    | StatusChanged(view: ViewId, status: string)
    | Crashed(view: ViewId)

  /** What a fetch brings back, together with what building the page from it will yield. */
  datatype NavigationResult =
    | FetchFailed(error: string)
    | Built(url: string)
    | BuildFailed(url: string, message: string)

  datatype ActorStatus = Running | Finished | Errored

  /** A fetch to run. Its report brings back the view and the generation, and not the URL it asked for. */
  datatype Spawn = Spawn(view: ViewId, generation: nat, url: string)

  /** What handling one message does: the new worker, the events written, a fetch started, and the actor's status. */
  datatype Reply = Reply(worker: Worker, events: seq<Event>, spawned: Option<Spawn>, status: ActorStatus)

  // ---- the view table -------------------------------------------------------------------------------------------

  function Find(views: seq<Slot>, id: ViewId): (r: Option<nat>)
    ensures r.Some? ==> r.value < |views| && views[r.value].id == id
    ensures r.None? ==> forall i :: 0 <= i < |views| ==> views[i].id != id
  {
    if |views| == 0 then None
    else if views[0].id == id then Some(0)
    else
      var r := Find(views[1..], id);
      assert forall i :: 1 <= i < |views| ==> views[i] == views[1..][i - 1];
      if r.None? then None else Some(r.value + 1)
  }

  function Lookup(views: seq<Slot>, id: ViewId): Option<View> {
    var i := Find(views, id);
    if i.None? then None else Some(views[i.value].view)
  }

  predicate Distinct(views: seq<Slot>) {
    forall i, j :: 0 <= i < j < |views| ==> views[i].id != views[j].id
  }

  /** Removes an entry by moving the last one into its place. */
  function SwapRemove(views: seq<Slot>, i: nat): seq<Slot>
    requires i < |views|
  {
    views[i := views[|views| - 1]][..|views| - 1]
  }

  lemma LookupAt(views: seq<Slot>, i: nat)
    requires Distinct(views) && i < |views|
    ensures Lookup(views, views[i].id) == Some(views[i].view)
  {}

  lemma LookupAfterPut(views: seq<Slot>, i: nat, view: View, id: ViewId)
    requires Distinct(views) && i < |views|
    ensures Distinct(views[i := views[i].(view := view)])
    ensures Lookup(views[i := views[i].(view := view)], id)
         == if id == views[i].id then Some(view) else Lookup(views, id)
  {
    var after := views[i := views[i].(view := view)];
    assert forall k :: 0 <= k < |views| ==> after[k].id == views[k].id;
    if id == views[i].id { LookupAt(after, i); }
    var k := Find(views, id);
    if k.Some? { LookupAt(after, k.value); LookupAt(views, k.value); }
  }

  lemma LookupAfterPush(views: seq<Slot>, slot: Slot, id: ViewId)
    requires Distinct(views) && Find(views, slot.id).None?
    ensures Distinct(views + [slot])
    ensures Lookup(views + [slot], id) == if id == slot.id then Some(slot.view) else Lookup(views, id)
  {
    var after := views + [slot];
    assert forall k :: 0 <= k < |views| ==> after[k] == views[k];
    if id == slot.id { LookupAt(after, |views|); }
    var k := Find(views, id);
    if k.Some? { LookupAt(after, k.value); LookupAt(views, k.value); }
  }

  lemma LookupAfterRemove(views: seq<Slot>, i: nat, id: ViewId)
    requires Distinct(views) && i < |views|
    ensures Distinct(SwapRemove(views, i))
    ensures Lookup(SwapRemove(views, i), id) == if id == views[i].id then None else Lookup(views, id)
  {
    var after, last := SwapRemove(views, i), |views| - 1;
    assert forall k :: 0 <= k < last ==> after[k] == if k == i then views[last] else views[k];
    var k := Find(views, id);
    if k.Some? && k.value != i {
      LookupAt(after, if k.value == last then i else k.value);
    }
  }

  // ---- what each message does -------------------------------------------------------------------------------------

  function ReloadUrl(view: View): Option<string> {
    if view.page.Some? then view.page else view.requestedUrl
  }

  function Stay(w: Worker, events: seq<Event>): Reply { Reply(w, events, None, Running) }

  function StartNavigation(w: Worker, limit: nat, view: ViewId, url: string): Reply {
    var i := Find(w.views, view);
    if i.None? then Stay(w, [Crashed(view)])
    else if w.inflight >= limit then Stay(w, [StatusChanged(view, "navigation worker busy")])
    else
      var entry := w.views[i.value].view;
      var generation := Min(entry.generation + 1, U64_MAX);
      var started := entry.(generation := generation, active := Some(generation), requestedUrl := Some(url));
      Reply(Worker(w.views[i.value := Slot(view, started)], w.inflight + 1),
            [LoadStateChanged(view, Started)], Some(Spawn(view, generation, url)), Running)
  }

  /** Handling of one command by a worker whose gate admits `limit` fetches. */
  function HandleCommand(w: Worker, limit: nat, command: Command): Reply {
    match command
    case CreateView(view) =>
      if Find(w.views, view).Some? then Stay(w, [Crashed(view)])
      else Stay(w.(views := w.views + [Slot(view, View(None, 0, None, None))]), [ViewCreated(view)])
    case CloseView(view) =>
      var i := Find(w.views, view);
      if i.None? then Stay(w, [Crashed(view)])
      else Stay(w.(views := SwapRemove(w.views, i.value)), [ViewClosed(view)])
    case Navigate(view, url) => StartNavigation(w, limit, view, url)
    case Reload(view) =>
      var i := Find(w.views, view);
      if i.None? || ReloadUrl(w.views[i.value].view).None? then Stay(w, [Crashed(view)])
      else StartNavigation(w, limit, view, ReloadUrl(w.views[i.value].view).value)
    case Stop(view) =>
      var i := Find(w.views, view);
      if i.None? then Stay(w, [Crashed(view)])
      else if w.views[i.value].view.active.None? then Stay(w, [])
      else Stay(w.(views := w.views[i.value := Slot(view, w.views[i.value].view.(active := None))]),
                [LoadStateChanged(view, Idle), StatusChanged(view, "stopped")])
    case Shutdown => Reply(w.(views := []), Closings(SortById(w.views)), None, Finished)
    case Unsupported => Reply(w, [], None, Errored)
  }

  /** The events one observed navigation ends with. */
  function Outcome(view: ViewId, result: NavigationResult): seq<Event> {
    match result
    case FetchFailed(error) => [LoadStateChanged(view, Failed), StatusChanged(view, error)]
    case Built(url) => [UrlChanged(view, url), LoadStateChanged(view, Committed),
                        LoadStateChanged(view, Interactive), LoadStateChanged(view, Complete)]
    case BuildFailed(_, message) => [LoadStateChanged(view, Failed), StatusChanged(view, message)]
  }

  /** A view after its navigation ended: a build takes the old page's buffers first, so a failed build leaves none. */
  function Ended(view: View, result: NavigationResult): View {
    match result
    case FetchFailed(_) => view.(active := None)
    case Built(url) => view.(active := None, page := Some(url))
    case BuildFailed(_, _) => view.(active := None, page := None)
  }

  function HandleCompletion(w: Worker, spawn: Spawn, result: NavigationResult): Reply {
    var w := w.(inflight := Max(w.inflight - 1, 0));
    var i := Find(w.views, spawn.view);
    if i.None? || w.views[i.value].view.active != Some(spawn.generation) then Stay(w, [])
    else Stay(w.(views := w.views[i.value := Slot(spawn.view, Ended(w.views[i.value].view, result))]),
              Outcome(spawn.view, result))
  }

  function InsertById(sorted: seq<Slot>, slot: Slot): seq<Slot> {
    if |sorted| == 0 then [slot]
    else if slot.id < sorted[0].id then [slot] + sorted
    else [sorted[0]] + InsertById(sorted[1..], slot)
  }

  function SortById(views: seq<Slot>): seq<Slot> {
    if |views| == 0 then [] else InsertById(SortById(views[..|views| - 1]), views[|views| - 1])
  }

  function Closings(views: seq<Slot>): seq<Event> {
    if |views| == 0 then [] else Closings(views[..|views| - 1]) + [ViewClosed(views[|views| - 1].id)]
  }

  // ---- shutdown closes each live view once, in order ----------------------------------------------------------------

  predicate AscendingIds(views: seq<Slot>) {
    forall i, j :: 0 <= i < j < |views| ==> views[i].id < views[j].id
  }

  lemma {:induction false} InsertMembers(sorted: seq<Slot>, slot: Slot, s: Slot)
    ensures s in InsertById(sorted, slot) <==> s in sorted || s == slot
  {
    if |sorted| > 0 {
      assert sorted == [sorted[0]] + sorted[1..];
      InsertMembers(sorted[1..], slot, s);
    }
  }

  lemma {:induction false} InsertKeepsOrder(sorted: seq<Slot>, slot: Slot)
    requires AscendingIds(sorted) && forall i :: 0 <= i < |sorted| ==> sorted[i].id != slot.id
    ensures AscendingIds(InsertById(sorted, slot))
  {
    if |sorted| > 0 && slot.id > sorted[0].id {
      InsertKeepsOrder(sorted[1..], slot);
      var rest := InsertById(sorted[1..], slot);
      forall i | 0 <= i < |rest| ensures sorted[0].id < rest[i].id {
        InsertMembers(sorted[1..], slot, rest[i]);
      }
    }
  }

  lemma {:induction false} SortMembers(views: seq<Slot>, s: Slot)
    ensures s in SortById(views) <==> s in views
  {
    if |views| > 0 {
      var rest := views[..|views| - 1];
      SortMembers(rest, s);
      assert views == rest + [views[|views| - 1]];
      InsertMembers(SortById(rest), views[|views| - 1], s);
    }
  }

  lemma {:induction false} SortIsSorted(views: seq<Slot>)
    requires Distinct(views)
    ensures AscendingIds(SortById(views))
  {
    if |views| > 0 {
      var rest := views[..|views| - 1];
      SortIsSorted(rest);
      var sorted := SortById(rest);
      forall i | 0 <= i < |sorted| ensures sorted[i].id != views[|views| - 1].id {
        SortMembers(rest, sorted[i]);
      }
      InsertKeepsOrder(sorted, views[|views| - 1]);
    }
  }

  lemma {:induction false} ClosingsAt(views: seq<Slot>)
    ensures |Closings(views)| == |views|
    ensures forall i :: 0 <= i < |views| ==> Closings(views)[i] == ViewClosed(views[i].id)
  {
    if |views| > 0 { ClosingsAt(views[..|views| - 1]); }
  }

  /** `Shutdown` closes exactly the live views, each once, in ascending id order. */
  lemma ShutdownClosesEachView(w: Worker, limit: nat)
    requires Distinct(w.views)
    ensures var closed := HandleCommand(w, limit, Shutdown).events;
            && (forall i :: 0 <= i < |closed| ==> closed[i].ViewClosed?)
            && (forall i, j :: 0 <= i < j < |closed| ==> closed[i].view < closed[j].view)
            && (forall id :: ViewClosed(id) in closed <==> Lookup(w.views, id).Some?)
  {
    var sorted := SortById(w.views);
    SortIsSorted(w.views);
    ClosingsAt(sorted);
    forall id ensures ViewClosed(id) in Closings(sorted) <==> Lookup(w.views, id).Some? {
      var at := Find(w.views, id);
      if at.Some? {
        SortMembers(w.views, w.views[at.value]);
        var i :| 0 <= i < |sorted| && sorted[i] == w.views[at.value];
        assert Closings(sorted)[i] == ViewClosed(id);
      }
      if ViewClosed(id) in Closings(sorted) {
        var i :| 0 <= i < |sorted| && Closings(sorted)[i] == ViewClosed(id);
        SortMembers(w.views, sorted[i]);
      }
    }
  }

  // ---- one view's share of a step -----------------------------------------------------------------------------------

  /** What a command does to one view id, given only that id's entry and whether the gate is closed. */
  function NextView(before: Option<View>, busy: bool, command: Command, id: ViewId): Option<View> {
    match command
    case CreateView(view) => if view == id && before.None? then Some(View(None, 0, None, None)) else before
    case CloseView(view) => if view == id then None else before
    case Navigate(view, url) => if view == id && before.Some? && !busy then Some(Begun(before.value, url)) else before
    case Reload(view) =>
      if view == id && before.Some? && !busy && ReloadUrl(before.value).Some?
      then Some(Begun(before.value, ReloadUrl(before.value).value)) else before
    case Stop(view) => if view == id && before.Some? then Some(before.value.(active := None)) else before
    case Shutdown => None
    case Unsupported => before
  }

  function Begun(view: View, url: string): View {
    var generation := Min(view.generation + 1, U64_MAX);
    view.(generation := generation, active := Some(generation), requestedUrl := Some(url))
  }

  lemma StartPerView(w: Worker, limit: nat, view: ViewId, url: string, id: ViewId)
    requires Distinct(w.views)
    ensures var after := StartNavigation(w, limit, view, url).worker;
            && Distinct(after.views)
            && Lookup(after.views, id) == var before := Lookup(w.views, id);
                                          if view == id && before.Some? && w.inflight < limit
                                          then Some(Begun(before.value, url)) else before
  {
    var i := Find(w.views, view);
    if i.Some? { LookupAfterPut(w.views, i.value, Begun(w.views[i.value].view, url), id); }
  }

  /** The view table treats every id separately: a command on one id changes that id's entry and no other. */
  lemma CommandPerView(w: Worker, limit: nat, command: Command, id: ViewId)
    requires Distinct(w.views)
    ensures Distinct(HandleCommand(w, limit, command).worker.views)
    ensures Lookup(HandleCommand(w, limit, command).worker.views, id)
         == NextView(Lookup(w.views, id), w.inflight >= limit, command, id)
  {
    match command
    case CreateView(view) =>
      if Find(w.views, view).None? { LookupAfterPush(w.views, Slot(view, View(None, 0, None, None)), id); }
    case CloseView(view) =>
      var i := Find(w.views, view);
      if i.Some? { LookupAfterRemove(w.views, i.value, id); }
    case Navigate(view, url) => StartPerView(w, limit, view, url, id);
    case Reload(view) =>
      var before := Lookup(w.views, view);
      if before.Some? && ReloadUrl(before.value).Some? {
        StartPerView(w, limit, view, ReloadUrl(before.value).value, id);
      }
    case Stop(view) =>
      var i := Find(w.views, view);
      if i.Some? { LookupAfterPut(w.views, i.value, w.views[i.value].view.(active := None), id); }
    case _ =>
  }

  lemma CompletionPerView(w: Worker, spawn: Spawn, result: NavigationResult, id: ViewId)
    requires Distinct(w.views)
    ensures Distinct(HandleCompletion(w, spawn, result).worker.views)
    ensures var before := Lookup(w.views, id);
            Lookup(HandleCompletion(w, spawn, result).worker.views, id)
            == if id == spawn.view && before.Some? && before.value.active == Some(spawn.generation)
               then Some(Ended(before.value, result)) else before
  {
    var i := Find(w.views, spawn.view);
    if i.Some? { LookupAfterPut(w.views, i.value, Ended(w.views[i.value].view, result), id); }
  }
}
