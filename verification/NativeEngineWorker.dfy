/** The worker actor as the program keeps it: fields updated in place by one handler per message. */
module NativeEngineWorker {
  import opened Geometry
  import opened EngineWorker
  import opened EngineRuns

  /** The serialized event stream. */
  class EventWriter {
    var events: seq<Event>

    constructor ()
      ensures events == []
    {
      events := [];
    }

    method Write(event: Event)
      modifies this
      ensures events == old(events) + [event]
    {
      events := events + [event];
    }
  }

  /** What the actor's queue holds. A completion carries the view and generation its fetch was spawned with. */
  datatype Message =
    | Command(command: EngineWorker.Command)
    | NavigationComplete(spawn: Spawn, result: NavigationResult)
    | CommandStreamClosed
    | CommandStreamFailed

  function HandleMessage(w: Worker, message: Message): Reply {
    match message
    case Command(command) => HandleCommand(w, MAX_INFLIGHT, command)
    case NavigationComplete(spawn, result) => HandleCompletion(w, spawn, result)
    case CommandStreamClosed => Reply(w, [], None, Finished)
    case CommandStreamFailed => Reply(w, [], None, Errored)
  }

  /** The actor's whole life on a queue of messages: it stops at the first message that ends it. */
  function Actor(w: Worker, messages: seq<Message>): Reply {
    if |messages| == 0 then Reply(w, [], None, Running)
    else
      var before := Actor(w, messages[..|messages| - 1]);
      if before.status != Running then before
      else
        var reply := HandleMessage(before.worker, messages[|messages| - 1]);
        reply.(events := before.events + reply.events)
  }

  class NativeEngineWorker {
    var views: seq<Slot>
    var inflight: nat

    constructor ()
      ensures Value() == Worker([], 0)
    {
      views, inflight := [], 0;
    }

    ghost function Value(): Worker
      reads this
    {
      Worker(views, inflight)
    }

    method CreateView(view: ViewId, writer: EventWriter)
      modifies this, writer
      ensures Value() == HandleCommand(old(Value()), MAX_INFLIGHT, Command.CreateView(view)).worker
      ensures writer.events == old(writer.events)
                             + HandleCommand(old(Value()), MAX_INFLIGHT, Command.CreateView(view)).events
    {
      if Find(views, view).Some? {
        writer.Write(Crashed(view));
        return;
      }
      views := views + [Slot(view, View(None, 0, None, None))];
      writer.Write(ViewCreated(view));
    }

    method CloseView(view: ViewId, writer: EventWriter)
      modifies this, writer
      ensures Value() == HandleCommand(old(Value()), MAX_INFLIGHT, Command.CloseView(view)).worker
      ensures writer.events == old(writer.events)
                             + HandleCommand(old(Value()), MAX_INFLIGHT, Command.CloseView(view)).events
    {
      var index := Find(views, view);
      if index.None? {
        writer.Write(Crashed(view));
        return;
      }
      views := SwapRemove(views, index.value);
      writer.Write(ViewClosed(view));
    }

    /** Begins a navigation when the gate is open; the result is the fetch to run. */
    method StartNavigation(view: ViewId, url: string, writer: EventWriter) returns (spawned: Option<Spawn>)
      modifies this, writer
      ensures var reply := EngineWorker.StartNavigation(old(Value()), MAX_INFLIGHT, view, url);
              Value() == reply.worker && writer.events == old(writer.events) + reply.events && spawned == reply.spawned
    {
      var index := Find(views, view);
      if index.None? {
        writer.Write(Crashed(view));
        return None;
      }
      if inflight >= MAX_INFLIGHT {
        writer.Write(StatusChanged(view, "navigation worker busy"));
        return None;
      }
      var entry := views[index.value].view;
      var generation := Min(entry.generation + 1, U64_MAX);
      entry := entry.(generation := generation, active := Some(generation), requestedUrl := Some(url));
      views := views[index.value := Slot(view, entry)];
      writer.Write(LoadStateChanged(view, Started));
      inflight := inflight + 1;
      spawned := Some(Spawn(view, generation, url));
    }

    method StopNavigation(view: ViewId, writer: EventWriter)
      modifies this, writer
      ensures Value() == HandleCommand(old(Value()), MAX_INFLIGHT, Stop(view)).worker
      ensures writer.events == old(writer.events) + HandleCommand(old(Value()), MAX_INFLIGHT, Stop(view)).events
    {
      var index := Find(views, view);
      if index.None? {
        writer.Write(Crashed(view));
        return;
      }
      if views[index.value].view.active.Some? {
        views := views[index.value := Slot(view, views[index.value].view.(active := None))];
        writer.Write(LoadStateChanged(view, Idle));
        writer.Write(StatusChanged(view, "stopped"));
        assert writer.events == old(writer.events) + [LoadStateChanged(view, Idle), StatusChanged(view, "stopped")];
      } else {
        assert writer.events == old(writer.events) + [];
      }
    }

    /** Closes every view, lowest id first. */
    method CloseAllViews(writer: EventWriter)
      modifies this, writer
      ensures Value() == old(Value()).(views := [])
      ensures writer.events == old(writer.events) + Closings(SortById(old(views)))
    {
      var sorted := SortById(views);
      var i := 0;
      assert sorted[..0] == [];
      while i < |sorted|
        invariant i <= |sorted| && Value() == old(Value())
        invariant writer.events == old(writer.events) + Closings(sorted[..i])
      {
        writer.Write(ViewClosed(sorted[i].id));
        assert sorted[..i + 1][..i] == sorted[..i];
        i := i + 1;
      }
      assert sorted[..|sorted|] == sorted;
      views := [];
    }

    method HandleCommandMessage(command: EngineWorker.Command, writer: EventWriter)
      returns (spawned: Option<Spawn>, status: ActorStatus)
      modifies this, writer
      ensures var reply := HandleCommand(old(Value()), MAX_INFLIGHT, command);
              && Value() == reply.worker && writer.events == old(writer.events) + reply.events
              && spawned == reply.spawned && status == reply.status
    {
      spawned, status := None, Running;
      match command {
        case CreateView(view) => this.CreateView(view, writer);
        case CloseView(view) => this.CloseView(view, writer);
        case Navigate(view, url) => spawned := this.StartNavigation(view, url, writer);
        case Reload(view) =>
          var index := Find(views, view);
          var url := if index.None? then None else ReloadUrl(views[index.value].view);
          if url.None? {
            writer.Write(Crashed(view));
          } else {
            spawned := this.StartNavigation(view, url.value, writer);
          }
        case Stop(view) => this.StopNavigation(view, writer);
        case Shutdown =>
          CloseAllViews(writer);
          status := Finished;
        case Unsupported => status := Errored;
      }
    }

    method HandleNavigationComplete(spawn: Spawn, result: NavigationResult, writer: EventWriter)
      modifies this, writer
      ensures var reply := HandleCompletion(old(Value()), spawn, result);
              Value() == reply.worker && writer.events == old(writer.events) + reply.events
    {
      inflight := if inflight == 0 then 0 else inflight - 1;
      var index := Find(views, spawn.view);
      if index.None? || views[index.value].view.active != Some(spawn.generation) {
        return;
      }
      var entry := views[index.value].view.(active := None);
      match result {
        case FetchFailed(error) =>
          writer.Write(LoadStateChanged(spawn.view, Failed));
          writer.Write(StatusChanged(spawn.view, error));
        case Built(url) =>
          entry := entry.(page := Some(url));
          writer.Write(UrlChanged(spawn.view, url));
          writer.Write(LoadStateChanged(spawn.view, Committed));
          writer.Write(LoadStateChanged(spawn.view, Interactive));
          writer.Write(LoadStateChanged(spawn.view, Complete));
        case BuildFailed(_, message) =>
          entry := entry.(page := None);
          writer.Write(LoadStateChanged(spawn.view, Failed));
          writer.Write(StatusChanged(spawn.view, message));
      }
      views := views[index.value := Slot(spawn.view, entry)];
    }

    method Handle(message: Message, writer: EventWriter) returns (status: ActorStatus)
      modifies this, writer
      ensures var reply := HandleMessage(old(Value()), message);
              Value() == reply.worker && writer.events == old(writer.events) + reply.events && status == reply.status
    {
      status := Running;
      match message {
        case Command(command) =>
          var spawned, now := HandleCommandMessage(command, writer);
          status := now;
        case NavigationComplete(spawn, result) => HandleNavigationComplete(spawn, result, writer);
        case CommandStreamClosed => status := Finished;
        case CommandStreamFailed => status := Errored;
      }
    }
  }

  /** After `i` messages the actor has become `w`, written `written` and reached `status`. */
  ghost predicate Ran(messages: seq<Message>, i: nat, w: Worker, written: seq<Event>, status: ActorStatus)
    requires i <= |messages|
  {
    var reply := Actor(Worker([], 0), messages[..i]);
    reply.worker == w && reply.events == written && reply.status == status
  }

  lemma RanOneMore(messages: seq<Message>, i: nat, w: Worker, written: seq<Event>)
    requires i < |messages| && Ran(messages, i, w, written, Running)
    ensures var reply := HandleMessage(w, messages[i]);
            Ran(messages, i + 1, reply.worker, written + reply.events, reply.status)
  {
    assert messages[..i + 1][..i] == messages[..i];
  }

  /** Handles the next message of a queue. */
  method HandleNext(worker: NativeEngineWorker, messages: seq<Message>, i: nat, writer: EventWriter, ghost base: seq<Event>,
                    ghost written: seq<Event>) returns (status: ActorStatus, ghost written': seq<Event>)
    requires i < |messages| && Ran(messages, i, worker.Value(), written, Running)
    requires writer.events == base + written
    modifies worker, writer
    ensures Ran(messages, i + 1, worker.Value(), written', status)
    ensures writer.events == base + written'
  {
    ghost var reply := HandleMessage(worker.Value(), messages[i]);
    RanOneMore(messages, i, worker.Value(), written);
    status := worker.Handle(messages[i], writer);
    written' := written + reply.events;
    Appended(base, written, reply.events);
  }

  lemma Appended(base: seq<Event>, written: seq<Event>, events: seq<Event>)
    ensures (base + written) + events == base + (written + events)
  {}

  /** Drains the queue until a message ends the actor. */
  method RunRuntimeActor(messages: seq<Message>, writer: EventWriter) returns (status: ActorStatus)
    modifies writer
    ensures var reply := Actor(Worker([], 0), messages);
            writer.events == old(writer.events) + reply.events && status == reply.status
  {
    var worker := new NativeEngineWorker();
    status := Running;
    ghost var written: seq<Event> := [];
    var i := 0;
    while i < |messages| && status == Running
      invariant i <= |messages| && Ran(messages, i, worker.Value(), written, status)
      invariant writer.events == old(writer.events) + written
    {
      status, written := HandleNext(worker, messages, i, writer, old(writer.events), written);
      i := i + 1;
    }
    EndedActorStays(messages, i);
  }

  lemma {:induction false} EndedActorStays(messages: seq<Message>, i: nat)
    requires i <= |messages|
    requires i == |messages| || Actor(Worker([], 0), messages[..i]).status != Running
    ensures Actor(Worker([], 0), messages) == Actor(Worker([], 0), messages[..i])
  {
    if i == |messages| {
      assert messages[..i] == messages;
    } else {
      var past := messages[..|messages| - 1];
      assert past[..i] == messages[..i];
      EndedActorStays(past, i);
    }
  }

  // ---- the queue of a history -------------------------------------------------------------------------------------

  function MessageOf(s: System, input: Input): Message
    requires Enabled(s, input)
  {
    match input
    case Cmd(command) => Command(command)
    case Done(fetch, result) => NavigationComplete(s.fetches[fetch].spawn, result)
    case CommandsClosed => CommandStreamClosed
    case CommandsFailed => CommandStreamFailed
  }

  /** The messages a history of commands and reported fetches puts in the actor's queue. */
  function Messages(h: seq<Input>): seq<Message>
    requires After(MAX_INFLIGHT, h).Some?
  {
    if |h| == 0 then []
    else Messages(h[..|h| - 1]) + [MessageOf(After(MAX_INFLIGHT, h[..|h| - 1]).value, h[|h| - 1])]
  }

  lemma MessageIsInput(s: System, input: Input)
    requires Enabled(s, input)
    ensures HandleMessage(s.worker, MessageOf(s, input)) == Handle(s, MAX_INFLIGHT, input)
  {}

  /** The actor writes exactly the trace that the run theorems speak of. */
  lemma {:induction false} ActorWritesTrace(h: seq<Input>)
    requires After(MAX_INFLIGHT, h).Some?
    ensures var reply := Actor(Worker([], 0), Messages(h));
            var s := After(MAX_INFLIGHT, h).value;
            reply.events == Trace(MAX_INFLIGHT, h) && reply.worker == s.worker && reply.status == s.status
  {
    if |h| > 0 {
      var past := h[..|h| - 1];
      ActorWritesTrace(past);
      MessageIsInput(After(MAX_INFLIGHT, past).value, h[|h| - 1]);
      assert Messages(h)[..|Messages(h)| - 1] == Messages(past);
    }
  }
}
