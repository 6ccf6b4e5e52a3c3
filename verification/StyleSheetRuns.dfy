/** Runs of document edits, landing fetches and refreshes of the live stylesheet set. */
module StyleSheetRuns {
  import opened Geometry
  import opened StyleDom
  import opened StyleSheetSet

  /** The set, the document it follows, the fetches on worker threads, the channel they report through, and every
      fetch ever started. `seen` is the document at the last refresh. */
  datatype World = World(seen: Dom, dom: Dom, dirty: set<NodeId>, sheets: Sheets,
                         flying: multiset<string>, channel: seq<Fetch>, started: seq<string>)

  datatype Step = Mutate(edit: Edit) | Land(fetch: Fetch) | RefreshNow

  ghost predicate Enabled(w: World, step: Step) {
    match step
    case Mutate(edit) => EditApplies(w.dom, edit)
    case Land(fetch) => fetch.url in w.flying
    case RefreshNow => Acyclic(w.dom)
  }

  ghost function Next(w: World, step: Step): World
    requires Enabled(w, step)
  {
    match step
    case Mutate(edit) => w.(dom := Edited(w.dom, edit), dirty := w.dirty + DirtiedBy(edit))
    case Land(fetch) => w.(flying := w.flying - multiset{fetch.url}, channel := w.channel + [fetch])
    case RefreshNow =>
      var r := Refresh(w.sheets, w.dom, w.dirty, w.channel);
      World(w.dom, w.dom, {}, r.sheets, w.flying + multiset(r.spawned), [], w.started + r.spawned)
  }

  /** A set just built from a walk of the document and the bodies fetched with it. */
  ghost predicate IsInitial(w: World) {
    && CurrentFor(w.sheets, w.dom) && w.seen == w.dom && w.dirty == {}
    && w.sheets.requested == w.sheets.bodies.Keys
    && w.flying == multiset{} && w.channel == [] && w.started == []
  }

  ghost function After(w: World, steps: seq<Step>): Option<World> {
    if |steps| == 0 then Some(w)
    else
      var before := After(w, steps[..|steps| - 1]);
      if before.Some? && Enabled(before.value, steps[|steps| - 1]) then Some(Next(before.value, steps[|steps| - 1]))
      else None
  }

  // ---- accounting of fetches ------------------------------------------------------------------------------------------

  function Urls(channel: seq<Fetch>): multiset<string> {
    if |channel| == 0 then multiset{}
    else Urls(channel[..|channel| - 1]) + multiset{channel[|channel| - 1].url}
  }

  /** Fetches started whose result the set has not yet taken. */
  function InFlight(w: World): multiset<string> { w.flying + Urls(w.channel) }

  predicate NoRepeat(urls: seq<string>) { forall i, j :: 0 <= i < j < |urls| ==> urls[i] != urls[j] }

  /** Everything requested is held or in flight, and everything started was requested. */
  ghost predicate Accounted(w: World) {
    && (forall u :: u in w.sheets.requested <==> u in w.sheets.bodies || u in InFlight(w))
    && (forall i :: 0 <= i < |w.started| ==> w.started[i] in w.sheets.requested)
  }

  /** No URL is in flight twice, and none is in flight while its body is held. */
  ghost predicate InFlightOnce(w: World) {
    forall u :: InFlight(w)[u] <= 1 && (u in InFlight(w) ==> u !in w.sheets.bodies)
  }

  ghost predicate Invariant(w: World) {
    && CurrentFor(w.sheets, w.seen) && Acyclic(w.dom) && EditedSince(w.seen, w.dom, w.dirty)
    && Accounted(w)
    && (NoRepeat(w.started) ==> InFlightOnce(w))
  }

  lemma {:induction false} DrainedKeys(bodies: map<string, string>, arrived: seq<Fetch>, u: string)
    ensures u in Drained(bodies, arrived) <==> u in bodies || u in Urls(arrived)
  {
    if |arrived| > 0 { DrainedKeys(bodies, arrived[..|arrived| - 1], u); }
  }

  lemma {:induction false} MissingAreNew(sources: seq<StyleSource>, requested: set<string>)
    ensures forall i :: 0 <= i < |Missing(sources, requested)| ==> Missing(sources, requested)[i] !in requested
  {
    if |sources| > 0 { MissingAreNew(sources[..|sources| - 1], requested); }
  }

  lemma {:induction false} MissingCovers(sources: seq<StyleSource>, requested: set<string>, i: nat)
    requires i < |sources| && sources[i].kind.LinkTo?
    ensures sources[i].kind.url in requested + Members(Missing(sources, requested))
  {
    var rest := sources[..|sources| - 1];
    var missing := Missing(sources, requested);
    if i < |rest| {
      MissingCovers(rest, requested, i);
      if sources[i].kind.url !in requested {
        var k :| 0 <= k < |Missing(rest, requested)| && Missing(rest, requested)[k] == sources[i].kind.url;
        assert missing[k] == sources[i].kind.url;
      }
    } else if sources[i].kind.url !in requested {
      assert missing[|missing| - 1] == sources[i].kind.url;
    }
  }

  lemma {:induction false} NoRepeatCounts(urls: seq<string>, u: string)
    ensures NoRepeat(urls) ==> multiset(urls)[u] <= 1
    ensures u in multiset(urls) <==> u in Members(urls)
  {
    if |urls| > 0 {
      var rest := urls[..|urls| - 1];
      NoRepeatCounts(rest, u);
      assert urls == rest + [urls[|urls| - 1]];
      if u in multiset(rest) {
        var i :| 0 <= i < |rest| && rest[i] == u;
        assert urls[i] == u;
      }
    }
  }

  lemma NoRepeatParts(a: seq<string>, b: seq<string>)
    requires NoRepeat(a + b)
    ensures NoRepeat(a) && NoRepeat(b)
  {
    forall i, j | 0 <= i < j < |a| ensures a[i] != a[j] { assert (a + b)[i] != (a + b)[j]; }
    forall i, j | 0 <= i < j < |b| ensures b[i] != b[j] { assert (a + b)[|a| + i] != (a + b)[|a| + j]; }
  }

  lemma UrlsAfterLand(w: World, fetch: Fetch)
    requires fetch.url in w.flying
    ensures InFlight(Next(w, Land(fetch))) == InFlight(w)
  {
    assert (w.channel + [fetch])[..|w.channel|] == w.channel;
  }

  /** What a refresh does to one URL: it is newly started, taken from the channel, or left as it was. */
  lemma RefreshOneUrl(w: World, u: string)
    requires Invariant(w)
    ensures var t := Next(w, RefreshNow);
            && (u in t.sheets.bodies <==> u in w.sheets.bodies || u in Urls(w.channel))
            && (u in t.sheets.requested <==> u in t.sheets.bodies || u in InFlight(t))
            && (NoRepeat(t.started) ==> InFlight(t)[u] <= 1 && (u in InFlight(t) ==> u !in t.sheets.bodies))
  {
    var t := Next(w, RefreshNow);
    var missing := Refresh(w.sheets, w.dom, w.dirty, w.channel).spawned;
    DrainedKeys(w.sheets.bodies, w.channel, u);
    MissingAreNew(t.sheets.sources, w.sheets.requested);
    NoRepeatCounts(missing, u);
    if NoRepeat(t.started) {
      NoRepeatParts(w.started, missing);
      assert InFlight(w)[u] <= 1;
    }
  }

  lemma InvariantStep(w: World, step: Step)
    requires Invariant(w) && Enabled(w, step)
    ensures Invariant(Next(w, step))
  {
    match step
    case Mutate(edit) =>
      EditedSinceGrows(w.seen, w.dom, w.dirty, edit);
      EditKeepsAcyclic(w.dom, edit);
    case Land(fetch) => UrlsAfterLand(w, fetch);
    case RefreshNow =>
      GatedRefreshIsRecollection(w.sheets, w.seen, w.dom, w.dirty, w.channel);
      RefreshAccounts(w);
  }

  lemma RefreshAccounts(w: World)
    requires Invariant(w)
    ensures var t := Next(w, RefreshNow);
            Accounted(t) && (NoRepeat(t.started) ==> InFlightOnce(t))
  {
    var t := Next(w, RefreshNow);
    forall u
      ensures u in t.sheets.requested <==> u in t.sheets.bodies || u in InFlight(t)
      ensures NoRepeat(t.started) ==> InFlight(t)[u] <= 1 && (u in InFlight(t) ==> u !in t.sheets.bodies)
    {
      RefreshOneUrl(w, u);
    }
  }

  lemma {:induction false} InvariantHolds(w: World, steps: seq<Step>)
    requires IsInitial(w) && After(w, steps).Some?
    ensures Invariant(After(w, steps).value)
  {
    if |steps| > 0 {
      InvariantHolds(w, steps[..|steps| - 1]);
      InvariantStep(After(w, steps[..|steps| - 1]).value, steps[|steps| - 1]);
    }
  }

  // ---- the run theorems ---------------------------------------------------------------------------------------------

  /** Over any run of structural, attribute and text edits, landing fetches and refreshes, every refresh leaves the
      source list a walk of the present document would collect. */
  lemma RefreshAlwaysRecollects(w: World, steps: seq<Step>)
    requires IsInitial(w) && After(w, steps + [RefreshNow]).Some?
    ensures var after := After(w, steps + [RefreshNow]).value;
            after.sheets.sources == Collected(after.dom)
  {
    InvariantHolds(w, steps + [RefreshNow]);
    var all := steps + [RefreshNow];
    assert all[..|all| - 1] == steps;
  }

  /** No two links of the list name one URL that nothing was ever requested for. */
  predicate NewLinksDistinct(sources: seq<StyleSource>, requested: set<string>) {
    forall i, j :: 0 <= i < j < |sources| && sources[i].kind.LinkTo? && sources[i].kind == sources[j].kind ==>
                     sources[i].kind.url in requested
  }

  lemma {:induction false} MissingFrom(sources: seq<StyleSource>, requested: set<string>, url: string)
    ensures url in Missing(sources, requested)
            <==> url !in requested && exists i :: 0 <= i < |sources| && sources[i].kind == LinkTo(url)
  {
    if |sources| > 0 {
      var rest := sources[..|sources| - 1];
      MissingFrom(rest, requested, url);
      if i :| 0 <= i < |sources| && sources[i].kind == LinkTo(url) {
        assert i < |rest| ==> rest[i].kind == LinkTo(url);
      }
    }
  }

  /** The missing list repeats a URL exactly when two links share one that nothing was requested for. */
  lemma {:induction false} MissingDistinctIff(sources: seq<StyleSource>, requested: set<string>)
    ensures NoRepeat(Missing(sources, requested)) <==> NewLinksDistinct(sources, requested)
  {
    if |sources| > 0 {
      var rest, last := sources[..|sources| - 1], sources[|sources| - 1];
      MissingDistinctIff(rest, requested);
      LastLinkDistinct(sources, requested);
      assert Missing(rest, requested) + [] == Missing(rest, requested);
      if last.kind.LinkTo? && last.kind.url !in requested {
        MissingFrom(rest, requested, last.kind.url);
        NoRepeatPush(Missing(rest, requested), last.kind.url);
      }
    }
  }

  lemma LastLinkDistinct(sources: seq<StyleSource>, requested: set<string>)
    requires |sources| > 0
    ensures var rest, last := sources[..|sources| - 1], sources[|sources| - 1].kind;
            NewLinksDistinct(sources, requested)
            <==> NewLinksDistinct(rest, requested)
                 && (last.LinkTo? && last.url !in requested ==> forall i :: 0 <= i < |rest| ==> rest[i].kind != last)
  {
    var rest, last := sources[..|sources| - 1], sources[|sources| - 1].kind;
    if NewLinksDistinct(sources, requested) {
      forall i | 0 <= i < |rest| && last.LinkTo? && last.url !in requested ensures rest[i].kind != last {
        assert sources[i] == rest[i];
      }
    }
  }

  lemma NoRepeatPush(urls: seq<string>, url: string)
    ensures NoRepeat(urls + [url]) <==> NoRepeat(urls) && url !in urls
  {
    var all := urls + [url];
    if NoRepeat(all) {
      NoRepeatParts(urls, [url]);
      forall i | 0 <= i < |urls| ensures urls[i] != url { assert all[i] != all[|urls|]; }
    }
  }

  /** At each refresh of a run, the document's first 64 sources hold no two links to one URL never requested before. */
  ghost predicate RefreshesDistinct(w: World, steps: seq<Step>)
    requires After(w, steps).Some?
  {
    |steps| == 0 ||
    (var before := After(w, steps[..|steps| - 1]).value;
     RefreshesDistinct(w, steps[..|steps| - 1])
     && (steps[|steps| - 1].RefreshNow? ==>
           NewLinksDistinct(Collected(before.dom), before.sheets.requested)))
  }

  lemma NoRepeatAppend(a: seq<string>, b: seq<string>)
    requires forall i, j :: 0 <= i < |a| && 0 <= j < |b| ==> a[i] != b[j]
    ensures NoRepeat(a + b) <==> NoRepeat(a) && NoRepeat(b)
  {
    if NoRepeat(a + b) { NoRepeatParts(a, b); }
  }

  /** Over a whole run, each link URL is fetched at most once if and only if no refresh finds the document with two
      links to one URL never requested: the missing list is gathered before any of it is marked as requested. */
  lemma {:induction false} FetchedOnceIff(w: World, steps: seq<Step>)
    requires IsInitial(w) && After(w, steps).Some?
    ensures NoRepeat(After(w, steps).value.started) <==> RefreshesDistinct(w, steps)
  {
    if |steps| > 0 {
      var past := steps[..|steps| - 1];
      var before := After(w, past).value;
      FetchedOnceIff(w, past);
      InvariantHolds(w, past);
      if steps[|steps| - 1].RefreshNow? {
        GatedRefreshIsRecollection(before.sheets, before.seen, before.dom, before.dirty, before.channel);
        var sources := Collected(before.dom);
        MissingAreNew(sources, before.sheets.requested);
        NoRepeatAppend(before.started, Missing(sources, before.sheets.requested));
        MissingDistinctIff(sources, before.sheets.requested);
      }
    }
  }

  lemma {:induction false} UrlInChannel(channel: seq<Fetch>, k: nat)
    requires k < |channel|
    ensures channel[k].url in Urls(channel)
  {
    if k < |channel| - 1 {
      UrlInChannel(channel[..|channel| - 1], k);
      assert channel[..|channel| - 1][k] == channel[k];
    }
  }

  /** In a run that fetches each URL once, no fetch ever overwrites a held body, so a refresh that reports no change
      has left the cascade input exactly as it was. */
  lemma FalseRefreshKeepsCss(w: World, steps: seq<Step>, userAgent: string)
    requires IsInitial(w) && After(w, steps).Some? && RefreshesDistinct(w, steps)
    ensures var before := After(w, steps).value;
            && (forall k :: 0 <= k < |before.channel| ==> before.channel[k].url !in before.sheets.bodies)
            && Acyclic(before.dom)
            && var r := Refresh(before.sheets, before.dom, before.dirty, before.channel);
               !r.changed ==> CssText(userAgent, r.sheets) == CssText(userAgent, before.sheets)
  {
    InvariantHolds(w, steps);
    FetchedOnceIff(w, steps);
    var before := After(w, steps).value;
    forall k | 0 <= k < |before.channel| ensures before.channel[k].url !in before.sheets.bodies {
      UrlInChannel(before.channel, k);
      assert before.channel[k].url in InFlight(before);
    }
    if !Refresh(before.sheets, before.dom, before.dirty, before.channel).changed {
      FalseRefreshKeepsCssIff(userAgent, before.sheets, before.dom, before.dirty, before.channel);
    }
  }

  /** The current links of a set that wait for a fetch still in flight. */
  ghost predicate SomeLinkInFlight(w: World) {
    exists i :: 0 <= i < |w.sheets.sources| && w.sheets.sources[i].kind.LinkTo?
                && w.sheets.sources[i].kind.url in InFlight(w)
  }

  /** A current link without a body waits for a fetch still in flight. */
  ghost predicate SomeEmptyLinkInFlight(w: World) {
    exists i :: 0 <= i < |w.sheets.sources| && w.sheets.sources[i].kind.LinkTo?
                && w.sheets.sources[i].kind.url !in w.sheets.bodies && w.sheets.sources[i].kind.url in InFlight(w)
  }

  /** Right after a refresh whose spawns succeed, some body is pending exactly when a current link without one is in
      flight. In a run that fetches each URL once, that is any current link in flight. */
  lemma PendingIffInFlight(w: World, steps: seq<Step>)
    requires IsInitial(w) && After(w, steps + [RefreshNow]).Some?
    ensures var after := After(w, steps + [RefreshNow]).value;
            && (HasPending(after.sheets) <==> SomeEmptyLinkInFlight(after))
            && (RefreshesDistinct(w, steps + [RefreshNow]) ==> (HasPending(after.sheets) <==> SomeLinkInFlight(after)))
  {
    var all := steps + [RefreshNow];
    assert all[..|all| - 1] == steps;
    InvariantHolds(w, steps);
    InvariantHolds(w, all);
    FetchedOnceIff(w, all);
    var before, after := After(w, steps).value, After(w, all).value;
    if HasPending(after.sheets) {
      var i :| 0 <= i < |after.sheets.sources| && after.sheets.sources[i].kind.LinkTo?
               && after.sheets.sources[i].kind.url !in after.sheets.bodies;
      MissingCovers(after.sheets.sources, before.sheets.requested, i);
      assert after.sheets.sources[i].kind.url in InFlight(after);
    }
    if RefreshesDistinct(w, all) && SomeLinkInFlight(after) {
      var i :| 0 <= i < |after.sheets.sources| && after.sheets.sources[i].kind.LinkTo?
               && after.sheets.sources[i].kind.url in InFlight(after);
      assert after.sheets.sources[i].kind.url !in after.sheets.bodies;
    }
  }

  // ---- two links to one sheet ---------------------------------------------------------------------------------------

  /** A document with no style source, and the same one after two links to one sheet were put in it. */
  function PlainDom(): Dom { Dom(map[0 := Other], map[], map[], 0, 0, 0) }

  function TwinDom(): Dom { Edited(PlainDom(), TwinEdit()) }

  function TwinEdit(): Edit {
    Restructure(map[0 := Other, 1 := Link(Some("u"), ""), 2 := Link(Some("u"), "")], map[0 := [1, 2]],
                map[0 := 1, 1 := 0, 2 := 0])
  }

  const TWINS: seq<StyleSource> := [StyleSource(1, LinkTo("u"), ""), StyleSource(2, LinkTo("u"), "")]

  ghost predicate IsTwin(dom: Dom) {
    Acyclic(dom) && dom.generation == 1 && dom.structureGeneration == 1 && Collected(dom) == TWINS
  }

  lemma TwinDomIsTwin()
    ensures IsTwin(TwinDom())
  {
    var dom := TwinDom();
    assert Acyclic(dom);
    LeafPreorder(dom, 1);
    LeafPreorder(dom, 2);
    TwoChildren(dom, 0, 1, 2);
  }

  lemma LeafPreorder(dom: Dom, n: NodeId)
    requires Acyclic(dom) && Children(dom, n) == []
    ensures Preorder(dom, n) == SourceOf(dom, n)
  {
    assert SourceOf(dom, n) + [] == SourceOf(dom, n);
  }

  lemma TwoChildren(dom: Dom, n: NodeId, c: NodeId, d: NodeId)
    requires Acyclic(dom) && Children(dom, n) == [c, d] && SourceOf(dom, n) == []
    ensures Preorder(dom, n) == Preorder(dom, c) + Preorder(dom, d)
  {
    assert PreorderBelow(dom, n, 0) == [];
    assert PreorderBelow(dom, n, 1) == Preorder(dom, c);
    assert PreorderBelow(dom, n, 2) == Preorder(dom, c) + Preorder(dom, d);
  }

  lemma TwinMissing(requested: set<string>)
    ensures Missing(TWINS, requested) == if "u" in requested then [] else ["u", "u"]
  {
    assert TWINS[..1] == [TWINS[0]] && TWINS[..1][..0] == [];
    assert Missing(TWINS[..1], requested) == if "u" in requested then [] else ["u"];
  }

  const GOOD: Fetch := Fetch("u", Loaded("p{}"))
  const BAD: Fetch := Fetch("u", FetchFailed)

  /** The world right after the edit, and the worlds in which both fetches have been started. */
  function EditedWorld(dom: Dom): World {
    World(PlainDom(), dom, {}, Sheets([], map[], {}, 0, 0), multiset{}, [], [])
  }

  function TwinWorld(dom: Dom, bodies: map<string, string>, flying: multiset<string>, channel: seq<Fetch>): World {
    World(dom, dom, {}, Sheets(TWINS, bodies, {"u"}, 1, 1), flying, channel, ["u", "u"])
  }

  lemma AfterOneMore(w: World, steps: seq<Step>, now: World, step: Step)
    requires After(w, steps) == Some(now) && Enabled(now, step)
    ensures After(w, steps + [step]) == Some(Next(now, step))
  {
    assert (steps + [step])[..|steps|] == steps;
  }

  /** A run that starts from a document without sheets and puts the two links in. */
  lemma TwinOpens() returns (steps: seq<Step>)
    ensures IsInitial(EditedWorld(PlainDom())) && IsTwin(TwinDom())
    ensures After(EditedWorld(PlainDom()), steps) == Some(EditedWorld(TwinDom()))
  {
    TwinDomIsTwin();
    PlainIsInitial();
    TwinEditNext(TwinEdit());
    AfterOneMore(EditedWorld(PlainDom()), [], EditedWorld(PlainDom()), Mutate(TwinEdit()));
    steps := [] + [Mutate(TwinEdit())];
  }

  lemma PlainIsInitial()
    ensures IsInitial(EditedWorld(PlainDom()))
  {
    assert Preorder(PlainDom(), 0) == [];
  }

  lemma TwinEditNext(edit: Edit)
    requires edit.Restructure? && Acyclic(Edited(PlainDom(), edit))
    ensures Enabled(EditedWorld(PlainDom()), Mutate(edit))
    ensures Next(EditedWorld(PlainDom()), Mutate(edit)) == EditedWorld(Edited(PlainDom(), edit))
  {
    assert {} + DirtiedBy(edit) == {};
  }

  /** A refresh behind a moved structure counter takes the walk's list and starts what it misses. */
  lemma WalkingRefresh(s: Sheets, dom: Dom)
    requires Acyclic(dom) && s.structureGeneration != dom.structureGeneration
    ensures var r, missing := Refresh(s, dom, {}, []), Missing(Collected(dom), s.requested);
            && r.spawned == missing
            && r.sheets == Sheets(Collected(dom), s.bodies, s.requested + Members(missing), dom.structureGeneration,
                                  dom.generation)
  {
    RereadCollected(dom);
  }

  /** The first refresh after the edit starts the same fetch twice. */
  lemma TwinFirstRefresh(dom: Dom)
    requires IsTwin(dom)
    ensures Next(EditedWorld(dom), RefreshNow) == TwinWorld(dom, map[], multiset{"u", "u"}, [])
  {
    TwinMissing({});
    WalkingRefresh(EditedWorld(dom).sheets, dom);
    assert {} + Members(["u", "u"]) == {"u"};
    assert multiset{} + multiset(["u", "u"]) == multiset{"u", "u"};
    assert [] + ["u", "u"] == ["u", "u"];
  }

  lemma DrainOne(bodies: map<string, string>, fetch: Fetch)
    ensures Drained(bodies, [fetch]) == Landed(bodies, fetch)
    ensures AnyLoaded([fetch]) == fetch.body.Loaded?
  {
    assert [fetch][..0] == [] && [fetch][0] == fetch;
  }

  /** A refresh over an unchanged document with nothing to request only takes what landed. */
  lemma QuietRefresh(s: Sheets, dom: Dom, fetch: Fetch)
    requires Acyclic(dom) && s.structureGeneration == dom.structureGeneration && s.domGeneration == dom.generation
    requires Missing(s.sources, s.requested) == []
    ensures Refresh(s, dom, {}, [fetch])
         == Refreshed(s.(bodies := Landed(s.bodies, fetch)), fetch.body.Loaded?, [])
  {
    DrainOne(s.bodies, fetch);
    assert s.requested + Members([]) == s.requested;
  }

  /** A later refresh takes the one fetch that landed, and starts nothing. */
  lemma TwinLaterRefresh(dom: Dom, bodies: map<string, string>, flying: multiset<string>, fetch: Fetch)
    requires IsTwin(dom)
    ensures Next(TwinWorld(dom, bodies, flying, [fetch]), RefreshNow) == TwinWorld(dom, Landed(bodies, fetch), flying, [])
    ensures Refresh(TwinWorld(dom, bodies, flying, [fetch]).sheets, dom, {}, [fetch]).changed == fetch.body.Loaded?
  {
    TwinMissing({"u"});
    QuietRefresh(TwinWorld(dom, bodies, flying, [fetch]).sheets, dom, fetch);
    assert flying + multiset([]) == flying && ["u", "u"] + [] == ["u", "u"];
  }

  /** One fetch lands and is taken by a refresh. */
  lemma TwinTakes(w: World, past: seq<Step>, dom: Dom, bodies: map<string, string>, flying: multiset<string>, fetch: Fetch)
    returns (steps: seq<Step>)
    requires IsTwin(dom) && fetch.url == "u"
    requires After(w, past) == Some(TwinWorld(dom, bodies, flying + multiset{"u"}, []))
    ensures After(w, steps) == Some(TwinWorld(dom, bodies, flying, [fetch]))
    ensures After(w, steps + [RefreshNow]) == Some(TwinWorld(dom, Landed(bodies, fetch), flying, []))
  {
    TwinLands(dom, bodies, flying, fetch);
    AfterOneMore(w, past, TwinWorld(dom, bodies, flying + multiset{"u"}, []), Land(fetch));
    steps := past + [Land(fetch)];
    TwinLaterRefresh(dom, bodies, flying, fetch);
    AfterOneMore(w, steps, TwinWorld(dom, bodies, flying, [fetch]), RefreshNow);
  }

  lemma TwinLands(dom: Dom, bodies: map<string, string>, flying: multiset<string>, fetch: Fetch)
    requires fetch.url == "u"
    ensures Next(TwinWorld(dom, bodies, flying + multiset{"u"}, []), Land(fetch)) == TwinWorld(dom, bodies, flying, [fetch])
  {
    assert flying + multiset{"u"} - multiset{"u"} == flying && [] + [fetch] == [fetch];
  }

  /** The first refresh, and the landing of one of its two fetches. */
  lemma TwinFirstFetch(w: World, past: seq<Step>, dom: Dom) returns (steps: seq<Step>)
    requires IsTwin(dom) && After(w, past) == Some(EditedWorld(dom))
    ensures After(w, steps + [RefreshNow]) == Some(TwinWorld(dom, Landed(map[], GOOD), multiset{"u"}, []))
  {
    TwinFirstRefresh(dom);
    AfterOneMore(w, past, EditedWorld(dom), RefreshNow);
    assert multiset{"u"} + multiset{"u"} == multiset{"u", "u"};
    steps := TwinTakes(w, past + [RefreshNow], dom, map[], multiset{"u"}, GOOD);
  }

  lemma TwinBlanks(dom: Dom)
    requires IsTwin(dom)
    ensures var shown := TwinWorld(dom, Landed(map[], GOOD), multiset{}, [BAD]).sheets;
            var r := Refresh(shown, dom, {}, [BAD]);
            !r.changed && CssText("", r.sheets) != CssText("", shown)
  {
    var bodies := Landed(map[], GOOD);
    var shown := TwinWorld(dom, bodies, multiset{}, [BAD]).sheets;
    TwinLaterRefresh(dom, bodies, multiset{}, BAD);
    assert !IsSpace("p{}"[0]) && bodies["u"] == "p{}";
    assert Erases(TWINS[0], bodies, [BAD]) by { assert [BAD][0] == BAD; }
    FalseRefreshKeepsCssIff("", shown, dom, {}, [BAD]);
  }

  /** Where a URL is fetched twice, a link can be in flight with nothing pending: its body is already held. */
  lemma TwinInFlightNotPending() returns (w: World, steps: seq<Step>)
    ensures IsInitial(w) && After(w, steps + [RefreshNow]).Some?
    ensures var after := After(w, steps + [RefreshNow]).value;
            SomeLinkInFlight(after) && !HasPending(after.sheets)
  {
    var dom := TwinDom();
    w := EditedWorld(PlainDom());
    var begun := TwinOpens();
    steps := TwinFirstFetch(w, begun, dom);
    TwinStillFlies(dom, Landed(map[], GOOD));
  }

  lemma TwinStillFlies(dom: Dom, bodies: map<string, string>)
    requires "u" in bodies
    ensures var after := TwinWorld(dom, bodies, multiset{"u"}, []);
            SomeLinkInFlight(after) && !HasPending(after.sheets)
  {
    var after := TwinWorld(dom, bodies, multiset{"u"}, []);
    assert after.sheets.sources[0].kind == LinkTo("u") && "u" in InFlight(after);
  }

  /** From a document with no sheets, a run of one edit, two refreshes and both landings leads to a refresh that blanks
      the sheet both links show and reports no change. */
  lemma FailedTwinErasesSheet() returns (w: World, steps: seq<Step>)
    ensures IsInitial(w) && After(w, steps).Some?
    ensures var before := After(w, steps).value;
            && Acyclic(before.dom) && before.started == ["u", "u"]
            && var r := Refresh(before.sheets, before.dom, before.dirty, before.channel);
               !r.changed && CssText("", r.sheets) != CssText("", before.sheets)
  {
    var dom := TwinDom();
    w := EditedWorld(PlainDom());
    var begun := TwinOpens();
    var first := TwinFirstFetch(w, begun, dom);
    assert multiset{} + multiset{"u"} == multiset{"u"};
    steps := TwinTakes(w, first + [RefreshNow], dom, Landed(map[], GOOD), multiset{}, BAD);
    TwinBlanks(dom);
  }
}
