/** The live stylesheet set as the program keeps it: fields updated in place, loops over sources and completions. */
module LiveStyleSheetSet {
  import opened Geometry
  import opened StyleDom
  import opened StyleSheetSet

  lemma DrainedFirst(bodies: map<string, string>, arrived: seq<Fetch>)
    requires |arrived| > 0
    ensures Drained(bodies, arrived) == Drained(Landed(bodies, arrived[0]), arrived[1..])
  {
    if |arrived| == 1 {
      assert arrived[..0] == [] && arrived[1..] == [];
    } else {
      var rest := arrived[..|arrived| - 1];
      DrainedFirst(bodies, rest);
      assert rest[1..] == arrived[1..][..|arrived| - 2];
    }
  }

  /** Adding one more source's text to what precedes it. */
  lemma ContributionsGrow(before: string, sources: seq<StyleSource>, i: nat, bodies: map<string, string>, piece: string)
    requires i < |sources| && piece == Contribution(sources[i], bodies)
    ensures before + Contributions(sources[..i + 1], bodies) == (before + Contributions(sources[..i], bodies)) + piece
  {
    var grown, past := sources[..i + 1], sources[..i];
    assert grown[..|grown| - 1] == past && grown[|grown| - 1] == sources[i];
    var text := Contributions(past, bodies);
    assert Contributions(grown, bodies) == text + piece;
    assert before + (text + piece) == (before + text) + piece;
  }

  /** No later entry of the list is for the same URL. */
  predicate IsLastFor(fetched: seq<(string, string)>, i: int) {
    0 <= i < |fetched| && forall k :: i < k < |fetched| ==> fetched[k].0 != fetched[i].0
  }

  lemma LastForGrows(fetched: seq<(string, string)>, i: nat)
    requires i < |fetched|
    ensures forall k :: IsLastFor(fetched[..i + 1], k) ==> k == i || (IsLastFor(fetched[..i], k) && fetched[k].0 != fetched[i].0)
  {
    forall k | IsLastFor(fetched[..i + 1], k) && k != i
      ensures IsLastFor(fetched[..i], k) && fetched[k].0 != fetched[i].0
    {
      assert fetched[..i + 1][i] == fetched[i];
      assert forall m :: k < m < i ==> fetched[..i][m] == fetched[..i + 1][m];
    }
  }

  /** A refresh, from the list the walk left, the list after the rereading, and the fetches started. */
  lemma RefreshedBy(s: Sheets, dom: Dom, dirty: set<NodeId>, arrived: seq<Fetch>, walked: seq<StyleSource>,
                    sources: seq<StyleSource>, missing: seq<string>)
    requires Acyclic(dom)
    requires walked == if Recollects(s, dom, dirty) then Collected(dom) else s.sources
    requires sources == if dom.generation != s.domGeneration then Reread(dom, walked) else walked
    requires missing == Missing(sources, s.requested)
    ensures StyleSheetSet.Refresh(s, dom, dirty, arrived)
         == Refreshed(Sheets(sources, Drained(s.bodies, arrived), s.requested + Members(missing),
                             if Recollects(s, dom, dirty) then dom.structureGeneration else s.structureGeneration,
                             dom.generation),
                      AnyLoaded(arrived) || walked != s.sources || sources != walked, missing)
  {}

  class LiveStyleSheetSet {
    var sources: seq<StyleSource>
    var bodies: map<string, string>
    var requested: set<string>
    var structureGeneration: nat
    var domGeneration: nat
    var completions: seq<Fetch>

    ghost function Value(): Sheets
      reads this
    {
      Sheets(sources, bodies, requested, structureGeneration, domGeneration)
    }

    /** A set built from a collected list and the bodies fetched with it; what was fetched counts as requested. */
    constructor (sources: seq<StyleSource>, fetched: seq<(string, string)>, dom: Dom)
      ensures this.sources == sources && completions == []
      ensures requested == bodies.Keys
      ensures bodies.Keys == set i | 0 <= i < |fetched| :: fetched[i].0
      ensures forall i :: IsLastFor(fetched, i) ==> bodies[fetched[i].0] == fetched[i].1
      ensures structureGeneration == dom.structureGeneration && domGeneration == dom.generation
      ensures Acyclic(dom) && sources == Collected(dom) ==> CurrentFor(Value(), dom)
    {
      var held: map<string, string>, asked: set<string> := map[], {};
      for i := 0 to |fetched|
        invariant asked == held.Keys == set k | 0 <= k < i :: fetched[k].0
        invariant forall k :: IsLastFor(fetched[..i], k) ==> held[fetched[k].0] == fetched[k].1
      {
        LastForGrows(fetched, i);
        asked := asked + {fetched[i].0};
        held := held[fetched[i].0 := fetched[i].1];
      }
      this.sources, bodies, requested := sources, held, asked;
      structureGeneration, domGeneration := dom.structureGeneration, dom.generation;
      completions := [];
    }

    /** Takes every fetch that finished since the last call; true when one of them succeeded. */
    method DrainCompletions() returns (landed: bool)
      modifies `bodies, `completions
      ensures bodies == Drained(old(bodies), old(completions)) && completions == []
      ensures landed == AnyLoaded(old(completions))
    {
      landed := false;
      ghost var taken := 0;
      while |completions| > 0
        invariant taken <= |old(completions)| && completions == old(completions)[taken..]
        invariant Drained(bodies, completions) == Drained(old(bodies), old(completions))
        invariant landed == exists i :: 0 <= i < taken && old(completions)[i].body.Loaded?
        decreases |completions|
      {
        var fetch := completions[0];
        DrainedFirst(bodies, completions);
        completions := completions[1..];
        match fetch.body {
          case Loaded(css) =>
            bodies := bodies[fetch.url := css];
            landed := true;
          case FetchFailed => bodies := bodies[fetch.url := ""];
        }
        taken := taken + 1;
      }
    }

    /** Rereads the text of every `<style>` already collected; true when one of them moved. */
    method RereadInlineText(dom: Dom) returns (changed: bool)
      modifies `sources
      ensures sources == Reread(dom, old(sources))
      ensures changed == (sources != old(sources))
    {
      changed := false;
      var i := 0;
      while i < |sources|
        invariant i <= |sources| == |old(sources)|
        invariant forall k :: 0 <= k < i ==> sources[k] == RereadOne(dom, old(sources)[k])
        invariant forall k :: i <= k < |sources| ==> sources[k] == old(sources)[k]
        invariant changed == exists k :: 0 <= k < i && sources[k] != old(sources)[k]
      {
        if sources[i].kind.Inline? {
          var current := StyleText(dom, sources[i].owner);
          if current != sources[i].kind.text {
            sources := sources[i := sources[i].(kind := Inline(current))];
            changed := true;
          }
        }
        i := i + 1;
      }
    }

    /** Starts a fetch for every link URL never requested; the result lists them in order. */
    method RequestMissingBodies() returns (spawned: seq<string>)
      modifies `requested
      ensures spawned == Missing(sources, old(requested))
      ensures requested == old(requested) + Members(spawned)
    {
      spawned := [];
      for i := 0 to |sources|
        invariant requested == old(requested)
        invariant spawned == Missing(sources[..i], requested)
      {
        var kind := sources[i].kind;
        assert sources[..i + 1][..i] == sources[..i];
        if kind.LinkTo? && kind.url !in requested {
          spawned := spawned + [kind.url];
        }
      }
      assert sources[..|sources|] == sources;
      for i := 0 to |spawned|
        invariant requested == old(requested) + Members(spawned[..i])
      {
        assert Members(spawned[..i + 1]) == Members(spawned[..i]) + {spawned[i]};
        requested := requested + {spawned[i]};
      }
      assert spawned[..|spawned|] == spawned;
    }

    /** Brings the set up to date with a document; true when the cascade input may have moved. */
    method Refresh(dom: Dom, dirty: seq<NodeId>) returns (changed: bool, spawned: seq<string>)
      requires Acyclic(dom)
      modifies this
      ensures StyleSheetSet.Refresh(old(Value()), dom, set n | n in dirty, old(completions))
           == Refreshed(Value(), changed, spawned)
      ensures completions == []
    {
      ghost var before, touched, arrived := Value(), (set n | n in dirty), completions;
      changed := DrainCompletions();
      var sourceTouched := exists n :: n in dirty && IsStyleSource(dom, n);
      assert sourceTouched == exists n :: n in touched && IsStyleSource(dom, n);
      if dom.structureGeneration != structureGeneration || sourceTouched {
        structureGeneration := dom.structureGeneration;
        var collected := CollectStyleSources(dom);
        if collected != sources {
          sources := collected;
          changed := true;
        }
      }
      ghost var walked := sources;
      if dom.generation != domGeneration {
        domGeneration := dom.generation;
        var reread := RereadInlineText(dom);
        changed := changed || reread;
      }
      spawned := RequestMissingBodies();
      RefreshedBy(before, dom, touched, arrived, walked, sources, spawned);
    }

    /** Whether some link still waits for its body. */
    method HasPendingFetches() returns (pending: bool)
      ensures pending == HasPending(Value())
    {
      pending := false;
      for i := 0 to |sources|
        invariant pending ==> HasPending(Value())
        invariant !pending ==> forall k :: 0 <= k < i ==> sources[k].kind.LinkTo? ==> sources[k].kind.url in bodies
      {
        if sources[i].kind.LinkTo? && sources[i].kind.url !in bodies {
          pending := true;
        }
      }
    }

    /** The user-agent sheet followed by every source's text in document order. */
    method ConcatenatedCss(userAgent: string) returns (css: string)
      ensures css == CssText(userAgent, Value())
    {
      css := userAgent + "\n";
      for i := 0 to |sources|
        invariant css == userAgent + "\n" + Contributions(sources[..i], bodies)
      {
        var piece := Contribution(sources[i], bodies);
        ContributionsGrow(userAgent + "\n", sources, i, bodies, piece);
        css := css + piece;
      }
      assert sources[..|sources|] == sources;
    }
  }
}
