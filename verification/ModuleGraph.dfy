/** The bounded breadth-first walk of a page's module graph. */
module ModuleGraph {
  import opened Geometry

  const MAX_ROUNDS: nat := 8

  /** The network and the import scanner: what a URL's module text is, when it can be fetched and scanned, and the
      URLs one module imports. */
  datatype Web = Web(text: string -> Option<string>, imports: (string, string) -> seq<string>)

  type Module = (string, string)

  // ---- what the walk is measured against ----------------------------------------------------------------------------

  function Members(urls: seq<string>): set<string> { set u | u in urls }

  function Imports(web: Web, url: string): seq<string> {
    var text := web.text(url);
    if text.None? then [] else web.imports(url, text.value)
  }

  function ImportsOfAll(web: Web, urls: set<string>): set<string> { set u, v | u in urls && v in Imports(web, u) :: v }

  type Step = set<string> -> set<string>

  /** `base` and what `k` steps add to it. */
  function Iterate(step: Step, base: set<string>, k: nat): set<string> {
    if k == 0 then base
    else
      var before := Iterate(step, base, k - 1);
      before + step(before)
  }

  /** What fewer than `k` steps reach. */
  function Nearer(step: Step, base: set<string>, k: nat): set<string> {
    if k == 0 then {} else Iterate(step, base, k - 1)
  }

  /** What exactly `k` steps are needed for. */
  function Ring(step: Step, base: set<string>, k: nat): set<string> { Iterate(step, base, k) - Nearer(step, base, k) }

  function ImportStep(web: Web): Step { (urls: set<string>) => ImportsOfAll(web, urls) }

  /** The URLs within `k` imports of a root. */
  function Reach(web: Web, roots: seq<string>, k: nat): set<string> { Iterate(ImportStep(web), Members(roots), k) }

  /** The URLs at shortest import distance exactly `k`. */
  function Layer(web: Web, roots: seq<string>, k: nat): set<string> { Ring(ImportStep(web), Members(roots), k) }

  /** A chain of imports from a root. */
  ghost predicate IsChain(web: Web, roots: seq<string>, chain: seq<string>) {
    && |chain| > 0 && chain[0] in roots
    && forall i :: 0 < i < |chain| ==> chain[i] in Imports(web, chain[i - 1])
  }

  /** `Reach` is reachability by a chain of at most that many imports. */
  lemma {:induction false} ReachIsChains(web: Web, roots: seq<string>, k: nat, url: string)
    ensures url in Reach(web, roots, k)
            <==> exists chain :: IsChain(web, roots, chain) && |chain| <= k + 1 && chain[|chain| - 1] == url
  {
    if url in Reach(web, roots, k) {
      var chain := ChainTo(web, roots, k, url);
    }
    forall chain | IsChain(web, roots, chain) && |chain| <= k + 1 && chain[|chain| - 1] == url
      ensures url in Reach(web, roots, k)
    {
      ChainReaches(web, roots, chain, k);
    }
  }

  lemma {:induction false} ChainTo(web: Web, roots: seq<string>, k: nat, url: string) returns (chain: seq<string>)
    requires url in Reach(web, roots, k)
    ensures IsChain(web, roots, chain) && |chain| <= k + 1 && chain[|chain| - 1] == url
  {
    if k == 0 {
      chain := [url];
    } else if url in Reach(web, roots, k - 1) {
      chain := ChainTo(web, roots, k - 1, url);
    } else {
      var u :| u in Reach(web, roots, k - 1) && url in Imports(web, u);
      var shorter := ChainTo(web, roots, k - 1, u);
      chain := shorter + [url];
      ChainExtends(web, roots, shorter, url);
    }
  }

  lemma ChainExtends(web: Web, roots: seq<string>, chain: seq<string>, url: string)
    requires IsChain(web, roots, chain) && url in Imports(web, chain[|chain| - 1])
    ensures IsChain(web, roots, chain + [url])
  {}

  lemma {:induction false} ChainReaches(web: Web, roots: seq<string>, chain: seq<string>, k: nat)
    requires IsChain(web, roots, chain) && |chain| <= k + 1
    ensures chain[|chain| - 1] in Reach(web, roots, k)
    decreases k
  {
    if k > 0 {
      if |chain| <= k {
        ChainReaches(web, roots, chain, k - 1);
      } else {
        ChainReaches(web, roots, chain[..|chain| - 1], k - 1);
        assert chain[|chain| - 1] in Imports(web, chain[|chain| - 2]);
      }
    }
  }

  /** Once a step reaches nothing new, nothing further is reachable. */
  lemma {:induction false} IterateIsFixed(step: Step, base: set<string>, k: nat, n: nat)
    requires Iterate(step, base, k + 1) == Iterate(step, base, k)
    requires n >= k
    ensures Iterate(step, base, n) == Iterate(step, base, k)
  {
    if n > k { IterateIsFixed(step, base, k, n - 1); }
  }

  lemma {:induction false} IterateGrows(step: Step, base: set<string>, n: nat, k: nat)
    requires n <= k
    ensures Iterate(step, base, n) <= Iterate(step, base, k)
  {
    if n < k { IterateGrows(step, base, n, k - 1); }
  }

  lemma {:induction false} NothingAtAll(step: Step, n: nat)
    requires step({}) == {}
    ensures Iterate(step, {}, n) == {}
  {
    if n > 0 { NothingAtAll(step, n - 1); }
  }

  /** A step that works URL by URL. */
  ghost predicate Pointwise(step: Step) {
    step({}) == {} && forall a, b :: step(a + b) == step(a) + step(b)
  }

  /** The next reach needs only the step of the last ring: everything nearer was already counted. */
  lemma RingStep(step: Step, base: set<string>, k: nat)
    requires Pointwise(step)
    ensures Iterate(step, base, k + 1) == Iterate(step, base, k) + step(Ring(step, base, k))
  {
    var near, ring := Nearer(step, base, k), Ring(step, base, k);
    if k > 0 {
      assert Iterate(step, base, k) == near + ring;
      assert step(near + ring) == step(near) + step(ring);
    } else {
      assert ring == base;
    }
  }

  // ---- the parts of the walk ------------------------------------------------------------------------------------------

  predicate NoRepeat(urls: seq<string>) { forall i, j :: 0 <= i < j < |urls| ==> urls[i] != urls[j] }

  /** The URLs not in `seen`, without repeats, each where it first appears. */
  function FirstNew(urls: seq<string>, seen: set<string>): seq<string> {
    if |urls| == 0 then []
    else
      var earlier, last := FirstNew(urls[..|urls| - 1], seen), urls[|urls| - 1];
      if last in seen || last in earlier then earlier else earlier + [last]
  }

  lemma {:induction false} FirstNewIs(urls: seq<string>, seen: set<string>)
    ensures var found := FirstNew(urls, seen);
            && NoRepeat(found) && Members(found) <= Members(urls) && Members(found) !! seen
            && Members(urls) <= seen + Members(found)
  {
    if |urls| > 0 {
      var past, last := urls[..|urls| - 1], urls[|urls| - 1];
      FirstNewIs(past, seen);
      assert urls == past + [last];
      MembersOfMore(past, last);
      MembersOfMore(FirstNew(past, seen), last);
    }
  }

  lemma {:induction false} FirstNewOfPrefix(urls: seq<string>, i: nat, seen: set<string>)
    requires i <= |urls|
    ensures FirstNew(urls[..i], seen) <= FirstNew(urls, seen)
  {
    if i < |urls| {
      FirstNewOfPrefix(urls[..|urls| - 1], i, seen);
      assert urls[..|urls| - 1][..i] == urls[..i];
    } else {
      assert urls[..i] == urls;
    }
  }

  lemma {:induction false} FirstNewOfDistinct(urls: seq<string>)
    requires NoRepeat(urls)
    ensures FirstNew(urls, {}) == urls
  {
    if |urls| > 0 {
      var past, last := urls[..|urls| - 1], urls[|urls| - 1];
      FirstNewOfDistinct(past);
      assert urls == past + [last];
    }
  }

  method Dedupe(urls: seq<string>) returns (deduped: seq<string>)
    ensures deduped == FirstNew(urls, {})
  {
    deduped := [];
    for i := 0 to |urls|
      invariant deduped == FirstNew(urls[..i], {})
    {
      assert urls[..i + 1][..i] == urls[..i];
      if urls[i] !in deduped {
        deduped := deduped + [urls[i]];
      }
    }
    assert urls[..|urls|] == urls;
  }

  /** Takes the pending URLs not seen before, in order, until the URL limit is met; what is left is dropped. */
  method TakeRound(pending: seq<string>, seen: set<string>, limit: nat) returns (round: seq<string>, seen': set<string>)
    requires |seen| <= limit
    ensures round == FirstNew(pending, seen)[..Min(|FirstNew(pending, seen)|, limit - |seen|)]
    ensures seen' == seen + Members(round)
  {
    round, seen' := [], seen;
    var i := 0;
    while i < |pending|
      invariant i <= |pending| && round == FirstNew(pending[..i], seen)
      invariant seen' == seen + Members(round) && |seen'| == |seen| + |round| <= limit
    {
      if |seen'| >= limit {
        FirstNewOfPrefix(pending, i, seen);
        return;
      }
      assert pending[..i + 1][..i] == pending[..i];
      if pending[i] !in seen' {
        MembersOfMore(round, pending[i]);
        seen' := seen' + {pending[i]};
        round := round + [pending[i]];
      }
      i := i + 1;
    }
    assert pending[..|pending|] == pending;
  }

  /** `round` is a batch of new pending URLs within the limit; only meeting the limit leaves a pending URL unseen. */
  ghost predicate Taken(pending: seq<string>, seen: set<string>, limit: nat, round: seq<string>, seen': set<string>) {
    && NoRepeat(round) && Members(round) <= Members(pending) && Members(round) !! seen
    && seen' == seen + Members(round) && |seen'| == |seen| + |round| <= limit
    && (|seen'| < limit ==> Members(pending) <= seen')
  }

  lemma {:induction false} SizeOfDistinct(urls: seq<string>)
    requires NoRepeat(urls)
    ensures |Members(urls)| == |urls|
  {
    if |urls| > 0 {
      var past, last := urls[..|urls| - 1], urls[|urls| - 1];
      SizeOfDistinct(past);
      assert urls == past + [last];
      MembersOfMore(past, last);
    }
  }

  lemma RoundIsTaken(pending: seq<string>, seen: set<string>, limit: nat, round: seq<string>, seen': set<string>)
    requires |seen| <= limit
    requires round == FirstNew(pending, seen)[..Min(|FirstNew(pending, seen)|, limit - |seen|)]
    requires seen' == seen + Members(round)
    ensures Taken(pending, seen, limit, round, seen')
  {
    FirstNewIs(pending, seen);
    assert Members(round) <= Members(FirstNew(pending, seen));
    SizeOfDistinct(round);
    assert |seen + Members(round)| == |seen| + |Members(round)|;
    if |seen'| < limit { assert round == FirstNew(pending, seen); }
  }

  /** The modules among `urls` whose text arrived, in order. */
  function Fetched(web: Web, urls: seq<string>): seq<Module> {
    if |urls| == 0 then []
    else
      var last := urls[|urls| - 1];
      var text := web.text(last);
      Fetched(web, urls[..|urls| - 1]) + if text.None? then [] else [(last, text.value)]
  }

  /** Everything the fetched modules import, module by module. */
  function ChildUrls(web: Web, modules: seq<Module>): seq<string> {
    if |modules| == 0 then []
    else
      var last := modules[|modules| - 1];
      ChildUrls(web, modules[..|modules| - 1]) + web.imports(last.0, last.1)
  }

  /** The modules fetched are the requested URLs that have a text, each with its own. */
  lemma {:induction false} FetchedAre(web: Web, urls: seq<string>, url: string, text: string)
    ensures (url, text) in Fetched(web, urls) <==> url in urls && web.text(url) == Some(text)
  {
    if |urls| > 0 { FetchedAre(web, urls[..|urls| - 1], url, text); }
  }

  lemma MembersOfMore(a: seq<string>, url: string)
    ensures Members(a + [url]) == Members(a) + {url}
    ensures NoRepeat(a) && url !in Members(a) ==> NoRepeat(a + [url])
  {}

  lemma MembersAppend(a: seq<string>, b: seq<string>)
    ensures Members(a + b) == Members(a) + Members(b)
  {}

  lemma ImportsOfUnion(web: Web, a: set<string>, b: set<string>)
    ensures ImportsOfAll(web, a + b) == ImportsOfAll(web, a) + ImportsOfAll(web, b)
  {}

  lemma ImportStepIsPointwise(web: Web)
    ensures Pointwise(ImportStep(web))
  {}

  lemma ImportsOfOne(web: Web, url: string)
    ensures ImportsOfAll(web, {url}) == Members(Imports(web, url))
  {}

  /** Scanning the fetched modules of a batch yields exactly what the batch imports. */
  lemma {:induction false} ChildrenAreImports(web: Web, urls: seq<string>)
    ensures Members(ChildUrls(web, Fetched(web, urls))) == ImportsOfAll(web, Members(urls))
  {
    if |urls| > 0 {
      var past, last := urls[..|urls| - 1], urls[|urls| - 1];
      ChildrenAreImports(web, past);
      MembersAppend(past, [last]);
      assert urls == past + [last] && Members([last]) == {last};
      ImportsOfUnion(web, Members(past), {last});
      ImportsOfOne(web, last);
      var children := ChildUrls(web, Fetched(web, past));
      ChildrenOfLast(web, urls);
      MembersAppend(children, Imports(web, last));
    }
  }

  lemma ChildrenOfLast(web: Web, urls: seq<string>)
    requires |urls| > 0
    ensures ChildUrls(web, Fetched(web, urls))
         == ChildUrls(web, Fetched(web, urls[..|urls| - 1])) + Imports(web, urls[|urls| - 1])
  {
    var modules, before := Fetched(web, urls), Fetched(web, urls[..|urls| - 1]);
    if web.text(urls[|urls| - 1]).Some? {
      assert modules[..|modules| - 1] == before;
    } else {
      assert modules == before;
    }
  }

  // ---- the walk ------------------------------------------------------------------------------------------------------

  function Requested(rounds: seq<seq<string>>): seq<string> {
    if |rounds| == 0 then [] else Requested(rounds[..|rounds| - 1]) + rounds[|rounds| - 1]
  }

  /** The first `n` rounds each requested the URLs of their ring and nothing else. */
  ghost predicate RoundsAreRings(step: Step, base: set<string>, rounds: seq<seq<string>>, n: nat) {
    n <= |rounds| && forall k :: 0 <= k < n ==> Members(rounds[k]) == Ring(step, base, k)
  }

  ghost predicate RoundsAreLayers(web: Web, roots: seq<string>, rounds: seq<seq<string>>, n: nat) {
    n <= |rounds| && forall k :: 0 <= k < n ==> Members(rounds[k]) == Layer(web, roots, k)
  }

  /** While the limit is not met, what has been seen and what is pending make up the next reach. */
  ghost predicate Frontier(step: Step, base: set<string>, rounds: seq<seq<string>>, seen: set<string>, pending: set<string>)
  {
    && RoundsAreRings(step, base, rounds, |rounds|)
    && seen == Nearer(step, base, |rounds|)
    && seen + pending == Iterate(step, base, |rounds|)
  }

  /** What every moment of the walk keeps. */
  ghost predicate Walked(step: Step, base: set<string>, limit: nat, rounds: seq<seq<string>>, seen: set<string>) {
    && NoRepeat(Requested(rounds)) && Members(Requested(rounds)) == seen && |Requested(rounds)| == |seen| <= limit
    && RoundsAreRings(step, base, rounds, if |rounds| == 0 then 0 else |rounds| - 1)
    && (|rounds| > 0 ==> Members(rounds[|rounds| - 1]) <= Ring(step, base, |rounds| - 1))
  }

  /** What is waiting when round `k` begins: the roots, or the imports of the round before. */
  function PendingAt(web: Web, roots: seq<string>, rounds: seq<seq<string>>, k: nat): seq<string>
    requires k <= |rounds|
  {
    if k == 0 then roots else ChildUrls(web, Fetched(web, rounds[k - 1]))
  }

  ghost predicate RoundsInOrder(web: Web, roots: seq<string>, rounds: seq<seq<string>>)
    decreases |rounds|
  {
    |rounds| == 0 ||
    (var before := rounds[..|rounds| - 1];
     && RoundsInOrder(web, roots, before)
     && rounds[|rounds| - 1] <= FirstNew(PendingAt(web, roots, before, |before|), Members(Requested(before))))
  }

  lemma {:induction false} OrderFromDeduped(web: Web, roots: seq<string>, rounds: seq<seq<string>>)
    requires RoundsInOrder(web, FirstNew(roots, {}), rounds)
    ensures RoundsInOrder(web, roots, rounds)
    decreases |rounds|
  {
    if |rounds| > 0 {
      OrderFromDeduped(web, roots, rounds[..|rounds| - 1]);
      FirstNewIs(roots, {});
      FirstNewOfDistinct(FirstNew(roots, {}));
      assert Members([]) == {};
    }
  }

  /** The bounded breadth-first walk. `rounds` are the batches requested of the network, in order. */
  method FetchModuleGraph(web: Web, roots: seq<string>, limit: nat)
    returns (fetched: seq<Module>, rounds: seq<seq<string>>)
    ensures |rounds| <= MAX_ROUNDS && fetched == Fetched(web, Requested(rounds))
    // No URL is requested twice, and the requests stay within the URL limit.
    ensures NoRepeat(Requested(rounds)) && |Requested(rounds)| <= limit
    // Every round but a truncated last one is exactly a distance layer; a truncated one is part of its layer.
    ensures RoundsAreLayers(web, roots, rounds, if |rounds| == 0 then 0 else |rounds| - 1)
    ensures |rounds| > 0 ==> Members(rounds[|rounds| - 1]) <= Layer(web, roots, |rounds| - 1)
    ensures |Requested(rounds)| < limit ==> RoundsAreLayers(web, roots, rounds, |rounds|)
    // Within a round, URLs are requested in the order in which the roots, or the previous round's modules, name them.
    ensures RoundsInOrder(web, roots, rounds)
    // Stopping below both limits means everything reachable through fetched modules was requested.
    ensures |Requested(rounds)| < limit && |rounds| < MAX_ROUNDS ==>
              forall n: nat :: Reach(web, roots, n) <= Members(Requested(rounds))
  {
    ghost var step, base := ImportStep(web), Members(roots);
    ImportStepIsPointwise(web);
    ImportStepScans(web);
    var pending := Dedupe(roots);
    FirstNewIs(roots, {});
    fetched, rounds := WalkRounds(web, pending, limit, step, base);
    OrderFromDeduped(web, roots, rounds);
  }

  /** `step` takes the URLs of any batch to what its fetched modules import. */
  ghost predicate ScansBy(web: Web, step: Step) {
    forall urls :: Members(ChildUrls(web, Fetched(web, urls))) == step(Members(urls))
  }

  lemma ImportStepScans(web: Web)
    ensures ScansBy(web, ImportStep(web))
  {
    forall urls ensures Members(ChildUrls(web, Fetched(web, urls))) == ImportStep(web)(Members(urls)) {
      ChildrenAreImports(web, urls);
    }
  }

  /** The rounds of the walk, over any pointwise import step. */
  method WalkRounds(web: Web, roots: seq<string>, limit: nat, ghost step: Step, ghost base: set<string>)
    returns (fetched: seq<Module>, rounds: seq<seq<string>>)
    requires Pointwise(step) && ScansBy(web, step) && Members(roots) == base
    ensures |rounds| <= MAX_ROUNDS && fetched == Fetched(web, Requested(rounds))
    ensures Walked(step, base, limit, rounds, Members(Requested(rounds)))
    ensures RoundsInOrder(web, roots, rounds)
    ensures |Requested(rounds)| < limit ==> RoundsAreRings(step, base, rounds, |rounds|)
    ensures |Requested(rounds)| < limit && |rounds| < MAX_ROUNDS ==>
              forall n: nat :: Iterate(step, base, n) <= Members(Requested(rounds))
  {
    var seen: set<string> := {};
    var pending := roots;
    fetched, rounds := [], [];
    while |rounds| < MAX_ROUNDS
      invariant |rounds| <= MAX_ROUNDS && Pointwise(step) && ScansBy(web, step)
      invariant Walking(web, roots, step, base, limit, rounds, seen, pending, fetched)
      decreases MAX_ROUNDS - |rounds|
    {
      if |pending| == 0 || |seen| >= limit {
        if |seen| < limit { NothingPending(step, base, rounds, seen, Members(pending)); }
        return;
      }
      var round, seen' := TakeRound(pending, seen, limit);
      RoundIsTaken(pending, seen, limit, round, seen');
      if |round| == 0 {
        NothingPending(step, base, rounds, seen, Members(pending));
        return;
      }
      var modules := Fetched(web, round);
      WalkOneRound(web, roots, step, base, limit, rounds, seen, pending, fetched, round, seen');
      pending, seen, fetched, rounds := ChildUrls(web, modules), seen', fetched + modules, rounds + [round];
    }
  }

  /** The walk between two rounds. */
  ghost predicate Walking(web: Web, roots: seq<string>, step: Step, base: set<string>, limit: nat,
                          rounds: seq<seq<string>>, seen: set<string>, pending: seq<string>, fetched: seq<Module>)
  {
    && fetched == Fetched(web, Requested(rounds))
    && Walked(step, base, limit, rounds, seen)
    && pending == PendingAt(web, roots, rounds, |rounds|) && RoundsInOrder(web, roots, rounds)
    && (|seen| < limit ==> Frontier(step, base, rounds, seen, Members(pending)))
  }

  lemma WalkOneRound(web: Web, roots: seq<string>, step: Step, base: set<string>, limit: nat, rounds: seq<seq<string>>,
                     seen: set<string>, pending: seq<string>, fetched: seq<Module>, round: seq<string>, seen': set<string>)
    requires Pointwise(step) && ScansBy(web, step) && |seen| < limit
    requires Walking(web, roots, step, base, limit, rounds, seen, pending, fetched)
    requires Taken(pending, seen, limit, round, seen') && round <= FirstNew(pending, seen)
    ensures Walking(web, roots, step, base, limit, rounds + [round], seen', ChildUrls(web, Fetched(web, round)),
                    fetched + Fetched(web, round))
  {
    WalkGrows(step, base, limit, rounds, seen, pending, round, seen', Members(ChildUrls(web, Fetched(web, round))));
    RequestedGrows(web, rounds, round);
    OrderGrows(web, roots, rounds, round);
  }

  lemma OrderGrows(web: Web, roots: seq<string>, rounds: seq<seq<string>>, round: seq<string>)
    requires RoundsInOrder(web, roots, rounds)
    requires round <= FirstNew(PendingAt(web, roots, rounds, |rounds|), Members(Requested(rounds)))
    ensures RoundsInOrder(web, roots, rounds + [round])
  {
    assert (rounds + [round])[..|rounds|] == rounds;
  }

  /** A frontier with nothing new pending is the end of what can be reached. */
  lemma NothingPending(step: Step, base: set<string>, rounds: seq<seq<string>>, seen: set<string>, pending: set<string>)
    requires Pointwise(step) && Frontier(step, base, rounds, seen, pending) && pending <= seen
    ensures forall n: nat :: Iterate(step, base, n) <= seen
  {
    var k := |rounds|;
    assert seen + pending == seen;
    forall n: nat ensures Iterate(step, base, n) <= seen {
      if k == 0 {
        NothingAtAll(step, n);
      } else if n < k {
        IterateGrows(step, base, n, k);
      } else {
        IterateIsFixed(step, base, k - 1, n);
      }
    }
  }

  /** The set algebra of one untruncated round. */
  lemma FrontierMoves(near: set<string>, reach: set<string>, pending: set<string>, round: set<string>, seen': set<string>)
    requires near + pending == reach && round <= pending && round !! near && seen' == near + round
    ensures round <= reach - near
    ensures pending <= seen' ==> seen' == reach && round == reach - near
  {}

  lemma RingsKept(step: Step, base: set<string>, rounds: seq<seq<string>>, round: seq<string>)
    requires RoundsAreRings(step, base, rounds, |rounds|)
    ensures RoundsAreRings(step, base, rounds + [round], |rounds|)
    ensures Members(round) == Ring(step, base, |rounds|) ==> RoundsAreRings(step, base, rounds + [round], |rounds| + 1)
  {
    var grown := rounds + [round];
    forall i | 0 <= i < |rounds| ensures Members(grown[i]) == Ring(step, base, i) {
      assert grown[i] == rounds[i];
    }
  }

  /** A round that met no limit completes its ring and moves the frontier; one that did stays inside its ring. */
  lemma RoundCompletesRing(step: Step, base: set<string>, rounds: seq<seq<string>>, seen: set<string>,
                           pending: seq<string>, round: seq<string>, seen': set<string>, children: set<string>)
    requires Pointwise(step) && Frontier(step, base, rounds, seen, Members(pending))
    requires Members(round) <= Members(pending) && Members(round) !! seen && seen' == seen + Members(round)
    requires children == step(Members(round))
    ensures Members(round) <= Ring(step, base, |rounds|)
    ensures RoundsAreRings(step, base, rounds + [round], |rounds|)
    ensures Members(pending) <= seen' ==> Frontier(step, base, rounds + [round], seen', children)
  {
    var k := |rounds|;
    FrontierMoves(Nearer(step, base, k), Iterate(step, base, k), Members(pending), Members(round), seen');
    RingsKept(step, base, rounds, round);
    RingStep(step, base, k);
  }

  lemma {:induction false} FetchedAppend(web: Web, a: seq<string>, b: seq<string>)
    ensures Fetched(web, a + b) == Fetched(web, a) + Fetched(web, b)
  {
    if |b| == 0 {
      assert a + b == a;
    } else {
      assert (a + b)[..|a + b| - 1] == a + b[..|b| - 1];
      FetchedAppend(web, a, b[..|b| - 1]);
    }
  }

  lemma RequestedIs(rounds: seq<seq<string>>, round: seq<string>)
    ensures Requested(rounds + [round]) == Requested(rounds) + round
    ensures Members(Requested(rounds + [round])) == Members(Requested(rounds)) + Members(round)
    ensures NoRepeat(Requested(rounds)) && NoRepeat(round) && Members(round) !! Members(Requested(rounds)) ==>
              NoRepeat(Requested(rounds + [round]))
  {
    assert (rounds + [round])[..|rounds|] == rounds;
    var all := Requested(rounds + [round]);
    MembersAppend(Requested(rounds), round);
    if NoRepeat(Requested(rounds)) && NoRepeat(round) && Members(round) !! Members(Requested(rounds)) {
      forall i, j | 0 <= i < j < |all| ensures all[i] != all[j] {
        if i < |Requested(rounds)| <= j {
          assert all[i] in Members(Requested(rounds)) && all[j] in Members(round);
        }
      }
    }
  }

  lemma RequestedGrows(web: Web, rounds: seq<seq<string>>, round: seq<string>)
    ensures Fetched(web, Requested(rounds + [round])) == Fetched(web, Requested(rounds)) + Fetched(web, round)
  {
    RequestedIs(rounds, round);
    FetchedAppend(web, Requested(rounds), round);
  }

  /** One taken round keeps the walk's invariants. */
  lemma WalkGrows(step: Step, base: set<string>, limit: nat, rounds: seq<seq<string>>, seen: set<string>,
                  pending: seq<string>, round: seq<string>, seen': set<string>, children: set<string>)
    requires Pointwise(step) && Walked(step, base, limit, rounds, seen)
    requires Frontier(step, base, rounds, seen, Members(pending))
    requires Taken(pending, seen, limit, round, seen') && children == step(Members(round))
    ensures Walked(step, base, limit, rounds + [round], seen')
    ensures |seen'| < limit ==> Frontier(step, base, rounds + [round], seen', children)
  {
    RequestedIs(rounds, round);
    RoundCompletesRing(step, base, rounds, seen, pending, round, seen', children);
  }
}
