/** The document as the stylesheet collector reads it, and the edits that move its generation counters. */
module StyleDom {
  import opened Geometry

  type NodeId = nat

  /** A node as style collection sees it. A link's `url` is its resolved href when its rel list names a stylesheet;
      `media` is the trimmed media attribute, empty for `all`. */
  datatype NodeKind =
    | Style(media: string)
    | Link(url: Option<string>, media: string)
    | Text(text: string)
    | Other

  /** The node arena. `height` bounds the depth below each node, which is what makes the tree acyclic. */
  datatype Dom = Dom(kinds: map<NodeId, NodeKind>, children: map<NodeId, seq<NodeId>>, height: map<NodeId, nat>,
                     root: NodeId, generation: nat, structureGeneration: nat)

  function Kind(dom: Dom, n: NodeId): NodeKind { if n in dom.kinds then dom.kinds[n] else Other }

  function Children(dom: Dom, n: NodeId): seq<NodeId> { if n in dom.children then dom.children[n] else [] }

  function Height(dom: Dom, n: NodeId): nat { if n in dom.height then dom.height[n] else 0 }

  ghost predicate Acyclic(dom: Dom) {
    forall n, i :: 0 <= i < |Children(dom, n)| ==> Height(dom, Children(dom, n)[i]) < Height(dom, n)
  }

  predicate IsStyleSource(dom: Dom, n: NodeId) { Kind(dom, n).Style? || Kind(dom, n).Link? }

  // ---- collecting the sources ---------------------------------------------------------------------------------------

  const MAX_SOURCES: nat := 64

  datatype SourceKind = Inline(text: string) | LinkTo(url: string)

  datatype StyleSource = StyleSource(owner: NodeId, kind: SourceKind, media: string)

  /** The text of the first `k` children of a node, each followed by a newline. */
  function TextOf(dom: Dom, n: NodeId, k: nat): string
    requires k <= |Children(dom, n)|
  {
    if k == 0 then ""
    else
      var child := Kind(dom, Children(dom, n)[k - 1]);
      TextOf(dom, n, k - 1) + if child.Text? then child.text + "\n" else ""
  }

  function StyleText(dom: Dom, n: NodeId): string { TextOf(dom, n, |Children(dom, n)|) }

  function SourceOf(dom: Dom, n: NodeId): seq<StyleSource> {
    match Kind(dom, n)
    case Style(media) => [StyleSource(n, Inline(StyleText(dom, n)), media)]
    case Link(Some(url), media) => [StyleSource(n, LinkTo(url), media)]
    case _ => []
  }

  /** Every style source at or below a node, in document order. */
  function Preorder(dom: Dom, n: NodeId): seq<StyleSource>
    requires Acyclic(dom)
    decreases Height(dom, n), |Children(dom, n)| + 1
  {
    SourceOf(dom, n) + PreorderBelow(dom, n, |Children(dom, n)|)
  }

  function PreorderBelow(dom: Dom, n: NodeId, k: nat): seq<StyleSource>
    requires Acyclic(dom) && k <= |Children(dom, n)|
    decreases Height(dom, n), k
  {
    if k == 0 then [] else PreorderBelow(dom, n, k - 1) + Preorder(dom, Children(dom, n)[k - 1])
  }

  function Capped(sources: seq<StyleSource>): seq<StyleSource> {
    if |sources| <= MAX_SOURCES then sources else sources[..MAX_SOURCES]
  }

  /** The document's style sources: the first 64 in document order. */
  function Collected(dom: Dom): seq<StyleSource>
    requires Acyclic(dom)
  {
    Capped(Preorder(dom, dom.root))
  }

  // ---- document order -------------------------------------------------------------------------------------------------

  /** Child positions to take, one after another, from a node down to another. */
  type Path = seq<nat>

  function NodeAt(dom: Dom, n: NodeId, p: Path): Option<NodeId>
    decreases p
  {
    if p == [] then Some(n)
    else if p[0] < |Children(dom, n)| then NodeAt(dom, Children(dom, n)[p[0]], p[1..])
    else None
  }

  /** Document order: a node comes before what is below it, and what is below an earlier child before the later ones. */
  predicate Before(p: Path, q: Path) {
    q != [] && (p == [] || p[0] < q[0] || (p[0] == q[0] && Before(p[1..], q[1..])))
  }

  /** The texts of the text nodes among `nodes`, each with its newline. */
  function Texts(dom: Dom, nodes: seq<NodeId>): string {
    if nodes == [] then ""
    else (match Kind(dom, nodes[0]) case Text(text) => text + "\n" case _ => "") + Texts(dom, nodes[1..])
  }

  /** The element contributes a sheet: a style element always does, a link when it names one. */
  predicate HasSheet(dom: Dom, n: NodeId) {
    Kind(dom, n).Style? || (Kind(dom, n).Link? && Kind(dom, n).url.Some?)
  }

  /** `entry` is the element's own: its media, and its children's present text or the URL it names. */
  predicate Owns(dom: Dom, n: NodeId, entry: StyleSource) {
    && HasSheet(dom, n) && entry.owner == n && entry.media == Kind(dom, n).media
    && entry.kind == if Kind(dom, n).Style? then Inline(Texts(dom, Children(dom, n))) else LinkTo(Kind(dom, n).url.value)
  }

  lemma {:induction false} TextsAppend(dom: Dom, nodes: seq<NodeId>, last: NodeId)
    ensures Texts(dom, nodes + [last]) == Texts(dom, nodes) + Texts(dom, [last])
  {
    if nodes != [] {
      assert (nodes + [last])[1..] == nodes[1..] + [last];
      TextsAppend(dom, nodes[1..], last);
    } else {
      assert nodes + [last] == [last];
    }
  }

  lemma {:induction false} TextOfIsTexts(dom: Dom, n: NodeId, k: nat)
    requires k <= |Children(dom, n)|
    ensures TextOf(dom, n, k) == Texts(dom, Children(dom, n)[..k])
  {
    if k > 0 {
      var nodes, last := Children(dom, n)[..k - 1], Children(dom, n)[k - 1];
      TextOfIsTexts(dom, n, k - 1);
      TextsAppend(dom, nodes, last);
      assert Children(dom, n)[..k] == nodes + [last];
      assert Texts(dom, [last]) == (match Kind(dom, last) case Text(text) => text + "\n" case _ => "") + Texts(dom, []);
    }
  }

  lemma SourceIsOwned(dom: Dom, n: NodeId)
    ensures |SourceOf(dom, n)| == if HasSheet(dom, n) then 1 else 0
    ensures HasSheet(dom, n) ==> Owns(dom, n, SourceOf(dom, n)[0])
  {
    TextOfIsTexts(dom, n, |Children(dom, n)|);
    assert Children(dom, n)[..|Children(dom, n)|] == Children(dom, n);
  }

  /** The path leads to `n` itself or goes through one of its first `k` children. */
  predicate InScope(p: Path, k: nat) { p == [] || p[0] < k }

  /** `paths` are, in document order, the paths that lead from `n` to an element with a sheet. */
  ghost predicate SheetPaths(dom: Dom, n: NodeId, paths: seq<Path>) {
    && (forall i, j :: 0 <= i < j < |paths| ==> Before(paths[i], paths[j]))
    && forall p :: p in paths <==> NodeAt(dom, n, p).Some? && HasSheet(dom, NodeAt(dom, n, p).value)
  }

  /** The same for the paths in scope only. */
  ghost predicate SheetPathsUpTo(dom: Dom, n: NodeId, k: nat, paths: seq<Path>) {
    && (forall i, j :: 0 <= i < j < |paths| ==> Before(paths[i], paths[j]))
    && forall p :: p in paths <==>
                     InScope(p, k) && NodeAt(dom, n, p).Some? && HasSheet(dom, NodeAt(dom, n, p).value)
  }

  lemma ScopeIsAll(dom: Dom, n: NodeId, paths: seq<Path>)
    ensures SheetPathsUpTo(dom, n, |Children(dom, n)|, paths) <==> SheetPaths(dom, n, paths)
  {
    assert forall p :: NodeAt(dom, n, p).Some? ==> InScope(p, |Children(dom, n)|);
  }

  /** `entries` are what the elements at the first paths own, one each. */
  predicate OwnedAlong(dom: Dom, n: NodeId, paths: seq<Path>, entries: seq<StyleSource>) {
    && |entries| <= |paths|
    && forall i :: 0 <= i < |entries| ==>
                     NodeAt(dom, n, paths[i]).Some? && Owns(dom, NodeAt(dom, n, paths[i]).value, entries[i])
  }

  lemma OwnPath(dom: Dom, n: NodeId) returns (paths: seq<Path>)
    ensures SheetPathsUpTo(dom, n, 0, paths) && OwnedAlong(dom, n, paths, SourceOf(dom, n))
    ensures |paths| == |SourceOf(dom, n)|
  {
    SourceIsOwned(dom, n);
    paths := if HasSheet(dom, n) then [[]] else [];
    assert NodeAt(dom, n, []) == Some(n);
  }

  function Prefixed(k: nat, paths: seq<Path>): seq<Path> { seq(|paths|, i requires 0 <= i < |paths| => [k] + paths[i]) }

  lemma ThroughChild(dom: Dom, n: NodeId, k: nat, p: Path)
    requires k < |Children(dom, n)|
    ensures NodeAt(dom, n, [k] + p) == NodeAt(dom, Children(dom, n)[k], p)
  {
    assert ([k] + p)[1..] == p;
  }

  lemma BeforeBelow(k: nat, p: Path, q: Path)
    ensures Before([k] + p, [k] + q) <==> Before(p, q)
  {
    assert ([k] + p)[1..] == p && ([k] + q)[1..] == q;
  }

  lemma PathsGrow(dom: Dom, n: NodeId, k: nat, paths: seq<Path>, below: seq<Path>)
    requires k < |Children(dom, n)|
    requires SheetPathsUpTo(dom, n, k, paths)
    requires SheetPaths(dom, Children(dom, n)[k], below)
    ensures SheetPathsUpTo(dom, n, k + 1, paths + Prefixed(k, below))
  {
    var more := Prefixed(k, below);
    var all := paths + more;
    forall i, j | 0 <= i < j < |all| ensures Before(all[i], all[j]) {
      if i < |paths| <= j {
        assert paths[i] in paths;
      } else if |paths| <= i {
        BeforeBelow(k, below[i - |paths|], below[j - |paths|]);
      }
    }
    forall p ensures p in all <==>
                       InScope(p, k + 1) && NodeAt(dom, n, p).Some? && HasSheet(dom, NodeAt(dom, n, p).value)
    {
      if p != [] && p[0] == k {
        assert p == [k] + p[1..];
        ThroughChild(dom, n, k, p[1..]);
        PrefixedHas(k, below, p[1..]);
        assert p !in paths;
      } else {
        NotPrefixed(k, below, p);
      }
    }
  }

  lemma PrefixedHas(k: nat, paths: seq<Path>, p: Path)
    ensures [k] + p in Prefixed(k, paths) <==> p in paths
  {
    if p in paths {
      var i :| 0 <= i < |paths| && paths[i] == p;
      assert Prefixed(k, paths)[i] == [k] + p;
    }
    if [k] + p in Prefixed(k, paths) {
      var i :| 0 <= i < |paths| && Prefixed(k, paths)[i] == [k] + p;
      assert p == ([k] + p)[1..] && paths[i] == ([k] + paths[i])[1..];
    }
  }

  lemma NotPrefixed(k: nat, paths: seq<Path>, p: Path)
    requires p == [] || p[0] != k
    ensures p !in Prefixed(k, paths)
  {}

  lemma OwnedGrow(dom: Dom, n: NodeId, k: nat, paths: seq<Path>, entries: seq<StyleSource>, below: seq<Path>,
                  more: seq<StyleSource>)
    requires k < |Children(dom, n)| && |paths| == |entries|
    requires OwnedAlong(dom, n, paths, entries) && OwnedAlong(dom, Children(dom, n)[k], below, more)
    ensures OwnedAlong(dom, n, paths + Prefixed(k, below), entries + more)
  {
    forall i | 0 <= i < |more| ensures NodeAt(dom, n, [k] + below[i]) == NodeAt(dom, Children(dom, n)[k], below[i]) {
      ThroughChild(dom, n, k, below[i]);
    }
  }

  /** What the walk has yielded at a node and below its first `k` children. */
  function PreorderUpTo(dom: Dom, n: NodeId, k: nat): seq<StyleSource>
    requires Acyclic(dom) && k <= |Children(dom, n)|
  {
    SourceOf(dom, n) + PreorderBelow(dom, n, k)
  }

  lemma PreorderGrows(dom: Dom, n: NodeId, k: nat)
    requires Acyclic(dom) && k < |Children(dom, n)|
    ensures PreorderUpTo(dom, n, k + 1) == PreorderUpTo(dom, n, k) + Preorder(dom, Children(dom, n)[k])
  {}

  ghost predicate OrderedUpTo(dom: Dom, n: NodeId, k: nat, paths: seq<Path>)
    requires Acyclic(dom) && k <= |Children(dom, n)|
  {
    && SheetPathsUpTo(dom, n, k, paths)
    && |paths| == |PreorderUpTo(dom, n, k)| && OwnedAlong(dom, n, paths, PreorderUpTo(dom, n, k))
  }

  lemma OrderedGrows(dom: Dom, n: NodeId, k: nat, paths: seq<Path>, below: seq<Path>)
    requires Acyclic(dom) && k < |Children(dom, n)| && OrderedUpTo(dom, n, k, paths)
    requires var child := Children(dom, n)[k];
             SheetPaths(dom, child, below) && |below| == |Preorder(dom, child)|
             && OwnedAlong(dom, child, below, Preorder(dom, child))
    ensures OrderedUpTo(dom, n, k + 1, paths + Prefixed(k, below))
  {
    PathsGrow(dom, n, k, paths, below);
    OwnedGrow(dom, n, k, paths, PreorderUpTo(dom, n, k), below, Preorder(dom, Children(dom, n)[k]));
    PreorderGrows(dom, n, k);
  }

  lemma {:induction false} PreorderUpToIsOrdered(dom: Dom, n: NodeId, k: nat) returns (paths: seq<Path>)
    requires Acyclic(dom) && k <= |Children(dom, n)|
    ensures OrderedUpTo(dom, n, k, paths)
    decreases Height(dom, n), k
  {
    if k == 0 {
      paths := OwnPath(dom, n);
      assert SourceOf(dom, n) + [] == SourceOf(dom, n);
    } else {
      var above := PreorderUpToIsOrdered(dom, n, k - 1);
      var below := PreorderIsDocumentOrder(dom, Children(dom, n)[k - 1]);
      OrderedGrows(dom, n, k - 1, above, below);
      paths := above + Prefixed(k - 1, below);
    }
  }

  /** The walk yields one entry for each path to an element with a sheet, that element's own, in document order. */
  lemma {:induction false} PreorderIsDocumentOrder(dom: Dom, n: NodeId) returns (paths: seq<Path>)
    requires Acyclic(dom)
    ensures SheetPaths(dom, n, paths)
    ensures |paths| == |Preorder(dom, n)| && OwnedAlong(dom, n, paths, Preorder(dom, n))
    decreases Height(dom, n), |Children(dom, n)| + 1
  {
    paths := PreorderUpToIsOrdered(dom, n, |Children(dom, n)|);
    ScopeIsAll(dom, n, paths);
  }

  /** `sources` belong, in document order, to the document's first 64 elements with a sheet, counted once per path. */
  ghost predicate FirstSheets(dom: Dom, sources: seq<StyleSource>) {
    exists paths ::
      && SheetPaths(dom, dom.root, paths)
      && OwnedAlong(dom, dom.root, paths, sources) && |sources| == Min(|paths|, MAX_SOURCES)
  }

  lemma CollectedAreFirstSheets(dom: Dom)
    requires Acyclic(dom)
    ensures FirstSheets(dom, Collected(dom))
  {
    var paths := PreorderIsDocumentOrder(dom, dom.root);
  }

  /** Capping a list before appending to it loses nothing that capping afterwards would keep. */
  lemma CappedAppend(sources: seq<StyleSource>, own: seq<StyleSource>, below: seq<StyleSource>, more: seq<StyleSource>)
    ensures Capped(Capped(sources + (own + below)) + more) == Capped(sources + (own + (below + more)))
  {}

  lemma CappedFull(sources: seq<StyleSource>, more: seq<StyleSource>)
    requires |sources| == MAX_SOURCES
    ensures Capped(sources + more) == sources
  {}

  /** The collector: it stops descending once the shared list is full, and pushes at most one source per visit. */
  method CollectFrom(dom: Dom, n: NodeId, sources: seq<StyleSource>) returns (collected: seq<StyleSource>)
    requires Acyclic(dom)
    requires |sources| <= MAX_SOURCES
    ensures collected == Capped(sources + Preorder(dom, n)) && |collected| <= MAX_SOURCES
    decreases Height(dom, n)
  {
    if |sources| >= MAX_SOURCES {
      CappedFull(sources, Preorder(dom, n));
      return sources;
    }
    collected := sources + SourceOf(dom, n);
    var i := 0;
    while i < |Children(dom, n)|
      invariant i <= |Children(dom, n)| && Acyclic(dom)
      invariant collected == Gathered(dom, n, sources, i) && |collected| <= MAX_SOURCES
    {
      collected := CollectFrom(dom, Children(dom, n)[i], collected);
      i := i + 1;
    }
    GatheredAll(dom, n, sources);
  }

  /** The list after the trees under a node's first `k` children, cut to its length after each. */
  function Gathered(dom: Dom, n: NodeId, sources: seq<StyleSource>, k: nat): seq<StyleSource>
    requires Acyclic(dom) && k <= |Children(dom, n)|
  {
    if k == 0 then sources + SourceOf(dom, n)
    else Capped(Gathered(dom, n, sources, k - 1) + Preorder(dom, Children(dom, n)[k - 1]))
  }

  /** Cutting after each child is cutting once at the end. */
  lemma {:induction false} GatheredIs(dom: Dom, n: NodeId, sources: seq<StyleSource>, k: nat)
    requires Acyclic(dom) && |sources| < MAX_SOURCES && k <= |Children(dom, n)|
    ensures Gathered(dom, n, sources, k) == Capped(sources + (SourceOf(dom, n) + PreorderBelow(dom, n, k)))
  {
    if k == 0 {
      assert SourceOf(dom, n) + [] == SourceOf(dom, n);
    } else {
      GatheredIs(dom, n, sources, k - 1);
      CappedAppend(sources, SourceOf(dom, n), PreorderBelow(dom, n, k - 1), Preorder(dom, Children(dom, n)[k - 1]));
    }
  }

  lemma GatheredAll(dom: Dom, n: NodeId, sources: seq<StyleSource>)
    requires Acyclic(dom) && |sources| < MAX_SOURCES
    ensures Gathered(dom, n, sources, |Children(dom, n)|) == Capped(sources + Preorder(dom, n))
  {
    GatheredIs(dom, n, sources, |Children(dom, n)|);
  }

  method CollectStyleSources(dom: Dom) returns (collected: seq<StyleSource>)
    requires Acyclic(dom)
    ensures collected == Collected(dom) && FirstSheets(dom, collected)
  {
    CollectedAreFirstSheets(dom);
    collected := CollectFrom(dom, dom.root, []);
    assert [] + Preorder(dom, dom.root) == Preorder(dom, dom.root);
  }

  // ---- rereading inline text stands in for a walk --------------------------------------------------------------------

  function RereadOne(dom: Dom, source: StyleSource): StyleSource {
    if source.kind.Inline? then source.(kind := Inline(StyleText(dom, source.owner))) else source
  }

  /** Every inline source with its owner's present text. */
  function Reread(dom: Dom, sources: seq<StyleSource>): seq<StyleSource> {
    seq(|sources|, i requires 0 <= i < |sources| => RereadOne(dom, sources[i]))
  }

  /** The documents have the same tree and the same elements, and differ at most in the text of text nodes. */
  ghost predicate SameUpToText(a: Dom, b: Dom) {
    && a.root == b.root
    && (forall n :: Children(a, n) == Children(b, n))
    && forall n :: Kind(a, n) == Kind(b, n) || (Kind(a, n).Text? && Kind(b, n).Text?)
  }

  lemma RereadAppend(dom: Dom, a: seq<StyleSource>, b: seq<StyleSource>)
    ensures Reread(dom, a + b) == Reread(dom, a) + Reread(dom, b)
  {}

  lemma RereadCapped(dom: Dom, sources: seq<StyleSource>)
    ensures Reread(dom, Capped(sources)) == Capped(Reread(dom, sources))
  {}

  /** `after` is `before` with every inline source's present text. */
  predicate Rereads(dom: Dom, before: seq<StyleSource>, after: seq<StyleSource>) { after == Reread(dom, before) }

  lemma RereadSource(a: Dom, b: Dom, n: NodeId)
    requires SameUpToText(a, b)
    ensures Rereads(b, SourceOf(a, n), SourceOf(b, n)) && Children(a, n) == Children(b, n)
  {}

  lemma RereadJoin(dom: Dom, a: seq<StyleSource>, a': seq<StyleSource>, b: seq<StyleSource>, b': seq<StyleSource>)
    requires Rereads(dom, a, a') && Rereads(dom, b, b')
    ensures Rereads(dom, a + b, a' + b')
  {
    RereadAppend(dom, a, b);
  }

  lemma {:induction false} RereadPreorder(a: Dom, b: Dom, n: NodeId)
    requires Acyclic(a) && Acyclic(b) && SameUpToText(a, b)
    ensures Rereads(b, Preorder(a, n), Preorder(b, n))
    decreases Height(a, n), |Children(a, n)| + 1
  {
    var k := |Children(a, n)|;
    RereadSource(a, b, n);
    RereadBelow(a, b, n, k);
    RereadJoin(b, SourceOf(a, n), SourceOf(b, n), PreorderBelow(a, n, k), PreorderBelow(b, n, k));
  }

  lemma {:induction false} RereadBelow(a: Dom, b: Dom, n: NodeId, k: nat)
    requires Acyclic(a) && Acyclic(b) && SameUpToText(a, b)
    requires k <= |Children(a, n)| && Children(a, n) == Children(b, n)
    ensures Rereads(b, PreorderBelow(a, n, k), PreorderBelow(b, n, k))
    decreases Height(a, n), k
  {
    if k > 0 {
      var child := Children(a, n)[k - 1];
      RereadBelow(a, b, n, k - 1);
      RereadPreorder(a, b, child);
      RereadJoin(b, PreorderBelow(a, n, k - 1), PreorderBelow(b, n, k - 1), Preorder(a, child), Preorder(b, child));
    }
  }

  /** Over a document that only changed text, rereading the old list's owners gives what a new walk would. */
  lemma RereadIsRecollection(a: Dom, b: Dom)
    requires Acyclic(a) && Acyclic(b) && SameUpToText(a, b)
    ensures Reread(b, Collected(a)) == Collected(b)
  {
    RereadPreorder(a, b, a.root);
    RereadCapped(b, Preorder(a, a.root));
  }

  lemma {:induction false} TextUnchanged(a: Dom, b: Dom, n: NodeId, k: nat)
    requires a.kinds == b.kinds && a.children == b.children && k <= |Children(a, n)|
    ensures TextOf(a, n, k) == TextOf(b, n, k)
  {
    if k > 0 { TextUnchanged(a, b, n, k - 1); }
  }

  // ---- edits and the counters they move ------------------------------------------------------------------------------

  /** One committed mutation. A structural edit may replace any part of the tree and any node. */
  datatype Edit =
    | SetAttributes(node: NodeId, kind: NodeKind)
    | SetText(node: NodeId, text: string)
    | Restructure(kinds: map<NodeId, NodeKind>, children: map<NodeId, seq<NodeId>>, height: map<NodeId, nat>)

  /** Attributes rewrite an element in place; they never change what element it is. */
  predicate SameElement(a: NodeKind, b: NodeKind) {
    (a.Style? && b.Style?) || (a.Link? && b.Link?) || (a.Text? && b.Text?) || (a.Other? && b.Other?)
  }

  ghost predicate EditApplies(dom: Dom, e: Edit) {
    match e
    case SetAttributes(n, kind) => n in dom.kinds && !kind.Text? && SameElement(Kind(dom, n), kind)
    case SetText(n, _) => n in dom.kinds && Kind(dom, n).Text?
    case Restructure(_, _, _) => Acyclic(Edited(dom, e))
  }

  /** Attribute and text edits advance `generation`; structural ones advance both counters. Rewriting a text node
      with the text it has is not an edit. */
  function Edited(dom: Dom, e: Edit): Dom {
    match e
    case SetAttributes(n, kind) => dom.(kinds := dom.kinds[n := kind], generation := dom.generation + 1)
    case SetText(n, text) =>
      if Kind(dom, n) == Text(text) then dom
      else dom.(kinds := dom.kinds[n := Text(text)], generation := dom.generation + 1)
    case Restructure(kinds, children, height) =>
      dom.(kinds := kinds, children := children, height := height,
           generation := dom.generation + 1, structureGeneration := dom.structureGeneration + 1)
  }

  /** The node an edit reports as dirty. Structural edits report nodes too, but nothing here depends on them. */
  function DirtiedBy(e: Edit): set<NodeId> {
    match e
    case SetAttributes(n, _) => {n}
    case SetText(n, _) => {n}
    case Restructure(_, _, _) => {}
  }

  /** What the counters and the dirty list tell a reader that last looked at `a` about the present `b`. */
  ghost predicate EditedSince(a: Dom, b: Dom, dirty: set<NodeId>) {
    && a.root == b.root
    && a.generation <= b.generation && a.structureGeneration <= b.structureGeneration
    && (a.generation == b.generation ==> b == a)
    && (a.structureGeneration == b.structureGeneration ==>
          && a.children == b.children && a.height == b.height
          && (forall n :: SameElement(Kind(a, n), Kind(b, n)))
          && forall n :: n !in dirty && !Kind(a, n).Text? ==> Kind(a, n) == Kind(b, n))
  }

  lemma EditedSinceGrows(a: Dom, b: Dom, dirty: set<NodeId>, e: Edit)
    requires EditedSince(a, b, dirty) && EditApplies(b, e)
    ensures EditedSince(a, Edited(b, e), dirty + DirtiedBy(e))
  {
    var c := Edited(b, e);
    if a.structureGeneration == c.structureGeneration {
      forall n ensures SameElement(Kind(a, n), Kind(c, n)) {
        assert SameElement(Kind(a, n), Kind(b, n));
      }
    }
  }

  lemma EditKeepsAcyclic(dom: Dom, e: Edit)
    requires Acyclic(dom) && EditApplies(dom, e)
    ensures Acyclic(Edited(dom, e))
  {
    if !e.Restructure? {
      var after := Edited(dom, e);
      assert forall n :: Children(after, n) == Children(dom, n) && Height(after, n) == Height(dom, n);
    }
  }

  /** When the structure counter stands still and no style or link is dirty, only text can have changed. */
  lemma QuietGateMeansTextOnly(a: Dom, b: Dom, dirty: set<NodeId>)
    requires EditedSince(a, b, dirty)
    requires a.structureGeneration == b.structureGeneration
    requires forall n :: n in dirty ==> !IsStyleSource(b, n)
    ensures SameUpToText(a, b)
  {}
}
