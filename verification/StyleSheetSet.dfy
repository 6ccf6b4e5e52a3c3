/** The live stylesheet set: sources refreshed behind generation gates, bodies fetched asynchronously. */
module StyleSheetSet {
  import opened Geometry
  import opened StyleDom

  datatype Body = Loaded(css: string) | FetchFailed

  /** A finished fetch waiting in the channel. */
  datatype Fetch = Fetch(url: string, body: Body)

  /** The set's own fields. */
  datatype Sheets = Sheets(sources: seq<StyleSource>, bodies: map<string, string>, requested: set<string>,
                           structureGeneration: nat, domGeneration: nat)

  // ---- the cascade input ----------------------------------------------------------------------------------------

  /** The characters Unicode calls white space. */
  predicate IsSpace(c: char) {
    || '\t' <= c <= '\r' || '\U{2000}' <= c <= '\U{200A}'
    || c in {' ', '\U{85}', '\U{A0}', '\U{1680}', '\U{2028}', '\U{2029}', '\U{202F}', '\U{205F}', '\U{3000}'}
  }

  predicate IsBlank(text: string) { forall i :: 0 <= i < |text| ==> IsSpace(text[i]) }

  /** The text a source has so far: a link without a body has none. */
  function SourceText(source: StyleSource, bodies: map<string, string>): string {
    match source.kind
    case Inline(text) => text
    case LinkTo(url) => if url in bodies then bodies[url] else ""
  }

  /** What one source adds to the concatenated sheet: nothing when blank, wrapped in `@media` when conditional. */
  function Contribution(source: StyleSource, bodies: map<string, string>): string {
    var text := SourceText(source, bodies);
    if IsBlank(text) then "" else Wrapped(source.media, text)
  }

  function Wrapped(media: string, text: string): string {
    if media == "" then text + "\n" else "@media " + media + " {\n" + text + "\n}" + "\n"
  }

  /** `part` stands in `whole` from position `at` on. */
  predicate StandsAt(whole: string, at: nat, part: string) {
    at + |part| <= |whole| && whole[at..at + |part|] == part
  }

  /** The source has this text: its own, or that of the body fetched for its link. */
  predicate HasText(source: StyleSource, bodies: map<string, string>, text: string) {
    source.kind == Inline(text) || exists url :: url in bodies && source.kind == LinkTo(url) && bodies[url] == text
  }

  /** A link without a body adds nothing. */
  lemma UnfetchedAddsNothing(source: StyleSource, bodies: map<string, string>)
    requires forall text :: !HasText(source, bodies, text)
    ensures Contribution(source, bodies) == ""
  {
    if source.kind.Inline? { assert HasText(source, bodies, source.kind.text); }
    if source.kind.LinkTo? && source.kind.url in bodies { assert HasText(source, bodies, bodies[source.kind.url]); }
  }

  /** `c` is `text` whole and a final newline, and when `media` is not empty, the media before the text, between the
      rule's keyword and its opening brace, and the closing brace after it. */
  predicate Wraps(c: string, media: string, text: string) {
    var at := if media == "" then 0 else |media| + 10;
    && |c| == at + |text| + (if media == "" then 1 else 3)
    && StandsAt(c, at, text) && StandsAt(c, |c| - 1, "\n")
    && (media != "" ==>
          && StandsAt(c, 0, "@media ") && StandsAt(c, 7, media)
          && StandsAt(c, at - 3, " {\n") && StandsAt(c, at + |text|, "\n}"))
  }

  lemma WrappedShape(media: string, text: string)
    ensures Wraps(Wrapped(media, text), media, text)
  {}

  lemma TextOfSource(source: StyleSource, bodies: map<string, string>, text: string)
    requires HasText(source, bodies, text)
    ensures Contribution(source, bodies) == if IsBlank(text) then "" else Wrapped(source.media, text)
  {
    assert SourceText(source, bodies) == text;
  }

  /** A blank source adds nothing, and any other its text, whole and wrapped by its media. */
  lemma ContributionShape(source: StyleSource, bodies: map<string, string>, text: string)
    requires HasText(source, bodies, text)
    ensures if IsBlank(text) then Contribution(source, bodies) == ""
            else Wraps(Contribution(source, bodies), source.media, text)
  {
    TextOfSource(source, bodies, text);
    WrappedShape(source.media, text);
  }

  /** Opening braces less closing ones. */
  function Depth(text: string): int {
    if |text| == 0 then 0
    else Depth(text[..|text| - 1]) + match text[|text| - 1] case '{' => 1 case '}' => -1 case _ => 0
  }

  lemma {:induction false} DepthAppend(a: string, b: string)
    ensures Depth(a + b) == Depth(a) + Depth(b)
  {
    if |b| == 0 {
      assert a + b == a;
    } else {
      assert (a + b)[..|a + b| - 1] == a + b[..|b| - 1];
      DepthAppend(a, b[..|b| - 1]);
    }
  }

  lemma WrappedDepth(media: string, text: string)
    ensures Depth(Wrapped(media, text)) == Depth(media) + Depth(text)
  {
    var open, close := " {\n", "\n}";
    DepthAppend(text, "\n");
    DepthAppend("@media ", media);
    DepthAppend("@media " + media, open);
    DepthAppend("@media " + media + open, text);
    DepthAppend("@media " + media + open + text, close);
    DepthAppend("@media " + media + open + text + close, "\n");
    PlainDepth("@media ");
    PlainDepth("\n");
    assert open[..2] == " {" && open[..2][..1] == " " && Depth(" ") == 0;
    assert close[..1] == "\n";
  }

  /** Wrapping leaves braces balanced that the text and the media have balanced. */
  lemma ContributionBalances(source: StyleSource, bodies: map<string, string>, text: string)
    requires HasText(source, bodies, text) && !IsBlank(text)
    ensures Depth(Contribution(source, bodies)) == Depth(source.media) + Depth(text)
  {
    TextOfSource(source, bodies, text);
    WrappedDepth(source.media, text);
  }

  lemma {:induction false} PlainDepth(text: string)
    requires forall i :: 0 <= i < |text| ==> text[i] != '{' && text[i] != '}'
    ensures Depth(text) == 0
  {
    if |text| > 0 { PlainDepth(text[..|text| - 1]); }
  }

  function Contributions(sources: seq<StyleSource>, bodies: map<string, string>): string {
    if |sources| == 0 then ""
    else Contributions(sources[..|sources| - 1], bodies) + Contribution(sources[|sources| - 1], bodies)
  }

  function CssText(userAgent: string, s: Sheets): string { userAgent + "\n" + Contributions(s.sources, s.bodies) }

  // ---- one refresh --------------------------------------------------------------------------------------------------

  function Landed(bodies: map<string, string>, fetch: Fetch): map<string, string> {
    bodies[fetch.url := if fetch.body.Loaded? then fetch.body.css else ""]
  }

  function Drained(bodies: map<string, string>, arrived: seq<Fetch>): map<string, string> {
    if |arrived| == 0 then bodies else Landed(Drained(bodies, arrived[..|arrived| - 1]), arrived[|arrived| - 1])
  }

  predicate AnyLoaded(arrived: seq<Fetch>) { exists i :: 0 <= i < |arrived| && arrived[i].body.Loaded? }

  /** The link URLs nothing was ever requested for, in document order, repeats included. */
  function Missing(sources: seq<StyleSource>, requested: set<string>): seq<string> {
    if |sources| == 0 then []
    else
      var last := sources[|sources| - 1].kind;
      Missing(sources[..|sources| - 1], requested)
      + if last.LinkTo? && last.url !in requested then [last.url] else []
  }

  function Members(urls: seq<string>): set<string> { set i | 0 <= i < |urls| :: urls[i] }

  predicate Recollects(s: Sheets, dom: Dom, dirty: set<NodeId>) {
    dom.structureGeneration != s.structureGeneration || exists n :: n in dirty && IsStyleSource(dom, n)
  }

  function SourcesAfter(s: Sheets, dom: Dom, dirty: set<NodeId>): seq<StyleSource>
    requires Acyclic(dom)
  {
    var walked := if Recollects(s, dom, dirty) then Collected(dom) else s.sources;
    if dom.generation != s.domGeneration then Reread(dom, walked) else walked
  }

  datatype Refreshed = Refreshed(sheets: Sheets, changed: bool, spawned: seq<string>)

  /** One refresh: drain what arrived, walk or reread behind the gates, and start the missing fetches. */
  function Refresh(s: Sheets, dom: Dom, dirty: set<NodeId>, arrived: seq<Fetch>): Refreshed
    requires Acyclic(dom)
  {
    var walked := if Recollects(s, dom, dirty) then Collected(dom) else s.sources;
    var sources := SourcesAfter(s, dom, dirty);
    var missing := Missing(sources, s.requested);
    Refreshed(Sheets(sources, Drained(s.bodies, arrived), s.requested + Members(missing),
                     if Recollects(s, dom, dirty) then dom.structureGeneration else s.structureGeneration,
                     dom.generation),
              AnyLoaded(arrived) || walked != s.sources || sources != walked,
              missing)
  }

  predicate HasPending(s: Sheets) {
    exists i :: 0 <= i < |s.sources| && s.sources[i].kind.LinkTo? && s.sources[i].kind.url !in s.bodies
  }

  // ---- gated refresh agrees with recollection -----------------------------------------------------------------------

  /** The set is current for a document: its list is what a walk of that document gives, its counters are that
      document's. */
  ghost predicate CurrentFor(s: Sheets, dom: Dom) {
    && Acyclic(dom) && s.sources == Collected(dom)
    && s.structureGeneration == dom.structureGeneration && s.domGeneration == dom.generation
  }

  lemma RereadCollected(dom: Dom)
    requires Acyclic(dom)
    ensures Reread(dom, Collected(dom)) == Collected(dom)
  {
    RereadIsRecollection(dom, dom);
  }

  /** After any edits since the last refresh, the gated refresh leaves exactly what a fresh walk would collect. */
  lemma GatedRefreshIsRecollection(s: Sheets, seen: Dom, dom: Dom, dirty: set<NodeId>, arrived: seq<Fetch>)
    requires CurrentFor(s, seen) && Acyclic(dom) && EditedSince(seen, dom, dirty)
    ensures CurrentFor(Refresh(s, dom, dirty, arrived).sheets, dom)
  {
    if Recollects(s, dom, dirty) {
      RereadCollected(dom);
    } else if dom.generation != s.domGeneration {
      QuietGateMeansTextOnly(seen, dom, dirty);
      RereadIsRecollection(seen, dom);
    }
  }

  // ---- what a false refresh means -------------------------------------------------------------------------------------

  /** A failed fetch in the batch is for a link whose sheet is already showing. */
  predicate Erases(source: StyleSource, bodies: map<string, string>, arrived: seq<Fetch>) {
    exists k ::
      && 0 <= k < |arrived| && arrived[k].body.FetchFailed? && source.kind == LinkTo(arrived[k].url)
      && arrived[k].url in bodies && !IsBlank(bodies[arrived[k].url])
  }

  predicate FailureErases(sources: seq<StyleSource>, bodies: map<string, string>, arrived: seq<Fetch>) {
    exists i :: 0 <= i < |sources| && Erases(sources[i], bodies, arrived)
  }

  lemma {:induction false} DrainedFailures(bodies: map<string, string>, arrived: seq<Fetch>, url: string)
    requires !AnyLoaded(arrived)
    ensures var after := Drained(bodies, arrived);
            if exists k :: 0 <= k < |arrived| && arrived[k].url == url then url in after && after[url] == ""
            else (url in after <==> url in bodies) && (url in bodies ==> after[url] == bodies[url])
  {
    if |arrived| > 0 {
      var past := arrived[..|arrived| - 1];
      forall i | 0 <= i < |past| ensures !past[i].body.Loaded? { assert past[i] == arrived[i]; }
      DrainedFailures(bodies, past, url);
      if exists k :: 0 <= k < |arrived| && arrived[k].url == url && k < |past| {
        var k :| 0 <= k < |arrived| && arrived[k].url == url && k < |past|;
        assert past[k].url == url;
      }
    }
  }

  /** The last fetch of a URL to arrive decides its body; a failure leaves it empty. */
  lemma {:induction false} DrainedLastWins(bodies: map<string, string>, arrived: seq<Fetch>, k: nat)
    requires k < |arrived| && forall j :: k < j < |arrived| ==> arrived[j].url != arrived[k].url
    ensures var after, fetch := Drained(bodies, arrived), arrived[k];
            fetch.url in after && after[fetch.url] == match fetch.body case Loaded(css) => css case FetchFailed => ""
  {
    if k < |arrived| - 1 { DrainedLastWins(bodies, arrived[..|arrived| - 1], k); }
  }

  /** The body of a URL no fetch arrived for stays. */
  lemma {:induction false} DrainedKeepsOthers(bodies: map<string, string>, arrived: seq<Fetch>, url: string)
    requires forall j :: 0 <= j < |arrived| ==> arrived[j].url != url
    ensures var after := Drained(bodies, arrived);
            (url in after <==> url in bodies) && (url in bodies ==> after[url] == bodies[url])
  {
    if |arrived| > 0 { DrainedKeepsOthers(bodies, arrived[..|arrived| - 1], url); }
  }

  /** How a batch of failures changes one source's contribution: it can only be lost. */
  lemma ContributionAfterFailures(source: StyleSource, bodies: map<string, string>, arrived: seq<Fetch>)
    requires !AnyLoaded(arrived)
    ensures var before, after := Contribution(source, bodies), Contribution(source, Drained(bodies, arrived));
            if Erases(source, bodies, arrived) then |after| == 0 < |before| else after == before
  {
    if source.kind.LinkTo? { DrainedFailures(bodies, arrived, source.kind.url); }
  }

  lemma {:induction false} ContributionsAfterFailures(sources: seq<StyleSource>, bodies: map<string, string>,
                                                      arrived: seq<Fetch>)
    requires !AnyLoaded(arrived)
    ensures var before, after := Contributions(sources, bodies), Contributions(sources, Drained(bodies, arrived));
            if FailureErases(sources, bodies, arrived) then |after| < |before| else after == before
  {
    if |sources| > 0 {
      var rest, last := sources[..|sources| - 1], sources[|sources| - 1];
      ContributionsAfterFailures(rest, bodies, arrived);
      ContributionAfterFailures(last, bodies, arrived);
      ErasesSplits(sources, bodies, arrived);
    }
  }

  lemma ErasesSplits(sources: seq<StyleSource>, bodies: map<string, string>, arrived: seq<Fetch>)
    requires |sources| > 0
    ensures FailureErases(sources, bodies, arrived)
            <==> FailureErases(sources[..|sources| - 1], bodies, arrived)
                 || Erases(sources[|sources| - 1], bodies, arrived)
  {}

  /** A refresh that reports no change left the cascade input alone if and only if no failed fetch it drained hit a
      link whose sheet was already showing. */
  lemma FalseRefreshKeepsCssIff(userAgent: string, s: Sheets, dom: Dom, dirty: set<NodeId>, arrived: seq<Fetch>)
    requires Acyclic(dom) && !Refresh(s, dom, dirty, arrived).changed
    ensures CssText(userAgent, Refresh(s, dom, dirty, arrived).sheets) == CssText(userAgent, s)
            <==> !FailureErases(s.sources, s.bodies, arrived)
  {
    ContributionsAfterFailures(s.sources, s.bodies, arrived);
    var after := Refresh(s, dom, dirty, arrived).sheets;
    assert after.sources == s.sources;
    assert |CssText(userAgent, after)| == |userAgent| + 1 + |Contributions(s.sources, Drained(s.bodies, arrived))|;
  }
}
