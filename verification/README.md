# SilkSurf verification

SilkSurf is a browser engine. This project models the parts of it whose correctness is spread over several
functions, and proves what each part is for:

- **The window bitmap** (`Geometry`, `ArgbFill`, `ArgbRaster`, `ItemPixels`, `ViewportRaster`, `ScrollReuse`). A frame is brought
  up to date by shifting rows and repainting only what came into view. The reference is `DocPixel`: every item that
  covers a document pixel, painted in order, with no viewport, scroll, damage, clip or tile in sight. The in-place
  loops are proved to compute `FullPixel` and `DamagePixel`; these are proved equal to `DocPixel`; and over any run
  of scrolls, resizes and page changes the bitmap equals a full raster of the present page at its own key. What one
  item shows at one pixel is told in `ItemPixels` by proportions and channels: which source pixel of a scaled image a
  pixel lies on, and the nearest integer to the exact mix.
- **The engine worker** (`EngineWorker`, `EngineRuns`, `EngineHistory`, `NativeEngineWorker`). An actor with views,
  navigation generations and an in-flight gate of one. Over all histories of commands and reported fetches, a stopped
  or closed navigation never installs a page, each view's events obey a grammar, and which views are live, which page
  each shows, what a reload asks for and how each command is answered are told by the history alone.
- **Event ingress and framing** (`EventIngress`, `Framing`). A reader thread and a consumer share an atomic byte
  charge and a bounded queue, modelled one atomic operation at a time; framing is read back through arbitrary chunks.
- **The live stylesheet set** (`StyleDom`, `StyleSheetSet`, `StyleSheetRuns`, `LiveStyleSheetSet`). A list of style
  sources refreshed behind two generation counters and a dirty list, with asynchronous body fetches.
- **The tokenizer** (`Bpe`, `BpeTrie`), **public suffixes** (`PublicSuffix`, `PublicSuffixSites`), **nested frames**
  (`ChildFrames`), **the module walk** (`ModuleGraph`), **bitmap text** (`PageText`) and **redraw accumulation**
  (`RedrawGeometry`).

Where the code updates something in place, a class or a method over an array does too, and its contract ties the new
state to a function of the old one; the main results are lemmas about those functions.

Some properties one might expect do not hold of the code. For each there is a concrete input and the exact condition:

- A damage repaint is exact for every page if and only if the damage rect contains the cells of its clip; a
  fractional edge inside the bitmap loses items (`ArgbRaster.DamageExactIff`).
- The live stylesheet set starts at most one fetch of each URL if and only if no refresh finds the document with two
  links to one URL never requested, because the missing list is gathered before any of it is marked as requested
  (`StyleSheetRuns.FetchedOnceIff`). When it starts two, a failure that lands second blanks a sheet that is showing
  while `refresh` reports no change (`StyleSheetRuns.FailedTwinErasesSheet`, `StyleSheetSet.FalseRefreshKeepsCssIff`),
  and a link can be in flight with nothing pending (`StyleSheetRuns.TwinInFlightNotPending`). A URL whose fetch failed
  in the batch that built the set is not held, so the set fetches it again; that first attempt is not counted.
- The tokenizer is lossless if and only if no two units share a token; it does not enforce the documented convention
  on ids (`Bpe.LosslessIff`).
- `registrable_domain` is idempotent on a host if and only if its result does not begin at an empty label of the host,
  no single-label exception decides the suffix, and the result is no IP literal
  (`PublicSuffixSites.IdempotentIffOnHost`); it fails at `a..com` and, under the exception `com`, at `a.com`
  (`PublicSuffixSites.NotIdempotentAt`).
- Redraw requests commute except when both carry an empty rect and the rects differ (`RedrawGeometry.CommutesIff`).

Check the project with `dafny verify dfyconfig.toml`.

## Model

| member | source | states |
|---|---|---|
| `Geometry.PixelRectFromRect` | crates/silksurf-app/src/runtime_repaint.rs:925-939 | the result holds exactly the bitmap's pixels whose outward-rounded rect cover includes them; none when there are none |
| `Geometry.PixelRectIntersection` | crates/silksurf-app/src/runtime_repaint.rs:941-954 | the result's pixels are exactly the common pixels |
| `Geometry.CoversIffCellOverlaps` | crates/silksurf-app/src/runtime_repaint.rs:925-939 | a rect covers a pixel if and only if it reaches into the pixel's cell |
| `ArgbFill.FillArgbWordsByCopy` | crates/silksurf-app/src/argb_raster.rs:3396-3408 | the doubling copy overwrites exactly one span of words |
| `ArgbFill.FillArgbWords` | crates/silksurf-app/src/argb_raster.rs:3371-3394 | all three fill strategies overwrite exactly the same span |
| `ArgbFill.FillArgbRect` | crates/silksurf-app/src/argb_raster.rs:3339-3369 | the block and row strategies write exactly the rect's pixels that fit the buffer and leave every other pixel alone |
| `ArgbFill.CopyArgbRows` | crates/silksurf-app/src/argb_raster.rs:1313-1319 | an overlapping row copy, in either direction, leaves each destination row as its source row was |
| `ArgbRaster.CullingIsInvisible` | crates/silksurf-app/src/argb_raster.rs:1355-1384 | painting only the indexed items that meet the region gives at each of its pixels what painting all items gives |
| `ArgbRaster.SourceIndicesIndexed` | crates/silksurf-app/src/argb_raster.rs:1355-1377 | with a tile index or without one, the walked indices are ascending and miss no item that meets the region |
| `ArgbRaster.SkippedFillHidesBase` | crates/silksurf-app/src/argb_raster.rs:648-679 | when the default fill is skipped, nothing the buffer held shows through |
| `ArgbRaster.DamageRestoresDocument` | crates/silksurf-app/src/argb_raster.rs:603-646 | a damage repaint leaves the document's own colour at every pixel whose cell the damage contains, over any old buffer |
| `ArgbRaster.DamageExactIff` | crates/silksurf-app/src/argb_raster.rs:603-679 | the repaint is exact for every supported page if and only if the damage contains the cells of its clip |
| `ArgbRaster.FractionalEdgeLosesItem` | crates/silksurf-app/src/argb_raster.rs:603-646 | for any damage with an uncovered clip cell there is a one-item page it repaints wrongly |
| `ItemPixels.ArgbChannels` | crates/silksurf-app/src/argb_raster.rs:3427-3429 | the four channels of a packed colour read back |
| `ItemPixels.BlendIsNearestMix` | crates/silksurf-app/src/argb_raster.rs:1065-1067 | a blended channel is the integer nearest the exact mix; alpha 0 keeps what was there and 255 replaces it |
| `ItemPixels.CopyComposites` | crates/silksurf-app/src/argb_raster.rs:1044-1063 | copying or blending, whichever is taken, composites the source pixel over the old word, channel by channel |
| `ItemPixels.SupportedFillIff` | crates/silksurf-app/src/argb_raster.rs:691-709 | a fill is supported if and only if replacing a word by its colour is compositing it |
| `ItemPixels.SupportedImageIff` | crates/silksurf-app/src/argb_raster.rs:1033-1037 | an image is supported if and only if it has pixels and each of them is whole |
| `ItemPixels.SourceCoordIff` | crates/silksurf-app/src/argb_raster.rs:1039-1042 | at offset o of an extent e, column c of n is sampled if and only if c*e <= o*n < (c+1)*e |
| `ItemPixels.SampledSource` | crates/silksurf-app/src/argb_raster.rs:1012-1042 | every covered pixel has exactly one source pixel by proportion, and it is the one sampled |
| `ItemPixels.ImageCompositesSource` | crates/silksurf-app/src/argb_raster.rs:1012-1063 | an image item composites, at each pixel it covers, the source pixel its scaling puts there, and nothing else |
| `ItemPixels.TopmostDecides` | crates/silksurf-app/src/argb_raster.rs:771-874 | the last item that covers a pixel decides it, over what the items below it show |
| `ItemPixels.UncoveredShowsBase` | crates/silksurf-app/src/argb_raster.rs:771-874 | where no item covers a pixel, the base shows |
| `ViewportRaster.FillClipped` | crates/silksurf-app/src/argb_raster.rs:876-925 | writes the colour at exactly the clip's pixels the scrolled rect covers |
| `ViewportRaster.BlitArgbImageRect` | crates/silksurf-app/src/argb_raster.rs:1012-1031 | each destination pixel gets its nearest source pixel, copied or blended once over what was there; at each pixel the image covers that is the source pixel its scaling puts there, composited |
| `ViewportRaster.BlitClipped` | crates/silksurf-app/src/argb_raster.rs:978-1010 | an image is blended at exactly the clip's pixels it covers, each with the source pixel that scaling the image to its whole rect puts there |
| `ViewportRaster.PaintItemClipped` | crates/silksurf-app/src/argb_raster.rs:771-874 | every kind of item changes exactly the pixels it covers in the clip, to its own document-space colour; an image shows its scaled source there |
| `ViewportRaster.RasterizeDamageDirect` | crates/silksurf-app/src/argb_raster.rs:603-646 | repaints every pixel of the clip and none outside it; refuses without writing when an item is unsupported |
| `ViewportRaster.FillToolbarBackground` | crates/silksurf-app/src/argb_raster.rs:496-521 | fills exactly the chrome rows, the last of them with the separator |
| `ViewportRaster.RasterizeViewportDirect` | crates/silksurf-app/src/argb_raster.rs:523-577 | the result is the full raster whatever the fresh buffer held |
| `ViewportRaster.UnfilledWordsAreHidden` | crates/silksurf-app/src/argb_raster.rs:523-577 | words the full raster never initialised do not show in it |
| `ViewportRaster.FullRasterShowsDocument` | crates/silksurf-app/src/argb_raster.rs:523-577 | below the chrome a full raster shows the document's own colours at its scroll |
| `ViewportRaster.FullRasterShowsImage` | crates/silksurf-app/src/argb_raster.rs:523-577 | where an image is the topmost item, a full raster shows the source pixel its scaling puts there, composited over the items below |
| `ScrollReuse.ShiftContentRows` | crates/silksurf-app/src/argb_raster.rs:1256-1311 | content rows that stay content rows move by the scroll, every other word stays; it declines exactly when nothing is preserved or the buffer is short |
| `ScrollReuse.ExposedClip` | crates/silksurf-app/src/argb_raster.rs:1218-1240 | the repainted strip's pixels are exactly the content rows the shift did not preserve |
| `ScrollReuse.ReusedPixelIsDocument` | crates/silksurf-app/src/argb_raster.rs:1133-1212 | shift plus strip repaint turns a bitmap right at the old scroll into one right at the new scroll, pixel by pixel |
| `ScrollReuse.RefreshKeepsFullRaster` | crates/silksurf-app/src/argb_raster.rs:1087-1131 | whichever way a refresh is served, the bitmap equals the full raster at the requested scroll and height |
| `ScrollReuse.ChangedItemsAgree` | crates/silksurf-app/src/redraw_geometry.rs:183-210 | a damage rect that holds the old and the new rect of every changed item leaves the page looking the same outside it |
| `ScrollReuse.RasterizedDamageIsShown` | crates/silksurf-app/src/argb_raster.rs:603-646 | the damage rasterizer's writes are the repaint the runs speak of, when the damage contains the cells of its clip |
| `ScrollReuse.RepaintKeepsFullRaster` | crates/silksurf-app/src/runtime_repaint.rs:428-457 | repainting a new page's damage takes a bitmap that showed the old page to one that equals the new page's full raster |
| `ScrollReuse.RunShowsFullRaster` | crates/silksurf-app/src/argb_raster.rs:1087-1212 | over any run of scrolls, height changes, stride changes and page changes with their damage the bitmap equals a full raster of the present page at its key, which after a refresh is the one asked for |
| `ScrollReuse.BrowserFrame.ScrollBitmap` | crates/silksurf-app/src/argb_raster.rs:1133-1212 | reuses exactly when size and stride match and the distance is profitable, and then completes a refresh in place |
| `ScrollReuse.BrowserFrame.RefreshBitmap` | crates/silksurf-app/src/argb_raster.rs:1087-1131 | completes a refresh and reports how it was served |
| `EngineWorker.ShutdownClosesEachView` | crates/silksurf-app/src/engine_process.rs:844-854 | shutdown writes one close for each live view, none other, in ascending id order |
| `EngineWorker.CommandPerView` | crates/silksurf-app/src/engine_process.rs:612-767 | a command changes its own view's entry and no other, through swap removal and pushes |
| `EngineWorker.CompletionPerView` | crates/silksurf-app/src/engine_process.rs:769-827 | a completion changes the entry whose active generation it carries and no other |
| `EngineRuns.GateHolds` | crates/silksurf-app/src/engine_process.rs:683-740 | in every reachable state the counter is the number of fetches, at most one, and a waiting view waits for exactly that fetch |
| `EngineRuns.AwaitedIffNotCancelled` | crates/silksurf-app/src/engine_process.rs:742-767 | the outstanding fetch is awaited if and only if its view was neither stopped nor closed since it began |
| `EngineRuns.NoStaleCommit` | crates/silksurf-app/src/engine_process.rs:769-827 | a reported fetch takes effect if and only if its view was neither stopped nor closed since it began, even when the view id was reused: a build installs its page's URL, a failed fetch keeps the old page, a failed build leaves none, each with its events and no other change; a cancelled one writes and changes nothing |
| `EngineRuns.GateOfTwoCommitsStale` | crates/silksurf-app/src/engine_process.rs:683-740 | with a gate of two the recreated view would commit the closed view's page, so the gate of one is what prevents it |
| `EngineRuns.EventsObeyGrammar` | crates/silksurf-app/src/engine_process.rs:612-855 | over every run each view's events obey the grammar, and the grammar's phase is the view's state |
| `EngineRuns.PrefixObeysGrammar` | crates/silksurf-app/src/engine_process.rs:910-937 | a stream cut short by a failed write still obeys the grammar |
| `EngineHistory.LiveIffCreated` | crates/silksurf-app/src/engine_process.rs:649-681 | a view is live if and only if it was created and not closed since |
| `EngineHistory.PageIsLastBuilt` | crates/silksurf-app/src/engine_process.rs:769-827 | over every run, a view shows u if and only if u is what its last build that was not cancelled yielded, with no failed build and no close since |
| `EngineHistory.RequestedIsLastAsked` | crates/silksurf-app/src/engine_process.rs:683-740 | over every run, a view remembers the URL its last fetch asked for since it was created |
| `EngineHistory.WaitsIffInFlight` | crates/silksurf-app/src/engine_process.rs:683-767 | a view waits if and only if its fetch is in flight and was not cancelled |
| `EngineHistory.NavigateAsks` | crates/silksurf-app/src/engine_process.rs:683-740 | a navigation starts a fetch of its own URL if and only if the view is live and nothing is in flight; else it is a violation or a busy notice |
| `EngineHistory.ReloadAsksAgain` | crates/silksurf-app/src/engine_process.rs:549-554 | a reload asks for the last built page's URL, else for the URL last asked for |
| `EngineHistory.ReloadOfNothing` | crates/silksurf-app/src/engine_process.rs:612-647 | a reload with neither is a violation |
| `EngineHistory.ViewCommandsAnswer` | crates/silksurf-app/src/engine_process.rs:649-767 | how create, close and stop are answered, by whether the view is live and its fetch in flight |
| `NativeEngineWorker.ActorWritesTrace` | crates/silksurf-app/src/engine_process.rs:910-937 | the actor on a history's queue writes exactly the trace the run results speak of |
| `NativeEngineWorker.RunRuntimeActor` | crates/silksurf-app/src/engine_process.rs:910-937 | the loop writes the actor's events and stops at the first message that ends it |
| `NativeEngineWorker.NativeEngineWorker.CreateView` | crates/silksurf-app/src/engine_process.rs:649-664 | adds a quiet view, or reports a violation for a live id |
| `NativeEngineWorker.NativeEngineWorker.CloseView` | crates/silksurf-app/src/engine_process.rs:666-681 | removes the view and announces it, or reports a violation |
| `NativeEngineWorker.NativeEngineWorker.StartNavigation` | crates/silksurf-app/src/engine_process.rs:683-740 | starts the next generation and a fetch for it when the gate is open; otherwise changes nothing and says busy |
| `NativeEngineWorker.NativeEngineWorker.StopNavigation` | crates/silksurf-app/src/engine_process.rs:742-767 | clears an active navigation and announces the stop; silent when there is none |
| `NativeEngineWorker.NativeEngineWorker.HandleNavigationComplete` | crates/silksurf-app/src/engine_process.rs:769-827 | frees the gate always, and ends the navigation only of a view that awaits it, installing what was built |
| `NativeEngineWorker.NativeEngineWorker.CloseAllViews` | crates/silksurf-app/src/engine_process.rs:844-854 | closes the sorted views one by one and empties the table |
| `NativeEngineWorker.NativeEngineWorker.HandleCommandMessage` | crates/silksurf-app/src/engine_process.rs:612-647 | each command has the effect, the events, the fetch and the ending its handler describes |
| `NativeEngineWorker.NativeEngineWorker.Handle` | crates/silksurf-app/src/engine_process.rs:910-937 | each queue message has the effect of its command, completion or end |
| `Framing.DecodeEncode` | crates/silksurf-core/src/engine_protocol/wire.rs:105-165 | decoding an encoded envelope gives the message back |
| `Framing.OnlyEncodingsDecode` | crates/silksurf-core/src/engine_protocol/wire.rs:114-142 | bytes decode to a message if and only if they are its encoding |
| `Framing.DecodeCountsBytes` | crates/silksurf-core/src/engine_protocol/wire.rs:114-142 | surplus bytes are refused by their number, and a short header by the field it ends in and how much of that there was |
| `Framing.ReadFull` | crates/silksurf-app/src/engine_process.rs:1023-1062 | partial reads of any size fill the buffer with the next bytes; it falls short only when the pipe ends |
| `Framing.ReadEngineEnvelope` | crates/silksurf-app/src/engine_process.rs:1007-1021 | the outcome and the bytes consumed do not depend on how the reads were cut |
| `Framing.ReadUntilClosed` | crates/silksurf-app/src/engine_process.rs:890-908 | the loop hands on exactly the stream's messages and its ending |
| `Framing.StreamReadsBack` | crates/silksurf-app/src/engine_process.rs:991-1062 | messages written one after the other, then any tail, read back as those messages and then the tail |
| `Framing.WholeStreamReadsBack` | crates/silksurf-app/src/engine_process.rs:991-1062 | a whole stream yields every message in order and a clean end |
| `Framing.CutStreamIsTruncated` | crates/silksurf-app/src/engine_process.rs:1023-1062 | a stream cut inside a frame yields the whole messages before it, then `Truncated` with the counts of the short part, and no further message |
| `Framing.TurnedStreamEnds` | crates/silksurf-app/src/engine_process.rs:890-908 | a message of the other direction ends the stream after the messages before it, whatever follows |
| `Framing.DamagedFrameEnds` | crates/silksurf-core/src/engine_protocol/wire.rs:39-58 | a wrong magic, version or kind byte ends the stream with the error of that byte |
| `Framing.OversizeFrameEnds` | crates/silksurf-core/src/engine_protocol/wire.rs:39-58 | a declared length over the bound ends the stream by the length alone |
| `EventIngress.InvariantHolds` | crates/silksurf-app/src/engine_process.rs:245-390 | under every interleaving the charge is exact and within budget, the queue within depth, events accepted in decode order, and the failure slot kept |
| `EventIngress.ChargeStep` | crates/silksurf-app/src/engine_process.rs:252-287 | every atomic step keeps the charge equal to reserved, queued and unreleased bytes |
| `EventIngress.OrderStep` | crates/silksurf-app/src/engine_process.rs:357-390 | every atomic step keeps the accepted events a prefix of the decoded ones, in order |
| `EventIngress.ReleaseNeverClamps` | crates/silksurf-app/src/engine_process.rs:278-284 | a release or rollback that takes effect finds at least the event's bytes charged and takes off exactly those; saturation never clamps |
| `EventIngress.ZeroChargeAdmits` | crates/silksurf-app/src/engine_process.rs:257-276 | a zero charge admits any one envelope at the next uncontended attempt |
| `EventIngress.UncontendedReserveIff` | crates/silksurf-app/src/engine_process.rs:258-276 | an uncontended reservation succeeds if and only if the event fits beside the bytes queued or not yet released |
| `EventIngress.SendOverflowsIffFull` | crates/silksurf-app/src/engine_process.rs:365-376 | over every schedule, a send with a live consumer overflows if and only if exactly 256 of the events decoded before it were not taken; otherwise the event joins the queue, last |
| `EventIngress.WhyEnded` | crates/silksurf-app/src/engine_process.rs:357-390 | the reader ends with the pipe's own ending when every event was accepted, else with what refused the first event that was not: the full queue, the byte bound, or the receiver's absence |
| `EventIngress.ByteOverflowNeedsBacklog` | crates/silksurf-app/src/engine_process.rs:257-276 | an event is refused only when, at some moment since it was decoded, the queued and unreleased bytes of earlier events alone left no room for it |
| `EventIngress.DeliveryIsFaithful` | crates/silksurf-app/src/engine_process.rs:314-348 | the consumer sees the events in decode order, hears of the end after the last of them, and a clean close means all were delivered |
| `StyleDom.CollectFrom` | crates/silksurf-app/src/stylesheet_set.rs:79-96 | the early-exit walk appends the subtree's sources in document order, cut at 64 in all |
| `StyleDom.CollectStyleSources` | crates/silksurf-app/src/stylesheet_set.rs:69-77 | collects the document's first 64 style sources in document order: one for each path to a style element or a link with a URL, with the element's media and its present text or URL |
| `StyleDom.PreorderIsDocumentOrder` | crates/silksurf-app/src/stylesheet_set.rs:79-119 | the walk yields exactly one entry for each path from the node to an element with a sheet, that element's own, in document order of the paths |
| `StyleDom.TextOfIsTexts` | crates/silksurf-app/src/stylesheet_set.rs:133-146 | an inline source's text is its text children's texts in order, each with a newline |
| `StyleDom.RereadIsRecollection` | crates/silksurf-app/src/stylesheet_set.rs:368-381 | when only text changed, rereading the collected owners gives what a new walk would |
| `StyleDom.QuietGateMeansTextOnly` | crates/silksurf-app/src/stylesheet_set.rs:337-363 | an unmoved structure counter and no dirty style or link mean that at most text changed |
| `StyleDom.EditedSinceGrows` | crates/silksurf-app/src/stylesheet_set.rs:125-131 | what the counters and the dirty list promise survives every structural, attribute and text edit |
| `StyleSheetSet.GatedRefreshIsRecollection` | crates/silksurf-app/src/stylesheet_set.rs:337-363 | after any edits since the last refresh, the gated refresh leaves exactly a fresh walk's list |
| `StyleSheetSet.ContributionsAfterFailures` | crates/silksurf-app/src/stylesheet_set.rs:256-282 | a batch of failed fetches either leaves the concatenated text alone or shortens it, by an exact test |
| `StyleSheetSet.ContributionShape` | crates/silksurf-app/src/stylesheet_set.rs:256-282 | a blank source adds nothing; any other adds its text whole and a newline, a conditional one inside one rule for its media |
| `StyleSheetSet.UnfetchedAddsNothing` | crates/silksurf-app/src/stylesheet_set.rs:256-282 | a link without a body adds nothing |
| `StyleSheetSet.ContributionBalances` | crates/silksurf-app/src/stylesheet_set.rs:256-282 | wrapping adds no unbalanced brace |
| `StyleSheetSet.DrainedLastWins` | crates/silksurf-app/src/stylesheet_set.rs:384-402 | the last fetch of a URL to arrive decides its body, a failure leaving it empty |
| `StyleSheetSet.DrainedKeepsOthers` | crates/silksurf-app/src/stylesheet_set.rs:384-402 | the body of a URL no fetch arrived for stays |
| `StyleSheetSet.FalseRefreshKeepsCssIff` | crates/silksurf-app/src/stylesheet_set.rs:337-402 | a refresh that reports no change kept the cascade input if and only if no drained failure hit a link whose sheet was showing |
| `StyleSheetRuns.RefreshAlwaysRecollects` | crates/silksurf-app/src/stylesheet_set.rs:337-381 | over any run of edits, landing fetches and refreshes, each refresh leaves the list a fresh walk collects |
| `StyleSheetRuns.MissingDistinctIff` | crates/silksurf-app/src/stylesheet_set.rs:406-418 | the missing list repeats a URL exactly when two links share one that nothing was requested for |
| `StyleSheetRuns.MissingFrom` | crates/silksurf-app/src/stylesheet_set.rs:406-418 | a URL is missing if and only if a link names it and nothing was ever requested for it |
| `StyleSheetRuns.FetchedOnceIff` | crates/silksurf-app/src/stylesheet_set.rs:406-418 | over a whole run the set starts at most one fetch of each URL if and only if no refresh finds the document with two links to one URL never requested |
| `StyleSheetRuns.FalseRefreshKeepsCss` | crates/silksurf-app/src/stylesheet_set.rs:384-418 | in a run that fetches each URL once, no fetch overwrites a held body and a false refresh leaves the cascade input unchanged |
| `StyleSheetRuns.PendingIffInFlight` | crates/silksurf-app/src/stylesheet_set.rs:241-246 | after a refresh, a body is pending if and only if a current link without a body is in flight; when each URL is fetched once, if and only if any current link is in flight |
| `StyleSheetRuns.TwinInFlightNotPending` | crates/silksurf-app/src/stylesheet_set.rs:241-246 | a run with two links to one sheet after which a current link is in flight and nothing is pending |
| `StyleSheetRuns.FailedTwinErasesSheet` | crates/silksurf-app/src/stylesheet_set.rs:384-418 | a run from a document without sheets in which a sheet with two links is fetched twice, and the failure that lands second blanks it under a refresh that reports no change |
| `LiveStyleSheetSet.LiveStyleSheetSet.constructor` | crates/silksurf-app/src/stylesheet_set.rs:198-223 | a set built from a walk is current for its document; it holds exactly the fetched URLs, each with its last body, and counts exactly those as requested |
| `LiveStyleSheetSet.LiveStyleSheetSet.DrainCompletions` | crates/silksurf-app/src/stylesheet_set.rs:384-402 | takes every finished fetch in arrival order and reports whether one succeeded |
| `LiveStyleSheetSet.LiveStyleSheetSet.RereadInlineText` | crates/silksurf-app/src/stylesheet_set.rs:368-381 | every inline source holds its owner's present text; true exactly when one moved |
| `LiveStyleSheetSet.LiveStyleSheetSet.RequestMissingBodies` | crates/silksurf-app/src/stylesheet_set.rs:406-418 | starts exactly the link URLs never requested, in order, and marks them |
| `LiveStyleSheetSet.LiveStyleSheetSet.Refresh` | crates/silksurf-app/src/stylesheet_set.rs:337-363 | the in-place refresh is the step the run results speak of |
| `LiveStyleSheetSet.LiveStyleSheetSet.HasPendingFetches` | crates/silksurf-app/src/stylesheet_set.rs:241-246 | true exactly when some link has no body |
| `LiveStyleSheetSet.LiveStyleSheetSet.ConcatenatedCss` | crates/silksurf-app/src/stylesheet_set.rs:256-282 | the user-agent sheet and then each source's text in document order, conditional ones wrapped |
| `Bpe.LastRegistrationWins` | crates/silksurf-core/src/bpe.rs:56-79 | a sequence is registered exactly when some merge registered it, under the last such id |
| `Bpe.LongestIsLongest` | crates/silksurf-core/src/bpe.rs:81-104 | the match is registered and no longer prefix is |
| `Bpe.AtMostOneTokenPerByte` | crates/silksurf-core/src/bpe.rs:81-104 | an encoding is never longer than its input |
| `Bpe.UnitEncodesAsOneToken` | crates/silksurf-core/src/bpe.rs:81-104 | each registered sequence, and each byte, encodes as its one token |
| `Bpe.LosslessIff` | crates/silksurf-core/src/bpe.rs:3-20 | encoding loses nothing if and only if no two units share a token |
| `Bpe.DecodeEncode` | crates/silksurf-core/src/bpe.rs:3-20 | with distinct ids from 256 up, decoding an encoding gives the input back |
| `Bpe.ClashingIdLosesInput` | crates/silksurf-core/src/bpe.rs:3-20 | an id below 256 makes two inputs encode alike |
| `BpeTrie.LinksFormTree` | crates/silksurf-core/src/bpe.rs:22-79 | each node but the root has exactly one parent slot, in a node of smaller index |
| `BpeTrie.BpeTokenizer.AddMerge` | crates/silksurf-core/src/bpe.rs:56-79 | the trie represents the merge history with this merge added |
| `BpeTrie.BpeTokenizer.LongestMatch` | crates/silksurf-core/src/bpe.rs:81-104 | the trie walk finds the longest registered prefix's id and length, or the raw byte |
| `BpeTrie.BpeTokenizer.Encode` | crates/silksurf-core/src/bpe.rs:81-104 | the nested loops emit the greedy encoding of the merge history |
| `PublicSuffix.FindRegistrableDomain` | crates/silksurf-core/src/psl.rs:103-146 | the two early-exit loops find the longest exception and the longest rule, and the domain one label above the suffix |
| `PublicSuffix.AppliesIffHit` | crates/silksurf-core/src/psl.rs:103-146 | a rule of n labels applies by the published matching exactly when the last n labels are a hit in the rule sets |
| `PublicSuffix.SuffixIsPrevailing` | crates/silksurf-core/src/psl.rs:103-146 | the computed suffix is the prevailing rule's: an exception less one label, else the most labels, else one label |
| `PublicSuffix.SplitJoin` | crates/silksurf-core/src/psl.rs:103-146 | joining dot-free labels and splitting again gives the labels |
| `PublicSuffix.TrimIs` | crates/silksurf-core/src/psl.rs:104 | trimming takes off every character to drop at both ends and nothing else |
| `PublicSuffix.LowerCharIs` | crates/silksurf-core/src/psl.rs:104 | lower-casing takes each letter of the upper alphabet to its own lower letter and keeps every other character |
| `PublicSuffixSites.GrowingListRefinesSites` | crates/silksurf-core/src/psl.rs:19-22 | hosts of one site under a larger rule and wildcard set are of one site under any smaller one |
| `PublicSuffixSites.GrowingListRefinesLabels` | crates/silksurf-core/src/psl.rs:19-22 | the same on label lists |
| `PublicSuffixSites.IdempotentIffOnHost` | crates/silksurf-core/src/psl.rs:103-146 | deriving again changes nothing if and only if the result does not begin at an empty label of the host, no single-label exception decides the suffix, and the result is no IP literal |
| `PublicSuffixSites.OrdinaryHostsAreIdempotent` | crates/silksurf-core/src/psl.rs:103-146 | with dotted exceptions and no empty label in the host, deriving again changes nothing unless the result is an IP literal |
| `PublicSuffixSites.EmptyLabelIsNotIdempotent` | crates/silksurf-core/src/psl.rs:103-146 | every host with an empty label before the suffix derives a domain with a leading dot, which derives nothing |
| `PublicSuffixSites.BareExceptionIsNotIdempotent` | crates/silksurf-core/src/psl.rs:103-146 | under a single-label exception a host derives that label, which derives nothing |
| `PublicSuffixSites.NotIdempotentAt` | crates/silksurf-core/src/psl.rs:103-146 | the two failures at `a..com` and `a.com` |
| `PublicSuffixSites.LabelsIdempotent` | crates/silksurf-core/src/psl.rs:103-146 | a registrable domain of two labels or more is its own registrable domain |
| `PublicSuffixSites.Parse` | crates/silksurf-core/src/psl.rs:63-93 | over a whole text, each of the three sets holds exactly the ASCII names of the trimmed lines of its kind |
| `PublicSuffixSites.EntryIff` | crates/silksurf-core/src/psl.rs:71-86 | a trimmed line adds an exception after `!`, a wildcard base after `*.`, and otherwise a rule unless it is empty or a comment, by the ASCII form of its name |
| `PublicSuffixSites.LinesOfTerminated` | crates/silksurf-core/src/psl.rs:67 | a text's lines are those it was put together from, an unfinished last one included when not empty |
| `ModuleGraph.Dedupe` | crates/silksurf-app/src/page_resources.rs:727-735 | keeps each URL where it first appears |
| `ModuleGraph.TakeRound` | crates/silksurf-app/src/page_resources.rs:446-460 | takes the first unseen URLs in order, as many as the limit leaves room for, and marks them seen |
| `ModuleGraph.ChildrenAreImports` | crates/silksurf-app/src/page_resources.rs:541-549 | scanning a batch's fetched modules yields exactly what the batch imports |
| `ModuleGraph.FetchedAre` | crates/silksurf-app/src/page_resources.rs:340-361 | the modules returned are the requested URLs that have a text, each with its own |
| `ModuleGraph.ReachIsChains` | crates/silksurf-app/src/page_resources.rs:340-361 | reach within k steps is the existence of an import chain of at most k imports from a root |
| `ModuleGraph.FetchModuleGraph` | crates/silksurf-app/src/page_resources.rs:340-361 | no URL twice, within the limit, round k is distance layer k unless truncated, in naming order, and a run below both limits requested everything reachable |
| `ChildFrames.DispatchInitialLoadWhenSettled` | crates/silksurf-app/src/child_frames.rs:367-390 | fires exactly when the load is pending and every tracked frame has settled, and logs the load once |
| `ChildFrames.AdvanceChildFetch` | crates/silksurf-app/src/child_frames.rs:280-331 | moves a pending or loading frame by its fetch's outcome: it fails if and only if the fetch broke, with one error at the owner, and gets a document if and only if a page was built |
| `ChildFrames.AdvanceReadyChild` | crates/silksurf-app/src/child_frames.rs:333-365 | syncs the child's document and announces its load at the owner once, and only after it has loaded |
| `ChildFrames.TakeReusableChild` | crates/silksurf-app/src/child_frames.rs:231-260 | takes the first frame for the same element, source and flags out of the list, or makes a pending one |
| `ChildFrames.UpdateChildFrame` | crates/silksurf-app/src/child_frames.rs:183-213 | a candidate has a frame if and only if it has a viewport; the frame continues the one taken or made for it, moved by its fetch and its document's sync, stays sound, and logs at most one event of its own |
| `ChildFrames.UpdateAccepted` | crates/silksurf-app/src/child_frames.rs:158-169 | the frames are those of the accepted candidates with a viewport, in order, each moved on from an old frame or a new one, and the budget passes through them; every event logged tells of one of them |
| `ChildFrames.RejectRest` | crates/silksurf-app/src/child_frames.rs:170-173 | each candidate beyond the budget gets one error, in order, and no frame |
| `ChildFrames.SyncChildFramesInner` | crates/silksurf-app/src/child_frames.rs:149-181 | a sync keeps every document in the tree sound and is the relation `Synced` at every depth: its frames are exactly those of the accepted candidates with a viewport, the candidates beyond the budget get one error each after them, and the load stays pending exactly when a frame is unsettled; it reports a change whenever it logs |
| `ChildFrames.SyncChildFrames` | crates/silksurf-app/src/child_frames.rs:140-147 | the same for a whole turn of the page, from a budget of 16 |
| `ChildFrames.SyncRepeatedly` | crates/silksurf-app/src/child_frames.rs:140-147 | any number of turns, each in its own surroundings, from a newly built page leaves a sound tree |
| `ChildFrames.FramesAreFirstVisible` | crates/silksurf-app/src/child_frames.rs:158-169 | above the depth limit and with budget left, the frames are, in document order, exactly those of the iframes that the budget reaches and that have a viewport |
| `ChildFrames.BeyondBudgetGetsError` | crates/silksurf-app/src/child_frames.rs:170-173 | each iframe the budget does not reach gets an error |
| `ChildFrames.AcceptedFrameHoldsLoad` | crates/silksurf-app/src/child_frames.rs:367-390 | an iframe the budget reaches and that has a viewport is tracked and holds the load back until its fetch breaks or brings a page |
| `ChildFrames.LoadFiresOnceTold` | crates/silksurf-app/src/child_frames.rs:367-390 | a pending load fires in a sync if and only if every frame then tracked has failed or was announced, and it notes each of them |
| `ChildFrames.BudgetSpentOnFrames` | crates/silksurf-app/src/child_frames.rs:183-193 | frames without a document spend one budget each |
| `ChildFrames.LoadOrderAtEveryDepth` | crates/silksurf-app/src/child_frames.rs:149-390 | at every depth a document loads at most once, after each frame it tracked had an error, or its own load and then a load at its owner |
| `ChildFrames.ChildLoadsFirst` | crates/silksurf-app/src/child_frames.rs:333-365 | a child announced as loaded had loaded before the announcement |
| `PageText.GlyphFitsMetrics` | crates/silksurf-app/src/argb_raster.rs:2758-2768 | at every font size a glyph is no wider than its advance and no taller than its line |
| `PageText.RoundIsNearest` | crates/silksurf-app/src/argb_raster.rs:2758-2768 | rounding gives the nearest integer, and of two equally near the one further from zero |
| `PageText.BitMasks` | crates/silksurf-app/src/argb_raster.rs:2797-2801 | the columns of a glyph row from the left are the bits 16, 8, 4, 2 and 1 |
| `PageText.PenByCounting` | crates/silksurf-app/src/runtime_repaint.rs:868-895 | the pen stands one line lower per newline, and as far along as the spaces, tabs and glyphs counted since the last one take it |
| `PageText.PenHasGlyph` | crates/silksurf-app/src/argb_raster.rs:2710-2756 | each character that is not spacing has its own glyph where the pen stood before it |
| `PageText.GlyphIsAtPen` | crates/silksurf-app/src/argb_raster.rs:2710-2756 | each glyph is that of a character that is not spacing, where the pen stood before it |
| `PageText.PageBitmapTextBounds` | crates/silksurf-app/src/runtime_repaint.rs:864-895 | bounds exist exactly for a positive size and drawable text, as wide as the pen ever gets and as tall as the lines |
| `PageText.FastBoundsIff` | crates/silksurf-app/src/argb_raster.rs:2820-2861 | the fast path is taken exactly when every pixel of the glyph's box is in the clip and the bitmap |
| `PageText.DrawPageBitmapGlyphUnchecked` | crates/silksurf-app/src/argb_raster.rs:2863-2891 | writes exactly the glyph's ink |
| `PageText.DrawPageBitmapGlyphClipped` | crates/silksurf-app/src/argb_raster.rs:2770-2818 | on either path, writes exactly the glyph's ink that lies in the clip and the bitmap |
| `PageText.DrawPageBitmapTextClipped` | crates/silksurf-app/src/argb_raster.rs:2710-2756 | true exactly when bounds exist; draws the glyphs of the drawable prefix, each where the pen stood |
| `PageText.InkInBounds` | crates/silksurf-app/src/runtime_repaint.rs:864-895 | every inked pixel of a drawable text is inside its bounds placed at the rounded start |
| `PageText.DrawnTextStaysInBounds` | crates/silksurf-app/src/argb_raster.rs:2710-2756 | every pixel a drawing changes lies in the clip and in the bounds box, and gets the text colour |
| `RedrawGeometry.UnionAssociative` | crates/silksurf-app/src/redraw_geometry.rs:217-234 | the hull of rects is associative, empty ones included |
| `RedrawGeometry.CombineAssociative` | crates/silksurf-app/src/redraw_geometry.rs:18-153 | joining requests is associative for all modes |
| `RedrawGeometry.CommutesIff` | crates/silksurf-app/src/redraw_geometry.rs:18-153 | two requests commute unless both carry an empty rect and the rects differ |
| `RedrawGeometry.EmptyRectsKeepOrder` | crates/silksurf-app/src/redraw_geometry.rs:217-234 | two distinct empty rects: the later one survives |
| `RedrawGeometry.OrderIndependent` | crates/silksurf-app/src/redraw_geometry.rs:6-153 | any permutation of requests without empty rects accumulates to the same mode |
| `RedrawGeometry.AccumulatedKind` | crates/silksurf-app/src/redraw_geometry.rs:18-153 | the accumulated kind by what was requested: full, then rects with or without chrome, then chrome, then a scroll |
| `RedrawGeometry.AccumulatedChromeIsLeast` | crates/silksurf-app/src/redraw_geometry.rs:46-86 | among chrome requests the result is the least mode above each of them |
| `RedrawGeometry.NoDamageLost` | crates/silksurf-app/src/redraw_geometry.rs:18-153 | every pixel of a marked rect is in the accumulated rect unless the mode is `Full` |
| `RedrawGeometry.AccumulatedRectIsHull` | crates/silksurf-app/src/redraw_geometry.rs:217-234 | the accumulated rect is the smallest that holds every marked rect |
| `RedrawGeometry.CleanIsIdentity` | crates/silksurf-app/src/redraw_geometry.rs:23 | joining with a clean state changes nothing, on either side |
| `RedrawGeometry.RedrawState.TakeRedraw` | crates/silksurf-app/src/window_frame.rs:77-78 | a present draws what the requests since the last one accumulate to, drops the retained present, and starts over |
| `RedrawGeometry.RedrawState.MarkRedraw` | crates/silksurf-app/src/redraw_geometry.rs:6-16 | keeps the mode equal to what the requests since the last present accumulate to, and drops exactly the retained state each kind of request invalidates |

## Left out

- Rounding error of f32 and f64: coordinates are reals and pixel indices are integers.
- u32, u64 and i32 saturation and wrap-around of sizes, indices and counters, except the navigation generation, which saturates at its 64-bit maximum, and the child-frame budget, which wraps as it does in a build without overflow checks.
- Text items in the raster results: the full raster clips text to its own box while the damage raster clips it only to the damage, and rounding half away from zero is not shift-invariant, so the two differ. Text is covered on its own in `PageText`.
- ScrollReuse.BrowserFrame.ScrollBitmap: requires every item to be one the direct path supports, because the fallback rasterizer is not part of this model; a frame without a page runtime is not modelled.
- ScrollReuse.RunShowsFullRaster: claims content rows only, because items of the full raster are painted over the toolbar rows too. A page change whose damage does not contain the cells of its clip is not a step of a run (`ArgbRaster.DamageExactIff` says why); page changes are painted by the fallback rasterizer in the program, and the step takes it to do what the direct one does.
- ScrollReuse.BrowserFrame.RefreshBitmap: requires every item to be one the direct path supports, for the same reason.
- Tile index: assumed to return at least every item that meets the queried rect; building it is not part of this model.
- Full-frame blits to the window, chrome overlays, vector pixel packing and glyph tables: they would only add easy members.
- NativeEngineWorker.RunRuntimeActor: writes always succeed; a failed write ends the stream at a prefix, which `EngineRuns.PrefixObeysGrammar` covers. Spawning always succeeds. Profiles, viewports, buffer reuse and the length bound on status strings are not modelled, and building a page is an oracle.
- Threads, processes, the network and page building are nondeterministic inputs.
- EventIngress.InvariantHolds: the reader and the consumer are a state machine over atomic operations, not methods that update fields, so that every interleaving is covered; memory orderings weaker than sequential consistency are not modelled.
- Framing.DecodeEncode: a message body is opaque bytes; the field codecs of each message, and I/O errors of a read, are not modelled.
- Style attributes are taken as parsed (rel, resolved href, trimmed media), generation counters never wrap, spawning a fetch succeeds, and the CSSOM view of the sheets is not modelled.
- StyleSheetRuns.FetchedOnceIff: counts the fetches the set itself starts, not those of the batch that built it.
- StyleSheetRuns.RefreshAlwaysRecollects: assumes what the document's counters and dirty list promise (`StyleDom.Edited` and `StyleDom.DirtiedBy`), as the document module is not part of this model.
- Bpe: ids are unbounded naturals, not 16-bit.
- PublicSuffixSites.Parse: which characters are white space, IDNA conversion and the recognition of IP literals are oracles.
- ModuleGraph.FetchModuleGraph: the network and the import scanner are an oracle that answers each URL the same way each time; byte budgets and the background preload variant are not modelled.
- ChildFrames.SyncChildFramesInner: modelled on values returned by methods rather than by updates in place. The surroundings (`World`: the iframes found, their viewports, what their fetches come to) answer each question of one turn once, and may answer differently in every turn. Resizing, surfaces, repainting and fetch permits are not modelled, and no bound on frames over the whole tree is claimed, because the accepted count is fixed before nested documents spend from the same budget.
- PageText.DrawPageBitmapTextClipped: positions are unbounded integers; the font is an oracle from characters to glyphs, which stands for the lower-cased glyph table.
- RedrawGeometry.RedrawState.MarkRedraw: the rendering that consumes the mode is not modelled, and coverage of the address-bar border under combined modes is not claimed.
- The damage rect of a focused input, whose character metrics differ from the painter's.
- String interner, arena, spans, history index, caret editing and option parsing: they would only add easy members.
