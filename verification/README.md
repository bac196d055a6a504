# Verified models of Nagi's terminal core

Nagi is a terminal workspace: it tiles panes, forwards raw keyboard input, mirrors kitty graphics
to the outer terminal, watches which agent runs in a pane and grants capabilities to plugins. This
project models the parts of it whose behaviour is easiest to get wrong and proves what they are
for. `dafny verify dfyconfig.toml` checks everything.

The files follow the program's components.

* **Kitty graphics** (`KittyClipping`, `KittyHost`, `KittyCache`, `KittyAgreement`, `KittyRuns`,
  `KittyLosses`, `KittyCompleteness`, `KittyScreen`, `KittyRedraw`, `KittyWitnesses`). A cache of
  three maps mirrors what the outer terminal holds, and an incremental update sends deletes, chunked
  uploads and displays. The terminal is modelled as the protocol describes it; the emitted commands
  are replayed on it. The class `HostGraphicsCache` runs the update on mutable maps; iteration order
  over hash maps is left open, so one update is a relation. The results are exact for any hash
  functions. An item is starved when another image has its id and it brings no data: the terminal
  loses that image while the cache keeps it. After every run the terminal holds the cache's contents
  less exactly the images lost so far (`EveryRunAgreesExactly`), it shows the whole frame exactly when
  every item comes and is spared (`EveryFrameCompleteExactly`), and no command is wasted and nothing
  is lost exactly when no item was starved (`EveryRunUnwastedExactly`). Where ids do not collide
  (`Distinguished`) nothing is starved, and a frame is complete exactly when it is supplied. A changed
  view displays everything again (`ChangedViewRedisplays`), an update is silent only when nothing
  changed (`SilentOnlyWhenUnchanged`), and a clipped image shows exactly the part that overlaps its
  pane (`ClipShowsOverlap`).
* **Raw input** (`RawRecogniser`, `RawStability`, `RawFramer`, `RawTheorems`, `RawRuns`,
  `RawMeaning`, `RawCuts`, `RawWaiting`, `RawGrammar`, `RawPaste`, `RawMouse`). A byte stream is cut into one chunk per event,
  with a discard mode, a held escape and an idle timeout. The key and colour parsers are arbitrary
  functions (`Parsers`), so every theorem holds for all of them.
* **Layout** (`Layout`, `LayoutTiling`, `LayoutResize`, `LayoutMoves`). Trees of splits, their rectangles,
  navigation and resizing. The class `TileLayout` holds the tree and the focus.
* **Agent detection** (`AgentDetection`, `AgentAnnouncements`). The loop that keeps, announces the exit of, and gives up
  an agent's identity, as a step machine over arbitrary probes and screens.
* **Plugins** (`PluginPaths`, `PluginCapabilities`, `PluginDecisions`, `SortedText`). Directory names for plugin ids,
  and the text form, normal form and evaluation of capabilities.

Some results are about behaviour that a reader might not expect:

* The pass that collects a frame leaves out pixel data for images that were cached before the
  update, but the update itself may release such an image before its item's turn. Where ids do not
  collide a frame is drawn completely if and only if every visible item brings data or finds its
  image still held (`CompleteExactlyWhenSupplied`); `FilteredFrameCanMissAnItem` gives a run whose second frame
  does not, and `FilteredFrameIsSupplied` says that steady sources suffice.
* Image ids that collide can leave an image in the cache that the terminal was told to delete
  (`CollidingIdsPart`). Such a loss lasts until the image leaves the cache, is replaced by an upload
  under its id, or is cleared (`LostByDraw`, `ClearRepairs`).
* Under a collision an item can miss its placement although it brings its data: the image it
  replaces takes the placement out of the frame, and what is displayed is deleted as stale in the
  same update (`ReplacedPlacementIsDropped`).
* Where a read ends matters in exactly two kinds of state: while the tail of a mouse report is being
  dropped, and just after an escape was flushed, if the bytes held since can still become a report
  with a sign or an extra field in it, which ten endings decide (`CutInvariantExactly`).
* A chunk that only a timeout completes (such as Alt with an opening bracket) carries a key for the
  byte stream, but the event reader finds no event in it, except for the lone escape and for a
  bracket held since an escape was flushed (`TimedOutChunkEvents`, `AltBracketIsReadAsNothing`,
  `HeldBracketHasItsKey`).
* When the shell is back in front, the full detection task can put off announcing the exit for as
  long as the screen asks to skip updates; the basic task cannot (`SkippedExitIsAnnouncedAtLast`,
  `ShellBackMeansExitThenClear`).
* Directory names cut to length can equal the name of an id that is not cut, without any hash
  collision: exactly when the cut falls between two escapes (`CutNameIsTaken`).
* A paste whose text contains the end marker does not frame as one paste (`PasteFramesExactly`).
* Resizing towards the edge of the area moves the opposite edge inwards
  (`ResizeTowardsOuterEdgeNeverGrows`, `ResizeTowardsOuterEdgeCanShrink`).
* The cells shown of an image are the overlap of its grid with the pane, except for the smallest
  32-bit column number, whose negation saturates (`VisibleCellsAreTheOverlap`).

Assumptions a caller must meet appear as `requires` clauses: pane ids are unique and the focus is
in the tree (both are kept by every operation), pixel data matches its announced length and
fingerprint (`Honest`), and the origin form of a network origin is its own origin form
(`StableOrigins`).

## Model

| member | source | states |
|---|---|---|
| KittyClipping.VisibleCellsAreTheOverlap | src/kitty_graphics.rs:794-840 | the cells shown are the overlap of the image's grid with the pane, exactly unless the saturated negation of the smallest 32-bit number shows |
| KittyClipping.ClippedInsidePaneAndImage | src/kitty_graphics.rs:774-916 | a clipped placement is non-empty, its cells lie inside the pane and its source rectangle inside the image |
| KittyClipping.CropStaysInDeclaredSource | src/kitty_graphics.rs:841-905 | without 32-bit overflow the crop starts in the declared source and ends in it, unless it was raised to one pixel |
| KittyClipping.ClipShowsOverlap | src/kitty_graphics.rs:795-916 | without 32-bit overflow each axis starts where the image enters the pane, covers the overlap, crops exactly the hidden share of the source and shows the visible share, rounded down, at least one pixel, cut off at the image |
| KittyClipping.NothingShownExactly | src/kitty_graphics.rs:775-888 | an axis shows nothing exactly when nothing overlaps or the image ends before the crop does |
| KittyHost.FormatCodesAreBits | src/kitty_graphics.rs:966-972 | raw pixel formats are announced as 24 and 32 bits, PNG as 100 |
| KittyHost.EncodeKittyData | src/kitty_graphics.rs:974-988 | the chunk loop sends the specified chunk commands |
| KittyHost.ChunksFitProtocol | src/kitty_graphics.rs:974-988 | every chunk but the last is 4096 characters of base64 without padding, none is longer, and exactly the last announces the end |
| KittyHost.UploadStoresImage | src/kitty_graphics.rs:722-738 | replaying the chunks leaves the terminal holding exactly the image sent, all bytes in order, and changes nothing else |
| KittyCache.HostGraphicsCache.Paint | src/kitty_graphics.rs:172-226 | clears when graphics cannot be shown, otherwise updates the view and performs an update that knows whether the view changed |
| KittyCache.HostGraphicsCache.EncodeGraphicsUpdate | src/kitty_graphics.rs:286-420 | the loops over mutable maps perform one update step, in some iteration order |
| KittyCache.HostGraphicsCache.PruneSources | src/kitty_graphics.rs:294-320 | drops vanished sources and the pane-layer images nothing refers to any more |
| KittyCache.HostGraphicsCache.ReleaseSupersededSourceImage | src/kitty_graphics.rs:424-450 | repoints a source and erases its former image once unused, in cache, frame and command stream |
| KittyCache.HostGraphicsCache.ClearBytes | src/kitty_graphics.rs:485-495 | deletes every cached image, in some order, and forgets everything |
| KittyAgreement.DrawKeepsStepUnlessStarved | src/kitty_graphics.rs:324-406 | drawing one item keeps cache and terminal in step if and only if the item is not starved (id taken by another image and no data) |
| KittyWitnesses.CollidingIdsPart | src/kitty_graphics.rs:348-361 | a run of two updates with colliding ids, the second frame filtered as the collecting pass filters, after which the terminal does not hold what the cache says |
| KittyWitnesses.ClearRepairs | src/kitty_graphics.rs:485-495 | after any run, whatever was lost, a clear makes cache and terminal agree |
| KittyLosses.DrawAgrees | src/kitty_graphics.rs:324-406 | drawing one item keeps the terminal at the cache less the lost images, and says which are lost then |
| KittyLosses.UpdateAgreesBut | src/kitty_graphics.rs:286-420 | the same for a whole update with pruning and stale deletes |
| KittyLosses.EveryRunAgreesExactly | src/kitty_graphics.rs:286-495 | after every run from empty the terminal holds the cache less exactly the images lost by starved items and not yet released, replaced or cleared; so it agrees if and only if there are none |
| KittyScreen.CompleteExactlyWhenAllCome | src/kitty_graphics.rs:322-420 | under any collisions, an update shows exactly the frame if and only if every visible item comes at its turn and is spared by the later ones |
| KittyScreen.EveryFrameCompleteExactly | src/kitty_graphics.rs:286-495 | the same after any run |
| KittyWitnesses.ReplacedPlacementIsDropped | src/kitty_graphics.rs:348-405 | a run after which an item that brings its data under a colliding id is displayed and deleted as stale in the same update |
| KittyRuns.FrameKeepsStepExactly | src/kitty_graphics.rs:322-406 | the drawing loop ends in step if and only if no item was starved at its turn; otherwise it sent a wasted command or ends with a lost image |
| KittyRuns.UpdateAgreesExactly | src/kitty_graphics.rs:286-420 | one update agrees and wastes no command if and only if it starves no item; otherwise it sent a wasted command or ends with a lost image |
| KittyRuns.UpdateStaysSpoiled | src/kitty_graphics.rs:286-420 | an update that starts with a lost image sends a wasted command or ends with a lost image |
| KittyRuns.EveryRunUnwastedExactly | src/kitty_graphics.rs:286-495 | over every run from empty, agreement without a wasted command holds if and only if no item of any frame was starved |
| KittyRuns.EveryRunWithDataAgrees | src/kitty_graphics.rs:322-406 | runs whose visible items carry their data agree under any collisions |
| KittyAgreement.UpdateKeepsReferences | src/kitty_graphics.rs:286-420 | no update leaves a source or placement naming an uncached image, even when ids collide |
| KittyRuns.RunKeepsReferences | src/kitty_graphics.rs:286-450 | the same over every run of updates and clears |
| KittyRuns.UpdateKeepsAgreement | src/kitty_graphics.rs:286-420 | when ids do not collide every update keeps agreement, and the cache stays named by the same ids |
| KittyRuns.EveryRunAgrees | src/kitty_graphics.rs:286-495 | when ids do not collide every run from empty agrees: no display without its image, no upload over a held id, no idle delete |
| KittyCompleteness.CompleteExactlyWhenSupplied | src/kitty_graphics.rs:286-420 | the terminal shows what drawing from scratch would show if and only if every visible item is supplied |
| KittyCompleteness.ReachableFrameCompleteExactlyWhenSupplied | src/kitty_graphics.rs:286-495 | the same after any run |
| KittyCompleteness.CompleteWithData | src/kitty_graphics.rs:322-420 | a frame whose visible items carry their data is complete |
| KittyCompleteness.FilteredFrameIsSupplied | src/kitty_graphics.rs:563-568 | leaving out data for cached images is safe while no source leaves or changes its image |
| KittyWitnesses.FilteredFrameCanMissAnItem | src/kitty_graphics.rs:563-568 | a run from empty, without collisions, whose second frame is filtered as the collecting pass filters and leaves the terminal showing something else than drawing from scratch |
| KittyCompleteness.CompleteFrameSettles | src/kitty_graphics.rs:371-420 | a supplied update leaves the cache settled for its frame |
| KittyCompleteness.RepeatedFrameIsSilent | src/kitty_graphics.rs:371-420 | painting a settled frame again, with or without data, sends no command and changes nothing |
| KittyRedraw.ChangedViewRedisplays | src/kitty_graphics.rs:379-406 | on a changed view an update brings a terminal that lost or altered any of its placements to the one that has them all, under any collisions |
| KittyRedraw.BlankedTerminalShowsFrame | src/kitty_graphics.rs:379-406 | a terminal with the images but fewer or other placements shows, after an update on a changed view, what drawing from scratch would if and only if the frame is supplied |
| KittyRedraw.SilentOnlyWhenUnchanged | src/kitty_graphics.rs:382-406 | an update that sends nothing leaves images and placements as they are, and every visible item it could show is shown already with the same image, geometry, depth and scroll position on the same view |
| KittyRedraw.SourceStaysWithFrame | src/kitty_graphics.rs:296-311 | a known source stays known exactly while the frame has it, a pane layer only while visible |
| KittyRedraw.UnusedLayerImageIsDeleted | src/kitty_graphics.rs:312-319 | an image only vanished pane layers used is deleted, in the cache and by command |
| KittyRedraw.KeysTellPlacementsApart | src/kitty_graphics.rs:669-709 | without hash collisions equal keys mean the same pane, image and placement, and layers never share one with terminals |
| RawRecogniser.Find | src/raw_input.rs:938-942 | the first place where the needle matches, or none if it matches nowhere |
| RawRecogniser.FindAny | src/raw_input.rs:929-936 | the first byte of a set, or none if there is none |
| RawMouse.ReportReadsBack | src/raw_input.rs:944-1005 | the mouse parser inverts the report of every event: button, kind, release, modifiers and both coordinates |
| RawMouse.ReportFramesExactly | src/raw_input.rs:626-668 | a mouse report followed by anything frames as one mouse event of exactly its bytes |
| RawStability.SequenceExtends | src/raw_input.rs:764-809 | a complete escape sequence stays the same when more bytes follow |
| RawStability.SequenceStandsAlone | src/raw_input.rs:764-809 | a complete sequence that is not a run of escapes is complete on its own |
| RawStability.ExtractionExtends | src/raw_input.rs:626-674 | a recognised event does not change when more bytes follow |
| RawStability.ExtractionStandsAlone | src/raw_input.rs:626-674 | a recognised event is recognised again from its own bytes, unless these are all escapes |
| RawGrammar.ControlSequenceFrames | src/raw_input.rs:764-809 | every control sequence of ECMA-48 but the start of a paste or mouse report frames as one event of its bytes, whatever follows |
| RawGrammar.EscapedControlSequenceFrames | src/raw_input.rs:778-780 | with a further escape in front it is still one event |
| RawGrammar.ControlStringFrames | src/raw_input.rs:719-730 | every control string frames as one event up to and with its terminator |
| RawGrammar.SingleShiftFrames | src/raw_input.rs:799-801 | a single shift takes exactly one more byte |
| RawGrammar.EscapeBeforeReportFrames | src/raw_input.rs:769-776 | an escape in front of a mouse report is an event of its own |
| RawGrammar.FixedReportsFrame | src/raw_input.rs:640-669 | the focus and colour scheme reports mean what they say |
| RawGrammar.OtherSequencesMean | src/raw_input.rs:640-669 | any other sequence is a colour, mouse report, key or unsupported, in this order |
| RawGrammar.CharacterFrames | src/raw_input.rs:671-674 | a character is the key its bytes parse to, or holds back what follows |
| RawGrammar.ValidExactlyWhenEncoded | src/raw_input.rs:732-749 | text is valid exactly when it encodes code points that are no surrogates, as section 3 of RFC 3629 says |
| RawGrammar.DrainCountsReplies | src/raw_input.rs:408-420 | draining counts awaited replies off by the events it recognises, and any event ends the hold of an escape |
| RawFramer.RawInputByteFramer.PushBytes | src/raw_input.rs:194-197 | appends the read and drains |
| RawFramer.RawInputByteFramer.Drain | src/raw_input.rs:369-424 | the drain loop terminates and yields the specified chunks and state |
| RawFramer.RawInputByteFramer.DiscardTail | src/raw_input.rs:864-890 | the byte loop drops the tail of a mouse report as specified, within its budget |
| RawFramer.RawInputByteFramer.Timeout | src/raw_input.rs:229-367 | the idle timeout yields the specified chunks and state |
| RawTheorems.PushInTwo | src/raw_input.rs:194-197 | two pushes give the chunks and state of one push of both reads |
| RawTheorems.ReadsMayBeCutAnywhere | src/raw_input.rs:194-197 | however a byte stream is cut into reads, chunks and final state are the same |
| RawCuts.CutInvariantExactly | src/raw_input.rs:369-424 | in every sound state, where a read ends matters exactly while a mouse tail is dropped, or while a report whose escape was flushed can still end oddly |
| RawTheorems.CutMattersWhileDroppingMouseTail | src/raw_input.rs:864-890 | in each such state some cut changes the outcome |
| RawCuts.CutMattersAfterFlushedEscape | src/raw_input.rs:373-382 | just after a flushed escape the cut matters exactly if one of ten odd endings makes a whole report of the held bytes |
| RawCuts.OddCutsByEndings | src/raw_input.rs:818-827 | the ten endings decide whether any report at all, cut anywhere, stops looking unfinished before it is whole |
| RawCuts.NoCutMattersWithoutCode | src/raw_input.rs:818-827 | while the held bytes leave the button code out no cut matters |
| RawRuns.RunKeepsBytes | src/raw_input.rs:229-424 | over any run the bytes handed on and buffered are an in-order subsequence of those read |
| RawRuns.RunWithoutTimeoutsLosesNothing | src/raw_input.rs:369-424 | without timeouts they are all of them |
| RawMeaning.PushedChunksReadBack | src/raw_input.rs:160-176 | each chunk taken alone yields the event the drain loop took it for, with its whole length, unless it is all escapes, and reading the chunks back gives those events |
| RawMeaning.TimedOutChunkEvents | src/raw_input.rs:160-176 | in every sound state a chunk completed only by a timeout has no event, except the lone escape and a bracket held after a flushed escape, which has its key |
| RawMeaning.AltBracketIsReadAsNothing | src/raw_input.rs:345-350 | Alt with an opening bracket, timed out, is handed on whole and read as no event |
| RawMeaning.HeldBracketHasItsKey | src/raw_input.rs:345-353 | from a fresh framer, an escape, a pause, a bracket and a pause hand on both, and the bracket has an event |
| RawMeaning.EveryStateIsSound | src/raw_input.rs:181-424 | in every run at most two replies are awaited, an escape is held only while one is, discarding counts at most 128 bytes and excludes a flushed escape |
| RawMeaning.LoneEscapeIsHandedOnOnce | src/raw_input.rs:327-343 | an escape followed by two quiet periods is handed on exactly once, and when |
| RawMeaning.HeldEscapeRejoinsReply | src/raw_input.rs:199-204 | while a colour reply is awaited a pause after its escape does not split the reply |
| RawPaste.PasteFramesExactly | src/pane.rs:2616-2627 | the bracketed payload of a text frames as one paste of exactly that text if and only if the text lacks the end marker |
| RawPaste.SlowPasteArrivesWhole | src/raw_input.rs:285-293 | once its start marker is in, a paste arrives as one chunk through any reads, timeouts and colour queries |
| RawWaiting.SlowInputArrivesWhole | src/raw_input.rs:285-362 | input that survives quiet periods from some byte on arrives as one chunk through any reads, pauses and queries |
| RawWaiting.SlowCharacterArrivesWhole | src/raw_input.rs:352-355 | a character with a key arrives whole, byte by byte and with pauses |
| RawWaiting.SlowAltCharacterArrivesWhole | src/raw_input.rs:357-361 | so does Alt with a character of several bytes, once its first byte is in |
| RawWaiting.SlowColorReplyArrivesWhole | src/raw_input.rs:295-301 | so does a colour reply, once its introducer is in |
| RawWaiting.CutControlStringIsDropped | src/raw_input.rs:314-325 | a control string a pause interrupts is dropped with its tail, and the framer is as before |
| RawWaiting.CutMouseReportIsDropped | src/raw_input.rs:270-283 | a mouse report likewise, within 128 bytes |
| RawWaiting.CutOrphanedReportIsDropped | src/raw_input.rs:259-268 | a report whose escape was flushed likewise |
| RawWaiting.CutSchemeReportIsDropped | src/raw_input.rs:303-312 | a colour scheme report likewise |
| RawWaiting.SlowTailIsDropped | src/raw_input.rs:232-253 | a plausible reply tail that itself comes with pauses is dropped whole, up to 128 bytes |
| RawWaiting.CutTerminatorEndsDiscard | src/raw_input.rs:232-253 | a string terminator cut after its escape still ends the discarding |
| RawWaiting.QueryHoldsNextEscape | src/raw_input.rs:199-204 | after a colour query the next lone escape is held through one quiet period |
| RawWaiting.SoundBounds | src/raw_input.rs:181-192 | two replies, 128 discarded bytes and 32 held bytes are the most in any sound state |
| RawWaiting.QuietPeriodKeepsExactly | src/raw_input.rs:229-367 | a quiet period keeps exactly what is still on its way and empties the buffer of everything else |
| Layout.BestCandidate | src/layout.rs:280-335 | a candidate no other candidate beats, or none if there is none |
| Layout.TileLayout.SplitFocusedWithRatio | src/layout.rs:131-138 | splits at the focus, focuses the new pane, keeps ids unique |
| Layout.TileLayout.InsertPaneNear | src/layout.rs:142-162 | inserts exactly when the target exists and the moved pane does not |
| Layout.TileLayout.CloseFocused | src/layout.rs:165-186 | closes unless it is the last pane, and moves the focus to the neighbour in order |
| Layout.TileLayout.SwapPanes | src/layout.rs:196-206 | swaps exactly when both panes exist and differ |
| Layout.TileLayout.Resize | src/layout.rs:215-239 | changes one ratio of the tree and no pane id |
| Layout.TileLayout.ResizePane | src/layout.rs:241-257 | resizes another pane, restores the focus and reports whether a ratio changed |
| Layout.SplitIds | src/layout.rs:520-547 | the new pane follows its target in the list, all others keep their place |
| Layout.RemoveIds | src/layout.rs:557-578 | closing removes one pane from the list and moves no other |
| LayoutTiling.ExactTiling | src/layout.rs:413-437 | every cell of the area is in exactly one pane, and no pane covers a cell outside |
| LayoutMoves.SplitSharesByRatio | src/layout.rs:621-640 | the first part of a split is the share nearest to its ratio, half cells going to it |
| LayoutTiling.SplitIsLocal | src/layout.rs:520-547 | a split replaces the target by the two halves of its rectangle and changes no other pane |
| LayoutTiling.CloseUndoesSplit | src/layout.rs:557-578 | closing the pane a split made restores the identical tree |
| LayoutMoves.CloseLeavesSibling | src/layout.rs:557-578 | closing puts the sibling, unchanged, in the place of the parent and changes nothing else in the tree |
| LayoutMoves.CloseGivesSpaceToSibling | src/layout.rs:557-578 | on screen the sibling spreads over the space of both and no other pane moves |
| LayoutTiling.SplitThenClose | src/layout.rs:126-186 | run on the layout, split and close restore the tree and focus the next pane in order, or the original one |
| LayoutTiling.SwapTwice | src/layout.rs:504-518 | swapping twice is the identity |
| LayoutTiling.SwapMovesNoRectangle | src/layout.rs:504-518 | a swap exchanges the occupants of two rectangles and moves none |
| LayoutTiling.NavigationFindsNeighbour | src/layout.rs:280-335 | navigation gives nothing exactly at the area's edge, otherwise a different pane on the shared edge with the longest common stretch |
| LayoutMoves.NavigationBreaksTies | src/layout.rs:305-335 | among equal stretches navigation takes the nearest centre, then the first pane |
| LayoutResize.LeafGrowsWithArea | src/layout.rs:621-640 | through every nested rounding a pane is at least as large when its container is |
| LayoutResize.InnerEdgeSplit | src/layout.rs:356-390 | the split found for an inner edge is the ancestor whose divider is that edge |
| LayoutResize.ResizeTowardsInnerEdgeNeverShrinks | src/layout.rs:215-239 | resizing by a non-negative amount towards an inner edge never shrinks the pane and leaves its other axis alone |
| LayoutMoves.ResizeMovesInnerEdge | src/layout.rs:215-239 | in all four directions the ratio of exactly that ancestor changes by the amount pressed, clamped at a tenth, the pane's edge goes with its divider, and moves out by a cell once that is worth one |
| LayoutMoves.ResizeMovesOppositeEdge | src/layout.rs:215-239 | at the edge of the area the opposite edge moves instead, in the direction pressed |
| LayoutMoves.SpanningPaneIsNotResized | src/layout.rs:228-238 | a pane that spans the area along the axis changes nothing |
| LayoutResize.ResizeTowardsOuterEdgeNeverGrows | src/layout.rs:215-239 | towards the area's edge it never grows the pane |
| LayoutResize.ResizeTowardsOuterEdgeCanShrink | src/layout.rs:215-239 | the right one of two equal columns of ten cells goes from five cells to four |
| AgentDetection.DetectionTask.ObserveProbeResult | src/pane.rs:909-935 | the miss counter keeps an identity through five unidentified probes and drops it at the sixth |
| AgentDetection.DetectionTask.Iterate | src/pane.rs:614-880 | one turn of the loop: reset, probe, screen step, publications |
| AgentAnnouncements.ProbeAnnouncesExactly | src/pane.rs:697-757 | the probe step announces an agent as idle exactly when it finds one that is not current, and adopts it |
| AgentAnnouncements.CurrentWasAnnounced | src/pane.rs:697-757 | in every run from no agent, whoever is current was announced when it became so |
| AgentAnnouncements.GraceIsQuiet | src/pane.rs:736-790 | within its grace window a new agent stays current and nothing more is published |
| AgentAnnouncements.ScreenIsReportedExactly | src/pane.rs:764-880 | outside it a turn without a probe reports the screen exactly when asked, not skipped and under no other authority |
| AgentAnnouncements.IdentityOutlastsFiveMisses | src/pane.rs:909-935 | an identity just confirmed outlasts exactly five probes that miss it |
| AgentAnnouncements.SuppressedAgentIsNotFound | src/pane.rs:689-694 | an agent being released is not found by its own probe |
| AgentAnnouncements.ResetStartsAfresh | src/pane.rs:621-641 | a reset starts the loop afresh before the turn's own probe counts |
| AgentAnnouncements.LossLeavesNothingBehind | src/pane.rs:697-757 | a turn that loses the agent leaves no grace window, pending exit or count behind |
| AgentDetection.LoopTracksHistory | src/pane.rs:697-717 | the flags and the miss counter agree with the history of probes and publications |
| AgentDetection.IdentityLostOnlyForCause | src/pane.rs:310-332 | an identity is lost only to a reset, six unidentified probes in a row, or after that agent's exit was announced |
| AgentDetection.ExitAnnouncedAtMostOnce | src/pane.rs:246-260 | between two identifications no exit is announced twice |
| AgentDetection.ShellBackMeansExitThenClear | src/pane.rs:2125-2290 | when the shell is back the exit is announced in that turn exactly unless the full task skips the screen; once announced the next unidentified probe clears the agent, and after a skip it is kept while the shell is in front, or until the sixth miss |
| AgentDetection.SkippedExitIsAnnouncedAtLast | src/pane.rs:2125-2290 | over any number of skipped turns with the shell in front nothing is announced and the agent is kept, and the first turn not skipped announces the exit |
| PluginPaths.PluginConfigPathComponent | src/plugin_paths.rs:55-83 | the byte loop and the fixes after it build the specified name |
| PluginPaths.FullComponentReadsBack | src/plugin_paths.rs:55-76 | an unshortened name reads back as its plugin id, whatever the case of its letters |
| PluginPaths.NameIsIdExactly | src/plugin_paths.rs:55-76 | an id is its own name exactly when it is plain, not empty, does not end in a dot and names no device |
| PluginPaths.ReservedExactly | src/api/schema/plugins.rs:189-216 | a text is reserved exactly if a device name, in any case, stands before its first dot |
| PluginPaths.ComponentsCollisionFree | src/plugin_paths.rs:55-83 | different ids with unshortened names have names that differ in more than case |
| PluginPaths.CutNameIsTaken | src/plugin_paths.rs:76-81 | some uncut id has the name of an id that is cut if and only if the cut splits no escape |
| PluginPaths.CutNameIsShared | src/plugin_paths.rs:76-81 | the id that has it, for every cut between escapes, reserved stems included |
| PluginPaths.CutNamesEqualExactly | src/plugin_paths.rs:76-81 | two names that are cut are equal exactly when they agree up to the cut and in their digests |
| PluginPaths.ComponentIsSafe | src/plugin_paths.rs:55-83 | every name is non-empty, at most 120 safe characters, ends in no dot and is no reserved device name |
| PluginCapabilities.ParsedIsCanonical | src/plugin_capabilities.rs:65-110 | parsing yields only canonical capabilities |
| PluginCapabilities.AllowlistRoundTrip | src/plugin_capabilities.rs:427-449 | splitting, trimming, sorting and removing duplicates undo joining a canonical list |
| PluginCapabilities.PrintedParsesBack | src/plugin_capabilities.rs:113-138 | the printed form of a canonical capability parses back to it |
| PluginCapabilities.NormalizeCapabilities | src/plugin_capabilities.rs:149-162 | the loop computes the normal form or the first error |
| PluginCapabilities.NormalFormIsFaithful | src/plugin_capabilities.rs:149-162 | a normal form is sorted, has one entry per input and holds exactly the printed inputs |
| PluginCapabilities.NormalizeIsIdempotent | src/plugin_capabilities.rs:149-162 | normalising a normal form changes nothing |
| PluginCapabilities.NormalFormIsCanonical | src/plugin_capabilities.rs:149-162 | lists that name the same capabilities have the same normal form |
| PluginCapabilities.AllowedExactly | src/plugin_capabilities.rs:361-388 | a plugin is allowed exactly when binding, lock and grant match, the lock is approved, the grant is not revoked and every requested capability is granted |
| PluginDecisions.DecisionExactly | src/plugin_capabilities.rs:335-388 | which of the five decisions is made, for every lock, grant and binding, and which capabilities are reported missing |
| PluginDecisions.ApprovedBindingIsAllowed | src/plugin_capabilities.rs:292-331 | lock and grant made for a binding allow it |
| PluginDecisions.DecidedBindingsAreWellFormed | src/plugin_capabilities.rs:390-418 | decisions are made exactly about bindings with well-formed id, version, digests and commit |
| PluginDecisions.NormalizeFailsExactly | src/plugin_capabilities.rs:149-162 | normalising fails exactly for more than 64 entries, an entry that does not parse or a repetition, and reports the first |
| PluginDecisions.UnscopedTextMeans | src/plugin_capabilities.rs:65-110 | what a text without a colon parses to, and which error it gives |
| PluginDecisions.ScopedTextMeans | src/plugin_capabilities.rs:65-110 | what a text with a colon parses to, and which error it gives |
| PluginDecisions.WrittenAllowlistParses | src/plugin_capabilities.rs:427-449 | spacing, order and repetition in a written allow list do not matter |
| PluginDecisions.CommandNamesExactly | src/plugin_capabilities.rs:430-436 | a command name is 1 to 128 letters, digits and four marks, and no directory |
| SortedText.LessIsLexicographic | src/plugin_capabilities.rs:149-162 | the order of normal forms and allow lists is the lexicographic one |

## Left out

- Hash functions behind image ids, placement ids, data fingerprints and short plugin digests are uninterpreted; two names cut to length may collide.
- The byte text of graphics commands (base64, control keys that are omitted when zero, cursor positioning) is a command datatype instead.
- Collecting a frame from terminal runtimes is an input; both full and filtered frames are covered.
- Ratios are exact fractions between 0.1 and 0.9 with halves rounded up; single-precision effects, and saved trees holding ratios outside that range, are not covered.
- Navigation and resizing are proved for layouts whose panes all have positive size; with empty panes only ids, tiling and tree results apply.
- Tree nodes are values, so the in-place update of boxed nodes in `swap_pane_ids` and `set_ratio_at` is a new tree assigned to the layout's field.
- When a probe is due, the grace window's length and the screen rules are inputs of the detection loop; its timing constants are not modelled.
- `reqwest::Url` is an arbitrary origin parser; SHA-256, file access and manifest reading are left out.
- Key and colour parsing, rendering, sockets, tasks, signals, persistence and the command line are left out.
- Pane borders, scrollbar lanes and focus flags of pane descriptions are left out; they do not affect geometry or navigation.
