/** Whole updates and runs: exactly when replaying all commands leaves the terminal with what the
    cache says it holds, whatever the hash functions do. */
module KittyRuns {
  import opened Machine
  import opened KittyClipping
  import opened KittyHost
  import opened KittyCache
  import opened KittyAgreement

  // ----- a lost image costs a command -----

  /** The cache names an image that the terminal does not hold. */
  ghost predicate Lost(host: Host, c: Cache) {
    host.transfer.None? && exists id :: id in c.images && id !in host.images
  }

  /** Some command was wasted, or an image is lost. */
  ghost predicate Spoiled(host: Host, commands: seq<Command>, c: Cache) {
    !AllEffective(host, commands) || Lost(Run(host, commands), c)
  }

  lemma SpoiledIsOutOfStep(h: Hashes, host: Host, commands: seq<Command>, c: Cache)
    requires Spoiled(host, commands, c)
    ensures !(AllEffective(host, commands) && Agrees(h, Run(host, commands), c))
  {}

  lemma SpoiledByMore(host: Host, commands: seq<Command>, c: Cache, more: seq<Command>, after: Cache)
    requires Spoiled(host, commands, c)
    requires Lost(Run(host, commands), c) ==> Spoiled(Run(host, commands), more, after)
    ensures Spoiled(host, commands + more, after)
  {
    RunAppend(host, commands, more);
  }

  lemma EraseStaysLost(host: Host, c: Cache, id: nat)
    requires Lost(host, c)
    ensures Spoiled(host, [DeleteImage(id)],
                    c.(images := c.images - {id}, placements := WithoutImage(c.placements, id)))
  {
    RunOne(host, DeleteImage(id));
    var lost :| lost in c.images && lost !in host.images;
    if lost != id {
      assert lost in c.images - {id};
    }
  }

  lemma {:induction false} ContinuationAddsImage(host: Host, data: seq<Byte>)
    requires host.transfer.Some? && data != []
    ensures var after := Run(host, ContinueCommands(data));
      after.transfer.None? && after.images.Keys == host.images.Keys + {host.transfer.value.id}
    decreases |data|
  {
    var n := Min(|data|, CHUNK_BYTES);
    var next := Apply(host, Continue(data[..n], n < |data|));
    if n < |data| {
      ContinuationAddsImage(next, data[n..]);
    } else {
      assert data[n..] == [] && Run(next, []) == next;
    }
  }

  lemma UploadAddsImage(host: Host, id: nat, formatCode: U32, width: U32, height: U32, data: seq<Byte>)
    requires host.transfer.None? && data != []
    ensures var after := Run(host, UploadCommands(id, formatCode, width, height, data));
      after.transfer.None? && after.images.Keys == host.images.Keys + {id}
  {
    var n := Min(|data|, CHUNK_BYTES);
    var next := Apply(host, Transmit(id, formatCode, width, height, data[..n], n < |data|));
    if n < |data| {
      ContinuationAddsImage(next, data[n..]);
    } else {
      assert data[n..] == [] && Run(next, []) == next;
    }
  }

  lemma UploadStaysLost(host: Host, c: Cache, item: Item, id: nat)
    requires Lost(host, c) && id !in c.images && item.image.data != []
    ensures Spoiled(host, UploadCommands(id, FormatCode(item.image.format), item.image.width, item.image.height,
                                         item.image.data),
                    c.(images := c.images[id := Signature(item)]))
  {
    UploadAddsImage(host, id, FormatCode(item.image.format), item.image.width, item.image.height, item.image.data);
    var lost :| lost in c.images && lost !in host.images;
    assert lost in c.images[id := Signature(item)];
  }

  lemma HoldingStaysSpoiled(h: Hashes, host: Host, d: Drawing, item: Item)
    requires Spoiled(host, d.commands, d.cache)
    ensures var held := HoldImage(h, d, item).0; Spoiled(host, held.commands, held.cache)
  {
    var id := HostId(h, item);
    if Cached(h, d.cache, item) {
      return;
    }
    var e, without := d, d.cache;
    if id in d.cache.images {
      e := Erase(d, id);
      without := e.cache.(images := e.cache.images - {id});
      ErasureStaysSpoiled(host, d, id);
    }
    if item.image.data == [] {
      SpoiledWithMoreImages(host, e.commands, without, e.cache);
    } else {
      var upload := UploadCommands(id, FormatCode(item.image.format), item.image.width, item.image.height,
                                   item.image.data);
      var after := without.(images := without.images[id := Signature(item)]);
      if Lost(Run(host, e.commands), without) {
        UploadStaysLost(Run(host, e.commands), without, item, id);
      }
      SpoiledByMore(host, e.commands, without, upload, after);
      assert without.images[id := Signature(item)] == e.cache.images[id := Signature(item)];
    }
  }

  lemma SpoiledWithMoreImages(host: Host, commands: seq<Command>, c: Cache, more: Cache)
    requires Spoiled(host, commands, c) && c.images.Keys <= more.images.Keys
    ensures Spoiled(host, commands, more)
  {
    if Lost(Run(host, commands), c) {
      var lost :| lost in c.images && lost !in Run(host, commands).images;
      assert lost in more.images;
    }
  }

  lemma ErasureStaysSpoiled(host: Host, d: Drawing, id: nat)
    requires Spoiled(host, d.commands, d.cache)
    ensures var e := Erase(d, id); Spoiled(host, e.commands, e.cache.(images := e.cache.images - {id}))
  {
    if Lost(Run(host, d.commands), d.cache) {
      EraseStaysLost(Run(host, d.commands), d.cache, id);
    }
    var e := Erase(d, id);
    SpoiledByMore(host, d.commands, d.cache, [DeleteImage(id)], e.cache.(images := e.cache.images - {id}));
  }

  lemma ReleaseStaysSpoiled(host: Host, d: Drawing, source: SourceKey, id: nat)
    requires Spoiled(host, d.commands, d.cache)
    ensures var r := Release(d, source, id); Spoiled(host, r.commands, r.cache)
  {
    var pointed := d.(cache := d.cache.(sources := d.cache.sources[source := id]));
    SpoiledWithMoreImages(host, d.commands, d.cache, pointed.cache);
    if source in d.cache.sources {
      ErasureStaysSpoiled(host, pointed, d.cache.sources[source]);
    }
  }

  lemma ShowStaysSpoiled(h: Hashes, host: Host, d: Drawing, item: Item, viewChanged: bool)
    requires Spoiled(host, d.commands, d.cache) && Visible(item)
    ensures var r := Show(h, d, item, viewChanged); Spoiled(host, r.commands, r.cache)
  {
    var key := Key(h, item);
    var display := Display(key.0, key.1, Geometry(item).value, item.image.z);
    var now := Run(host, d.commands);
    var shown := d.cache.(placements := d.cache.placements[key := Placed(item)]);
    RunOne(now, display);
    if Lost(now, d.cache) {
      var lost :| lost in d.cache.images && lost !in now.images;
      assert lost in shown.images && lost !in Apply(now, display).images;
    }
    SpoiledByMore(host, d.commands, d.cache, [display], shown);
  }

  lemma DrawStaysSpoiled(h: Hashes, host: Host, d: Drawing, item: Item, viewChanged: bool)
    requires Spoiled(host, d.commands, d.cache)
    ensures var r := Draw(h, d, item, viewChanged); Spoiled(host, r.commands, r.cache)
  {
    if Visible(item) {
      var started := d.(current := d.current + {Key(h, item)});
      HoldingStaysSpoiled(h, host, started, item);
      var (held, ok) := HoldImage(h, started, item);
      if ok {
        ReleaseStaysSpoiled(host, held, item.source, HostId(h, item));
        ShowStaysSpoiled(h, host, Release(held, item.source, HostId(h, item)), item, viewChanged);
      }
    }
  }

  /** A starved item's image stays in the cache after the terminal was told to delete it. */
  lemma StarvedSpoils(h: Hashes, host: Host, d: Drawing, item: Item, viewChanged: bool)
    requires InStep(h, host, d) && Starved(h, d.cache, item)
    ensures var r := Draw(h, d, item, viewChanged); Spoiled(host, r.commands, r.cache)
  {
    var id := HostId(h, item);
    var started := d.(current := d.current + {Key(h, item)});
    assert InStep(h, host, started);
    EraseLosesImage(h, host, started, id);
    var e := Erase(started, id);
    assert Draw(h, d, item, viewChanged) == e;
    assert id in e.cache.images && id !in Run(host, e.commands).images;
  }

  // ----- whole frames -----

  ghost predicate HonestFrame(h: Hashes, frame: seq<Item>) {
    forall item :: item in frame && Visible(item) ==> Honest(h, item)
  }

  /** Every item finds its id free, or its own image there, or brings data, when its turn comes. */
  predicate Fed(h: Hashes, d: Drawing, frame: seq<Item>, viewChanged: bool) {
    frame == []
    || (var rest := frame[..|frame| - 1];
        Fed(h, d, rest, viewChanged)
        && !Starved(h, DrawAll(h, d, rest, viewChanged).cache, frame[|frame| - 1]))
  }

  /** Drawing a frame ends in step if and only if no item was starved at its turn; otherwise what
      went wrong is still wrong at the end. */
  lemma {:induction false} FrameKeepsStepExactly(h: Hashes, host: Host, d: Drawing, frame: seq<Item>,
                                                 viewChanged: bool)
    requires InStep(h, host, d) && HonestFrame(h, frame)
    ensures var r := DrawAll(h, d, frame, viewChanged);
      if Fed(h, d, frame, viewChanged) then InStep(h, host, r) else Spoiled(host, r.commands, r.cache)
  {
    if frame != [] {
      var rest, item := frame[..|frame| - 1], frame[|frame| - 1];
      FrameKeepsStepExactly(h, host, d, rest, viewChanged);
      assert item in frame;
      var before := DrawAll(h, d, rest, viewChanged);
      if !Fed(h, d, rest, viewChanged) {
        DrawStaysSpoiled(h, host, before, item, viewChanged);
      } else if Starved(h, before.cache, item) {
        StarvedSpoils(h, host, before, item, viewChanged);
      } else {
        DrawKeepsStepUnlessStarved(h, host, before, item, viewChanged);
      }
    }
  }

  /** The same but for the commands sent so far. */
  predicate Alike(x: Drawing, y: Drawing) {
    x.cache == y.cache && x.current == y.current
  }

  lemma HoldingAlike(h: Hashes, x: Drawing, y: Drawing, item: Item)
    requires Alike(x, y)
    ensures Alike(HoldImage(h, x, item).0, HoldImage(h, y, item).0)
    ensures HoldImage(h, x, item).1 == HoldImage(h, y, item).1
  {}

  lemma ReleaseAlike(x: Drawing, y: Drawing, source: SourceKey, id: nat)
    requires Alike(x, y)
    ensures Alike(Release(x, source, id), Release(y, source, id))
  {}

  lemma DrawAlike(h: Hashes, x: Drawing, y: Drawing, item: Item, viewChanged: bool)
    requires Alike(x, y)
    ensures Alike(Draw(h, x, item, viewChanged), Draw(h, y, item, viewChanged))
  {
    if Visible(item) {
      var x', y' := x.(current := x.current + {Key(h, item)}), y.(current := y.current + {Key(h, item)});
      HoldingAlike(h, x', y', item);
      ReleaseAlike(HoldImage(h, x', item).0, HoldImage(h, y', item).0, item.source, HostId(h, item));
    }
  }

  lemma {:induction false} DrawAllAlike(h: Hashes, x: Drawing, y: Drawing, frame: seq<Item>, viewChanged: bool)
    requires Alike(x, y)
    ensures Alike(DrawAll(h, x, frame, viewChanged), DrawAll(h, y, frame, viewChanged))
  {
    if frame != [] {
      var rest := frame[..|frame| - 1];
      DrawAllAlike(h, x, y, rest, viewChanged);
      DrawAlike(h, DrawAll(h, x, rest, viewChanged), DrawAll(h, y, rest, viewChanged), frame[|frame| - 1], viewChanged);
    }
  }

  /** Whether an update starves none of its items, from the cache before it and its frame. */
  predicate FeedsAll(h: Hashes, before: Cache, frame: seq<Item>, viewChanged: bool) {
    Fed(h, Drawing(Prune(before, frame), {}, []), frame, viewChanged)
  }

  lemma {:induction false} FedAlike(h: Hashes, x: Drawing, y: Drawing, frame: seq<Item>, viewChanged: bool)
    requires Alike(x, y)
    ensures Fed(h, x, frame, viewChanged) <==> Fed(h, y, frame, viewChanged)
  {
    if frame != [] {
      FedAlike(h, x, y, frame[..|frame| - 1], viewChanged);
      DrawAllAlike(h, x, y, frame[..|frame| - 1], viewChanged);
    }
  }

  lemma FedWhateverWasSent(h: Hashes, before: Cache, frame: seq<Item>, viewChanged: bool, commands: seq<Command>)
    ensures Fed(h, Drawing(Prune(before, frame), {}, commands), frame, viewChanged)
       <==> FeedsAll(h, before, frame, viewChanged)
  {
    FedAlike(h, Drawing(Prune(before, frame), {}, commands), Drawing(Prune(before, frame), {}, []), frame, viewChanged);
  }

  // ----- updates and clears -----

  lemma {:induction false} PlacementDeletesKeepImages(host: Host, order: seq<PlacementKey>)
    ensures var after := Run(host, PlacementDeletes(order));
      after.images == host.images && after.transfer == host.transfer
  {
    if order != [] {
      var rest, k := order[..|order| - 1], order[|order| - 1];
      PlacementDeletesKeepImages(host, rest);
      SendOne(host, PlacementDeletes(rest), DeletePlacement(k.0, k.1));
    }
  }

  lemma {:induction false} ImageDeletesNeedImages(host: Host, order: seq<nat>)
    ensures AllEffective(host, ImageDeletes(order)) ==> forall id :: id in order ==> id in host.images
    ensures var after := Run(host, ImageDeletes(order));
      after.images.Keys <= host.images.Keys && after.transfer == host.transfer
  {
    if order != [] {
      var rest, id := order[..|order| - 1], order[|order| - 1];
      ImageDeletesNeedImages(host, rest);
      SendOne(host, ImageDeletes(rest), DeleteImage(id));
      assert forall x :: x in order <==> x in rest || x == id;
    }
  }

  lemma DropStaleStaysSpoiled(host: Host, d: Drawing, stale: seq<PlacementKey>)
    requires Spoiled(host, d.commands, d.cache)
    ensures Spoiled(host, d.commands + PlacementDeletes(stale),
                    d.cache.(placements := d.cache.placements - Stale(d)))
  {
    var now, after := Run(host, d.commands), d.cache.(placements := d.cache.placements - Stale(d));
    PlacementDeletesKeepImages(now, stale);
    if Lost(now, d.cache) {
      var lost :| lost in d.cache.images && lost !in now.images;
      assert lost in after.images && lost !in Run(now, PlacementDeletes(stale)).images;
    }
    SpoiledByMore(host, d.commands, d.cache, PlacementDeletes(stale), after);
  }

  lemma DeletesStayLost(host: Host, c: Cache, dead: seq<nat>, after: Cache)
    requires Lost(host, c) && forall id :: id in c.images ==> id in dead || id in after.images
    ensures Spoiled(host, ImageDeletes(dead), after)
  {
    ImageDeletesNeedImages(host, dead);
    var lost :| lost in c.images && lost !in host.images;
    if lost !in dead {
      assert lost in after.images && lost !in Run(host, ImageDeletes(dead)).images;
    }
  }

  lemma {:induction false} DrawAllStaysSpoiled(h: Hashes, host: Host, d: Drawing, frame: seq<Item>,
                                               viewChanged: bool)
    requires Spoiled(host, d.commands, d.cache)
    ensures var r := DrawAll(h, d, frame, viewChanged); Spoiled(host, r.commands, r.cache)
  {
    if frame != [] {
      var rest := frame[..|frame| - 1];
      DrawAllStaysSpoiled(h, host, d, rest, viewChanged);
      DrawStaysSpoiled(h, host, DrawAll(h, d, rest, viewChanged), frame[|frame| - 1], viewChanged);
    }
  }

  /** An update keeps cache and terminal in agreement, with every command effective, if and only if
      it starves no item; otherwise a command was wasted or an image is lost. */
  lemma UpdateAgreesExactly(h: Hashes, host: Host, before: Cache, frame: seq<Item>, viewChanged: bool,
                            after: Cache, commands: seq<Command>)
    requires Agrees(h, host, before) && Referential(before) && HonestFrame(h, frame)
    requires IsUpdate(h, before, frame, viewChanged, after, commands)
    ensures if FeedsAll(h, before, frame, viewChanged)
            then AllEffective(host, commands) && Agrees(h, Run(host, commands), after)
            else Spoiled(host, commands, after)
  {
    var dead, stale :| UpdateInOrder(h, before, frame, viewChanged, after, commands, dead, stale);
    var start, d := Drawing(Prune(before, frame), {}, ImageDeletes(dead)), Drawn(h, before, frame, viewChanged, dead);
    PruneKeepsStep(h, host, before, frame, dead);
    FrameKeepsStepExactly(h, host, start, frame, viewChanged);
    FedWhateverWasSent(h, before, frame, viewChanged, ImageDeletes(dead));
    if FeedsAll(h, before, frame, viewChanged) {
      DropStaleKeepsStep(h, host, d, stale);
    } else {
      DropStaleStaysSpoiled(host, d, stale);
    }
  }

  /** An update that starts with a lost image wastes a command or ends with one. */
  lemma UpdateStaysSpoiled(h: Hashes, host: Host, before: Cache, frame: seq<Item>, viewChanged: bool,
                           after: Cache, commands: seq<Command>)
    requires Lost(host, before) && IsUpdate(h, before, frame, viewChanged, after, commands)
    ensures Spoiled(host, commands, after)
  {
    var dead, stale :| UpdateInOrder(h, before, frame, viewChanged, after, commands, dead, stale);
    var start, d := Drawing(Prune(before, frame), {}, ImageDeletes(dead)), Drawn(h, before, frame, viewChanged, dead);
    DeletesStayLost(host, before, dead, start.cache);
    DrawAllStaysSpoiled(h, host, start, frame, viewChanged);
    DropStaleStaysSpoiled(host, d, stale);
  }

  lemma ClearStaysSpoiled(host: Host, before: Cache, after: Cache, commands: seq<Command>)
    requires Lost(host, before) && IsClear(before, after, commands)
    ensures !AllEffective(host, commands)
  {
    var order :| Enumerates(order, before.images.Keys) && commands == ImageDeletes(order);
    ImageDeletesNeedImages(host, order);
  }

  // ----- runs -----

  datatype Event = Paint(frame: seq<Item>, viewChanged: bool) | Clear

  datatype Step = Step(event: Event, after: Cache, commands: seq<Command>)

  ghost predicate IsStep(h: Hashes, before: Cache, step: Step) {
    match step.event
    case Paint(frame, viewChanged) => IsUpdate(h, before, frame, viewChanged, step.after, step.commands)
    case Clear => IsClear(before, step.after, step.commands)
  }

  ghost predicate IsRun(h: Hashes, before: Cache, steps: seq<Step>)
    decreases steps
  {
    steps == [] || (IsStep(h, before, steps[0]) && IsRun(h, steps[0].after, steps[1..]))
  }

  function FinalCache(before: Cache, steps: seq<Step>): Cache {
    if steps == [] then before else steps[|steps| - 1].after
  }

  function AllCommands(steps: seq<Step>): seq<Command> {
    if steps == [] then [] else steps[0].commands + AllCommands(steps[1..])
  }

  lemma {:induction false} RunKeepsReferences(h: Hashes, before: Cache, steps: seq<Step>)
    requires Referential(before) && IsRun(h, before, steps)
    ensures Referential(FinalCache(before, steps))
    decreases steps
  {
    if steps != [] {
      if steps[0].event.Paint? {
        UpdateKeepsReferences(h, before, steps[0].event.frame, steps[0].event.viewChanged,
                              steps[0].after, steps[0].commands);
      }
      RunKeepsReferences(h, steps[0].after, steps[1..]);
    }
  }

  ghost predicate HonestRun(h: Hashes, steps: seq<Step>) {
    forall step :: step in steps && step.event.Paint? ==> HonestFrame(h, step.event.frame)
  }

  predicate StepFeeds(h: Hashes, before: Cache, step: Step) {
    step.event.Paint? ==> FeedsAll(h, before, step.event.frame, step.event.viewChanged)
  }

  /** No update of the run starves an item. */
  predicate FedRun(h: Hashes, before: Cache, steps: seq<Step>)
    decreases steps
  {
    steps == [] || (StepFeeds(h, before, steps[0]) && FedRun(h, steps[0].after, steps[1..]))
  }

  lemma StepAgreesExactly(h: Hashes, host: Host, before: Cache, step: Step)
    requires Agrees(h, host, before) && Referential(before) && IsStep(h, before, step)
    requires step.event.Paint? ==> HonestFrame(h, step.event.frame)
    ensures if StepFeeds(h, before, step)
            then AllEffective(host, step.commands) && Agrees(h, Run(host, step.commands), step.after)
            else Spoiled(host, step.commands, step.after)
    ensures Referential(step.after)
  {
    match step.event {
      case Paint(frame, viewChanged) =>
        UpdateKeepsReferences(h, before, frame, viewChanged, step.after, step.commands);
        UpdateAgreesExactly(h, host, before, frame, viewChanged, step.after, step.commands);
      case Clear =>
        ClearKeepsAgreement(h, host, before, step.after, step.commands);
    }
  }

  lemma StepStaysSpoiled(h: Hashes, host: Host, before: Cache, step: Step)
    requires Lost(host, before) && IsStep(h, before, step)
    ensures Spoiled(host, step.commands, step.after)
  {
    match step.event {
      case Paint(frame, viewChanged) =>
        UpdateStaysSpoiled(h, host, before, frame, viewChanged, step.after, step.commands);
      case Clear =>
        ClearStaysSpoiled(host, before, step.after, step.commands);
    }
  }

  lemma {:induction false} RunStaysSpoiled(h: Hashes, host: Host, before: Cache, steps: seq<Step>)
    requires Lost(host, before) && IsRun(h, before, steps)
    ensures Spoiled(host, AllCommands(steps), FinalCache(before, steps))
    decreases steps, 0
  {
    if steps != [] {
      StepStaysSpoiled(h, host, before, steps[0]);
      RestStaysSpoiled(h, host, steps[0].commands, steps[0].after, steps[1..]);
    }
  }

  lemma RestStaysSpoiled(h: Hashes, host: Host, commands: seq<Command>, c: Cache, rest: seq<Step>)
    requires Spoiled(host, commands, c) && IsRun(h, c, rest)
    ensures Spoiled(host, commands + AllCommands(rest), FinalCache(c, rest))
    decreases rest, 1
  {
    if Lost(Run(host, commands), c) {
      RunStaysSpoiled(h, Run(host, commands), c, rest);
    }
    SpoiledByMore(host, commands, c, AllCommands(rest), FinalCache(c, rest));
  }

  /** Agreement with no command wasted, or spoiled for good. */
  ghost predicate AgreesOrSpoiled(h: Hashes, host: Host, commands: seq<Command>, c: Cache, fed: bool) {
    if fed then AllEffective(host, commands) && Agrees(h, Run(host, commands), c)
    else Spoiled(host, commands, c)
  }

  lemma {:induction false} RunAgreesUnlessStarved(h: Hashes, host: Host, before: Cache, steps: seq<Step>)
    requires Agrees(h, host, before) && Referential(before)
    requires IsRun(h, before, steps) && HonestRun(h, steps)
    ensures AgreesOrSpoiled(h, host, AllCommands(steps), FinalCache(before, steps), FedRun(h, before, steps))
    decreases steps
  {
    if steps != [] {
      var step, rest := steps[0], steps[1..];
      StepAgreesExactly(h, host, before, step);
      assert HonestRun(h, rest) by {
        assert forall s :: s in rest ==> s in steps;
      }
      if StepFeeds(h, before, step) {
        RunAgreesUnlessStarved(h, Run(host, step.commands), step.after, rest);
        AgreesAfterMore(h, host, step.commands, AllCommands(rest), FinalCache(step.after, rest),
                        FedRun(h, step.after, rest));
      } else {
        RestStaysSpoiled(h, host, step.commands, step.after, rest);
      }
    }
  }

  lemma AgreesAfterMore(h: Hashes, host: Host, commands: seq<Command>, more: seq<Command>, c: Cache, fed: bool)
    requires AllEffective(host, commands) && AgreesOrSpoiled(h, Run(host, commands), more, c, fed)
    ensures AgreesOrSpoiled(h, host, commands + more, c, fed)
  {
    RunAppend(host, commands, more);
  }

  /** From an empty cache and an empty terminal, whatever is painted and cleared and however the
      hashes collide: the terminal ends up holding exactly what the cache says, with no command
      wasted on the way, if and only if no item of any frame was starved. */
  lemma EveryRunUnwastedExactly(h: Hashes, steps: seq<Step>)
    requires IsRun(h, EMPTY_CACHE, steps) && HonestRun(h, steps)
    ensures AllEffective(EMPTY_HOST, AllCommands(steps))
            && Agrees(h, Run(EMPTY_HOST, AllCommands(steps)), FinalCache(EMPTY_CACHE, steps))
       <==> FedRun(h, EMPTY_CACHE, steps)
  {
    RunAgreesUnlessStarved(h, EMPTY_HOST, EMPTY_CACHE, steps);
    if !FedRun(h, EMPTY_CACHE, steps) {
      SpoiledIsOutOfStep(h, EMPTY_HOST, AllCommands(steps), FinalCache(EMPTY_CACHE, steps));
    }
  }

  // ----- who is never starved -----

  /** Frames that bring all their data starve no item, however the hashes collide. */
  lemma DataFeedsAll(h: Hashes, before: Cache, frame: seq<Item>, viewChanged: bool)
    requires forall item :: item in frame && Visible(item) ==> item.image.data != []
    ensures FeedsAll(h, before, frame, viewChanged)
  {
    DataFeeds(h, Drawing(Prune(before, frame), {}, []), frame, viewChanged);
  }

  lemma {:induction false} DataFeeds(h: Hashes, d: Drawing, frame: seq<Item>, viewChanged: bool)
    requires forall item :: item in frame && Visible(item) ==> item.image.data != []
    ensures Fed(h, d, frame, viewChanged)
  {
    if frame != [] {
      DataFeeds(h, d, frame[..|frame| - 1], viewChanged);
      assert frame[|frame| - 1] in frame;
    }
  }

  lemma {:induction false} RunsWithDataAreFed(h: Hashes, before: Cache, steps: seq<Step>)
    requires forall step :: step in steps && step.event.Paint? ==>
               forall item :: item in step.event.frame && Visible(item) ==> item.image.data != []
    ensures FedRun(h, before, steps)
    decreases steps
  {
    if steps != [] {
      assert steps[0] in steps;
      if steps[0].event.Paint? {
        DataFeedsAll(h, before, steps[0].event.frame, steps[0].event.viewChanged);
      }
      assert forall s :: s in steps[1..] ==> s in steps;
      RunsWithDataAreFed(h, steps[0].after, steps[1..]);
    }
  }

  /** So runs that bring all their data agree under any collisions. */
  lemma EveryRunWithDataAgrees(h: Hashes, steps: seq<Step>)
    requires IsRun(h, EMPTY_CACHE, steps) && HonestRun(h, steps)
    requires forall step :: step in steps && step.event.Paint? ==>
               forall item :: item in step.event.frame && Visible(item) ==> item.image.data != []
    ensures AllEffective(EMPTY_HOST, AllCommands(steps))
    ensures Agrees(h, Run(EMPTY_HOST, AllCommands(steps)), FinalCache(EMPTY_CACHE, steps))
  {
    RunsWithDataAreFed(h, EMPTY_CACHE, steps);
    EveryRunUnwastedExactly(h, steps);
  }

  /** `naming` gives each host image id the one signature it stands for in the visible items. */
  ghost predicate Distinguished(h: Hashes, naming: nat -> ImageSignature, frame: seq<Item>) {
    forall item :: item in frame && Visible(item) ==> Honest(h, item) && naming(HostId(h, item)) == Signature(item)
  }

  ghost predicate Labelled(naming: nat -> ImageSignature, c: Cache) {
    forall id :: id in c.images ==> c.images[id] == naming(id)
  }

  lemma DrawKeepsLabels(h: Hashes, naming: nat -> ImageSignature, d: Drawing, item: Item, viewChanged: bool)
    requires Labelled(naming, d.cache)
    requires Visible(item) ==> naming(HostId(h, item)) == Signature(item)
    ensures Labelled(naming, Draw(h, d, item, viewChanged).cache) && !Starved(h, d.cache, item)
  {}

  /** Nor do frames whose ids do not collide. */
  lemma {:induction false} DistinguishedAreFed(h: Hashes, naming: nat -> ImageSignature, d: Drawing,
                                               frame: seq<Item>, viewChanged: bool)
    requires Labelled(naming, d.cache) && Distinguished(h, naming, frame)
    ensures Fed(h, d, frame, viewChanged)
    ensures Labelled(naming, DrawAll(h, d, frame, viewChanged).cache)
  {
    if frame != [] {
      var rest, item := frame[..|frame| - 1], frame[|frame| - 1];
      DistinguishedAreFed(h, naming, d, rest, viewChanged);
      assert item in frame;
      DrawKeepsLabels(h, naming, DrawAll(h, d, rest, viewChanged), item, viewChanged);
    }
  }

  /** One update keeps cache and terminal in agreement when ids do not collide, and every command
      it sends is effective. */
  lemma UpdateKeepsAgreement(h: Hashes, naming: nat -> ImageSignature, host: Host, before: Cache,
                             frame: seq<Item>, viewChanged: bool, after: Cache, commands: seq<Command>)
    requires Agrees(h, host, before) && Referential(before) && Labelled(naming, before)
    requires Distinguished(h, naming, frame)
    requires IsUpdate(h, before, frame, viewChanged, after, commands)
    ensures AllEffective(host, commands) && Agrees(h, Run(host, commands), after)
    ensures Referential(after) && Labelled(naming, after)
  {
    var dead, stale :| UpdateInOrder(h, before, frame, viewChanged, after, commands, dead, stale);
    UpdateKeepsReferences(h, before, frame, viewChanged, after, commands);
    UpdateAgreesExactly(h, host, before, frame, viewChanged, after, commands);
    DistinguishedAreFed(h, naming, Drawing(Prune(before, frame), {}, []), frame, viewChanged);
    DistinguishedAreFed(h, naming, Drawing(Prune(before, frame), {}, ImageDeletes(dead)), frame, viewChanged);
  }

  ghost predicate DistinguishedRun(h: Hashes, naming: nat -> ImageSignature, steps: seq<Step>) {
    forall step :: step in steps && step.event.Paint? ==> Distinguished(h, naming, step.event.frame)
  }

  lemma StepKeepsAgreement(h: Hashes, naming: nat -> ImageSignature, host: Host, before: Cache, step: Step)
    requires Agrees(h, host, before) && Referential(before) && Labelled(naming, before)
    requires IsStep(h, before, step)
    requires step.event.Paint? ==> Distinguished(h, naming, step.event.frame)
    ensures AllEffective(host, step.commands) && Agrees(h, Run(host, step.commands), step.after)
    ensures Referential(step.after) && Labelled(naming, step.after)
  {
    match step.event {
      case Paint(frame, viewChanged) =>
        UpdateKeepsAgreement(h, naming, host, before, frame, viewChanged, step.after, step.commands);
      case Clear =>
        ClearKeepsAgreement(h, host, before, step.after, step.commands);
    }
  }

  lemma {:induction false} RunKeepsAgreement(h: Hashes, naming: nat -> ImageSignature, host: Host,
                                             before: Cache, steps: seq<Step>)
    requires Agrees(h, host, before) && Referential(before) && Labelled(naming, before)
    requires IsRun(h, before, steps) && DistinguishedRun(h, naming, steps)
    ensures AllEffective(host, AllCommands(steps))
    ensures Agrees(h, Run(host, AllCommands(steps)), FinalCache(before, steps))
    ensures Referential(FinalCache(before, steps)) && Labelled(naming, FinalCache(before, steps))
    decreases steps
  {
    if steps != [] {
      var step := steps[0];
      StepKeepsAgreement(h, naming, host, before, step);
      assert DistinguishedRun(h, naming, steps[1..]) by {
        assert forall s :: s in steps[1..] ==> s in steps;
      }
      RunKeepsAgreement(h, naming, Run(host, step.commands), step.after, steps[1..]);
      RunAppend(host, step.commands, AllCommands(steps[1..]));
    }
  }

  /** From an empty cache and an empty terminal, whatever is painted and cleared, as long as
      ids do not collide: the terminal ends up holding exactly what the cache says, and no command
      on the way was wasted. */
  lemma EveryRunAgrees(h: Hashes, naming: nat -> ImageSignature, steps: seq<Step>)
    requires IsRun(h, EMPTY_CACHE, steps) && DistinguishedRun(h, naming, steps)
    ensures AllEffective(EMPTY_HOST, AllCommands(steps))
    ensures Agrees(h, Run(EMPTY_HOST, AllCommands(steps)), FinalCache(EMPTY_CACHE, steps))
  {
    RunKeepsAgreement(h, naming, EMPTY_HOST, EMPTY_CACHE, steps);
  }
}
