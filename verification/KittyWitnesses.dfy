/** Runs from an empty cache and an empty terminal in which a frame is not drawn as it should be:
    one through the data filter alone, and one through image ids that collide. */
module KittyWitnesses {
  import opened Machine
  import opened KittyClipping
  import opened KittyHost
  import opened KittyCache
  import opened KittyAgreement
  import opened KittyRuns
  import opened KittyLosses
  import opened KittyCompleteness
  import opened KittyScreen

  // ----- every update has an outcome -----

  lemma {:induction false} SomeOrder<T(!new)>(s: set<T>) returns (order: seq<T>)
    ensures Enumerates(order, s)
  {
    order := [];
    if s != {} {
      var x :| x in s;
      order := SomeOrder(s - {x});
      EnumerationGrows(order, s - {x}, x);
      assert s - {x} + {x} == s;
      order := order + [x];
    }
  }

  lemma SomeUpdate(h: Hashes, before: Cache, frame: seq<Item>, viewChanged: bool) returns (step: Step)
    ensures step.event == Paint(frame, viewChanged)
    ensures IsUpdate(h, before, frame, viewChanged, step.after, step.commands)
  {
    var dead := SomeOrder(DeadImages(before, frame));
    var d := Drawn(h, before, frame, viewChanged, dead);
    var stale := SomeOrder(Stale(d));
    var after := d.cache.(placements := d.cache.placements - Stale(d));
    var commands := d.commands + PlacementDeletes(stale);
    assert UpdateInOrder(h, before, frame, viewChanged, after, commands, dead, stale);
    step := Step(Paint(frame, viewChanged), after, commands);
  }

  // ----- a first image -----

  function SampleItem(imageId: nat, fingerprint: nat, data: seq<Byte>): Item {
    Item(0, RectData(0, 0, 4, 4), CellSize(1, 1), Terminal(0, imageId),
         ImagePlacement(imageId, 1, 0, 0, 0, 1, 1, Rgba, 1, fingerprint, data,
                        RenderInfo(1, 1, 1, 1, 0, 0, 0, 0, 0, 0)),
         0)
  }

  function SampleFingerprint(data: seq<Byte>): nat {
    if data == [5] then 5 else 6
  }

  const SAMPLE_HASHES := Hashes((p: nat, s: ImageSignature) => s.fingerprint,
                                (p: PlacementIdentity) => p.imageId, SampleFingerprint)

  /** All images share one host id. */
  const COLLIDING_HASHES := Hashes((p: nat, s: ImageSignature) => 0,
                                   (p: PlacementIdentity) => p.imageId, SampleFingerprint)

  function SampleNaming(fingerprint: nat): ImageSignature {
    ImageSignature(1, 1, 32, 1, fingerprint)
  }

  lemma SampleItemIsVisible(imageId: nat, fingerprint: nat, data: seq<Byte>)
    ensures var item := SampleItem(imageId, fingerprint, data);
      && Visible(item) && Signature(item) == SampleNaming(fingerprint)
      && HostId(SAMPLE_HASHES, item) == fingerprint && HostId(COLLIDING_HASHES, item) == 0
      && Key(SAMPLE_HASHES, item) == (fingerprint, imageId) && Key(COLLIDING_HASHES, item) == (0, imageId)
  {}

  lemma FirstDrawing(h: Hashes, item: Item, start: seq<Command>)
    requires Visible(item) && Honest(h, item) && item.image.data != []
    ensures var c := DrawAll(h, Drawing(EMPTY_CACHE, {}, start), [item], false).cache;
      && c.images == map[HostId(h, item) := Signature(item)]
      && c.sources == map[item.source := HostId(h, item)]
    ensures var d := DrawAll(h, Drawing(EMPTY_CACHE, {}, start), [item], false);
      Key(h, item) in d.current && Key(h, item) in d.cache.placements
  {
    var naming := (id: nat) => Signature(item);
    DrawAllInFull(h, naming, EMPTY_CACHE, start, [item], false);
    FirstSource(h, item);
    OneSource(item.source, HostId(h, item));
    assert [item][0] == item;
  }

  lemma FirstSource(h: Hashes, item: Item)
    requires Visible(item)
    ensures SourcesAfter(h, map[], [item]) == map[item.source := HostId(h, item)]
  {
    assert [item][..0] == [] && SourcesAfter(h, map[], []) == map[];
  }

  /** Painting one image with its data on an empty cache caches that image for its source. */
  lemma FirstPaint(h: Hashes, item: Item) returns (step: Step)
    requires Visible(item) && Honest(h, item) && item.image.data != []
    ensures step.event == Paint([item], false) && IsRun(h, EMPTY_CACHE, [step])
    ensures step.after.images == map[HostId(h, item) := Signature(item)]
    ensures step.after.sources == map[item.source := HostId(h, item)]
    ensures Key(h, item) in step.after.placements
  {
    step := SomeUpdate(h, EMPTY_CACHE, [item], false);
    assert [step][1..] == [];
    var dead, stale :| UpdateInOrder(h, EMPTY_CACHE, [item], false, step.after, step.commands, dead, stale);
    PrunesNothing(EMPTY_CACHE, [item]);
    FirstDrawing(h, item, ImageDeletes(dead));
  }

  lemma OneSource(source: SourceKey, id: nat)
    ensures map[source := id].Values == {id}
  {
    var m := map[source := id];
    assert m[source] == id;
  }

  // ----- through the data filter -----

  /** The first source moves to a new image, which releases the image the second item was told it
      need not bring. */
  lemma UnsuppliedAfterMove(before: Cache, frame: seq<Item>)
    requires before.images.Keys == {6} && before.sources == map[Terminal(0, 1) := 6]
    requires frame == [SampleItem(1, 5, [5]), SampleItem(2, 6, [])]
    ensures !FullySupplied(SAMPLE_HASHES, before, frame)
  {
    var h := SAMPLE_HASHES;
    var first, second := frame[0], frame[1];
    SampleItemIsVisible(1, 5, [5]);
    SampleItemIsVisible(2, 6, []);
    assert frame[..1] == [first] && [first][..0] == [];
    assert first in frame && before.sources.Keys <= CurrentSources(frame);
    PrunesNothing(before, frame);
    var sources := SourcesAfter(h, before.sources, [first]);
    assert sources == map[Terminal(0, 1) := 5] by {
      assert SourcesAfter(h, before.sources, []) == before.sources;
    }
    OneSource(Terminal(0, 1), 5);
    OneSource(Terminal(0, 1), 6);
    assert HeldAfter(h, before, frame[..1]) == {5};
    assert !Supplied(h, before, frame, 1);
  }

  /** With ids that do not collide, after one update of a run, the data filter makes the second
      leave out an item: the terminal does not show what drawing from scratch would. */
  lemma FilteredFrameCanMissAnItem()
    returns (steps: seq<Step>, frame: seq<Item>, after: Cache, commands: seq<Command>)
    ensures IsRun(SAMPLE_HASHES, EMPTY_CACHE, steps)
    ensures DistinguishedRun(SAMPLE_HASHES, SampleNaming, steps) && Distinguished(SAMPLE_HASHES, SampleNaming, frame)
    ensures Filtered(SAMPLE_HASHES, FinalCache(EMPTY_CACHE, steps), frame) && Consistent(SAMPLE_HASHES, frame)
    ensures IsUpdate(SAMPLE_HASHES, FinalCache(EMPTY_CACHE, steps), frame, false, after, commands)
    ensures Run(EMPTY_HOST, AllCommands(steps) + commands).placements != FromScratch(SAMPLE_HASHES, frame)
  {
    var h := SAMPLE_HASHES;
    var setup := SampleSetup();
    steps, frame := [setup], [SampleItem(1, 5, [5]), SampleItem(2, 6, [])];
    SampleFrameIsFiltered(setup.after, frame);
    assert FinalCache(EMPTY_CACHE, steps) == setup.after;
    var step := SomeUpdate(h, setup.after, frame, false);
    after, commands := step.after, step.commands;
    UnsuppliedAfterMove(setup.after, frame);
    ReachableFrameCompleteExactlyWhenSupplied(h, SampleNaming, steps, frame, false, after, commands);
  }

  lemma SampleSetup() returns (setup: Step)
    ensures IsRun(SAMPLE_HASHES, EMPTY_CACHE, [setup])
    ensures DistinguishedRun(SAMPLE_HASHES, SampleNaming, [setup])
    ensures setup.after.images == map[6 := SampleNaming(6)]
    ensures setup.after.sources == map[Terminal(0, 1) := 6]
  {
    SampleItemIsVisible(1, 6, [6]);
    setup := FirstPaint(SAMPLE_HASHES, SampleItem(1, 6, [6]));
  }

  lemma SampleFrameIsFiltered(before: Cache, frame: seq<Item>)
    requires before.images == map[6 := SampleNaming(6)]
    requires frame == [SampleItem(1, 5, [5]), SampleItem(2, 6, [])]
    ensures Filtered(SAMPLE_HASHES, before, frame) && Consistent(SAMPLE_HASHES, frame)
    ensures Distinguished(SAMPLE_HASHES, SampleNaming, frame)
  {
    SampleItemIsVisible(1, 5, [5]);
    SampleItemIsVisible(2, 6, []);
    assert Key(SAMPLE_HASHES, frame[0]) != Key(SAMPLE_HASHES, frame[1]) && frame[0].source != frame[1].source;
  }

  // ----- through colliding ids -----

  /** With ids that collide, a filtered frame can starve an item, and the run ends with cache and
      terminal apart. */
  lemma CollidingIdsPart() returns (steps: seq<Step>)
    ensures IsRun(COLLIDING_HASHES, EMPTY_CACHE, steps) && HonestRun(COLLIDING_HASHES, steps)
    ensures |steps| == 2 && steps[1].event.Paint?
    ensures Filtered(COLLIDING_HASHES, steps[0].after, steps[1].event.frame)
    ensures !Agrees(COLLIDING_HASHES, Run(EMPTY_HOST, AllCommands(steps)), FinalCache(EMPTY_CACHE, steps))
  {
    var h := COLLIDING_HASHES;
    var setup := CollidingSetup();
    var frame := [SampleItem(2, 6, [6]), SampleItem(1, 5, [])];
    var step := SomeUpdate(h, setup.after, frame, false);
    CollidingFrameIsFiltered(setup.after, frame);
    steps := [setup, step];
    TwoSteps(h, setup, step);
    LostByTwoSteps(h, setup, step);
    assert setup in [setup] && HonestRun(h, steps);
    ReplacedIdIsLost(setup.after, frame, LostByRun(h, EMPTY_CACHE, [setup], {}));
    EveryRunAgreesExactly(h, steps);
  }

  /** A clear then brings cache and terminal together again. */
  lemma ClearRepairs(h: Hashes, steps: seq<Step>, clear: Step)
    requires IsRun(h, EMPTY_CACHE, steps) && HonestRun(h, steps)
    requires clear.event == Clear && IsStep(h, FinalCache(EMPTY_CACHE, steps), clear)
    ensures Agrees(h, Run(EMPTY_HOST, AllCommands(steps) + clear.commands), clear.after)
  {
    EveryRunAgreesExactly(h, steps);
    RunKeepsReferences(h, EMPTY_CACHE, steps);
    RunAppend(EMPTY_HOST, AllCommands(steps), clear.commands);
    var host := Run(EMPTY_HOST, AllCommands(steps));
    ClearAgrees(h, host, FinalCache(EMPTY_CACHE, steps), clear.after, clear.commands, LostByRun(h, EMPTY_CACHE, steps, {}));
    AgreesWhenNothingLost(h, Run(host, clear.commands), clear.after, {});
  }

  lemma CollidingSetup() returns (setup: Step)
    ensures IsRun(COLLIDING_HASHES, EMPTY_CACHE, [setup]) && HonestRun(COLLIDING_HASHES, [setup])
    ensures setup.after.images == map[0 := SampleNaming(5)] && (0, 1) in setup.after.placements
    ensures setup.event.Paint? && setup.after.sources.Keys == {Terminal(0, 1)}
  {
    SampleItemIsVisible(1, 5, [5]);
    setup := FirstPaint(COLLIDING_HASHES, SampleItem(1, 5, [5]));
  }

  lemma CollidingFrameIsFiltered(before: Cache, frame: seq<Item>)
    requires before.images == map[0 := SampleNaming(5)]
    requires frame == [SampleItem(2, 6, [6]), SampleItem(1, 5, [])]
    ensures Filtered(COLLIDING_HASHES, before, frame) && HonestFrame(COLLIDING_HASHES, frame)
  {
    SampleItemIsVisible(2, 6, [6]);
    SampleItemIsVisible(1, 5, []);
  }

  lemma TwoSteps(h: Hashes, a: Step, b: Step)
    requires IsRun(h, EMPTY_CACHE, [a]) && IsStep(h, a.after, b)
    ensures IsRun(h, EMPTY_CACHE, [a, b])
  {
    assert [a, b][1..] == [b] && [b][1..] == [] && [a][1..] == [];
    assert IsRun(h, a.after, [b]);
  }

  lemma LostByTwoSteps(h: Hashes, a: Step, b: Step)
    ensures LostByRun(h, EMPTY_CACHE, [a, b], {}) == LostByStep(h, a.after, b.event, LostByRun(h, EMPTY_CACHE, [a], {}))
  {
    var first := LostByStep(h, EMPTY_CACHE, a.event, {});
    LostByOneStep(h, EMPTY_CACHE, a, {});
    LostByOneStep(h, a.after, b, first);
    assert [a, b][1..] == [b];
  }

  lemma LostByOneStep(h: Hashes, before: Cache, step: Step, lost: set<nat>)
    ensures LostByRun(h, before, [step], lost) == LostByStep(h, before, step.event, lost)
  {
    assert [step][1..] == [];
  }

  lemma ReplacedIdIsLost(before: Cache, frame: seq<Item>, lost: set<nat>)
    requires frame == [SampleItem(2, 6, [6]), SampleItem(1, 5, [])]
    ensures 0 in LostByUpdate(COLLIDING_HASHES, before, frame, false, lost)
  {
    var h := COLLIDING_HASHES;
    SampleItemIsVisible(2, 6, [6]);
    SampleItemIsVisible(1, 5, []);
    var start := Drawing(Prune(before, frame), {}, []);
    DrawnIsCached(h, start, frame[0], false);
    assert frame[..1] == [frame[0]] && [frame[0]][..0] == [];
    var first := Draw(h, start, frame[0], false);
    assert DrawAll(h, start, frame[..1], false) == first;
    StarvedIsLost(h, first, frame[1], LostByFrame(h, start, frame[..1], false, lost * start.cache.images.Keys));
  }

  lemma StarvedIsLost(h: Hashes, d: Drawing, item: Item, lost: set<nat>)
    requires Starved(h, d.cache, item)
    ensures HostId(h, item) in LostByDraw(h, d, item, false, lost)
  {}

  lemma DrawnIsCached(h: Hashes, d: Drawing, item: Item, viewChanged: bool)
    requires Visible(item) && item.image.data != []
    ensures Cached(h, Draw(h, d, item, viewChanged).cache, item)
  {
    var (held, ok) := HoldImage(h, d.(current := d.current + {Key(h, item)}), item);
    var id := HostId(h, item);
    var sources := held.cache.sources[item.source := id];
    assert sources[item.source] == id && id in sources.Values;
  }

  // ----- an item with data that is not shown -----

  /** With ids that collide an item can miss its placement although it brings its data: the source
      changes its image under the same id, the old image takes its placement out of the frame, and
      the new one is displayed and deleted as stale in the same update. */
  lemma ReplacedPlacementIsDropped()
    returns (steps: seq<Step>, frame: seq<Item>, after: Cache, commands: seq<Command>)
    ensures IsRun(COLLIDING_HASHES, EMPTY_CACHE, steps) && HonestRun(COLLIDING_HASHES, steps)
    ensures HonestFrame(COLLIDING_HASHES, frame) && forall item :: item in frame ==> Visible(item) && item.image.data != []
    ensures IsUpdate(COLLIDING_HASHES, FinalCache(EMPTY_CACHE, steps), frame, false, after, commands)
    ensures Run(EMPTY_HOST, AllCommands(steps) + commands).placements != FromScratch(COLLIDING_HASHES, frame)
  {
    var h := COLLIDING_HASHES;
    var setup := CollidingSetup();
    steps, frame := [setup], [SampleItem(1, 6, [6])];
    ReplacingFrame(frame);
    assert FinalCache(EMPTY_CACHE, steps) == setup.after;
    var step := SomeUpdate(h, setup.after, frame, false);
    after, commands := step.after, step.commands;
    TakenPlacementDoesNotCome(setup.after, frame, LostByRun(h, EMPTY_CACHE, steps, {}));
    EveryFrameCompleteExactly(h, steps, frame, false, after, commands);
  }

  lemma ReplacingFrame(frame: seq<Item>)
    requires frame == [SampleItem(1, 6, [6])]
    ensures HonestFrame(COLLIDING_HASHES, frame) && DistinctKeys(COLLIDING_HASHES, frame)
    ensures Terminal(0, 1) in CurrentSources(frame)
    ensures forall item :: item in frame ==> Visible(item) && item.image.data != []
  {
    SampleItemIsVisible(1, 6, [6]);
    assert frame[0] in frame;
  }

  lemma TakenPlacementDoesNotCome(before: Cache, frame: seq<Item>, lost: set<nat>)
    requires before.images == map[0 := SampleNaming(5)] && (0, 1) in before.placements
    requires frame == [SampleItem(1, 6, [6])] && before.sources.Keys <= CurrentSources(frame)
    ensures !ShowsAll(COLLIDING_HASHES, before, frame, false, lost)
  {
    SampleItemIsVisible(1, 6, [6]);
    PrunesNothing(before, frame);
    assert frame[..0] == [];
    assert !Comes(COLLIDING_HASHES, Drawing(before, {}, []), frame[0], lost * before.images.Keys);
  }
}
