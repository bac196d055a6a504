/** Which items of a frame the terminal shows after an update when image ids may collide: exactly
    when the frame is complete after any honest run, whatever the hash functions do. */
module KittyScreen {
  import opened Machine
  import opened KittyClipping
  import opened KittyHost
  import opened KittyCache
  import opened KittyAgreement
  import opened KittyRuns
  import opened KittyLosses
  import opened KittyCompleteness

  // ----- one item's turn -----

  /** The placement belongs to the frame, is cached, and its image is not lost. */
  predicate OnScreen(h: Hashes, d: Drawing, item: Item, lost: set<nat>) {
    Key(h, item) in d.current && Key(h, item) in d.cache.placements && HostId(h, item) !in lost
  }

  /** At its turn the item finds its image held, or brings data and its placement is not yet taken:
      replacing an image takes the placements it has out of the frame, this one with them. */
  predicate Comes(h: Hashes, d: Drawing, item: Item, lost: set<nat>) {
    if Cached(h, d.cache, item) then HostId(h, item) !in lost
    else item.image.data != [] && Key(h, item) !in d.cache.placements
  }

  /** The item's turn neither replaces nor releases that image. */
  predicate Spares(h: Hashes, d: Drawing, item: Item, id: nat) {
    Visible(item) ==>
      && (HostId(h, item) == id ==> Cached(h, d.cache, item))
      && (Cached(h, d.cache, item) || item.image.data != [] ==>
            !(Supersedes(d, item.source, HostId(h, item)) && d.cache.sources[item.source] == id))
  }

  ghost predicate Sane(d: Drawing, lost: set<nat>) {
    Referential(d.cache) && lost <= d.cache.images.Keys
  }

  lemma DrawStaysSane(h: Hashes, d: Drawing, item: Item, viewChanged: bool, lost: set<nat>)
    requires Sane(d, lost)
    ensures Sane(Draw(h, d, item, viewChanged), LostByDraw(h, d, item, viewChanged, lost))
  {
    DrawKeepsReferences(h, d, item, viewChanged);
  }

  // What holding an image and releasing another do to the placements on screen.

  lemma HoldingKeepsOthers(h: Hashes, d: Drawing, item: Item, k: PlacementKey)
    requires Referential(d.cache)
    ensures var held := HoldImage(h, d, item).0;
      k in held.current && k in held.cache.placements
      <==> && k in d.current && k in d.cache.placements
           && (k.0 == HostId(h, item) ==> Cached(h, d.cache, item))
  {}

  lemma ReleaseKeepsOthers(d: Drawing, source: SourceKey, id: nat, k: PlacementKey)
    ensures var r := Release(d, source, id);
      k in r.current && k in r.cache.placements
      <==> && k in d.current && k in d.cache.placements
           && !(Supersedes(d, source, id) && d.cache.sources[source] == k.0)
  {
    var sources := d.cache.sources[source := id];
    assert sources[source] == id && id in sources.Values;
  }

  /** An earlier item stays on screen exactly if this turn spares its image. */
  lemma OtherTurn(h: Hashes, d: Drawing, item: Item, viewChanged: bool, lost: set<nat>, earlier: Item)
    requires Sane(d, lost) && (Visible(item) ==> Key(h, item) != Key(h, earlier))
    ensures OnScreen(h, Draw(h, d, item, viewChanged), earlier, LostByDraw(h, d, item, viewChanged, lost))
       <==> OnScreen(h, d, earlier, lost) && Spares(h, d, item, HostId(h, earlier))
  {
    if Visible(item) {
      var id, k := HostId(h, item), Key(h, earlier);
      var started := d.(current := d.current + {Key(h, item)});
      var (held, ok) := HoldImage(h, started, item);
      HoldingKeepsOthers(h, started, item, k);
      if ok {
        ReleaseKeepsOthers(held, item.source, id, k);
        SameRelease(h, started, item);
      }
      KeptOfLost(h, d, item, viewChanged, lost, k.0);
    }
  }

  lemma SameRelease(h: Hashes, d: Drawing, item: Item)
    ensures var held := HoldImage(h, d, item).0;
      held.cache.sources == d.cache.sources
  {}

  /** Losses of other images change only with the image itself. */
  lemma KeptOfLost(h: Hashes, d: Drawing, item: Item, viewChanged: bool, lost: set<nat>, id: nat)
    requires Visible(item) && lost <= d.cache.images.Keys
    ensures Spares(h, d, item, id) ==> (id in LostByDraw(h, d, item, viewChanged, lost) <==> id in lost)
  {
    var started := d.(current := d.current + {Key(h, item)});
    var (held, ok) := HoldImage(h, started, item);
    if ok && Spares(h, d, item, id) {
      SameRelease(h, started, item);
      ReleasingOnlyDrops(held, item.source, HostId(h, item));
    }
  }

  /** The item itself is on screen after its turn exactly if it comes. */
  lemma OwnTurn(h: Hashes, d: Drawing, item: Item, viewChanged: bool, lost: set<nat>)
    requires Sane(d, lost) && Visible(item)
    ensures OnScreen(h, Draw(h, d, item, viewChanged), item, LostByDraw(h, d, item, viewChanged, lost))
       <==> Comes(h, d, item, lost)
  {
    var id, k := HostId(h, item), Key(h, item);
    var started := d.(current := d.current + {k});
    var (held, ok) := HoldImage(h, started, item);
    OwnHolding(h, started, item);
    if ok {
      ReleasingOnlyDrops(held, item.source, id);
      ReleaseKeepsOwn(held, item.source, id, k);
    }
  }

  lemma OwnHolding(h: Hashes, d: Drawing, item: Item)
    requires Referential(d.cache) && Key(h, item) in d.current
    ensures var (held, ok) := HoldImage(h, d, item);
      && (ok <==> Cached(h, d.cache, item) || item.image.data != [])
      && (ok ==> HostId(h, item) in held.cache.images)
      && (ok ==> (Key(h, item) in held.current <==> Cached(h, d.cache, item) || Key(h, item) !in d.cache.placements))
      && (!ok ==> Key(h, item) !in held.cache.placements)
  {}

  lemma ReleaseKeepsOwn(d: Drawing, source: SourceKey, id: nat, k: PlacementKey)
    requires k.0 == id && id in d.cache.images
    ensures var r := Release(d, source, id);
      (k in r.current <==> k in d.current) && id in r.cache.images
  {
    var sources := d.cache.sources[source := id];
    assert sources[source] == id && id in sources.Values;
  }

  // ----- a frame -----

  /** Every visible item comes at its turn and is spared by every later one. */
  predicate AllCome(h: Hashes, d: Drawing, frame: seq<Item>, viewChanged: bool, lost: set<nat>) {
    frame == []
    || (var rest, item := frame[..|frame| - 1], frame[|frame| - 1];
        var before := DrawAll(h, d, rest, viewChanged);
        && AllCome(h, d, rest, viewChanged, lost)
        && (Visible(item) ==> Comes(h, before, item, LostByFrame(h, d, rest, viewChanged, lost)))
        && forall j :: 0 <= j < |rest| && Visible(rest[j]) ==> Spares(h, before, item, HostId(h, rest[j])))
  }

  ghost predicate AllOnScreen(h: Hashes, d: Drawing, frame: seq<Item>, lost: set<nat>) {
    forall j :: 0 <= j < |frame| && Visible(frame[j]) ==> OnScreen(h, d, frame[j], lost)
  }

  lemma AllOnScreenOneMore(h: Hashes, d: Drawing, rest: seq<Item>, item: Item, lost: set<nat>)
    ensures AllOnScreen(h, d, rest + [item], lost)
       <==> AllOnScreen(h, d, rest, lost) && (Visible(item) ==> OnScreen(h, d, item, lost))
  {
    var all := rest + [item];
    assert all[|rest|] == item && forall j :: 0 <= j < |rest| ==> all[j] == rest[j];
  }

  lemma {:induction false} FrameStaysSane(h: Hashes, d: Drawing, frame: seq<Item>, viewChanged: bool, lost: set<nat>)
    requires Sane(d, lost)
    ensures Sane(DrawAll(h, d, frame, viewChanged), LostByFrame(h, d, frame, viewChanged, lost))
  {
    if frame != [] {
      var rest := frame[..|frame| - 1];
      FrameStaysSane(h, d, rest, viewChanged, lost);
      DrawStaysSane(h, DrawAll(h, d, rest, viewChanged), frame[|frame| - 1], viewChanged,
                    LostByFrame(h, d, rest, viewChanged, lost));
    }
  }

  lemma {:induction false} AllOnScreenExactly(h: Hashes, d: Drawing, frame: seq<Item>, viewChanged: bool, lost: set<nat>)
    requires Sane(d, lost) && DistinctKeys(h, frame)
    ensures AllOnScreen(h, DrawAll(h, d, frame, viewChanged), frame, LostByFrame(h, d, frame, viewChanged, lost))
       <==> AllCome(h, d, frame, viewChanged, lost)
  {
    if frame != [] {
      var rest, item := frame[..|frame| - 1], frame[|frame| - 1];
      AllOnScreenExactly(h, d, rest, viewChanged, lost);
      FrameStaysSane(h, d, rest, viewChanged, lost);
      var before, now := DrawAll(h, d, rest, viewChanged), LostByFrame(h, d, rest, viewChanged, lost);
      assert frame == rest + [item];
      LastKeyDiffers(h, rest, item);
      TurnKeepsAllExactly(h, before, rest, item, viewChanged, now);
    }
  }

  lemma LastKeyDiffers(h: Hashes, rest: seq<Item>, item: Item)
    requires DistinctKeys(h, rest + [item])
    ensures DistinctKeys(h, rest)
    ensures forall j :: 0 <= j < |rest| && Visible(rest[j]) && Visible(item) ==> Key(h, item) != Key(h, rest[j])
  {
    var all := rest + [item];
    assert all[|rest|] == item && forall j :: 0 <= j < |rest| ==> all[j] == rest[j];
  }

  lemma TurnKeepsAllExactly(h: Hashes, d: Drawing, rest: seq<Item>, item: Item, viewChanged: bool, lost: set<nat>)
    requires Sane(d, lost)
    requires forall j :: 0 <= j < |rest| && Visible(rest[j]) && Visible(item) ==> Key(h, item) != Key(h, rest[j])
    ensures AllOnScreen(h, Draw(h, d, item, viewChanged), rest + [item], LostByDraw(h, d, item, viewChanged, lost))
       <==> && AllOnScreen(h, d, rest, lost)
            && (Visible(item) ==> Comes(h, d, item, lost))
            && forall j :: 0 <= j < |rest| && Visible(rest[j]) ==> Spares(h, d, item, HostId(h, rest[j]))
  {
    var after, now := Draw(h, d, item, viewChanged), LostByDraw(h, d, item, viewChanged, lost);
    AllOnScreenOneMore(h, after, rest, item, now);
    if Visible(item) {
      OwnTurn(h, d, item, viewChanged, lost);
    }
    forall j | 0 <= j < |rest| && Visible(rest[j])
      ensures OnScreen(h, after, rest[j], now)
         <==> OnScreen(h, d, rest[j], lost) && Spares(h, d, item, HostId(h, rest[j]))
    {
      OtherTurn(h, d, item, viewChanged, lost, rest[j]);
    }
  }

  // ----- what the terminal shows -----

  /** What is on screen of the frame is placed as the frame says, and nothing else belongs to it. */
  ghost predicate PlacedAsAsked(h: Hashes, d: Drawing, frame: seq<Item>) {
    && (forall k :: k in d.current ==> InFrame(h, frame, k))
    && forall j :: 0 <= j < |frame| && Visible(frame[j]) && Key(h, frame[j]) in d.current
                   && Key(h, frame[j]) in d.cache.placements
         ==> d.cache.placements[Key(h, frame[j])] == Placed(frame[j])
  }

  lemma DrawTouchesOnlyItsKey(h: Hashes, d: Drawing, item: Item, viewChanged: bool, k: PlacementKey)
    requires Visible(item) ==> k != Key(h, item)
    ensures var r := Draw(h, d, item, viewChanged);
      && (k in r.current ==> k in d.current)
      && (k in r.cache.placements ==> k in d.cache.placements && r.cache.placements[k] == d.cache.placements[k])
  {}

  lemma DrawPlacesItem(h: Hashes, d: Drawing, item: Item, viewChanged: bool)
    requires Visible(item) && Referential(d.cache)
    ensures var r := Draw(h, d, item, viewChanged);
      Key(h, item) in r.cache.placements ==> r.cache.placements[Key(h, item)] == Placed(item)
  {
    OwnHolding(h, d.(current := d.current + {Key(h, item)}), item);
  }

  lemma {:induction false} FrameIsPlacedAsAsked(h: Hashes, d: Drawing, frame: seq<Item>, viewChanged: bool)
    requires Referential(d.cache) && d.current == {} && DistinctKeys(h, frame)
    ensures PlacedAsAsked(h, DrawAll(h, d, frame, viewChanged), frame)
  {
    if frame != [] {
      var rest, item := frame[..|frame| - 1], frame[|frame| - 1];
      assert frame == rest + [item];
      LastKeyDiffers(h, rest, item);
      FrameIsPlacedAsAsked(h, d, rest, viewChanged);
      DrawAllKeepsReferences(h, d, rest, viewChanged);
      OneMorePlaced(h, DrawAll(h, d, rest, viewChanged), rest, item, viewChanged);
    }
  }

  lemma OneMorePlaced(h: Hashes, d: Drawing, rest: seq<Item>, item: Item, viewChanged: bool)
    requires Referential(d.cache) && PlacedAsAsked(h, d, rest)
    requires forall j :: 0 <= j < |rest| && Visible(rest[j]) && Visible(item) ==> Key(h, item) != Key(h, rest[j])
    ensures PlacedAsAsked(h, Draw(h, d, item, viewChanged), rest + [item])
  {
    var all, r := rest + [item], Draw(h, d, item, viewChanged);
    forall k | k in r.current ensures InFrame(h, all, k) {
      InFrameGrows(h, rest, item, k);
      if !(Visible(item) && k == Key(h, item)) {
        DrawTouchesOnlyItsKey(h, d, item, viewChanged, k);
      }
    }
    forall j | 0 <= j < |all| && Visible(all[j]) && Key(h, all[j]) in r.current && Key(h, all[j]) in r.cache.placements
      ensures r.cache.placements[Key(h, all[j])] == Placed(all[j])
    {
      if j < |rest| {
        assert all[j] == rest[j] && all[|rest|] == item;
        DrawTouchesOnlyItsKey(h, d, item, viewChanged, Key(h, rest[j]));
      } else {
        DrawPlacesItem(h, d, item, viewChanged);
      }
    }
  }

  /** These are the placements of the frame whose images are not lost. */
  ghost predicate ShowsFrame(d: Drawing, lost: set<nat>, shown: map<PlacementKey, Shown>) {
    && (forall k :: k in shown <==> k in d.cache.placements && k in d.current && k.0 !in lost)
    && forall k :: k in shown ==> shown[k] == Shown(d.cache.placements[k].clipped, d.cache.placements[k].z)
  }

  lemma TerminalShowsFrame(h: Hashes, host: Host, d: Drawing, lost: set<nat>)
    requires AgreesBut(h, host, d.cache.(placements := d.cache.placements - Stale(d)), lost)
    ensures ShowsFrame(d, lost, host.placements)
  {}

  lemma ShownItem(h: Hashes, d: Drawing, frame: seq<Item>, lost: set<nat>, shown: map<PlacementKey, Shown>, k: PlacementKey)
    requires ShowsFrame(d, lost, shown) && PlacedAsAsked(h, d, frame) && DistinctKeys(h, frame) && k in shown
    ensures k in FromScratch(h, frame) && shown[k] == FromScratch(h, frame)[k]
  {
    FromScratchLookup(h, frame);
    var j :| 0 <= j < |frame| && Visible(frame[j]) && Key(h, frame[j]) == k;
  }

  lemma {:induction false} AllShownIsFromScratch(h: Hashes, d: Drawing, frame: seq<Item>, lost: set<nat>, shown: map<PlacementKey, Shown>)
    requires ShowsFrame(d, lost, shown) && PlacedAsAsked(h, d, frame) && DistinctKeys(h, frame)
    requires AllOnScreen(h, d, frame, lost)
    ensures shown == FromScratch(h, frame)
  {
    forall k | k in shown ensures k in FromScratch(h, frame) && shown[k] == FromScratch(h, frame)[k] {
      ShownItem(h, d, frame, lost, shown, k);
    }
    forall k | k in FromScratch(h, frame) ensures k in shown {
      AskedItem(h, d, frame, lost, shown, k);
    }
  }

  lemma AskedItem(h: Hashes, d: Drawing, frame: seq<Item>, lost: set<nat>, shown: map<PlacementKey, Shown>, k: PlacementKey)
    requires ShowsFrame(d, lost, shown) && AllOnScreen(h, d, frame, lost) && DistinctKeys(h, frame)
    requires k in FromScratch(h, frame)
    ensures k in shown
  {
    FromScratchLookup(h, frame);
    var j :| 0 <= j < |frame| && Visible(frame[j]) && Key(h, frame[j]) == k;
    assert OnScreen(h, d, frame[j], lost);
  }

  lemma FromScratchIsAllShown(h: Hashes, d: Drawing, frame: seq<Item>, lost: set<nat>)
    requires DistinctKeys(h, frame) && ShowsFrame(d, lost, FromScratch(h, frame))
    ensures AllOnScreen(h, d, frame, lost)
  {
    FromScratchLookup(h, frame);
  }

  /** Whether an update shows its whole frame, from the cache before it, its frame, and the images
      lost before it. */
  predicate ShowsAll(h: Hashes, before: Cache, frame: seq<Item>, viewChanged: bool, lost: set<nat>) {
    var pruned := Prune(before, frame);
    AllCome(h, Drawing(pruned, {}, []), frame, viewChanged, lost * pruned.images.Keys)
  }

  lemma {:induction false} ComeAlike(h: Hashes, x: Drawing, y: Drawing, frame: seq<Item>, viewChanged: bool, lost: set<nat>)
    requires Alike(x, y)
    ensures AllCome(h, x, frame, viewChanged, lost) <==> AllCome(h, y, frame, viewChanged, lost)
  {
    if frame != [] {
      var rest := frame[..|frame| - 1];
      ComeAlike(h, x, y, rest, viewChanged, lost);
      DrawAllAlike(h, x, y, rest, viewChanged);
      LostAlike(h, x, y, rest, viewChanged, lost);
    }
  }

  /** After an update the terminal shows exactly the frame, as if drawn from scratch, if and only if
      every visible item comes at its turn and is spared by the later ones. */
  lemma CompleteExactlyWhenAllCome(h: Hashes, host: Host, before: Cache, frame: seq<Item>, viewChanged: bool,
                                   after: Cache, commands: seq<Command>, lost: set<nat>)
    requires AgreesBut(h, host, before, lost) && Referential(before)
    requires HonestFrame(h, frame) && DistinctKeys(h, frame)
    requires IsUpdate(h, before, frame, viewChanged, after, commands)
    ensures Run(host, commands).placements == FromScratch(h, frame) <==> ShowsAll(h, before, frame, viewChanged, lost)
  {
    var dead, stale :| UpdateInOrder(h, before, frame, viewChanged, after, commands, dead, stale);
    var pruned := Prune(before, frame);
    var start, left := Drawing(pruned, {}, ImageDeletes(dead)), lost * pruned.images.Keys;
    PruneKeepsReferences(before, frame);
    UpdateAgreesBut(h, host, before, frame, viewChanged, after, commands, lost);
    LostAlike(h, start, Drawing(pruned, {}, []), frame, viewChanged, left);
    ComeAlike(h, start, Drawing(pruned, {}, []), frame, viewChanged, left);
    FrameIsPlacedAsAsked(h, start, frame, viewChanged);
    AllOnScreenExactly(h, start, frame, viewChanged, left);
    var d, now := Drawn(h, before, frame, viewChanged, dead), LostByFrame(h, start, frame, viewChanged, left);
    TerminalShowsFrame(h, Run(host, commands), d, now);
    if Run(host, commands).placements == FromScratch(h, frame) {
      FromScratchIsAllShown(h, d, frame, now);
    } else if AllOnScreen(h, d, frame, now) {
      AllShownIsFromScratch(h, d, frame, now, Run(host, commands).placements);
    }
  }

  /** The same after any run from an empty cache and an empty terminal, however the ids collide. */
  lemma EveryFrameCompleteExactly(h: Hashes, steps: seq<Step>, frame: seq<Item>, viewChanged: bool,
                                  after: Cache, commands: seq<Command>)
    requires IsRun(h, EMPTY_CACHE, steps) && HonestRun(h, steps)
    requires HonestFrame(h, frame) && DistinctKeys(h, frame)
    requires IsUpdate(h, FinalCache(EMPTY_CACHE, steps), frame, viewChanged, after, commands)
    ensures Run(EMPTY_HOST, AllCommands(steps) + commands).placements == FromScratch(h, frame)
       <==> ShowsAll(h, FinalCache(EMPTY_CACHE, steps), frame, viewChanged, LostByRun(h, EMPTY_CACHE, steps, {}))
  {
    EveryRunAgreesExactly(h, steps);
    RunKeepsReferences(h, EMPTY_CACHE, steps);
    RunAppend(EMPTY_HOST, AllCommands(steps), commands);
    CompleteExactlyWhenAllCome(h, Run(EMPTY_HOST, AllCommands(steps)), FinalCache(EMPTY_CACHE, steps), frame,
                               viewChanged, after, commands, LostByRun(h, EMPTY_CACHE, steps, {}));
  }
}
