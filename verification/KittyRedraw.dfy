/** What an update sends: everything on a changed view, nothing exactly when nothing changed, and
    deletes for what left the frame. */
module KittyRedraw {
  import opened Machine
  import opened KittyClipping
  import opened KittyHost
  import opened KittyCache
  import opened KittyAgreement
  import opened KittyRuns
  import opened KittyLosses
  import opened KittyCompleteness

  // ----- two terminals with the same images -----

  /** The first terminal shows no more than the second, and the same under the keys in `caught`. */
  ghost predicate Trails(a: Host, b: Host, caught: set<PlacementKey>) {
    && a.images == b.images && a.transfer == b.transfer
    && a.placements.Keys <= b.placements.Keys
    && (forall k :: k in b.placements ==> k.0 in b.images)
    && forall k :: k in caught && k in b.placements ==> k in a.placements && a.placements[k] == b.placements[k]
  }

  function Displayed(commands: seq<Command>): set<PlacementKey> {
    set c | c in commands && c.Display? :: (c.id, c.placementId)
  }

  lemma DisplayedAppend(a: seq<Command>, b: seq<Command>)
    ensures Displayed(a + b) == Displayed(a) + Displayed(b)
  {
    forall k ensures k in Displayed(a + b) <==> k in Displayed(a) || k in Displayed(b) {
      if k in Displayed(a + b) {
        var c :| c in a + b && c.Display? && (c.id, c.placementId) == k;
      }
      if k in Displayed(a) {
        var c :| c in a && c.Display? && (c.id, c.placementId) == k;
        assert c in a + b;
      }
      if k in Displayed(b) {
        var c :| c in b && c.Display? && (c.id, c.placementId) == k;
        assert c in a + b;
      }
    }
  }

  lemma CommandKeepsTrailing(a: Host, b: Host, caught: set<PlacementKey>, command: Command)
    requires Trails(a, b, caught)
    ensures Trails(Apply(a, command), Apply(b, command),
                   caught + if command.Display? then {(command.id, command.placementId)} else {})
  {
    if command.Transmit? || command.Continue? {
      TransferKeepsTrailing(a, b, caught, command);
    } else if command.Display? {
      DisplayKeepsTrailing(a, b, caught, command);
    } else {
      DeleteKeepsTrailing(a, b, caught, command);
    }
    assert caught + {} == caught;
  }

  lemma TransferKeepsTrailing(a: Host, b: Host, caught: set<PlacementKey>, command: Command)
    requires Trails(a, b, caught) && (command.Transmit? || command.Continue?)
    ensures Trails(Apply(a, command), Apply(b, command), caught)
  {}

  lemma DisplayKeepsTrailing(a: Host, b: Host, caught: set<PlacementKey>, command: Command)
    requires Trails(a, b, caught) && command.Display?
    ensures Trails(Apply(a, command), Apply(b, command), caught + {(command.id, command.placementId)})
  {}

  lemma DeleteKeepsTrailing(a: Host, b: Host, caught: set<PlacementKey>, command: Command)
    requires Trails(a, b, caught) && (command.DeleteImage? || command.DeletePlacement?)
    ensures Trails(Apply(a, command), Apply(b, command), caught)
  {}

  /** Under the keys they display, commands bring the first terminal to what the second shows. */
  lemma {:induction false} DisplaysCatchUp(a: Host, b: Host, caught: set<PlacementKey>, commands: seq<Command>)
    requires Trails(a, b, caught)
    ensures Trails(Run(a, commands), Run(b, commands), caught + Displayed(commands))
    decreases commands
  {
    if commands == [] {
      assert caught + Displayed([]) == caught;
    } else {
      var command, rest := commands[0], commands[1..];
      var now := if command.Display? then {(command.id, command.placementId)} else {};
      CommandKeepsTrailing(a, b, caught, command);
      DisplaysCatchUp(Apply(a, command), Apply(b, command), caught + now, rest);
      assert [command] + rest == commands;
      DisplayedAppend([command], rest);
      assert Displayed([command]) == now;
      assert caught + now + Displayed(rest) == caught + Displayed(commands);
    }
  }

  // ----- a changed view displays the whole frame -----

  /** Every placement of the frame so far was displayed in this update. */
  ghost predicate AllDisplayed(d: Drawing) {
    forall k :: k in d.current && k in d.cache.placements ==> k in Displayed(d.commands)
  }

  lemma HoldingDisplaysNothing(h: Hashes, d: Drawing, item: Item)
    requires Referential(d.cache)
    ensures var (held, ok) := HoldImage(h, d, item);
      && Displayed(d.commands) <= Displayed(held.commands)
      && (forall k :: k in held.current && k in held.cache.placements ==> k in d.current && k in d.cache.placements)
      && (!ok ==> Key(h, item) !in held.cache.placements)
  {
    var held := HoldImage(h, d, item).0;
    assert d.commands <= held.commands;
    DisplayedAppend(d.commands, held.commands[|d.commands|..]);
    assert held.commands == d.commands + held.commands[|d.commands|..];
  }

  lemma ReleaseDisplaysNothing(d: Drawing, source: SourceKey, id: nat)
    ensures var r := Release(d, source, id);
      && Displayed(d.commands) <= Displayed(r.commands)
      && forall k :: k in r.current && k in r.cache.placements ==> k in d.current && k in d.cache.placements
  {
    var r := Release(d, source, id);
    DisplayedAppend(d.commands, r.commands[|d.commands|..]);
    assert r.commands == d.commands + r.commands[|d.commands|..];
  }

  lemma ShowDisplaysItem(h: Hashes, d: Drawing, item: Item)
    requires Visible(item)
    ensures Displayed(Show(h, d, item, true).commands) == Displayed(d.commands) + {Key(h, item)}
  {
    var display := Display(Key(h, item).0, Key(h, item).1, Geometry(item).value, item.image.z);
    DisplayedAppend(d.commands, [display]);
    assert Displayed([display]) == {Key(h, item)} by {
      assert display in [display];
    }
  }

  lemma DrawDisplaysItem(h: Hashes, d: Drawing, item: Item)
    requires Referential(d.cache) && AllDisplayed(d)
    ensures AllDisplayed(Draw(h, d, item, true))
  {
    if Visible(item) {
      var started := d.(current := d.current + {Key(h, item)});
      HoldingDisplaysNothing(h, started, item);
      var (held, ok) := HoldImage(h, started, item);
      if ok {
        var released := Release(held, item.source, HostId(h, item));
        ReleaseDisplaysNothing(held, item.source, HostId(h, item));
        ShowDisplaysItem(h, released, item);
      }
    }
  }

  lemma {:induction false} FrameIsDisplayed(h: Hashes, d: Drawing, frame: seq<Item>)
    requires Referential(d.cache) && AllDisplayed(d)
    ensures AllDisplayed(DrawAll(h, d, frame, true))
  {
    if frame != [] {
      var rest := frame[..|frame| - 1];
      FrameIsDisplayed(h, d, rest);
      DrawAllKeepsReferences(h, d, rest, true);
      DrawDisplaysItem(h, DrawAll(h, d, rest, true), frame[|frame| - 1]);
    }
  }

  lemma UpdateDisplaysAll(h: Hashes, before: Cache, frame: seq<Item>, after: Cache, commands: seq<Command>)
    requires Referential(before) && IsUpdate(h, before, frame, true, after, commands)
    ensures after.placements.Keys <= Displayed(commands)
  {
    var dead, stale :| UpdateInOrder(h, before, frame, true, after, commands, dead, stale);
    PruneKeepsReferences(before, frame);
    FrameIsDisplayed(h, Drawing(Prune(before, frame), {}, ImageDeletes(dead)), frame);
    DisplayedAppend(Drawn(h, before, frame, true, dead).commands, PlacementDeletes(stale));
  }

  /** When the view changed, it does not matter which placements the terminal still shows: an update
      brings a terminal that shows fewer of them, or others, to the one that shows them all. */
  lemma ChangedViewRedisplays(h: Hashes, before: Cache, frame: seq<Item>, after: Cache, commands: seq<Command>,
                              host: Host, blank: Host, lost: set<nat>)
    requires AgreesBut(h, host, before, lost) && Referential(before) && HonestFrame(h, frame)
    requires IsUpdate(h, before, frame, true, after, commands)
    requires blank.images == host.images && blank.transfer == host.transfer
    requires blank.placements.Keys <= host.placements.Keys
    ensures Run(blank, commands) == Run(host, commands)
  {
    assert Trails(blank, host, {});
    DisplaysCatchUp(blank, host, {}, commands);
    UpdateDisplaysAll(h, before, frame, after, commands);
    UpdateAgreesBut(h, host, before, frame, true, after, commands, lost);
    var a, b := Run(blank, commands), Run(host, commands);
    assert b.placements.Keys <= after.placements.Keys;
    assert a.placements == b.placements;
  }

  /** The terminal a cache describes, with these images. */
  lemma DescribedTerminal(h: Hashes, c: Cache, blank: Host) returns (host: Host)
    requires blank.transfer.None? && blank.images.Keys == c.images.Keys
    requires forall id :: id in c.images ==> ImageMatches(h, blank.images[id], c.images[id])
    ensures host.images == blank.images && host.transfer == blank.transfer && Agrees(h, host, c)
  {
    host := blank.(placements := map k | k in c.placements :: Shown(c.placements[k].clipped, c.placements[k].z));
  }

  /** In particular a terminal that kept the images but shows nothing of them any more shows, after
      an update for a changed view, exactly the frame, if and only if the frame is supplied. */
  lemma BlankedTerminalShowsFrame(h: Hashes, naming: nat -> ImageSignature, before: Cache, frame: seq<Item>,
                                  after: Cache, commands: seq<Command>, blank: Host)
    requires blank.transfer.None? && blank.images.Keys == before.images.Keys
    requires forall id :: id in before.images ==> ImageMatches(h, blank.images[id], before.images[id])
    requires blank.placements.Keys <= before.placements.Keys
    requires Referential(before) && Labelled(naming, before)
    requires Distinguished(h, naming, frame) && Consistent(h, frame)
    requires IsUpdate(h, before, frame, true, after, commands)
    ensures Run(blank, commands).placements == FromScratch(h, frame) <==> FullySupplied(h, before, frame)
  {
    var host := DescribedTerminal(h, before, blank);
    assert Remaining(before, {}) == before by {
      RemainingOneMore(before, {}, 0);
    }
    ChangedViewRedisplays(h, before, frame, after, commands, host, blank, {});
    CompleteExactlyWhenSupplied(h, naming, host, before, frame, true, after, commands);
  }

  // ----- silence -----

  /** What keeps a visible item from sending anything: it is shown as it should be already, or it
      has neither data nor a held image. */
  predicate NothingToSend(h: Hashes, c: Cache, item: Item, viewChanged: bool) {
    if HostId(h, item) in c.images then
      && c.images[HostId(h, item)] == Signature(item) && !viewChanged
      && Key(h, item) in c.placements && Visible(item)
      && c.placements[Key(h, item)] == PlacementSignature(Geometry(item).value, item.image.z, item.scrollbackOffset)
    else
      item.image.data == []
  }

  lemma CommandsOnlyGrow(h: Hashes, d: Drawing, item: Item, viewChanged: bool)
    ensures d.commands <= Draw(h, d, item, viewChanged).commands
  {}

  lemma SilentDraw(h: Hashes, d: Drawing, item: Item, viewChanged: bool)
    requires Draw(h, d, item, viewChanged).commands == d.commands && Visible(item)
    ensures var r := Draw(h, d, item, viewChanged);
      && NothingToSend(h, d.cache, item, viewChanged)
      && r.cache.images == d.cache.images && r.cache.placements == d.cache.placements
  {
    var started := d.(current := d.current + {Key(h, item)});
    var (held, ok) := HoldImage(h, started, item);
    UploadsSomething(h, item);
    assert d.commands <= held.commands;
    assert held.commands == d.commands;
    if ok {
      var released := Release(held, item.source, HostId(h, item));
      assert released.commands == d.commands;
    }
  }

  lemma UploadsSomething(h: Hashes, item: Item)
    ensures item.image.data != [] ==>
      UploadCommands(HostId(h, item), FormatCode(item.image.format), item.image.width, item.image.height,
                     item.image.data) != []
  {}

  lemma {:induction false} SilentFrame(h: Hashes, d: Drawing, frame: seq<Item>, viewChanged: bool)
    requires DrawAll(h, d, frame, viewChanged).commands == d.commands
    ensures var r := DrawAll(h, d, frame, viewChanged);
      r.cache.images == d.cache.images && r.cache.placements == d.cache.placements
    ensures forall item :: item in frame && Visible(item) ==> NothingToSend(h, d.cache, item, viewChanged)
  {
    if frame != [] {
      var rest, item := frame[..|frame| - 1], frame[|frame| - 1];
      var before := DrawAll(h, d, rest, viewChanged);
      FrameOnlyGrows(h, d, rest, viewChanged);
      CommandsOnlyGrow(h, before, item, viewChanged);
      assert before.commands == d.commands;
      SilentFrame(h, d, rest, viewChanged);
      if Visible(item) {
        SilentDraw(h, before, item, viewChanged);
      }
      assert forall x :: x in frame <==> x in rest || x == item by {
        assert frame == rest + [item];
      }
    }
  }

  lemma {:induction false} FrameOnlyGrows(h: Hashes, d: Drawing, frame: seq<Item>, viewChanged: bool)
    ensures d.commands <= DrawAll(h, d, frame, viewChanged).commands
  {
    if frame != [] {
      var rest := frame[..|frame| - 1];
      FrameOnlyGrows(h, d, rest, viewChanged);
      CommandsOnlyGrow(h, DrawAll(h, d, rest, viewChanged), frame[|frame| - 1], viewChanged);
    }
  }

  /** An update that sends nothing had nothing to send: no visible item differs from what is cached
      in image, clipped geometry, depth or scroll position, and the view is the same. */
  lemma SilentOnlyWhenUnchanged(h: Hashes, before: Cache, frame: seq<Item>, viewChanged: bool,
                                after: Cache, commands: seq<Command>)
    requires IsUpdate(h, before, frame, viewChanged, after, commands) && commands == []
    ensures after.images == before.images && after.placements == before.placements
    ensures forall item :: item in frame && Visible(item) ==> NothingToSend(h, before, item, viewChanged)
  {
    var dead, stale :| UpdateInOrder(h, before, frame, viewChanged, after, commands, dead, stale);
    var start := Drawing(Prune(before, frame), {}, ImageDeletes(dead));
    FrameOnlyGrows(h, start, frame, viewChanged);
    assert ImageDeletes(dead) == [] && PlacementDeletes(stale) == [];
    NoDeletes(dead, stale);
    assert DeadImages(before, frame) == {};
    RemainingOneMore(before, {}, 0);
    SilentFrame(h, start, frame, viewChanged);
    assert Stale(Drawn(h, before, frame, viewChanged, dead)) == {};
  }

  lemma NoDeletes(dead: seq<nat>, stale: seq<PlacementKey>)
    ensures ImageDeletes(dead) == [] <==> dead == []
    ensures PlacementDeletes(stale) == [] <==> stale == []
  {}

  // ----- what leaves the frame -----

  lemma DrawKeepsSources(h: Hashes, d: Drawing, item: Item, viewChanged: bool)
    ensures var r := Draw(h, d, item, viewChanged);
      && d.cache.sources.Keys <= r.cache.sources.Keys
      && (forall s :: s in r.cache.sources ==>
            (s in d.cache.sources && r.cache.sources[s] == d.cache.sources[s])
            || (Visible(item) && s == item.source && r.cache.sources[s] == HostId(h, item)))
      && (forall id :: id in r.cache.images ==> id in d.cache.images || (Visible(item) && id == HostId(h, item)))
  {
    if Visible(item) {
      var started := d.(current := d.current + {Key(h, item)});
      var (held, ok) := HoldImage(h, started, item);
      HoldingAddsImage(h, started, item);
      if ok {
        var released := Release(held, item.source, HostId(h, item));
        ReleasingSetsSource(held, item.source, HostId(h, item));
        ShowingOnlyPlaces(h, released, item, viewChanged);
        assert Draw(h, d, item, viewChanged) == Show(h, released, item, viewChanged);
      } else {
        assert Draw(h, d, item, viewChanged) == held;
      }
    }
  }

  lemma HoldingAddsImage(h: Hashes, d: Drawing, item: Item)
    ensures var held := HoldImage(h, d, item).0;
      held.cache.sources == d.cache.sources && held.cache.images.Keys <= d.cache.images.Keys + {HostId(h, item)}
  {}

  lemma ReleasingSetsSource(d: Drawing, source: SourceKey, id: nat)
    ensures var r := Release(d, source, id);
      r.cache.sources == d.cache.sources[source := id] && r.cache.images.Keys <= d.cache.images.Keys
  {}

  lemma {:induction false} FrameKeepsSources(h: Hashes, d: Drawing, frame: seq<Item>, viewChanged: bool)
    ensures var r := DrawAll(h, d, frame, viewChanged);
      && d.cache.sources.Keys <= r.cache.sources.Keys
      && (forall s :: s in r.cache.sources && s !in d.cache.sources ==>
            exists item :: item in frame && Visible(item) && item.source == s)
      && (forall id :: id in r.cache.images && id !in d.cache.images ==>
            exists item :: item in frame && Visible(item) && HostId(h, item) == id)
  {
    if frame != [] {
      var rest, item := frame[..|frame| - 1], frame[|frame| - 1];
      FrameKeepsSources(h, d, rest, viewChanged);
      DrawKeepsSources(h, DrawAll(h, d, rest, viewChanged), item, viewChanged);
      assert forall x :: x in frame <==> x in rest || x == item by {
        assert frame == rest + [item];
      }
    }
  }

  /** A source known before is known after an update exactly while the frame has it: a terminal's
      image even if it is scrolled out of sight, a pane layer only if it is visible. */
  lemma SourceStaysWithFrame(h: Hashes, before: Cache, frame: seq<Item>, viewChanged: bool,
                             after: Cache, commands: seq<Command>, s: SourceKey)
    requires IsUpdate(h, before, frame, viewChanged, after, commands) && s in before.sources
    ensures s in after.sources <==> exists item :: item in frame && item.source == s && (s.Terminal? || Visible(item))
  {
    var dead, stale :| UpdateInOrder(h, before, frame, viewChanged, after, commands, dead, stale);
    FrameKeepsSources(h, Drawing(Prune(before, frame), {}, ImageDeletes(dead)), frame, viewChanged);
    if item :| item in frame && item.source == s && (s.Terminal? || Visible(item)) {
      assert s in CurrentSources(frame);
    }
  }

  /** An image that only pane layers used is deleted, from the cache and, by the agreement results,
      from the terminal, as soon as none of them is visible and no visible item asks for it. */
  lemma UnusedLayerImageIsDeleted(h: Hashes, before: Cache, frame: seq<Item>, viewChanged: bool,
                                  after: Cache, commands: seq<Command>, id: nat)
    requires IsUpdate(h, before, frame, viewChanged, after, commands) && id in before.sources.Values
    requires forall s :: s in before.sources && before.sources[s] == id ==>
               s.PaneLayer? && forall item :: item in frame && Visible(item) ==> item.source != s
    requires forall item :: item in frame && Visible(item) ==> HostId(h, item) != id
    ensures id !in after.images && DeleteImage(id) in commands
  {
    var dead, stale :| UpdateInOrder(h, before, frame, viewChanged, after, commands, dead, stale);
    var s :| s in before.sources && before.sources[s] == id;
    assert s !in CurrentSources(frame) && id in RemovedLayerImages(before, frame);
    assert id !in PrunedSources(before, frame).Values;
    assert id in DeadImages(before, frame);
    var start := Drawing(Prune(before, frame), {}, ImageDeletes(dead));
    FrameKeepsSources(h, start, frame, viewChanged);
    DeletesListed(dead, id);
    FrameOnlyGrows(h, start, frame, viewChanged);
  }

  lemma {:induction false} DeletesListed(order: seq<nat>, id: nat)
    requires id in order
    ensures DeleteImage(id) in ImageDeletes(order)
  {
    if order[|order| - 1] != id {
      DeletesListed(order[..|order| - 1], id);
    }
  }

  // ----- identities -----

  /** Where the hashes do not collide, two placements share a key only if they are the same placement
      of the same image, and a pane layer never shares one with a terminal. */
  lemma KeysTellPlacementsApart(h: Hashes, a: Item, b: Item)
    requires forall x, y :: h.placementId(x) == h.placementId(y) ==> x == y
    requires forall p, q, x, y :: h.imageId(p, x) == h.imageId(q, y) ==> p == q && x == y
    ensures Key(h, a) == Key(h, b)
       <==> && a.paneId == b.paneId && Signature(a) == Signature(b)
            && a.source.PaneLayer? == b.source.PaneLayer? && a.source.paneId == b.source.paneId
            && a.image.imageId == b.image.imageId && a.image.placementId == b.image.placementId
  {
    assert h.imageId(a.paneId, Signature(a)) == HostId(h, a) && h.imageId(b.paneId, Signature(b)) == HostId(h, b);
  }
}
