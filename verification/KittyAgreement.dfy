/** The cache and the terminal agree, one command group at a time: what pruning, drawing one item,
    dropping stale placements and clearing do to both. */
module KittyAgreement {
  import opened Machine
  import opened KittyClipping
  import opened KittyHost
  import opened KittyCache

  ghost predicate ImageMatches(h: Hashes, image: HostImage, sig: ImageSignature) {
    sig == ImageSignature(image.width, image.height, image.formatCode, |image.data|, h.fingerprint(image.data))
  }

  /** The terminal holds the cached images and placements and no others. */
  ghost predicate Agrees(h: Hashes, host: Host, c: Cache) {
    && host.transfer.None?
    && host.images.Keys == c.images.Keys
    && host.placements.Keys == c.placements.Keys
    && (forall id :: id in c.images ==> ImageMatches(h, host.images[id], c.images[id]))
    && forall k :: k in c.placements ==> host.placements[k] == Shown(c.placements[k].clipped, c.placements[k].z)
  }

  /** Every source and every placement names a cached image. */
  ghost predicate Referential(c: Cache) {
    && (forall s :: s in c.sources ==> c.sources[s] in c.images)
    && forall k :: k in c.placements ==> k.0 in c.images
  }

  /** Pixel data, where present, is the data the signature describes. */
  ghost predicate Honest(h: Hashes, item: Item) {
    item.image.data == []
    || (|item.image.data| == item.image.dataLen && h.fingerprint(item.image.data) == item.image.fingerprint)
  }

  /** The item's id is taken by another image and the item has no data to replace it with. */
  predicate Starved(h: Hashes, c: Cache, item: Item) {
    && Visible(item)
    && HostId(h, item) in c.images
    && c.images[HostId(h, item)] != Signature(item)
    && item.image.data == []
  }

  /** The commands so far were all effective and brought the terminal to what the cache says. */
  ghost predicate InStep(h: Hashes, host: Host, d: Drawing) {
    && AllEffective(host, d.commands)
    && Agrees(h, Run(host, d.commands), d.cache)
    && Referential(d.cache)
  }

  lemma SendOne(host: Host, commands: seq<Command>, command: Command)
    ensures Run(host, commands + [command]) == Apply(Run(host, commands), command)
    ensures AllEffective(host, commands + [command])
        <==> AllEffective(host, commands) && Effective(Run(host, commands), command)
  {
    RunAppend(host, commands, [command]);
    RunOne(Run(host, commands), command);
  }

  // ----- references are kept whatever the hashes do -----

  lemma ReleaseKeepsReferences(d: Drawing, source: SourceKey, id: nat)
    requires Referential(d.cache) && id in d.cache.images
    ensures Referential(Release(d, source, id).cache)
    ensures id in Release(d, source, id).cache.images
  {
    var sources := d.cache.sources[source := id];
    forall s | s in sources
      ensures sources[s] in d.cache.images && sources[s] in sources.Values
    {}
  }

  lemma DrawKeepsReferences(h: Hashes, d: Drawing, item: Item, viewChanged: bool)
    requires Referential(d.cache)
    ensures Referential(Draw(h, d, item, viewChanged).cache)
  {
    if Visible(item) {
      var (held, ok) := HoldImage(h, d.(current := d.current + {Key(h, item)}), item);
      assert Referential(held.cache);
      if ok {
        ReleaseKeepsReferences(held, item.source, HostId(h, item));
      }
    }
  }

  lemma {:induction false} DrawAllKeepsReferences(h: Hashes, d: Drawing, frame: seq<Item>, viewChanged: bool)
    requires Referential(d.cache)
    ensures Referential(DrawAll(h, d, frame, viewChanged).cache)
  {
    if frame != [] {
      DrawAllKeepsReferences(h, d, frame[..|frame| - 1], viewChanged);
      DrawKeepsReferences(h, DrawAll(h, d, frame[..|frame| - 1], viewChanged), frame[|frame| - 1], viewChanged);
    }
  }

  lemma PruneKeepsReferences(c: Cache, frame: seq<Item>)
    requires Referential(c)
    ensures Referential(Prune(c, frame))
  {
    var kept := PrunedSources(c, frame);
    forall s | s in kept
      ensures kept[s] in kept.Values
    {}
  }

  /** No update, with or without hash collisions, leaves a dangling source or placement. */
  lemma UpdateKeepsReferences(h: Hashes, before: Cache, frame: seq<Item>, viewChanged: bool,
                              after: Cache, commands: seq<Command>)
    requires Referential(before) && IsUpdate(h, before, frame, viewChanged, after, commands)
    ensures Referential(after)
  {
    var dead, stale :| UpdateInOrder(h, before, frame, viewChanged, after, commands, dead, stale);
    PruneKeepsReferences(before, frame);
    DrawAllKeepsReferences(h, Drawing(Prune(before, frame), {}, ImageDeletes(dead)), frame, viewChanged);
  }

  // ----- one item -----

  lemma EraseLosesImage(h: Hashes, host: Host, d: Drawing, id: nat)
    requires InStep(h, host, d) && id in d.cache.images
    ensures var e := Erase(d, id);
      && AllEffective(host, e.commands)
      && Agrees(h, Run(host, e.commands), e.cache.(images := e.cache.images - {id}))
  {
    SendOne(host, d.commands, DeleteImage(id));
  }

  lemma UploadKeepsStep(h: Hashes, host: Host, commands: seq<Command>, c: Cache, item: Item)
    requires AllEffective(host, commands) && Agrees(h, Run(host, commands), c)
    requires HostId(h, item) !in c.images && (forall k :: k in c.placements ==> k.0 != HostId(h, item))
    requires Honest(h, item) && item.image.data != []
    ensures var all := commands + UploadCommands(HostId(h, item), FormatCode(item.image.format),
                                                 item.image.width, item.image.height, item.image.data);
      && AllEffective(host, all)
      && Agrees(h, Run(host, all), c.(images := c.images[HostId(h, item) := Signature(item)]))
  {
    var id, code := HostId(h, item), FormatCode(item.image.format);
    var upload := UploadCommands(id, code, item.image.width, item.image.height, item.image.data);
    RunAppend(host, commands, upload);
    UploadStoresImage(Run(host, commands), id, code, item.image.width, item.image.height, item.image.data);
  }

  lemma HoldingKeepsStep(h: Hashes, host: Host, d: Drawing, item: Item)
    requires InStep(h, host, d) && Honest(h, item) && Visible(item)
    ensures var (held, ok) := HoldImage(h, d, item);
      && AllEffective(host, held.commands)
      && (InStep(h, host, held) <==> !Starved(h, d.cache, item))
      && (ok ==> Cached(h, held.cache, item) && !Starved(h, d.cache, item))
  {
    var id := HostId(h, item);
    var (held, ok) := HoldImage(h, d, item);
    if !Cached(h, d.cache, item) {
      if id in d.cache.images {
        EraseLosesImage(h, host, d, id);
        var e := Erase(d, id);
        var lost := e.cache.(images := e.cache.images - {id});
        if ok {
          UploadKeepsStep(h, host, e.commands, lost, item);
          assert lost.images[id := Signature(item)] == held.cache.images;
        }
      } else if ok {
        UploadKeepsStep(h, host, d.commands, d.cache, item);
      }
    }
  }

  lemma ReleaseKeepsStep(h: Hashes, host: Host, d: Drawing, source: SourceKey, id: nat)
    requires InStep(h, host, d) && id in d.cache.images
    ensures InStep(h, host, Release(d, source, id))
    ensures id in Release(d, source, id).cache.images
  {
    ReleaseKeepsReferences(d, source, id);
    if source in d.cache.sources && d.cache.sources[source] != id {
      EraseLosesImage(h, host, d, d.cache.sources[source]);
    }
  }

  lemma ShowKeepsStep(h: Hashes, host: Host, d: Drawing, item: Item, viewChanged: bool)
    requires InStep(h, host, d) && Visible(item) && HostId(h, item) in d.cache.images
    ensures InStep(h, host, Show(h, d, item, viewChanged))
  {
    var key := Key(h, item);
    SendOne(host, d.commands, Display(key.0, key.1, Geometry(item).value, item.image.z));
  }

  /** Drawing one item keeps cache and terminal in step unless the item is starved. */
  lemma DrawKeepsStepUnlessStarved(h: Hashes, host: Host, d: Drawing, item: Item, viewChanged: bool)
    requires InStep(h, host, d) && (Visible(item) ==> Honest(h, item))
    ensures InStep(h, host, Draw(h, d, item, viewChanged)) <==> !Starved(h, d.cache, item)
  {
    if Visible(item) {
      var started := d.(current := d.current + {Key(h, item)});
      assert InStep(h, host, started);
      HoldingKeepsStep(h, host, started, item);
      var (held, ok) := HoldImage(h, started, item);
      if ok {
        ReleaseKeepsStep(h, host, held, item.source, HostId(h, item));
        ShowKeepsStep(h, host, Release(held, item.source, HostId(h, item)), item, viewChanged);
      }
    }
  }

  // ----- groups of deletes -----

  lemma {:induction false} ImageDeletesRun(h: Hashes, host: Host, c: Cache, order: seq<nat>)
    requires Agrees(h, host, c)
    requires forall id :: id in order ==> id in c.images
    requires forall i, j :: 0 <= i < j < |order| ==> order[i] != order[j]
    ensures AllEffective(host, ImageDeletes(order))
    ensures var ids := set id | id in order;
      Agrees(h, Run(host, ImageDeletes(order)),
             c.(images := c.images - ids, placements := WithoutImages(c.placements, ids)))
  {
    if order != [] {
      var rest, id := order[..|order| - 1], order[|order| - 1];
      ImageDeletesRun(h, host, c, rest);
      SendOne(host, ImageDeletes(rest), DeleteImage(id));
      assert forall x :: x in order <==> x in rest || x == id;
    }
  }

  lemma {:induction false} PlacementDeletesRun(h: Hashes, host: Host, c: Cache, order: seq<PlacementKey>)
    requires Agrees(h, host, c)
    requires forall k :: k in order ==> k in c.placements
    requires forall i, j :: 0 <= i < j < |order| ==> order[i] != order[j]
    ensures AllEffective(host, PlacementDeletes(order))
    ensures var keys := set k | k in order;
      Agrees(h, Run(host, PlacementDeletes(order)), c.(placements := c.placements - keys))
  {
    if order != [] {
      var rest, k := order[..|order| - 1], order[|order| - 1];
      PlacementDeletesRun(h, host, c, rest);
      SendOne(host, PlacementDeletes(rest), DeletePlacement(k.0, k.1));
      assert forall x :: x in order <==> x in rest || x == k;
    }
  }

  lemma PruneKeepsStep(h: Hashes, host: Host, before: Cache, frame: seq<Item>, dead: seq<nat>)
    requires Agrees(h, host, before) && Referential(before)
    requires Enumerates(dead, DeadImages(before, frame))
    ensures InStep(h, host, Drawing(Prune(before, frame), {}, ImageDeletes(dead)))
  {
    PruneKeepsReferences(before, frame);
    ImageDeletesRun(h, host, before, dead);
    assert (set id | id in dead) == DeadImages(before, frame);
  }

  lemma DropStaleKeepsStep(h: Hashes, host: Host, d: Drawing, stale: seq<PlacementKey>)
    requires InStep(h, host, d) && Enumerates(stale, Stale(d))
    ensures var commands := d.commands + PlacementDeletes(stale);
      var after := d.cache.(placements := d.cache.placements - Stale(d));
      && AllEffective(host, commands) && Agrees(h, Run(host, commands), after) && Referential(after)
  {
    PlacementDeletesRun(h, Run(host, d.commands), d.cache, stale);
    RunAppend(host, d.commands, PlacementDeletes(stale));
    assert (set k | k in stale) == Stale(d);
  }

  lemma ClearKeepsAgreement(h: Hashes, host: Host, before: Cache, after: Cache, commands: seq<Command>)
    requires Agrees(h, host, before) && Referential(before) && IsClear(before, after, commands)
    ensures AllEffective(host, commands) && Run(host, commands) == EMPTY_HOST
    ensures Agrees(h, Run(host, commands), after)
  {
    var order :| Enumerates(order, before.images.Keys) && commands == ImageDeletes(order);
    ImageDeletesRun(h, host, before, order);
    assert (set id | id in order) == before.images.Keys;
  }
}
