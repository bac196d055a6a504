/** The cache that mirrors what the outer terminal holds, and the incremental update that keeps
    both in step (`encode_graphics_update` and `HostGraphicsCache`). The functions describe one
    update as a value; the class runs it on mutable maps. */
module KittyCache {
  import opened Machine
  import opened KittyClipping
  import opened KittyHost

  datatype SourceKey =
    | Terminal(paneId: nat, imageId: nat)
    | PaneLayer(paneId: nat)

  datatype ImageSignature = ImageSignature(
    width: U32, height: U32, formatCode: U32, dataLen: nat, fingerprint: nat)

  datatype PlacementSignature = PlacementSignature(clipped: Clipped, z: I32, scrollbackOffset: U32)

  datatype ImagePlacement = ImagePlacement(
    imageId: nat, placementId: nat, z: I32, xOffset: U32, yOffset: U32,
    width: U32, height: U32, format: ImageFormat,
    dataLen: nat, fingerprint: nat, data: seq<Byte>, render: RenderInfo)

  /** One image placement collected for a frame. */
  datatype Item = Item(
    paneId: nat, area: Rect, cell: CellSize, source: SourceKey,
    image: ImagePlacement, scrollbackOffset: U32)

  /** What the hash behind a host placement id is fed. */
  datatype PlacementIdentity = PlacementIdentity(paneLayer: bool, paneId: nat, imageId: nat, placementId: nat)

  /** The hash functions of the source, left uninterpreted. */
  datatype Hashes = Hashes(
    imageId: (nat, ImageSignature) -> nat,
    placementId: PlacementIdentity -> nat,
    fingerprint: seq<Byte> -> nat)

  datatype ViewKey = ViewKey(workspace: nat, tab: nat)

  datatype Cache = Cache(
    images: map<nat, ImageSignature>,
    placements: map<PlacementKey, PlacementSignature>,
    sources: map<SourceKey, nat>)

  const EMPTY_CACHE := Cache(map[], map[], map[])

  // ----- what an item asks for -----

  function Signature(item: Item): ImageSignature {
    ImageSignature(item.image.width, item.image.height, FormatCode(item.image.format),
                   item.image.dataLen, item.image.fingerprint)
  }

  function HostId(h: Hashes, item: Item): nat {
    h.imageId(item.paneId, Signature(item))
  }

  function HostPlacementId(h: Hashes, item: Item): nat {
    h.placementId(PlacementIdentity(item.source.PaneLayer?, item.source.paneId,
                                    item.image.imageId, item.image.placementId))
  }

  function Key(h: Hashes, item: Item): PlacementKey {
    (HostId(h, item), HostPlacementId(h, item))
  }

  function Geometry(item: Item): Option<Clipped> {
    Clip(item.area, item.cell, item.image.render, item.image.width, item.image.height,
         item.image.xOffset, item.image.yOffset)
  }

  predicate Visible(item: Item) {
    Geometry(item).Some?
  }

  function Placed(item: Item): PlacementSignature
    requires Visible(item)
  {
    PlacementSignature(Geometry(item).value, item.image.z, item.scrollbackOffset)
  }

  // ----- pruning -----

  function CurrentSources(frame: seq<Item>): set<SourceKey> {
    set item | item in frame && (item.source.Terminal? || Visible(item)) :: item.source
  }

  function PrunedSources(c: Cache, frame: seq<Item>): map<SourceKey, nat> {
    map s | s in c.sources && s in CurrentSources(frame) :: c.sources[s]
  }

  function RemovedLayerImages(c: Cache, frame: seq<Item>): set<nat> {
    set s | s in c.sources && s !in CurrentSources(frame) && s.PaneLayer? :: c.sources[s]
  }

  function DeadImages(c: Cache, frame: seq<Item>): set<nat> {
    RemovedLayerImages(c, frame) - PrunedSources(c, frame).Values
  }

  function WithoutImages(placements: map<PlacementKey, PlacementSignature>, ids: set<nat>)
    : map<PlacementKey, PlacementSignature>
  {
    map k | k in placements && k.0 !in ids :: placements[k]
  }

  function Prune(c: Cache, frame: seq<Item>): Cache {
    var dead := DeadImages(c, frame);
    Cache(c.images - dead, WithoutImages(c.placements, dead), PrunedSources(c, frame))
  }

  // ----- drawing one item -----

  /** The update under way: the cache, the placements that belong to this frame so far, and the
      commands sent so far. */
  datatype Drawing = Drawing(cache: Cache, current: set<PlacementKey>, commands: seq<Command>)

  /** Deletes the image and forgets its placements, in the cache and in the frame. */
  function Erase(d: Drawing, id: nat): Drawing {
    Drawing(
      d.cache.(placements := WithoutImage(d.cache.placements, id)),
      (set k | k in d.current && !(k.0 == id && k in d.cache.placements)),
      d.commands + [DeleteImage(id)])
  }

  predicate Cached(h: Hashes, c: Cache, item: Item) {
    HostId(h, item) in c.images && c.images[HostId(h, item)] == Signature(item)
  }

  /** Makes the terminal hold the item's image; the flag is false when that needed pixel data
      the item does not carry. */
  function HoldImage(h: Hashes, d: Drawing, item: Item): (Drawing, bool) {
    var id := HostId(h, item);
    if Cached(h, d.cache, item) then
      (d, true)
    else
      var e := if id in d.cache.images then Erase(d, id) else d;
      if item.image.data == [] then
        (e, false)
      else
        (Drawing(e.cache.(images := e.cache.images[id := Signature(item)]), e.current,
                 e.commands + UploadCommands(id, FormatCode(item.image.format),
                                             item.image.width, item.image.height, item.image.data)),
         true)
  }

  /** Points the source at `id` and deletes the image it used before, once no other source uses it. */
  function Release(d: Drawing, source: SourceKey, id: nat): Drawing {
    var sources := d.cache.sources[source := id];
    var pointed := d.(cache := d.cache.(sources := sources));
    if source !in d.cache.sources then
      pointed
    else
      var previous := d.cache.sources[source];
      if previous == id || previous in sources.Values then
        pointed
      else
        var e := Erase(pointed, previous);
        e.(cache := e.cache.(images := e.cache.images - {previous}))
  }

  function Show(h: Hashes, d: Drawing, item: Item, viewChanged: bool): Drawing
    requires Visible(item)
  {
    var key := Key(h, item);
    if key in d.cache.placements && !viewChanged && d.cache.placements[key] == Placed(item) then
      d
    else
      d.(cache := d.cache.(placements := d.cache.placements[key := Placed(item)]),
         commands := d.commands + [Display(key.0, key.1, Geometry(item).value, item.image.z)])
  }

  function Draw(h: Hashes, d: Drawing, item: Item, viewChanged: bool): Drawing {
    if !Visible(item) then
      d
    else
      var (held, ok) := HoldImage(h, d.(current := d.current + {Key(h, item)}), item);
      if !ok then held else Show(h, Release(held, item.source, HostId(h, item)), item, viewChanged)
  }

  function DrawAll(h: Hashes, d: Drawing, frame: seq<Item>, viewChanged: bool): Drawing {
    if frame == [] then
      d
    else
      Draw(h, DrawAll(h, d, frame[..|frame| - 1], viewChanged), frame[|frame| - 1], viewChanged)
  }

  // ----- the whole update -----

  /** `order` lists the elements of `s`, each once: an iteration over a hash set. */
  ghost predicate Enumerates<T(!new)>(order: seq<T>, s: set<T>) {
    && (forall x :: x in order <==> x in s)
    && forall i, j :: 0 <= i < j < |order| ==> order[i] != order[j]
  }

  function ImageDeletes(order: seq<nat>): seq<Command> {
    if order == [] then [] else ImageDeletes(order[..|order| - 1]) + [DeleteImage(order[|order| - 1])]
  }

  function PlacementDeletes(order: seq<PlacementKey>): seq<Command> {
    if order == [] then []
    else
      var k := order[|order| - 1];
      PlacementDeletes(order[..|order| - 1]) + [DeletePlacement(k.0, k.1)]
  }

  function Stale(d: Drawing): set<PlacementKey> {
    set k | k in d.cache.placements && k !in d.current
  }

  function Drawn(h: Hashes, before: Cache, frame: seq<Item>, viewChanged: bool, dead: seq<nat>): Drawing {
    DrawAll(h, Drawing(Prune(before, frame), {}, ImageDeletes(dead)), frame, viewChanged)
  }

  ghost predicate UpdateInOrder(h: Hashes, before: Cache, frame: seq<Item>, viewChanged: bool,
                                after: Cache, commands: seq<Command>, dead: seq<nat>, stale: seq<PlacementKey>) {
    var d := Drawn(h, before, frame, viewChanged, dead);
    && Enumerates(dead, DeadImages(before, frame))
    && Enumerates(stale, Stale(d))
    && after == d.cache.(placements := d.cache.placements - Stale(d))
    && commands == d.commands + PlacementDeletes(stale)
  }

  /** One update takes the cache from `before` to `after` and sends `commands`. Hash iteration
      leaves the order of two groups of deletes open. */
  ghost predicate IsUpdate(h: Hashes, before: Cache, frame: seq<Item>, viewChanged: bool,
                           after: Cache, commands: seq<Command>) {
    exists dead, stale :: UpdateInOrder(h, before, frame, viewChanged, after, commands, dead, stale)
  }

  /** Clearing deletes every cached image and forgets everything. */
  ghost predicate IsClear(before: Cache, after: Cache, commands: seq<Command>) {
    && after == EMPTY_CACHE
    && exists order :: Enumerates(order, before.images.Keys) && commands == ImageDeletes(order)
  }

  lemma EnumerationGrows<T(!new)>(order: seq<T>, s: set<T>, x: T)
    requires Enumerates(order, s) && x !in s
    ensures Enumerates(order + [x], s + {x})
  {}

  lemma OneMoreImageDelete(order: seq<nat>, id: nat)
    ensures ImageDeletes(order + [id]) == ImageDeletes(order) + [DeleteImage(id)]
  {
    assert (order + [id])[..|order|] == order;
  }

  lemma OneMorePlacementDelete(order: seq<PlacementKey>, k: PlacementKey)
    ensures PlacementDeletes(order + [k]) == PlacementDeletes(order) + [DeletePlacement(k.0, k.1)]
  {
    assert (order + [k])[..|order|] == order;
  }

  lemma OneMoreStale(commands: seq<Command>, order: seq<PlacementKey>, k: PlacementKey)
    ensures commands + PlacementDeletes(order) + [DeletePlacement(k.0, k.1)]
         == commands + PlacementDeletes(order + [k])
  {
    OneMorePlacementDelete(order, k);
  }

  lemma WithoutOneMore(placements: map<PlacementKey, PlacementSignature>, gone: set<nat>, id: nat)
    ensures WithoutImages(placements, {}) == placements
    ensures WithoutImage(WithoutImages(placements, gone), id) == WithoutImages(placements, gone + {id})
  {}

  lemma KeysDropOneMore<K, V>(m: map<K, V>, gone: set<K>, k: K)
    ensures m - {} == m
    ensures m - gone - {k} == m - (gone + {k})
  {}

  class HostGraphicsCache {
    var images: map<nat, ImageSignature>
    var placements: map<PlacementKey, PlacementSignature>
    var sources: map<SourceKey, nat>
    var view: Option<ViewKey>

    constructor ()
      ensures Contents() == EMPTY_CACHE && view == None
    {
      images, placements, sources, view := map[], map[], map[], None;
    }

    function Contents(): Cache
      reads this
    {
      Cache(images, placements, sources)
    }

    method UpdateView(viewKey: Option<ViewKey>) returns (changed: bool)
      modifies this`view
      ensures view == viewKey && changed == (old(view) != viewKey)
    {
      if view == viewKey {
        return false;
      }
      view := viewKey;
      return true;
    }

    method ClearBytes() returns (commands: seq<Command>)
      modifies this
      ensures IsClear(old(Contents()), Contents(), commands) && view == None
    {
      commands := [];
      var pending := images.Keys;
      ghost var order: seq<nat> := [];
      while pending != {}
        invariant pending <= images.Keys && Contents() == old(Contents())
        invariant Enumerates(order, images.Keys - pending) && commands == ImageDeletes(order)
      {
        var id :| id in pending;
        EnumerationGrows(order, images.Keys - pending, id);
        assert images.Keys - (pending - {id}) == images.Keys - pending + {id};
        OneMoreImageDelete(order, id);
        pending, order, commands := pending - {id}, order + [id], commands + [DeleteImage(id)];
      }
      assert images.Keys - pending == images.Keys;
      images, placements, sources, view := map[], map[], map[], None;
    }

    /** Drops the sources that left the frame, and the pane-layer images nothing refers to any more. */
    method PruneSources(frame: seq<Item>) returns (commands: seq<Command>, ghost dead: seq<nat>)
      modifies this`images, this`placements, this`sources
      ensures Contents() == Prune(old(Contents()), frame)
      ensures Enumerates(dead, DeadImages(old(Contents()), frame)) && commands == ImageDeletes(dead)
    {
      ghost var before := Contents();
      var current := CurrentSources(frame);
      var removed := set s | s in sources && s !in current && s.PaneLayer? :: sources[s];
      sources := map s | s in sources && s in current :: sources[s];
      assert removed == RemovedLayerImages(before, frame) && sources == PrunedSources(before, frame);
      commands, dead := DeleteUnreferenced(removed);
    }

    /** Deletes those of the given images that no source refers to. */
    method DeleteUnreferenced(removed: set<nat>) returns (commands: seq<Command>, ghost dead: seq<nat>)
      modifies this`images, this`placements
      ensures images == old(images) - (removed - sources.Values)
      ensures placements == WithoutImages(old(placements), removed - sources.Values)
      ensures Enumerates(dead, removed - sources.Values) && commands == ImageDeletes(dead)
    {
      commands, dead := [], [];
      var pending := removed;
      ghost var gone: set<nat> := {};
      WithoutOneMore(placements, {}, 0);
      KeysDropOneMore(images, {}, 0);
      while pending != {}
        invariant pending <= removed && gone == (removed - pending) - sources.Values
        invariant images == old(images) - gone
        invariant placements == WithoutImages(old(placements), gone)
        invariant Enumerates(dead, gone) && commands == ImageDeletes(dead)
      {
        var id :| id in pending;
        pending := pending - {id};
        if id in sources.Values {
          continue;
        }
        EnumerationGrows(dead, gone, id);
        WithoutOneMore(old(placements), gone, id);
        KeysDropOneMore(old(images), gone, id);
        OneMoreImageDelete(dead, id);
        commands, dead, gone := commands + [DeleteImage(id)], dead + [id], gone + {id};
        images := images - {id};
        placements := WithoutImage(placements, id);
      }
    }

    method ReleaseSupersededSourceImage(source: SourceKey, id: nat,
                                        current: set<PlacementKey>, commands: seq<Command>)
      returns (current': set<PlacementKey>, commands': seq<Command>)
      modifies this`images, this`placements, this`sources
      ensures Drawing(Contents(), current', commands')
           == Release(old(Drawing(Contents(), current, commands)), source, id)
    {
      current', commands' := current, commands;
      var known := source in sources;
      var previous := if known then sources[source] else id;
      sources := sources[source := id];
      if !known {
        return;
      }
      if previous == id || previous in sources.Values {
        return;
      }
      commands' := commands + [DeleteImage(previous)];
      images := images - {previous};
      current' := set k | k in current && !(k.0 == previous && k in placements);
      placements := WithoutImage(placements, previous);
    }

    /** One turn of the drawing loop. */
    method DrawItem(h: Hashes, item: Item, viewChanged: bool, current: set<PlacementKey>, commands: seq<Command>)
      returns (current': set<PlacementKey>, commands': seq<Command>)
      modifies this`images, this`placements, this`sources
      ensures Drawing(Contents(), current', commands')
           == Draw(h, old(Drawing(Contents(), current, commands)), item, viewChanged)
    {
      current', commands' := current, commands;
      if !Visible(item) {
        return;
      }
      ghost var d := Drawing(Contents(), current + {Key(h, item)}, commands);
      var key := Key(h, item);
      var id := key.0;
      current' := current' + {key};
      if !Cached(h, Contents(), item) {
        if id in images {
          commands' := commands' + [DeleteImage(id)];
          current' := set k | k in current' && !(k.0 == id && k in placements);
          placements := WithoutImage(placements, id);
        }
        if item.image.data == [] {
          return;
        }
        var upload := EncodeKittyData(id, FormatCode(item.image.format),
                                      item.image.width, item.image.height, item.image.data);
        commands' := commands' + upload;
        images := images[id := Signature(item)];
      }
      assert (Drawing(Contents(), current', commands'), true) == HoldImage(h, d, item);
      current', commands' := ReleaseSupersededSourceImage(item.source, id, current', commands');
      if !(key in placements && !viewChanged && placements[key] == Placed(item)) {
        commands' := commands' + [Display(key.0, key.1, Geometry(item).value, item.image.z)];
        placements := placements[key := Placed(item)];
      }
    }

    /** Deletes the placements that are not part of the frame. */
    method DeleteStalePlacements(current: set<PlacementKey>, commands: seq<Command>)
      returns (commands': seq<Command>, ghost stale: seq<PlacementKey>)
      modifies this`placements
      ensures var d := old(Drawing(Contents(), current, commands));
        && placements == old(placements) - Stale(d)
        && Enumerates(stale, Stale(d)) && commands' == commands + PlacementDeletes(stale)
    {
      commands', stale := commands, [];
      ghost var all := Stale(Drawing(Contents(), current, commands));
      var pending := set k | k in placements && k !in current;
      ghost var gone: set<PlacementKey> := {};
      KeysDropOneMore(placements, {}, (0, 0));
      while pending != {}
        invariant gone !! pending && gone + pending == all
        invariant placements == old(placements) - gone
        invariant Enumerates(stale, gone) && commands' == commands + PlacementDeletes(stale)
      {
        var k :| k in pending;
        EnumerationGrows(stale, gone, k);
        KeysDropOneMore(old(placements), gone, k);
        OneMoreStale(commands, stale, k);
        commands' := commands' + [DeletePlacement(k.0, k.1)];
        placements := placements - {k};
        pending, stale, gone := pending - {k}, stale + [k], gone + {k};
      }
    }

    /** The incremental update. */
    method EncodeGraphicsUpdate(h: Hashes, frame: seq<Item>, viewChanged: bool)
      returns (commands: seq<Command>)
      modifies this`images, this`placements, this`sources
      ensures IsUpdate(h, old(Contents()), frame, viewChanged, Contents(), commands)
    {
      ghost var before := Contents();
      ghost var dead, stale;
      commands, dead := PruneSources(frame);
      ghost var start := Drawing(Contents(), {}, commands);
      var current: set<PlacementKey> := {};
      for i := 0 to |frame|
        invariant Drawing(Contents(), current, commands) == DrawAll(h, start, frame[..i], viewChanged)
      {
        assert frame[..i + 1][..i] == frame[..i];
        current, commands := DrawItem(h, frame[i], viewChanged, current, commands);
      }
      assert frame[..|frame|] == frame;
      commands, stale := DeleteStalePlacements(current, commands);
      assert UpdateInOrder(h, before, frame, viewChanged, Contents(), commands, dead, stale);
    }

    /** One repaint: everything is cleared while the view cannot show graphics, and otherwise the
        frame is drawn, with a full redisplay when the view is another one. */
    method Paint(h: Hashes, ready: bool, viewKey: Option<ViewKey>, frame: seq<Item>)
      returns (commands: seq<Command>)
      modifies this
      ensures !ready ==> IsClear(old(Contents()), Contents(), commands) && view == None
      ensures ready ==>
        IsUpdate(h, old(Contents()), frame, old(view) != viewKey, Contents(), commands) && view == viewKey
    {
      if !ready {
        commands := ClearBytes();
        return;
      }
      var viewChanged := UpdateView(viewKey);
      commands := EncodeGraphicsUpdate(h, frame, viewChanged);
    }
  }
}
