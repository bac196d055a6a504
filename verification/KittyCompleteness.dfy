/** Incremental drawing against drawing from scratch: exactly when the terminal ends an update
    showing the whole frame and nothing else, and that a complete frame is a fixpoint. */
module KittyCompleteness {
  import opened Machine
  import opened KittyClipping
  import opened KittyHost
  import opened KittyCache
  import opened KittyAgreement
  import opened KittyRuns

  /** What a terminal that draws every frame from nothing would show. */
  function FromScratch(h: Hashes, frame: seq<Item>): map<PlacementKey, Shown> {
    if frame == [] then
      map[]
    else
      var item := frame[|frame| - 1];
      var rest := FromScratch(h, frame[..|frame| - 1]);
      if Visible(item) then rest[Key(h, item) := Shown(Geometry(item).value, item.image.z)] else rest
  }

  /** Visible items have different placement keys. */
  ghost predicate DistinctKeys(h: Hashes, frame: seq<Item>) {
    forall i, j :: 0 <= i < j < |frame| && Visible(frame[i]) && Visible(frame[j]) ==>
      Key(h, frame[i]) != Key(h, frame[j])
  }

  /** Visible items have different placement keys, and one source shows one image. */
  ghost predicate Consistent(h: Hashes, frame: seq<Item>) {
    forall i, j :: 0 <= i < j < |frame| && Visible(frame[i]) && Visible(frame[j]) ==>
      && Key(h, frame[i]) != Key(h, frame[j])
      && (frame[i].source == frame[j].source ==> HostId(h, frame[i]) == HostId(h, frame[j]))
  }

  /** The source table once the visible items of `frame` have been drawn. */
  function SourcesAfter(h: Hashes, sources: map<SourceKey, nat>, frame: seq<Item>): map<SourceKey, nat> {
    if frame == [] then
      sources
    else
      var item := frame[|frame| - 1];
      var rest := SourcesAfter(h, sources, frame[..|frame| - 1]);
      if Visible(item) then rest[item.source := HostId(h, item)] else rest
  }

  /** The images held once the visible items before it have been drawn: those some source uses by
      then, and those no source used to begin with. */
  function HeldAfter(h: Hashes, c: Cache, frame: seq<Item>): set<nat> {
    SourcesAfter(h, c.sources, frame).Values + (c.images.Keys - c.sources.Values)
  }

  /** The item brings its pixel data, or finds its image still held when its turn comes. */
  predicate Supplied(h: Hashes, pruned: Cache, frame: seq<Item>, i: nat)
    requires i < |frame|
  {
    frame[i].image.data != [] || HostId(h, frame[i]) in HeldAfter(h, pruned, frame[..i])
  }

  predicate FullySupplied(h: Hashes, before: Cache, frame: seq<Item>) {
    forall i :: 0 <= i < |frame| && Visible(frame[i]) ==> Supplied(h, Prune(before, frame), frame, i)
  }

  /** The item is on screen and its source uses its image. */
  ghost predicate Stands(h: Hashes, d: Drawing, item: Item)
    requires Visible(item)
  {
    && Key(h, item) in d.current
    && Key(h, item) in d.cache.placements
    && d.cache.placements[Key(h, item)] == Placed(item)
    && item.source in d.cache.sources
    && d.cache.sources[item.source] == HostId(h, item)
  }

  /** The drawing loop after a prefix all of whose visible items were supplied. */
  ghost predicate DrawnInFull(h: Hashes, pruned: Cache, frame: seq<Item>, d: Drawing) {
    && d.cache.sources == SourcesAfter(h, pruned.sources, frame)
    && d.cache.images.Keys == HeldAfter(h, pruned, frame)
    && (forall j :: 0 <= j < |frame| && Visible(frame[j]) ==>
          Stands(h, d, frame[j]))
    && forall k :: k in d.current ==> InFrame(h, frame, k)
  }

  ghost predicate InFrame(h: Hashes, frame: seq<Item>, k: PlacementKey) {
    exists j :: 0 <= j < |frame| && Visible(frame[j]) && Key(h, frame[j]) == k
  }

  lemma InFrameGrows(h: Hashes, frame: seq<Item>, item: Item, k: PlacementKey)
    ensures InFrame(h, frame + [item], k) <==> InFrame(h, frame, k) || (Visible(item) && Key(h, item) == k)
  {
    var all := frame + [item];
    if InFrame(h, frame, k) {
      var j :| 0 <= j < |frame| && Visible(frame[j]) && Key(h, frame[j]) == k;
      assert all[j] == frame[j];
    }
    if Visible(item) && Key(h, item) == k {
      assert all[|frame|] == item;
    }
  }

  lemma ConsistentPrefix(h: Hashes, frame: seq<Item>, n: nat)
    requires Consistent(h, frame) && n <= |frame|
    ensures Consistent(h, frame[..n])
  {}

  /** The image this item's source stops using, if nothing else uses it. */
  predicate Supersedes(d: Drawing, source: SourceKey, id: nat) {
    source in d.cache.sources && d.cache.sources[source] !in d.cache.sources[source := id].Values
  }

  /** What drawing an item whose image is held or supplied does, whatever else the frame holds. */
  ghost predicate DrawsItem(h: Hashes, d: Drawing, item: Item, r: Drawing)
    requires Visible(item)
  {
    var id, key := HostId(h, item), Key(h, item);
    var lost := Supersedes(d, item.source, id);
    && r.cache.sources == d.cache.sources[item.source := id]
    && r.cache.images.Keys
       == (if lost then d.cache.images.Keys + {id} - {d.cache.sources[item.source]} else d.cache.images.Keys + {id})
    && key in r.current && key in r.cache.placements && r.cache.placements[key] == Placed(item)
    && (forall k :: k in r.current ==> k in d.current || k == key)
    && (forall k :: k in d.current && !(lost && k.0 == d.cache.sources[item.source]) ==> k in r.current)
    && forall k :: k in d.cache.placements && k != key && !(lost && k.0 == d.cache.sources[item.source])
         ==> k in r.cache.placements && r.cache.placements[k] == d.cache.placements[k]
  }

  lemma HoldingOnlyAdds(h: Hashes, naming: nat -> ImageSignature, d: Drawing, item: Item)
    requires Labelled(naming, d.cache) && naming(HostId(h, item)) == Signature(item)
    requires item.image.data != [] || HostId(h, item) in d.cache.images
    ensures var (held, ok) := HoldImage(h, d, item);
      && ok && held.cache.sources == d.cache.sources && held.cache.placements == d.cache.placements
      && held.current == d.current && held.cache.images.Keys == d.cache.images.Keys + {HostId(h, item)}
  {}

  lemma ReleasingOnlyDrops(d: Drawing, source: SourceKey, id: nat)
    ensures var r, lost := Release(d, source, id), Supersedes(d, source, id);
      && r.cache.sources == d.cache.sources[source := id]
      && r.cache.images.Keys
         == (if lost then d.cache.images.Keys - {d.cache.sources[source]} else d.cache.images.Keys)
      && (forall k :: k in r.current ==> k in d.current)
      && (forall k :: k in d.current && !(lost && k.0 == d.cache.sources[source]) ==> k in r.current)
      && forall k :: k in d.cache.placements && !(lost && k.0 == d.cache.sources[source])
           ==> k in r.cache.placements && r.cache.placements[k] == d.cache.placements[k]
  {
    var sources := d.cache.sources[source := id];
    assert sources[source] == id && id in sources.Values;
  }

  lemma ShowingOnlyPlaces(h: Hashes, d: Drawing, item: Item, viewChanged: bool)
    requires Visible(item)
    ensures var r := Show(h, d, item, viewChanged);
      && r.cache.sources == d.cache.sources && r.cache.images == d.cache.images && r.current == d.current
      && r.cache.placements == d.cache.placements[Key(h, item) := Placed(item)]
  {}

  /** The stages of drawing put together: `released` has dropped at most the superseded image. */
  lemma StagesDrawItem(h: Hashes, d: Drawing, item: Item, released: Drawing, r: Drawing)
    requires Visible(item)
    requires var id, lost := HostId(h, item), Supersedes(d, item.source, HostId(h, item));
      && released.cache.sources == d.cache.sources[item.source := id]
      && released.cache.images.Keys
         == (if lost then d.cache.images.Keys + {id} - {d.cache.sources[item.source]} else d.cache.images.Keys + {id})
      && (forall k :: k in released.current ==> k in d.current || k == Key(h, item))
      && (forall k :: (k in d.current || k == Key(h, item)) && !(lost && k.0 == d.cache.sources[item.source])
                      ==> k in released.current)
      && forall k :: k in d.cache.placements && !(lost && k.0 == d.cache.sources[item.source])
           ==> k in released.cache.placements && released.cache.placements[k] == d.cache.placements[k]
    requires r.cache.sources == released.cache.sources && r.cache.images == released.cache.images
    requires r.current == released.current
    requires r.cache.placements == released.cache.placements[Key(h, item) := Placed(item)]
    ensures DrawsItem(h, d, item, r)
  {
    var id, sources := HostId(h, item), d.cache.sources[item.source := HostId(h, item)];
    assert sources[item.source] == id && id in sources.Values;
    assert Key(h, item) in released.current;
  }

  lemma DrawDrawsItem(h: Hashes, naming: nat -> ImageSignature, d: Drawing, item: Item, viewChanged: bool)
    requires Visible(item) && Labelled(naming, d.cache) && naming(HostId(h, item)) == Signature(item)
    requires item.image.data != [] || HostId(h, item) in d.cache.images
    ensures DrawsItem(h, d, item, Draw(h, d, item, viewChanged))
  {
    var id := HostId(h, item);
    var started := d.(current := d.current + {Key(h, item)});
    HoldingOnlyAdds(h, naming, started, item);
    var held := HoldImage(h, started, item).0;
    var released := Release(held, item.source, id);
    ReleasingOnlyDrops(held, item.source, id);
    ShowingOnlyPlaces(h, released, item, viewChanged);
    StagesDrawItem(h, d, item, released, Show(h, released, item, viewChanged));
  }

  lemma EarlierStands(h: Hashes, earlier: Item, item: Item, d: Drawing, r: Drawing)
    requires Visible(earlier) && Visible(item) && Stands(h, d, earlier) && DrawsItem(h, d, item, r)
    requires Key(h, earlier) != Key(h, item)
    requires earlier.source == item.source ==> HostId(h, earlier) == HostId(h, item)
    ensures Stands(h, r, earlier)
  {
    assert r.cache.sources[earlier.source] == HostId(h, earlier);
    assert HostId(h, earlier) in r.cache.sources.Values;
  }

  /** The release of a superseded image takes exactly the images that leave `HeldAfter`, and no
      placement of the frame so far. */
  lemma DrawOneMore(h: Hashes, pruned: Cache, frame: seq<Item>, item: Item, d: Drawing, r: Drawing)
    requires DrawnInFull(h, pruned, frame, d) && Referential(pruned)
    requires Consistent(h, frame + [item]) && Visible(item) && DrawsItem(h, d, item, r)
    ensures DrawnInFull(h, pruned, frame + [item], r)
  {
    var all, id := frame + [item], HostId(h, item);
    assert all[..|frame|] == frame && all[|frame|] == item;
    ReleasedAreUnused(h, pruned, frame, item, d);
    assert r.cache.sources == SourcesAfter(h, pruned.sources, all);
    forall j | 0 <= j < |all| && Visible(all[j])
      ensures Stands(h, r, all[j])
    {
      if j < |frame| {
        assert all[j] == frame[j] && Key(h, all[j]) != Key(h, all[|frame|]);
        EarlierStands(h, frame[j], item, d, r);
      }
    }
    forall k | k in r.current ensures InFrame(h, all, k) {
      InFrameGrows(h, frame, item, k);
    }
  }

  lemma ReleasedAreUnused(h: Hashes, pruned: Cache, frame: seq<Item>, item: Item, d: Drawing)
    requires DrawnInFull(h, pruned, frame, d) && Referential(pruned)
    requires Consistent(h, frame + [item]) && Visible(item)
    ensures var id := HostId(h, item);
      var sources := d.cache.sources[item.source := id];
      var kept := sources.Values + (pruned.images.Keys - pruned.sources.Values);
      if Supersedes(d, item.source, id)
      then d.cache.images.Keys + {id} - {d.cache.sources[item.source]} == kept
      else d.cache.images.Keys + {id} == kept
  {
    var id := HostId(h, item);
    var sources := d.cache.sources[item.source := id];
    assert sources[item.source] == id;
    assert id in sources.Values;
    forall x | x in d.cache.sources.Values && (item.source !in d.cache.sources || x != d.cache.sources[item.source])
      ensures x in sources.Values
    {
      var s :| s in d.cache.sources && d.cache.sources[s] == x;
      assert s != item.source && sources[s] == x;
    }
    if Supersedes(d, item.source, id) {
      SourceOrigin(h, pruned.sources, frame, item.source);
      assert d.cache.sources[item.source] in pruned.sources.Values by {
        if j :| 0 <= j < |frame| && Visible(frame[j]) && frame[j].source == item.source
                && d.cache.sources[item.source] == HostId(h, frame[j]) {
          assert (frame + [item])[j] == frame[j] && (frame + [item])[|frame|] == item;
        }
      }
    }
  }

  /** A source points at the image of some visible item of the frame, or where the frame found it. */
  lemma {:induction false} SourceOrigin(h: Hashes, sources: map<SourceKey, nat>, frame: seq<Item>, s: SourceKey)
    requires s in SourcesAfter(h, sources, frame)
    ensures (s in sources && SourcesAfter(h, sources, frame)[s] == sources[s])
         || exists j :: 0 <= j < |frame| && Visible(frame[j]) && frame[j].source == s
                        && SourcesAfter(h, sources, frame)[s] == HostId(h, frame[j])
  {
    if frame != [] {
      var rest, last := frame[..|frame| - 1], frame[|frame| - 1];
      if !(Visible(last) && last.source == s) {
        SourceOrigin(h, sources, rest, s);
        if j :| 0 <= j < |rest| && Visible(rest[j]) && rest[j].source == s
                && SourcesAfter(h, sources, rest)[s] == HostId(h, rest[j]) {
          assert frame[j] == rest[j];
        }
      }
    }
  }

  lemma {:induction false} DrawAllInFull(h: Hashes, naming: nat -> ImageSignature, pruned: Cache, start: seq<Command>,
                                         frame: seq<Item>, viewChanged: bool)
    requires Referential(pruned) && Labelled(naming, pruned) && Distinguished(h, naming, frame)
    requires Consistent(h, frame)
    requires forall i :: 0 <= i < |frame| && Visible(frame[i]) ==> Supplied(h, pruned, frame, i)
    ensures var d := DrawAll(h, Drawing(pruned, {}, start), frame, viewChanged);
      DrawnInFull(h, pruned, frame, d) && Labelled(naming, d.cache)
  {
    if frame == [] {
      assert pruned.images.Keys == HeldAfter(h, pruned, []) by {
        forall id | id in pruned.sources.Values ensures id in pruned.images {}
      }
    } else {
      var rest, item := frame[..|frame| - 1], frame[|frame| - 1];
      assert frame == rest + [item];
      ConsistentPrefix(h, frame, |rest|);
      SuppliedPrefix(h, pruned, frame, |rest|);
      DrawAllInFull(h, naming, pruned, start, rest, viewChanged);
      var d := DrawAll(h, Drawing(pruned, {}, start), rest, viewChanged);
      DrawKeepsLabels(h, naming, d, item, viewChanged);
      if Visible(item) {
        assert Supplied(h, pruned, frame, |rest|);
        DrawDrawsItem(h, naming, d, item, viewChanged);
        DrawOneMore(h, pruned, rest, item, d, Draw(h, d, item, viewChanged));
      } else {
        InvisibleChangesNothing(h, pruned, rest, item, d);
      }
    }
  }

  lemma InvisibleChangesNothing(h: Hashes, pruned: Cache, frame: seq<Item>, item: Item, d: Drawing)
    requires DrawnInFull(h, pruned, frame, d) && !Visible(item)
    ensures DrawnInFull(h, pruned, frame + [item], d)
  {
    var all := frame + [item];
    assert all[..|frame|] == frame && all[|frame|] == item;
    forall k | k in d.current ensures InFrame(h, all, k) {
      InFrameGrows(h, frame, item, k);
    }
    assert forall j :: 0 <= j < |frame| ==> all[j] == frame[j];
  }

  lemma {:induction false} FromScratchKeys(h: Hashes, frame: seq<Item>)
    ensures forall k :: k in FromScratch(h, frame) <==> InFrame(h, frame, k)
  {
    if frame != [] {
      var rest, item := frame[..|frame| - 1], frame[|frame| - 1];
      assert frame == rest + [item];
      FromScratchKeys(h, rest);
      forall k ensures k in FromScratch(h, frame) <==> InFrame(h, frame, k) {
        InFrameGrows(h, rest, item, k);
      }
    }
  }

  lemma {:induction false} FromScratchItem(h: Hashes, frame: seq<Item>, j: nat)
    requires DistinctKeys(h, frame) && j < |frame| && Visible(frame[j])
    ensures Key(h, frame[j]) in FromScratch(h, frame)
    ensures FromScratch(h, frame)[Key(h, frame[j])] == Shown(Geometry(frame[j]).value, frame[j].image.z)
  {
    var rest := frame[..|frame| - 1];
    if j < |rest| {
      assert rest[j] == frame[j];
      FromScratchItem(h, rest, j);
    }
  }

  lemma FromScratchLookup(h: Hashes, frame: seq<Item>)
    requires DistinctKeys(h, frame)
    ensures forall k :: k in FromScratch(h, frame) <==> InFrame(h, frame, k)
    ensures forall j :: 0 <= j < |frame| && Visible(frame[j]) ==>
      && Key(h, frame[j]) in FromScratch(h, frame)
      && FromScratch(h, frame)[Key(h, frame[j])] == Shown(Geometry(frame[j]).value, frame[j].image.z)
  {
    FromScratchKeys(h, frame);
    forall j | 0 <= j < |frame| && Visible(frame[j])
      ensures Key(h, frame[j]) in FromScratch(h, frame)
      ensures FromScratch(h, frame)[Key(h, frame[j])] == Shown(Geometry(frame[j]).value, frame[j].image.z)
    {
      FromScratchItem(h, frame, j);
    }
  }

  // ----- a frame is complete exactly when every visible item is supplied -----

  lemma DrawAddsOnlyItsKey(h: Hashes, d: Drawing, item: Item, viewChanged: bool, k: PlacementKey)
    requires k !in d.cache.placements && (Visible(item) ==> k != Key(h, item))
    ensures k !in Draw(h, d, item, viewChanged).cache.placements
  {}

  lemma UnsuppliedIsSkipped(h: Hashes, pruned: Cache, frame: seq<Item>, d: Drawing, item: Item, viewChanged: bool)
    requires DrawnInFull(h, pruned, frame, d) && Referential(d.cache) && Visible(item)
    requires item.image.data == [] && HostId(h, item) !in HeldAfter(h, pruned, frame)
    ensures Key(h, item) !in Draw(h, d, item, viewChanged).cache.placements
  {
    assert HostId(h, item) !in d.cache.images;
    assert Key(h, item) !in d.cache.placements;
  }

  lemma SuppliedPrefix(h: Hashes, pruned: Cache, frame: seq<Item>, n: nat)
    requires n <= |frame|
    ensures forall i :: 0 <= i < n ==> Supplied(h, pruned, frame[..n], i) == Supplied(h, pruned, frame, i)
  {
    forall i | 0 <= i < n ensures Supplied(h, pruned, frame[..n], i) == Supplied(h, pruned, frame, i) {
      assert frame[..n][..i] == frame[..i];
    }
  }

  /** Once a placement is missing after its item's turn, it is missing for the rest of the frame. */
  lemma {:induction false} MissingStaysMissing(h: Hashes, d: Drawing, frame: seq<Item>, viewChanged: bool,
                                               i: nat, k: PlacementKey)
    requires i < |frame| && forall j :: i < j < |frame| && Visible(frame[j]) ==> Key(h, frame[j]) != k
    requires k !in DrawAll(h, d, frame[..i + 1], viewChanged).cache.placements
    ensures k !in DrawAll(h, d, frame, viewChanged).cache.placements
  {
    var n := |frame| - 1;
    var rest := frame[..n];
    if i < n {
      assert rest[..i + 1] == frame[..i + 1];
      MissingStaysMissing(h, d, rest, viewChanged, i, k);
      DrawAddsOnlyItsKey(h, DrawAll(h, d, rest, viewChanged), frame[n], viewChanged, k);
    } else {
      assert frame[..i + 1] == frame;
    }
  }

  lemma FirstUnsuppliedIsMissing(h: Hashes, naming: nat -> ImageSignature, pruned: Cache, start: seq<Command>,
                                 frame: seq<Item>, viewChanged: bool, i: nat)
    requires Referential(pruned) && Labelled(naming, pruned) && Distinguished(h, naming, frame)
    requires Consistent(h, frame)
    requires i < |frame| && Visible(frame[i]) && !Supplied(h, pruned, frame, i)
    requires forall j :: 0 <= j < i && Visible(frame[j]) ==> Supplied(h, pruned, frame, j)
    ensures Key(h, frame[i]) !in DrawAll(h, Drawing(pruned, {}, start), frame[..i + 1], viewChanged).cache.placements
  {
    var rest := frame[..i];
    ConsistentPrefix(h, frame, i);
    SuppliedPrefix(h, pruned, frame, i);
    DrawAllInFull(h, naming, pruned, start, rest, viewChanged);
    DrawAllKeepsReferences(h, Drawing(pruned, {}, start), rest, viewChanged);
    UnsuppliedIsSkipped(h, pruned, rest, DrawAll(h, Drawing(pruned, {}, start), rest, viewChanged),
                        frame[i], viewChanged);
    assert frame[..i + 1][..i] == rest;
  }

  lemma FirstUnsupplied(h: Hashes, pruned: Cache, frame: seq<Item>, n: nat) returns (i: nat)
    requires n < |frame| && Visible(frame[n]) && !Supplied(h, pruned, frame, n)
    ensures i <= n && Visible(frame[i]) && !Supplied(h, pruned, frame, i)
    ensures forall j :: 0 <= j < i && Visible(frame[j]) ==> Supplied(h, pruned, frame, j)
  {
    i := n;
    if m :| 0 <= m < n && Visible(frame[m]) && !Supplied(h, pruned, frame, m) {
      i := FirstUnsupplied(h, pruned, frame, m);
    }
  }

  /** An update with an unsupplied item misses the first such item's placement. */
  lemma UnsuppliedFrameMisses(h: Hashes, naming: nat -> ImageSignature, pruned: Cache,
                              start: seq<Command>, frame: seq<Item>, viewChanged: bool, n: nat)
    returns (missed: nat)
    requires Referential(pruned) && Labelled(naming, pruned) && Distinguished(h, naming, frame)
    requires Consistent(h, frame)
    requires n < |frame| && Visible(frame[n]) && !Supplied(h, pruned, frame, n)
    ensures missed < |frame| && Visible(frame[missed])
    ensures Key(h, frame[missed]) !in DrawAll(h, Drawing(pruned, {}, start), frame, viewChanged).cache.placements
  {
    missed := FirstUnsupplied(h, pruned, frame, n);
    FirstUnsuppliedIsMissing(h, naming, pruned, start, frame, viewChanged, missed);
    MissingStaysMissing(h, Drawing(pruned, {}, start), frame, viewChanged, missed, Key(h, frame[missed]));
  }

  lemma InFullItem(h: Hashes, pruned: Cache, frame: seq<Item>, d: Drawing, k: PlacementKey)
    requires DrawnInFull(h, pruned, frame, d) && DistinctKeys(h, frame)
    ensures k in d.cache.placements && k in d.current <==> k in FromScratch(h, frame)
    ensures k in FromScratch(h, frame) ==>
              FromScratch(h, frame)[k] == Shown(d.cache.placements[k].clipped, d.cache.placements[k].z)
  {
    FromScratchLookup(h, frame);
    if InFrame(h, frame, k) {
      var j :| 0 <= j < |frame| && Visible(frame[j]) && Key(h, frame[j]) == k;
      assert Stands(h, d, frame[j]);
    }
  }

  lemma {:induction false} InFullIsFromScratch(h: Hashes, pruned: Cache, frame: seq<Item>, d: Drawing,
                                               shown: map<PlacementKey, Shown>)
    requires DrawnInFull(h, pruned, frame, d) && DistinctKeys(h, frame)
    requires forall k :: k in shown <==> k in d.cache.placements && k in d.current
    requires forall k :: k in shown ==> shown[k] == Shown(d.cache.placements[k].clipped, d.cache.placements[k].z)
    ensures shown == FromScratch(h, frame)
  {
    forall k ensures k in shown <==> k in FromScratch(h, frame) {
      InFullItem(h, pruned, frame, d, k);
    }
    forall k | k in shown ensures shown[k] == FromScratch(h, frame)[k] {
      InFullItem(h, pruned, frame, d, k);
    }
  }

  /** The terminal shows exactly the frame, as if drawn from scratch, if and only if every visible
      item brings its data or finds its image still held. */
  lemma CompleteExactlyWhenSupplied(h: Hashes, naming: nat -> ImageSignature, host: Host, before: Cache,
                                    frame: seq<Item>, viewChanged: bool, after: Cache, commands: seq<Command>)
    requires Agrees(h, host, before) && Referential(before) && Labelled(naming, before)
    requires Distinguished(h, naming, frame) && Consistent(h, frame)
    requires IsUpdate(h, before, frame, viewChanged, after, commands)
    ensures Run(host, commands).placements == FromScratch(h, frame) <==> FullySupplied(h, before, frame)
  {
    var dead, stale :| UpdateInOrder(h, before, frame, viewChanged, after, commands, dead, stale);
    var pruned := Prune(before, frame);
    PruneKeepsReferences(before, frame);
    UpdateKeepsAgreement(h, naming, host, before, frame, viewChanged, after, commands);
    var d := Drawn(h, before, frame, viewChanged, dead);
    if FullySupplied(h, before, frame) {
      DrawAllInFull(h, naming, pruned, ImageDeletes(dead), frame, viewChanged);
      InFullIsFromScratch(h, pruned, frame, d, Run(host, commands).placements);
    } else {
      var n :| 0 <= n < |frame| && Visible(frame[n]) && !Supplied(h, pruned, frame, n);
      var missed := UnsuppliedFrameMisses(h, naming, pruned, ImageDeletes(dead), frame, viewChanged, n);
      FromScratchLookup(h, frame);
      assert Key(h, frame[missed]) in FromScratch(h, frame);
      assert Key(h, frame[missed]) !in after.placements;
    }
  }

  /** In particular a frame whose visible items all carry their data is always complete. */
  lemma CompleteWithData(h: Hashes, naming: nat -> ImageSignature, host: Host, before: Cache,
                         frame: seq<Item>, viewChanged: bool, after: Cache, commands: seq<Command>)
    requires Agrees(h, host, before) && Referential(before) && Labelled(naming, before)
    requires Distinguished(h, naming, frame) && Consistent(h, frame)
    requires IsUpdate(h, before, frame, viewChanged, after, commands)
    requires forall item :: item in frame && Visible(item) ==> item.image.data != []
    ensures Run(host, commands).placements == FromScratch(h, frame)
  {
    CompleteExactlyWhenSupplied(h, naming, host, before, frame, viewChanged, after, commands);
  }

  /** The same after any run from an empty cache and an empty terminal. */
  lemma ReachableFrameCompleteExactlyWhenSupplied(
    h: Hashes, naming: nat -> ImageSignature, steps: seq<Step>, frame: seq<Item>, viewChanged: bool,
    after: Cache, commands: seq<Command>)
    requires IsRun(h, EMPTY_CACHE, steps) && DistinguishedRun(h, naming, steps)
    requires Distinguished(h, naming, frame) && Consistent(h, frame)
    requires IsUpdate(h, FinalCache(EMPTY_CACHE, steps), frame, viewChanged, after, commands)
    ensures Run(EMPTY_HOST, AllCommands(steps) + commands).placements == FromScratch(h, frame)
       <==> FullySupplied(h, FinalCache(EMPTY_CACHE, steps), frame)
  {
    RunKeepsAgreement(h, naming, EMPTY_HOST, EMPTY_CACHE, steps);
    RunAppend(EMPTY_HOST, AllCommands(steps), commands);
    CompleteExactlyWhenSupplied(h, naming, Run(EMPTY_HOST, AllCommands(steps)), FinalCache(EMPTY_CACHE, steps),
                                frame, viewChanged, after, commands);
  }

  // ----- the data filter -----

  /** Data is left out only for images the cache already has, as the collecting pass does. */
  predicate Filtered(h: Hashes, before: Cache, frame: seq<Item>) {
    forall item :: item in frame && Visible(item) && item.image.data == [] ==> Cached(h, before, item)
  }

  /** No source leaves the frame and no visible source changes its image. */
  predicate SteadySources(h: Hashes, before: Cache, frame: seq<Item>) {
    && before.sources.Keys <= CurrentSources(frame)
    && forall item :: item in frame && Visible(item) && item.source in before.sources
         ==> before.sources[item.source] == HostId(h, item)
  }

  lemma {:induction false} SteadySourcesStay(h: Hashes, sources: map<SourceKey, nat>, frame: seq<Item>, s: SourceKey)
    requires s in sources
    requires forall item :: item in frame && Visible(item) && item.source in sources
               ==> sources[item.source] == HostId(h, item)
    ensures s in SourcesAfter(h, sources, frame) && SourcesAfter(h, sources, frame)[s] == sources[s]
  {
    if frame != [] {
      SteadySourcesStay(h, sources, frame[..|frame| - 1], s);
      assert frame[|frame| - 1] in frame;
    }
  }

  /** The data filter is safe as long as no source leaves the frame or changes its image. */
  lemma FilteredFrameIsSupplied(h: Hashes, before: Cache, frame: seq<Item>)
    requires Filtered(h, before, frame) && SteadySources(h, before, frame)
    ensures FullySupplied(h, before, frame)
  {
    PrunesNothing(before, frame);
    forall i | 0 <= i < |frame| && Visible(frame[i]) && frame[i].image.data == []
      ensures HostId(h, frame[i]) in HeldAfter(h, before, frame[..i])
    {
      assert frame[i] in frame;
      assert forall item :: item in frame[..i] ==> item in frame;
      StillHeld(h, before, frame[..i], HostId(h, frame[i]));
    }
  }

  lemma PrunesNothing(c: Cache, frame: seq<Item>)
    requires c.sources.Keys <= CurrentSources(frame)
    ensures DeadImages(c, frame) == {} && Prune(c, frame) == c
  {
    assert RemovedLayerImages(c, frame) == {};
    assert PrunedSources(c, frame) == c.sources;
  }

  lemma StillHeld(h: Hashes, before: Cache, frame: seq<Item>, id: nat)
    requires id in before.images
    requires forall item :: item in frame && Visible(item) && item.source in before.sources
               ==> before.sources[item.source] == HostId(h, item)
    ensures id in HeldAfter(h, before, frame)
  {
    if id in before.sources.Values {
      var s :| s in before.sources && before.sources[s] == id;
      SteadySourcesStay(h, before.sources, frame, s);
    }
  }

  // ----- fixpoint -----

  /** The second frame repeats the first, except that pixel data may be left out or added. */
  ghost predicate Repeats(frame: seq<Item>, again: seq<Item>) {
    && |frame| == |again|
    && forall i :: 0 <= i < |frame| ==>
         again[i] == frame[i].(image := frame[i].image.(data := again[i].image.data))
  }

  /** Everything a settled cache says about one item. */
  ghost predicate SettledFor(h: Hashes, c: Cache, item: Item) {
    Visible(item) ==>
      && Cached(h, c, item)
      && item.source in c.sources && c.sources[item.source] == HostId(h, item)
      && Key(h, item) in c.placements && c.placements[Key(h, item)] == Placed(item)
  }

  /** The cache is what a completely drawn frame leaves behind. */
  ghost predicate Settled(h: Hashes, frame: seq<Item>, c: Cache) {
    && c.sources.Keys <= CurrentSources(frame)
    && (forall k :: k in c.placements ==> InFrame(h, frame, k))
    && forall item :: item in frame ==> SettledFor(h, c, item)
  }

  lemma CompleteFrameSettles(h: Hashes, naming: nat -> ImageSignature, before: Cache, frame: seq<Item>,
                             viewChanged: bool, after: Cache, commands: seq<Command>)
    requires Referential(before) && Labelled(naming, before)
    requires Distinguished(h, naming, frame) && Consistent(h, frame) && FullySupplied(h, before, frame)
    requires IsUpdate(h, before, frame, viewChanged, after, commands)
    ensures Settled(h, frame, after)
  {
    var dead, stale :| UpdateInOrder(h, before, frame, viewChanged, after, commands, dead, stale);
    var pruned := Prune(before, frame);
    PruneKeepsReferences(before, frame);
    DrawAllInFull(h, naming, pruned, ImageDeletes(dead), frame, viewChanged);
    forall s | s in after.sources ensures s in CurrentSources(frame) {
      SourceOrigin(h, pruned.sources, frame, s);
      if j :| 0 <= j < |frame| && Visible(frame[j]) && frame[j].source == s {
        assert frame[j] in frame;
      }
    }
    forall item | item in frame ensures SettledFor(h, after, item) {
      var j :| 0 <= j < |frame| && frame[j] == item;
      if Visible(item) {
        assert after.sources[item.source] in after.sources.Values;
      }
    }
  }

  lemma {:induction false} SettledDrawsNothing(h: Hashes, c: Cache, frame: seq<Item>)
    requires forall item :: item in frame ==> SettledFor(h, c, item)
    ensures var d := DrawAll(h, Drawing(c, {}, []), frame, false);
      d.cache == c && d.commands == [] && forall k :: k in d.current <==> InFrame(h, frame, k)
  {
    if frame != [] {
      var rest, item := frame[..|frame| - 1], frame[|frame| - 1];
      assert frame == rest + [item];
      SettledDrawsNothing(h, c, rest);
      forall k ensures InFrame(h, frame, k) <==> InFrame(h, rest, k) || (Visible(item) && Key(h, item) == k) {
        InFrameGrows(h, rest, item, k);
      }
      assert item in frame && SettledFor(h, c, item);
      if Visible(item) {
        assert c.sources[item.source := HostId(h, item)] == c.sources;
      }
    }
  }

  lemma RepeatHasSameSources(frame: seq<Item>, again: seq<Item>)
    requires Repeats(frame, again)
    ensures CurrentSources(frame) <= CurrentSources(again)
  {
    forall s | s in CurrentSources(frame) ensures s in CurrentSources(again) {
      var item :| item in frame && (item.source.Terminal? || Visible(item)) && item.source == s;
      var i :| 0 <= i < |frame| && frame[i] == item;
      assert Geometry(again[i]) == Geometry(item);
      assert again[i] in again;
    }
  }

  lemma DataDoesNotMatter(h: Hashes, item: Item, data: seq<Byte>)
    ensures var twin := item.(image := item.image.(data := data));
      && Geometry(twin) == Geometry(item) && HostId(h, twin) == HostId(h, item)
      && Key(h, twin) == Key(h, item) && Signature(twin) == Signature(item) && twin.source == item.source
  {}

  lemma TwinIsSettled(h: Hashes, c: Cache, item: Item, twin: Item)
    requires SettledFor(h, c, item) && twin == item.(image := item.image.(data := twin.image.data))
    ensures SettledFor(h, c, twin)
  {
    DataDoesNotMatter(h, item, twin.image.data);
  }

  lemma RepeatHasSameKeys(h: Hashes, frame: seq<Item>, again: seq<Item>, k: PlacementKey)
    requires Repeats(frame, again) && InFrame(h, frame, k)
    ensures InFrame(h, again, k)
  {
    var j :| 0 <= j < |frame| && Visible(frame[j]) && Key(h, frame[j]) == k;
    DataDoesNotMatter(h, frame[j], again[j].image.data);
  }

  lemma RepeatIsSettled(h: Hashes, frame: seq<Item>, c: Cache, again: seq<Item>)
    requires Settled(h, frame, c) && Repeats(frame, again)
    ensures Settled(h, again, c)
  {
    RepeatHasSameSources(frame, again);
    forall item | item in again ensures SettledFor(h, c, item) {
      var i :| 0 <= i < |again| && again[i] == item;
      assert frame[i] in frame && SettledFor(h, c, frame[i]);
      TwinIsSettled(h, c, frame[i], item);
    }
    forall k | k in c.placements ensures InFrame(h, again, k) {
      RepeatHasSameKeys(h, frame, again, k);
    }
  }

  lemma EnumerationOfNothing<T(!new)>(order: seq<T>)
    ensures Enumerates(order, {}) ==> order == []
  {
    if order != [] {
      assert order[0] in order;
    }
  }

  lemma NothingIsStale(h: Hashes, c: Cache, frame: seq<Item>, current: set<PlacementKey>)
    requires Settled(h, frame, c)
    requires forall k :: k in current <==> InFrame(h, frame, k)
    ensures Stale(Drawing(c, current, [])) == {}
    ensures c.(placements := c.placements - Stale(Drawing(c, current, []))) == c
  {
    assert Stale(Drawing(c, current, [])) == {};
    assert c.placements - {} == c.placements;
  }

  lemma SettledUpdateIsSilent(h: Hashes, c: Cache, frame: seq<Item>, after: Cache, commands: seq<Command>,
                              dead: seq<nat>, stale: seq<PlacementKey>)
    requires Settled(h, frame, c)
    requires UpdateInOrder(h, c, frame, false, after, commands, dead, stale)
    ensures commands == [] && after == c
  {
    PrunesNothing(c, frame);
    EnumerationOfNothing(dead);
    SettledDrawsNothing(h, c, frame);
    var d := Drawn(h, c, frame, false, dead);
    assert d == Drawing(c, d.current, []);
    NothingIsStale(h, c, frame, d.current);
    EnumerationOfNothing(stale);
  }

  /** Painting a completely drawn frame again, with or without its data, sends nothing and
      changes nothing. */
  lemma RepeatedFrameIsSilent(h: Hashes, frame: seq<Item>, c: Cache, again: seq<Item>,
                              after: Cache, commands: seq<Command>)
    requires Settled(h, frame, c) && Repeats(frame, again)
    requires IsUpdate(h, c, again, false, after, commands)
    ensures commands == [] && after == c
  {
    var dead, stale :| UpdateInOrder(h, c, again, false, after, commands, dead, stale);
    RepeatIsSettled(h, frame, c, again);
    SettledUpdateIsSilent(h, c, again, after, commands, dead, stale);
  }
}
