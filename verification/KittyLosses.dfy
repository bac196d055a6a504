/** What the terminal holds after any run, whatever the hash functions do: the cache's contents
    less the images lost to starved items, which uploads, releases and clears bring back in line. */
module KittyLosses {
  import opened Machine
  import opened KittyClipping
  import opened KittyHost
  import opened KittyCache
  import opened KittyAgreement
  import opened KittyRuns

  // ----- agreement but for some images -----

  /** The cache without these images and their placements. */
  function Remaining(c: Cache, lost: set<nat>): Cache {
    c.(images := c.images - lost, placements := WithoutImages(c.placements, lost))
  }

  /** The terminal holds what the cache says, less exactly the lost images and what they show. */
  ghost predicate AgreesBut(h: Hashes, host: Host, c: Cache, lost: set<nat>) {
    lost <= c.images.Keys && Agrees(h, host, Remaining(c, lost))
  }

  lemma AgreesWhenNothingLost(h: Hashes, host: Host, c: Cache, lost: set<nat>)
    requires AgreesBut(h, host, c, lost)
    ensures Agrees(h, host, c) <==> lost == {}
  {
    if lost == {} {
      assert c.images - lost == c.images && WithoutImages(c.placements, lost) == c.placements;
    } else {
      var id :| id in lost;
      assert id in c.images.Keys && id !in host.images.Keys;
    }
  }

  // ----- single commands, effective or not -----

  function ForgetImage(c: Cache, id: nat): Cache {
    c.(images := c.images - {id}, placements := WithoutImage(c.placements, id))
  }

  lemma DeleteAgrees(h: Hashes, host: Host, c: Cache, id: nat)
    requires Agrees(h, host, c)
    ensures Agrees(h, Apply(host, DeleteImage(id)), ForgetImage(c, id))
  {}

  lemma ForgetRemaining(c: Cache, lost: set<nat>, id: nat)
    ensures Remaining(ForgetImage(c, id), lost - {id}) == ForgetImage(Remaining(c, lost), id)
  {
    assert c.images - {id} - (lost - {id}) == c.images - lost - {id};
    assert WithoutImages(WithoutImage(c.placements, id), lost - {id})
        == WithoutImage(WithoutImages(c.placements, lost), id);
  }

  lemma StarveRemaining(c: Cache, lost: set<nat>, id: nat)
    ensures Remaining(c.(placements := WithoutImage(c.placements, id)), lost + {id})
         == ForgetImage(Remaining(c, lost), id)
  {
    assert c.images - (lost + {id}) == c.images - lost - {id};
    assert WithoutImages(WithoutImage(c.placements, id), lost + {id})
        == WithoutImage(WithoutImages(c.placements, lost), id);
  }

  /** An image deleted from the cache and the terminal is lost no more. */
  lemma ForgottenAgrees(h: Hashes, host: Host, c: Cache, lost: set<nat>, id: nat)
    requires AgreesBut(h, host, c, lost)
    ensures AgreesBut(h, Run(host, [DeleteImage(id)]), ForgetImage(c, id), lost - {id})
  {
    RunOne(host, DeleteImage(id));
    DeleteAgrees(h, host, Remaining(c, lost), id);
    ForgetRemaining(c, lost, id);
  }

  /** An image deleted from the terminal alone is lost. */
  lemma StarvedAgrees(h: Hashes, host: Host, c: Cache, lost: set<nat>, id: nat)
    requires AgreesBut(h, host, c, lost) && id in c.images
    ensures AgreesBut(h, Run(host, [DeleteImage(id)]), c.(placements := WithoutImage(c.placements, id)), lost + {id})
  {
    RunOne(host, DeleteImage(id));
    DeleteAgrees(h, host, Remaining(c, lost), id);
    StarveRemaining(c, lost, id);
  }

  lemma UploadedAgrees(h: Hashes, host: Host, c: Cache, lost: set<nat>, item: Item)
    requires AgreesBut(h, host, c, lost) && Honest(h, item) && item.image.data != []
    requires HostId(h, item) !in c.images && forall k :: k in c.placements ==> k.0 != HostId(h, item)
    ensures AgreesBut(h, Run(host, UploadCommands(HostId(h, item), FormatCode(item.image.format), item.image.width,
                                                  item.image.height, item.image.data)),
                      c.(images := c.images[HostId(h, item) := Signature(item)]), lost)
  {
    var id := HostId(h, item);
    var upload := UploadCommands(id, FormatCode(item.image.format), item.image.width, item.image.height, item.image.data);
    UploadKeepsStep(h, host, [], Remaining(c, lost), item);
    assert [] + upload == upload;
    assert c.images[id := Signature(item)] - lost == (c.images - lost)[id := Signature(item)];
  }

  // ----- one item -----

  ghost predicate HoldsBut(h: Hashes, host: Host, d: Drawing, lost: set<nat>) {
    AgreesBut(h, Run(host, d.commands), d.cache, lost) && Referential(d.cache)
  }

  /** What holding the item's image does to the lost images. */
  function LostByHold(h: Hashes, c: Cache, item: Item, lost: set<nat>): set<nat> {
    if Cached(h, c, item) then lost
    else if item.image.data != [] then lost - {HostId(h, item)}
    else if HostId(h, item) in c.images then lost + {HostId(h, item)}
    else lost
  }

  lemma HoldingAgrees(h: Hashes, host: Host, d: Drawing, item: Item, lost: set<nat>)
    requires HoldsBut(h, host, d, lost) && Honest(h, item)
    ensures var (held, ok) := HoldImage(h, d, item);
      && HoldsBut(h, host, held, LostByHold(h, d.cache, item, lost))
      && (ok ==> HostId(h, item) in held.cache.images)
  {
    var id, now := HostId(h, item), Run(host, d.commands);
    if Cached(h, d.cache, item) {
      return;
    }
    if id in d.cache.images {
      RunAppend(host, d.commands, [DeleteImage(id)]);
      if item.image.data == [] {
        StarvedAgrees(h, now, d.cache, lost, id);
      } else {
        ForgottenAgrees(h, now, d.cache, lost, id);
        HeldAgrees(h, host, Erase(d, id), ForgetImage(d.cache, id), lost - {id}, item);
      }
    } else if item.image.data != [] {
      assert lost - {id} == lost;
      HeldAgrees(h, host, d, d.cache, lost, item);
    }
  }

  lemma HeldAgrees(h: Hashes, host: Host, e: Drawing, without: Cache, lost: set<nat>, item: Item)
    requires AgreesBut(h, Run(host, e.commands), without, lost) && Honest(h, item) && item.image.data != []
    requires HostId(h, item) !in without.images && forall k :: k in without.placements ==> k.0 != HostId(h, item)
    requires without == e.cache.(images := e.cache.images - {HostId(h, item)})
    ensures var id := HostId(h, item);
      var upload := UploadCommands(id, FormatCode(item.image.format), item.image.width, item.image.height,
                                   item.image.data);
      AgreesBut(h, Run(host, e.commands + upload), e.cache.(images := e.cache.images[id := Signature(item)]), lost)
  {
    var id := HostId(h, item);
    var upload := UploadCommands(id, FormatCode(item.image.format), item.image.width, item.image.height, item.image.data);
    UploadedAgrees(h, Run(host, e.commands), without, lost, item);
    RunAppend(host, e.commands, upload);
    assert without.images[id := Signature(item)] == e.cache.images[id := Signature(item)];
  }

  lemma ReleaseAgrees(h: Hashes, host: Host, d: Drawing, source: SourceKey, id: nat, lost: set<nat>)
    requires HoldsBut(h, host, d, lost) && id in d.cache.images
    ensures var r := Release(d, source, id);
      HoldsBut(h, host, r, lost * r.cache.images.Keys) && id in r.cache.images
  {
    ReleaseKeepsReferences(d, source, id);
    var r := Release(d, source, id);
    if r.commands == d.commands {
      assert lost * r.cache.images.Keys == lost;
    } else {
      var previous := d.cache.sources[source];
      ForgottenAgrees(h, Run(host, d.commands), d.cache, lost, previous);
      RunAppend(host, d.commands, [DeleteImage(previous)]);
      assert lost * r.cache.images.Keys == lost - {previous};
    }
  }

  lemma ShowAgrees(h: Hashes, host: Host, d: Drawing, item: Item, viewChanged: bool, lost: set<nat>)
    requires HoldsBut(h, host, d, lost) && Visible(item) && HostId(h, item) in d.cache.images
    ensures HoldsBut(h, host, Show(h, d, item, viewChanged), lost)
  {
    var key := Key(h, item);
    var shown := Show(h, d, item, viewChanged);
    if shown != d {
      SendOne(host, d.commands, Display(key.0, key.1, Geometry(item).value, item.image.z));
      DisplayAgrees(h, Run(host, d.commands), d.cache, lost, key, Placed(item));
    }
  }

  /** A display without its image leaves the terminal as it is, and adds a lost placement. */
  lemma DisplayAgrees(h: Hashes, host: Host, c: Cache, lost: set<nat>, key: PlacementKey, placed: PlacementSignature)
    requires AgreesBut(h, host, c, lost) && key.0 in c.images
    ensures AgreesBut(h, Apply(host, Display(key.0, key.1, placed.clipped, placed.z)),
                      c.(placements := c.placements[key := placed]), lost)
  {
    ShownRemaining(c, lost, key, placed);
  }

  lemma ShownRemaining(c: Cache, lost: set<nat>, key: PlacementKey, placed: PlacementSignature)
    ensures Remaining(c.(placements := c.placements[key := placed]), lost)
         == if key.0 in lost then Remaining(c, lost)
            else Remaining(c, lost).(placements := Remaining(c, lost).placements[key := placed])
  {}

  /** The lost images after one item: a starved item's is added, one that is uploaded or leaves the
      cache is lost no more. */
  function LostByDraw(h: Hashes, d: Drawing, item: Item, viewChanged: bool, lost: set<nat>): set<nat> {
    if Visible(item) then
      LostByHold(h, d.cache, item, lost) * Draw(h, d, item, viewChanged).cache.images.Keys
    else
      lost
  }

  lemma HeldIsShown(h: Hashes, host: Host, held: Drawing, item: Item, viewChanged: bool, lost: set<nat>)
    requires HoldsBut(h, host, held, lost) && Visible(item) && HostId(h, item) in held.cache.images
    ensures var r := Show(h, Release(held, item.source, HostId(h, item)), item, viewChanged);
      HoldsBut(h, host, r, lost * r.cache.images.Keys)
  {
    var released := Release(held, item.source, HostId(h, item));
    ReleaseAgrees(h, host, held, item.source, HostId(h, item), lost);
    ShowAgrees(h, host, released, item, viewChanged, lost * released.cache.images.Keys);
    assert Show(h, released, item, viewChanged).cache.images == released.cache.images;
  }

  lemma DrawAgrees(h: Hashes, host: Host, d: Drawing, item: Item, viewChanged: bool, lost: set<nat>)
    requires HoldsBut(h, host, d, lost) && (Visible(item) ==> Honest(h, item))
    ensures HoldsBut(h, host, Draw(h, d, item, viewChanged), LostByDraw(h, d, item, viewChanged, lost))
  {
    if Visible(item) {
      var started := d.(current := d.current + {Key(h, item)});
      HoldingAgrees(h, host, started, item, lost);
      var (held, ok) := HoldImage(h, started, item);
      var now := LostByHold(h, d.cache, item, lost);
      if ok {
        HeldIsShown(h, host, held, item, viewChanged, now);
      } else {
        assert now * held.cache.images.Keys == now;
      }
    }
  }

  // ----- whole frames -----

  function LostByFrame(h: Hashes, d: Drawing, frame: seq<Item>, viewChanged: bool, lost: set<nat>): set<nat> {
    if frame == [] then
      lost
    else
      var rest := frame[..|frame| - 1];
      LostByDraw(h, DrawAll(h, d, rest, viewChanged), frame[|frame| - 1], viewChanged,
                 LostByFrame(h, d, rest, viewChanged, lost))
  }

  lemma {:induction false} FrameAgrees(h: Hashes, host: Host, d: Drawing, frame: seq<Item>, viewChanged: bool,
                                       lost: set<nat>)
    requires HoldsBut(h, host, d, lost) && HonestFrame(h, frame)
    ensures HoldsBut(h, host, DrawAll(h, d, frame, viewChanged), LostByFrame(h, d, frame, viewChanged, lost))
  {
    if frame != [] {
      var rest, item := frame[..|frame| - 1], frame[|frame| - 1];
      FrameAgrees(h, host, d, rest, viewChanged, lost);
      assert item in frame;
      DrawAgrees(h, host, DrawAll(h, d, rest, viewChanged), item, viewChanged,
                 LostByFrame(h, d, rest, viewChanged, lost));
    }
  }

  lemma {:induction false} LostAlike(h: Hashes, x: Drawing, y: Drawing, frame: seq<Item>, viewChanged: bool,
                                     lost: set<nat>)
    requires Alike(x, y)
    ensures LostByFrame(h, x, frame, viewChanged, lost) == LostByFrame(h, y, frame, viewChanged, lost)
  {
    if frame != [] {
      var rest, item := frame[..|frame| - 1], frame[|frame| - 1];
      LostAlike(h, x, y, rest, viewChanged, lost);
      DrawAllAlike(h, x, y, rest, viewChanged);
      DrawAlike(h, DrawAll(h, x, rest, viewChanged), DrawAll(h, y, rest, viewChanged), item, viewChanged);
    }
  }

  /** The images lost after an update, from the cache before it and its frame. */
  function LostByUpdate(h: Hashes, before: Cache, frame: seq<Item>, viewChanged: bool, lost: set<nat>): set<nat> {
    var pruned := Prune(before, frame);
    LostByFrame(h, Drawing(pruned, {}, []), frame, viewChanged, lost * pruned.images.Keys)
  }

  // ----- groups of deletes -----

  lemma RemainingOneMore(c: Cache, gone: set<nat>, id: nat)
    ensures Remaining(c, {}) == c
    ensures ForgetImage(Remaining(c, gone), id) == Remaining(c, gone + {id})
  {
    WithoutOneMore(c.placements, gone, id);
    KeysDropOneMore(c.images, gone, id);
  }

  function Elements<T(!new)>(order: seq<T>): set<T> {
    set x | x in order
  }

  lemma ElementsOneMore<T(!new)>(rest: seq<T>, x: T)
    ensures Elements<T>([]) == {} && Elements(rest + [x]) == Elements(rest) + {x}
  {}

  lemma {:induction false} ImageDeletesAgree(h: Hashes, host: Host, c: Cache, order: seq<nat>)
    requires Agrees(h, host, c)
    ensures Agrees(h, Run(host, ImageDeletes(order)), Remaining(c, Elements(order)))
  {
    if order == [] {
      RemainingOneMore(c, {}, 0);
      ElementsOneMore<nat>([], 0);
    } else {
      var rest := order[..|order| - 1];
      ImageDeletesAgree(h, host, c, rest);
      ImageDeleteAgrees(h, host, c, rest, order[|order| - 1]);
      assert order == rest + [order[|order| - 1]];
    }
  }

  lemma ImageDeleteAgrees(h: Hashes, host: Host, c: Cache, rest: seq<nat>, id: nat)
    requires Agrees(h, Run(host, ImageDeletes(rest)), Remaining(c, Elements(rest)))
    ensures Agrees(h, Run(host, ImageDeletes(rest + [id])), Remaining(c, Elements(rest + [id])))
  {
    OneMoreImageDelete(rest, id);
    SendOne(host, ImageDeletes(rest), DeleteImage(id));
    DeleteAgrees(h, Run(host, ImageDeletes(rest)), Remaining(c, Elements(rest)), id);
    RemainingOneMore(c, Elements(rest), id);
    ElementsOneMore(rest, id);
  }

  lemma {:induction false} PlacementDeletesAgree(h: Hashes, host: Host, c: Cache, order: seq<PlacementKey>)
    requires Agrees(h, host, c)
    ensures Agrees(h, Run(host, PlacementDeletes(order)), c.(placements := c.placements - Elements(order)))
  {
    if order == [] {
      assert c.placements - Elements<PlacementKey>([]) == c.placements;
    } else {
      var rest := order[..|order| - 1];
      PlacementDeletesAgree(h, host, c, rest);
      PlacementDeleteAgrees(h, host, c, rest, order[|order| - 1]);
      assert order == rest + [order[|order| - 1]];
    }
  }

  lemma PlacementDeleteAgrees(h: Hashes, host: Host, c: Cache, rest: seq<PlacementKey>, k: PlacementKey)
    requires Agrees(h, Run(host, PlacementDeletes(rest)), c.(placements := c.placements - Elements(rest)))
    ensures Agrees(h, Run(host, PlacementDeletes(rest + [k])), c.(placements := c.placements - Elements(rest + [k])))
  {
    OneMorePlacementDelete(rest, k);
    SendOne(host, PlacementDeletes(rest), DeletePlacement(k.0, k.1));
    KeysDropOneMore(c.placements, Elements(rest), k);
    ElementsOneMore(rest, k);
  }

  lemma PruneAgrees(h: Hashes, host: Host, before: Cache, frame: seq<Item>, dead: seq<nat>, lost: set<nat>)
    requires AgreesBut(h, host, before, lost) && Referential(before)
    requires Enumerates(dead, DeadImages(before, frame))
    ensures var pruned := Prune(before, frame);
      HoldsBut(h, host, Drawing(pruned, {}, ImageDeletes(dead)), lost * pruned.images.Keys)
  {
    var gone := DeadImages(before, frame);
    PruneKeepsReferences(before, frame);
    ImageDeletesAgree(h, host, Remaining(before, lost), dead);
    assert Elements(dead) == gone;
    DeadAgree(h, Run(host, ImageDeletes(dead)), before, lost, gone, PrunedSources(before, frame));
  }

  lemma DeadAgree(h: Hashes, host: Host, c: Cache, lost: set<nat>, gone: set<nat>, sources: map<SourceKey, nat>)
    requires lost <= c.images.Keys && Agrees(h, host, Remaining(Remaining(c, lost), gone))
    ensures var pruned := Remaining(c, gone).(sources := sources);
      AgreesBut(h, host, pruned, lost * pruned.images.Keys)
  {
    RemainingOfRemaining(c, lost, gone);
  }

  /** Images lost before others left the cache, or the other way round. */
  lemma RemainingOfRemaining(c: Cache, lost: set<nat>, gone: set<nat>)
    requires lost <= c.images.Keys
    ensures Remaining(Remaining(c, lost), gone)
         == Remaining(Remaining(c, gone), lost * Remaining(c, gone).images.Keys)
  {
    var left := lost * Remaining(c, gone).images.Keys;
    assert c.images - lost - gone == c.images - gone - left;
    LostAmongPlacements(c, lost, gone, left);
  }

  lemma LostAmongPlacements(c: Cache, lost: set<nat>, gone: set<nat>, left: set<nat>)
    requires lost <= c.images.Keys && left == lost * (c.images - gone).Keys
    ensures WithoutImages(WithoutImages(c.placements, lost), gone)
         == WithoutImages(WithoutImages(c.placements, gone), left)
  {}

  lemma DropStaleAgrees(h: Hashes, host: Host, d: Drawing, stale: seq<PlacementKey>, lost: set<nat>)
    requires HoldsBut(h, host, d, lost) && Enumerates(stale, Stale(d))
    ensures AgreesBut(h, Run(host, d.commands + PlacementDeletes(stale)),
                      d.cache.(placements := d.cache.placements - Stale(d)), lost)
  {
    var c, gone := d.cache, Stale(d);
    PlacementDeletesAgree(h, Run(host, d.commands), Remaining(c, lost), stale);
    RunAppend(host, d.commands, PlacementDeletes(stale));
    assert Elements(stale) == gone;
    assert WithoutImages(c.placements, lost) - gone == WithoutImages(c.placements - gone, lost);
  }

  /** After any update the terminal holds the cache's contents less the images lost by then. */
  lemma UpdateAgreesBut(h: Hashes, host: Host, before: Cache, frame: seq<Item>, viewChanged: bool,
                        after: Cache, commands: seq<Command>, lost: set<nat>)
    requires AgreesBut(h, host, before, lost) && Referential(before) && HonestFrame(h, frame)
    requires IsUpdate(h, before, frame, viewChanged, after, commands)
    ensures AgreesBut(h, Run(host, commands), after, LostByUpdate(h, before, frame, viewChanged, lost))
  {
    var dead, stale :| UpdateInOrder(h, before, frame, viewChanged, after, commands, dead, stale);
    var pruned := Prune(before, frame);
    var start, left := Drawing(pruned, {}, ImageDeletes(dead)), lost * pruned.images.Keys;
    PruneAgrees(h, host, before, frame, dead, lost);
    FrameAgrees(h, host, start, frame, viewChanged, left);
    LostAlike(h, start, Drawing(pruned, {}, []), frame, viewChanged, left);
    DropStaleAgrees(h, host, Drawn(h, before, frame, viewChanged, dead), stale,
                    LostByUpdate(h, before, frame, viewChanged, lost));
  }

  /** A clear leaves nothing lost. */
  lemma ClearAgrees(h: Hashes, host: Host, before: Cache, after: Cache, commands: seq<Command>, lost: set<nat>)
    requires AgreesBut(h, host, before, lost) && Referential(before) && IsClear(before, after, commands)
    ensures AgreesBut(h, Run(host, commands), after, {})
  {
    var order :| Enumerates(order, before.images.Keys) && commands == ImageDeletes(order);
    ImageDeletesAgree(h, host, Remaining(before, lost), order);
    var ids := Elements(order);
    assert ids == before.images.Keys;
    assert before.images - lost - ids == map[];
    assert WithoutImages(WithoutImages(before.placements, lost), ids) == map[];
    assert EMPTY_CACHE.images - {} == map[] && WithoutImages(EMPTY_CACHE.placements, {}) == map[];
  }

  // ----- runs -----

  function LostByStep(h: Hashes, before: Cache, event: Event, lost: set<nat>): set<nat> {
    match event
    case Paint(frame, viewChanged) => LostByUpdate(h, before, frame, viewChanged, lost)
    case Clear => {}
  }

  /** The images lost after a run, from its frames and clears. */
  function LostByRun(h: Hashes, before: Cache, steps: seq<Step>, lost: set<nat>): set<nat>
    decreases steps
  {
    if steps == [] then
      lost
    else
      LostByRun(h, steps[0].after, steps[1..], LostByStep(h, before, steps[0].event, lost))
  }

  lemma StepAgreesBut(h: Hashes, host: Host, before: Cache, step: Step, lost: set<nat>)
    requires AgreesBut(h, host, before, lost) && Referential(before) && IsStep(h, before, step)
    requires step.event.Paint? ==> HonestFrame(h, step.event.frame)
    ensures Referential(step.after)
    ensures AgreesBut(h, Run(host, step.commands), step.after, LostByStep(h, before, step.event, lost))
  {
    match step.event {
      case Paint(frame, viewChanged) =>
        UpdateKeepsReferences(h, before, frame, viewChanged, step.after, step.commands);
        UpdateAgreesBut(h, host, before, frame, viewChanged, step.after, step.commands, lost);
      case Clear =>
        ClearAgrees(h, host, before, step.after, step.commands, lost);
    }
  }

  lemma {:induction false} RunAgreesBut(h: Hashes, host: Host, before: Cache, steps: seq<Step>, lost: set<nat>)
    requires AgreesBut(h, host, before, lost) && Referential(before)
    requires IsRun(h, before, steps) && HonestRun(h, steps)
    ensures AgreesBut(h, Run(host, AllCommands(steps)), FinalCache(before, steps), LostByRun(h, before, steps, lost))
    decreases steps
  {
    if steps != [] {
      var step, rest := steps[0], steps[1..];
      StepAgreesBut(h, host, before, step, lost);
      assert HonestRun(h, rest) by {
        assert forall s :: s in rest ==> s in steps;
      }
      RunAgreesBut(h, Run(host, step.commands), step.after, rest, LostByStep(h, before, step.event, lost));
      RunAppend(host, step.commands, AllCommands(rest));
    }
  }

  /** From an empty cache and an empty terminal, whatever is painted and cleared and however the
      hashes collide, the terminal ends up holding the cache's contents less exactly the images
      `LostByRun` computes; so it holds what the cache says if and only if there are none. */
  lemma EveryRunAgreesExactly(h: Hashes, steps: seq<Step>)
    requires IsRun(h, EMPTY_CACHE, steps) && HonestRun(h, steps)
    ensures var host, c := Run(EMPTY_HOST, AllCommands(steps)), FinalCache(EMPTY_CACHE, steps);
      var lost := LostByRun(h, EMPTY_CACHE, steps, {});
      AgreesBut(h, host, c, lost) && (Agrees(h, host, c) <==> lost == {})
  {
    assert AgreesBut(h, EMPTY_HOST, EMPTY_CACHE, {}) by {
      assert EMPTY_CACHE.images - {} == map[] && WithoutImages(EMPTY_CACHE.placements, {}) == map[];
    }
    RunAgreesBut(h, EMPTY_HOST, EMPTY_CACHE, steps, {});
    AgreesWhenNothingLost(h, Run(EMPTY_HOST, AllCommands(steps)), FinalCache(EMPTY_CACHE, steps),
                          LostByRun(h, EMPTY_CACHE, steps, {}));
  }
}
