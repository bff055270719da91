/** The cache of detached backing images (src/export-buf.c:474-633, 792-852).
    PruneOnce, MarkDetached, FindFree and ListImage are the regions under the
    images mutex, so the invariant they keep holds however threads interleave
    them; Prune, Detach and Realise put them together as one thread does. Listed
    images are neither external nor NV21. */
module DetachedCaches {
  import opened Basics

  type Surface = nat

  datatype Shape = Shape(width: nat, height: nat, format: nat)

  /** `planes` are the plane sizes in bytes; `borrows` pins the image. */
  datatype Image = Image(
    id: nat,
    surface: Option<Surface>,
    serial: nat,
    shape: Shape,
    totalSize: nat,
    planes: seq<nat>,
    borrows: nat)

  function Sum(s: seq<nat>): nat {
    if s == [] then 0 else Sum(s[..|s| - 1]) + s[|s| - 1]
  }

  function MemorySize(img: Image): nat {
    if img.totalSize != 0 then img.totalSize else Sum(img.planes)
  }

  predicate Detached(img: Image) {
    img.surface.None?
  }

  predicate Evictable(img: Image) {
    Detached(img) && img.borrows == 0
  }

  datatype Limits = Limits(maxCount: nat, maxBytes: nat, budget: nat, scratch: nat)

  predicate OverLimit(l: Limits, count: nat, bytes: nat) {
    && count != 0
    && (l.maxCount == 0 || l.maxBytes == 0 ||
        count > l.maxCount || bytes > l.maxBytes ||
        (l.budget != 0 && (bytes > l.budget || l.scratch > l.budget - bytes)))
  }

  /** What the limits allow: nothing detached at all, or a cache that is switched on,
      within its count and its bytes, and within a budget shared with the scratch
      buffers when there is one. */
  predicate Within(l: Limits, count: nat, bytes: nat) {
    || count == 0
    || (&& 1 <= l.maxCount && count <= l.maxCount
        && 1 <= l.maxBytes && bytes <= l.maxBytes
        && (l.budget == 0 || bytes + l.scratch <= l.budget))
  }

  /** The source's test, with its subtraction, fails exactly within the limits. */
  lemma OverLimitIs(l: Limits, count: nat, bytes: nat)
    ensures OverLimit(l, count, bytes) <==> !Within(l, count, bytes)
  {
  }

  /** The size of an image: its total when it has one, else its planes together. */
  method MeasureImage(img: Image) returns (bytes: nat)
    ensures bytes == MemorySize(img)
    ensures img.totalSize != 0 ==> bytes == img.totalSize
    ensures img.totalSize == 0 && |img.planes| == 2 ==> bytes == img.planes[0] + img.planes[1]
  {
    if img.totalSize != 0 {
      return img.totalSize;
    }
    TwoPlanes(img.planes);
    bytes := 0;
    for i := 0 to |img.planes|
      invariant bytes == Sum(img.planes[..i])
    {
      assert img.planes[..i + 1][..i] == img.planes[..i];
      bytes := bytes + img.planes[i];
    }
    assert img.planes[..|img.planes|] == img.planes;
  }

  lemma TwoPlanes(planes: seq<nat>)
    ensures |planes| == 2 ==> Sum(planes) == planes[0] + planes[1]
  {
    if |planes| == 2 {
      assert planes[..1] == [planes[0]] && [planes[0]][..0] == [];
      assert Sum([planes[0]]) == planes[0];
    }
  }

  /** Subtraction that stops at zero. */
  function Saturating(a: nat, b: nat): nat {
    if a >= b then a - b else 0
  }

  // --------------------------------------------------------------- counting

  function Weight(img: Image): nat {
    if Detached(img) then MemorySize(img) else 0
  }

  function One(img: Image): nat {
    if Detached(img) then 1 else 0
  }

  ghost function CountOf(images: seq<Image>): nat {
    if images == [] then 0 else CountOf(images[..|images| - 1]) + One(images[|images| - 1])
  }

  ghost function BytesOf(images: seq<Image>): nat {
    if images == [] then 0 else BytesOf(images[..|images| - 1]) + Weight(images[|images| - 1])
  }

  ghost function TotalOf(images: seq<Image>): nat {
    if images == [] then 0 else TotalOf(images[..|images| - 1]) + MemorySize(images[|images| - 1])
  }

  ghost function RemoveAt(images: seq<Image>, i: nat): seq<Image>
    requires i < |images|
  {
    images[..i] + images[i + 1..]
  }

  lemma CountsJoin(images: seq<Image>, img: Image)
    ensures CountOf(images + [img]) == CountOf(images) + One(img)
    ensures BytesOf(images + [img]) == BytesOf(images) + Weight(img)
    ensures TotalOf(images + [img]) == TotalOf(images) + MemorySize(img)
  {
    hide One, Weight, MemorySize;
    assert (images + [img])[..|images|] == images;
  }

  lemma {:induction false} RemovedCounts(images: seq<Image>, i: nat)
    requires i < |images|
    ensures CountOf(images) == CountOf(RemoveAt(images, i)) + One(images[i])
    ensures BytesOf(images) == BytesOf(RemoveAt(images, i)) + Weight(images[i])
    ensures TotalOf(images) == TotalOf(RemoveAt(images, i)) + MemorySize(images[i])
    decreases |images|
  {
    hide CountOf, BytesOf, TotalOf, One, Weight, MemorySize;
    var n := |images| - 1;
    assert images == images[..n] + [images[n]];
    CountsJoin(images[..n], images[n]);
    if i == n {
      assert RemoveAt(images, i) == images[..n];
    } else {
      RemovedCounts(images[..n], i);
      CountsJoin(RemoveAt(images[..n], i), images[n]);
      assert RemoveAt(images, i) == RemoveAt(images[..n], i) + [images[n]];
    }
  }

  lemma {:induction false} ReplacedCounts(images: seq<Image>, i: nat, img: Image)
    requires i < |images|
    ensures CountOf(images[i := img]) + One(images[i]) == CountOf(images) + One(img)
    ensures BytesOf(images[i := img]) + Weight(images[i]) == BytesOf(images) + Weight(img)
    ensures TotalOf(images[i := img]) + MemorySize(images[i]) == TotalOf(images) + MemorySize(img)
    decreases |images|
  {
    hide One, Weight, MemorySize;
    var n := |images| - 1;
    if i == n {
      assert images[i := img][..n] == images[..n];
    } else {
      ReplacedCounts(images[..n], i, img);
      assert images[i := img][..n] == images[..n][i := img];
    }
  }

  lemma {:induction false} WeightBound(images: seq<Image>, i: nat)
    requires i < |images|
    ensures BytesOf(images) <= TotalOf(images)
    ensures CountOf(images) <= |images|
    ensures !Detached(images[i]) ==> BytesOf(images) + MemorySize(images[i]) <= TotalOf(images)
    ensures Detached(images[i]) ==> MemorySize(images[i]) <= BytesOf(images) && 1 <= CountOf(images)
    decreases |images|
  {
    var n := |images| - 1;
    if 0 < n {
      WeightBound(images[..n], if i < n then i else 0);
    } else {
      assert images[..n] == [];
    }
  }

  // ------------------------------------------------------------- invariants

  ghost predicate DistinctIds(images: seq<Image>) {
    forall i, j :: 0 <= i < j < |images| ==> images[i].id != images[j].id
  }

  /** Detached images carry distinct serials up to the last one handed out, so
      serial order is detachment order. */
  ghost predicate SerialsOk(images: seq<Image>, last: nat) {
    && (forall i :: 0 <= i < |images| && Detached(images[i]) ==> images[i].serial <= last)
    && (forall i, j :: 0 <= i < j < |images| && Detached(images[i]) && Detached(images[j]) ==>
          images[i].serial != images[j].serial)
  }

  /** A surface and its image point at each other, one to one. */
  ghost predicate LinksOk(images: seq<Image>, backing: map<Surface, nat>) {
    && (forall i :: 0 <= i < |images| && images[i].surface.Some? ==>
          images[i].surface.value in backing && backing[images[i].surface.value] == images[i].id)
    && (forall s :: s in backing ==>
          exists i :: 0 <= i < |images| && images[i].surface == Some(s) && images[i].id == backing[s])
  }

  /** `v` is the unborrowed detached image that was detached first. */
  ghost predicate Oldest(images: seq<Image>, v: nat) {
    && v < |images| && Evictable(images[v])
    && forall j :: 0 <= j < |images| && Evictable(images[j]) ==> images[v].serial <= images[j].serial
  }

  /** Everything the cache keeps true of its list and counters. */
  ghost predicate CacheOk(images: seq<Image>, backing: map<Surface, nat>, count: nat, bytes: nat, last: nat) {
    && count == CountOf(images)
    && bytes == BytesOf(images)
    && TotalOf(images) <= UINT64_MAX && |images| <= UINT32_MAX
    && DistinctIds(images)
    && SerialsOk(images, last)
    && LinksOk(images, backing)
  }

  lemma RemovedLinks(images: seq<Image>, v: nat, backing: map<Surface, nat>)
    requires v < |images| && Detached(images[v]) && LinksOk(images, backing)
    ensures LinksOk(RemoveAt(images, v), backing)
  {
    var after := RemoveAt(images, v);
    forall s | s in backing
      ensures exists i :: 0 <= i < |after| && after[i].surface == Some(s) && after[i].id == backing[s]
    {
      var i :| 0 <= i < |images| && images[i].surface == Some(s) && images[i].id == backing[s];
      var k := if i < v then i else i - 1;
      assert after[k] == images[i];
    }
  }

  lemma RemovedSerials(images: seq<Image>, v: nat, last: nat)
    requires v < |images| && DistinctIds(images) && SerialsOk(images, last)
    ensures DistinctIds(RemoveAt(images, v)) && SerialsOk(RemoveAt(images, v), last)
  {
  }

  /** Taking a detached image off the list: the counters go down by exactly its
      share, without saturating. */
  lemma RemovedKeeps(images: seq<Image>, v: nat, backing: map<Surface, nat>, count: nat, bytes: nat, last: nat)
    requires v < |images| && Detached(images[v]) && CacheOk(images, backing, count, bytes, last)
    ensures MemorySize(images[v]) <= bytes && 0 < count
    ensures CacheOk(RemoveAt(images, v), backing, count - 1, Saturating(bytes, MemorySize(images[v])), last)
  {
    RemovedCounts(images, v);
    RemovedLinks(images, v, backing);
    RemovedSerials(images, v, last);
  }

  // ---------------------------------------------------------------- pruning

  ghost function Without(images: seq<Image>, gone: set<nat>): seq<Image> {
    if images == [] then []
    else
      var n := |images| - 1;
      Without(images[..n], gone) + if images[n].id in gone then [] else [images[n]]
  }

  ghost function IdsOf(images: seq<Image>): set<nat> {
    set i | 0 <= i < |images| :: images[i].id
  }

  lemma {:induction false} WithoutNone(images: seq<Image>)
    ensures Without(images, {}) == images
  {
    if images != [] {
      WithoutNone(images[..|images| - 1]);
    }
  }

  lemma {:induction false} WithoutTwice(images: seq<Image>, a: set<nat>, b: set<nat>)
    ensures Without(Without(images, a), b) == Without(images, a + b)
  {
    if images != [] {
      var n := |images| - 1;
      WithoutTwice(images[..n], a, b);
      var kept := Without(images[..n], a);
      if images[n].id !in a {
        assert (kept + [images[n]])[..|kept|] == kept;
      } else {
        assert kept + [] == kept;
      }
    }
  }

  lemma {:induction false} WithoutOne(images: seq<Image>, v: nat)
    requires v < |images| && DistinctIds(images)
    ensures Without(images, {images[v].id}) == RemoveAt(images, v)
    decreases |images|
  {
    var n := |images| - 1;
    if v == n {
      WithoutAbsent(images[..n], images[v].id);
      assert RemoveAt(images, v) == images[..n];
    } else {
      WithoutOne(images[..n], v);
      assert RemoveAt(images, v) == RemoveAt(images[..n], v) + [images[n]];
    }
  }

  lemma {:induction false} WithoutAbsent(images: seq<Image>, id: nat)
    requires forall i :: 0 <= i < |images| ==> images[i].id != id
    ensures Without(images, {id}) == images
  {
    if images != [] {
      var n := |images| - 1;
      WithoutAbsent(images[..n], id);
      assert images == images[..n] + [images[n]];
    }
  }

  lemma {:induction false} WithoutKeeps(images: seq<Image>, gone: set<nat>, x: Image)
    ensures x in Without(images, gone) <==> x in images && x.id !in gone
  {
    if images != [] {
      var n := |images| - 1;
      WithoutKeeps(images[..n], gone, x);
      assert images == images[..n] + [images[n]];
    }
  }

  ghost predicate Overfull(l: Limits, images: seq<Image>) {
    OverLimit(l, CountOf(images), BytesOf(images))
  }

  /** Evicted in detachment order, and before anything evictable that is left. */
  ghost predicate InDetachmentOrder(now: seq<Image>, evicted: seq<Image>) {
    && (forall i, j :: 0 <= i < j < |evicted| ==> evicted[i].serial < evicted[j].serial)
    && (forall i, j :: 0 <= i < |evicted| && 0 <= j < |now| && Evictable(now[j]) ==> evicted[i].serial < now[j].serial)
  }

  /** `now` is what pruning leaves of `was` after evicting `evicted` one by one:
      unborrowed detached images only, in detachment order, each while over a
      limit, and all of them detached before anything evictable that is left. */
  ghost predicate Pruned(l: Limits, was: seq<Image>, now: seq<Image>, evicted: seq<Image>) {
    && now == Without(was, IdsOf(evicted))
    && (forall i :: 0 <= i < |evicted| ==> evicted[i] in was && Evictable(evicted[i]))
    && InDetachmentOrder(now, evicted)
    && (forall i :: 0 <= i < |evicted| ==> Overfull(l, Without(was, IdsOf(evicted[..i]))))
  }

  lemma PrunedStart(l: Limits, was: seq<Image>)
    ensures Pruned(l, was, was, [])
  {
    assert IdsOf([]) == {};
    WithoutNone(was);
  }

  lemma OldestIsFirst(images: seq<Image>, v: nat, last: nat)
    requires Oldest(images, v) && SerialsOk(images, last)
    ensures forall j :: 0 <= j < |images| && j != v && Evictable(images[j]) ==> images[v].serial < images[j].serial
  {
  }

  lemma EvictedIds(evicted: seq<Image>, x: Image)
    ensures IdsOf(evicted + [x]) == IdsOf(evicted) + {x.id}
  {
    var all := evicted + [x];
    assert all[|evicted|] == x;
    forall i | 0 <= i < |evicted|
      ensures evicted[i].id in IdsOf(all)
    {
      assert all[i] == evicted[i];
    }
  }

  lemma OrderExtends(now: seq<Image>, evicted: seq<Image>, v: nat, last: nat)
    requires InDetachmentOrder(now, evicted) && Oldest(now, v) && SerialsOk(now, last)
    ensures InDetachmentOrder(RemoveAt(now, v), evicted + [now[v]])
  {
    OldestIsFirst(now, v, last);
    var next := RemoveAt(now, v);
    forall j | 0 <= j < |next|
      ensures next[j] == now[if j < v then j else j + 1]
    {
    }
  }

  /** Evicting the oldest while over a limit extends the pruning by one. */
  lemma PrunedExtends(l: Limits, was: seq<Image>, now: seq<Image>, evicted: seq<Image>, v: nat, last: nat)
    requires Pruned(l, was, now, evicted) && Oldest(now, v)
    requires DistinctIds(now) && SerialsOk(now, last) && Overfull(l, now)
    ensures Pruned(l, was, RemoveAt(now, v), evicted + [now[v]])
  {
    hide InDetachmentOrder, SerialsOk, DistinctIds, Overfull;
    var x, all := now[v], evicted + [now[v]];
    WithoutOne(now, v);
    WithoutTwice(was, IdsOf(evicted), {x.id});
    EvictedIds(evicted, x);
    assert x in now;
    WithoutKeeps(was, IdsOf(evicted), x);
    OrderExtends(now, evicted, v, last);
    forall i | 0 <= i < |all|
      ensures Overfull(l, Without(was, IdsOf(all[..i])))
    {
      assert all[..i] == evicted[..i];
      assert i == |evicted| ==> evicted[..i] == evicted;
    }
  }

  /** Pruning never destroys an image that is attached or borrowed. */
  lemma PrunedSpares(l: Limits, was: seq<Image>, now: seq<Image>, evicted: seq<Image>, k: nat)
    requires Pruned(l, was, now, evicted) && DistinctIds(was) && k < |was|
    ensures was[k].surface.Some? || was[k].borrows > 0 ==> was[k] in now
  {
    if was[k].surface.Some? || was[k].borrows > 0 {
      forall i | 0 <= i < |evicted|
        ensures evicted[i].id != was[k].id
      {
        var j :| 0 <= j < |was| && was[j] == evicted[i];
        assert j != k;
      }
      WithoutKeeps(was, IdsOf(evicted), was[k]);
    }
  }

  /** What is evicted was detached and not borrowed. */
  lemma PrunedOnlyIdle(l: Limits, was: seq<Image>, now: seq<Image>, evicted: seq<Image>, i: nat)
    requires Pruned(l, was, now, evicted) && i < |evicted|
    ensures evicted[i] in was && evicted[i].surface.None? && evicted[i].borrows == 0
  {
  }

  lemma PrunedInPlain(l: Limits, was: seq<Image>, now: seq<Image>, evicted: seq<Image>)
    requires Pruned(l, was, now, evicted) && DistinctIds(was)
    ensures forall i :: 0 <= i < |evicted| ==> evicted[i] in was && evicted[i].surface.None? && evicted[i].borrows == 0
    ensures forall k :: 0 <= k < |was| && (was[k].surface.Some? || was[k].borrows > 0) ==> was[k] in now
  {
    hide Pruned, DistinctIds;
    forall i | 0 <= i < |evicted|
      ensures evicted[i] in was && evicted[i].surface.None? && evicted[i].borrows == 0
    {
      PrunedOnlyIdle(l, was, now, evicted, i);
    }
    forall k | 0 <= k < |was| && (was[k].surface.Some? || was[k].borrows > 0)
      ensures was[k] in now
    {
      PrunedSpares(l, was, now, evicted, k);
    }
  }

  /** The places of the images without a surface. */
  ghost function DetachedPlaces(images: seq<Image>): set<nat> {
    set i: nat | i < |images| && images[i].surface.None?
  }

  lemma LastPlace(images: seq<Image>)
    requires images != []
    ensures var n := |images| - 1;
      |DetachedPlaces(images)| == |DetachedPlaces(images[..n])| + if images[n].surface.None? then 1 else 0
  {
    var n := |images| - 1;
    var all, before := DetachedPlaces(images), DetachedPlaces(images[..n]);
    assert n !in before;
    if images[n].surface.None? {
      assert all == before + {n};
    } else {
      assert all == before;
    }
  }

  lemma {:induction false} CountIsPlaces(images: seq<Image>)
    ensures CountOf(images) == |DetachedPlaces(images)|
  {
    if images != [] {
      LastPlace(images);
      hide DetachedPlaces;
      CountIsPlaces(images[..|images| - 1]);
    }
  }

  /** How many images have no surface, as a number of places in the list. */
  lemma CountIsCardinality(images: seq<Image>)
    ensures CountOf(images) == |set i: nat | i < |images| && images[i].surface.None?|
  {
    CountIsPlaces(images);
  }

  /** Every image has a surface or is borrowed. */
  ghost predicate AllPinned(images: seq<Image>) {
    forall j :: 0 <= j < |images| ==> images[j].surface.Some? || images[j].borrows > 0
  }

  datatype PruneOutcome = WithinLimits | AllBorrowed | Evicted(victim: Image)

  datatype RealiseOutcome = Already | Reused(id: nat) | Added | Failed

  function AsDetached(img: Image, serial: nat): Image {
    img.(surface := None, serial := serial)
  }

  predicate Reusable(img: Image, shape: Shape) {
    Detached(img) && img.shape == shape && |img.planes| == 2
  }

  /** Detaching: the counters go up by exactly the image's share, and the new
      serial is larger than every other. */
  lemma DetachedKeeps(images: seq<Image>, i: nat, backing: map<Surface, nat>, count: nat, bytes: nat, last: nat)
    requires i < |images| && images[i].surface.Some? && CacheOk(images, backing, count, bytes, last)
    ensures var after := images[i := AsDetached(images[i], last + 1)];
      CacheOk(after, backing - {images[i].surface.value}, count + 1, bytes + MemorySize(images[i]), last + 1)
  {
    ReplacedCounts(images, i, AsDetached(images[i], last + 1));
    DetachedLinks(images, i, backing, last + 1);
  }

  lemma DetachedLinks(images: seq<Image>, i: nat, backing: map<Surface, nat>, serial: nat)
    requires i < |images| && images[i].surface.Some? && LinksOk(images, backing) && DistinctIds(images)
    ensures LinksOk(images[i := AsDetached(images[i], serial)], backing - {images[i].surface.value})
  {
    var s0 := images[i].surface.value;
    var after, left := images[i := AsDetached(images[i], serial)], backing - {s0};
    forall j | 0 <= j < |after| && after[j].surface.Some?
      ensures after[j].surface.value in left && left[after[j].surface.value] == after[j].id
    {
      assert j != i && after[j] == images[j];
      assert images[j].id != images[i].id;
    }
    forall s | s in left
      ensures exists j :: 0 <= j < |after| && after[j].surface == Some(s) && after[j].id == left[s]
    {
      var j :| 0 <= j < |images| && images[j].surface == Some(s) && images[j].id == backing[s];
      assert after[j] == images[j];
    }
  }

  /** Reusing: the counters go down by exactly the image's share. */
  lemma AttachedKeeps(images: seq<Image>, i: nat, surface: Surface, backing: map<Surface, nat>,
                      count: nat, bytes: nat, last: nat)
    requires i < |images| && Detached(images[i]) && surface !in backing && CacheOk(images, backing, count, bytes, last)
    ensures MemorySize(images[i]) <= bytes && 0 < count
    ensures var after := images[i := images[i].(surface := Some(surface), serial := 0)];
      CacheOk(after, backing[surface := images[i].id], count - 1, Saturating(bytes, MemorySize(images[i])), last)
  {
    WeightBound(images, i);
    ReplacedCounts(images, i, images[i].(surface := Some(surface), serial := 0));
    AttachedLinks(images, i, surface, backing);
  }

  lemma AttachedLinks(images: seq<Image>, i: nat, surface: Surface, backing: map<Surface, nat>)
    requires i < |images| && Detached(images[i]) && surface !in backing && LinksOk(images, backing)
    ensures LinksOk(images[i := images[i].(surface := Some(surface), serial := 0)], backing[surface := images[i].id])
  {
    var after, more := images[i := images[i].(surface := Some(surface), serial := 0)], backing[surface := images[i].id];
    forall s | s in more
      ensures exists j :: 0 <= j < |after| && after[j].surface == Some(s) && after[j].id == more[s]
    {
      if s == surface {
        assert after[i].surface == Some(s);
      } else {
        var j :| 0 <= j < |images| && images[j].surface == Some(s) && images[j].id == backing[s];
        assert after[j] == images[j];
      }
    }
  }

  lemma AddedKeeps(images: seq<Image>, img: Image, surface: Surface, backing: map<Surface, nat>,
                   count: nat, bytes: nat, last: nat)
    requires CacheOk(images, backing, count, bytes, last) && surface !in backing && |images| != UINT32_MAX
    requires TotalOf(images) + MemorySize(img) <= UINT64_MAX
    requires forall j :: 0 <= j < |images| ==> images[j].id != img.id
    ensures CacheOk(images + [img.(surface := Some(surface))], backing[surface := img.id], count, bytes, last)
  {
    hide LinksOk, DistinctIds, SerialsOk;
    var added := img.(surface := Some(surface));
    assert (images + [added])[..|images|] == images;
    AddedSerials(images, added, last);
    AddedLinks(images, added, surface, backing);
  }

  lemma AddedSerials(images: seq<Image>, added: Image, last: nat)
    requires DistinctIds(images) && SerialsOk(images, last) && added.surface.Some?
    requires forall j :: 0 <= j < |images| ==> images[j].id != added.id
    ensures DistinctIds(images + [added]) && SerialsOk(images + [added], last)
  {
  }

  lemma AddedLinks(images: seq<Image>, added: Image, surface: Surface, backing: map<Surface, nat>)
    requires LinksOk(images, backing) && surface !in backing && added.surface == Some(surface)
    ensures LinksOk(images + [added], backing[surface := added.id])
  {
    var after, more := images + [added], backing[surface := added.id];
    forall s | s in more
      ensures exists j :: 0 <= j < |after| && after[j].surface == Some(s) && after[j].id == more[s]
    {
      if s == surface {
        assert after[|images|].surface == Some(s);
      } else {
        var j :| 0 <= j < |images| && images[j].surface == Some(s) && images[j].id == backing[s];
        assert after[j] == images[j];
      }
    }
  }

  /** Pins do not enter the accounting. */
  lemma PinnedKeeps(images: seq<Image>, i: nat, borrows: nat, backing: map<Surface, nat>,
                    count: nat, bytes: nat, last: nat)
    requires i < |images| && CacheOk(images, backing, count, bytes, last)
    ensures CacheOk(images[i := images[i].(borrows := borrows)], backing, count, bytes, last)
  {
    hide LinksOk;
    ReplacedCounts(images, i, images[i].(borrows := borrows));
    PinnedLinks(images, i, borrows, backing);
  }

  lemma PinnedLinks(images: seq<Image>, i: nat, borrows: nat, backing: map<Surface, nat>)
    requires i < |images| && LinksOk(images, backing)
    ensures LinksOk(images[i := images[i].(borrows := borrows)], backing)
  {
    var after := images[i := images[i].(borrows := borrows)];
    forall s | s in backing
      ensures exists j :: 0 <= j < |after| && after[j].surface == Some(s) && after[j].id == backing[s]
    {
      var j :| 0 <= j < |images| && images[j].surface == Some(s) && images[j].id == backing[s];
      assert after[j].surface == Some(s);
    }
  }

  class DetachedCache {
    var images: seq<Image>
    var backing: map<Surface, nat>
    var detachedCount: nat
    var detachedBytes: nat
    var lastSerial: nat
    var limits: Limits

    /** The running counters are the number and total size of the listed images
        that have no surface. */
    ghost predicate Valid()
      reads this
    {
      CacheOk(images, backing, detachedCount, detachedBytes, lastSerial)
    }

    constructor (limits: Limits)
      ensures Valid() && images == [] && backing == map[] && this.limits == limits
    {
      images, backing, detachedCount, detachedBytes, lastSerial := [], map[], 0, 0, 0;
      this.limits := limits;
    }

    /** The scan for a victim. */
    method FindVictim() returns (found: bool, victim: nat)
      ensures found ==> Oldest(images, victim) && images[victim].surface.None? && images[victim].borrows == 0
      ensures found ==> forall j :: 0 <= j < |images| && images[j].surface.None? && images[j].borrows == 0 ==>
        images[victim].serial <= images[j].serial
      ensures !found ==> AllPinned(images)
    {
      found, victim := false, 0;
      for i := 0 to |images|
        invariant found ==> victim < i && Evictable(images[victim])
        invariant found ==> forall j :: 0 <= j < i && Evictable(images[j]) ==> images[victim].serial <= images[j].serial
        invariant !found ==> forall j :: 0 <= j < i ==> !Evictable(images[j])
      {
        if Evictable(images[i]) && (!found || images[i].serial < images[victim].serial) {
          found, victim := true, i;
        }
      }
    }

    /** One pass of the pruning loop. The subtractions are the source's saturating
        ones; the invariant means they never saturate. */
    method PruneOnce() returns (r: PruneOutcome, ghost v: nat)
      requires Valid()
      modifies this`images, this`detachedCount, this`detachedBytes
      ensures Valid()
      ensures r.WithinLimits? <==> Within(limits, old(detachedCount), old(detachedBytes))
      ensures r.AllBorrowed? ==> AllPinned(images)
      ensures !r.Evicted? ==>
        images == old(images) && detachedCount == old(detachedCount) && detachedBytes == old(detachedBytes)
      ensures r.Evicted? ==> r.victim.surface.None? && r.victim.borrows == 0
      ensures r.Evicted? ==>
        Oldest(old(images), v) && r.victim == old(images)[v] && images == RemoveAt(old(images), v)
    {
      hide CacheOk;
      v := 0;
      OverLimitIs(limits, detachedCount, detachedBytes);
      if !OverLimit(limits, detachedCount, detachedBytes) {
        return WithinLimits, v;
      }
      var found, index := FindVictim();
      if !found {
        return AllBorrowed, v;
      }
      v := index;
      RemovedKeeps(images, index, backing, detachedCount, detachedBytes, lastSerial);
      var victim := images[index];
      detachedBytes := Saturating(detachedBytes, MemorySize(victim));
      if detachedCount > 0 {
        detachedCount := detachedCount - 1;
      }
      images := images[..index] + images[index + 1..];
      return Evicted(victim), v;
    }

    /** Pruning ends: within the limits, or with every image attached or borrowed.
        It evicts detached images that are not borrowed, and keeps all others. */
    method Prune() returns (evicted: seq<Image>)
      requires Valid()
      modifies this`images, this`detachedCount, this`detachedBytes
      ensures Valid()
      ensures Pruned(limits, old(images), images, evicted)
      ensures Within(limits, detachedCount, detachedBytes) || AllPinned(images)
      ensures Within(limits, old(detachedCount), old(detachedBytes)) ==> images == old(images)
      ensures forall i :: 0 <= i < |evicted| ==> evicted[i] in old(images) && evicted[i].surface.None? && evicted[i].borrows == 0
      ensures forall k :: 0 <= k < |old(images)| && (old(images)[k].surface.Some? || old(images)[k].borrows > 0) ==>
        old(images)[k] in images
    {
      hide Pruned, DistinctIds, SerialsOk, LinksOk, CountOf, BytesOf, TotalOf;
      evicted := [];
      PrunedStart(limits, images);
      while true
        invariant Valid() && Pruned(limits, old(images), images, evicted)
        invariant Within(limits, old(detachedCount), old(detachedBytes)) ==>
          images == old(images) && detachedCount == old(detachedCount) && detachedBytes == old(detachedBytes)
        decreases |images|
      {
        ghost var before, count, bytes := images, detachedCount, detachedBytes;
        var r, v := PruneOnce();
        if !r.Evicted? {
          PrunedInPlain(limits, old(images), images, evicted);
          return;
        }
        PrunedExtends(limits, old(images), before, evicted, v, lastSerial);
        evicted := evicted + [r.victim];
      }
    }

    /** The region that takes an image off its surface and counts it as detached. */
    method MarkDetached(surface: Surface) returns (ghost i: nat)
      requires Valid() && surface in backing
      modifies this
      ensures Valid() && backing == old(backing) - {surface} && limits == old(limits)
      ensures i < |old(images)| && old(images)[i].id == old(backing)[surface]
      ensures lastSerial == old(lastSerial) + 1
      ensures images == old(images)[i := old(images)[i].(surface := None, serial := lastSerial)]
    {
      hide CacheOk;
      var k := FindSurface(surface);
      i := k;
      DetachedKeeps(images, k, backing, detachedCount, detachedBytes, lastSerial);
      lastSerial := lastSerial + 1;
      detachedCount := detachedCount + 1;
      detachedBytes := detachedBytes + MemorySize(images[k]);
      images := images[k := AsDetached(images[k], lastSerial)];
      backing := backing - {surface};
    }

    /** Takes the image off its surface and puts it in the cache, then prunes. */
    method Detach(surface: Surface) returns (evicted: seq<Image>)
      requires Valid()
      modifies this
      ensures Valid() && backing == old(backing) - {surface} && limits == old(limits)
      ensures surface !in old(backing) ==> images == old(images) && evicted == []
      ensures surface in old(backing) ==>
        exists i :: 0 <= i < |old(images)| && old(images)[i].id == old(backing)[surface] &&
          Pruned(limits, old(images)[i := old(images)[i].(surface := None, serial := old(lastSerial) + 1)], images, evicted)
      ensures surface in old(backing) ==> Within(limits, detachedCount, detachedBytes) || AllPinned(images)
    {
      hide CacheOk, Pruned;
      if surface !in backing {
        assert backing - {surface} == backing;
        return [];
      }
      var i := MarkDetached(surface);
      evicted := Prune();
    }

    /** The scan for the entry of a surface. */
    method FindSurface(surface: Surface) returns (i: nat)
      requires Valid() && surface in backing
      ensures i < |images| && images[i].surface == Some(surface) && images[i].id == backing[surface]
    {
      i := 0;
      while i < |images| && images[i].surface != Some(surface)
        invariant i <= |images|
        invariant forall j :: 0 <= j < i ==> images[j].surface != Some(surface)
      {
        i := i + 1;
      }
    }

    /** Reuses the first detached image of the right shape, if there is one. */
    method FindFree(surface: Surface, shape: Shape) returns (r: Option<nat>)
      requires Valid() && surface !in backing
      modifies this`images, this`backing, this`detachedCount, this`detachedBytes
      ensures Valid()
      ensures r.None? ==>
        && images == old(images) && backing == old(backing)
        && forall j :: 0 <= j < |images| ==>
             images[j].surface.Some? || images[j].shape != shape || |images[j].planes| != 2
      ensures r.Some? ==>
        exists i :: 0 <= i < |old(images)| && old(images)[i].surface.None? && old(images)[i].shape == shape &&
          |old(images)[i].planes| == 2 && r.value == old(images)[i].id &&
          images == old(images)[i := old(images)[i].(surface := Some(surface), serial := 0)] &&
          backing == old(backing)[surface := r.value] &&
          forall j :: 0 <= j < i ==> !Reusable(old(images)[j], shape)
    {
      hide CacheOk;
      var i := 0;
      while i < |images| && !Reusable(images[i], shape)
        invariant i <= |images|
        invariant forall j :: 0 <= j < i ==> !Reusable(images[j], shape)
      {
        i := i + 1;
      }
      if i == |images| {
        return None;
      }
      AttachedKeeps(images, i, surface, backing, detachedCount, detachedBytes, lastSerial);
      var img := images[i];
      detachedBytes := Saturating(detachedBytes, MemorySize(img));
      if detachedCount > 0 {
        detachedCount := detachedCount - 1;
      }
      images := images[i := img.(surface := Some(surface), serial := 0)];
      backing := backing[surface := img.id];
      return Some(img.id);
    }

    /** Gives a surface an image: its own, a cached one, or the new one in `made`
        when it could be made and listed. */
    method Realise(surface: Surface, shape: Shape, made: Option<Image>, listed: bool) returns (r: RealiseOutcome)
      requires Valid()
      requires made.Some? ==>
        && made.value.surface.None? && TotalOf(images) + MemorySize(made.value) <= UINT64_MAX
        && forall j :: 0 <= j < |images| ==> images[j].id != made.value.id
      modifies this`images, this`backing, this`detachedCount, this`detachedBytes
      ensures Valid()
      ensures r.Already? <==> surface in old(backing)
      ensures r.Already? || r.Failed? ==> images == old(images) && backing == old(backing)
      ensures r.Reused? ==> backing == old(backing)[surface := r.id] && |images| == |old(images)|
      ensures r.Added? ==>
        && made.Some? && images == old(images) + [made.value.(surface := Some(surface))]
        && backing == old(backing)[surface := made.value.id]
      ensures r.Added? || r.Failed? ==> forall j :: 0 <= j < |old(images)| ==> !Reusable(old(images)[j], shape)
    {
      hide CacheOk;
      if surface in backing {
        return Already;
      }
      var found := FindFree(surface, shape);
      if found.Some? {
        return Reused(found.value);
      }
      if made.None? {
        return Failed;
      }
      var added := ListImage(surface, made.value, listed);
      return if added then Added else Failed;
    }

    /** The region that lists a new image with its surface; `listed` is whether the
        list could grow. */
    method ListImage(surface: Surface, img: Image, listed: bool) returns (added: bool)
      requires Valid() && surface !in backing
      requires img.surface.None? && TotalOf(images) + MemorySize(img) <= UINT64_MAX
      requires forall j :: 0 <= j < |images| ==> images[j].id != img.id
      modifies this`images, this`backing
      ensures Valid()
      ensures added <==> listed && |old(images)| != UINT32_MAX
      ensures images == if added then old(images) + [img.(surface := Some(surface))] else old(images)
      ensures backing == if added then old(backing)[surface := img.id] else old(backing)
    {
      hide CacheOk;
      if !listed || |images| == UINT32_MAX {
        return false;
      }
      AddedKeeps(images, img, surface, backing, detachedCount, detachedBytes, lastSerial);
      images := images + [img.(surface := Some(surface))];
      backing := backing[surface := img.id];
      return true;
    }

    /** An import pins a listed image. */
    method Borrow(i: nat)
      requires Valid() && i < |images|
      modifies this`images
      ensures Valid() && images == old(images)[i := old(images)[i].(borrows := old(images)[i].borrows + 1)]
    {
      hide CacheOk;
      PinnedKeeps(images, i, images[i].borrows + 1, backing, detachedCount, detachedBytes, lastSerial);
      images := images[i := images[i].(borrows := images[i].borrows + 1)];
    }

    /** Releasing a borrow stops at zero. */
    method Release(i: nat)
      requires Valid() && i < |images|
      modifies this`images
      ensures Valid()
      ensures var was := old(images)[i];
        images == old(images)[i := was.(borrows := if was.borrows == 0 then 0 else was.borrows - 1)]
    {
      hide CacheOk;
      PinnedKeeps(images, i, Saturating(images[i].borrows, 1), backing, detachedCount, detachedBytes, lastSerial);
      images := images[i := images[i].(borrows := Saturating(images[i].borrows, 1))];
    }
  }
}
