/** The kernel's shared-memory objects and mappings, changed in place. */
module SharedObjects {
  import opened Bytes
  import opened Options
  import opened PhysAlloc
  import opened Paging
  import opened PageDirs
  import opened SharedMem
  import opened Zones

  /** The frames of the objects, and no others, are owned by the objects. */
  ghost predicate SharedOwners(f: map<nat, Owner>, objs: Objs) {
    && (forall id, k {:trigger objs[id][k]} :: 0 <= id < MAX_OBJS && 0 <= k < |objs[id]| ==>
          objs[id][k] in f && f[objs[id][k]] == Shared(id, k))
    && (forall g :: g in f && f[g].Shared? ==>
          f[g].obj < MAX_OBJS && f[g].page < |objs[f[g].obj]| && objs[f[g].obj][f[g].page] == g)
  }

  /** Pages `lo` to `hi - 1` of directory `d` are mapped exactly as the pool says. */
  ghost predicate Region(w: World, d: nat, objs: Objs, pool: seq<Mapping>, lo: nat, hi: nat) {
    && Shape(w) && d <= NUM_PAGE_DIRS && hi <= RECURSIVE * ENTRIES
    && forall v {:trigger Translate(w, d, v)} :: lo <= v < hi ==>
         SmallSlot(w, d, v) && Translate(w, d, v) == PoolMap(objs, pool, v)
  }

  /** The range was remapped and no frame changed its owner. */
  ghost predicate RangeDone(w: World, y: World, d: nat, v: nat, fs: seq<Option<nat>>) {
    RangeRemap(w, y, d, v, fs) && Foreign(y) == Foreign(w)
  }

  ghost predicate AllNone(fs: seq<Option<nat>>, n: nat) {
    |fs| == n && forall k :: 0 <= k < |fs| ==> fs[k] == None
  }

  /** The `n` pages from `v` on are mapped. */
  ghost predicate IsMapped(w: World, d: nat, v: nat, n: nat) {
    && Shape(w) && d <= NUM_PAGE_DIRS && v + n <= ENTRIES * ENTRIES
    && forall u {:trigger Translate(w, d, u)} :: v <= u < v + n ==> SmallSlot(w, d, u) && Translate(w, d, u) != None
  }

  /** Behind the last mapping of a pool its range is unmapped. */
  lemma FreeAhead(w: World, d: nat, objs: Objs, pool: seq<Mapping>, lo: nat, hi: nat, n: nat)
    requires Region(w, d, objs, pool, lo, hi) && PoolOk(objs, pool, lo, hi) && NextPage(objs, pool, lo) + n <= hi
    ensures var v := NextPage(objs, pool, lo);
            lo <= v && IsFree(w, d, v, n)
  {
    hide Translate;
    var v := NextPage(objs, pool, lo);
    forall u | v <= u < v + n
      ensures SmallSlot(w, d, u) && Translate(w, d, u) == None
    {
      BehindPool(objs, pool, lo, hi, u);
      PoolMapNone(objs, pool, u);
      assert Translate(w, d, u) == PoolMap(objs, pool, u);
    }
  }

  ghost predicate IsFrames(fs: seq<Option<nat>>, frames: seq<nat>) {
    |fs| == |frames| && forall k :: 0 <= k < |fs| ==> fs[k] == Some(frames[k])
  }

  /** What a mapped or unmapped range of one pool does to the range of another. */
  lemma OtherRegion(w: World, y: World, d: nat, v: nat, fs: seq<Option<nat>>, e: nat, objs: Objs, pool: seq<Mapping>,
                    lo: nat, hi: nat)
    requires RangeDone(w, y, d, v, fs) && Region(w, e, objs, pool, lo, hi) && Live(w, e)
    requires (e != d && (v + |fs|) <= USER_SHARED_END) || v + |fs| <= lo || hi <= v
    ensures Region(y, e, objs, pool, lo, hi)
  {
    hide Sound, Foreign, Translate, PoolMap;
    forall u | lo <= u < hi
      ensures SmallSlot(y, e, u) && Translate(y, e, u) == PoolMap(objs, pool, u)
    {
      assert Translate(w, e, u) == PoolMap(objs, pool, u);
      assert SmallSlot(w, e, u);
    }
  }

  /** Mapping an object behind the last mapping of the pool. */
  lemma MappedRegion(w: World, y: World, d: nat, objs: Objs, pool: seq<Mapping>, lo: nat, hi: nat, id: nat,
                     fs: seq<Option<nat>>)
    requires Region(w, d, objs, pool, lo, hi) && PoolOk(objs, pool, lo, hi) && Live(w, d)
    requires |pool| < MAX_MAPPINGS && id < MAX_OBJS && objs[id] != [] && NextPage(objs, pool, lo) + |objs[id]| <= hi
    requires |fs| == |objs[id]| && forall k :: 0 <= k < |fs| ==> fs[k] == Some(objs[id][k])
    requires RangeDone(w, y, d, NextPage(objs, pool, lo), fs)
    ensures var longer := pool + [Mapping(NextPage(objs, pool, lo), id)];
            PoolOk(objs, longer, lo, hi) && Region(y, d, objs, longer, lo, hi)
  {
    hide Sound, Foreign, Translate, PoolMap;
    var longer := pool + [Mapping(NextPage(objs, pool, lo), id)];
    AddedMap(objs, pool, lo, hi, id, lo);
    forall u | lo <= u < hi
      ensures SmallSlot(y, d, u) && Translate(y, d, u) == PoolMap(objs, longer, u)
    {
      AddedMap(objs, pool, lo, hi, id, u);
      assert Translate(w, d, u) == PoolMap(objs, pool, u);
      assert SmallSlot(w, d, u);
    }
  }

  /** Unmapping the mapping in slot `a` of the pool. */
  lemma UnmappedRegion(w: World, y: World, d: nat, objs: Objs, pool: seq<Mapping>, lo: nat, hi: nat, a: nat,
                       fs: seq<Option<nat>>)
    requires Region(w, d, objs, pool, lo, hi) && PoolOk(objs, pool, lo, hi) && Live(w, d) && a < |pool|
    requires |fs| == Size(objs, pool[a]) && forall k :: 0 <= k < |fs| ==> fs[k] == None
    requires RangeDone(w, y, d, pool[a].page, fs)
    ensures PoolOk(objs, Removed(pool, a), lo, hi) && Region(y, d, objs, Removed(pool, a), lo, hi)
  {
    hide Sound, Foreign, Translate, PoolMap, Removed;
    RemovedOk(objs, pool, lo, hi, a);
    forall u | lo <= u < hi
      ensures SmallSlot(y, d, u) && Translate(y, d, u) == PoolMap(objs, Removed(pool, a), u)
    {
      RemovedMap(objs, pool, lo, hi, a, u);
      assert Translate(w, d, u) == PoolMap(objs, pool, u);
      assert SmallSlot(w, d, u);
    }
  }

  function FirstPage(p: nat): nat {
    if p == KERNEL_POOL then KERNEL_SHARED else USER_SHARED
  }

  function EndPage(p: nat): nat {
    if p == KERNEL_POOL then KERNEL_SHARED_END else USER_SHARED_END
  }

  /** The directory pool `p` belongs to. */
  function DirOf(spaces: seq<Option<nat>>, p: nat): Option<nat>
    requires |spaces| == MAX_TASKS && p <= KERNEL_POOL
  {
    if p == KERNEL_POOL then Some(INITIAL) else spaces[p]
  }

  /** Pool `p` is in order, and its address range is mapped as it says. */
  ghost predicate PoolFits(w: World, objs: Objs, pools: seq<seq<Mapping>>, spaces: seq<Option<nat>>, p: nat)
    requires Shape(w) && |spaces| == MAX_TASKS && |pools| == MAX_TASKS + 1 && p <= KERNEL_POOL
  {
    match DirOf(spaces, p)
    case None => pools[p] == []
    case Some(d) =>
      && d <= NUM_PAGE_DIRS && Live(w, d) && (p < MAX_TASKS ==> d < NUM_PAGE_DIRS)
      && PoolOk(objs, pools[p], FirstPage(p), EndPage(p))
      && Region(w, d, objs, pools[p], FirstPage(p), EndPage(p))
  }

  /** All pools are in order, address ranges are mapped as they say, no two tasks share a
      directory, and each object owns its frames. */
  ghost predicate Layout(w: World, objs: Objs, pools: seq<seq<Mapping>>, spaces: seq<Option<nat>>): (r: bool)
    ensures r ==> Shape(w) && |spaces| == MAX_TASKS && |pools| == MAX_TASKS + 1
  {
    && Shape(w) && |spaces| == MAX_TASKS && |pools| == MAX_TASKS + 1
    && SharedOwners(Foreign(w), objs)
    && (forall p :: 0 <= p <= KERNEL_POOL ==> PoolFits(w, objs, pools, spaces, p))
    && (forall p, q :: 0 <= p < q < MAX_TASKS && spaces[p].Some? ==> spaces[p] != spaces[q])
  }

  /** Changing the mapped pages of pool `p` alone. */
  lemma OtherPools(w: World, y: World, objs: Objs, pools: seq<seq<Mapping>>, spaces: seq<Option<nat>>, p: nat, q: nat,
                   v: nat, fs: seq<Option<nat>>, pool: seq<Mapping>)
    requires Layout(w, objs, pools, spaces) && p <= KERNEL_POOL && q <= KERNEL_POOL && p != q && DirOf(spaces, p).Some?
    requires FirstPage(p) <= v && v + |fs| <= EndPage(p) && RangeDone(w, y, DirOf(spaces, p).value, v, fs)
    ensures PoolFits(y, objs, pools[p := pool], spaces, q)
  {
    hide SharedOwners, RangeDone, PoolOk, Region;
    assert PoolFits(w, objs, pools, spaces, q);
    var d := DirOf(spaces, p).value;
    RangeShape(w, y, d, v, fs);
    if DirOf(spaces, q).Some? {
      var e := DirOf(spaces, q).value;
      assert q < p < MAX_TASKS || p < q < MAX_TASKS ==> spaces[p] != spaces[q];
      OtherRegion(w, y, d, v, fs, e, objs, pools[q], FirstPage(q), EndPage(q));
    }
  }

  lemma RangeShape(w: World, y: World, d: nat, v: nat, fs: seq<Option<nat>>)
    requires RangeDone(w, y, d, v, fs)
    ensures Shape(y) && y.inUse == w.inUse && Foreign(y) == Foreign(w)
  {
  }

  /** The pages of a mapping are mapped. */
  lemma MappedThere(w: World, objs: Objs, pools: seq<seq<Mapping>>, spaces: seq<Option<nat>>, p: nat, a: nat)
    requires Layout(w, objs, pools, spaces) && p <= KERNEL_POOL && DirOf(spaces, p).Some? && a < |pools[p]|
    ensures var m, d := pools[p][a], DirOf(spaces, p).value;
            && d <= NUM_PAGE_DIRS && Live(w, d) && m.obj < MAX_OBJS && FirstPage(p) <= m.page &&
               EndOf(objs, m) <= EndPage(p)
            && IsMapped(w, d, m.page, |objs[m.obj]|)
  {
    hide SharedOwners, Translate;
    assert PoolFits(w, objs, pools, spaces, p);
    var m, d := pools[p][a], DirOf(spaces, p).value;
    forall u | m.page <= u < EndOf(objs, m)
      ensures SmallSlot(w, d, u) && Translate(w, d, u) == Some(objs[m.obj][u - m.page])
    {
      PoolMapAt(objs, pools[p], FirstPage(p), EndPage(p), a, u);
      assert Translate(w, d, u) == PoolMap(objs, pools[p], u);
    }
  }

  lemma MapLayout(w: World, y: World, objs: Objs, pools: seq<seq<Mapping>>, spaces: seq<Option<nat>>, p: nat, id: nat,
                  fs: seq<Option<nat>>)
    requires Layout(w, objs, pools, spaces) && p <= KERNEL_POOL && DirOf(spaces, p).Some?
    requires |pools[p]| < MAX_MAPPINGS && id < MAX_OBJS && objs[id] != []
    requires var page := NextPage(objs, pools[p], FirstPage(p));
             FirstPage(p) <= page && page + |objs[id]| <= EndPage(p) &&
             RangeDone(w, y, DirOf(spaces, p).value, page, fs)
    requires IsFrames(fs, objs[id])
    ensures Layout(y, objs, pools[p := pools[p] + [Mapping(NextPage(objs, pools[p], FirstPage(p)), id)]], spaces)
  {
    hide SharedOwners, RangeDone, PoolOk, Region;
    var page, d := NextPage(objs, pools[p], FirstPage(p)), DirOf(spaces, p).value;
    var longer := pools[p] + [Mapping(page, id)];
    assert PoolFits(w, objs, pools, spaces, p);
    RangeShape(w, y, d, page, fs);
    MappedRegion(w, y, d, objs, pools[p], FirstPage(p), EndPage(p), id, fs);
    var next := pools[p := longer];
    forall q | 0 <= q <= KERNEL_POOL
      ensures PoolFits(y, objs, next, spaces, q)
    {
      if q != p {
        OtherPools(w, y, objs, pools, spaces, p, q, page, fs, longer);
      }
    }
  }

  lemma UnmapLayout(w: World, y: World, objs: Objs, pools: seq<seq<Mapping>>, spaces: seq<Option<nat>>, p: nat, a: nat,
                    fs: seq<Option<nat>>)
    requires Layout(w, objs, pools, spaces) && p <= KERNEL_POOL && DirOf(spaces, p).Some? && a < |pools[p]|
    requires RangeDone(w, y, DirOf(spaces, p).value, pools[p][a].page, fs) && AllNone(fs, Size(objs, pools[p][a]))
    ensures Layout(y, objs, pools[p := Removed(pools[p], a)], spaces)
  {
    var page, d := pools[p][a].page, DirOf(spaces, p).value;
    assert PoolFits(w, objs, pools, spaces, p);
    hide SharedOwners, RangeDone, Region;
    RangeShape(w, y, d, page, fs);
    UnmappedRegion(w, y, d, objs, pools[p], FirstPage(p), EndPage(p), a, fs);
    var next := pools[p := Removed(pools[p], a)];
    forall q | 0 <= q <= KERNEL_POOL
      ensures PoolFits(y, objs, next, spaces, q)
    {
      if q != p {
        OtherPools(w, y, objs, pools, spaces, p, q, page, fs, Removed(pools[p], a));
      }
    }
  }

  /** Pages needed for `size` bytes, as the 32-bit rounding computes them. */
  function PagesFor(size: dword): nat {
    (size + 0xFFF) % 0x1_0000_0000 / 0x1000
  }

  lemma GiveParts(w: World, f: nat, o: Owner)
    requires Shape(w)
    ensures var y := Give(w, f, o);
            Shape(y) && y.dirs == w.dirs && y.tables == w.tables && y.inUse == w.inUse && y.used == w.used + {f}
  {
  }

  lemma InForeign(w: World, f: nat)
    requires f in Foreign(w)
    ensures f in w.owner && IsForeign(w.owner[f])
  {
  }

  /** Pools that do not map an object do not depend on it. */
  lemma {:induction false} OtherObject(objs: Objs, pool: seq<Mapping>, id: nat, frames: seq<nat>, v: nat)
    requires id < MAX_OBJS && !Refers(pool, id)
    ensures PoolMap(objs[id := frames], pool, v) == PoolMap(objs, pool, v)
  {
    if pool != [] {
      assert pool[|pool| - 1].obj != id;
      assert !Refers(pool[..|pool| - 1], id) by {
        assert forall a :: 0 <= a < |pool| - 1 ==> pool[..|pool| - 1][a] == pool[a];
      }
      OtherObject(objs, pool[..|pool| - 1], id, frames, v);
    }
  }

  lemma OtherObjectPool(w: World, y: World, d: nat, objs: Objs, pool: seq<Mapping>, lo: nat, hi: nat, id: nat,
                        frames: seq<nat>)
    requires PoolOk(objs, pool, lo, hi) && Region(w, d, objs, pool, lo, hi) && id < MAX_OBJS && !Refers(pool, id)
    requires Shape(y) && y.dirs == w.dirs && y.tables == w.tables
    ensures PoolOk(objs[id := frames], pool, lo, hi) && Region(y, d, objs[id := frames], pool, lo, hi)
  {
    forall u | lo <= u < hi
      ensures SmallSlot(y, d, u) && Translate(y, d, u) == PoolMap(objs[id := frames], pool, u)
    {
      OtherObject(objs, pool, id, frames, u);
      assert Translate(w, d, u) == PoolMap(objs, pool, u);
      assert SmallSlot(w, d, u);
    }
  }

  lemma LayoutOwners(w: World, objs: Objs, pools: seq<seq<Mapping>>, spaces: seq<Option<nat>>)
    requires Layout(w, objs, pools, spaces)
    ensures SharedOwners(Foreign(w), objs)
  {
  }

  /** The frames of an object are distinct. */
  lemma Distinct(f: map<nat, Owner>, objs: Objs, id: nat, i: nat)
    requires SharedOwners(f, objs) && id < MAX_OBJS && i < |objs[id]|
    ensures objs[id][i] in f && f[objs[id][i]] == Shared(id, i) && objs[id][i] !in objs[id][..i]
  {
    var frames := objs[id];
    forall j | 0 <= j < i
      ensures frames[j] != frames[i]
    {
      assert f[objs[id][i]] == Shared(id, i) && f[objs[id][j]] == Shared(id, j);
    }
  }

  /** One more frame of an object is freed. */
  lemma FreedStep(f: map<nat, Owner>, used: set<nat>, frames: seq<nat>, i: nat)
    requires i < |frames|
    ensures used - FrameSet(frames[..i]) - {frames[i]} == used - FrameSet(frames[..i + 1])
    ensures f - FrameSet(frames[..i]) - {frames[i]} == f - FrameSet(frames[..i + 1])
  {
    assert frames[..i + 1] == frames[..i] + [frames[i]];
    assert FrameSet(frames[..i + 1]) == FrameSet(frames[..i]) + {frames[i]};
  }

  /** Only the set of used frames and their owners changed. */
  ghost predicate OnlyFreed(w: World, y: World) {
    y == w.(used := y.used, owner := y.owner)
  }

  lemma FreedNone(w: World)
    ensures OnlyFreed(w, w)
  {
  }

  lemma FreedOne(w: World, x: World, f: nat)
    requires OnlyFreed(w, x)
    ensures OnlyFreed(w, Release(x, f)) && Release(x, f).used == x.used - {f}
  {
  }

  lemma HasSpace(w: World, objs: Objs, pools: seq<seq<Mapping>>, spaces: seq<Option<nat>>, p: nat)
    requires Layout(w, objs, pools, spaces) && p <= KERNEL_POOL && pools[p] != []
    ensures DirOf(spaces, p).Some?
  {
    assert PoolFits(w, objs, pools, spaces, p);
  }

  /** A free slot or one still being filled is in no pool. */
  lemma GrowLayout(w: World, y: World, objs: Objs, pools: seq<seq<Mapping>>, spaces: seq<Option<nat>>, id: nat, f: nat)
    requires Layout(w, objs, pools, spaces) && id < MAX_OBJS
    requires Shape(y) && y.dirs == w.dirs && y.tables == w.tables && y.inUse == w.inUse
    requires f !in Foreign(w) && Foreign(y) == Foreign(w)[f := Shared(id, |objs[id]|)]
    requires forall p :: 0 <= p <= KERNEL_POOL ==> !Refers(pools[p], id)
    ensures Layout(y, objs[id := objs[id] + [f]], pools, spaces)
  {
    hide Foreign, Translate;
    var frames := objs[id] + [f];
    var next := objs[id := frames];
    assert SharedOwners(Foreign(y), next);
    OtherObjectPools(w, y, objs, pools, spaces, id, frames);
  }

  lemma OtherObjectPools(w: World, y: World, objs: Objs, pools: seq<seq<Mapping>>, spaces: seq<Option<nat>>, id: nat,
                         frames: seq<nat>)
    requires Layout(w, objs, pools, spaces) && id < MAX_OBJS
    requires Shape(y) && y.dirs == w.dirs && y.tables == w.tables && y.inUse == w.inUse
    requires forall p :: 0 <= p <= KERNEL_POOL ==> !Refers(pools[p], id)
    ensures var next := objs[id := frames]; forall p :: 0 <= p <= KERNEL_POOL ==> PoolFits(y, next, pools, spaces, p)
  {
    hide SharedOwners, Region, PoolOk, Refers;
    var next := objs[id := frames];
    forall p | 0 <= p <= KERNEL_POOL
      ensures PoolFits(y, next, pools, spaces, p)
    {
      assert PoolFits(w, objs, pools, spaces, p);
      if DirOf(spaces, p).Some? {
        OtherObjectPool(w, y, DirOf(spaces, p).value, objs, pools[p], FirstPage(p), EndPage(p), id, frames);
      }
    }
  }

  /** The pages of a pool's range lie in the shared zone. */
  lemma SharedRange(w: World, y: World, p: nat, d: nat, v: nat, fs: seq<Option<nat>>)
    requires RangeDone(w, y, d, v, fs) && FirstPage(p) <= v && v + |fs| <= EndPage(p)
    ensures SameOutside(w, y, SharedZone)
  {
    OutsideRange(w, y, d, v, fs, SharedZone);
  }

  lemma FreedOutside(w: World, y: World)
    requires OnlyFreed(w, y) && Shape(w) && Shape(y)
    ensures SameOutside(w, y, SharedZone)
  {
    OutsideNone(w, y, SharedZone);
  }

  lemma FreedHeap(w: World, y: World, objs: Objs, id: nat)
    requires SharedOwners(Foreign(w), objs) && id < MAX_OBJS && Foreign(y) == Foreign(w) - FrameSet(objs[id])
    ensures HeapOf(y) == HeapOf(w)
  {
    hide Foreign;
    forall f | f in FrameSet(objs[id])
      ensures f in Foreign(w) && Foreign(w)[f].Shared?
    {
      var k :| 0 <= k < |objs[id]| && objs[id][k] == f;
    }
  }

  lemma HeapStays(w: World, y: World, f: nat, id: nat, k: nat)
    requires f !in Foreign(w) && Foreign(y) == Foreign(w)[f := Shared(id, k)]
    ensures HeapOf(y) == HeapOf(w)
  {
    hide Foreign;
    forall g | g in Foreign(y) && Foreign(y)[g].HeapPage?
      ensures g in Foreign(w)
    {
    }
  }

  /** No pool maps an object that does not exist. */
  lemma NotReferred(w: World, objs: Objs, pools: seq<seq<Mapping>>, spaces: seq<Option<nat>>, id: nat)
    requires Layout(w, objs, pools, spaces) && id < MAX_OBJS && objs[id] == []
    ensures forall p :: 0 <= p <= KERNEL_POOL ==> !Refers(pools[p], id)
  {
    hide SharedOwners, Region;
    forall p | 0 <= p <= KERNEL_POOL
      ensures !Refers(pools[p], id)
    {
      assert PoolFits(w, objs, pools, spaces, p);
    }
  }

  function FrameSet(frames: seq<nat>): set<nat> {
    set f | f in frames
  }

  lemma FreedOwners(f: map<nat, Owner>, objs: Objs, id: nat)
    requires SharedOwners(f, objs) && id < MAX_OBJS
    ensures SharedOwners(f - FrameSet(objs[id]), objs[id := []])
  {
    var rest := f - FrameSet(objs[id]);
    forall i, k | 0 <= i < MAX_OBJS && i != id && 0 <= k < |objs[i]|
      ensures objs[i][k] in rest && rest[objs[i][k]] == Shared(i, k)
    {
      var frames := objs[id];
      forall j | 0 <= j < |frames|
        ensures frames[j] != objs[i][k]
      {
        assert f[objs[i][k]] == Shared(i, k) && f[objs[id][j]] == Shared(id, j);
      }
    }
  }

  /** What is left after a destroy is in order exactly when every sweep was complete. */
  lemma DestroyedLayout(w: World, y: World, objs: Objs, before: seq<seq<Mapping>>, pools: seq<seq<Mapping>>,
                        spaces: seq<Option<nat>>, id: nat)
    requires Layout(w, objs, pools, spaces) && id < MAX_OBJS && |before| == MAX_TASKS + 1
    requires forall p :: 0 <= p <= KERNEL_POOL ==> pools[p] == Swept(before[p], id, 0)
    requires OnlyFreed(w, y) && Shape(y) && Foreign(y) == Foreign(w) - FrameSet(objs[id])
    ensures Layout(y, objs[id := []], pools, spaces) <==>
              forall p :: 0 <= p <= KERNEL_POOL ==> NoneAdjacent(before[p], id)
  {
    hide Foreign, Translate, Swept, NoneAdjacent, Refers;
    forall p | 0 <= p <= KERNEL_POOL
      ensures NoneAdjacent(before[p], id) <==> !Refers(pools[p], id)
    {
      SweptClean(before[p], id);
    }
    FreedOwners(Foreign(w), objs, id);
    if forall p :: 0 <= p <= KERNEL_POOL ==> NoneAdjacent(before[p], id) {
      OtherObjectPools(w, y, objs, pools, spaces, id, []);
    }
    if Layout(y, objs[id := []], pools, spaces) {
      NotReferred(y, objs[id := []], pools, spaces, id);
    }
  }

  class SharedMemory {
    const mem: Memory
    var objs: Objs
    var pools: seq<seq<Mapping>>
    var spaces: seq<Option<nat>>     // each task's directory; none for dead and for kernel tasks

    constructor (mem: Memory)
      requires mem.Valid() && SharedOwners(Foreign(mem.Now()), seq(256, _ => []))
      requires Region(mem.Now(), INITIAL, seq(256, _ => []), [], KERNEL_SHARED, KERNEL_SHARED_END)
      ensures Valid() && this.mem == mem && objs == seq(256, _ => [])
      ensures pools == seq(MAX_TASKS + 1, _ => []) && spaces == seq(MAX_TASKS, _ => None)
    {
      this.mem := mem;
      objs := seq(256, _ => []);
      pools := seq(MAX_TASKS + 1, _ => []);
      spaces := seq(MAX_TASKS, _ => None);
    }

    ghost predicate Valid()
      reads this, mem, mem.pmm, mem.pmm.bitmap
    {
      mem.Valid() && Layout(mem.Now(), objs, pools, spaces)
    }

    predicate Exists(id: nat)
      reads this`objs
    {
      id < MAX_OBJS && objs[id] != []
    }

    /** Maps the frames from page `v` on in directory `d`. */
    method MapRange(d: nat, v: nat, frames: seq<nat>, user: bool) returns (ok: bool)
      requires mem.Valid() && d <= NUM_PAGE_DIRS && Live(mem.Now(), d)
      requires v + |frames| <= (if d == INITIAL then RECURSIVE * ENTRIES else KERNEL_SLOT * ENTRIES)
      requires IsFree(mem.Now(), d, v, |frames|)
      modifies mem, mem.pmm`total, mem.pmm.bitmap
      ensures mem.Valid() && mem.cur == old(mem.cur)
      ensures ok ==> exists fs :: IsFrames(fs, frames) && RangeDone(old(mem.Now()), mem.Now(), d, v, fs)
      ensures !ok ==> forall g: nat :: mem.pmm.Managed(g) ==> g in mem.Now().used
    {
      hide Sound, Owned, Foreign, Translate, Synced, NoEmptyTable, NoNewLarge, Done;
      ghost var w := mem.Now();
      ghost var fs: seq<Option<nat>> := [];
      var prev := mem.cur;
      mem.cur := d;
      RemapNone(w, d, v);
      var i := 0;
      while i < |frames|
        invariant 0 <= i <= |frames| && mem.Valid() && mem.cur == d
        invariant |fs| == i && RangeDone(w, mem.Now(), d, v, fs) && forall k :: 0 <= k < i ==> fs[k] == Some(frames[k])
      {
        ghost var x := mem.Now();
        assert Translate(x, d, v + i) == Translate(w, d, v + i);
        SmallStays(w, x, d, v + i);
        ok := mem.MapPage(v + i, frames[i], Flags(true, user, false));
        if !ok {
          mem.cur := prev;
          return;
        }
        RemapStep(w, x, mem.Now(), d, v, fs, Some(frames[i]));
        fs := fs + [Some(frames[i])];
        i := i + 1;
      }
      mem.cur := prev;
      assert IsFrames(fs, frames);
      return true;
    }

    /** Unmaps `n` pages from page `v` on in directory `d`. */
    method UnmapRange(d: nat, v: nat, n: nat)
      requires mem.Valid() && d <= NUM_PAGE_DIRS && Live(mem.Now(), d)
      requires v + n <= (if d == INITIAL then RECURSIVE * ENTRIES else KERNEL_SLOT * ENTRIES)
      requires IsMapped(mem.Now(), d, v, n)
      modifies mem, mem.pmm`total, mem.pmm.bitmap
      ensures mem.Valid() && mem.cur == old(mem.cur)
      ensures exists fs :: AllNone(fs, n) && RangeDone(old(mem.Now()), mem.Now(), d, v, fs)
    {
      hide Sound, Owned, Foreign, Translate, Synced, NoEmptyTable, NoNewLarge, Done;
      ghost var w := mem.Now();
      ghost var fs: seq<Option<nat>> := [];
      var prev := mem.cur;
      mem.cur := d;
      RemapNone(w, d, v);
      var i := 0;
      while i < n
        invariant 0 <= i <= n && mem.Valid() && mem.cur == d
        invariant |fs| == i && RangeDone(w, mem.Now(), d, v, fs) && forall k :: 0 <= k < i ==> fs[k] == None
      {
        ghost var x := mem.Now();
        assert Translate(x, d, v + i) == Translate(w, d, v + i);
        SmallStays(w, x, d, v + i);
        var e := mem.UnmapPage(v + i);
        RemapStep(w, x, mem.Now(), d, v, fs, None);
        fs := fs + [None];
        i := i + 1;
      }
      mem.cur := prev;
      assert AllNone(fs, n);
    }

    /** Notes a new mapping of object `id` behind the last one of pool `p`. */
    method InsertIntoPool(p: nat, id: nat) returns (page: nat)
      requires |pools| == MAX_TASKS + 1 && p <= KERNEL_POOL && |pools[p]| < MAX_MAPPINGS
      modifies this`pools
      ensures page == NextPage(objs, old(pools[p]), FirstPage(p))
      ensures pools == old(pools)[p := old(pools[p]) + [Mapping(page, id)]]
    {
      var pool := pools[p];
      page := FirstPage(p);
      if |pool| > 0 {
        var last := pool[|pool| - 1];
        page := last.page + Size(objs, last);
      }
      pools := pools[p := pool + [Mapping(page, id)]];
    }

    /** Maps object `id` behind the last mapping of pool `p` and returns where it begins. */
    method Map(id: nat, p: nat) returns (page: nat, ok: bool)
      requires Valid() && Exists(id) && p <= KERNEL_POOL && DirOf(spaces, p).Some? && |pools[p]| < MAX_MAPPINGS
      requires NextPage(objs, pools[p], FirstPage(p)) + |objs[id]| <= EndPage(p)
      modifies this`pools, mem, mem.pmm`total, mem.pmm.bitmap
      ensures mem.cur == old(mem.cur)
      ensures page == NextPage(objs, old(pools[p]), FirstPage(p))
      ensures pools == old(pools)[p := old(pools[p]) + [Mapping(page, id)]]
      ensures ok ==>
                && Valid() && Foreign(mem.Now()) == Foreign(old(mem.Now()))
                && SameOutside(old(mem.Now()), mem.Now(), SharedZone)
      ensures !ok ==> mem.Valid() && forall g: nat :: mem.pmm.Managed(g) ==> g in mem.Now().used
    {
      hide Sound, Owned, Foreign, Translate, RangeDone, PoolOk, Region, SharedOwners;
      ghost var w, before := mem.Now(), pools;
      var d := DirOf(spaces, p).value;
      assert PoolFits(w, objs, pools, spaces, p);
      FreeAhead(w, d, objs, before[p], FirstPage(p), EndPage(p), |objs[id]|);
      page := InsertIntoPool(p, id);
      assert mem.Now() == w;
      ok := MapRange(d, page, objs[id], p != KERNEL_POOL);
      if ok {
        ghost var fs :| IsFrames(fs, objs[id]) && RangeDone(w, mem.Now(), d, page, fs);
        RangeShape(w, mem.Now(), d, page, fs);
        SharedRange(w, mem.Now(), p, d, page, fs);
        MapLayout(w, mem.Now(), objs, before, spaces, p, id, fs);
      }
    }

    /** Unmaps the first mapping of object `id` in pool `p`. */
    method Unmap(id: nat, p: nat)
      requires Valid() && Exists(id) && p <= KERNEL_POOL && DirOf(spaces, p).Some? && IndexOf(pools[p], id) < |pools[p]|
      modifies this`pools, mem, mem.pmm`total, mem.pmm.bitmap
      ensures Valid() && Foreign(mem.Now()) == Foreign(old(mem.Now())) &&
              SameOutside(old(mem.Now()), mem.Now(), SharedZone)
      ensures mem.cur == old(mem.cur)
      ensures pools == old(pools)[p := Removed(old(pools[p]), IndexOf(old(pools[p]), id))]
    {
      hide Sound, Owned, Foreign, Translate, RangeDone, PoolOk, Region, SharedOwners;
      ghost var w := mem.Now();
      var d := DirOf(spaces, p).value;
      var a := FindMapping(pools[p], id);
      var page := pools[p][a].page;
      MappedThere(w, objs, pools, spaces, p, a);
      UnmapRange(d, page, |objs[id]|);
      ghost var fs :| AllNone(fs, |objs[id]|) && RangeDone(w, mem.Now(), d, page, fs);
      RangeShape(w, mem.Now(), d, page, fs);
      SharedRange(w, mem.Now(), p, d, page, fs);
      UnmapLayout(w, mem.Now(), objs, pools, spaces, p, a, fs);
      RemoveFromPool(p, a);
    }

    method FindMapping(pool: seq<Mapping>, id: nat) returns (a: nat)
      requires IndexOf(pool, id) < |pool|
      ensures a == IndexOf(pool, id)
    {
      a := 0;
      while pool[a].obj != id
        invariant 0 <= a <= IndexOf(pool, id)
        decreases |pool| - a
      {
        a := a + 1;
      }
    }

    /** Closes the gap at slot `a`. */
    method RemoveFromPool(p: nat, a: nat)
      requires |pools| == MAX_TASKS + 1 && p <= KERNEL_POOL && a < |pools[p]|
      modifies this`pools
      ensures pools == old(pools)[p := Removed(old(pools[p]), a)]
    {
      ghost var was := pools[p];
      var pool := pools[p];
      var i := a;
      while i < |pool| - 1
        invariant a <= i < |pool| == |was|
        invariant forall k :: 0 <= k < a || i <= k < |pool| ==> pool[k] == was[k]
        invariant forall k :: a <= k < i ==> pool[k] == was[k + 1]
      {
        pool := pool[i := pool[i + 1]];
        i := i + 1;
      }
      pools := pools[p := pool[..|pool| - 1]];
      assert pools[p] == Removed(was, a);
    }

    /** Makes an object of `size` bytes in the first free slot. A size so large that rounding it up
        wraps makes an object of no pages. */
    method Create(size: dword) returns (id: Option<nat>, ok: bool)
      requires Valid() && size != 0
      modifies this`objs, mem, mem.pmm`total, mem.pmm.bitmap
      ensures mem.Valid() && mem.cur == old(mem.cur)
      ensures id == None <==> forall i :: 0 <= i < MAX_OBJS ==> old(objs)[i] != []
      ensures id == None ==> ok && Valid() && objs == old(objs) && mem.Now() == old(mem.Now())
      ensures id.Some? && ok ==>
                && Valid() && id.value < MAX_OBJS && old(objs)[id.value] == [] &&
                     (forall i :: 0 <= i < id.value ==> old(objs)[i] != [])
                && objs == old(objs)[id.value := objs[id.value]] && |objs[id.value]| == PagesFor(size)
                && (forall k :: 0 <= k < |objs[id.value]| ==> objs[id.value][k] !in old(mem.Now()).used)
                && (Exists(id.value) <==> size <= 0xFFFF_F000)
      ensures ok && NoneHeld(old(mem.Now())) ==> NoneHeld(mem.Now())
      ensures SameOutside(old(mem.Now()), mem.Now(), SharedZone) && HeapOf(mem.Now()) == HeapOf(old(mem.Now()))
      ensures !ok ==> forall g: nat :: mem.pmm.Managed(g) ==> g in mem.Now().used
    {
      hide Sound, Owned, Foreign, Translate, Layout, HeapOf, SameOutside;
      OutsideNone(mem.Now(), mem.Now(), SharedZone);
      var slot := 0;
      while slot < MAX_OBJS && objs[slot] != []
        invariant 0 <= slot <= MAX_OBJS && forall i :: 0 <= i < slot ==> objs[i] != []
      {
        slot := slot + 1;
      }
      if slot == MAX_OBJS {
        return None, true;
      }
      ok := Fill(slot, PagesFor(size));
      return Some(slot), ok;
    }

    /** Allocates one more frame for the object in `slot`. */
    method AddFrame(slot: nat) returns (ok: bool)
      requires Valid() && slot < MAX_OBJS && forall p :: 0 <= p <= KERNEL_POOL ==> !Refers(pools[p], slot)
      modifies this`objs, mem, mem.pmm`total, mem.pmm.bitmap
      ensures mem.Valid() && mem.cur == old(mem.cur)
      ensures ok ==>
                && Valid() && |objs[slot]| == |old(objs)[slot]| + 1
                && objs == old(objs)[slot := old(objs)[slot] + [objs[slot][|objs[slot]| - 1]]]
                && objs[slot][|objs[slot]| - 1] !in old(mem.Now()).used && old(mem.Now()).used <= mem.Now().used
      ensures NoneHeld(old(mem.Now())) ==> NoneHeld(mem.Now())
      ensures SameOutside(old(mem.Now()), mem.Now(), SharedZone) && HeapOf(mem.Now()) == HeapOf(old(mem.Now()))
      ensures !ok ==> objs == old(objs) && forall g: nat :: mem.pmm.Managed(g) ==> g in mem.Now().used
    {
      hide Sound, Owned, Foreign, Translate, Layout, SharedOwners, Refers, Give, HeapOf, SameOutside;
      ghost var x := mem.Now();
      OutsideNone(x, x, SharedZone);
      var f := mem.AllocFor(Shared(slot, |objs[slot]|));
      if f.None? {
        return false;
      }
      NotForeign(x, f.value);
      GiveParts(x, f.value, Shared(slot, |objs[slot]|));
      OutsideNone(x, mem.Now(), SharedZone);
      HeapStays(x, mem.Now(), f.value, slot, |objs[slot]|);
      GrowLayout(x, mem.Now(), objs, pools, spaces, slot, f.value);
      objs := objs[slot := objs[slot] + [f.value]];
      return true;
    }

    /** Gives the object in a free slot its frames. */
    method Fill(slot: nat, n: nat) returns (ok: bool)
      requires Valid() && slot < MAX_OBJS && objs[slot] == []
      modifies this`objs, mem, mem.pmm`total, mem.pmm.bitmap
      ensures mem.cur == old(mem.cur)
      ensures mem.Valid() && objs == old(objs)[slot := objs[slot]]
      ensures ok && NoneHeld(old(mem.Now())) ==> NoneHeld(mem.Now())
      ensures SameOutside(old(mem.Now()), mem.Now(), SharedZone) && HeapOf(mem.Now()) == HeapOf(old(mem.Now()))
      ensures ok ==> Valid() && |objs[slot]| == n && forall k :: 0 <= k < n ==> objs[slot][k] !in old(mem.Now()).used
      ensures !ok ==> forall g: nat :: mem.pmm.Managed(g) ==> g in mem.Now().used
    {
      hide Sound, Owned, Foreign, Translate, Layout, SharedOwners, Refers, HeapOf, SameOutside;
      ghost var w, before := mem.Now(), objs;
      OutsideNone(w, w, SharedZone);
      NotReferred(w, objs, pools, spaces, slot);
      var i := 0;
      while i < n
        invariant mem.cur == old(mem.cur)
        invariant 0 <= i <= n && Valid() && |objs[slot]| == i && objs == before[slot := objs[slot]]
        invariant w.used <= mem.Now().used && forall k :: 0 <= k < i ==> objs[slot][k] !in w.used
        invariant NoneHeld(w) ==> NoneHeld(mem.Now())
        invariant SameOutside(w, mem.Now(), SharedZone) && HeapOf(mem.Now()) == HeapOf(w)
      {
        ghost var x := mem.Now();
        ok := AddFrame(slot);
        OutsideTrans(w, x, mem.Now(), SharedZone);
        if !ok {
          return;
        }
        i := i + 1;
      }
      return true;
    }

    /** The loop of a destroy over one pool. */
    method Sweep(id: nat, p: nat)
      requires Valid() && Exists(id) && p <= KERNEL_POOL
      modifies this`pools, mem, mem.pmm`total, mem.pmm.bitmap
      ensures Valid() && Foreign(mem.Now()) == Foreign(old(mem.Now())) &&
              SameOutside(old(mem.Now()), mem.Now(), SharedZone)
      ensures mem.cur == old(mem.cur)
      ensures pools == old(pools)[p := Swept(old(pools[p]), id, 0)]
    {
      hide Sound, Owned, Foreign, Layout, SameOutside;
      ghost var before, w := pools, mem.Now();
      OutsideNone(w, w, SharedZone);
      var i := 0;
      while i < |pools[p]|
        invariant mem.cur == old(mem.cur)
        invariant Valid() && Foreign(mem.Now()) == Foreign(w) && SameOutside(w, mem.Now(), SharedZone)
        invariant |pools| == |before| == MAX_TASKS + 1 && pools == before[p := pools[p]] &&
                  Swept(pools[p], id, i) == Swept(before[p], id, 0)
        decreases |pools[p]| + 1 - i
      {
        if pools[p][i].obj == id {
          ghost var x := mem.Now();
          HasSpace(x, objs, pools, spaces, p);
          Unmap(id, p);
          OutsideTrans(w, x, mem.Now(), SharedZone);
        }
        i := i + 1;
      }
    }

    /** Destroys object `id`: sweeps every pool and frees the frames. The result is in order exactly
        when no pool had two neighbouring mappings of the object. */
    method Destroy(id: nat)
      requires Valid() && Exists(id)
      modifies this`pools, this`objs, mem, mem.pmm`total, mem.pmm.bitmap
      ensures mem.cur == old(mem.cur)
      ensures mem.Valid() && objs == old(objs)[id := []] && |pools| == MAX_TASKS + 1
      ensures forall p :: 0 <= p <= KERNEL_POOL ==> pools[p] == Swept(old(pools)[p], id, 0)
      ensures forall k :: 0 <= k < |old(objs)[id]| ==> old(objs)[id][k] !in mem.Now().used
      ensures NoneHeld(old(mem.Now())) ==> NoneHeld(mem.Now())
      ensures SameOutside(old(mem.Now()), mem.Now(), SharedZone) && HeapOf(mem.Now()) == HeapOf(old(mem.Now()))
      ensures Valid() <==> forall p :: 0 <= p <= KERNEL_POOL ==> NoneAdjacent(old(pools)[p], id)
    {
      hide Sound, Owned, Foreign, Layout, Translate, Swept, NoneAdjacent, SameOutside, HeapOf, SharedOwners;
      ghost var before, start := pools, mem.Now();
      OutsideNone(start, start, SharedZone);
      var t := 0;
      while t <= KERNEL_POOL
        invariant mem.cur == old(mem.cur)
        invariant 0 <= t <= KERNEL_POOL + 1 && Valid() && |pools| == |before| == MAX_TASKS + 1 && objs == old(objs)
        invariant Foreign(mem.Now()) == Foreign(start) && SameOutside(start, mem.Now(), SharedZone)
        invariant forall p :: 0 <= p <= KERNEL_POOL ==> pools[p] == if p < t then Swept(before[p], id, 0) else before[p]
      {
        ghost var x := mem.Now();
        Sweep(id, t);
        OutsideTrans(start, x, mem.Now(), SharedZone);
        t := t + 1;
      }
      ghost var w := mem.Now();
      LayoutOwners(w, objs, pools, spaces);
      FreeFrames(id);
      FreedOutside(w, mem.Now());
      OutsideTrans(start, w, mem.Now(), SharedZone);
      FreedHeap(start, mem.Now(), objs, id);
      DestroyedLayout(w, mem.Now(), old(objs), before, pools, spaces, id);
      objs := objs[id := []];
    }

    /** Frees the frames of object `id`. */
    method FreeFrames(id: nat)
      requires Valid() && Exists(id)
      modifies mem, mem.pmm`total, mem.pmm.bitmap
      ensures mem.cur == old(mem.cur)
      ensures mem.Valid() && OnlyFreed(old(mem.Now()), mem.Now())
      ensures Foreign(mem.Now()) == Foreign(old(mem.Now())) - FrameSet(objs[id])
      ensures forall k :: 0 <= k < |objs[id]| ==> objs[id][k] !in mem.Now().used
    {
      hide Sound, Owned, Layout, Translate, Foreign, SharedOwners, Release, OnlyFreed;
      ghost var w := mem.Now();
      var frames := objs[id];
      var i := 0;
      LayoutOwners(w, objs, pools, spaces);
      FreedNone(w);
      assert frames[..0] == [];
      while i < |frames|
        invariant mem.cur == old(mem.cur)
        invariant 0 <= i <= |frames| && mem.Valid() && OnlyFreed(w, mem.Now())
        invariant Foreign(mem.Now()) == Foreign(w) - FrameSet(frames[..i])
        invariant mem.Now().used == w.used - FrameSet(frames[..i])
      {
        Distinct(Foreign(w), objs, id, i);
        FreedStep(Foreign(w), w.used, frames, i);
        InForeign(mem.Now(), frames[i]);
        FreedOne(w, mem.Now(), frames[i]);
        mem.FreeForeign(frames[i]);
        i := i + 1;
      }
      assert frames[..i] == frames;
    }
  }
}
