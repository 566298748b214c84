/** Who owns each physical frame: the page tables, the shared objects and the kernel heap together. */
module Ownership {
  import opened Options
  import opened Paging
  import opened SharedMem
  import opened SharedObjects
  import opened HeapPages
  import opened Zones

  /** The places in the kernel that stand for ownership of a frame. */
  datatype Claim = DirEntry(dir: nat, slot: nat) | TableEntry(table: nat, index: nat)
                 | ObjectFrame(obj: nat, number: nat) | HeapFrame(number: nat)

  /** Place `c` owns frame `f`: an OWNER entry of a live directory or of a table, a shared object,
      or a page of the kernel heap. */
  ghost predicate Claims(w: World, objs: Objs, heapPages: nat, c: Claim, f: nat)
    requires Shape(w) && KERNEL_HEAP + heapPages <= KERNEL_HEAP_END
  {
    match c
    case DirEntry(d, i) =>
      d <= NUM_PAGE_DIRS && Live(w, d) && i < RECURSIVE && w.dirs[d][i].owner && w.dirs[d][i].frame == f
    case TableEntry(t, j) => t in w.tables && j < ENTRIES && w.tables[t][j].owner && w.tables[t][j].frame == f
    case ObjectFrame(id, k) => id < MAX_OBJS && k < |objs[id]| && objs[id][k] == f
    case HeapFrame(k) => k < heapPages && Translate(w, INITIAL, KERNEL_HEAP + k) == Some(f)
  }

  function ClaimOf(o: Owner): Claim
    requires o != Held
  {
    match o
    case Table(d, i) => DirEntry(d, i)
    case Page(t, j) => TableEntry(t, j)
    case Shared(id, k) => ObjectFrame(id, k)
    case HeapPage(k) => HeapFrame(k)
  }

  /** Whoever claims a frame is the owner the bookkeeping names. */
  lemma ClaimIsOwner(w: World, objs: Objs, n: nat, c: Claim, f: nat)
    requires Sound(w) && SharedOwners(Foreign(w), objs) && HeapRegion(w, n) && Claims(w, objs, n, c, f)
    ensures f in w.owner && w.owner[f] != Held && c == ClaimOf(w.owner[f])
  {
    match c
    case DirEntry(d, i) => SlotOwns(w, d, i);
    case TableEntry(t, j) => EntryOwns(w, t, j);
    case ObjectFrame(id, k) => assert objs[id][k] in Foreign(w);
    case HeapFrame(k) => assert Translate(w, INITIAL, KERNEL_HEAP + k).value in Foreign(w);
  }

  lemma EntryOwns(w: World, t: nat, j: nat)
    requires Owned(w) && t in w.tables && j < ENTRIES && w.tables[t][j].owner
    ensures w.tables[t][j].frame in w.owner && w.owner[w.tables[t][j].frame] == Page(t, j)
  {
  }

  /** Every frame in use has exactly one owner, and a free frame has none. */
  lemma OneOwner(w: World, objs: Objs, n: nat, f: nat)
    requires Sound(w) && NoneHeld(w) && SharedOwners(Foreign(w), objs) && HeapRegion(w, n)
    ensures f in w.used ==>
              f in w.owner && w.owner[f] != Held && forall c :: Claims(w, objs, n, c, f) <==> c == ClaimOf(w.owner[f])
    ensures f !in w.used ==> forall c :: !Claims(w, objs, n, c, f)
  {
    forall c | Claims(w, objs, n, c, f)
      ensures f in w.owner && w.owner[f] != Held && c == ClaimOf(w.owner[f])
    {
      ClaimIsOwner(w, objs, n, c, f);
    }
    if f in w.used {
      OwnerClaims(w, objs, n, f);
    }
  }

  lemma OwnerClaims(w: World, objs: Objs, n: nat, f: nat)
    requires Sound(w) && NoneHeld(w) && SharedOwners(Foreign(w), objs) && HeapRegion(w, n) && f in w.used
    ensures f in w.owner && w.owner[f] != Held && Claims(w, objs, n, ClaimOf(w.owner[f]), f)
  {
    assert f in w.owner;
    if !w.owner[f].Table? && !w.owner[f].Page? {
      assert f in Foreign(w);
    }
  }

  // ---- Runs of the whole kernel ----

  datatype KernelState = KernelState(w: World, objs: Objs, pools: seq<seq<Mapping>>, spaces: seq<Option<nat>>,
                                     heapPages: nat, ends: map<nat, nat>)

  /** The heap of every task is mapped up to its end, and no further. */
  ghost predicate TaskHeaps(w: World, spaces: seq<Option<nat>>, ends: map<nat, nat>) {
    forall p :: 0 <= p < |spaces| && spaces[p].Some? ==> p in ends && TaskHeap(w, spaces[p].value, ends[p])
  }

  ghost predicate KernelOk(k: KernelState): (r: bool)
    ensures r ==> Shape(k.w) && KERNEL_HEAP + k.heapPages <= KERNEL_HEAP_END
  {
    && Sound(k.w) && NoneHeld(k.w) && Layout(k.w, k.objs, k.pools, k.spaces) && HeapRegion(k.w, k.heapPages)
    && TaskHeaps(k.w, k.spaces, k.ends)
  }

  /** The kinds of step: an operation on shared objects, on the kernel heap or on the heap of a task,
      a page mapped or unmapped elsewhere, and the beginning and the end of a task. */
  datatype Step = SharedStep | KernelHeapStep | TaskHeapStep(task: nat) | PageStep
                | StartTask(task: nat, dir: nat) | EndTask(task: nat, dir: nat)

  /** Below the kernel half only directory `d` is mapped otherwise. */
  ghost predicate OnlyIn(w: World, y: World, d: nat)
    requires Shape(w) && Shape(y)
  {
    forall c, u {:trigger Translate(y, c, u)} ::
      0 <= c <= NUM_PAGE_DIRS && Live(w, c) && c != d && 0 <= u < KERNEL_SLOT * ENTRIES ==>
        Translate(y, c, u) == Translate(w, c, u)
  }

  /** What one step does: it keeps its own part of the address space in order and leaves the others alone. */
  ghost predicate Next(k: KernelState, l: KernelState, step: Step)
    requires KernelOk(k)
  {
    Sound(l.w) && NoneHeld(l.w) &&
    match step
    case SharedStep =>
      && SameOutside(k.w, l.w, SharedZone) && HeapOf(l.w) == HeapOf(k.w)
      && Layout(l.w, l.objs, l.pools, l.spaces) && l == k.(w := l.w, objs := l.objs, pools := l.pools)
    case KernelHeapStep =>
      && SameOutside(k.w, l.w, KernelHeapZone) && SharedOf(l.w) == SharedOf(k.w)
      && HeapRegion(l.w, l.heapPages) && l == k.(w := l.w, heapPages := l.heapPages)
    case TaskHeapStep(p) =>
      && SameOutside(k.w, l.w, TaskHeapZone) && Foreign(l.w) == Foreign(k.w)
      && p < MAX_TASKS && k.spaces[p].Some? && OnlyIn(k.w, l.w, k.spaces[p].value)
      && p in l.ends && TaskHeap(l.w, k.spaces[p].value, l.ends[p]) && l == k.(w := l.w, ends := k.ends[p := l.ends[p]])
    case PageStep =>
      && SameOutside(k.w, l.w, OtherZone) && Foreign(l.w) == Foreign(k.w) && l == k.(w := l.w)
    case StartTask(p, d) =>
      && p < MAX_TASKS && k.spaces[p] == None && d < NUM_PAGE_DIRS && !k.w.inUse[d] && l.w.inUse == k.w.inUse[d := true]
      && AddsDirectory(k.w, l.w, d) && Foreign(l.w) == Foreign(k.w)
      && l == k.(w := l.w, spaces := k.spaces[p := Some(d)], ends := k.ends[p := 0])
    case EndTask(p, d) =>
      && p < MAX_TASKS && k.spaces[p] == Some(d) && d < NUM_PAGE_DIRS && DropsDirectory(k.w, l.w, d)
      && Foreign(l.w) == Foreign(k.w)
      && l == k.(w := l.w, pools := k.pools[p := []], spaces := k.spaces[p := None], ends := k.ends - {p})
  }

  lemma LayoutElsewhere(w: World, y: World, objs: Objs, pools: seq<seq<Mapping>>, spaces: seq<Option<nat>>, z: Zone)
    requires Layout(w, objs, pools, spaces) && SameOutside(w, y, z) && z != SharedZone && SharedOf(y) == SharedOf(w)
    ensures Layout(y, objs, pools, spaces)
  {
    OwnersElsewhere(w, y, objs);
    hide SharedOwners, Translate, SharedOf, PoolOk, PoolMap;
    forall p | 0 <= p <= KERNEL_POOL
      ensures PoolFits(y, objs, pools, spaces, p)
    {
      assert PoolFits(w, objs, pools, spaces, p);
      if DirOf(spaces, p).Some? {
        RegionElsewhere(w, y, DirOf(spaces, p).value, objs, pools[p], FirstPage(p), EndPage(p), z);
      }
    }
  }

  lemma RegionElsewhere(w: World, y: World, d: nat, objs: Objs, pool: seq<Mapping>, lo: nat, hi: nat, z: Zone)
    requires SameOutside(w, y, z) && z != SharedZone && Region(w, d, objs, pool, lo, hi) && Live(w, d)
    requires (USER_SHARED <= lo && hi <= USER_SHARED_END) || (KERNEL_SHARED <= lo && hi <= KERNEL_SHARED_END)
    ensures Region(y, d, objs, pool, lo, hi)
  {
    hide Translate, PoolMap;
    forall u | lo <= u < hi
      ensures SmallSlot(y, d, u) && Translate(y, d, u) == PoolMap(objs, pool, u)
    {
      assert Translate(w, d, u) == PoolMap(objs, pool, u);
      SmallStays(w, y, d, u);
    }
  }

  lemma OwnersElsewhere(w: World, y: World, objs: Objs)
    requires SharedOwners(Foreign(w), objs) && SharedOf(y) == SharedOf(w)
    ensures SharedOwners(Foreign(y), objs)
  {
    hide Foreign;
    forall id, k | 0 <= id < MAX_OBJS && 0 <= k < |objs[id]|
      ensures objs[id][k] in Foreign(y) && Foreign(y)[objs[id][k]] == Shared(id, k)
    {
      assert objs[id][k] in SharedOf(w) && SharedOf(w)[objs[id][k]] == Shared(id, k);
      assert objs[id][k] in SharedOf(y);
    }
    forall g | g in Foreign(y) && Foreign(y)[g].Shared?
      ensures g in Foreign(w) && Foreign(w)[g] == Foreign(y)[g]
    {
      assert g in SharedOf(y) && g in SharedOf(w);
    }
  }

  lemma HeapElsewhere(w: World, y: World, n: nat, z: Zone)
    requires HeapRegion(w, n) && SameOutside(w, y, z) && z != KernelHeapZone && HeapOf(y) == HeapOf(w)
    ensures HeapRegion(y, n)
  {
    hide Foreign, Translate;
    forall u | KERNEL_HEAP <= u < KERNEL_HEAP_END
      ensures Translate(y, INITIAL, u) == Translate(w, INITIAL, u)
      ensures u >= KERNEL_HEAP + n ==> SmallSlot(y, INITIAL, u)
    {
      if u >= KERNEL_HEAP + n {
        assert Translate(w, INITIAL, u) == None;
        SmallStays(w, y, INITIAL, u);
      }
    }
    forall g | g in Foreign(y) && Foreign(y)[g].HeapPage?
      ensures g in Foreign(w) && Foreign(w)[g] == Foreign(y)[g]
    {
      assert g in HeapOf(y) && g in HeapOf(w);
    }
    forall u | KERNEL_HEAP <= u < KERNEL_HEAP + n
      ensures Translate(y, INITIAL, u).Some? && Translate(y, INITIAL, u).value in Foreign(y)
      ensures Foreign(y)[Translate(y, INITIAL, u).value] == HeapPage(u - KERNEL_HEAP)
    {
      assert Translate(w, INITIAL, u).value in HeapOf(w);
      assert Translate(w, INITIAL, u).value in HeapOf(y);
    }
  }

  lemma StartKeeps(w: World, y: World, objs: Objs, pools: seq<seq<Mapping>>, spaces: seq<Option<nat>>, n: nat, p: nat,
                   d: nat)
    requires Layout(w, objs, pools, spaces) && HeapRegion(w, n) && p < MAX_TASKS && spaces[p] == None &&
             d < NUM_PAGE_DIRS
    requires !w.inUse[d] && Shape(y) && y.inUse == w.inUse[d := true] && AddsDirectory(w, y, d) &&
             Foreign(y) == Foreign(w)
    ensures Layout(y, objs, pools, spaces[p := Some(d)]) && HeapRegion(y, n)
  {
    hide SharedOwners, Foreign, PoolOk, PoolMap;
    var next := spaces[p := Some(d)];
    forall q | 0 <= q <= KERNEL_POOL
      ensures PoolFits(y, objs, pools, next, q)
    {
      assert PoolFits(w, objs, pools, spaces, q);
      if q == p {
        EmptyPool(objs, USER_SHARED, USER_SHARED_END);
        forall u | USER_SHARED <= u < USER_SHARED_END
          ensures SmallSlot(y, d, u) && Translate(y, d, u) == PoolMap(objs, [], u)
        {
          PoolMapNone(objs, [], u);
        }
      } else if DirOf(spaces, q).Some? {
        RowSame(w, y, DirOf(spaces, q).value, objs, pools[q], FirstPage(q), EndPage(q));
      }
    }
    forall q | 0 <= q < MAX_TASKS && q != p
      ensures spaces[q] != Some(d)
    {
      assert PoolFits(w, objs, pools, spaces, q);
    }
    HeapRowSame(w, y, n);
  }

  lemma EmptyPool(objs: Objs, lo: nat, hi: nat)
    ensures PoolOk(objs, [], lo, hi)
  {
  }

  lemma RowSame(w: World, y: World, e: nat, objs: Objs, pool: seq<Mapping>, lo: nat, hi: nat)
    requires Region(w, e, objs, pool, lo, hi) && Shape(y) && y.dirs[e] == w.dirs[e] && y.tables == w.tables
    ensures Region(y, e, objs, pool, lo, hi)
  {
    hide PoolMap;
    forall u | lo <= u < hi
      ensures SmallSlot(y, e, u) && Translate(y, e, u) == PoolMap(objs, pool, u)
    {
      assert Translate(w, e, u) == PoolMap(objs, pool, u);
    }
  }

  lemma HeapRowSame(w: World, y: World, n: nat)
    requires HeapRegion(w, n) && Shape(y) && y.dirs[INITIAL] == w.dirs[INITIAL] && y.tables == w.tables &&
             Foreign(y) == Foreign(w)
    ensures HeapRegion(y, n)
  {
    hide Foreign, Translate;
    forall u | 0 <= u < ENTRIES * ENTRIES
      ensures Translate(y, INITIAL, u) == Translate(w, INITIAL, u)
    {
      SameRow(w, y, u);
    }
    forall u | KERNEL_HEAP + n <= u < KERNEL_HEAP_END
      ensures SmallSlot(y, INITIAL, u)
    {
      assert Translate(w, INITIAL, u) == None;
    }
  }

  lemma SameRow(w: World, y: World, u: nat)
    requires Shape(w) && Shape(y) && y.dirs[INITIAL] == w.dirs[INITIAL] && y.tables == w.tables && u < ENTRIES * ENTRIES
    ensures Translate(y, INITIAL, u) == Translate(w, INITIAL, u)
  {
  }

  lemma EndKeeps(w: World, y: World, objs: Objs, pools: seq<seq<Mapping>>, spaces: seq<Option<nat>>, n: nat, p: nat,
                 d: nat)
    requires Layout(w, objs, pools, spaces) && HeapRegion(w, n) && p < MAX_TASKS && spaces[p] == Some(d) &&
             d < NUM_PAGE_DIRS
    requires Shape(y) && DropsDirectory(w, y, d) && Foreign(y) == Foreign(w)
    ensures Layout(y, objs, pools[p := []], spaces[p := None]) && HeapRegion(y, n)
  {
    hide SharedOwners, Foreign, PoolOk, PoolMap, Translate;
    var next, rest := spaces[p := None], pools[p := []];
    forall q | 0 <= q <= KERNEL_POOL
      ensures PoolFits(y, objs, rest, next, q)
    {
      assert PoolFits(w, objs, pools, spaces, q);
      if q != p && DirOf(spaces, q).Some? {
        var e := DirOf(spaces, q).value;
        assert e != d;
        DropRegion(w, y, d, e, objs, pools[q], FirstPage(q), EndPage(q));
      }
    }
    DropHeap(w, y, n, d);
  }

  lemma DropRegion(w: World, y: World, d: nat, e: nat, objs: Objs, pool: seq<Mapping>, lo: nat, hi: nat)
    requires Shape(w) && Shape(y) && d < NUM_PAGE_DIRS && DropsDirectory(w, y, d) && e != d &&
             Region(w, e, objs, pool, lo, hi) && Live(w, e)
    ensures Region(y, e, objs, pool, lo, hi)
  {
    hide PoolMap, Translate;
    forall u | lo <= u < hi
      ensures SmallSlot(y, e, u) && Translate(y, e, u) == PoolMap(objs, pool, u)
    {
      assert Translate(w, e, u) == PoolMap(objs, pool, u);
      SmallStays(w, y, e, u);
    }
  }

  lemma DropHeap(w: World, y: World, n: nat, d: nat)
    requires HeapRegion(w, n) && Shape(y) && d < NUM_PAGE_DIRS && DropsDirectory(w, y, d) && Foreign(y) == Foreign(w)
    ensures HeapRegion(y, n)
  {
    hide Foreign, Translate;
    forall u | KERNEL_HEAP <= u < KERNEL_HEAP_END
      ensures Translate(y, INITIAL, u) == Translate(w, INITIAL, u)
      ensures u >= KERNEL_HEAP + n ==> SmallSlot(y, INITIAL, u)
    {
      if u >= KERNEL_HEAP + n {
        assert Translate(w, INITIAL, u) == None;
        SmallStays(w, y, INITIAL, u);
      }
    }
  }

  // ---- What the steps leave of the heaps of the tasks ----

  lemma TaskHeapElsewhere(w: World, y: World, d: nat, n: nat, z: Zone)
    requires SameOutside(w, y, z) && z != TaskHeapZone && d < NUM_PAGE_DIRS && Live(w, d) && TaskHeap(w, d, n)
    ensures TaskHeap(y, d, n)
  {
    hide Translate;
    forall u | USER_HEAP <= u < USER_HEAP_END
      ensures Translate(y, d, u) == Translate(w, d, u)
      ensures u >= USER_HEAP + n ==> SmallSlot(y, d, u)
    {
      if u >= USER_HEAP + n {
        assert Translate(w, d, u) == None;
        SmallStays(w, y, d, u);
      }
    }
  }

  lemma TaskHeapsElsewhere(w: World, y: World, objs: Objs, pools: seq<seq<Mapping>>, spaces: seq<Option<nat>>,
                           ends: map<nat, nat>, z: Zone)
    requires Layout(w, objs, pools, spaces) && TaskHeaps(w, spaces, ends) && SameOutside(w, y, z) && z != TaskHeapZone
    ensures TaskHeaps(y, spaces, ends)
  {
    hide SharedOwners, TaskHeap, SameOutside, PoolOk, Region;
    forall p | 0 <= p < MAX_TASKS && spaces[p].Some?
      ensures p in ends && TaskHeap(y, spaces[p].value, ends[p])
    {
      assert PoolFits(w, objs, pools, spaces, p);
      TaskHeapElsewhere(w, y, spaces[p].value, ends[p], z);
    }
  }

  lemma OtherTaskHeap(w: World, y: World, e: nat, d: nat, n: nat)
    requires SameOutside(w, y, TaskHeapZone) && OnlyIn(w, y, e) && d != e && d < NUM_PAGE_DIRS && Live(w, d)
    requires TaskHeap(w, d, n)
    ensures TaskHeap(y, d, n)
  {
    hide Translate;
    forall u | USER_HEAP <= u < USER_HEAP_END
      ensures Translate(y, d, u) == Translate(w, d, u)
      ensures u >= USER_HEAP + n ==> SmallSlot(y, d, u)
    {
      if u >= USER_HEAP + n {
        assert Translate(w, d, u) == None;
        SmallStays(w, y, d, u);
      }
    }
  }

  lemma OtherTaskHeaps(w: World, y: World, objs: Objs, pools: seq<seq<Mapping>>, spaces: seq<Option<nat>>,
                       ends: map<nat, nat>, p: nat, n: nat)
    requires Layout(w, objs, pools, spaces) && TaskHeaps(w, spaces, ends) && SameOutside(w, y, TaskHeapZone)
    requires p < MAX_TASKS && spaces[p].Some? && OnlyIn(w, y, spaces[p].value) && TaskHeap(y, spaces[p].value, n)
    ensures TaskHeaps(y, spaces, ends[p := n])
  {
    hide SharedOwners, TaskHeap, SameOutside, OnlyIn, PoolOk, Region;
    forall q | 0 <= q < MAX_TASKS && spaces[q].Some? && q != p
      ensures q in ends && TaskHeap(y, spaces[q].value, ends[q])
    {
      assert PoolFits(w, objs, pools, spaces, q);
      assert p < q || q < p;
      OtherTaskHeap(w, y, spaces[p].value, spaces[q].value, ends[q]);
    }
  }

  /** A new task has an empty heap. */
  lemma StartHeaps(w: World, y: World, spaces: seq<Option<nat>>, ends: map<nat, nat>, p: nat, d: nat)
    requires Shape(w) && TaskHeaps(w, spaces, ends) && p < |spaces| && d < NUM_PAGE_DIRS && !w.inUse[d]
    requires forall q :: 0 <= q < |spaces| && spaces[q].Some? ==>
               spaces[q].value < NUM_PAGE_DIRS && w.inUse[spaces[q].value]
    requires Shape(y) && AddsDirectory(w, y, d)
    ensures TaskHeaps(y, spaces[p := Some(d)], ends[p := 0])
  {
    forall u | USER_HEAP <= u < USER_HEAP_END
      ensures SmallSlot(y, d, u) && Translate(y, d, u) == None
    {
      assert y.dirs[d][u / ENTRIES] == ZERO;
    }
    hide Translate;
    forall q | 0 <= q < |spaces| && spaces[q].Some? && q != p
      ensures q in ends && TaskHeap(y, spaces[q].value, ends[q])
    {
      HeapOfRow(w, y, spaces[q].value, ends[q]);
    }
  }

  lemma HeapOfRow(w: World, y: World, d: nat, n: nat)
    requires TaskHeap(w, d, n) && Shape(y) && y.dirs[d] == w.dirs[d] && y.tables == w.tables
    ensures TaskHeap(y, d, n)
  {
    forall u | USER_HEAP <= u < USER_HEAP_END
      ensures Translate(y, d, u) == Translate(w, d, u)
      ensures u >= USER_HEAP + n ==> SmallSlot(y, d, u)
    {
      if u >= USER_HEAP + n {
        assert Translate(w, d, u) == None;
      }
    }
  }

  lemma EndHeaps(w: World, y: World, spaces: seq<Option<nat>>, ends: map<nat, nat>, p: nat, d: nat)
    requires Shape(w) && TaskHeaps(w, spaces, ends) && p < |spaces| && spaces[p] == Some(d) && d < NUM_PAGE_DIRS
    requires forall q :: 0 <= q < |spaces| && spaces[q].Some? ==>
               spaces[q].value < NUM_PAGE_DIRS && w.inUse[spaces[q].value] && (q != p ==> spaces[q].value != d)
    requires Shape(y) && DropsDirectory(w, y, d)
    ensures TaskHeaps(y, spaces[p := None], ends - {p})
  {
    hide Translate;
    forall q | 0 <= q < |spaces| && spaces[q].Some? && q != p
      ensures q in ends && TaskHeap(y, spaces[q].value, ends[q])
    {
      var e := spaces[q].value;
      forall u | USER_HEAP <= u < USER_HEAP_END
        ensures Translate(y, e, u) == Translate(w, e, u)
        ensures u >= USER_HEAP + ends[q] ==> SmallSlot(y, e, u)
      {
        if u >= USER_HEAP + ends[q] {
          assert Translate(w, e, u) == None;
          SmallStays(w, y, e, u);
        }
      }
    }
  }

  /** The directories of the tasks are in use and differ. */
  lemma TaskDirs(w: World, objs: Objs, pools: seq<seq<Mapping>>, spaces: seq<Option<nat>>, p: nat)
    requires Layout(w, objs, pools, spaces) && p < MAX_TASKS
    ensures forall q :: 0 <= q < |spaces| && spaces[q].Some? ==>
              && spaces[q].value < NUM_PAGE_DIRS && w.inUse[spaces[q].value]
              && (spaces[p].Some? && q != p ==> spaces[q].value != spaces[p].value)
  {
    hide SharedOwners, PoolOk, Region;
    forall q | 0 <= q < |spaces| && spaces[q].Some?
      ensures spaces[q].value < NUM_PAGE_DIRS && w.inUse[spaces[q].value]
      ensures spaces[p].Some? && q != p ==> spaces[q].value != spaces[p].value
    {
      assert PoolFits(w, objs, pools, spaces, q);
      assert q < p || p < q || p == q;
    }
  }

  /** Every kind of step keeps the whole kernel in order. */
  lemma NextKeeps(k: KernelState, l: KernelState, step: Step)
    requires KernelOk(k) && Next(k, l, step)
    ensures KernelOk(l)
  {
    SoundParts(l.w);
    hide Sound, Owned, NoneHeld, SameOutside, HeapRegion, Layout, AddsDirectory, DropsDirectory, TaskHeaps, TaskHeap,
         OnlyIn;
    match step
    case SharedStep =>
      HeapElsewhere(k.w, l.w, k.heapPages, SharedZone);
      TaskHeapsElsewhere(k.w, l.w, k.objs, k.pools, k.spaces, k.ends, SharedZone);
    case KernelHeapStep =>
      LayoutElsewhere(k.w, l.w, k.objs, k.pools, k.spaces, KernelHeapZone);
      TaskHeapsElsewhere(k.w, l.w, k.objs, k.pools, k.spaces, k.ends, KernelHeapZone);
    case TaskHeapStep(p) =>
      LayoutElsewhere(k.w, l.w, k.objs, k.pools, k.spaces, TaskHeapZone);
      HeapElsewhere(k.w, l.w, k.heapPages, TaskHeapZone);
      OtherTaskHeaps(k.w, l.w, k.objs, k.pools, k.spaces, k.ends, p, l.ends[p]);
    case PageStep =>
      LayoutElsewhere(k.w, l.w, k.objs, k.pools, k.spaces, OtherZone);
      HeapElsewhere(k.w, l.w, k.heapPages, OtherZone);
      TaskHeapsElsewhere(k.w, l.w, k.objs, k.pools, k.spaces, k.ends, OtherZone);
    case StartTask(p, d) =>
      TaskDirs(k.w, k.objs, k.pools, k.spaces, p);
      StartKeeps(k.w, l.w, k.objs, k.pools, k.spaces, k.heapPages, p, d);
      StartHeaps(k.w, l.w, k.spaces, k.ends, p, d);
    case EndTask(p, d) =>
      TaskDirs(k.w, k.objs, k.pools, k.spaces, p);
      EndKeeps(k.w, l.w, k.objs, k.pools, k.spaces, k.heapPages, p, d);
      EndHeaps(k.w, l.w, k.spaces, k.ends, p, d);
  }

  /** A run of the kernel: any sequence of operations on any arguments. */
  ghost predicate Run(states: seq<KernelState>, steps: seq<Step>) {
    && |states| == |steps| + 1
    && forall i {:trigger steps[i]} :: 0 <= i < |steps| ==> KernelOk(states[i]) ==>
         Next(states[i], states[i + 1], steps[i])
  }

  function BootState(w: World): KernelState {
    KernelState(w, seq(MAX_OBJS, _ => []), seq(MAX_TASKS + 1, _ => []), seq(MAX_TASKS, _ => None), 0, map[])
  }

  /** Right after boot, with nothing but large pages mapped below the zones, the kernel is in order. */
  lemma BootOk(w: World)
    requires Sound(w) && w.owner == map[] && w.tables == map[] &&
             forall i :: KERNEL_HEAP / ENTRIES <= i < RECURSIVE ==> w.dirs[INITIAL][i] == ZERO
    ensures KernelOk(BootState(w))
  {
    SoundParts(w);
    hide Sound, DirsOk, TablesOk, PagesOk, PageOwnersOk, Synced;
    var objs: Objs := seq(MAX_OBJS, _ => []);
    var pools: seq<seq<Mapping>> := seq(MAX_TASKS + 1, _ => []);
    var spaces: seq<Option<nat>> := seq(MAX_TASKS, _ => None);
    forall u | KERNEL_HEAP <= u < KERNEL_SHARED_END
      ensures SmallSlot(w, INITIAL, u) && Translate(w, INITIAL, u) == None == PoolMap(objs, [], u)
    {
      assert KERNEL_HEAP / ENTRIES <= u / ENTRIES < RECURSIVE;
    }
    hide Translate;
    assert Foreign(w) == map[];
    forall p | 0 <= p <= KERNEL_POOL
      ensures PoolFits(w, objs, pools, spaces, p)
    {
    }
  }

  /** Place `c` owns frame `f`, and no other place does. */
  ghost predicate OwnedBy(k: KernelState, c: Claim, f: nat)
    requires Shape(k.w) && KERNEL_HEAP + k.heapPages <= KERNEL_HEAP_END
  {
    forall b :: Claims(k.w, k.objs, k.heapPages, b, f) <==> b == c
  }

  ghost predicate OwnedOnce(k: KernelState, f: nat)
    requires Shape(k.w) && KERNEL_HEAP + k.heapPages <= KERNEL_HEAP_END
  {
    if f in k.w.used then exists c :: OwnedBy(k, c, f) else forall c :: !Claims(k.w, k.objs, k.heapPages, c, f)
  }

  lemma StateOwnership(k: KernelState, f: nat)
    requires KernelOk(k)
    ensures OwnedOnce(k, f)
  {
    hide Claims, Sound, Layout, HeapRegion, NoneHeld;
    LayoutOwners(k.w, k.objs, k.pools, k.spaces);
    OneOwner(k.w, k.objs, k.heapPages, f);
    if f in k.w.used {
      assert OwnedBy(k, ClaimOf(k.w.owner[f]), f);
    }
  }

  /** In every state of every run each frame in use has exactly one owner, and no free frame has one. */
  lemma {:induction false} RunOwnership(states: seq<KernelState>, steps: seq<Step>, i: nat, f: nat)
    requires Run(states, steps) && KernelOk(states[0]) && i < |states|
    ensures KernelOk(states[i]) && OwnedOnce(states[i], f)
  {
    hide Next, KernelOk, OwnedOnce;
    if i > 0 {
      RunOwnership(states, steps, i - 1, f);
      var step := steps[i - 1];
      NextKeeps(states[i - 1], states[i], step);
    }
    StateOwnership(states[i], f);
  }
}
