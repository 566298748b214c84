/** The kernel's memory as a whole: every operation on it, and what holds after any run of them. */
module KernelRuns {
  import opened Bytes
  import opened Options
  import opened PhysAlloc
  import opened Paging
  import opened PageDirs
  import opened SharedMem
  import opened SharedObjects
  import opened HeapPages
  import opened Zones
  import opened Ownership

  /** A page mapped or unmapped outside the heaps and the shared ranges. */
  lemma PageNext(k: KernelState, x: World, l: KernelState, d: nat, v: nat, r: Option<nat>)
    requires KernelOk(k) && Done(x, l.w, d, v, r) && ZoneOf(v) == OtherZone && NoneHeld(l.w)
    requires Shape(x) && x.dirs == k.w.dirs && x.tables == k.w.tables && x.inUse == k.w.inUse
    requires Foreign(l.w) == Foreign(k.w) && l == k.(w := l.w)
    ensures Next(k, l, PageStep)
  {
    DoneParts(x, l.w, d, v, r);
    OutsideNone(k.w, x, OtherZone);
    OutsideDone(x, l.w, d, v, r);
    hide Done, Sound, SameOutside, Foreign, NoneHeld, Layout, HeapRegion, TaskHeaps, ZoneOf;
    OutsideTrans(k.w, x, l.w, OtherZone);
  }

  lemma KernelHeapNext(k: KernelState, l: KernelState, fs: seq<Option<nat>>)
    requires KernelOk(k) && RangeRemap(k.w, l.w, INITIAL, KERNEL_HEAP + k.heapPages, fs) && NoneHeld(l.w)
    requires k.heapPages + |fs| == l.heapPages && HeapRegion(l.w, l.heapPages) && SharedOf(l.w) == SharedOf(k.w)
    requires l == k.(w := l.w, heapPages := l.heapPages)
    ensures Next(k, l, KernelHeapStep)
  {
    OutsideRange(k.w, l.w, INITIAL, KERNEL_HEAP + k.heapPages, fs, KernelHeapZone);
  }

  lemma TaskHeapNext(k: KernelState, l: KernelState, p: nat, n: nat, fs: seq<Option<nat>>)
    requires KernelOk(k) && p < MAX_TASKS && k.spaces[p].Some? && p in k.ends && k.ends[p] + |fs| == n
    requires RangeRemap(k.w, l.w, k.spaces[p].value, USER_HEAP + k.ends[p], fs)
    requires TaskHeap(l.w, k.spaces[p].value, n) && Foreign(l.w) == Foreign(k.w)
    requires l == k.(w := l.w, ends := k.ends[p := n])
    ensures Next(k, l, TaskHeapStep(p))
  {
    var d, v := k.spaces[p].value, USER_HEAP + k.ends[p];
    hide Sound, Layout, HeapRegion, TaskHeaps, Translate, Foreign, NoneHeld, SameOutside;
    OutsideRange(k.w, l.w, d, v, fs, TaskHeapZone);
    hide TaskHeap;
    OnlyHere(k.w, l.w, d, v, fs);
    SameHeld(k.w, l.w);
  }

  lemma OnlyHere(w: World, y: World, d: nat, v: nat, fs: seq<Option<nat>>)
    requires RangeRemap(w, y, d, v, fs)
    ensures OnlyIn(w, y, d)
  {
    hide Sound, Translate;
    forall c, u | 0 <= c <= NUM_PAGE_DIRS && Live(w, c) && c != d && 0 <= u < KERNEL_SLOT * ENTRIES
      ensures Translate(y, c, u) == Translate(w, c, u)
    {
      assert u / ENTRIES < KERNEL_SLOT;
    }
  }

  /** The page can still be mapped after a frame was allocated for it. */
  lemma GivenPage(w: World, x: World, f: nat, d: nat, v: nat)
    requires Shape(w) && d <= NUM_PAGE_DIRS && v < ENTRIES * ENTRIES && x == Give(w, f, Held)
    ensures Shape(x) && x.dirs == w.dirs && x.tables == w.tables && x.inUse == w.inUse
    ensures f in x.owner && x.owner[f] == Held
    ensures Translate(x, d, v) == Translate(w, d, v) && (SmallSlot(x, d, v) <==> SmallSlot(w, d, v))
  {
  }

  lemma SameHeld(w: World, y: World)
    requires Foreign(y) == Foreign(w) && NoneHeld(w)
    ensures NoneHeld(y) && HeapOf(y) == HeapOf(w) && SharedOf(y) == SharedOf(w)
  {
    hide Foreign;
  }

  /** In a new directory neither heap nor stack is mapped. */
  lemma EmptySpace(w: World, y: World, d: nat)
    requires Shape(w) && Shape(y) && d < NUM_PAGE_DIRS && AddsDirectory(w, y, d)
    ensures TaskHeap(y, d, 0) && IsFree(y, d, USER_HEAP_END, USER_STACK_END - USER_HEAP_END)
  {
    forall u | USER_HEAP <= u < USER_STACK_END
      ensures SmallSlot(y, d, u) && Translate(y, d, u) == None
    {
      assert y.dirs[d][u / ENTRIES] == ZERO;
    }
  }

  lemma FirstFree(w: World, d: nat, v: nat, n: nat)
    requires IsFree(w, d, v, n) && n > 0
    ensures SmallSlot(w, d, v) && Translate(w, d, v) == None
  {
  }

  lemma KernelParts(k: KernelState)
    requires KernelOk(k)
    ensures Sound(k.w) && Shape(k.w) && NoneHeld(k.w) && Layout(k.w, k.objs, k.pools, k.spaces) &&
            HeapRegion(k.w, k.heapPages)
  {
  }

  lemma SharedNext(k: KernelState, l: KernelState)
    requires KernelOk(k) && Sound(l.w) && NoneHeld(l.w) && SameOutside(k.w, l.w, SharedZone) &&
             HeapOf(l.w) == HeapOf(k.w)
    requires Layout(l.w, l.objs, l.pools, l.spaces) && l == k.(w := l.w, objs := l.objs, pools := l.pools)
    ensures Next(k, l, SharedStep)
  {
  }

  lemma StartNext(k: KernelState, l: KernelState, p: nat, d: nat)
    requires KernelOk(k) && Sound(l.w) && p < MAX_TASKS && k.spaces[p] == None && d < NUM_PAGE_DIRS
    requires !k.w.inUse[d] && l.w.inUse == k.w.inUse[d := true] && AddsDirectory(k.w, l.w, d)
    requires Foreign(l.w) == Foreign(k.w) && l == k.(w := l.w, spaces := k.spaces[p := Some(d)], ends := k.ends[p := 0])
    ensures Next(k, l, StartTask(p, d))
  {
    SameHeld(k.w, l.w);
  }

  lemma EndNext(k: KernelState, l: KernelState, p: nat, d: nat)
    requires KernelOk(k) && Sound(l.w) && p < MAX_TASKS && k.spaces[p] == Some(d) && d < NUM_PAGE_DIRS
    requires DropsDirectory(k.w, l.w, d) && Foreign(l.w) == Foreign(k.w)
    requires l == k.(w := l.w, pools := k.pools[p := []], spaces := k.spaces[p := None], ends := k.ends - {p})
    ensures Next(k, l, EndTask(p, d))
  {
    SameHeld(k.w, l.w);
  }

  lemma BootParts(w: World)
    requires Sound(w) && w.owner == map[] && w.tables == map[] &&
             forall i :: KERNEL_HEAP / ENTRIES <= i < RECURSIVE ==> w.dirs[INITIAL][i] == ZERO
    ensures KernelOk(BootState(w)) && HeapRegion(w, 0) && SharedOwners(Foreign(w), BootState(w).objs)
    ensures Region(w, INITIAL, BootState(w).objs, [], KERNEL_SHARED, KERNEL_SHARED_END)
  {
    BootOk(w);
    var k := BootState(w);
    hide Sound, Foreign, Region, SharedOwners, PoolOk, Translate, HeapRegion;
    LayoutOwners(w, k.objs, k.pools, k.spaces);
    assert PoolFits(w, k.objs, k.pools, k.spaces, KERNEL_POOL);
  }

  class Kernel {
    const mem: Memory
    const shared: SharedMemory
    const heap: KernelHeap
    var heaps: map<nat, UserHeap>        // of the tasks with a directory of their own
    ghost var trace: seq<KernelState>    // every state so far, in order
    ghost var steps: seq<Step>

    ghost function Ends(): map<nat, nat>
      reads this`heaps, heaps.Values
    {
      map p | p in heaps && heaps[p].Top() >= 0 :: heaps[p].Top()
    }

    ghost function State(): KernelState
      reads this`heaps, heaps.Values, mem, mem.pmm, mem.pmm.bitmap, shared, heap
    {
      KernelState(mem.Now(), shared.objs, shared.pools, shared.spaces, Pages(heap.size), Ends())
    }

    /** The parts work on the same memory, and no two tasks share a heap. */
    ghost predicate Wired()
      reads this`heaps, heaps.Values
    {
      && shared.mem == mem && heap.mem == mem
      && (forall p :: p in heaps ==> heaps[p].mem == mem)
      && (forall p, q :: p in heaps && q in heaps && heaps[p] == heaps[q] ==> p == q)
    }

    /** All states so far were reached step by step from one in order, and the last one is the present. */
    ghost predicate Traced(k: KernelState)
      reads this`trace, this`steps
    {
      |trace| > 0 && KernelOk(trace[0]) && Run(trace, steps) && trace[|trace| - 1] == k && KernelOk(k)
    }

    ghost predicate Ok()
      reads this, heaps.Values, mem, mem.pmm, mem.pmm.bitmap, shared, heap
    {
      Wired() && mem.pmm.Valid() && mem.cur <= NUM_PAGE_DIRS && Traced(State())
    }

    /** In order, with a directory in CR3 that is in use. */
    ghost predicate Running()
      reads this, heaps.Values, mem, mem.pmm, mem.pmm.bitmap, shared, heap
    {
      Ok() && Live(mem.Now(), mem.cur)
    }

    constructor (boot: seq<Pte>, memHigh: dword)
      requires |boot| == ENTRIES &&
               forall i :: 0 <= i < RECURSIVE ==> !boot[i].owner && (boot[i] == ZERO || boot[i].big)
      requires forall i :: KERNEL_HEAP / ENTRIES <= i < RECURSIVE ==> boot[i] == ZERO
      requires memHigh / 0x1000 / 8 <= BITMAP_BYTES && (memHigh / 0x1000 % 8 != 0 ==> memHigh / 0x1000 >= 8)
      ensures Running() && mem.cur == INITIAL && heaps == map[] && |trace| == 1
    {
      hide Sound, Foreign, Region, SharedOwners, Layout, HeapRegion, KernelOk, Owned, FrameAllocator.Valid;
      var m := new Memory(boot, memHigh);
      BootParts(m.Now());
      var s := new SharedMemory(m);
      var h := new KernelHeap(m);
      mem, shared, heap, heaps := m, s, h, map[];
      trace, steps := [BootState(m.Now())], [];
      new;
      assert Ends() == map[];
      assert State() == BootState(mem.Now());
    }

    /** What every operation may rely on. */
    lemma Parts()
      requires Running()
      ensures mem.Valid() && shared.Valid() && heap.Valid() && Wired() && Traced(State()) && KernelOk(State())
      ensures NoneHeld(mem.Now()) && |mem.inUse| == NUM_PAGE_DIRS && mem.cur <= NUM_PAGE_DIRS
    {
      KernelParts(State());
    }

    lemma HeapOfTask(p: nat)
      requires Running() && p < MAX_TASKS && p in heaps && shared.spaces[p] == Some(mem.cur)
      ensures heaps[p].Valid()
    {
      hide Sound, Layout, NoneHeld, HeapRegion, Run, TaskHeap;
      Parts();
      assert TaskHeaps(mem.Now(), shared.spaces, Ends());
    }

    /** Records that the step from `k` was taken. */
    ghost method Note(k: KernelState, step: Step)
      requires Wired() && mem.pmm.Valid() && mem.cur <= NUM_PAGE_DIRS && Traced(k) && Next(k, State(), step)
      modifies this`trace, this`steps
      ensures Ok() && trace == old(trace) + [State()] && steps == old(steps) + [step]
    {
      hide Next, KernelOk;
      NextKeeps(k, State(), step);
      trace, steps := trace + [State()], steps + [step];
    }

    // ---- Pages outside the heaps and the shared ranges ----

    /** Maps page `v` to a new frame of its own, as for the stack and the program of a task. */
    method MapNewPage(v: nat, write: bool, user: bool) returns (ok: bool, ghost f: nat)
      requires Running() && mem.Mappable(v) && Translate(mem.Now(), mem.Target(v), v) == None && ZoneOf(v) == OtherZone
      modifies this`trace, this`steps, mem, mem.pmm`total, mem.pmm.bitmap
      ensures mem.cur == old(mem.cur)
      ensures ok ==>
                && Running() && f !in old(mem.Now()).used && trace == old(trace) + [State()]
                && steps == old(steps) + [PageStep]
                && Done(Give(old(mem.Now()), f, Held), mem.Now(), mem.Target(v), v, Some(f))
      ensures !ok ==> forall g: nat :: mem.pmm.Managed(g) ==> g in mem.Now().used
    {
      hide Sound, Foreign, Translate, NoneHeld, Layout, HeapRegion, TaskHeap, TaskHeaps, Run, Next, KernelOk, Done,
           Give, SameOutside, HeapOf, SharedOf, RangeRemap, AddsDirectory, DropsDirectory, IsFree, ZoneOf, Ends, Wired;
      Parts();
      ghost var k := State();
      var frame := mem.AllocFor(Held);
      if frame.None? {
        return false, 0;
      }
      ghost var x := mem.Now();
      NotForeign(k.w, frame.value);
      GivenPage(k.w, x, frame.value, mem.Target(v), v);
      f := frame.value;
      ok := mem.MapPage(v, frame.value, Flags(write, user, true));
      if ok {
        assert Foreign(k.w)[f := Held] - {f} == Foreign(k.w);
        SameHeld(k.w, mem.Now());
        PageNext(k, x, State(), mem.Target(v), v, Some(f));
        DoneParts(x, mem.Now(), mem.Target(v), v, Some(f));
        Note(k, PageStep);
      }
    }

    /** Maps page `v` to a frame that is not the page's, as for the screen. */
    method MapForeignPage(v: nat, f: nat, write: bool, user: bool) returns (ok: bool)
      requires Running() && mem.Mappable(v) && Translate(mem.Now(), mem.Target(v), v) == None && ZoneOf(v) == OtherZone
      modifies this`trace, this`steps, mem, mem.pmm`total, mem.pmm.bitmap
      ensures Running() && mem.cur == old(mem.cur)
      ensures ok ==> Done(old(mem.Now()), mem.Now(), mem.Target(v), v, Some(f)) && steps == old(steps) + [PageStep]
      ensures !ok ==> mem.Now() == old(mem.Now()) && forall g: nat :: mem.pmm.Managed(g) ==> g in mem.Now().used
    {
      hide Sound, Foreign, Translate, NoneHeld, Layout, HeapRegion, TaskHeap, TaskHeaps, Run, Next, KernelOk, Done,
           Give, SameOutside, HeapOf, SharedOf, RangeRemap, AddsDirectory, DropsDirectory, IsFree, ZoneOf, Ends, Wired;
      Parts();
      ghost var k := State();
      ok := mem.MapPage(v, f, Flags(write, user, false));
      if ok {
        SameHeld(k.w, mem.Now());
        PageNext(k, k.w, State(), mem.Target(v), v, Some(f));
        DoneParts(k.w, mem.Now(), mem.Target(v), v, Some(f));
        Note(k, PageStep);
      }
    }

    /** Unmaps page `v`, and frees its frame if it is the page's. */
    method UnmapPage(v: nat)
      requires Running() && mem.Mappable(v) && Translate(mem.Now(), mem.Target(v), v) != None && ZoneOf(v) == OtherZone
      modifies this`trace, this`steps, mem, mem.pmm`total, mem.pmm.bitmap
      ensures Running() && mem.cur == old(mem.cur) && steps == old(steps) + [PageStep]
      ensures Done(old(mem.Now()), mem.Now(), mem.Target(v), v, None)
    {
      hide Sound, Foreign, Translate, NoneHeld, Layout, HeapRegion, TaskHeap, TaskHeaps, Run, Next, KernelOk, Done,
           Give, SameOutside, HeapOf, SharedOf, RangeRemap, AddsDirectory, DropsDirectory, IsFree, ZoneOf, Ends, Wired;
      Parts();
      ghost var k := State();
      var e := mem.UnmapPage(v);
      SameHeld(k.w, mem.Now());
      PageNext(k, k.w, State(), mem.Target(v), v, None);
      DoneParts(k.w, mem.Now(), mem.Target(v), v, None);
      Note(k, PageStep);
    }

    // ---- Shared objects ----

    method CreateShared(size: dword) returns (id: Option<nat>, ok: bool)
      requires Running() && size != 0
      modifies this`trace, this`steps, shared`objs, mem, mem.pmm`total, mem.pmm.bitmap
      ensures mem.cur == old(mem.cur)
      ensures ok ==> Running() && trace == old(trace) + [State()] && steps == old(steps) + [SharedStep]
      ensures ok && id.Some? ==>
                && id.value < MAX_OBJS && old(shared.objs)[id.value] == [] && |shared.objs[id.value]| == PagesFor(size)
                && shared.objs == old(shared.objs)[id.value := shared.objs[id.value]]
      ensures id == None <==> forall i :: 0 <= i < MAX_OBJS ==> old(shared.objs)[i] != []
      ensures !ok ==> forall g: nat :: mem.pmm.Managed(g) ==> g in mem.Now().used
    {
      hide Sound, Foreign, Translate, NoneHeld, Layout, HeapRegion, TaskHeap, TaskHeaps, Run, Next, KernelOk, Done,
           Give, SameOutside, HeapOf, SharedOf, RangeRemap, AddsDirectory, DropsDirectory, IsFree, ZoneOf, Ends, Wired;
      Parts();
      ghost var k := State();
      id, ok := shared.Create(size);
      if ok {
        SharedNext(k, State());
        Note(k, SharedStep);
      }
    }

    method MapShared(id: nat, p: nat) returns (page: nat, ok: bool)
      requires Running() && shared.Exists(id) && p <= KERNEL_POOL && DirOf(shared.spaces, p).Some?
      requires |shared.pools[p]| < MAX_MAPPINGS
      requires NextPage(shared.objs, shared.pools[p], FirstPage(p)) + |shared.objs[id]| <= EndPage(p)
      modifies this`trace, this`steps, shared`pools, mem, mem.pmm`total, mem.pmm.bitmap
      ensures mem.cur == old(mem.cur)
      ensures ok ==> Running() && trace == old(trace) + [State()] && steps == old(steps) + [SharedStep]
      ensures page == NextPage(shared.objs, old(shared.pools[p]), FirstPage(p))
      ensures shared.pools == old(shared.pools)[p := old(shared.pools[p]) + [Mapping(page, id)]]
      ensures !ok ==> forall g: nat :: mem.pmm.Managed(g) ==> g in mem.Now().used
    {
      hide Sound, Foreign, Translate, NoneHeld, Layout, HeapRegion, TaskHeap, TaskHeaps, Run, Next, KernelOk, Done,
           Give, SameOutside, HeapOf, SharedOf, RangeRemap, AddsDirectory, DropsDirectory, IsFree, ZoneOf, Ends, Wired;
      Parts();
      ghost var k := State();
      page, ok := shared.Map(id, p);
      if ok {
        SameHeld(k.w, mem.Now());
        SharedNext(k, State());
        Note(k, SharedStep);
      }
    }

    method UnmapShared(id: nat, p: nat)
      requires Running() && shared.Exists(id) && p <= KERNEL_POOL && DirOf(shared.spaces, p).Some?
      requires IndexOf(shared.pools[p], id) < |shared.pools[p]|
      modifies this`trace, this`steps, shared`pools, mem, mem.pmm`total, mem.pmm.bitmap
      ensures Running() && mem.cur == old(mem.cur) && trace == old(trace) + [State()] &&
              steps == old(steps) + [SharedStep]
      ensures shared.pools ==
              old(shared.pools)[p := Removed(old(shared.pools[p]), IndexOf(old(shared.pools[p]), id))]
    {
      hide Sound, Foreign, Translate, NoneHeld, Layout, HeapRegion, TaskHeap, TaskHeaps, Run, Next, KernelOk, Done,
           Give, SameOutside, HeapOf, SharedOf, RangeRemap, AddsDirectory, DropsDirectory, IsFree, ZoneOf, Ends, Wired;
      Parts();
      ghost var k := State();
      shared.Unmap(id, p);
      SameHeld(k.w, mem.Now());
      SharedNext(k, State());
      Note(k, SharedStep);
    }

    /** Destroys an object. The kernel stays in order exactly when no pool had two neighbouring
        mappings of it. */
    method DestroyShared(id: nat)
      requires Running() && shared.Exists(id)
      modifies this`trace, this`steps, shared`pools, shared`objs, mem, mem.pmm`total, mem.pmm.bitmap
      ensures mem.cur == old(mem.cur)
      ensures Running() <==> forall p :: 0 <= p <= KERNEL_POOL ==> NoneAdjacent(old(shared.pools)[p], id)
      ensures Running() ==> trace == old(trace) + [State()] && steps == old(steps) + [SharedStep]
      ensures shared.objs == old(shared.objs)[id := []] && |shared.pools| == |old(shared.pools)| == MAX_TASKS + 1
      ensures forall p :: 0 <= p <= KERNEL_POOL ==> shared.pools[p] == Swept(old(shared.pools)[p], id, 0)
    {
      hide Sound, Foreign, Translate, NoneHeld, Layout, HeapRegion, TaskHeap, TaskHeaps, Run, Next, KernelOk, Done,
           Give, SameOutside, HeapOf, SharedOf, RangeRemap, AddsDirectory, DropsDirectory, IsFree, ZoneOf, Ends, Wired;
      Parts();
      ghost var k := State();
      shared.Destroy(id);
      if shared.Valid() {
        SharedNext(k, State());
        Note(k, SharedStep);
      }
    }

    // ---- Heaps ----

    method GrowKernelHeap(newSize: nat) returns (ok: bool)
      requires Running() && heap.size <= newSize && KERNEL_HEAP + Pages(newSize) <= KERNEL_HEAP_END
      modifies this`trace, this`steps, heap, mem, mem.pmm`total, mem.pmm.bitmap
      ensures mem.cur == old(mem.cur)
      ensures ok ==> Running() && trace == old(trace) + [State()] && steps == old(steps) + [KernelHeapStep]
      ensures ok ==> heap.size == newSize
      ensures !ok ==> forall g: nat :: mem.pmm.Managed(g) ==> g in mem.Now().used
    {
      hide Sound, Foreign, Translate, NoneHeld, Layout, HeapRegion, TaskHeap, TaskHeaps, Run, Next, KernelOk, Done,
           Give, SameOutside, HeapOf, SharedOf, RangeRemap, AddsDirectory, DropsDirectory, IsFree, ZoneOf, Ends, Wired;
      Parts();
      ghost var k := State();
      ghost var frames;
      ok, frames := heap.ChangeHeapSize(newSize);
      if ok {
        KernelHeapNext(k, State(), Somes(frames));
        Note(k, KernelHeapStep);
      }
    }

    /** The heap end of task `p` alone moves. */
    method MoveEnd(p: nat, newEnd: dword) returns (ok: bool, ghost frames: seq<nat>)
      requires Wired() && p in heaps && heaps[p].Valid() && Pages(heaps[p].end) <= Pages(newEnd) <= USER_HEAP_END
      modifies heaps[p], mem, mem.pmm`total, mem.pmm.bitmap
      ensures mem.Valid() && Wired() && old(heaps[p].Top() >= 0 && p in Ends() && Ends()[p] == heaps[p].Top())
      ensures ok ==>
                && mem.cur == old(mem.cur) && heaps[p].end == newEnd && Ends() == old(Ends())[p := heaps[p].Top()]
                && TaskHeap(mem.Now(), mem.cur, heaps[p].Top())
                && |frames| == heaps[p].Top() - old(heaps[p].Top())
                && RangeRemap(old(mem.Now()), mem.Now(), mem.cur, USER_HEAP + old(heaps[p].Top()), Somes(frames))
                && Foreign(mem.Now()) == Foreign(old(mem.Now()))
      ensures !ok ==> forall g: nat :: mem.pmm.Managed(g) ==> g in mem.Now().used
    {
      hide Memory.Now, FrameAllocator.Used, Memory.Valid, TaskHeap, RangeRemap, Foreign, Somes;
      ghost var ends := Ends();
      ok, frames := heaps[p].SetEnd(newEnd);
      if ok {
        assert Ends() == ends[p := heaps[p].Top()];
      }
    }

    /** Moves the heap end of the task whose directory is current. */
    method SetHeapEnd(p: nat, newEnd: dword) returns (ok: bool)
      requires Running() && p < MAX_TASKS && p in heaps && shared.spaces[p] == Some(mem.cur)
      requires Pages(heaps[p].end) <= Pages(newEnd) <= USER_HEAP_END
      modifies this`trace, this`steps, heaps[p], mem, mem.pmm`total, mem.pmm.bitmap
      ensures mem.cur == old(mem.cur) || !ok
      ensures ok ==> Running() && trace == old(trace) + [State()] && steps == old(steps) + [TaskHeapStep(p)]
      ensures ok ==> heaps[p].end == newEnd
      ensures !ok ==> forall g: nat :: mem.pmm.Managed(g) ==> g in mem.Now().used
    {
      hide Sound, Foreign, Translate, NoneHeld, Layout, HeapRegion, TaskHeap, TaskHeaps, Run, Next, KernelOk, Done,
           Give, SameOutside, HeapOf, SharedOf, RangeRemap, AddsDirectory, DropsDirectory, IsFree, ZoneOf, Ends, Wired;
      Parts();
      ghost var k := State();
      ghost var frames;
      HeapOfTask(p);
      ok, frames := MoveEnd(p, newEnd);
      if ok {
        TaskHeapNext(k, State(), p, heaps[p].Top(), Somes(frames));
        Note(k, TaskHeapStep(p));
      }
    }

    // ---- Tasks ----

    /** An empty heap for the task whose directory is current. */
    method AddHeap(p: nat)
      requires Wired() && mem.Valid() && TaskHeap(mem.Now(), mem.cur, 0)
      modifies this`heaps
      ensures Wired() && p in heaps && fresh(heaps[p]) && heaps == old(heaps)[p := heaps[p]]
      ensures Ends() == old(Ends())[p := 0] && heaps[p].Top() == 0
    {
      hide TaskHeap, Memory.Valid, Memory.Now, UserHeap.Valid, UserHeap.Top;
      ghost var ends := Ends();
      var h := new UserHeap(mem);
      heaps := heaps[p := h];
      assert Ends() == ends[p := 0];
    }

    method RemoveHeap(p: nat)
      requires Wired()
      modifies this`heaps
      ensures Wired() && heaps == old(heaps) - {p} && Ends() == old(Ends()) - {p}
    {
      hide UserHeap.Top;
      ghost var ends := Ends();
      heaps := heaps - {p};
      assert Ends() == ends - {p};
    }

    /** Loads CR3 with a directory in use. */
    method SwitchTo(d: nat)
      requires Ok() && d <= NUM_PAGE_DIRS && Live(mem.Now(), d)
      modifies mem`cur
      ensures Running() && mem.cur == d && State() == old(State())
    {
      hide KernelOk, Run;
      KernelParts(State());
      mem.ChangePageDirectory(d);
    }

    /** A task begins in slot `p`: a directory of its own, an empty heap and a stack. */
    method StartTask(p: nat) returns (d: Option<nat>, ok: bool)
      requires Running() && p < MAX_TASKS && shared.spaces[p] == None
      modifies this`heaps, this`trace, this`steps, shared`spaces, mem, mem.pmm`total, mem.pmm.bitmap
      ensures ok ==> Running() && mem.cur == old(mem.cur) && old(trace) <= trace
      ensures d == None ==> ok && State() == old(State())
      ensures d.Some? && ok ==> shared.spaces == old(shared.spaces)[p := d] && p in heaps && heaps[p].Top() == 0
      ensures !ok ==> forall g: nat :: mem.pmm.Managed(g) ==> g in mem.Now().used
    {
      hide State, Wired, IsFree, FrameAllocator.Valid, KernelOk, Run;
      var prev := mem.cur;
      Parts();
      assert prev == INITIAL || mem.inUse[prev];
      d := OpenSpace(p);
      if d.None? {
        return d, true;
      }
      assert prev == INITIAL || mem.inUse[prev];
      ok := MapStack();
      if ok {
        assert prev == INITIAL || mem.inUse[prev];
        SwitchTo(prev);
      }
    }

    /** Gives the task in slot `p` a directory, which becomes the current one, and an empty heap. */
    method OpenSpace(p: nat) returns (d: Option<nat>)
      requires Running() && p < MAX_TASKS && shared.spaces[p] == None
      modifies this`heaps, this`trace, this`steps, shared`spaces, mem
      ensures Running()
      ensures d == None ==> State() == old(State()) && mem.cur == old(mem.cur) && trace == old(trace)
      ensures d.Some? ==>
                && d.value < NUM_PAGE_DIRS && mem.cur == d.value && mem.inUse == old(mem.inUse)[d.value := true]
                && shared.spaces == old(shared.spaces)[p := d] && p in heaps && heaps[p].Top() == 0
                && IsFree(mem.Now(), d.value, USER_HEAP_END, USER_STACK_END - USER_HEAP_END)
                && trace == old(trace) + [State()] && steps == old(steps) + [Step.StartTask(p, d.value)]
    {
      hide Sound, Foreign, Translate, NoneHeld, Layout, HeapRegion, TaskHeap, TaskHeaps, Run, Next, KernelOk, Done,
           Give, SameOutside, HeapOf, SharedOf, RangeRemap, AddsDirectory, DropsDirectory, IsFree, ZoneOf,
           Ends, Wired, Traced, Ok;
      Parts();
      ghost var k := State();
      d := mem.AllocPageDir();
      if d.None? {
        return;
      }
      SoundParts(mem.Now());
      EmptySpace(k.w, mem.Now(), d.value);
      mem.ChangePageDirectory(d.value);
      shared.spaces := shared.spaces[p := d];
      AddHeap(p);
      StartNext(k, State(), p, d.value);
      Note(k, Step.StartTask(p, d.value));
    }

    /** Maps the stack of the task whose directory is current. */
    method MapStack() returns (ok: bool)
      requires Running() && mem.cur < NUM_PAGE_DIRS
      requires IsFree(mem.Now(), mem.cur, USER_HEAP_END, USER_STACK_END - USER_HEAP_END)
      modifies this`trace, this`steps, mem, mem.pmm`total, mem.pmm.bitmap
      ensures mem.cur == old(mem.cur)
      ensures ok ==> Running() && mem.inUse == old(mem.inUse) && old(trace) <= trace
      ensures !ok ==> forall g: nat :: mem.pmm.Managed(g) ==> g in mem.Now().used
    {
      hide Sound, Foreign, Translate, NoneHeld, Layout, HeapRegion, TaskHeap, TaskHeaps, Run, Next, KernelOk, Done,
           Give, SameOutside, HeapOf, SharedOf, RangeRemap, AddsDirectory, DropsDirectory, IsFree;
      Parts();
      var v := USER_HEAP_END;
      while v < USER_STACK_END
        invariant USER_HEAP_END <= v <= USER_STACK_END && Running() && mem.cur == old(mem.cur)
        invariant mem.inUse == old(mem.inUse) && old(trace) <= trace
        invariant IsFree(mem.Now(), mem.cur, v, USER_STACK_END - v)
      {
        ghost var w, f := mem.Now(), 0;
        FirstFree(w, mem.cur, v, USER_STACK_END - v);
        ok, f := MapNewPage(v, true, true);
        if !ok {
          return;
        }
        GiveParts(w, f, Held);
        DoneParts(Give(w, f, Held), mem.Now(), mem.cur, v, Some(f));
        GrowTranslate(w, Give(w, f, Held), mem.Now(), mem.cur, v, f, USER_HEAP_END, USER_STACK_END);
        v := v + 1;
      }
      return true;
    }

    /** The task in slot `p` ends: its directory goes, with the frames it owns, its heap and its
        shared mappings. If it is the running task, CR3 names an unused directory until the switch. */
    method EndTask(p: nat)
      requires Running() && p < MAX_TASKS && shared.spaces[p].Some?
      modifies this`heaps, this`trace, this`steps, shared`spaces, shared`pools, mem, mem.pmm`total, mem.pmm.bitmap
      ensures Ok() && mem.cur == old(mem.cur)
      ensures Running() <==> old(shared.spaces[p]) != Some(mem.cur)
      ensures trace == old(trace) + [State()] && steps == old(steps) + [Step.EndTask(p, old(shared.spaces[p]).value)]
      ensures shared.spaces == old(shared.spaces)[p := None] && shared.pools == old(shared.pools)[p := []]
      ensures heaps == old(heaps) - {p} && DropsDirectory(old(mem.Now()), mem.Now(), old(shared.spaces[p]).value)
    {
      hide Sound, Foreign, Translate, NoneHeld, Layout, HeapRegion, TaskHeap, TaskHeaps, Run, Next, KernelOk, Done,
           Give, SameOutside, HeapOf, SharedOf, RangeRemap, AddsDirectory, DropsDirectory, IsFree, ZoneOf,
           Ends, Wired, Traced, Ok;
      Parts();
      ghost var k := State();
      var d := shared.spaces[p].value;
      TaskDirs(k.w, k.objs, k.pools, k.spaces, p);
      RemoveHeap(p);
      mem.FreePageDir(d);
      shared.spaces := shared.spaces[p := None];
      shared.pools := shared.pools[p := []];
      EndNext(k, State(), p, d);
      Note(k, Step.EndTask(p, d));
    }

    /** In every state of every run each frame in use has exactly one owner, and no free frame has one. */
    lemma Ownership(i: nat, f: nat)
      requires Ok() && i < |trace|
      ensures KernelOk(trace[i]) && OwnedOnce(trace[i], f) && OwnedOnce(State(), f)
    {
      hide Run, KernelOk, OwnedOnce;
      RunOwnership(trace, steps, i, f);
      StateOwnership(State(), f);
    }
  }
}
