/** The pages behind the kernel heap and behind a task's heap. */
module HeapPages {
  import opened Bytes
  import opened Options
  import opened PhysAlloc
  import opened Paging
  import opened PageDirs
  import opened Zones

  /** Pages needed for `n` bytes. */
  function Pages(n: nat): nat {
    (n + 0xFFF) / 0x1000
  }

  /** The first `n` pages of the kernel heap, and no more, are mapped, each to a frame that belongs to it. */
  ghost predicate HeapRegion(w: World, n: nat): (r: bool)
    ensures r ==> Shape(w) && KERNEL_HEAP + n <= KERNEL_HEAP_END
  {
    && Shape(w) && KERNEL_HEAP + n <= KERNEL_HEAP_END
    && (forall u {:trigger Translate(w, INITIAL, u)} :: KERNEL_HEAP <= u < KERNEL_HEAP + n ==>
          && Translate(w, INITIAL, u).Some?
          && Translate(w, INITIAL, u).value in Foreign(w)
          && Foreign(w)[Translate(w, INITIAL, u).value] == HeapPage(u - KERNEL_HEAP))
    && IsFree(w, INITIAL, KERNEL_HEAP + n, KERNEL_HEAP_END - KERNEL_HEAP - n)
    && (forall f :: f in Foreign(w) && Foreign(w)[f].HeapPage? ==>
          Foreign(w)[f].number < n && Translate(w, INITIAL, KERNEL_HEAP + Foreign(w)[f].number) == Some(f))
  }

  /** One more page. */
  lemma GrowHeap(w: World, y: World, n: nat, f: nat)
    requires HeapRegion(w, n) && KERNEL_HEAP + n < KERNEL_HEAP_END && Sound(w) && f !in w.used
    requires Done(Give(w, f, HeapPage(n)), y, INITIAL, KERNEL_HEAP + n, Some(f)) &&
             Foreign(y) == Foreign(w)[f := HeapPage(n)]
    ensures HeapRegion(y, n + 1)
    ensures forall u {:trigger Translate(y, INITIAL, u)} :: KERNEL_HEAP <= u < KERNEL_HEAP + n ==>
              Translate(y, INITIAL, u) == Translate(w, INITIAL, u)
  {
    var x := Give(w, f, HeapPage(n));
    NotForeign(w, f);
    GrowTranslate(w, x, y, INITIAL, KERNEL_HEAP + n, f, KERNEL_HEAP, KERNEL_HEAP_END);
    hide Sound, Done, Foreign, Translate, Give, IsFree;
    GrowOwners(w, y, n, f);
  }

  lemma GrowOwners(w: World, y: World, n: nat, f: nat)
    requires HeapRegion(w, n) && KERNEL_HEAP + n < KERNEL_HEAP_END && f !in Foreign(w)
    requires Shape(y) && Foreign(y) == Foreign(w)[f := HeapPage(n)]
    requires forall u {:trigger Translate(y, INITIAL, u)} :: KERNEL_HEAP <= u < KERNEL_HEAP_END ==>
              Translate(y, INITIAL, u) == if u == KERNEL_HEAP + n then Some(f) else Translate(w, INITIAL, u)
    requires IsFree(y, INITIAL, KERNEL_HEAP + n + 1, KERNEL_HEAP_END - KERNEL_HEAP - n - 1)
    ensures HeapRegion(y, n + 1)
  {
    hide Foreign, Translate, IsFree;
    forall g | g in Foreign(y) && Foreign(y)[g].HeapPage?
      ensures Foreign(y)[g].number < n + 1 && Translate(y, INITIAL, KERNEL_HEAP + Foreign(y)[g].number) == Some(g)
    {
      if g != f {
        assert Foreign(w)[g].HeapPage?;
      }
    }
  }

  /** Mapping the first free page of a range. */
  lemma GrowTranslate(w: World, x: World, y: World, d: nat, v: nat, f: nat, lo: nat, hi: nat)
    requires Shape(w) && Shape(x) && x.dirs == w.dirs && x.tables == w.tables && x.inUse == w.inUse
    requires d <= NUM_PAGE_DIRS && Live(w, d) && lo <= v < hi <= RECURSIVE * ENTRIES && IsFree(w, d, v, hi - v)
    requires Done(x, y, d, v, Some(f))
    ensures Shape(y) && IsFree(y, d, v + 1, hi - v - 1)
    ensures forall u {:trigger Translate(y, d, u)} :: lo <= u < hi ==>
              Translate(y, d, u) == if u == v then Some(f) else Translate(w, d, u)
  {
    DoneParts(x, y, d, v, Some(f));
    SameTranslate(w, x, d);
    hide Sound, Done, DirsOk, TablesOk, PagesOk, PageOwnersOk, Translate;
    forall u | lo <= u < hi
      ensures Translate(y, d, u) == if u == v then Some(f) else Translate(w, d, u)
    {
    }
    forall u | v < u < hi
      ensures SmallSlot(y, d, u)
    {
      assert Translate(w, d, u) == None;
      SmallStays(x, y, d, u);
    }
  }

  class KernelHeap {
    const mem: Memory
    var size: nat

    ghost predicate Valid()
      reads this, mem, mem.pmm, mem.pmm.bitmap
    {
      mem.Valid() && HeapRegion(mem.Now(), Pages(size))
    }

    constructor (mem: Memory)
      requires mem.Valid() && HeapRegion(mem.Now(), 0)
      ensures Valid() && this.mem == mem && size == 0
    {
      this.mem := mem;
      size := 0;
    }

    /** Grows the heap: its new pages are mapped to `frames`, which were free, and nothing else moves. */
    method ChangeHeapSize(newSize: nat) returns (ok: bool, ghost frames: seq<nat>)
      requires Valid() && size <= newSize && KERNEL_HEAP + Pages(newSize) <= KERNEL_HEAP_END
      modifies this, mem, mem.pmm`total, mem.pmm.bitmap
      ensures mem.Valid() && mem.cur == old(mem.cur)
      ensures ok ==>
                && Valid() && size == newSize && |frames| == Pages(newSize) - Pages(old(size))
                && RangeRemap(old(mem.Now()), mem.Now(), INITIAL, KERNEL_HEAP + Pages(old(size)), Somes(frames))
                && SharedOf(mem.Now()) == SharedOf(old(mem.Now()))
                && (NoneHeld(old(mem.Now())) ==> NoneHeld(mem.Now()))
      ensures ok ==> forall k :: 0 <= k < |frames| ==> frames[k] !in old(mem.Now()).used
      ensures !ok ==> forall g: nat :: mem.pmm.Managed(g) ==> g in mem.Now().used
    {
      hide Sound, Owned, Foreign, Translate, Give, Done, IsFree, RangeRemap, SharedOf, NoneHeld, HeapRegion, Somes;
      ghost var w := mem.Now();
      var oldTop, newTop := Pages(size), Pages(newSize);
      var top := oldTop;
      frames := [];
      RemapNone(w, INITIAL, KERNEL_HEAP + oldTop);
      assert Somes([]) == [];
      while top < newTop
        invariant mem.cur == old(mem.cur)
        invariant oldTop <= top <= newTop && mem.Valid() && HeapRegion(mem.Now(), top) && |frames| == top - oldTop
        invariant RangeRemap(w, mem.Now(), INITIAL, KERNEL_HEAP + oldTop, Somes(frames))
        invariant SharedOf(mem.Now()) == SharedOf(w) && (NoneHeld(w) ==> NoneHeld(mem.Now()))
        invariant w.used <= mem.Now().used && forall k :: 0 <= k < |frames| ==> frames[k] !in w.used
      {
        ghost var x := mem.Now();
        var f;
        ok, f := GrowByPage(top);
        if !ok {
          return;
        }
        RangeGrows(w, x, mem.Now(), INITIAL, KERNEL_HEAP + oldTop, frames, f, HeapPage(top));
        frames := frames + [f];
        top := top + 1;
      }
      size := newSize;
      return true, frames;
    }

    /** Maps page `n`, the first behind the heap, to a frame that becomes the heap's. */
    method GrowByPage(n: nat) returns (ok: bool, f: nat)
      requires mem.Valid() && HeapRegion(mem.Now(), n) && KERNEL_HEAP + n < KERNEL_HEAP_END
      modifies mem, mem.pmm`total, mem.pmm.bitmap
      ensures mem.Valid() && mem.cur == old(mem.cur)
      ensures ok ==>
                && f !in old(mem.Now()).used && old(mem.Now()).used <= mem.Now().used
                && Sound(Give(old(mem.Now()), f, HeapPage(n)))
                && Done(Give(old(mem.Now()), f, HeapPage(n)), mem.Now(), INITIAL, KERNEL_HEAP + n, Some(f))
                && HeapRegion(mem.Now(), n + 1) && SharedOf(mem.Now()) == SharedOf(old(mem.Now()))
                && (NoneHeld(old(mem.Now())) ==> NoneHeld(mem.Now()))
      ensures !ok ==> forall g: nat :: mem.pmm.Managed(g) ==> g in mem.Now().used
    {
      hide Sound, Owned, Foreign, Translate, Give, Done, IsFree;
      ghost var x := mem.Now();
      var frame := mem.AllocFor(HeapPage(n));
      if frame.None? {
        return false, 0;
      }
      f := frame.value;
      NextFree(x, mem.Now(), n, f);
      GiveGrows(x, f, HeapPage(n));
      ok := mem.MapPage(KERNEL_HEAP + n, f, Flags(true, false, false));
      if ok {
        GrowHeap(x, mem.Now(), n, f);
        SharedStays(x, mem.Now(), n, f);
      }
    }
  }

  lemma GiveGrows(w: World, f: nat, o: Owner)
    ensures w.used <= Give(w, f, o).used
  {
  }

  lemma SharedStays(w: World, y: World, n: nat, f: nat)
    requires Sound(w) && f !in w.used && Foreign(y) == Foreign(w)[f := HeapPage(n)]
    ensures SharedOf(y) == SharedOf(w)
  {
    NotForeign(w, f);
    hide Sound, Foreign;
    forall g | g in Foreign(y) && Foreign(y)[g].Shared?
      ensures g in Foreign(w)
    {
    }
  }

  function Somes(frames: seq<nat>): (r: seq<Option<nat>>)
    ensures |r| == |frames|
  {
    seq(|frames|, i requires 0 <= i < |frames| => Some(frames[i]))
  }

  /** A range grows by one page, whose frame changed hands in between. */
  lemma RangeGrows(w: World, x: World, y: World, d: nat, v: nat, frames: seq<nat>, f: nat, o: Owner)
    requires RangeRemap(w, x, d, v, Somes(frames)) && Sound(Give(x, f, o)) &&
             Done(Give(x, f, o), y, d, v + |frames|, Some(f))
    ensures RangeRemap(w, y, d, v, Somes(frames + [f]))
  {
    hide RangeRemap, Sound, Done;
    RemapGive(w, x, d, v, Somes(frames), f, o);
    RemapStep(w, Give(x, f, o), y, d, v, Somes(frames), Some(f));
    assert Somes(frames + [f]) == Somes(frames) + [Some(f)];
  }

  /** The page the heap grows into can be mapped. */
  lemma NextFree(w: World, x: World, n: nat, f: nat)
    requires HeapRegion(w, n) && KERNEL_HEAP + n < KERNEL_HEAP_END && x == Give(w, f, HeapPage(n))
    ensures Shape(x) && Translate(x, INITIAL, KERNEL_HEAP + n) == None && SmallSlot(x, INITIAL, KERNEL_HEAP + n)
  {
    assert Translate(w, INITIAL, KERNEL_HEAP + n) == None;
  }

  /** The `n` pages of a task's heap are mapped, and none behind them. */
  ghost predicate TaskHeap(w: World, d: nat, n: nat) {
    && Shape(w) && d < NUM_PAGE_DIRS && USER_HEAP + n <= USER_HEAP_END
    && (forall u {:trigger Translate(w, d, u)} :: USER_HEAP <= u < USER_HEAP + n ==> Translate(w, d, u).Some?)
    && IsFree(w, d, USER_HEAP + n, USER_HEAP_END - USER_HEAP - n)
  }

  lemma NextPageFree(w: World, x: World, d: nat, top: nat, f: nat)
    requires USER_HEAP <= top < USER_HEAP_END && TaskHeap(w, d, top - USER_HEAP) && x == Give(w, f, Held)
    ensures Shape(x) && Translate(x, d, top) == None && SmallSlot(x, d, top)
  {
    assert Translate(w, d, top) == None;
  }

  lemma InUsed(w: World, f: nat)
    requires Sound(w) && f in w.owner
    ensures f in w.used
  {
  }

  /** The heap of the task whose directory is current. */
  class UserHeap {
    const mem: Memory
    var end: dword

    /** Pages up to `end`. */
    function Top(): int
      reads this
    {
      Pages(end) - USER_HEAP
    }

    ghost predicate Valid()
      reads this, mem, mem.pmm, mem.pmm.bitmap
    {
      mem.Valid() && Top() >= 0 && TaskHeap(mem.Now(), mem.cur, Top())
    }

    /** A task starts with an empty heap. */
    constructor (mem: Memory)
      requires mem.Valid() && TaskHeap(mem.Now(), mem.cur, 0)
      ensures Valid() && this.mem == mem && Top() == 0
    {
      this.mem := mem;
      end := 0x2000_0000;
    }

    /** Maps page `top`, the first behind the heap, to a frame of its own. */
    method GrowByPage(top: nat) returns (ok: bool, f: nat)
      requires mem.Valid() && USER_HEAP <= top < USER_HEAP_END && TaskHeap(mem.Now(), mem.cur, top - USER_HEAP)
      modifies mem, mem.pmm`total, mem.pmm.bitmap
      ensures mem.Valid() && mem.cur == old(mem.cur)
      ensures ok ==>
                && f !in old(mem.Now()).used && f in mem.Now().owner && mem.Now().owner[f].Page?
                && old(mem.Now()).used <= mem.Now().used
                && Sound(Give(old(mem.Now()), f, Held))
                && Done(Give(old(mem.Now()), f, Held), mem.Now(), mem.cur, top, Some(f))
                && TaskHeap(mem.Now(), mem.cur, top + 1 - USER_HEAP) && Foreign(mem.Now()) == Foreign(old(mem.Now()))
      ensures !ok ==> forall g: nat :: mem.pmm.Managed(g) ==> g in mem.Now().used
    {
      hide Sound, Owned, Foreign, Translate, Done, IsFree;
      ghost var w := mem.Now();
      var frame := mem.AllocFor(Held);
      if frame.None? {
        return false, 0;
      }
      f := frame.value;
      ghost var x := mem.Now();
      NextPageFree(w, x, mem.cur, top, f);
      NotForeign(w, f);
      ok := mem.MapPage(top, f, Flags(true, true, true));
      if ok {
        GrowTranslate(w, x, mem.Now(), mem.cur, top, f, USER_HEAP, USER_HEAP_END);
        assert Foreign(w)[f := Held] - {f} == Foreign(w);
      }
    }

    /** Moves the end of the heap up: the new pages are mapped to `frames`, which were free and are
        distinct, and nothing else moves. */
    method SetEnd(newEnd: dword) returns (ok: bool, ghost frames: seq<nat>)
      requires Valid() && Pages(end) <= Pages(newEnd) <= USER_HEAP_END
      modifies this, mem, mem.pmm`total, mem.pmm.bitmap
      ensures mem.Valid()
      ensures ok ==>
                && Valid() && mem.cur == old(mem.cur) && end == newEnd && |frames| == Pages(newEnd) - Pages(old(end))
                && RangeRemap(old(mem.Now()), mem.Now(), mem.cur, Pages(old(end)), Somes(frames))
                && Foreign(mem.Now()) == Foreign(old(mem.Now()))
      ensures ok ==> forall k :: 0 <= k < |frames| ==> frames[k] !in old(mem.Now()).used
      ensures ok ==> forall i, k :: 0 <= i < k < |frames| ==> frames[i] != frames[k]
      ensures !ok ==> forall g: nat :: mem.pmm.Managed(g) ==> g in mem.Now().used
    {
      hide Sound, Owned, Foreign, Translate, Give, Done, IsFree, RangeRemap, TaskHeap, Somes;
      ghost var w, d := mem.Now(), mem.cur;
      var oldTop, newTop := Pages(end), Pages(newEnd);
      var top := oldTop;
      frames := [];
      RemapNone(w, d, oldTop);
      assert Somes([]) == [];
      while top < newTop
        invariant oldTop <= top <= newTop && mem.Valid() && mem.cur == d && |frames| == top - oldTop
        invariant TaskHeap(mem.Now(), d, top - USER_HEAP) && Foreign(mem.Now()) == Foreign(w)
        invariant RangeRemap(w, mem.Now(), d, oldTop, Somes(frames))
        invariant w.used <= mem.Now().used
        invariant forall k :: 0 <= k < |frames| ==> frames[k] !in w.used && frames[k] in mem.Now().used
        invariant forall i, k :: 0 <= i < k < |frames| ==> frames[i] != frames[k]
      {
        ghost var x := mem.Now();
        var f;
        ok, f := GrowByPage(top);
        if !ok {
          return;
        }
        InUsed(mem.Now(), f);
        RangeGrows(w, x, mem.Now(), d, oldTop, frames, f, Held);
        frames := frames + [f];
        top := top + 1;
      }
      end := newEnd;
      return true, frames;
    }
  }
}
