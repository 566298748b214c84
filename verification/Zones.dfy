/** The parts of the address space, and what it means to leave the others alone. */
module Zones {
  import opened Options
  import opened Paging

  const USER_HEAP: nat := 0x2_0000          // all bounds are page numbers
  const USER_HEAP_END: nat := 0xA_FFF0      // here the stack begins
  const USER_STACK_END: nat := 0xB_0000
  const USER_SHARED: nat := 0xB_0000
  const USER_SHARED_END: nat := 0xB_8000    // here the shared libraries begin
  const KERNEL_HEAP: nat := 0xD_0000
  const KERNEL_HEAP_END: nat := 0xF_0000
  const KERNEL_SHARED: nat := 0xF_0000
  const KERNEL_SHARED_END: nat := 0xF_FC00

  datatype Zone = TaskHeapZone | SharedZone | KernelHeapZone | OtherZone

  function ZoneOf(u: nat): Zone {
    if USER_HEAP <= u < USER_HEAP_END then TaskHeapZone
    else if USER_SHARED <= u < USER_SHARED_END || KERNEL_SHARED <= u < KERNEL_SHARED_END then SharedZone
    else if KERNEL_HEAP <= u < KERNEL_HEAP_END then KernelHeapZone
    else OtherZone
  }

  /** No page outside zone `z` is mapped otherwise in any address space. */
  ghost predicate SameOutside(w: World, y: World, z: Zone) {
    && Shape(w) && Shape(y) && y.inUse == w.inUse && NoNewLarge(w, y)
    && forall c, u {:trigger Translate(y, c, u)} ::
         0 <= c <= NUM_PAGE_DIRS && Live(w, c) && 0 <= u < RECURSIVE * ENTRIES && ZoneOf(u) != z ==>
           Translate(y, c, u) == Translate(w, c, u)
  }

  lemma OutsideNone(w: World, y: World, z: Zone)
    requires Shape(w) && Shape(y) && y.dirs == w.dirs && y.tables == w.tables && y.inUse == w.inUse
    ensures SameOutside(w, y, z)
  {
  }

  lemma OutsideTrans(w: World, x: World, y: World, z: Zone)
    requires SameOutside(w, x, z) && SameOutside(x, y, z)
    ensures SameOutside(w, y, z)
  {
    hide Translate, ZoneOf;
  }

  lemma OutsideRange(w: World, y: World, d: nat, v: nat, fs: seq<Option<nat>>, z: Zone)
    requires RangeRemap(w, y, d, v, fs) && forall u: nat :: v <= u < v + |fs| ==> ZoneOf(u) == z
    ensures SameOutside(w, y, z)
  {
    hide Translate, ZoneOf, Sound;
  }

  lemma OutsideDone(w: World, y: World, d: nat, v: nat, r: Option<nat>)
    requires Done(w, y, d, v, r)
    ensures SameOutside(w, y, ZoneOf(v))
  {
    DoneParts(w, y, d, v, r);
    SoundParts(y);
    hide Translate, ZoneOf, Sound, Done;
  }

  // ---- The frames of the shared objects and of the kernel heap ----

  function SharedOf(w: World): map<nat, Owner> {
    map f | f in Foreign(w) && Foreign(w)[f].Shared? :: Foreign(w)[f]
  }

  function HeapOf(w: World): map<nat, Owner> {
    map f | f in Foreign(w) && Foreign(w)[f].HeapPage? :: Foreign(w)[f]
  }
}
