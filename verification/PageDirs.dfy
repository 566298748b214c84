/** The kernel's page directories, changed in place. */
module PageDirs {
  import opened Bytes
  import opened Options
  import opened PhysAlloc
  import opened Paging

  datatype Flags = Flags(write: bool, user: bool, owner: bool)

  class Memory {
    const pmm: FrameAllocator
    var dirs: seq<seq<Pte>>
    var inUse: seq<bool>
    var tables: map<nat, seq<Pte>>     // page tables, by the frame they lie in
    var cur: nat                       // the directory in CR3
    ghost var owner: map<nat, Owner>

    ghost function Now(): World
      reads this, pmm, pmm.bitmap
    {
      World(pmm.Used(), owner, dirs, inUse, tables)
    }

    ghost predicate Valid()
      reads this, pmm, pmm.bitmap
    {
      pmm.Valid() && Sound(Now()) && cur <= NUM_PAGE_DIRS && Live(Now(), cur)
    }

    /** Paging right after boot: large kernel pages only, and no directory in use. */
    constructor (boot: seq<Pte>, memHigh: dword)
      requires |boot| == ENTRIES &&
               forall i :: 0 <= i < RECURSIVE ==> !boot[i].owner && (boot[i] == ZERO || boot[i].big)
      requires memHigh / 0x1000 / 8 <= BITMAP_BYTES && (memHigh / 0x1000 % 8 != 0 ==> memHigh / 0x1000 >= 8)
      ensures Valid() && fresh(pmm) && fresh(pmm.bitmap) && cur == INITIAL
      ensures Now().used == {} && owner == map[] && tables == map[] &&
              (forall d :: 0 <= d < NUM_PAGE_DIRS ==> !inUse[d])
      ensures forall i :: 0 < i < RECURSIVE ==> dirs[INITIAL][i] == boot[i]
    {
      var self := Pte(0, true, true, false, false, false);
      var first := boot[0 := ZERO][RECURSIVE := self];
      pmm := new FrameAllocator(0x40_0000, memHigh);
      dirs := seq(NUM_PAGE_DIRS, _ => seq(ENTRIES, _ => ZERO)) + [first];
      inUse := seq(NUM_PAGE_DIRS, _ => false);
      tables := map[];
      cur := INITIAL;
      owner := map[];
      new;
      assert Shape(Now());
    }

    method AllocFrame() returns (f: Option<nat>)
      requires pmm.Valid() && Owned(Now())
      modifies this`owner, pmm`total, pmm.bitmap
      ensures pmm.Valid()
      ensures f == None ==> Now() == old(Now()) && forall g: nat :: pmm.Managed(g) ==> g in Now().used
      ensures f.Some? ==> f.value !in old(Now()).used && Now() == Acquire(old(Now()), f.value) && Owned(Now())
    {
      hide DirsOk, TablesOk, PagesOk, PageOwnersOk;
      ghost var w := Now();
      var a := pmm.Alloc();
      if a.None? {
        return None;
      }
      f := Some(a.value / PAGE);
      owner := owner[f.value := Held];
      AcquireOwned(w, f.value);
    }

    method FreeFrame(f: nat)
      requires pmm.Valid() && Owned(Now()) && f in owner && owner[f] == Held
      modifies this`owner, pmm`total, pmm.bitmap
      ensures pmm.Valid() && Owned(Now()) && Now() == Release(old(Now()), f)
    {
      hide DirsOk, TablesOk, PagesOk, PageOwnersOk;
      ghost var w := Now();
      InBitmap(f);
      pmm.Free(f * PAGE);
      ReleaseOwned(w, f);
      owner := map g | g in owner && g != f :: owner[g];
    }

    lemma InBitmap(f: nat)
      requires pmm.Valid() && f in pmm.Used()
      ensures f * PAGE < 0x1_0000_0000 && f * PAGE / PAGE == f
    {
      assert f < 8 * |pmm.bitmap[..]|;
    }

    /** The directory a mapping of page `v` is written to. */
    function Target(v: nat): nat
      reads this`cur
    {
      if v / ENTRIES >= KERNEL_SLOT then INITIAL else cur
    }

    /** Page `v` can be mapped or unmapped by table. */
    ghost predicate Mappable(v: nat)
      reads this, pmm, pmm.bitmap
      requires Valid()
    {
      v < RECURSIVE * ENTRIES && SmallSlot(Now(), Target(v), v)
    }

    /** Gives slot `i` of the current directory a table if it has none. */
    method EnsureTable(i: nat, user: bool) returns (ok: bool)
      requires pmm.Valid() && Owned(Now()) && NoEmptyTable(Now()) && cur <= NUM_PAGE_DIRS && Live(Now(), cur)
      requires OwnSlot(cur, i) && !dirs[cur][i].big
      modifies this`dirs, this`tables, this`owner, pmm`total, pmm.bitmap
      ensures pmm.Valid()
      ensures ok ==> TableReady(old(Now()), Now(), cur, i) && OnlySlot(old(Now()), Now(), cur, i)
      ensures !ok ==> Now() == old(Now()) && forall g: nat :: pmm.Managed(g) ==> g in Now().used
    {
      hide DirsOk, TablesOk, PagesOk, PageOwnersOk, NoEmptyTable, TableReady, OnlySlot, Owned;
      ghost var w := Now();
      if dirs[cur][i].present {
        TableWasReady(w, cur, i);
        return true;
      }
      var frame := AllocFrame();
      if frame.None? {
        return false;
      }
      var pt := frame.value;
      var e := Pte(pt, true, true, user, false, true);
      TableMade(w, cur, i, pt, e);
      dirs := dirs[cur := dirs[cur][i := e]];
      var zeroed := ZeroedTable();
      tables := tables[pt := zeroed];
      owner := owner[pt := Table(cur, i)];
      assert Now() == NewTable(Acquire(w, pt), cur, i, pt, e);
      return true;
    }

    /** Maps page `v` of the current directory, allocating its table when it has none. */
    method MapHere(v: nat, f: nat, flags: Flags) returns (ok: bool)
      requires pmm.Valid() && Owned(Now()) && NoEmptyTable(Now()) && cur <= NUM_PAGE_DIRS
      requires OwnPage(Now(), cur, v) && SmallSlot(Now(), cur, v) && Translate(Now(), cur, v) == None
      requires flags.owner ==> f in owner && owner[f] == Held
      modifies this`dirs, this`tables, this`owner, pmm`total, pmm.bitmap
      ensures pmm.Valid()
      ensures ok ==> Mapped(old(Now()), Now(), cur, v, f, flags.owner) && OnlySlot(old(Now()), Now(), cur, v / ENTRIES)
      ensures !ok ==> Now() == old(Now()) && forall g: nat :: pmm.Managed(g) ==> g in Now().used
    {
      hide DirsOk, TablesOk, PagesOk, PageOwnersOk, NoEmptyTable, Translate, RemapsOwn, NoNewLarge, Foreign, Mapped,
           OnlySlot;

      ghost var w := Now();
      var i, j := v / ENTRIES, v % ENTRIES;
      ok := EnsureTable(i, flags.user);
      if ok {
        ghost var x := Now();
        var t := dirs[cur][i].frame;
        var e := Pte(f, true, flags.write, flags.user, false, flags.owner);
        PageSet(w, x, cur, v, e);
        tables := tables[t := tables[t][j := e]];
        if flags.owner {
          owner := owner[f := Page(t, j)];
        }
        assert Now() == SetPage(x, t, j, e);
        SameSlots(w, x, Now(), cur, i);
      }
    }

    /** Clears a fresh table, whatever its frame held before. */
    method ZeroedTable() returns (t: seq<Pte>)
      ensures t == seq(ENTRIES, _ => ZERO)
    {
      assert |seq(ENTRIES, _ => ZERO)| == ENTRIES;
      t :| |t| == ENTRIES;
      var i := 0;
      while i < ENTRIES
        invariant 0 <= i <= ENTRIES == |t| && forall k :: 0 <= k < i ==> t[k] == ZERO
      {
        t := t[i := ZERO];
        i := i + 1;
      }
    }

    /** Copies the kernel half of the boot directory to every directory in use. */
    method SyncPageDirs()
      requires Owned(Now())
      modifies this`dirs
      ensures Owned(Now()) && IsSynced(old(Now()), Now()) && Synced(Now())
    {
      hide DirsOk, TablesOk, PagesOk, PageOwnersOk;
      ghost var w := Now();
      var d := 0;
      while d < NUM_PAGE_DIRS
        invariant 0 <= d <= NUM_PAGE_DIRS && Now() == w.(dirs := dirs) && Shape(Now())
        invariant forall c, i {:trigger dirs[c][i]} :: 0 <= c <= NUM_PAGE_DIRS && 0 <= i < ENTRIES ==>
          dirs[c][i] ==
          if c < d && w.inUse[c] && KERNEL_SLOT <= i < RECURSIVE then Disown(w.dirs[INITIAL][i]) else w.dirs[c][i]
      {
        if inUse[d] {
          var row := dirs[d];
          var i := KERNEL_SLOT;
          while i < RECURSIVE
            invariant KERNEL_SLOT <= i <= RECURSIVE && |row| == ENTRIES
            invariant forall k :: 0 <= k < ENTRIES ==>
              row[k] == if KERNEL_SLOT <= k < i then Disown(w.dirs[INITIAL][k]) else w.dirs[d][k]
          {
            row := row[i := Disown(dirs[INITIAL][i])];
            i := i + 1;
          }
          dirs := dirs[d := row];
        }
        d := d + 1;
      }
      SyncOwned(w, Now());
    }

    /** Maps kernel page `v` in the boot directory, and from there everywhere. */
    method MapEverywhere(v: nat, f: nat, flags: Flags) returns (ok: bool)
      requires Valid() && Mappable(v) && v / ENTRIES >= KERNEL_SLOT && Translate(Now(), INITIAL, v) == None
      requires flags.owner ==> f in owner && owner[f] == Held
      modifies this, pmm`total, pmm.bitmap
      ensures pmm.Valid() && cur == old(cur)
      ensures ok ==> Done(old(Now()), Now(), INITIAL, v, Some(f))
      ensures ok ==> Foreign(Now()) == Foreign(old(Now())) - (if flags.owner then {f} else {})
      ensures ok ==> old(Now()).used <= Now().used && (flags.owner ==> f in owner && owner[f].Page?)
      ensures !ok ==> Now() == old(Now()) && forall g: nat :: pmm.Managed(g) ==> g in Now().used
    {
      hide DirsOk, TablesOk, PagesOk, PageOwnersOk, NoEmptyTable, Translate, RemapsOwn, Remaps, NoNewLarge, Foreign,
           Synced, Mapped, OnlySlot, IsSynced, Sound, Done, Owned;
      ghost var w := Now();
      SoundParts(w);
      var prev := cur;
      if prev != INITIAL {
        cur := INITIAL;
      }
      ok := MapHere(v, f, flags);
      if ok {
        ghost var x := Now();
        MappedParts(w, x, INITIAL, v, f, flags.owner);
        SyncPageDirs();
        KernelDone(w, x, Now(), v, Some(f));
      }
      if prev != INITIAL {
        cur := prev;
      }
    }

    /** Maps page `v` to frame `f`: in every address space for a kernel page, else in the current one. */
    method MapPage(v: nat, f: nat, flags: Flags) returns (ok: bool)
      requires Valid() && Mappable(v) && Translate(Now(), Target(v), v) == None
      requires flags.owner ==> f in owner && owner[f] == Held
      modifies this, pmm`total, pmm.bitmap
      ensures Valid() && cur == old(cur)
      ensures ok ==> Done(old(Now()), Now(), Target(v), v, Some(f))
      ensures ok ==> Foreign(Now()) == Foreign(old(Now())) - (if flags.owner then {f} else {})
      ensures ok ==> old(Now()).used <= Now().used && (flags.owner ==> f in owner && owner[f].Page?)
      ensures !ok ==> Now() == old(Now()) && forall g: nat :: pmm.Managed(g) ==> g in Now().used
    {
      hide DirsOk, TablesOk, PagesOk, PageOwnersOk, NoEmptyTable, Translate, RemapsOwn, Remaps, NoNewLarge, Foreign,
           Synced, Mapped, OnlySlot, Sound, Done, Owned;
      ghost var w := Now();
      SoundParts(w);
      if v / ENTRIES >= KERNEL_SLOT {
        ok := MapEverywhere(v, f, flags);
        if ok {
          DoneParts(w, Now(), INITIAL, v, Some(f));
        }
      } else {
        ok := MapHere(v, f, flags);
        if ok {
          MappedParts(w, Now(), cur, v, f, flags.owner);
          UserDone(w, Now(), cur, v, Some(f));
          DoneParts(w, Now(), cur, v, Some(f));
        }
      }
    }

    /** Is no entry of table `t` present? */
    method TableEmpty(t: nat) returns (empty: bool)
      requires t in tables && |tables[t]| == ENTRIES
      ensures empty <==> !HasPage(tables[t])
    {
      var i := 0;
      while i < ENTRIES
        invariant 0 <= i <= ENTRIES && forall k :: 0 <= k < i ==> !tables[t][k].present
      {
        if tables[t][i].present {
          return false;
        }
        i := i + 1;
      }
      return true;
    }

    /** Takes the empty table of slot `i` out of the current directory and frees its frame. */
    method RemoveTable(i: nat)
      requires pmm.Valid() && cur <= NUM_PAGE_DIRS && i < ENTRIES && Shape(Now()) && dirs[cur][i].frame in tables
      requires Owned(DropTable(Now(), cur, i))
      modifies this`dirs, this`tables, this`owner, pmm`total, pmm.bitmap
      ensures pmm.Valid() && Owned(Now()) && Now() == Release(DropTable(old(Now()), cur, i), old(dirs)[cur][i].frame)
    {
      hide DirsOk, TablesOk, PagesOk, PageOwnersOk, Owned;
      ghost var x := Now();
      var t := dirs[cur][i].frame;
      dirs := dirs[cur := dirs[cur][i := ZERO]];
      tables := map u | u in tables && u != t :: tables[u];
      owner := owner[t := Held];
      assert Now() == DropTable(x, cur, i);
      FreeFrame(t);
    }

    /** Unmaps page `v` of the current directory; an emptied table goes too, and so does a frame
        the page owned. */
    method UnmapHere(v: nat) returns (e: Pte)
      requires pmm.Valid() && Owned(Now()) && NoEmptyTable(Now()) && cur <= NUM_PAGE_DIRS
      requires OwnPage(Now(), cur, v) && Translate(Now(), cur, v) != None
      modifies this`dirs, this`tables, this`owner, pmm`total, pmm.bitmap
      ensures pmm.Valid() && Translate(old(Now()), cur, v) == Some(e.frame)
      ensures Clearing(old(Now()), Now(), cur, v, None) && NoEmptyTable(Now())
      ensures OnlySlot(old(Now()), Now(), cur, v / ENTRIES) && (e.owner ==> e.frame !in Now().used)
    {
      hide DirsOk, TablesOk, PagesOk, PageOwnersOk, Clearing, NoNewLarge, Foreign, Owned, NoEmptyTable, OnlySlot;
      ghost var w := Now();
      PageCleared(w, cur, v);
      Emptied(w, cur, v);
      Unmapped(w, cur, v);
      var i, j := v / ENTRIES, v % ENTRIES;
      var t := dirs[cur][i].frame;
      e := tables[t][j];
      tables := tables[t := tables[t][j := ZERO]];
      if e.owner {
        owner := owner[e.frame := Held];
      }
      assert Now() == ClearPage(w, t, j);
      var remove := TableEmpty(t);
      if remove && dirs[cur][i].owner {
        RemoveTable(i);
      }
      assert Now() == AfterEmptying(w, cur, v);
      if e.owner {
        FreeFrame(e.frame);
      }
    }

    /** Unmaps page `v`: in every address space for a kernel page, else in the current one. */
    method UnmapPage(v: nat) returns (e: Pte)
      requires Valid() && Mappable(v) && Translate(Now(), Target(v), v) != None
      modifies this, pmm`total, pmm.bitmap
      ensures Valid() && cur == old(cur) && Translate(old(Now()), Target(v), v) == Some(e.frame)
      ensures Done(old(Now()), Now(), Target(v), v, None) && Foreign(Now()) == Foreign(old(Now()))
      ensures e.owner ==> e.frame !in Now().used
    {
      hide DirsOk, TablesOk, PagesOk, PageOwnersOk, NoEmptyTable, Translate, RemapsOwn, Remaps, NoNewLarge, Foreign,
           Synced, Clearing, OnlySlot, IsSynced, Sound, Done, Owned;
      ghost var w := Now();
      SoundParts(w);
      var prev := cur;
      if v / ENTRIES >= KERNEL_SLOT && prev != INITIAL {
        cur := INITIAL;
      }
      e := UnmapHere(v);
      ghost var x := Now();
      ClearingParts(w, x, cur, v, None);
      if v / ENTRIES >= KERNEL_SLOT {
        SyncPageDirs();
        KernelDone(w, x, Now(), v, None);
        DoneParts(w, Now(), INITIAL, v, None);
        if prev != INITIAL {
          cur := prev;
        }
      } else {
        UserDone(w, x, cur, v, None);
        DoneParts(w, x, cur, v, None);
      }
    }

    /** The frame an address of the current directory translates to. An entry that is not present
        in an existing table reads as whatever frame it names. */
    method PhysFromVirt(v: nat) returns (r: Option<nat>)
      requires Valid() && v < RECURSIVE * ENTRIES && SmallSlot(Now(), cur, v)
      ensures Translate(Now(), cur, v).Some? ==> r == Translate(Now(), cur, v)
      ensures r == None ==> forall u :: 0 <= u < RECURSIVE * ENTRIES && u / ENTRIES == v / ENTRIES ==>
                Translate(Now(), cur, u) == None
    {
      var i := v / ENTRIES;
      if !dirs[cur][i].present {
        return None;
      }
      HasTable(Now(), cur, i);
      return Some(tables[dirs[cur][i].frame][v % ENTRIES].frame);
    }

    /** Takes the first unused directory and gives it an empty user half and the kernel half. */
    method AllocPageDir() returns (d: Option<nat>)
      requires Valid()
      modifies this`dirs, this`inUse
      ensures Valid() && Foreign(Now()) == Foreign(old(Now()))
      ensures d == None ==> Now() == old(Now()) && forall c :: 0 <= c < NUM_PAGE_DIRS ==> inUse[c]
      ensures d.Some? ==>
                && d.value < NUM_PAGE_DIRS && !old(inUse)[d.value] && inUse == old(inUse)[d.value := true]
                && (forall c :: 0 <= c < d.value ==> old(inUse)[c])
                && AddsDirectory(old(Now()), Now(), d.value)
    {
      var i := 0;
      while i < NUM_PAGE_DIRS
        invariant 0 <= i <= NUM_PAGE_DIRS && Now() == old(Now()) && Valid()
        invariant forall c :: 0 <= c < i ==> inUse[c]
      {
        if !inUse[i] {
          ghost var w := Now();
          var row := BuildDirectory();
          inUse := inUse[i := true];
          dirs := dirs[i := row];
          DirectoryAdded(w, Now(), i);
          return Some(i);
        }
        i := i + 1;
      }
      return None;
    }

    /** A directory whose kernel half refers to the tables of the boot directory. */
    method BuildDirectory() returns (row: seq<Pte>)
      requires Shape(Now())
      ensures |row| == ENTRIES
      ensures forall k :: 0 <= k < KERNEL_SLOT ==> row[k] == ZERO
      ensures forall k :: KERNEL_SLOT <= k < RECURSIVE ==> row[k] == Disown(dirs[INITIAL][k])
    {
      row := seq(ENTRIES, _ => ZERO);
      var k := KERNEL_SLOT;
      while k < RECURSIVE
        invariant KERNEL_SLOT <= k <= RECURSIVE && |row| == ENTRIES
        invariant forall i :: 0 <= i < KERNEL_SLOT ==> row[i] == ZERO
        invariant forall i :: KERNEL_SLOT <= i < k ==> row[i] == Disown(dirs[INITIAL][i])
      {
        row := row[k := Disown(dirs[INITIAL][k])];
        k := k + 1;
      }
      row := row[RECURSIVE := Pte(0, true, true, false, false, false)];
    }

    /** Clears entry `j` of table `t` and frees the frame it owned. */
    method FreePage(t: nat, j: nat)
      requires pmm.Valid() && Owned(Now()) && t in tables && j < ENTRIES
      modifies this`tables, this`owner, pmm`total, pmm.bitmap
      ensures pmm.Valid() && Owned(Now())
      ensures var x, e := ClearPage(old(Now()), t, j), old(tables)[t][j];
              Now() == if e.owner then Release(x, e.frame) else x
    {
      hide DirsOk, TablesOk, PagesOk, PageOwnersOk, Owned;
      ghost var x := Now();
      ClearPageOwned(x, t, j);
      var e := tables[t][j];
      tables := tables[t := tables[t][j := ZERO]];
      if e.owner {
        owner := owner[e.frame := Held];
        assert Now() == ClearPage(x, t, j);
        FreeFrame(e.frame);
      }
    }

    /** Frees the frames the entries of table `t` own, and clears the table. */
    method FreePages(t: nat)
      requires pmm.Valid() && Owned(Now()) && t in tables
      modifies this`tables, this`owner, pmm`total, pmm.bitmap
      ensures pmm.Valid() && Owned(Now()) && Now() == PartTable(old(Now()), t, ENTRIES)
    {
      hide DirsOk, TablesOk, PagesOk, PageOwnersOk, Owned, ClearPage, Release;
      ghost var w := Now();
      PartNone(w, t);
      var j := 0;
      while j < ENTRIES
        invariant 0 <= j <= ENTRIES && pmm.Valid() && Owned(Now()) && Now() == PartTable(w, t, j)
      {
        PartStep(w, t, j);
        FreePage(t, j);
        j := j + 1;
      }
    }

    /** Loads CR3 with a directory in use. */
    method ChangePageDirectory(d: nat)
      requires pmm.Valid() && Sound(Now()) && d <= NUM_PAGE_DIRS && Live(Now(), d)
      modifies this`cur
      ensures Valid() && cur == d && Now() == old(Now())
    {
      cur := d;
    }

    /** Frees directory `d`, its tables and the frames they own. It may be the current one, as when
        a task exits: then CR3 names an unused directory until the next switch, though all that
        is in use is sound. */
    method FreePageDir(d: nat)
      requires Valid() && d < NUM_PAGE_DIRS && inUse[d]
      modifies this, pmm`total, pmm.bitmap
      ensures pmm.Valid() && Sound(Now()) && cur == old(cur)
      ensures DropsDirectory(old(Now()), Now(), d) && Foreign(Now()) == Foreign(old(Now()))
      ensures Valid() <==> old(cur) != d
    {
      hide DirsOk, TablesOk, PagesOk, PageOwnersOk, DropsDirectory, Without, PartTable, DropTable, Release, Owned,
           Sound, Foreign;
      ghost var w := Now();
      SoundParts(w);
      var prev := cur;
      cur := d;
      WithoutNone(w, d);
      var i := 0;
      while i < KERNEL_SLOT
        invariant 0 <= i <= KERNEL_SLOT && pmm.Valid() && cur == d && inUse == w.inUse
        invariant Owned(Now()) && Now() == Without(w, d, i)
      {
        SlotShape(w, d, i);
        if dirs[cur][i] == ZERO {
          WithoutSkip(w, d, i);
        } else {
          WithoutStep(w, d, i);
          FreeSlot(i);
        }
        i := i + 1;
      }
      inUse := inUse[d := false];
      DirectoryDropped(w, Now(), d);
      cur := prev;
    }

    /** Frees the table of slot `i` of the current directory and the frames its entries own. */
    method FreeSlot(i: nat)
      requires pmm.Valid() && Owned(Now()) && cur < NUM_PAGE_DIRS && inUse[cur] && i < KERNEL_SLOT && dirs[cur][i].owner
      modifies this`dirs, this`tables, this`owner, pmm`total, pmm.bitmap
      ensures pmm.Valid() && Owned(Now()) && old(dirs)[cur][i].frame in old(tables)
      ensures var t := old(dirs)[cur][i].frame;
              Now() == Release(DropTable(PartTable(old(Now()), t, ENTRIES), cur, i), t)
    {
      hide DirsOk, TablesOk, PagesOk, PageOwnersOk, PartTable, DropTable, Release, Owned;
      ghost var w := Now();
      SlotOwns(w, cur, i);
      var t := dirs[cur][i].frame;
      FreePages(t);
      PartCleared(w, cur, i, t);
      DropTableOwned(Now(), cur, i);
      RemoveTable(i);
    }

    /** Allocates a frame for an owner outside the page tables. */
    method AllocFor(ghost o: Owner) returns (f: Option<nat>)
      requires Valid() && IsForeign(o)
      modifies this`owner, pmm`total, pmm.bitmap
      ensures Valid()
      ensures f == None ==> Now() == old(Now()) && forall g: nat :: pmm.Managed(g) ==> g in Now().used
      ensures f.Some? ==> f.value !in old(Now()).used && Now() == Give(old(Now()), f.value, o)
                          && Foreign(Now()) == Foreign(old(Now()))[f.value := o]
    {
      hide DirsOk, TablesOk, PagesOk, PageOwnersOk, Foreign, Sound, Owned, Synced, NoEmptyTable, Give, Acquire, Release;
      ghost var w := Now();
      SoundParts(w);
      f := AllocFrame();
      if f.Some? {
        GiveHeld(w, f.value, o);
        owner := owner[f.value := o];
        assert Now() == Give(w, f.value, o);
        GiveSound(w, f.value, o);
      }
    }

    /** Frees a frame with an owner outside the page tables. */
    method FreeForeign(f: nat)
      requires Valid() && f in owner && IsForeign(owner[f])
      modifies this`owner, pmm`total, pmm.bitmap
      ensures Valid() && Now() == Release(old(Now()), f) && Foreign(Now()) == Foreign(old(Now())) - {f}
    {
      hide DirsOk, TablesOk, PagesOk, PageOwnersOk, Foreign, Sound, Owned, Synced, NoEmptyTable, Give, Acquire, Release;
      ghost var w := Now();
      GiveSound(w, f, Held);
      TakeBackSound(w, f);
      HoldThenRelease(w, f);
      HeldNow(w, f);
      owner := owner[f := Held];
      assert Now() == Give(w, f, Held);
      SoundParts(Now());
      FreeFrame(f);
    }
  }
}
