/** Page directories and tables as values: who owns which frame, and what each address translates to. */
module Paging {
  import opened Options

  const NUM_PAGE_DIRS: nat := 256
  const INITIAL: nat := 256       // the boot directory, numbered after the others
  const ENTRIES: nat := 1024
  const KERNEL_SLOT: nat := 768   // first directory slot of the kernel half
  const RECURSIVE: nat := 1023    // the slot that maps the directory itself

  /** An entry of a directory or table: the frame it names and its flag bits. */
  datatype Pte = Pte(frame: nat, present: bool, write: bool, user: bool, big: bool, owner: bool)

  const ZERO: Pte := Pte(0, false, false, false, false, false)

  function Disown(e: Pte): Pte {
    e.(owner := false)
  }

  /** The one holder of a frame. `Held` is a frame just allocated, or about to be freed. */
  datatype Owner = Table(dir: nat, slot: nat) | Page(table: nat, index: nat)
                 | Shared(obj: nat, page: nat) | HeapPage(number: nat) | Held

  datatype World = World(used: set<nat>, owner: map<nat, Owner>, dirs: seq<seq<Pte>>, inUse: seq<bool>,
                         tables: map<nat, seq<Pte>>)

  predicate Live(w: World, d: nat)
    requires |w.inUse| == NUM_PAGE_DIRS
  {
    d == INITIAL || (d < NUM_PAGE_DIRS && w.inUse[d])
  }

  /** Slots that hold tables of the directory itself: all of the boot directory, else the user half. */
  predicate OwnSlot(d: nat, i: nat) {
    i < RECURSIVE && (d == INITIAL || i < KERNEL_SLOT)
  }

  ghost predicate Shape(w: World) {
    && |w.dirs| == NUM_PAGE_DIRS + 1 && |w.inUse| == NUM_PAGE_DIRS
    && (forall d :: 0 <= d <= NUM_PAGE_DIRS ==> |w.dirs[d]| == ENTRIES)
    && (forall t :: t in w.tables ==> |w.tables[t]| == ENTRIES)
  }

  /** Directory entry `i` of `d` owns a table. */
  ghost predicate OwnsTable(w: World, d: nat, i: nat)
    requires Shape(w) && d <= NUM_PAGE_DIRS && i < ENTRIES
  {
    var e := w.dirs[d][i];
    e.present && !e.big && e.owner && e.frame in w.tables && e.frame in w.owner && w.owner[e.frame] == Table(d, i)
  }

  /** Every OWNER entry of a live directory owns its table; the other entries in its own slots are
      zero or, in the boot directory, large pages. */
  ghost predicate DirsOk(w: World)
    requires Shape(w)
  {
    forall d, i {:trigger w.dirs[d][i]} :: 0 <= d <= NUM_PAGE_DIRS && Live(w, d) && 0 <= i < RECURSIVE ==>
      && (w.dirs[d][i].owner ==> OwnSlot(d, i) && OwnsTable(w, d, i))
      && (OwnSlot(d, i) ==> w.dirs[d][i].owner || w.dirs[d][i] == ZERO || (d == INITIAL && w.dirs[d][i].big))
  }

  /** The tables are the frames owned by entries of live directories. */
  ghost predicate TablesOk(w: World)
    requires Shape(w)
  {
    forall f :: f in w.owner ==>
      && (f in w.tables <==> w.owner[f].Table?)
      && (w.owner[f].Table? ==>
            var d, i := w.owner[f].dir, w.owner[f].slot;
            d <= NUM_PAGE_DIRS && Live(w, d) && OwnSlot(d, i) && w.dirs[d][i].owner && w.dirs[d][i].frame == f)
  }

  /** Every OWNER page entry owns its frame. */
  ghost predicate PagesOk(w: World)
    requires Shape(w)
  {
    forall t, j {:trigger w.tables[t][j]} :: t in w.tables && 0 <= j < ENTRIES && w.tables[t][j].owner ==>
      w.tables[t][j].present && w.tables[t][j].frame in w.owner && w.owner[w.tables[t][j].frame] == Page(t, j)
  }

  /** Frames owned by a page entry are named by that entry. */
  ghost predicate PageOwnersOk(w: World)
    requires Shape(w)
  {
    forall f :: f in w.owner && w.owner[f].Page? ==>
      var t, j := w.owner[f].table, w.owner[f].index;
      t in w.tables && j < ENTRIES && w.tables[t][j].owner && w.tables[t][j].frame == f
  }

  /** Each used frame has one owner, and each claim of ownership is that frame's. */
  ghost predicate Owned(w: World): (r: bool)
    ensures r ==> Shape(w)
  {
    && Shape(w) && w.used == w.owner.Keys && w.tables.Keys <= w.owner.Keys
    && DirsOk(w) && TablesOk(w) && PagesOk(w) && PageOwnersOk(w)
  }

  /** The kernel half of every directory in use is the boot directory's, without ownership. */
  ghost predicate Synced(w: World)
    requires Shape(w)
  {
    forall d, i {:trigger w.dirs[d][i]} :: 0 <= d < NUM_PAGE_DIRS && w.inUse[d] && KERNEL_SLOT <= i < RECURSIVE ==>
      w.dirs[d][i] == Disown(w.dirs[INITIAL][i])
  }

  predicate HasPage(table: seq<Pte>) {
    exists j :: 0 <= j < |table| && table[j].present
  }

  ghost predicate NoEmptyTable(w: World) {
    forall t :: t in w.tables ==> HasPage(w.tables[t])
  }

  ghost predicate Sound(w: World) {
    Owned(w) && Synced(w) && NoEmptyTable(w)
  }

  /** The frame that page `v` of directory `d` is mapped to through a table. */
  function Translate(w: World, d: nat, v: nat): Option<nat>
    requires Shape(w) && d <= NUM_PAGE_DIRS && v < ENTRIES * ENTRIES
  {
    var e := w.dirs[d][v / ENTRIES];
    if e.present && !e.big && e.frame in w.tables && w.tables[e.frame][v % ENTRIES].present
    then Some(w.tables[e.frame][v % ENTRIES].frame) else None
  }

  // ---- The elementary steps ----

  function WithEntry(w: World, d: nat, i: nat, e: Pte): World
    requires d < |w.dirs| && i < |w.dirs[d]|
  {
    w.(dirs := w.dirs[d := w.dirs[d][i := e]])
  }

  /** A held frame becomes an empty table. */
  function NewTable(w: World, d: nat, i: nat, f: nat, e: Pte): (r: World)
    requires d < |w.dirs| && i < |w.dirs[d]|
    ensures Shape(w) ==> Shape(r)
  {
    WithEntry(w, d, i, e).(owner := w.owner[f := Table(d, i)], tables := w.tables[f := seq(ENTRIES, _ => ZERO)])
  }

  lemma NewTableOwned(w: World, d: nat, i: nat, f: nat, e: Pte)
    requires Owned(w) && d <= NUM_PAGE_DIRS && Live(w, d) && OwnSlot(d, i) && !w.dirs[d][i].present
    requires f in w.owner && w.owner[f] == Held && e.present && e.owner && !e.big && e.frame == f
    ensures Owned(NewTable(w, d, i, f, e))
  {
    NewTableDirs(w, d, i, f, e);
    hide DirsOk;
    assert f !in w.tables;
  }

  lemma NewTableDirs(w: World, d: nat, i: nat, f: nat, e: Pte)
    requires Owned(w) && d <= NUM_PAGE_DIRS && Live(w, d) && OwnSlot(d, i) && !w.dirs[d][i].present
    requires f in w.owner && w.owner[f] == Held && e.present && e.owner && !e.big && e.frame == f
    ensures var w' := NewTable(w, d, i, f, e);
            Shape(w') && w'.used == w'.owner.Keys && w'.tables.Keys <= w'.owner.Keys && DirsOk(w') && TablesOk(w')
  {
    hide PagesOk, PageOwnersOk;
    assert !w.dirs[d][i].owner && f !in w.tables;
  }

  /** An entry of a table is written. An OWNER entry takes over a held frame. */
  function SetPage(w: World, t: nat, j: nat, e: Pte): (r: World)
    requires t in w.tables && j < |w.tables[t]|
    ensures Shape(w) ==> Shape(r)
  {
    w.(tables := w.tables[t := w.tables[t][j := e]],
       owner := if e.owner then w.owner[e.frame := Page(t, j)] else w.owner)
  }

  lemma SetPageOwned(w: World, t: nat, j: nat, e: Pte)
    requires Owned(w) && t in w.tables && j < ENTRIES && !w.tables[t][j].owner
    requires e.owner ==> e.present && e.frame in w.owner && w.owner[e.frame] == Held
    ensures Owned(SetPage(w, t, j, e))
  {
    hide DirsOk, TablesOk;
    SetPageDirs(w, t, j, e);
    SetPagePages(w, t, j, e);
    hide PagesOk, PageOwnersOk;
  }

  lemma SetPagePages(w: World, t: nat, j: nat, e: Pte)
    requires Shape(w) && PagesOk(w) && PageOwnersOk(w) && t in w.tables && j < ENTRIES && !w.tables[t][j].owner
    requires e.owner ==> e.present && e.frame in w.owner && w.owner[e.frame] == Held
    requires Shape(SetPage(w, t, j, e))
    ensures PagesOk(SetPage(w, t, j, e)) && PageOwnersOk(SetPage(w, t, j, e))
  {
  }

  lemma SetPageDirs(w: World, t: nat, j: nat, e: Pte)
    requires Owned(w) && t in w.tables && j < ENTRIES
    requires e.owner ==> e.frame in w.owner && w.owner[e.frame] == Held
    ensures var w' := SetPage(w, t, j, e);
            Shape(w') && w'.used == w'.owner.Keys && w'.tables.Keys <= w'.owner.Keys && DirsOk(w') && TablesOk(w')
  {
    hide PagesOk, PageOwnersOk;
  }

  /** An entry of a table is cleared. The frame it owned is held until it is freed. */
  function ClearPage(w: World, t: nat, j: nat): (r: World)
    requires t in w.tables && j < |w.tables[t]|
    ensures Shape(w) ==> Shape(r)
  {
    var e := w.tables[t][j];
    w.(tables := w.tables[t := w.tables[t][j := ZERO]], owner := if e.owner then w.owner[e.frame := Held] else w.owner)
  }

  lemma ClearPageOwned(w: World, t: nat, j: nat)
    requires Owned(w) && t in w.tables && j < ENTRIES
    ensures Owned(ClearPage(w, t, j))
    ensures w.tables[t][j].owner ==> w.tables[t][j].frame in w.owner && w.owner[w.tables[t][j].frame] == Page(t, j)
  {
    ClearPageDirs(w, t, j);
    ClearPagePages(w, t, j);
    hide DirsOk, TablesOk, PageOwnersOk;
  }

  lemma ClearPagePages(w: World, t: nat, j: nat)
    requires Shape(w) && PagesOk(w) && PageOwnersOk(w) && t in w.tables && j < ENTRIES && Shape(ClearPage(w, t, j))
    ensures PagesOk(ClearPage(w, t, j)) && PageOwnersOk(ClearPage(w, t, j))
  {
    var x, e := ClearPage(w, t, j), w.tables[t][j];
    forall u, k {:trigger x.tables[u][k]} | u in x.tables && 0 <= k < ENTRIES && x.tables[u][k].owner
      ensures x.tables[u][k].present && x.tables[u][k].frame in x.owner && x.owner[x.tables[u][k].frame] == Page(u, k)
    {
      assert x.tables[u][k] == w.tables[u][k];
    }
  }

  lemma ClearPageDirs(w: World, t: nat, j: nat)
    requires Owned(w) && t in w.tables && j < ENTRIES
    ensures var w' := ClearPage(w, t, j);
            Shape(w') && w'.used == w'.owner.Keys && w'.tables.Keys <= w'.owner.Keys && DirsOk(w') && TablesOk(w')
  {
    hide PageOwnersOk;
    assert w.tables[t][j].owner ==> w.tables[t][j].frame in w.owner;
  }

  /** An empty table goes out of use; its frame is held until it is freed. */
  function DropTable(w: World, d: nat, i: nat): (r: World)
    requires d < |w.dirs| && i < |w.dirs[d]|
    ensures Shape(w) ==> Shape(r)
  {
    var t := w.dirs[d][i].frame;
    WithEntry(w, d, i, ZERO).(owner := w.owner[t := Held], tables := map f | f in w.tables && f != t :: w.tables[f])
  }

  lemma DropTableOwned(w: World, d: nat, i: nat)
    requires Owned(w) && d <= NUM_PAGE_DIRS && Live(w, d) && OwnSlot(d, i) && w.dirs[d][i].owner
    requires forall j :: 0 <= j < ENTRIES && w.dirs[d][i].frame in w.tables ==> !w.tables[w.dirs[d][i].frame][j].owner
    ensures Owned(DropTable(w, d, i))
    ensures OwnsTable(w, d, i)
  {
    DropTableDirs(w, d, i);
    hide DirsOk;
  }

  lemma DropTableDirs(w: World, d: nat, i: nat)
    requires Owned(w) && d <= NUM_PAGE_DIRS && Live(w, d) && OwnSlot(d, i) && w.dirs[d][i].owner
    ensures OwnsTable(w, d, i)
    ensures var w' := DropTable(w, d, i);
            Shape(w') && w'.used == w'.owner.Keys && w'.tables.Keys <= w'.owner.Keys && DirsOk(w') && TablesOk(w')
  {
    hide PagesOk, PageOwnersOk;
  }

  function Acquire(w: World, f: nat): World {
    w.(used := w.used + {f}, owner := w.owner[f := Held])
  }

  function Release(w: World, f: nat): World {
    w.(used := w.used - {f}, owner := map g | g in w.owner && g != f :: w.owner[g])
  }

  lemma AcquireOwned(w: World, f: nat)
    requires Owned(w) && f !in w.used
    ensures Owned(Acquire(w, f))
  {
  }

  lemma ReleaseOwned(w: World, f: nat)
    requires Owned(w) && f in w.owner && w.owner[f] == Held
    ensures Owned(Release(w, f))
  {
  }

  /** The kernel half of every directory in use becomes the boot directory's. */
  ghost predicate IsSynced(w: World, w': World)
    requires Shape(w) && Shape(w')
  {
    && w' == w.(dirs := w'.dirs)
    && forall d, i {:trigger w'.dirs[d][i]} :: 0 <= d <= NUM_PAGE_DIRS && 0 <= i < ENTRIES ==>
         w'.dirs[d][i] ==
         if d < NUM_PAGE_DIRS && w.inUse[d] && KERNEL_SLOT <= i < RECURSIVE then Disown(w.dirs[INITIAL][i])
                          else w.dirs[d][i]
  }

  lemma SyncOwned(w: World, w': World)
    requires Owned(w) && Shape(w') && IsSynced(w, w')
    ensures Owned(w') && Synced(w')
  {
  }

  // ---- What the steps do to translations ----

  /** Page `v` of a live directory lies in one of its own slots. */
  predicate OwnPage(w: World, d: nat, v: nat)
    requires |w.inUse| == NUM_PAGE_DIRS
  {
    v < ENTRIES * ENTRIES && Live(w, d) && OwnSlot(d, v / ENTRIES)
  }

  lemma NewTableTranslate(w: World, d: nat, i: nat, f: nat, e: Pte, c: nat, v: nat)
    requires Owned(w) && d <= NUM_PAGE_DIRS && Live(w, d) && OwnSlot(d, i) && !w.dirs[d][i].present
    requires f in w.owner && w.owner[f] == Held && e.frame == f && OwnPage(w, c, v)
    ensures Translate(NewTable(w, d, i, f, e), c, v) == Translate(w, c, v)
  {
    hide PagesOk, PageOwnersOk;
    assert f !in w.tables;
  }

  lemma SetPageTranslate(w: World, d: nat, v: nat, e: Pte, c: nat, u: nat)
    requires Owned(w) && d <= NUM_PAGE_DIRS && c <= NUM_PAGE_DIRS && OwnPage(w, d, v) && OwnPage(w, c, u)
    requires OwnsTable(w, d, v / ENTRIES)
    ensures Translate(SetPage(w, w.dirs[d][v / ENTRIES].frame, v % ENTRIES, e), c, u) ==
            if c == d && u == v then (if e.present then Some(e.frame) else None) else Translate(w, c, u)
  {
    hide PagesOk, PageOwnersOk;
    PageNumber(u, v);
  }

  lemma ClearPageTranslate(w: World, d: nat, v: nat, c: nat, u: nat)
    requires Owned(w) && d <= NUM_PAGE_DIRS && c <= NUM_PAGE_DIRS && OwnPage(w, d, v) && OwnPage(w, c, u)
    requires OwnsTable(w, d, v / ENTRIES)
    ensures Translate(ClearPage(w, w.dirs[d][v / ENTRIES].frame, v % ENTRIES), c, u) ==
            if c == d && u == v then None else Translate(w, c, u)
  {
    hide PagesOk, PageOwnersOk;
    PageNumber(u, v);
  }

  lemma PageNumber(u: nat, v: nat)
    ensures u == v <==> u / ENTRIES == v / ENTRIES && u % ENTRIES == v % ENTRIES
  {
    assert u == ENTRIES * (u / ENTRIES) + u % ENTRIES && v == ENTRIES * (v / ENTRIES) + v % ENTRIES;
  }

  lemma DropTableTranslate(w: World, d: nat, i: nat, c: nat, u: nat)
    requires Owned(w) && d <= NUM_PAGE_DIRS && Live(w, d) && OwnSlot(d, i) && w.dirs[d][i].owner && OwnPage(w, c, u)
    requires OwnsTable(w, d, i) && !HasPage(w.tables[w.dirs[d][i].frame])
    ensures Translate(DropTable(w, d, i), c, u) == Translate(w, c, u)
  {
    hide PagesOk, PageOwnersOk;
  }

  /** All directories in use translate kernel pages alike. */
  lemma KernelTranslate(w: World, d: nat, v: nat)
    requires Shape(w) && Synced(w) && d < NUM_PAGE_DIRS && w.inUse[d]
    requires KERNEL_SLOT <= v / ENTRIES < RECURSIVE
    ensures v < ENTRIES * ENTRIES && Translate(w, d, v) == Translate(w, INITIAL, v)
  {
  }

  /** What page `u` of directory `c` translates to changes only for page `v` of the directories it
      is mapped in: all of them for a kernel page, else `d`. */
  ghost predicate Remaps(w: World, w': World, d: nat, v: nat, r: Option<nat>)
    requires Shape(w) && Shape(w')
  {
    forall c, u {:trigger Translate(w', c, u)} ::
      0 <= c <= NUM_PAGE_DIRS && Live(w, c) && 0 <= u < RECURSIVE * ENTRIES ==>
        Translate(w', c, u) == if u == v && (c == d || v / ENTRIES >= KERNEL_SLOT) then r else Translate(w, c, u)
  }

  /** The same, for the slots that are a directory's own. */
  ghost predicate RemapsOwn(w: World, w': World, d: nat, v: nat, r: Option<nat>)
    requires Shape(w) && Shape(w')
  {
    forall c, u {:trigger Translate(w', c, u)} :: 0 <= c <= NUM_PAGE_DIRS && 0 <= u && OwnPage(w, c, u) ==>
      Translate(w', c, u) == if c == d && u == v then r else Translate(w, c, u)
  }

  lemma SpreadRemap(w: World, w': World, d: nat, v: nat, r: Option<nat>)
    requires Shape(w) && Shape(w') && Synced(w) && Synced(w') && w'.inUse == w.inUse
    requires d <= NUM_PAGE_DIRS && Live(w, d) && v < RECURSIVE * ENTRIES &&
             (v / ENTRIES >= KERNEL_SLOT ==> d == INITIAL)
    requires RemapsOwn(w, w', d, v, r)
    ensures Remaps(w, w', d, v, r)
  {
    hide Synced;
    forall c, u | 0 <= c <= NUM_PAGE_DIRS && Live(w, c) && 0 <= u < RECURSIVE * ENTRIES
      ensures Translate(w', c, u) == if u == v && (c == d || v / ENTRIES >= KERNEL_SLOT) then r else Translate(w, c, u)
    {
      assert u / ENTRIES < RECURSIVE;
      if !OwnPage(w, c, u) {
        KernelTranslate(w, c, u);
        KernelTranslate(w', c, u);
        assert OwnPage(w, INITIAL, u);
      }
    }
  }

  /** The owners that are not page directories or tables. */
  function Foreign(w: World): map<nat, Owner> {
    map f | f in w.owner && !w.owner[f].Table? && !w.owner[f].Page? :: w.owner[f]
  }

  /** The slot that page `v` lies in does not map a large page. */
  predicate SmallSlot(w: World, d: nat, v: nat) {
    d < |w.dirs| && v / ENTRIES < |w.dirs[d]| && !w.dirs[d][v / ENTRIES].big
  }

  ghost predicate NoNewLarge(w: World, w': World)
    requires Shape(w) && Shape(w')
  {
    forall c, i {:trigger w'.dirs[c][i]} :: 0 <= c <= NUM_PAGE_DIRS && 0 <= i < ENTRIES && w'.dirs[c][i].big ==>
             w.dirs[c][i].big
  }

  // ---- Whole operations ----

  /** No directory entry but `i` of `d` is written. */
  ghost predicate OnlySlot(w: World, x: World, d: nat, i: nat) {
    d < |w.dirs| && i < |w.dirs[d]| && d < |x.dirs| && i < |x.dirs[d]| &&
    x.dirs == w.dirs[d := w.dirs[d][i := x.dirs[d][i]]]
  }

  /** A page was mapped: `w'` is sound but for the kernel halves, and nothing else moved. */
  ghost predicate Mapped(w: World, w': World, d: nat, v: nat, f: nat, owning: bool) {
    && Owned(w) && Owned(w') && NoEmptyTable(w') && w'.inUse == w.inUse
    && RemapsOwn(w, w', d, v, Some(f)) && NoNewLarge(w, w')
    && Foreign(w') == Foreign(w) - (if owning then {f} else {})
    && w.used <= w'.used && (owning ==> f in w'.owner && w'.owner[f].Page?)
  }

  /** The first half of mapping a page: its table exists. */
  ghost predicate TableReady(w: World, w': World, d: nat, i: nat)
    requires d <= NUM_PAGE_DIRS && i < ENTRIES
  {
    && Owned(w) && Owned(w') && w'.inUse == w.inUse && w'.dirs[d][i].owner && OwnsTable(w', d, i)
    && (forall t :: t in w'.tables && t != w'.dirs[d][i].frame ==> HasPage(w'.tables[t]))
    && (forall c, u {:trigger Translate(w', c, u)} :: 0 <= c <= NUM_PAGE_DIRS && 0 <= u && OwnPage(w, c, u) ==>
          Translate(w', c, u) == Translate(w, c, u))
    && NoNewLarge(w, w') && Foreign(w') == Foreign(w) && w.used <= w'.used
  }

  lemma TableWasReady(w: World, d: nat, i: nat)
    requires Owned(w) && NoEmptyTable(w) && d <= NUM_PAGE_DIRS && Live(w, d) && OwnSlot(d, i)
    requires w.dirs[d][i].present && !w.dirs[d][i].big
    ensures TableReady(w, w, d, i) && OnlySlot(w, w, d, i)
  {
    assert w.dirs[d] == w.dirs[d][i := w.dirs[d][i]];
  }

  lemma TableMade(w: World, d: nat, i: nat, f: nat, e: Pte)
    requires Owned(w) && NoEmptyTable(w) && d <= NUM_PAGE_DIRS && Live(w, d) && OwnSlot(d, i)
    requires !w.dirs[d][i].present && !w.dirs[d][i].big && f !in w.used
    requires e.present && e.owner && !e.big && e.frame == f
    ensures TableReady(w, NewTable(Acquire(w, f), d, i, f, e), d, i)
    ensures OnlySlot(w, NewTable(Acquire(w, f), d, i, f, e), d, i)
  {
    var a := Acquire(w, f);
    AcquireOwned(w, f);
    NewTableOwned(a, d, i, f, e);
    var w' := NewTable(a, d, i, f, e);
    forall c, u | 0 <= c <= NUM_PAGE_DIRS && 0 <= u && OwnPage(w, c, u)
      ensures Translate(w', c, u) == Translate(w, c, u)
    {
      NewTableTranslate(a, d, i, f, e, c, u);
    }
    TableMadeKeeps(w, d, i, f, e);
  }

  lemma TableMadeKeeps(w: World, d: nat, i: nat, f: nat, e: Pte)
    requires Owned(w) && d <= NUM_PAGE_DIRS && i < ENTRIES && f !in w.used
    requires e.present && e.owner && !e.big && e.frame == f && Shape(NewTable(Acquire(w, f), d, i, f, e))
    ensures var w' := NewTable(Acquire(w, f), d, i, f, e);
            OwnsTable(w', d, i) && Foreign(w') == Foreign(w)
  {
    hide DirsOk, TablesOk, PagesOk, PageOwnersOk;
    var w' := NewTable(Acquire(w, f), d, i, f, e);
    assert f !in Foreign(w);
  }

  lemma PageSet(w: World, x: World, d: nat, v: nat, e: Pte)
    requires Owned(w) && OwnPage(w, d, v) && d <= NUM_PAGE_DIRS && Translate(w, d, v) == None
    requires TableReady(w, x, d, v / ENTRIES)
    requires e.present && (e.owner ==> e.frame in w.owner && w.owner[e.frame] == Held)
    ensures Mapped(w, SetPage(x, x.dirs[d][v / ENTRIES].frame, v % ENTRIES, e), d, v, e.frame, e.owner)
  {
    var t, j := x.dirs[d][v / ENTRIES].frame, v % ENTRIES;
    assert !x.tables[t][j].owner by {
      assert Translate(x, d, v) == None;
    }
    assert e.owner ==> e.frame in Foreign(w) && e.frame in Foreign(x);
    SetPageOwned(x, t, j, e);
    var w' := SetPage(x, t, j, e);
    forall c, u | 0 <= c <= NUM_PAGE_DIRS && 0 <= u && OwnPage(w, c, u)
      ensures Translate(w', c, u) == if c == d && u == v then Some(e.frame) else Translate(w, c, u)
    {
      SetPageTranslate(x, d, v, e, c, u);
    }
    PageSetKeeps(w, x, d, v, e);
  }

  lemma PageSetKeeps(w: World, x: World, d: nat, v: nat, e: Pte)
    requires Owned(w) && OwnPage(w, d, v) && d <= NUM_PAGE_DIRS && TableReady(w, x, d, v / ENTRIES)
    requires e.present && (e.owner ==> e.frame in w.owner && w.owner[e.frame] == Held)
    ensures var w' := SetPage(x, x.dirs[d][v / ENTRIES].frame, v % ENTRIES, e);
            NoEmptyTable(w') && Foreign(w') == Foreign(w) - (if e.owner then {e.frame} else {})
  {
    hide DirsOk, TablesOk, PagesOk, PageOwnersOk, Translate;
    var t, j := x.dirs[d][v / ENTRIES].frame, v % ENTRIES;
    var w' := SetPage(x, t, j, e);
    assert w'.tables[t][j].present;
    assert e.owner ==> e.frame in Foreign(w) && e.frame in Foreign(x);
    assert Foreign(w') == Foreign(x) - (if e.owner then {e.frame} else {});
  }

  /** Page `v` of `d` was cleared; if its entry owned a frame, that frame is held now. */
  ghost predicate Clearing(w: World, x: World, d: nat, v: nat, held: Option<nat>) {
    && Owned(w) && Owned(x) && x.inUse == w.inUse && RemapsOwn(w, x, d, v, None) && NoNewLarge(w, x)
    && Foreign(x) == (if held.Some? then Foreign(w)[held.value := Held] else Foreign(w))
    && (held.Some? ==> held.value !in Foreign(w))
  }

  function OwnFrame(e: Pte): Option<nat> {
    if e.owner then Some(e.frame) else None
  }

  lemma PageCleared(w: World, d: nat, v: nat)
    requires Owned(w) && d <= NUM_PAGE_DIRS && OwnPage(w, d, v) && Translate(w, d, v) != None
    ensures OwnsTable(w, d, v / ENTRIES)
    ensures var t, j := w.dirs[d][v / ENTRIES].frame, v % ENTRIES;
            var x, e := ClearPage(w, t, j), w.tables[t][j];
            && Clearing(w, x, d, v, OwnFrame(e)) && OwnsTable(x, d, v / ENTRIES)
            && (e.owner ==> e.frame in x.owner && x.owner[e.frame] == Held)
  {
    assert OwnsTable(w, d, v / ENTRIES) by {
      hide TablesOk, PagesOk, PageOwnersOk;
    }
    var t, j := w.dirs[d][v / ENTRIES].frame, v % ENTRIES;
    var x := ClearPage(w, t, j);
    ClearPageOwned(w, t, j);
    hide TablesOk, PagesOk, PageOwnersOk;
    forall c, u | 0 <= c <= NUM_PAGE_DIRS && 0 <= u && OwnPage(w, c, u)
      ensures Translate(x, c, u) == if c == d && u == v then None else Translate(w, c, u)
    {
      ClearPageTranslate(w, d, v, c, u);
    }
    ClearForeign(w, t, j);
    hide DirsOk, Translate, Foreign;
  }

  lemma ClearForeign(w: World, t: nat, j: nat)
    requires Shape(w) && t in w.tables && j < ENTRIES
    requires var e := w.tables[t][j]; e.owner ==> e.frame in w.owner && w.owner[e.frame] == Page(t, j)
    ensures var e := w.tables[t][j];
            && Foreign(ClearPage(w, t, j)) == (if e.owner then Foreign(w)[e.frame := Held] else Foreign(w))
            && (e.owner ==> e.frame !in Foreign(w))
  {
  }

  lemma DropForeign(x: World, d: nat, i: nat)
    requires Shape(x) && d <= NUM_PAGE_DIRS && i < ENTRIES && OwnsTable(x, d, i)
    ensures Foreign(Release(DropTable(x, d, i), x.dirs[d][i].frame)) == Foreign(x)
  {
  }

  lemma ReleaseForeign(x: World, f: nat, rest: map<nat, Owner>)
    requires Foreign(x) == rest[f := Held] && f !in rest
    ensures Foreign(Release(x, f)) == rest
  {
    forall g | g in rest
      ensures g in Foreign(x) && Foreign(x)[g] == rest[g]
    {
    }
    forall g | g in Foreign(x)
      ensures g == f || g in rest
    {
    }
  }

  lemma TableDropped(w: World, x: World, d: nat, v: nat, held: Option<nat>)
    requires d <= NUM_PAGE_DIRS && v < ENTRIES * ENTRIES && Clearing(w, x, d, v, held)
    requires OwnPage(x, d, v) && x.dirs[d][v / ENTRIES].owner && OwnsTable(x, d, v / ENTRIES)
    requires !HasPage(x.tables[x.dirs[d][v / ENTRIES].frame])
    ensures var t := x.dirs[d][v / ENTRIES].frame;
            var y := DropTable(x, d, v / ENTRIES);
            Owned(y) && t in y.owner && y.owner[t] == Held && Clearing(w, Release(y, t), d, v, held)
  {
    var i := v / ENTRIES;
    var t := x.dirs[d][i].frame;
    assert forall j :: 0 <= j < ENTRIES ==> !x.tables[t][j].owner by {
      hide DirsOk, TablesOk, PageOwnersOk;
    }
    DropTableOwned(x, d, i);
    var y := DropTable(x, d, i);
    ReleaseOwned(y, t);
    hide TablesOk, DirsOk, PagesOk, PageOwnersOk;
    DropForeign(x, d, i);
    hide Foreign;
    DropRemap(w, x, d, v);
    hide RemapsOwn;
  }

  lemma DropRemap(w: World, x: World, d: nat, v: nat)
    requires Shape(w) && Owned(x) && x.inUse == w.inUse && d <= NUM_PAGE_DIRS && v < ENTRIES * ENTRIES
    requires RemapsOwn(w, x, d, v, None) && NoNewLarge(w, x)
    requires OwnPage(x, d, v) && x.dirs[d][v / ENTRIES].owner && OwnsTable(x, d, v / ENTRIES)
    requires !HasPage(x.tables[x.dirs[d][v / ENTRIES].frame])
    ensures var z := Release(DropTable(x, d, v / ENTRIES), x.dirs[d][v / ENTRIES].frame);
            Shape(z) && RemapsOwn(w, z, d, v, None) && NoNewLarge(w, z)
  {
    hide DirsOk, TablesOk, PagesOk, PageOwnersOk;
    var z := Release(DropTable(x, d, v / ENTRIES), x.dirs[d][v / ENTRIES].frame);
    forall c, u | 0 <= c <= NUM_PAGE_DIRS && 0 <= u && OwnPage(w, c, u)
      ensures Translate(z, c, u) == if c == d && u == v then None else Translate(w, c, u)
    {
      DropTableTranslate(x, d, v / ENTRIES, c, u);
    }
  }

  lemma PageReleased(w: World, x: World, d: nat, v: nat, f: nat)
    requires Clearing(w, x, d, v, Some(f)) && f in x.owner && x.owner[f] == Held && d <= NUM_PAGE_DIRS
    ensures Clearing(w, Release(x, f), d, v, None)
  {
    ReleaseOwned(x, f);
    hide DirsOk, TablesOk, PagesOk, PageOwnersOk;
    ReleaseForeign(x, f, Foreign(w));
    hide Foreign;
    var z := Release(x, f);
    forall c, u | 0 <= c <= NUM_PAGE_DIRS && 0 <= u && OwnPage(w, c, u)
      ensures Translate(z, c, u) == if c == d && u == v then None else Translate(w, c, u)
    {
      assert Translate(z, c, u) == Translate(x, c, u);
    }
  }

  /** The page is cleared, and its table is gone if that emptied it. */
  function AfterEmptying(w: World, d: nat, v: nat): World
    requires Shape(w) && d <= NUM_PAGE_DIRS && v < ENTRIES * ENTRIES && w.dirs[d][v / ENTRIES].frame in w.tables
  {
    var t, i := w.dirs[d][v / ENTRIES].frame, v / ENTRIES;
    var x := ClearPage(w, t, v % ENTRIES);
    if HasPage(x.tables[t]) then x else Release(DropTable(x, d, i), t)
  }

  lemma EmptiedTables(w: World, d: nat, v: nat)
    requires Shape(w) && NoEmptyTable(w) && d <= NUM_PAGE_DIRS && v < ENTRIES * ENTRIES
    requires w.dirs[d][v / ENTRIES].frame in w.tables
    ensures NoEmptyTable(AfterEmptying(w, d, v)) && OnlySlot(w, AfterEmptying(w, d, v), d, v / ENTRIES)
  {
    hide HasPage;
    assert w.dirs[d] == w.dirs[d][v / ENTRIES := w.dirs[d][v / ENTRIES]];
  }

  lemma Emptied(w: World, d: nat, v: nat)
    requires Owned(w) && NoEmptyTable(w) && d <= NUM_PAGE_DIRS && OwnPage(w, d, v) && Translate(w, d, v) != None
    ensures OwnsTable(w, d, v / ENTRIES)
    ensures var t, i := w.dirs[d][v / ENTRIES].frame, v / ENTRIES;
            var e, x, y := w.tables[t][v % ENTRIES], ClearPage(w, t, v % ENTRIES), AfterEmptying(w, d, v);
            && Clearing(w, y, d, v, OwnFrame(e)) && NoEmptyTable(y) && OnlySlot(w, y, d, i)
            && (e.owner ==> e.frame in y.owner && y.owner[e.frame] == Held)
            && (!HasPage(x.tables[t]) ==> Owned(DropTable(x, d, i)))
  {
    hide DirsOk, TablesOk, PagesOk, PageOwnersOk, Clearing, Translate, NoEmptyTable, HasPage, OnlySlot;
    PageCleared(w, d, v);
    EmptiedTables(w, d, v);
    var t, i := w.dirs[d][v / ENTRIES].frame, v / ENTRIES;
    var x := ClearPage(w, t, v % ENTRIES);
    if !HasPage(x.tables[t]) {
      ClearingParts(w, x, d, v, OwnFrame(w.tables[t][v % ENTRIES]));
      TableDropped(w, x, d, v, OwnFrame(w.tables[t][v % ENTRIES]));
    }
  }

  lemma Unmapped(w: World, d: nat, v: nat)
    requires Owned(w) && NoEmptyTable(w) && d <= NUM_PAGE_DIRS && OwnPage(w, d, v) && Translate(w, d, v) != None
    ensures OwnsTable(w, d, v / ENTRIES)
    ensures var e, y := w.tables[w.dirs[d][v / ENTRIES].frame][v % ENTRIES], AfterEmptying(w, d, v);
            var z := if e.owner then Release(y, e.frame) else y;
            && Owned(y) && Clearing(w, z, d, v, None) && NoEmptyTable(z) && OnlySlot(w, z, d, v / ENTRIES)
  {
    Emptied(w, d, v);
    hide DirsOk, TablesOk, PagesOk, PageOwnersOk, Clearing, Translate, OnlySlot;
    var e, y := w.tables[w.dirs[d][v / ENTRIES].frame][v % ENTRIES], AfterEmptying(w, d, v);
    ClearingParts(w, y, d, v, OwnFrame(e));
    if e.owner {
      PageReleased(w, y, d, v, e.frame);
      SameSlots(w, y, Release(y, e.frame), d, v / ENTRIES);
    }
  }

  /** An operation on page `v` is complete: every address space is as it should be. */
  ghost predicate Done(w: World, y: World, d: nat, v: nat, r: Option<nat>) {
    Shape(w) && Sound(y) && y.inUse == w.inUse && Remaps(w, y, d, v, r) && NoNewLarge(w, y)
  }

  /** Copying the kernel halves turns a change of the boot directory into a change everywhere. */
  lemma KernelDone(w: World, x: World, y: World, v: nat, r: Option<nat>)
    requires Sound(w) && Owned(x) && NoEmptyTable(x) && x.inUse == w.inUse && RemapsOwn(w, x, INITIAL, v, r) &&
             NoNewLarge(w, x)
    requires Owned(y) && IsSynced(x, y) && Synced(y) && v < RECURSIVE * ENTRIES
    ensures Done(w, y, INITIAL, v, r) && Foreign(y) == Foreign(x) && y.used == x.used && y.owner == x.owner
  {
    hide DirsOk, TablesOk, PagesOk, PageOwnersOk;
    forall c, u | 0 <= c <= NUM_PAGE_DIRS && 0 <= u && OwnPage(w, c, u)
      ensures Translate(y, c, u) == if c == INITIAL && u == v then r else Translate(w, c, u)
    {
      assert y.dirs[c][u / ENTRIES] == x.dirs[c][u / ENTRIES];
      assert Translate(y, c, u) == Translate(x, c, u);
    }
    SpreadRemap(w, y, INITIAL, v, r);
    hide Translate, Synced, Remaps, RemapsOwn;
    forall c, i | 0 <= c <= NUM_PAGE_DIRS && 0 <= i < ENTRIES && y.dirs[c][i].big
      ensures w.dirs[c][i].big
    {
      if c < NUM_PAGE_DIRS && w.inUse[c] && KERNEL_SLOT <= i < RECURSIVE {
        SyncedAt(w, c, i);
        assert x.dirs[INITIAL][i].big;
      }
    }
  }

  lemma SyncedAt(w: World, c: nat, i: nat)
    requires Shape(w) && Synced(w) && c < NUM_PAGE_DIRS && w.inUse[c] && KERNEL_SLOT <= i < RECURSIVE
    ensures w.dirs[c][i] == Disown(w.dirs[INITIAL][i])
  {
  }

  /** A change in the user half leaves the kernel halves in step. */
  lemma UserDone(w: World, x: World, d: nat, v: nat, r: Option<nat>)
    requires Sound(w) && Owned(x) && NoEmptyTable(x) && x.inUse == w.inUse && RemapsOwn(w, x, d, v, r) &&
             NoNewLarge(w, x)
    requires d <= NUM_PAGE_DIRS && Live(w, d) && v / ENTRIES < KERNEL_SLOT && OnlySlot(w, x, d, v / ENTRIES)
    ensures Done(w, x, d, v, r)
  {
    hide DirsOk, TablesOk, PagesOk, PageOwnersOk, Translate;
    assert Synced(x);
    SpreadRemap(w, x, d, v, r);
  }

  lemma SameSlots(w: World, x: World, y: World, d: nat, i: nat)
    requires OnlySlot(w, x, d, i) && y.dirs == x.dirs
    ensures OnlySlot(w, y, d, i)
  {
  }

  lemma ClearingParts(w: World, x: World, d: nat, v: nat, held: Option<nat>)
    requires Clearing(w, x, d, v, held)
    ensures Owned(w) && Owned(x) && x.inUse == w.inUse && RemapsOwn(w, x, d, v, None) && NoNewLarge(w, x)
    ensures held == None ==> Foreign(x) == Foreign(w)
  {
  }

  lemma SoundParts(w: World)
    requires Sound(w)
    ensures Owned(w) && Synced(w) && NoEmptyTable(w)
  {
  }

  lemma DoneParts(w: World, y: World, d: nat, v: nat, r: Option<nat>)
    requires Done(w, y, d, v, r)
    ensures Shape(w) && Sound(y) && y.inUse == w.inUse && Remaps(w, y, d, v, r) && NoNewLarge(w, y)
  {
  }

  lemma MappedParts(w: World, x: World, d: nat, v: nat, f: nat, owning: bool)
    requires Mapped(w, x, d, v, f, owning)
    ensures Owned(x) && NoEmptyTable(x) && x.inUse == w.inUse && RemapsOwn(w, x, d, v, Some(f)) && NoNewLarge(w, x)
    ensures Foreign(x) == Foreign(w) - (if owning then {f} else {})
    ensures w.used <= x.used && (owning ==> f in x.owner && x.owner[f].Page?)
  {
  }

  /** A present slot of a sound world has its table; an absent one translates nothing. */
  lemma HasTable(w: World, d: nat, i: nat)
    requires Sound(w) && d <= NUM_PAGE_DIRS && Live(w, d) && i < RECURSIVE && w.dirs[d][i].present && !w.dirs[d][i].big
    ensures w.dirs[d][i].frame in w.tables
  {
    assert OwnSlot(INITIAL, i) && Live(w, INITIAL);
    var e := w.dirs[INITIAL][i];
  }

  /** Some page of slot `i` is translated. */
  ghost predicate SlotUsed(w: World, d: nat, i: nat)
    requires Shape(w) && d <= NUM_PAGE_DIRS
  {
    exists u {:trigger Translate(w, d, u)} ::
      0 <= u < ENTRIES * ENTRIES && u / ENTRIES == i && Translate(w, d, u) != None
  }

  /** One of a directory's own slots has a table exactly when some page of it is translated. */
  lemma TableExactlyWhenUsed(w: World, d: nat, i: nat)
    requires Sound(w) && d <= NUM_PAGE_DIRS && Live(w, d) && OwnSlot(d, i) && !w.dirs[d][i].big
    ensures w.dirs[d][i].owner <==> SlotUsed(w, d, i)
  {
    hide TablesOk, PagesOk, PageOwnersOk, Synced;
    if w.dirs[d][i].owner {
      var t := w.dirs[d][i].frame;
      assert HasPage(w.tables[t]);
      var j :| 0 <= j < ENTRIES && w.tables[t][j].present;
      var u: nat := i * ENTRIES + j;
      assert u / ENTRIES == i && u % ENTRIES == j;
      assert Translate(w, d, u) != None;
    } else {
      assert w.dirs[d][i] == ZERO;
    }
  }

  /** Unmapping the page that was just mapped brings back every translation, and the tables the
      directories had: none is left behind, none is lost. */
  lemma UnmapUndoesMap(w: World, x: World, y: World, d: nat, v: nat, f: nat)
    requires Sound(w) && d <= NUM_PAGE_DIRS && Live(w, d) && v < RECURSIVE * ENTRIES && Translate(w, d, v) == None
    requires v / ENTRIES >= KERNEL_SLOT ==> d == INITIAL
    requires Done(w, x, d, v, Some(f)) && Done(x, y, d, v, None)
    ensures forall c, u {:trigger Translate(y, c, u)} ::
              0 <= c <= NUM_PAGE_DIRS && Live(w, c) && 0 <= u < RECURSIVE * ENTRIES ==>
                Translate(y, c, u) == Translate(w, c, u)
    ensures forall c, i {:trigger y.dirs[c][i]} ::
              0 <= c <= NUM_PAGE_DIRS && Live(w, c) && 0 <= i && OwnSlot(c, i) && !w.dirs[c][i].big ==>
                (y.dirs[c][i].owner <==> w.dirs[c][i].owner)
  {
    SoundParts(w);
    DoneParts(w, x, d, v, Some(f));
    DoneParts(x, y, d, v, None);
    hide Sound, DirsOk, TablesOk, PagesOk, PageOwnersOk, Synced, NoEmptyTable, Translate, Done, Remaps;
    forall c, u | 0 <= c <= NUM_PAGE_DIRS && Live(w, c) && 0 <= u < RECURSIVE * ENTRIES
      ensures Translate(y, c, u) == Translate(w, c, u)
    {
      UndoneAt(w, x, y, d, v, f, c, u);
    }
    forall c, i | 0 <= c <= NUM_PAGE_DIRS && Live(w, c) && 0 <= i && OwnSlot(c, i) && !w.dirs[c][i].big
      ensures y.dirs[c][i].owner <==> w.dirs[c][i].owner
    {
      assert !x.dirs[c][i].big && !y.dirs[c][i].big;
      TableExactlyWhenUsed(w, c, i);
      TableExactlyWhenUsed(y, c, i);
      SameUse(w, y, c, i);
    }
  }

  lemma UndoneAt(w: World, x: World, y: World, d: nat, v: nat, f: nat, c: nat, u: nat)
    requires Shape(w) && Synced(w) && d <= NUM_PAGE_DIRS && Live(w, d) && v < RECURSIVE * ENTRIES &&
             Translate(w, d, v) == None
    requires v / ENTRIES >= KERNEL_SLOT ==> d == INITIAL
    requires Shape(x) && Shape(y) && x.inUse == w.inUse && Remaps(w, x, d, v, Some(f)) && Remaps(x, y, d, v, None)
    requires c <= NUM_PAGE_DIRS && Live(w, c) && u < RECURSIVE * ENTRIES
    ensures Translate(y, c, u) == Translate(w, c, u)
  {
    hide Synced, Translate;
    if u == v && c != d && v / ENTRIES >= KERNEL_SLOT {
      KernelTranslate(w, c, u);
    }
    var there := u == v && (c == d || v / ENTRIES >= KERNEL_SLOT);
    assert Translate(x, c, u) == if there then Some(f) else Translate(w, c, u);
  }

  lemma SameUse(w: World, y: World, c: nat, i: nat)
    requires Shape(w) && Shape(y) && c <= NUM_PAGE_DIRS && i < RECURSIVE
    requires forall u {:trigger Translate(y, c, u)} :: 0 <= u < RECURSIVE * ENTRIES ==>
               Translate(y, c, u) == Translate(w, c, u)
    ensures SlotUsed(y, c, i) <==> SlotUsed(w, c, i)
  {
    hide Translate;
    forall u | 0 <= u < ENTRIES * ENTRIES && u / ENTRIES == i
      ensures Translate(y, c, u) == Translate(w, c, u)
    {
    }
    if SlotUsed(w, c, i) {
      var u :| 0 <= u < ENTRIES * ENTRIES && u / ENTRIES == i && Translate(w, c, u) != None;
      assert Translate(y, c, u) != None;
    }
  }

  /** Directory `d` comes into use with an empty user half; nothing else changes. */
  ghost predicate AddsDirectory(w: World, y: World, d: nat)
    requires Shape(w) && Shape(y) && d < NUM_PAGE_DIRS
  {
    && y.used == w.used && y.owner == w.owner && y.tables == w.tables
    && (forall c :: 0 <= c <= NUM_PAGE_DIRS && c != d ==> y.dirs[c] == w.dirs[c])
    && (forall i :: 0 <= i < KERNEL_SLOT ==> y.dirs[d][i] == ZERO)
    && (forall v {:trigger Translate(y, d, v)} :: 0 <= v < RECURSIVE * ENTRIES ==>
          Translate(y, d, v) == if v / ENTRIES < KERNEL_SLOT then None else Translate(w, INITIAL, v))
  }

  lemma DirectoryAdded(w: World, y: World, d: nat)
    requires Sound(w) && d < NUM_PAGE_DIRS && !w.inUse[d] && |y.dirs| == |w.dirs| && |y.dirs[d]| == ENTRIES
    requires y == w.(dirs := w.dirs[d := y.dirs[d]], inUse := w.inUse[d := true])
    requires forall k :: 0 <= k < KERNEL_SLOT ==> y.dirs[d][k] == ZERO
    requires forall k :: KERNEL_SLOT <= k < RECURSIVE ==> y.dirs[d][k] == Disown(w.dirs[INITIAL][k])
    ensures Sound(y) && AddsDirectory(w, y, d) && Foreign(y) == Foreign(w)
  {
  }

  // ---- Freeing a directory ----

  /** Frame `f` belongs to one of the first `n` slots of `d`: it is a table there, or a page of one. */
  predicate InSlots(w: World, f: nat, d: nat, n: nat) {
    f in w.owner &&
    match w.owner[f]
    case Table(c, i) => c == d && i < n
    case Page(t, _) => t in w.owner && w.owner[t].Table? && w.owner[t].dir == d && w.owner[t].slot < n
    case _ => false
  }

  function SlotFrames(w: World, d: nat, n: nat): set<nat> {
    set f | f in w.owner && InSlots(w, f, d, n)
  }

  /** The first `n` slots of directory `d` are empty, and all their frames are free. */
  function Without(w: World, d: nat, n: nat): World
    requires d < |w.dirs|
  {
    var gone := SlotFrames(w, d, n);
    w.(used := w.used - gone, owner := w.owner - gone, tables := w.tables - gone,
       dirs := w.dirs[d := seq(|w.dirs[d]|, i requires 0 <= i < |w.dirs[d]| => if i < n then ZERO else w.dirs[d][i])])
  }

  /** The first `n` entries of table `t` are cleared, and the frames they owned are free. */
  function PartTable(w: World, t: nat, n: nat): World
    requires t in w.tables
  {
    var gone := set f | f in w.owner && w.owner[f].Page? && w.owner[f].table == t && w.owner[f].index < n;
    w.(used := w.used - gone, owner := w.owner - gone,
       tables := w.tables[t := seq(|w.tables[t]|, j requires 0 <= j < |w.tables[t]| =>
         if j < n then ZERO else w.tables[t][j])])
  }

  lemma PartNone(w: World, t: nat)
    requires t in w.tables
    ensures PartTable(w, t, 0) == w
  {
    assert PartTable(w, t, 0).tables[t] == w.tables[t];
  }

  lemma PartStep(w: World, t: nat, n: nat)
    requires Owned(w) && t in w.tables && n < ENTRIES
    ensures var x := PartTable(w, t, n);
            var e := x.tables[t][n];
            && e == w.tables[t][n] && (e.owner ==> e.frame in x.owner && x.owner[e.frame] == Page(t, n))
            && PartTable(w, t, n + 1) == if e.owner then Release(ClearPage(x, t, n), e.frame) else ClearPage(x, t, n)
  {
    hide DirsOk, TablesOk;
    var x, y := PartTable(w, t, n), PartTable(w, t, n + 1);
    var e := x.tables[t][n];
    var z := if e.owner then Release(ClearPage(x, t, n), e.frame) else ClearPage(x, t, n);
    assert y.tables[t] == z.tables[t];
    forall f
      ensures f in y.owner <==> f in z.owner
    {
      if f in w.owner && w.owner[f] == Page(t, n) {
        assert f == e.frame;
      }
    }
    assert y.owner == z.owner;
    assert y.used == z.used;
  }

  lemma WithoutNone(w: World, d: nat)
    requires d < |w.dirs|
    ensures Without(w, d, 0) == w
  {
    assert SlotFrames(w, d, 0) == {};
    assert Without(w, d, 0).dirs[d] == w.dirs[d];
  }

  lemma WithoutStep(w: World, d: nat, n: nat)
    requires Owned(w) && d < NUM_PAGE_DIRS && w.inUse[d] && n < KERNEL_SLOT && w.dirs[d][n].owner
    ensures OwnsTable(w, d, n) && w.dirs[d][n].frame in Without(w, d, n).tables
    ensures var x, t := Without(w, d, n), w.dirs[d][n].frame;
            x.dirs[d][n] == w.dirs[d][n] &&
            Without(w, d, n + 1) == Release(DropTable(PartTable(x, t, ENTRIES), d, n), t)
  {
    var x, t := Without(w, d, n), w.dirs[d][n].frame;
    forall f
      ensures InSlots(w, f, d, n + 1) <==>
              InSlots(w, f, d, n) || f == t || (f in w.owner && w.owner[f].Page? && w.owner[f].table == t)
    {
      SlotStep(w, d, n, f);
    }
    SlotStep(w, d, n, t);
    WithoutStepDirs(w, d, n, t);
    forall f | f in w.owner && w.owner[f].Page? && w.owner[f].table == t
      ensures w.owner[f].index < ENTRIES
    {
      PageIndex(w, f);
    }
    forall f | f in w.tables
      ensures f in w.owner && w.owner[f].Table?
    {
      TableNotPage(w, f);
    }
    WithoutStepFrames(w, d, n, t);
    hide InSlots, Without, PartTable, DropTable;
  }

  /** What the slot's own frames are decides the rest of the world. */
  lemma WithoutStepFrames(w: World, d: nat, n: nat, t: nat)
    requires Shape(w) && d < NUM_PAGE_DIRS && n < KERNEL_SLOT && t == w.dirs[d][n].frame && t in w.tables &&
             !InSlots(w, t, d, n)
    requires forall f :: InSlots(w, f, d, n + 1) <==>
               InSlots(w, f, d, n) || f == t || (f in w.owner && w.owner[f].Page? && w.owner[f].table == t)
    requires forall f :: f in w.owner && w.owner[f].Page? && w.owner[f].table == t ==> w.owner[f].index < ENTRIES
    requires forall f :: f in w.tables ==> f in w.owner && w.owner[f].Table?
    requires w.used == w.owner.Keys
    ensures var x := Without(w, d, n);
            var y, z := Without(w, d, n + 1), Release(DropTable(PartTable(x, t, ENTRIES), d, n), t);
            y.owner == z.owner && y.used == z.used && y.tables == z.tables && y.inUse == z.inUse
  {
    hide InSlots;
    var x := Without(w, d, n);
    var y, z := Without(w, d, n + 1), Release(DropTable(PartTable(x, t, ENTRIES), d, n), t);
    assert y.owner == z.owner;
    assert y.used == z.used;
    forall f | f in w.tables && f != t
      ensures f in y.tables <==> f in z.tables
    {
    }
    assert y.tables.Keys == z.tables.Keys;
    assert y.tables == z.tables;
  }

  lemma TableNotPage(w: World, f: nat)
    requires Owned(w) && f in w.tables
    ensures f in w.owner && w.owner[f].Table?
  {
  }

  lemma PageIndex(w: World, f: nat)
    requires Owned(w) && f in w.owner && w.owner[f].Page?
    ensures w.owner[f].index < ENTRIES
  {
  }

  lemma SlotStep(w: World, d: nat, n: nat, f: nat)
    requires Owned(w) && d < NUM_PAGE_DIRS && w.inUse[d] && n < KERNEL_SLOT && w.dirs[d][n].owner
    ensures OwnsTable(w, d, n)
    ensures var t := w.dirs[d][n].frame;
            && !InSlots(w, t, d, n)
            && (InSlots(w, f, d, n + 1) <==>
                InSlots(w, f, d, n) || f == t || (f in w.owner && w.owner[f].Page? && w.owner[f].table == t))
  {
    hide PagesOk, PageOwnersOk;
  }

  lemma WithoutStepDirs(w: World, d: nat, n: nat, t: nat)
    requires Shape(w) && d < NUM_PAGE_DIRS && n < KERNEL_SLOT && t == w.dirs[d][n].frame && t in Without(w, d, n).tables
    ensures var x := Without(w, d, n);
            && x.dirs[d][n] == w.dirs[d][n]
            && Without(w, d, n + 1).dirs == DropTable(PartTable(x, t, ENTRIES), d, n).dirs
  {
    var x := Without(w, d, n);
    var y, z := Without(w, d, n + 1), DropTable(PartTable(x, t, ENTRIES), d, n);
    assert y.dirs[d] == z.dirs[d];
  }

  /** A slot that is zero has no frames. */
  lemma WithoutSkip(w: World, d: nat, n: nat)
    requires Owned(w) && d < NUM_PAGE_DIRS && w.inUse[d] && n < KERNEL_SLOT && w.dirs[d][n] == ZERO
    ensures Without(w, d, n + 1) == Without(w, d, n)
  {
    hide PagesOk, PageOwnersOk;
    forall f
      ensures InSlots(w, f, d, n + 1) <==> InSlots(w, f, d, n)
    {
    }
    hide DirsOk, TablesOk, InSlots;
    assert SlotFrames(w, d, n + 1) == SlotFrames(w, d, n);
    assert Without(w, d, n + 1).dirs[d] == Without(w, d, n).dirs[d];
  }

  lemma SlotShape(w: World, d: nat, n: nat)
    requires Owned(w) && d < NUM_PAGE_DIRS && w.inUse[d] && n < KERNEL_SLOT
    ensures w.dirs[d][n] == ZERO || w.dirs[d][n].owner
    ensures n <= |w.dirs[d]| && Without(w, d, n).dirs[d][n] == w.dirs[d][n]
  {
    assert OwnSlot(d, n) && Live(w, d);
  }

  lemma PartCleared(w: World, d: nat, i: nat, t: nat)
    requires Shape(w) && t in w.tables && d <= NUM_PAGE_DIRS && i < ENTRIES
    ensures var x := PartTable(w, t, ENTRIES);
            && x.dirs == w.dirs && x.inUse == w.inUse && (t !in w.owner || !w.owner[t].Page? ==> t in x.tables)
            && (t in x.tables ==> forall j :: 0 <= j < ENTRIES ==> !x.tables[t][j].owner)
  {
  }

  lemma SlotOwns(w: World, d: nat, i: nat)
    requires Owned(w) && d <= NUM_PAGE_DIRS && Live(w, d) && i < RECURSIVE && w.dirs[d][i].owner
    ensures OwnsTable(w, d, i) && OwnSlot(d, i)
  {
  }

  /** Directory `d` goes out of use: its frames are free, and no other directory notices. */
  ghost predicate DropsDirectory(w: World, y: World, d: nat)
    requires Shape(w) && Shape(y) && d < NUM_PAGE_DIRS
  {
    && y.inUse == w.inUse[d := false] && y.used == w.used - SlotFrames(w, d, KERNEL_SLOT)
    && y.owner == w.owner - SlotFrames(w, d, KERNEL_SLOT)
    && (forall f :: f in y.owner && y.owner[f].Table? ==> y.owner[f].dir != d)
    && NoNewLarge(w, y)
    && (forall c, v {:trigger Translate(y, c, v)} ::
          0 <= c <= NUM_PAGE_DIRS && c != d && Live(w, c) && 0 <= v < RECURSIVE * ENTRIES ==>
            Translate(y, c, v) == Translate(w, c, v))
  }

  lemma DirectoryDropped(w: World, y: World, d: nat)
    requires Sound(w) && d < NUM_PAGE_DIRS && w.inUse[d] && Owned(Without(w, d, KERNEL_SLOT))
    requires y == Without(w, d, KERNEL_SLOT).(inUse := w.inUse[d := false])
    ensures Sound(y) && DropsDirectory(w, y, d) && Foreign(y) == Foreign(w)
  {
    var x := Without(w, d, KERNEL_SLOT);
    assert forall f :: f in y.owner && y.owner[f].Table? ==> y.owner[f].dir != d;
    DroppedSound(w, x, y, d);
    forall c, v | 0 <= c <= NUM_PAGE_DIRS && c != d && Live(w, c) && 0 <= v < RECURSIVE * ENTRIES
      ensures Translate(y, c, v) == Translate(w, c, v)
    {
      DroppedTranslate(w, y, d, c, v);
    }
    hide DirsOk, TablesOk, PagesOk, PageOwnersOk, Translate;
    assert Foreign(y) == Foreign(w);
  }

  lemma DroppedSound(w: World, x: World, y: World, d: nat)
    requires Sound(w) && d < NUM_PAGE_DIRS && w.inUse[d] && x == Without(w, d, KERNEL_SLOT) && Owned(x)
    requires y == x.(inUse := w.inUse[d := false])
    requires forall f :: f in y.owner && y.owner[f].Table? ==> y.owner[f].dir != d
    ensures Sound(y)
  {
  }

  lemma DroppedTranslate(w: World, y: World, d: nat, c: nat, v: nat)
    requires Sound(w) && d < NUM_PAGE_DIRS && w.inUse[d]
    requires y == Without(w, d, KERNEL_SLOT).(inUse := w.inUse[d := false]) && Sound(y)
    requires c <= NUM_PAGE_DIRS && c != d && Live(w, c) && v < RECURSIVE * ENTRIES
    ensures Translate(y, c, v) == Translate(w, c, v)
    decreases INITIAL - c
  {
    if v / ENTRIES >= KERNEL_SLOT && c != INITIAL {
      KernelTranslate(w, c, v);
      KernelTranslate(y, c, v);
      DroppedTranslate(w, y, d, INITIAL, v);
    } else {
      hide PagesOk, PageOwnersOk, Synced, NoEmptyTable;
      assert OwnSlot(c, v / ENTRIES);
    }
  }

  // ---- Frames owned from outside ----

  predicate IsForeign(o: Owner) {
    !o.Table? && !o.Page?
  }

  function Give(w: World, f: nat, o: Owner): World {
    w.(used := w.used + {f}, owner := w.owner[f := o])
  }

  lemma GiveSound(w: World, f: nat, o: Owner)
    requires Sound(w) && IsForeign(o) && (f !in w.used || (f in w.owner && IsForeign(w.owner[f])))
    ensures Sound(Give(w, f, o)) && Foreign(Give(w, f, o)) == Foreign(w)[f := o]
  {
    var y := Give(w, f, o);
    GiveDirs(w, f, o);
    GivePages(w, f, o);
    hide DirsOk, TablesOk, PagesOk, PageOwnersOk;
    assert Foreign(y) == Foreign(w)[f := o];
  }

  lemma GiveDirs(w: World, f: nat, o: Owner)
    requires Owned(w) && IsForeign(o) && (f !in w.used || (f in w.owner && IsForeign(w.owner[f])))
    ensures var y := Give(w, f, o);
            Shape(y) && y.used == y.owner.Keys && y.tables.Keys <= y.owner.Keys && DirsOk(y) && TablesOk(y)
  {
    hide PagesOk, PageOwnersOk;
    assert f !in w.tables;
  }

  lemma GivePages(w: World, f: nat, o: Owner)
    requires Owned(w) && IsForeign(o) && (f !in w.used || (f in w.owner && IsForeign(w.owner[f])))
    requires Shape(Give(w, f, o))
    ensures PagesOk(Give(w, f, o)) && PageOwnersOk(Give(w, f, o))
  {
    hide DirsOk, TablesOk;
  }

  lemma TakeBackSound(w: World, f: nat)
    requires Sound(w) && f in w.owner && IsForeign(w.owner[f])
    ensures Sound(Release(w, f)) && Foreign(Release(w, f)) == Foreign(w) - {f}
  {
    var y := Release(w, f);
    assert f !in w.tables;
    assert Owned(y);
    hide DirsOk, TablesOk, PagesOk, PageOwnersOk;
    assert Foreign(y) == Foreign(w) - {f};
  }

  lemma GiveHeld(w: World, f: nat, o: Owner)
    ensures Acquire(w, f).(owner := Acquire(w, f).owner[f := o]) == Give(w, f, o)
  {
    assert w.owner[f := Held][f := o] == w.owner[f := o];
  }

  lemma HoldThenRelease(w: World, f: nat)
    ensures Release(Give(w, f, Held), f) == Release(w, f)
  {
  }

  lemma HeldNow(w: World, f: nat)
    requires Sound(w) && f in w.owner
    ensures Give(w, f, Held) == w.(owner := w.owner[f := Held])
  {
    hide DirsOk, TablesOk, PagesOk, PageOwnersOk;
    assert w.used + {f} == w.used;
  }

  // ---- Ranges of pages ----

  /** Pages from `v` on translate to `fs`: in every address space for kernel pages, else in `d`. */
  ghost predicate RangeRemap(w: World, y: World, d: nat, v: nat, fs: seq<Option<nat>>) {
    && Shape(w) && Shape(y) && Sound(y) && y.inUse == w.inUse && NoNewLarge(w, y)
    && forall c, u {:trigger Translate(y, c, u)} ::
         0 <= c <= NUM_PAGE_DIRS && Live(w, c) && 0 <= u < RECURSIVE * ENTRIES ==>
           Translate(y, c, u) ==
           if v <= u < v + |fs| && (c == d || u / ENTRIES >= KERNEL_SLOT) then fs[u - v] else Translate(w, c, u)
  }

  lemma RemapNone(w: World, d: nat, v: nat)
    requires Sound(w)
    ensures RangeRemap(w, w, d, v, [])
  {
  }

  lemma RemapStep(w: World, x: World, y: World, d: nat, v: nat, fs: seq<Option<nat>>, r: Option<nat>)
    requires RangeRemap(w, x, d, v, fs) && Done(x, y, d, v + |fs|, r)
    ensures RangeRemap(w, y, d, v, fs + [r])
  {
    DoneParts(x, y, d, v + |fs|, r);
    SoundParts(y);
    hide Sound, Translate, Synced, NoEmptyTable, DirsOk, TablesOk, PagesOk, PageOwnersOk;
  }

  /** Frames changed owners, but no directory or table did. */
  lemma RemapGive(w: World, x: World, d: nat, v: nat, fs: seq<Option<nat>>, f: nat, o: Owner)
    requires RangeRemap(w, x, d, v, fs) && Sound(Give(x, f, o))
    ensures RangeRemap(w, Give(x, f, o), d, v, fs)
  {
    hide Sound, DirsOk, TablesOk, PagesOk, PageOwnersOk;
    var y := Give(x, f, o);
    forall c, u | 0 <= c <= NUM_PAGE_DIRS && Live(w, c) && 0 <= u < RECURSIVE * ENTRIES
      ensures Translate(y, c, u) == Translate(x, c, u)
    {
    }
  }

  lemma SmallStays(w: World, x: World, d: nat, v: nat)
    requires Shape(w) && Shape(x) && NoNewLarge(w, x) && SmallSlot(w, d, v)
    ensures SmallSlot(x, d, v)
  {
  }

  /** The `n` pages from `v` on are not mapped. */
  ghost predicate IsFree(w: World, d: nat, v: nat, n: nat) {
    && Shape(w) && d <= NUM_PAGE_DIRS && v + n <= ENTRIES * ENTRIES
    && forall u {:trigger Translate(w, d, u)} :: v <= u < v + n ==> SmallSlot(w, d, u) && Translate(w, d, u) == None
  }

  lemma NotForeign(w: World, f: nat)
    requires Sound(w) && f !in w.used
    ensures f !in Foreign(w)
  {
    hide DirsOk, TablesOk, PagesOk, PageOwnersOk;
  }

  lemma SameTranslate(w: World, x: World, d: nat)
    requires Shape(w) && Shape(x) && x.dirs == w.dirs && x.tables == w.tables && d <= NUM_PAGE_DIRS
    ensures forall u {:trigger Translate(x, d, u)} :: 0 <= u < ENTRIES * ENTRIES ==>
              Translate(x, d, u) == Translate(w, d, u)
  {
  }

  /** No frame is just passing from hand to hand. */
  ghost predicate NoneHeld(w: World) {
    forall f :: f in Foreign(w) ==> Foreign(w)[f] != Held
  }
}
