/** Shared-memory objects and the address ranges they are mapped at, as values. */
module SharedMem {
  import opened Options
  import opened Paging

  const MAX_OBJS: nat := 256
  const MAX_MAPPINGS: nat := 128
  const MAX_TASKS: nat := 64
  const KERNEL_POOL: nat := 64          // the kernel's pool, numbered after the tasks'

  /** One mapping: the page where object `obj` begins. */
  datatype Mapping = Mapping(page: nat, obj: nat)

  /** An object is the list of its frames; an empty list is a free slot. */
  type Objs = s: seq<seq<nat>> | |s| == 256 witness seq(256, _ => [])

  function Size(objs: Objs, m: Mapping): nat {
    if m.obj < MAX_OBJS then |objs[m.obj]| else 0
  }

  function EndOf(objs: Objs, m: Mapping): nat {
    m.page + Size(objs, m)
  }

  /** Mappings of existing objects, in order of address, without overlap, inside the range. */
  ghost predicate PoolOk(objs: Objs, pool: seq<Mapping>, lo: nat, hi: nat) {
    && |pool| <= MAX_MAPPINGS
    && (forall a :: 0 <= a < |pool| ==> pool[a].obj < MAX_OBJS && objs[pool[a].obj] != [])
    && (forall a :: 0 <= a < |pool| ==> lo <= pool[a].page && EndOf(objs, pool[a]) <= hi)
    && (forall a, b :: 0 <= a < b < |pool| ==> EndOf(objs, pool[a]) <= pool[b].page)
  }

  predicate Covers(objs: Objs, m: Mapping, v: nat) {
    m.page <= v < EndOf(objs, m)
  }

  /** The frame the pool says page `v` is mapped to. */
  function PoolMap(objs: Objs, pool: seq<Mapping>, v: nat): Option<nat> {
    if pool == [] then None
    else
      var m := pool[|pool| - 1];
      if Covers(objs, m, v) && m.obj < MAX_OBJS then Some(objs[m.obj][v - m.page])
      else PoolMap(objs, pool[..|pool| - 1], v)
  }

  lemma {:induction false} PoolMapAt(objs: Objs, pool: seq<Mapping>, lo: nat, hi: nat, a: nat, v: nat)
    requires PoolOk(objs, pool, lo, hi) && a < |pool| && Covers(objs, pool[a], v)
    ensures PoolMap(objs, pool, v) == Some(objs[pool[a].obj][v - pool[a].page])
  {
    if a < |pool| - 1 {
      PoolMapAt(objs, pool[..|pool| - 1], lo, hi, a, v);
    }
  }

  lemma {:induction false} PoolMapNone(objs: Objs, pool: seq<Mapping>, v: nat)
    requires forall a :: 0 <= a < |pool| ==> !Covers(objs, pool[a], v)
    ensures PoolMap(objs, pool, v) == None
  {
    if pool != [] {
      PoolMapNone(objs, pool[..|pool| - 1], v);
    }
  }

  function Removed(pool: seq<Mapping>, a: nat): seq<Mapping>
    requires a < |pool|
  {
    pool[..a] + pool[a + 1..]
  }

  /** No page lies in two mappings. */
  lemma Apart(objs: Objs, pool: seq<Mapping>, lo: nat, hi: nat, a: nat, b: nat, v: nat)
    requires PoolOk(objs, pool, lo, hi) && a < b < |pool|
    ensures !Covers(objs, pool[a], v) || !Covers(objs, pool[b], v)
  {
    assert EndOf(objs, pool[a]) <= pool[b].page;
  }

  /** Taking a mapping out of a pool keeps it ordered and unmaps exactly that mapping's pages. */
  lemma RemovedMap(objs: Objs, pool: seq<Mapping>, lo: nat, hi: nat, a: nat, v: nat)
    requires PoolOk(objs, pool, lo, hi) && a < |pool|
    ensures PoolOk(objs, Removed(pool, a), lo, hi)
    ensures PoolMap(objs, Removed(pool, a), v) == if Covers(objs, pool[a], v) then None else PoolMap(objs, pool, v)
  {
    RemovedOk(objs, pool, lo, hi, a);
    hide Removed, PoolOk, Covers, PoolMap;
    if c: nat :| c < |pool| && c != a && Covers(objs, pool[c], v) {
      RemovedKeeps(objs, pool, lo, hi, a, c, v);
    } else {
      RemovedLeavesNone(objs, pool, a, v);
      if !Covers(objs, pool[a], v) {
        PoolMapNone(objs, pool, v);
      }
    }
  }

  lemma RemovedKeeps(objs: Objs, pool: seq<Mapping>, lo: nat, hi: nat, a: nat, c: nat, v: nat)
    requires a < |pool| && c < |pool| && c != a && Covers(objs, pool[c], v)
    requires PoolOk(objs, pool, lo, hi) && PoolOk(objs, Removed(pool, a), lo, hi)
    ensures PoolMap(objs, Removed(pool, a), v) == PoolMap(objs, pool, v) && !Covers(objs, pool[a], v)
  {
    hide Removed, PoolOk, Covers, PoolMap;
    RemovedAt(pool, a);
    PoolMapAt(objs, pool, lo, hi, c, v);
    PoolMapAt(objs, Removed(pool, a), lo, hi, if c < a then c else c - 1, v);
    Apart(objs, pool, lo, hi, if a < c then a else c, if a < c then c else a, v);
  }

  lemma RemovedLeavesNone(objs: Objs, pool: seq<Mapping>, a: nat, v: nat)
    requires a < |pool| && forall c: nat :: c < |pool| && c != a ==> !Covers(objs, pool[c], v)
    ensures PoolMap(objs, Removed(pool, a), v) == None
  {
    hide Removed, Covers, PoolMap;
    RemovedAt(pool, a);
    PoolMapNone(objs, Removed(pool, a), v);
  }

  lemma RemovedAt(pool: seq<Mapping>, a: nat)
    requires a < |pool|
    ensures |Removed(pool, a)| == |pool| - 1
    ensures forall b :: 0 <= b < a ==> Removed(pool, a)[b] == pool[b]
    ensures forall b :: a <= b < |pool| - 1 ==> Removed(pool, a)[b] == pool[b + 1]
  {
  }

  lemma RemovedOk(objs: Objs, pool: seq<Mapping>, lo: nat, hi: nat, a: nat)
    requires PoolOk(objs, pool, lo, hi) && a < |pool|
    ensures PoolOk(objs, Removed(pool, a), lo, hi)
  {
    var rest := Removed(pool, a);
    assert forall b :: 0 <= b < |rest| ==> rest[b] == if b < a then pool[b] else pool[b + 1];
  }

  /** Where the next mapping of a pool goes. */
  function NextPage(objs: Objs, pool: seq<Mapping>, lo: nat): nat {
    if pool == [] then lo else EndOf(objs, pool[|pool| - 1])
  }

  /** Adding a mapping behind the last one keeps the pool ordered and maps exactly its pages. */
  lemma AddedMap(objs: Objs, pool: seq<Mapping>, lo: nat, hi: nat, id: nat, v: nat)
    requires PoolOk(objs, pool, lo, hi) && |pool| < MAX_MAPPINGS && id < MAX_OBJS && objs[id] != []
    requires NextPage(objs, pool, lo) + |objs[id]| <= hi
    ensures var m := Mapping(NextPage(objs, pool, lo), id);
            && PoolOk(objs, pool + [m], lo, hi)
            && PoolMap(objs, pool + [m], v) ==
               (if Covers(objs, m, v) then Some(objs[id][v - m.page]) else PoolMap(objs, pool, v))
            && (Covers(objs, m, v) ==> PoolMap(objs, pool, v) == None)
  {
    var m := Mapping(NextPage(objs, pool, lo), id);
    AddedOk(objs, pool, lo, hi, id);
    BehindPool(objs, pool, lo, hi, v);
    PoolMapLast(objs, pool, m, v);
    hide PoolOk, PoolMap;
    if Covers(objs, m, v) {
      assert v >= NextPage(objs, pool, lo);
      hide Covers;
      PoolMapNone(objs, pool, v);
    }
  }

  lemma PoolMapLast(objs: Objs, pool: seq<Mapping>, m: Mapping, v: nat)
    requires m.obj < MAX_OBJS
    ensures PoolMap(objs, pool + [m], v) ==
            if Covers(objs, m, v) then Some(objs[m.obj][v - m.page]) else PoolMap(objs, pool, v)
  {
    assert (pool + [m])[..|pool|] == pool;
  }

  lemma AddedOk(objs: Objs, pool: seq<Mapping>, lo: nat, hi: nat, id: nat)
    requires PoolOk(objs, pool, lo, hi) && |pool| < MAX_MAPPINGS && id < MAX_OBJS && objs[id] != []
    requires NextPage(objs, pool, lo) + |objs[id]| <= hi
    ensures PoolOk(objs, pool + [Mapping(NextPage(objs, pool, lo), id)], lo, hi)
  {
    var longer := pool + [Mapping(NextPage(objs, pool, lo), id)];
    forall a | 0 <= a < |pool|
      ensures EndOf(objs, longer[a]) <= longer[|pool|].page
    {
      assert a < |pool| - 1 ==> EndOf(objs, pool[a]) <= pool[|pool| - 1].page;
    }
  }

  /** No mapping reaches beyond the end of the last. */
  lemma BehindPool(objs: Objs, pool: seq<Mapping>, lo: nat, hi: nat, v: nat)
    requires PoolOk(objs, pool, lo, hi)
    ensures v >= NextPage(objs, pool, lo) ==> forall a :: 0 <= a < |pool| ==> !Covers(objs, pool[a], v)
  {
    forall a | 0 <= a < |pool| && v >= NextPage(objs, pool, lo)
      ensures !Covers(objs, pool[a], v)
    {
      assert a < |pool| - 1 ==> EndOf(objs, pool[a]) <= pool[|pool| - 1].page;
    }
  }

  // ---- What a destroy loop leaves behind ----

  function IndexOf(pool: seq<Mapping>, id: nat): (r: nat)
    ensures r <= |pool| && (r < |pool| ==> pool[r].obj == id)
    ensures forall a :: 0 <= a < r ==> pool[a].obj != id
  {
    if pool == [] || pool[0].obj == id then 0 else 1 + IndexOf(pool[1..], id)
  }

  /** The loop over a pool from index `i` on: a slot that maps the object makes its first mapping
      go, and the loop moves on past whatever shifted into the slot. */
  function Swept(pool: seq<Mapping>, id: nat, i: nat): seq<Mapping>
    decreases |pool| + 1 - i, |pool|
  {
    if i >= |pool| then pool
    else if pool[i].obj == id && IndexOf(pool, id) < |pool| then Swept(Removed(pool, IndexOf(pool, id)), id, i + 1)
    else Swept(pool, id, i + 1)
  }

  /** Slots `a` and `a + 1` both map the object. */
  predicate Pair(pool: seq<Mapping>, id: nat, a: nat) {
    a + 1 < |pool| && pool[a].obj == id && pool[a + 1].obj == id
  }

  predicate NoneAdjacent(pool: seq<Mapping>, id: nat) {
    forall a: nat :: a < |pool| ==> !Pair(pool, id, a)
  }

  predicate Refers(pool: seq<Mapping>, id: nat) {
    exists a :: 0 <= a < |pool| && pool[a].obj == id
  }

  function CountOf(pool: seq<Mapping>, id: nat): nat {
    if pool == [] then 0 else (if pool[0].obj == id then 1 else 0) + CountOf(pool[1..], id)
  }

  lemma {:induction false} CountZero(pool: seq<Mapping>, id: nat)
    ensures CountOf(pool, id) == 0 <==> !Refers(pool, id)
  {
    if pool != [] {
      CountZero(pool[1..], id);
      if Refers(pool[1..], id) {
        var a :| 0 <= a < |pool[1..]| && pool[1..][a].obj == id;
        assert pool[a + 1].obj == id;
      }
      if Refers(pool, id) && pool[0].obj != id {
        var a :| 0 <= a < |pool| && pool[a].obj == id;
        assert pool[1..][a - 1].obj == id;
      }
    }
  }

  lemma {:induction false} CountRemoved(pool: seq<Mapping>, id: nat, a: nat)
    requires a < |pool| && pool[a].obj == id
    ensures CountOf(Removed(pool, a), id) == CountOf(pool, id) - 1
  {
    if a == 0 {
      assert Removed(pool, 0) == pool[1..];
    } else {
      CountRemoved(pool[1..], id, a - 1);
      assert Removed(pool, a)[0] == pool[0] && Removed(pool, a)[1..] == Removed(pool[1..], a - 1);
    }
  }

  /** Removals made by the loop over the slots `s` that are still ahead. */
  function Hits(s: seq<Mapping>, id: nat): nat {
    if s == [] then 0
    else if s[0].obj != id then Hits(s[1..], id)
    else if |s| == 1 then 1
    else 1 + Hits(s[2..], id)
  }

  lemma {:induction false} SweptCount(pool: seq<Mapping>, id: nat, i: nat)
    requires i <= |pool|
    ensures CountOf(Swept(pool, id, i), id) == CountOf(pool, id) - Hits(pool[i..], id)
    decreases |pool| + 1 - i
  {
    if i < |pool| {
      if pool[i].obj == id {
        var a := IndexOf(pool, id);
        assert a <= i;
        CountRemoved(pool, id, a);
        var rest := Removed(pool, a);
        if i + 1 <= |rest| {
          SweptCount(rest, id, i + 1);
          assert rest[i + 1..] == pool[i..][2..];
        }
      } else {
        SweptCount(pool, id, i + 1);
        assert pool[i + 1..] == pool[i..][1..];
      }
    }
  }

  lemma {:induction false} HitsAll(s: seq<Mapping>, id: nat)
    ensures Hits(s, id) <= CountOf(s, id)
    ensures Hits(s, id) == CountOf(s, id) <==> NoneAdjacent(s, id)
  {
    if |s| >= 2 && s[0].obj == id {
      HitsAll(s[2..], id);
      PairShift(s, id, 2);
      assert CountOf(s, id) == 1 + CountOf(s[1..], id);
      assert s[1..][1..] == s[2..];
      assert Pair(s, id, 0) <==> s[1].obj == id;
      assert s[1].obj != id ==> !Pair(s, id, 1);
    } else if |s| >= 2 {
      HitsAll(s[1..], id);
      PairShift(s, id, 1);
      assert !Pair(s, id, 0);
    } else if |s| == 1 {
      assert s[1..] == [];
    }
  }

  lemma PairShift(s: seq<Mapping>, id: nat, n: nat)
    requires n <= |s|
    ensures (forall a: nat :: n <= a < |s| ==> !Pair(s, id, a)) <==> NoneAdjacent(s[n..], id)
  {
    forall a: nat | a < |s| - n
      ensures Pair(s[n..], id, a) == Pair(s, id, n + a)
    {
    }
    if NoneAdjacent(s[n..], id) {
      forall a: nat | n <= a < |s|
        ensures !Pair(s, id, a)
      {
        assert !Pair(s[n..], id, a - n);
      }
    }
  }

  /** The loop removes all mappings of the object exactly when no two of them are neighbours. */
  lemma SweptClean(pool: seq<Mapping>, id: nat)
    ensures !Refers(Swept(pool, id, 0), id) <==> NoneAdjacent(pool, id)
  {
    SweptCount(pool, id, 0);
    HitsAll(pool, id);
    CountZero(Swept(pool, id, 0), id);
    assert pool[0..] == pool;
  }

  /** Two neighbouring mappings: the second survives. */
  lemma SweepMissesNeighbour(m: Mapping, n: Mapping)
    requires m.obj == n.obj
    ensures Swept([m, n], m.obj, 0) == [n]
  {
    assert IndexOf([m, n], m.obj) == 0;
    assert Removed([m, n], 0) == [n];
  }
}
