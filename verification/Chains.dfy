/** Cluster chains over the FAT seen as an array of entries: what allocation and removal
    do to a table, and why they keep it a set of disjoint, acyclic chains. */
module Chains {
  // ---- Free clusters ----

  /** Number of free clusters below `k`; clusters are numbered from 2. */
  function FreeBelow(fat: seq<nat>, k: nat): (r: nat)
    requires k <= |fat|
  {
    if k <= 2 then 0 else FreeBelow(fat, k - 1) + if fat[k - 1] == 0 then 1 else 0
  }

  function FreeCount(fat: seq<nat>): nat {
    FreeBelow(fat, |fat|)
  }

  lemma {:induction false} FreeBelowUpdate(fat: seq<nat>, k: nat, c: nat, v: nat)
    requires k <= |fat| && 2 <= c < |fat|
    ensures FreeBelow(fat[c := v], k) + (if c < k && fat[c] == 0 then 1 else 0)
         == FreeBelow(fat, k) + (if c < k && v == 0 then 1 else 0)
  {
    if k > 2 {
      FreeBelowUpdate(fat, k - 1, c, v);
    }
  }

  lemma {:induction false} FreeBelowBound(fat: seq<nat>, k: nat, c: nat)
    requires 2 <= k <= |fat| && 2 <= c < |fat|
    ensures FreeBelow(fat, k) <= k - 2
    ensures c < k && fat[c] != 0 ==> FreeBelow(fat, k) < k - 2
    ensures c < k && fat[c] == 0 ==> FreeBelow(fat, k) > 0
  {
    if k > 2 {
      FreeBelowBound(fat, k - 1, if c < k - 1 || k == 3 then c else 2);
    }
  }

  /** Writing one entry moves the number of free clusters by at most one. */
  lemma FreeCountUpdate(fat: seq<nat>, c: nat, v: nat)
    requires 2 <= c < |fat|
    ensures FreeCount(fat[c := v]) + (if fat[c] == 0 then 1 else 0) == FreeCount(fat) + (if v == 0 then 1 else 0)
    ensures FreeCount(fat) <= |fat| - 2
    ensures fat[c] != 0 ==> FreeCount(fat) < |fat| - 2
    ensures fat[c] == 0 ==> FreeCount(fat) > 0
  {
    FreeBelowUpdate(fat, |fat|, c, v);
    FreeBelowBound(fat, |fat|, c);
  }

  lemma FreeBelowStep(fat: seq<nat>, k: nat)
    requires 2 <= k <= |fat|
    ensures FreeBelow(fat, 2) == 0 && FreeBelow(fat, |fat|) == FreeCount(fat)
    ensures k < |fat| ==> FreeBelow(fat, k + 1) == FreeBelow(fat, k) + if fat[k] == 0 then 1 else 0
  {
  }

  /** Number of zero entries below `k`, entries 0 and 1 included. */
  function ZerosBelow(fat: seq<nat>, k: nat): (r: nat)
    requires k <= |fat|
  {
    if k == 0 then 0 else ZerosBelow(fat, k - 1) + if fat[k - 1] == 0 then 1 else 0
  }

  lemma ZerosBelowStep(fat: seq<nat>, k: nat)
    requires k <= |fat|
    ensures ZerosBelow(fat, 0) == 0
    ensures k < |fat| ==> ZerosBelow(fat, k + 1) == ZerosBelow(fat, k) + if fat[k] == 0 then 1 else 0
  {
  }

  lemma {:induction false} ZerosSplit(fat: seq<nat>, k: nat)
    requires 2 <= k <= |fat|
    ensures ZerosBelow(fat, k) == FreeBelow(fat, k) + ZerosBelow(fat, 2)
    ensures ZerosBelow(fat, 2) == 0 <==> fat[0] != 0 && fat[1] != 0
  {
    if k > 2 {
      ZerosSplit(fat, k - 1);
    } else {
      assert ZerosBelow(fat, 1) == if fat[0] == 0 then 1 else 0;
    }
  }

  // ---- The scans of `f_getfree` ----

  /** The first entry from `c` on that holds the internal-error value, or the end of the table:
      where the scan of a FAT12 volume stops. */
  function ScanEnd(fat: seq<nat>, c: nat): (r: nat)
    requires 2 <= c <= |fat|
    ensures c <= r <= |fat| && (r < |fat| ==> fat[r] == 1)
    ensures forall x :: c <= x < r ==> fat[x] != 1
    decreases |fat| - c
  {
    if c == |fat| || fat[c] == 1 then c else ScanEnd(fat, c + 1)
  }

  /** Some free cluster lies behind an entry with the internal-error value. */
  ghost predicate HidesFree(fat: seq<nat>) {
    exists x, y :: 2 <= x < y < |fat| && fat[x] == 1 && fat[y] == 0
  }

  lemma {:induction false} FreeBetween(fat: seq<nat>, j: nat, k: nat)
    requires 2 <= j <= k <= |fat|
    ensures FreeBelow(fat, j) <= FreeBelow(fat, k) <= FreeBelow(fat, j) + k - j
    ensures FreeBelow(fat, j) == FreeBelow(fat, k) <==> forall x :: j <= x < k ==> fat[x] != 0
  {
    if j < k {
      FreeBetween(fat, j, k - 1);
      assert fat[k - 1] != 0 || FreeBelow(fat, k) > FreeBelow(fat, k - 1);
    }
  }

  /** The FAT12 scan counts all free clusters exactly when none lies behind where it stops. */
  lemma ScanExactly(fat: seq<nat>)
    requires |fat| >= 2
    ensures FreeBelow(fat, ScanEnd(fat, 2)) == FreeCount(fat) <==> !HidesFree(fat)
    ensures FreeBelow(fat, ScanEnd(fat, 2)) <= FreeCount(fat) <= |fat| - 2
    ensures ScanEnd(fat, 2) < |fat| <==> HasInvalid(fat)
  {
    var e := ScanEnd(fat, 2);
    FreeBetween(fat, e, |fat|);
    FreeBetween(fat, 2, |fat|);
    if e < |fat| {
      assert fat[e] == 1;
    }
  }

  /** A FAT12 table with two free clusters behind an entry of value 1. The scan counts none, and with
      that count in the cache every request for a cluster is refused as if the volume were full. */
  lemma HiddenFree(eoc: nat, hint: nat, fat': seq<nat>, hint': nat, free': nat, r: nat)
    ensures var fat := [0xFF8, 0xFFF, 1, 0, 0];
            && HidesFree(fat) && FreeCount(fat) == 2 && FreeBelow(fat, ScanEnd(fat, 2)) == 0
            && (CreateOutcome(fat, fat', eoc, hint, hint', 0, free', 0, r) <==>
                r == 0 && fat' == fat && hint' == hint && free' == 0)
  {
    var fat: seq<nat> := [0xFF8, 0xFFF, 1, 0, 0];
    assert ScanEnd(fat, 2) == 2;
    FreeBelowStep(fat, 2);
    FreeBelowStep(fat, 3);
    FreeBelowStep(fat, 4);
    assert fat[2] == 1 && fat[4] == 0;
  }

  /** A FAT16 table whose entry 1 is zero: the scan counts one cluster more than there is free. */
  lemma CountsReserved()
    ensures var fat := [0xFFF8, 0, 0xFFFF, 0];
            FreeCount(fat) == 1 && ZerosBelow(fat, |fat|) == 2
  {
    var fat: seq<nat> := [0xFFF8, 0, 0xFFFF, 0];
    FreeBelowStep(fat, 2);
    FreeBelowStep(fat, 3);
    ZerosSplit(fat, 4);
    ZerosBelowStep(fat, 0);
    ZerosBelowStep(fat, 1);
  }

  // ---- Removing a chain ----

  /** The outcome of removal: the new table, the number of clusters freed, and whether it
      ended without meeting an internal-error entry. */
  datatype Removal = Removal(fat: seq<nat>, freed: nat, ok: bool)

  /** Frees the clusters reached from `c`, on any table whatever: each pass frees one. */
  function RemoveFrom(fat: seq<nat>, c: nat): (r: Removal)
    requires 2 <= c < |fat|
    ensures |r.fat| == |fat|
    decreases |fat| - FreeCount(fat)
  {
    if fat[c] == 0 then Removal(fat, 0, true)
    else if fat[c] == 1 then Removal(fat, 0, false)
    else
      FreeCountUpdate(fat, c, 0);
      var fat' := fat[c := 0];
      if fat[c] < |fat| then
        var r := RemoveFrom(fat', fat[c]);
        r.(freed := r.freed + 1)
      else Removal(fat', 1, true)
  }

  /** What is left of removing `c0` from `fat0` is to remove `c` from `fat`, `freed` clusters on. */
  ghost predicate SameRemoval(fat0: seq<nat>, c0: nat, fat: seq<nat>, c: nat, freed: nat)
    requires 2 <= c0 < |fat0| && 2 <= c < |fat|
  {
    var r, s := RemoveFrom(fat0, c0), RemoveFrom(fat, c);
    r == s.(freed := s.freed + freed)
  }

  lemma SameRemovalInit(fat: seq<nat>, c: nat)
    requires 2 <= c < |fat|
    ensures SameRemoval(fat, c, fat, c, 0)
  {
  }

  /** One pass of removal. */
  lemma RemoveStep(fat0: seq<nat>, c0: nat, fat: seq<nat>, c: nat, freed: nat)
    requires 2 <= c0 < |fat0| && 2 <= c < |fat| && fat[c] > 1
    requires SameRemoval(fat0, c0, fat, c, freed)
    ensures FreeCount(fat[c := 0]) == FreeCount(fat) + 1 <= |fat| - 2
    ensures if fat[c] < |fat| then SameRemoval(fat0, c0, fat[c := 0], fat[c], freed + 1)
            else RemoveFrom(fat0, c0) == Removal(fat[c := 0], freed + 1, true)
  {
    FreeCountUpdate(fat, c, 0);
  }

  /** The pass that ends removal at an entry that is free or invalid. */
  lemma RemoveStop(fat0: seq<nat>, c0: nat, fat: seq<nat>, c: nat, freed: nat)
    requires 2 <= c0 < |fat0| && 2 <= c < |fat| && fat[c] <= 1
    requires SameRemoval(fat0, c0, fat, c, freed)
    ensures RemoveFrom(fat0, c0) == Removal(fat, freed, fat[c] == 0)
  {
  }

  /** Whatever the table, removal frees what it says it frees and writes nothing but zeros. */
  lemma {:induction false} RemoveFromCounts(fat: seq<nat>, c: nat)
    requires 2 <= c < |fat|
    ensures FreeCount(RemoveFrom(fat, c).fat) == FreeCount(fat) + RemoveFrom(fat, c).freed
    ensures forall x :: 0 <= x < |fat| ==> RemoveFrom(fat, c).fat[x] == fat[x] || RemoveFrom(fat, c).fat[x] == 0
    ensures RemoveFrom(fat, c).ok ==> RemoveFrom(fat, c).fat[c] == 0
    decreases |fat| - FreeCount(fat)
  {
    if fat[c] > 1 {
      FreeCountUpdate(fat, c, 0);
      if fat[c] < |fat| {
        RemoveFromCounts(fat[c := 0], fat[c]);
      }
    }
  }

  // ---- Finding a free cluster ----

  /** `x` is looked at before `r` in the cyclic search that begins after `start`. */
  predicate Precedes(start: nat, x: nat, r: nat) {
    if r > start then start < x < r else x > start || x < r
  }

  /** The first cluster after `start`, cyclically, at which the search stops: a free one, or
      one whose entry is the internal-error value. */
  ghost predicate FirstStop(fat: seq<nat>, start: nat, r: nat) {
    && 2 <= r < |fat| && fat[r] <= 1
    && forall x :: 2 <= x < |fat| && Precedes(start, x, r) ==> fat[x] > 1
  }

  /** The search from `start` has passed everything up to and including `r`. */
  ghost predicate Passed(fat: seq<nat>, start: nat, r: nat, wrapped: bool) {
    forall x :: 2 <= x < |fat| && (if wrapped then x > start || x <= r else start < x <= r) ==> fat[x] > 1
  }

  lemma PassedNone(fat: seq<nat>, start: nat)
    ensures Passed(fat, start, start, false)
  {
  }

  /** One step of the search: it goes to the next cluster, stops there, or has seen them all. */
  lemma SearchStep(fat: seq<nat>, start: nat, r: nat, wrapped: bool)
    requires 1 <= start < |fat| && |fat| >= 3 && Passed(fat, start, r, wrapped)
    requires if wrapped then 2 <= r < start else start <= r < |fat|
    ensures r + 1 >= |fat| && start < 2 ==> NoStop(fat)
    ensures var r', w' := if r + 1 >= |fat| then 2 else r + 1, wrapped || r + 1 >= |fat|;
            r + 1 < |fat| || start >= 2 ==>
              && (fat[r'] <= 1 ==> FirstStop(fat, start, r'))
              && (fat[r'] > 1 ==> Passed(fat, start, r', w'))
              && (fat[r'] > 1 && r' == start ==> NoStop(fat))
  {
  }

  /** Some entry holds the internal-error value, which no well-formed table does. */
  ghost predicate HasInvalid(fat: seq<nat>) {
    exists x :: 2 <= x < |fat| && fat[x] == 1
  }

  ghost predicate NoStop(fat: seq<nat>) {
    forall x :: 2 <= x < |fat| ==> fat[x] > 1
  }

  function NextCluster(fat: seq<nat>, c: nat): nat {
    if c + 1 >= |fat| then 2 else c + 1
  }

  /** Where the cyclic search begins: at the hint if it is usable. */
  function SearchStart(fat: seq<nat>, hint: nat, clst: nat): nat {
    if clst == 0 then (if hint == 0 || hint >= |fat| then 1 else hint)
    else if 2 <= hint < |fat| then hint else clst
  }

  /** `r` is the cluster at which the search for a cluster to follow `clst` stops: the next
      one in number if that stops it, otherwise the first in cyclic order from the hint. */
  ghost predicate SearchHit(fat: seq<nat>, hint: nat, clst: nat, r: nat)
    requires |fat| >= 3
  {
    if clst != 0 && fat[NextCluster(fat, clst)] <= 1 then r == NextCluster(fat, clst)
    else FirstStop(fat, SearchStart(fat, hint, clst), r)
  }

  lemma ProbeHit(fat: seq<nat>, hint: nat, clst: nat)
    requires |fat| >= 3 && clst != 0 && fat[NextCluster(fat, clst)] <= 1
    ensures SearchHit(fat, hint, clst, NextCluster(fat, clst))
  {
  }

  lemma CyclicHit(fat: seq<nat>, hint: nat, clst: nat)
    requires |fat| >= 3 && (clst == 0 || fat[NextCluster(fat, clst)] > 1)
    ensures forall h: nat :: FirstStop(fat, SearchStart(fat, hint, clst), h) ==> SearchHit(fat, hint, clst, h)
  {
  }

  /** A search stops somewhere or nowhere. */
  lemma HitIsStop(fat: seq<nat>, hint: nat, clst: nat)
    requires |fat| >= 3
    ensures forall r: nat :: SearchHit(fat, hint, clst, r) ==> 2 <= r < |fat| && fat[r] <= 1 && !NoStop(fat)
  {
  }

  /** The first free cluster or internal-error entry from `c` on. */
  function NextStop(fat: seq<nat>, c: nat): (r: nat)
    requires 2 <= c <= |fat|
    ensures c <= r <= |fat| && (r < |fat| ==> fat[r] <= 1)
    ensures forall x :: c <= x < r ==> fat[x] > 1
    decreases |fat| - c
  {
    if c == |fat| || fat[c] <= 1 then c else NextStop(fat, c + 1)
  }

  /** From every start and across the wrap-around: the search stops at a cluster exactly when there
      is one to stop at. */
  lemma StopsExactly(fat: seq<nat>, hint: nat, clst: nat)
    requires |fat| >= 3 && clst < |fat|
    ensures (exists r: nat :: SearchHit(fat, hint, clst, r)) <==> !NoStop(fat)
  {
    HitIsStop(fat, hint, clst);
    if !NoStop(fat) {
      if clst != 0 && fat[NextCluster(fat, clst)] <= 1 {
        ProbeHit(fat, hint, clst);
      } else {
        var start := SearchStart(fat, hint, clst);
        var r := NextStop(fat, start + 1);
        if r == |fat| {
          r := NextStop(fat, 2);
        }
        assert FirstStop(fat, start, r);
        CyclicHit(fat, hint, clst);
      }
    }
  }

  /** There is one answer. */
  lemma SearchHitUnique(fat: seq<nat>, hint: nat, clst: nat, r: nat, s: nat)
    requires |fat| >= 3
    requires SearchHit(fat, hint, clst, r) && SearchHit(fat, hint, clst, s)
    ensures r == s
  {
  }

  /** A count raised by `n` but held at `limit`; one above the limit means "unknown" and stays. */
  function CountUp(count: nat, n: nat, limit: int): int {
    if count > limit then count else if count + n < limit then count + n else limit
  }

  lemma CountUpStep(count: nat, n: nat, limit: int)
    ensures CountUp(count, 0, limit) == count
    ensures CountUp(count, n + 1, limit) ==
            if CountUp(count, n, limit) < limit then CountUp(count, n, limit) + 1 else CountUp(count, n, limit)
  {
  }

  /** Everything one call of `create_chain` may do to the table and the allocation hints. */
  ghost predicate CreateOutcome(fat: seq<nat>, fat': seq<nat>, eoc: nat, hint: nat, hint': nat, free: nat, free': nat,
                                clst: nat, r: nat)
    requires |fat| >= 3
  {
    if clst != 0 && (clst >= |fat| || clst == 1 || fat[clst] <= 1) then
      r == 1 && fat' == fat && hint' == hint && free' == free   // no such chain to follow
    else if clst != 0 && fat[clst] < |fat| then
      r == fat[clst] && fat' == fat && hint' == hint && free' == free   // already followed
    else if free == 0 || NoStop(fat) then
      r == 0 && fat' == fat && hint' == hint && free' == free
    else
      exists h: nat :: SearchHit(fat, hint, clst, h)
        && if fat[h] == 1 then r == 1 && fat' == fat && hint' == hint && free' == free
           else && r == h == hint'
                && fat' == (if clst == 0 then fat[h := eoc] else fat[h := eoc][clst := h])
                && free' == if free <= |fat| - 2 then free - 1 else free
  }

  ghost predicate MayExtend(fat: seq<nat>, clst: nat) {
    clst == 0 || (2 <= clst < |fat| && fat[clst] >= |fat|)
  }

  /** The exits of `create_chain` that change nothing. */
  lemma CreateRefuses(fat: seq<nat>, eoc: nat, hint: nat, free: nat, clst: nat)
    requires |fat| >= 3
    ensures clst != 0 && (clst >= |fat| || clst == 1 || fat[clst] <= 1) ==>
            CreateOutcome(fat, fat, eoc, hint, hint, free, free, clst, 1)
    ensures 2 <= clst < |fat| && 2 <= fat[clst] < |fat| ==>
            CreateOutcome(fat, fat, eoc, hint, hint, free, free, clst, fat[clst])
    ensures MayExtend(fat, clst) && (free == 0 || NoStop(fat)) ==>
            CreateOutcome(fat, fat, eoc, hint, hint, free, free, clst, 0)
    ensures MayExtend(fat, clst) && free != 0 ==>
              forall h: nat :: SearchHit(fat, hint, clst, h) && fat[h] == 1 ==>
                       CreateOutcome(fat, fat, eoc, hint, hint, free, free, clst, 1)
  {
    HitIsStop(fat, hint, clst);
  }

  /** The exit of `create_chain` that allocates cluster `h`. */
  lemma CreateAllocates(fat: seq<nat>, eoc: nat, hint: nat, free: nat, clst: nat, h: nat)
    requires |fat| >= 3 && MayExtend(fat, clst) && free != 0
    requires SearchHit(fat, hint, clst, h) && 2 <= h < |fat| && fat[h] == 0
    ensures CreateOutcome(fat, if clst == 0 then fat[h := eoc] else fat[h := eoc][clst := h], eoc, hint, h,
                          free, if free <= |fat| - 2 then free - 1 else free, clst, h)
  {
    HitIsStop(fat, hint, clst);
  }

  /** Everything one call of `remove_chain` does: the chain from `clst` on is freed and `pclst`,
      if it is not 0, becomes the end of its own; a number out of range changes nothing. */
  ghost predicate RemoveOutcome(fat: seq<nat>, fat': seq<nat>, eoc: nat, free: nat, free': nat, clst: nat, pclst: nat,
                                ok: bool) {
    if !(2 <= clst < |fat|) || (pclst != 0 && !(2 <= pclst < |fat|)) then
      !ok && fat' == fat && free' == free
    else
      var r := RemoveFrom(if pclst == 0 then fat else fat[pclst := eoc], clst);
      ok == r.ok && fat' == r.fat && free' == CountUp(free, r.freed, |fat| - 2)
  }
}
