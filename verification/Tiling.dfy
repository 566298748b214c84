/** Well-formed tables: the used clusters of a FAT are the disjoint union of acyclic chains
    that end in an end-of-chain mark, and every run of allocations and removals keeps it so. */
module Tiling {
  import opened Chains

  ghost predicate Distinct(ch: seq<nat>) {
    forall i, j :: 0 <= i < j < |ch| ==> ch[i] != ch[j]
  }

  /** `ch` is a complete chain of the table: each cluster links to the next, the last ends it. */
  ghost predicate IsChain(fat: seq<nat>, ch: seq<nat>) {
    && |ch| > 0
    && (forall i :: 0 <= i < |ch| ==> 2 <= ch[i] < |fat|)
    && Distinct(ch)
    && (forall i {:trigger fat[ch[i]]} :: 0 <= i < |ch| - 1 ==> fat[ch[i]] == ch[i + 1])
    && fat[ch[|ch| - 1]] >= |fat|
  }

  ghost predicate AllChains(fat: seq<nat>, cs: seq<seq<nat>>) {
    forall k :: 0 <= k < |cs| && cs[k] != [] ==> IsChain(fat, cs[k])
  }

  ghost predicate Disjoint(cs: seq<seq<nat>>) {
    forall k, l, c :: 0 <= k < |cs| && 0 <= l < |cs| && c in cs[k] && c in cs[l] ==> k == l
  }

  ghost predicate InSome(cs: seq<seq<nat>>, c: nat) {
    exists k :: 0 <= k < |cs| && c in cs[k]
  }

  /** The chains `cs` are exactly the used clusters of the table. An empty sequence stands
      for a file that has no chain. */
  ghost predicate Tiles(fat: seq<nat>, cs: seq<seq<nat>>) {
    AllChains(fat, cs) && Disjoint(cs) && forall c :: 2 <= c < |fat| && fat[c] != 0 ==> InSome(cs, c)
  }

  // ---- What well-formedness means ----

  /** In a well-formed table a cluster has at most one predecessor, and every entry of a used
      cluster is a link to a used cluster or an end mark. */
  lemma TilesMeaning(fat: seq<nat>, cs: seq<seq<nat>>, a: nat, b: nat)
    requires Tiles(fat, cs) && 2 <= a < |fat| && 2 <= b < |fat| && fat[a] != 0
    ensures fat[a] != 1
    ensures fat[a] < |fat| ==> fat[fat[a]] != 0
    ensures fat[a] == fat[b] < |fat| ==> a == b
  {
    var k, i := Locate(fat, cs, a);
    if fat[a] < |fat| && fat[b] == fat[a] {
      var l, j := Locate(fat, cs, b);
      assert cs[k][i + 1] in cs[k] && cs[l][j + 1] in cs[l];
    }
  }

  /** Where a used cluster is. */
  lemma Locate(fat: seq<nat>, cs: seq<seq<nat>>, c: nat) returns (k: nat, i: nat)
    requires Tiles(fat, cs) && 2 <= c < |fat| && fat[c] != 0
    ensures k < |cs| && i < |cs[k]| && cs[k][i] == c
    ensures fat[c] == if i + 1 < |cs[k]| then cs[k][i + 1] else fat[c]
    ensures fat[c] >= |fat| <==> i + 1 == |cs[k]|
  {
    assert InSome(cs, c);
    k :| 0 <= k < |cs| && c in cs[k];
    i :| 0 <= i < |cs[k]| && cs[k][i] == c;
    assert IsChain(fat, cs[k]);
  }

  // ---- Allocation ----

  lemma GrowChain(fat: seq<nat>, ch: seq<nat>, ncl: nat, eoc: nat)
    requires IsChain(fat, ch) && 2 <= ncl < |fat| && fat[ncl] == 0 && eoc >= |fat|
    ensures IsChain(fat[ncl := eoc][ch[|ch| - 1] := ncl], ch + [ncl])
  {
    forall i | 0 <= i < |ch|
      ensures ch[i] != ncl
    {
      assert fat[ch[i]] != 0;
    }
  }

  lemma OtherChain(fat: seq<nat>, fat': seq<nat>, ch: seq<nat>)
    requires IsChain(fat, ch) && |fat'| == |fat| && forall c :: c in ch ==> fat'[c] == fat[c]
    ensures IsChain(fat', ch)
  {
  }

  /** Clusters of a chain are used. */
  lemma ChainUsed(fat: seq<nat>, ch: seq<nat>)
    requires IsChain(fat, ch)
    ensures forall c :: c in ch ==> 2 <= c < |fat| && fat[c] >= 2
  {
  }

  lemma FreeInNoChain(fat: seq<nat>, cs: seq<seq<nat>>, c: nat)
    requires AllChains(fat, cs) && 2 <= c < |fat| && fat[c] == 0
    ensures forall k :: 0 <= k < |cs| ==> c !in cs[k]
  {
    forall k | 0 <= k < |cs|
      ensures c !in cs[k]
    {
      if cs[k] != [] {
        ChainUsed(fat, cs[k]);
      }
    }
  }

  lemma StretchDisjoint(cs: seq<seq<nat>>, k: nat, c: nat)
    requires Disjoint(cs) && k < |cs| && forall l :: 0 <= l < |cs| ==> c !in cs[l]
    ensures Disjoint(cs[k := cs[k] + [c]])
  {
    var cs' := cs[k := cs[k] + [c]];
    assert forall l, x :: 0 <= l < |cs| && x in cs'[l] ==> x in cs[l] || (l == k && x == c);
  }

  /** Stretching: one chain gets one cluster that was free, the others stay. */
  lemma StretchTiles(fat: seq<nat>, cs: seq<seq<nat>>, k: nat, ncl: nat, eoc: nat)
    requires Tiles(fat, cs) && k < |cs| && cs[k] != [] && 2 <= ncl < |fat| && fat[ncl] == 0 && eoc >= |fat|
    ensures Tiles(fat[ncl := eoc][cs[k][|cs[k]| - 1] := ncl], cs[k := cs[k] + [ncl]])
  {
    var last := cs[k][|cs[k]| - 1];
    var fat', cs' := fat[ncl := eoc][last := ncl], cs[k := cs[k] + [ncl]];
    assert last in cs[k] && 2 <= last < |fat|;
    hide IsChain, Disjoint;
    GrowChain(fat, cs[k], ncl, eoc);
    FreeInNoChain(fat, cs, ncl);
    StretchDisjoint(cs, k, ncl);
    forall l | 0 <= l < |cs| && l != k && cs[l] != []
      ensures IsChain(fat', cs'[l])
    {
      OtherChain(fat, fat', cs[l]);
    }
    forall c | 2 <= c < |fat| && fat'[c] != 0
      ensures InSome(cs', c)
    {
      if c == ncl {
        assert c in cs'[k];
      } else {
        assert InSome(cs, c);
        var l :| 0 <= l < |cs| && c in cs[l];
        assert c in cs'[l];
      }
    }
  }

  lemma NewChain(fat: seq<nat>, c: nat)
    requires 2 <= c < |fat| <= fat[c]
    ensures IsChain(fat, [c])
  {
  }

  /** A new chain takes one cluster that was free; the others stay. */
  lemma NewTiles(fat: seq<nat>, cs: seq<seq<nat>>, ncl: nat, eoc: nat)
    requires Tiles(fat, cs) && 2 <= ncl < |fat| && fat[ncl] == 0 && eoc >= |fat|
    ensures Tiles(fat[ncl := eoc], cs + [[ncl]])
  {
    var fat', cs' := fat[ncl := eoc], cs + [[ncl]];
    assert cs'[|cs|] == [ncl] && forall l :: 0 <= l < |cs| ==> cs'[l] == cs[l];
    FreeInNoChain(fat, cs, ncl);
    hide Distinct;
    forall l | 0 <= l < |cs'| && cs'[l] != []
      ensures IsChain(fat', cs'[l])
    {
      if l < |cs| {
        OtherChain(fat, fat', cs[l]);
      } else {
        NewChain(fat', ncl);
      }
    }
    hide IsChain;
    forall c | 2 <= c < |fat| && fat'[c] != 0
      ensures InSome(cs', c)
    {
      if c == ncl {
        assert c in cs'[|cs|];
      } else {
        assert InSome(cs, c);
        var l :| 0 <= l < |cs| && c in cs[l];
        assert c in cs'[l];
      }
    }
  }

  // ---- Removal ----

  /** Removing a chain from its first cluster frees exactly its clusters. */
  lemma {:induction false} RemoveExact(fat: seq<nat>, ch: seq<nat>)
    requires IsChain(fat, ch)
    ensures var r := RemoveFrom(fat, ch[0]);
            && r.ok && r.freed == |ch|
            && forall c :: 0 <= c < |fat| ==> r.fat[c] == if c in ch then 0 else fat[c]
    decreases |ch|
  {
    hide FreeCount, Distinct;
    FreeCountUpdate(fat, ch[0], 0);
    if |ch| > 1 {
      assert fat[ch[0]] == ch[1] == ch[1..][0];
      SuffixChain(fat, fat[ch[0] := 0], ch, 1);
      RemoveExact(fat[ch[0] := 0], ch[1..]);
      assert ch == [ch[0]] + ch[1..];
    } else {
      assert ch == [ch[0]];
    }
  }

  /** Truncation: one chain is cut to its first `m` clusters, the rest of it becomes free,
      the other chains stay. */
  lemma TruncateTiles(fat: seq<nat>, cs: seq<seq<nat>>, k: nat, m: nat, eoc: nat)
    requires Tiles(fat, cs) && k < |cs| && m < |cs[k]| && eoc >= |fat|
    ensures var f0 := CutBefore(fat, cs[k], m, eoc);
            var r := RemoveFrom(f0, cs[k][m]);
            && r.ok && r.freed == |cs[k]| - m
            && Tiles(r.fat, cs[k := cs[k][..m]])
            && forall c :: 0 <= c < |fat| ==> r.fat[c] == if c in cs[k][m..] then 0 else f0[c]
  {
    hide RemoveFrom, IsChain;
    var ch := cs[k];
    assert IsChain(fat, ch);
    ChainUsed(fat, ch);
    assert ch[m] in ch && (m > 0 ==> ch[m - 1] in ch);
    CutExact(fat, ch, m, eoc);
    var fat', cs' := RemoveFrom(CutBefore(fat, ch, m, eoc), ch[m]).fat, cs[k := ch[..m]];
    assert ch == ch[..m] + ch[m..];
    forall l | 0 <= l < |cs| && cs'[l] != []
      ensures IsChain(fat', cs'[l])
    {
      if l == k {
        PrefixChain(fat, fat', ch, m);
      } else {
        ChainUsed(fat, cs[l]);
        assert forall c :: c in cs[l] ==> c !in ch;
        OtherChain(fat, fat', cs[l]);
      }
    }
    forall c | 2 <= c < |fat| && fat'[c] != 0
      ensures InSome(cs', c)
    {
      assert c !in ch[m..];
      if m == 0 || c != ch[m - 1] {
        assert InSome(cs, c);
        var l :| 0 <= l < |cs| && c in cs[l];
        assert c in cs'[l];
      } else {
        assert c in cs'[k];
      }
    }
    forall i, l, c | 0 <= i < |cs'| && 0 <= l < |cs'| && c in cs'[i] && c in cs'[l]
      ensures i == l
    {
      assert c in cs[i] && c in cs[l];
    }
  }

  /** The table once the cluster before the cut is marked as the end of its chain. */
  function CutBefore(fat: seq<nat>, ch: seq<nat>, m: nat, eoc: nat): seq<nat>
    requires m < |ch| && (m > 0 ==> ch[m - 1] < |fat|)
  {
    if m == 0 then fat else fat[ch[m - 1] := eoc]
  }

  lemma CutExact(fat: seq<nat>, ch: seq<nat>, m: nat, eoc: nat)
    requires IsChain(fat, ch) && m < |ch| && eoc >= |fat|
    ensures var f0 := CutBefore(fat, ch, m, eoc);
            var r := RemoveFrom(f0, ch[m]);
            && r.ok && r.freed == |ch| - m
            && (forall c :: 0 <= c < |fat| ==> r.fat[c] == if c in ch[m..] then 0 else f0[c])
            && (m > 0 ==> r.fat[ch[m - 1]] == eoc)
  {
    hide RemoveFrom, IsChain;
    ChainUsed(fat, ch);
    assert ch[m] in ch && (m > 0 ==> ch[m - 1] in ch);
    var tail, f0 := ch[m..], CutBefore(fat, ch, m, eoc);
    SuffixChain(fat, f0, ch, m);
    RemoveExact(f0, tail);
  }

  lemma SuffixDistinct(ch: seq<nat>, m: nat)
    requires Distinct(ch) && m < |ch|
    ensures Distinct(ch[m..]) && forall i :: m <= i < |ch| && m > 0 ==> ch[i] != ch[m - 1]
    ensures m > 0 ==> ch[m - 1] !in ch[m..]
  {
  }

  lemma SuffixLinks(fat: seq<nat>, ch: seq<nat>, m: nat)
    requires IsChain(fat, ch) && m < |ch|
    ensures IsChain(fat, ch[m..])
  {
    var tail := ch[m..];
    SuffixDistinct(ch, m);
    hide Distinct;
    assert forall i :: 0 <= i < |tail| ==> tail[i] == ch[m + i];
    forall i {:trigger fat[tail[i]]} | 0 <= i < |tail| - 1
      ensures fat[tail[i]] == tail[i + 1]
    {
      assert fat[ch[m + i]] == ch[m + i + 1];
    }
    assert tail[|tail| - 1] == ch[|ch| - 1];
  }

  lemma SuffixChain(fat: seq<nat>, fat': seq<nat>, ch: seq<nat>, m: nat)
    requires IsChain(fat, ch) && m < |ch| && |fat'| == |fat|
    requires forall c :: 0 <= c < |fat| && (m == 0 || c != ch[m - 1]) ==> fat'[c] == fat[c]
    ensures IsChain(fat', ch[m..]) && (m > 0 ==> ch[m - 1] !in ch[m..])
  {
    SuffixDistinct(ch, m);
    SuffixLinks(fat, ch, m);
    hide IsChain, Distinct;
    OtherChain(fat, fat', ch[m..]);
  }

  lemma PrefixChain(fat: seq<nat>, fat': seq<nat>, ch: seq<nat>, m: nat)
    requires IsChain(fat, ch) && 0 < m < |ch| && |fat'| == |fat|
    requires fat'[ch[m - 1]] >= |fat|
    requires forall c :: 0 <= c < |fat| && c !in ch[m..] && c != ch[m - 1] ==> fat'[c] == fat[c]
    ensures IsChain(fat', ch[..m])
  {
    forall i | 0 <= i < m
      ensures ch[i] !in ch[m..]
    {
      assert forall j :: 0 <= j < |ch[m..]| ==> ch[m..][j] == ch[m + j];
    }
  }

  // ---- Whole runs ----

  /** What allocation works on: the table, the search hint and the cached number of free clusters. */
  datatype State = State(fat: seq<nat>, hint: nat, free: nat)

  datatype Call = Create(clst: nat) | Remove(clst: nat, pclst: nat)

  /** One call of `create_chain` or `remove_chain`, with any arguments. */
  ghost predicate Step(eoc: nat, s: State, call: Call, s': State)
    requires |s.fat| >= 3
  {
    match call
    case Create(clst) => exists r: nat :: CreateOutcome(s.fat, s'.fat, eoc, s.hint, s'.hint, s.free, s'.free, clst, r)
    case Remove(clst, pclst) =>
      s'.hint == s.hint && exists ok :: RemoveOutcome(s.fat, s'.fat, eoc, s.free, s'.free, clst, pclst, ok)
  }

  /** A removal names the predecessor of the first cluster to free, or 0 if it has none. */
  ghost predicate Legal(fat: seq<nat>, call: Call) {
    match call
    case Create(_) => true
    case Remove(clst, pclst) =>
      2 <= clst < |fat| ==>
        if pclst == 0 then forall e :: 2 <= e < |fat| ==> fat[e] != clst
        else 2 <= pclst < |fat| ==> fat[pclst] == clst
  }

  ghost predicate CountOk(s: State) {
    s.free <= |s.fat| - 2 ==> s.free == FreeCount(s.fat)
  }

  /** The chains after a call: the same, one more of a single new cluster, one stretched by a
      single cluster that was in none, or one cut short. */
  ghost predicate ChainsAfter(fat: seq<nat>, cs: seq<seq<nat>>, call: Call, cs': seq<seq<nat>>) {
    match call
    case Create(clst) => cs' == cs || (clst == 0 && AddedOne(fat, cs, cs')) || StretchedOne(fat, cs, clst, cs')
    case Remove(clst, pclst) => cs' == cs || CutOne(cs, clst, pclst, cs')
  }

  ghost predicate AddedOne(fat: seq<nat>, cs: seq<seq<nat>>, cs': seq<seq<nat>>) {
    exists c: nat :: 2 <= c < |fat| && fat[c] == 0 && cs' == cs + [[c]]
  }

  ghost predicate StretchedOne(fat: seq<nat>, cs: seq<seq<nat>>, clst: nat, cs': seq<seq<nat>>) {
    exists k: nat, c: nat ::
      k < |cs| && cs[k] != [] && cs[k][|cs[k]| - 1] == clst && 2 <= c < |fat| && fat[c] == 0 &&
      cs' == cs[k := cs[k] + [c]]
  }

  /** Position `m` of chain `k` is cluster `clst`, and `pclst` is the one before it, or 0. */
  ghost predicate CutHere(cs: seq<seq<nat>>, clst: nat, pclst: nat, k: nat, m: nat) {
    k < |cs| && m < |cs[k]| && cs[k][m] == clst && pclst == if m == 0 then 0 else cs[k][m - 1]
  }

  ghost predicate CutOne(cs: seq<seq<nat>>, clst: nat, pclst: nat, cs': seq<seq<nat>>) {
    exists k: nat, m: nat :: CutHere(cs, clst, pclst, k, m) && cs' == cs[k := cs[k][..m]]
  }

  /** Every call keeps the table well formed and the count right, and touches one chain. */
  lemma StepKeepsTiles(eoc: nat, s: State, call: Call, s': State, cs: seq<seq<nat>>) returns (cs': seq<seq<nat>>)
    requires |s.fat| >= 3 && eoc >= |s.fat| && Tiles(s.fat, cs) && CountOk(s)
    requires Step(eoc, s, call, s') && Legal(s.fat, call)
    ensures |s'.fat| == |s.fat| && Tiles(s'.fat, cs') && CountOk(s')
    ensures ChainsAfter(s.fat, cs, call, cs')
  {
    match call
    case Create(clst) => cs' := CreateKeepsTiles(eoc, s, clst, s', cs);
    case Remove(clst, pclst) => cs' := RemoveKeepsTiles(eoc, s, clst, pclst, s', cs);
  }

  lemma CreateKeepsTiles(eoc: nat, s: State, clst: nat, s': State, cs: seq<seq<nat>>) returns (cs': seq<seq<nat>>)
    requires |s.fat| >= 3 && eoc >= |s.fat| && Tiles(s.fat, cs) && CountOk(s)
    requires Step(eoc, s, Create(clst), s')
    ensures |s'.fat| == |s.fat| && Tiles(s'.fat, cs') && CountOk(s')
    ensures ChainsAfter(s.fat, cs, Create(clst), cs')
  {
    hide IsChain, AllChains, Disjoint, InSome, FreeCount, SearchHit, NoStop;
    var r: nat :| CreateOutcome(s.fat, s'.fat, eoc, s.hint, s'.hint, s.free, s'.free, clst, r);
    if s' == s {
      return cs;
    }
    HitIsStop(s.fat, s.hint, clst);
    var h: nat :| SearchHit(s.fat, s.hint, clst, h) && 2 <= h < |s.fat| && s.fat[h] == 0
      && s'.fat == (if clst == 0 then s.fat[h := eoc] else s.fat[h := eoc][clst := h]);
    FreeCountUpdate(s.fat, h, eoc);
    if clst == 0 {
      NewTiles(s.fat, cs, h, eoc);
      cs' := cs + [[h]];
    } else {
      FreeCountUpdate(s.fat[h := eoc], clst, h);
      var k, i := Locate(s.fat, cs, clst);
      StretchTiles(s.fat, cs, k, h, eoc);
      cs' := cs[k := cs[k] + [h]];
    }
  }

  lemma RemoveKeepsTiles(eoc: nat, s: State, clst: nat, pclst: nat, s': State,
                         cs: seq<seq<nat>>) returns (cs': seq<seq<nat>>)
    requires |s.fat| >= 3 && eoc >= |s.fat| && Tiles(s.fat, cs) && CountOk(s)
    requires Step(eoc, s, Remove(clst, pclst), s') && Legal(s.fat, Remove(clst, pclst))
    ensures |s'.fat| == |s.fat| && Tiles(s'.fat, cs') && CountOk(s')
    ensures ChainsAfter(s.fat, cs, Remove(clst, pclst), cs')
  {
    hide RemoveFrom, IsChain, AllChains, Disjoint;
    var ok :| RemoveOutcome(s.fat, s'.fat, eoc, s.free, s'.free, clst, pclst, ok);
    if !(2 <= clst < |s.fat|) || (pclst != 0 && !(2 <= pclst < |s.fat|)) {
      return cs;
    }
    if s.fat[clst] == 0 {
      RemoveNothing(eoc, s, clst, pclst, cs);
      return cs;
    }
    var k, m := LocateCut(s.fat, clst, pclst, cs);
    TruncateTiles(s.fat, cs, k, m, eoc);
    CountAfterCut(eoc, s, clst, pclst, cs, k, m);
    if m > 0 {
      ClusterOf(s.fat, cs, k, m - 1);
    }
    cs' := cs[k := cs[k][..m]];
    assert CutHere(cs, clst, pclst, k, m);
  }

  /** Naming a free cluster frees nothing. */
  lemma RemoveNothing(eoc: nat, s: State, clst: nat, pclst: nat, cs: seq<seq<nat>>)
    requires Tiles(s.fat, cs) && Legal(s.fat, Remove(clst, pclst)) && CountOk(s)
    requires 2 <= clst < |s.fat| && s.fat[clst] == 0 && (pclst == 0 || 2 <= pclst < |s.fat|)
    ensures pclst == 0 && RemoveFrom(s.fat, clst) == Removal(s.fat, 0, true)
    ensures CountUp(s.free, 0, |s.fat| - 2) == s.free
  {
    if pclst != 0 {
      TilesMeaning(s.fat, cs, pclst, pclst);
    }
  }

  lemma LocateCut(fat: seq<nat>, clst: nat, pclst: nat, cs: seq<seq<nat>>) returns (k: nat, m: nat)
    requires Tiles(fat, cs) && Legal(fat, Remove(clst, pclst))
    requires 2 <= clst < |fat| && fat[clst] != 0 && (pclst == 0 || 2 <= pclst < |fat|)
    ensures CutHere(cs, clst, pclst, k, m)
  {
    hide Tiles, IsChain;
    if pclst == 0 {
      k, m := Locate(fat, cs, clst);
      if m > 0 {
        Linked(fat, cs, k, m);
      }
    } else {
      var i;
      k, i := Locate(fat, cs, pclst);
      m := i + 1;
    }
  }

  lemma Linked(fat: seq<nat>, cs: seq<seq<nat>>, k: nat, m: nat)
    requires Tiles(fat, cs) && k < |cs| && 0 < m < |cs[k]|
    ensures 2 <= cs[k][m - 1] < |fat| && fat[cs[k][m - 1]] == cs[k][m]
  {
    assert IsChain(fat, cs[k]);
  }

  lemma CountAfterCut(eoc: nat, s: State, clst: nat, pclst: nat, cs: seq<seq<nat>>, k: nat, m: nat)
    requires |s.fat| >= 3 && eoc >= |s.fat| && Tiles(s.fat, cs) && CountOk(s)
    requires CutHere(cs, clst, pclst, k, m)
    ensures 2 <= clst < |s.fat| && pclst < |s.fat|
    ensures var r := RemoveFrom(if pclst == 0 then s.fat else s.fat[pclst := eoc], clst);
            CountOk(State(r.fat, s.hint, CountUp(s.free, r.freed, |s.fat| - 2)))
  {
    hide RemoveFrom, Tiles;
    ClusterOf(s.fat, cs, k, m);
    if m > 0 {
      ClusterOf(s.fat, cs, k, m - 1);
      FreeCountUpdate(s.fat, pclst, eoc);
    }
    var f0 := if pclst == 0 then s.fat else s.fat[pclst := eoc];
    RemoveFromCounts(f0, clst);
    FreeCountUpdate(RemoveFrom(f0, clst).fat, clst, 0);
  }

  lemma ClusterOf(fat: seq<nat>, cs: seq<seq<nat>>, k: nat, m: nat)
    requires Tiles(fat, cs) && k < |cs| && m < |cs[k]|
    ensures 2 <= cs[k][m] < |fat| && fat[cs[k][m]] >= 2
  {
    ChainUsed(fat, cs[k]);
  }

  /** A run: each state follows from the one before by a legal call. */
  ghost predicate Run(eoc: nat, states: seq<State>, calls: seq<Call>) {
    && |states| == |calls| + 1
    && (forall i :: 0 <= i < |states| ==> |states[i].fat| == |states[0].fat| >= 3)
    && forall i :: 0 <= i < |calls| ==> Step(eoc, states[i], calls[i], states[i + 1]) && Legal(states[i].fat, calls[i])
  }

  /** The call frees from this chain or stretches it. */
  predicate Names(call: Call, ch: seq<nat>) {
    match call
    case Create(clst) => ch != [] && ch[|ch| - 1] == clst
    case Remove(clst, _) => clst in ch
  }

  /** The chains of each state of a run. */
  ghost predicate History(states: seq<State>, calls: seq<Call>, hist: seq<seq<seq<nat>>>) {
    && |hist| == |states| == |calls| + 1
    && (forall i :: 0 <= i < |states| ==> Tiles(states[i].fat, hist[i]) && CountOk(states[i]))
    && forall i :: 0 <= i < |calls| ==> ChainsAfter(states[i].fat, hist[i], calls[i], hist[i + 1])
  }

  /** In every state of any run of allocations and removals the table is well formed, a cached free
      count that is in range is the number of free clusters, and each call touches one chain. */
  lemma {:induction false} RunKeepsTiles(eoc: nat, states: seq<State>, calls: seq<Call>,
                                         cs: seq<seq<nat>>) returns (hist: seq<seq<seq<nat>>>)
    requires Run(eoc, states, calls) && eoc >= |states[0].fat|
    requires Tiles(states[0].fat, cs) && CountOk(states[0])
    ensures History(states, calls, hist) && hist[0] == cs
    decreases |calls|
  {
    hide Tiles, CountOk, ChainsAfter, Step, Legal;
    if |calls| == 0 {
      hist := [cs];
    } else {
      var cs1 := StepKeepsTiles(eoc, states[0], calls[0], states[1], cs);
      assert Run(eoc, states[1..], calls[1..]);
      var rest := RunKeepsTiles(eoc, states[1..], calls[1..], cs1);
      hist := [cs] + rest;
      forall i | 0 <= i < |states|
        ensures Tiles(states[i].fat, hist[i]) && CountOk(states[i])
      {
        if i > 0 {
          assert states[1..][i - 1] == states[i] && rest[i - 1] == hist[i];
        }
      }
      forall i | 0 <= i < |calls|
        ensures ChainsAfter(states[i].fat, hist[i], calls[i], hist[i + 1])
      {
        if i > 0 {
          assert states[1..][i - 1] == states[i] && calls[1..][i - 1] == calls[i];
          assert rest[i - 1] == hist[i] && rest[i] == hist[i + 1];
        }
      }
    }
  }

  /** The chain of a file survives, cluster by cluster, every run whose calls do not name it. */
  lemma {:induction false} UnnamedSurvives(states: seq<State>, calls: seq<Call>, hist: seq<seq<seq<nat>>>, k: nat,
                                           i: nat)
    requires History(states, calls, hist) && k < |hist[0]| && i < |hist|
    requires forall j :: 0 <= j < i ==> !Names(calls[j], hist[0][k])
    ensures k < |hist[i]| && hist[i][k] == hist[0][k] && (hist[0][k] != [] ==> IsChain(states[i].fat, hist[0][k]))
  {
    if i > 0 {
      UnnamedSurvives(states, calls, hist, k, i - 1);
      assert ChainsAfter(states[i - 1].fat, hist[i - 1], calls[i - 1], hist[i]);
      assert !Names(calls[i - 1], hist[0][k]);
    }
    hide IsChain;
  }

  /** On a well-formed table with a right count, allocation fails only when no cluster is
      free, and it never reports an internal error for the end of a chain or a new one. */
  lemma AllocationComplete(eoc: nat, s: State, clst: nat, s': State, r: nat, cs: seq<seq<nat>>)
    requires |s.fat| >= 3 && Tiles(s.fat, cs) && CountOk(s) && MayExtend(s.fat, clst)
    requires CreateOutcome(s.fat, s'.fat, eoc, s.hint, s'.hint, s.free, s'.free, clst, r)
    ensures r != 1
    ensures r == 0 <==> forall c :: 2 <= c < |s.fat| ==> s.fat[c] != 0
  {
    forall c | 2 <= c < |s.fat|
      ensures s.fat[c] != 1
    {
      if s.fat[c] != 0 {
        TilesMeaning(s.fat, cs, c, c);
      }
    }
    HitIsStop(s.fat, s.hint, clst);
    if s.free == 0 {
      forall c | 2 <= c < |s.fat|
        ensures s.fat[c] != 0
      {
        FreeCountUpdate(s.fat, c, 0);
      }
    }
  }

  /** On a well-formed table the FAT12 scan meets no internal-error entry, so its count is exact. */
  lemma TilesScan(fat: seq<nat>, cs: seq<seq<nat>>)
    requires |fat| >= 3 && Tiles(fat, cs)
    ensures !HasInvalid(fat) && FreeBelow(fat, ScanEnd(fat, 2)) == FreeCount(fat)
  {
    forall c | 2 <= c < |fat|
      ensures fat[c] != 1
    {
      if fat[c] != 0 {
        TilesMeaning(fat, cs, c, c);
      }
    }
    ScanExactly(fat);
  }
}
