/** The library's sort: comb sort. */
module CombSort {

  const WORD: nat := 0x1_0000_0000

  /** The next gap, in the code's 32-bit arithmetic. */
  function NewGap(gap: nat): (r: nat)
    ensures r >= 1
  {
    var g := gap * 10 % WORD / 13;
    if g == 9 || g == 10 then 11 else if g < 1 then 1 else g
  }

  /** Despite the jump from 9 and 10 up to 11 the gap shrinks until it is 1, whether or not the
      product wraps. */
  lemma GapShrinks(gap: nat)
    ensures gap > 1 ==> NewGap(gap) < gap
    ensures gap <= 1 ==> NewGap(gap) == 1
  {
    var p := gap * 10 % WORD;
    assert p <= gap * 10;
    var g := p / 13;
    assert g * 13 <= gap * 10;
  }

  /** `cmp(x, y) <= 0` orders all elements: any two compare, and the order is transitive. */
  ghost predicate TotalPreorder<T(!new)>(cmp: (T, T) -> int) {
    && (forall x, y :: cmp(x, y) <= 0 || cmp(y, x) <= 0)
    && (forall x, y, z :: cmp(x, y) <= 0 && cmp(y, z) <= 0 ==> cmp(x, z) <= 0)
  }

  ghost predicate Sorted<T>(s: seq<T>, cmp: (T, T) -> int) {
    forall i, j :: 0 <= i < j < |s| ==> cmp(s[i], s[j]) <= 0
  }

  /** Elements of `s` that belong behind `x`. */
  function Greater<T>(s: seq<T>, x: T, cmp: (T, T) -> int): nat {
    if s == [] then 0 else Greater(s[..|s| - 1], x, cmp) + (if cmp(s[|s| - 1], x) > 0 then 1 else 0)
  }

  /** Pairs that stand in the wrong order. */
  function Inversions<T>(s: seq<T>, cmp: (T, T) -> int): nat {
    if s == [] then 0 else Inversions(s[..|s| - 1], cmp) + Greater(s[..|s| - 1], s[|s| - 1], cmp)
  }

  function Exchanged<T>(s: seq<T>, i: nat, j: nat): seq<T>
    requires i < |s| && j < |s|
  {
    s[i := s[j]][j := s[i]]
  }

  function Swapped<T>(s: seq<T>, i: nat): seq<T>
    requires i + 1 < |s|
  {
    Exchanged(s, i, i + 1)
  }

  lemma {:induction false} GreaterSwapped<T>(s: seq<T>, i: nat, x: T, cmp: (T, T) -> int)
    requires i + 1 < |s|
    ensures Greater(Swapped(s, i), x, cmp) == Greater(s, x, cmp)
  {
    var n := |s| - 1;
    if i + 1 < n {
      assert Swapped(s, i)[..n] == Swapped(s[..n], i);
      GreaterSwapped(s[..n], i, x, cmp);
    } else {
      assert Swapped(s, i)[..n][..n - 1] == s[..n][..n - 1];
    }
  }

  /** Swapping neighbours in the wrong order takes away exactly one inversion. */
  lemma {:induction false} SwapRemovesOne<T(!new)>(s: seq<T>, i: nat, cmp: (T, T) -> int)
    requires TotalPreorder(cmp) && i + 1 < |s| && cmp(s[i], s[i + 1]) > 0
    ensures Inversions(Swapped(s, i), cmp) == Inversions(s, cmp) - 1
  {
    var n := |s| - 1;
    var t := Swapped(s, i);
    if i + 1 < n {
      assert t[..n] == Swapped(s[..n], i);
      SwapRemovesOne(s[..n], i, cmp);
      GreaterSwapped(s[..n], i, s[n], cmp);
    } else {
      assert t[..n][..n - 1] == s[..n][..n - 1];
      assert t[..n][n - 1] == s[n] && s[..n][n - 1] == s[n - 1];
    }
  }

  /** Neighbours in order put the whole sequence in order. */
  lemma {:induction false} NeighboursSuffice<T(!new)>(s: seq<T>, i: nat, j: nat, cmp: (T, T) -> int)
    requires TotalPreorder(cmp) && i < j < |s| && forall k :: 0 <= k && k + 1 < |s| ==> cmp(s[k], s[k + 1]) <= 0
    ensures cmp(s[i], s[j]) <= 0
  {
    if i + 1 < j {
      NeighboursSuffice(s, i, j - 1, cmp);
      assert cmp(s[j - 1], s[j - 1 + 1]) <= 0;
    }
  }

  /** No two elements `gap` apart, up to index `n`, are in the wrong order. */
  ghost predicate GapOrdered<T>(s: seq<T>, gap: nat, n: nat, cmp: (T, T) -> int) {
    forall k, l :: 0 <= k < n && l == k + gap && l < |s| ==> cmp(s[k], s[l]) <= 0
  }

  lemma NoneCompared<T>(s: seq<T>, gap: nat, cmp: (T, T) -> int)
    ensures GapOrdered(s, gap, 0, cmp)
  {
  }

  lemma OneCompared<T>(s: seq<T>, gap: nat, i: nat, cmp: (T, T) -> int)
    requires GapOrdered(s, gap, i, cmp) && i + gap < |s| && cmp(s[i], s[i + gap]) <= 0
    ensures GapOrdered(s, gap, i + 1, cmp)
  {
  }

  lemma ExchangeKeepsElements<T>(s: seq<T>, i: nat, j: nat)
    requires i < |s| && j < |s|
    ensures multiset(Exchanged(s, i, j)) == multiset(s)
  {
  }

  method MemSwap<T>(a: array<T>, i: nat, j: nat)
    requires i < a.Length && j < a.Length
    modifies a
    ensures a[..] == Exchanged(old(a[..]), i, j)
  {
    a[i], a[j] := a[j], a[i];
  }

  /** One pass with the given gap. */
  method Pass<T(!new)>(a: array<T>, gap: nat, cmp: (T, T) -> int) returns (swapped: bool)
    requires TotalPreorder(cmp) && 1 <= gap <= a.Length
    modifies a
    ensures multiset(a[..]) == multiset(old(a[..]))
    ensures !swapped ==> a[..] == old(a[..]) && GapOrdered(a[..], gap, a.Length - gap, cmp)
    ensures swapped && gap == 1 ==> Inversions(a[..], cmp) < Inversions(old(a[..]), cmp)
  {
    hide TotalPreorder, Inversions, Greater, Exchanged, GapOrdered;
    ghost var before, now := a[..], a[..];
    swapped := false;
    NoneCompared(before, gap, cmp);
    var i := 0;
    while i < a.Length - gap
      invariant 0 <= i <= a.Length - gap && now == a[..] && multiset(now) == multiset(before)
      invariant !swapped ==> now == before && GapOrdered(now, gap, i, cmp)
      invariant swapped && gap == 1 ==> Inversions(now, cmp) < Inversions(before, cmp)
    {
      var j := i + gap;
      if cmp(a[i], a[j]) > 0 {
        ExchangeKeepsElements(now, i, j);
        if gap == 1 {
          SwapRemovesOne(now, i, cmp);
        }
        MemSwap(a, i, j);
        now := a[..];
        swapped := true;
      } else if !swapped {
        OneCompared(now, gap, i, cmp);
      }
      i := i + 1;
    }
  }

  /** Sorts the array: it ends in order, with the elements it had. */
  method Sort<T(!new)>(a: array<T>, cmp: (T, T) -> int)
    requires TotalPreorder(cmp) && a.Length < WORD
    modifies a
    ensures Sorted(a[..], cmp) && multiset(a[..]) == multiset(old(a[..]))
  {
    var gap := a.Length;
    if a.Length == 0 {
      return;
    }
    var swapped := true;
    while gap > 1 || swapped
      invariant 1 <= gap <= a.Length && multiset(a[..]) == multiset(old(a[..]))
      invariant gap == 1 && !swapped ==> GapOrdered(a[..], 1, a.Length - 1, cmp)
      decreases gap, if gap == 1 && swapped then Inversions(a[..], cmp) + 1 else 0
    {
      GapShrinks(gap);
      ghost var oldGap := gap;
      gap := NewGap(gap);
      swapped := Pass(a, gap, cmp);
    }
    forall i, j | 0 <= i < j < a.Length
      ensures cmp(a[i], a[j]) <= 0
    {
      NeighboursSuffice(a[..], i, j, cmp);
    }
  }
}
