/** Substring search with the two shift distances of the "Not So Naive" algorithm. */
module MemMem {
  import opened Bytes
  import opened Options

  /** The needle occurs at position `j`. */
  predicate OccursAt(y: seq<byte>, x: seq<byte>, j: nat) {
    j + |x| <= |y| && y[j..j + |x|] == x
  }

  /** The position of the first occurrence of a needle; an empty needle is never found. */
  method Search(y: seq<byte>, x: seq<byte>) returns (r: Option<nat>)
    ensures x == [] ==> r == None
    ensures r.Some? ==> OccursAt(y, x, r.value) && forall j: nat :: j < r.value ==> !OccursAt(y, x, j)
    ensures x != [] && r == None ==> forall j: nat :: !OccursAt(y, x, j)
  {
    var n, m := |y|, |x|;
    if m > n || m == 0 || n == 0 {
      return None;
    }
    if m != 1 {
      var k, l := 1, 2;
      if x[0] == x[1] {
        k, l := 2, 1;
      }
      var j := 0;
      while j <= n - m
        invariant forall i: nat :: i < j ==> !OccursAt(y, x, i)
      {
        if x[1] != y[j + 1] {
          SkipAfterMismatch(y, x, j);
          j := j + k;
        } else {
          if x[2..] == y[j + 2..j + m] && x[0] == y[j] {
            assert y[j..j + m] == [y[j], y[j + 1]] + y[j + 2..j + m];
            assert x == [x[0], x[1]] + x[2..];
            return Some(j);
          }
          SkipAfterMatch(y, x, j);
          j := j + l;
        }
      }
    } else {
      var j := 0;
      while j < n
        invariant j <= n && forall i: nat :: i < j ==> !OccursAt(y, x, i)
      {
        if y[j] == x[0] {
          assert y[j..j + 1] == x;
          return Some(j);
        }
        j := j + 1;
      }
    }
    return None;
  }

  lemma OccursByte(y: seq<byte>, x: seq<byte>, j: nat, i: nat)
    requires OccursAt(y, x, j) && i < |x|
    ensures y[j + i] == x[i]
  {
    assert y[j..j + |x|][i] == y[j + i];
  }

  lemma OccursTail(y: seq<byte>, x: seq<byte>, j: nat)
    requires OccursAt(y, x, j) && |x| >= 2
    ensures y[j] == x[0] && y[j + 2..j + |x|] == x[2..]
  {
    OccursByte(y, x, j, 0);
    assert y[j..j + |x|][2..] == y[j + 2..j + |x|];
  }

  /** The second byte differs: no occurrence here, nor one further on if the first two bytes agree. */
  lemma SkipAfterMismatch(y: seq<byte>, x: seq<byte>, j: nat)
    requires |x| >= 2 && j + |x| <= |y| && x[1] != y[j + 1]
    ensures !OccursAt(y, x, j) && (x[0] == x[1] ==> !OccursAt(y, x, j + 1))
  {
    if OccursAt(y, x, j) {
      OccursByte(y, x, j, 1);
    }
    if OccursAt(y, x, j + 1) {
      OccursByte(y, x, j + 1, 0);
    }
  }

  /** The second byte agrees but the rest does not: none here, nor one further on if the first two
      bytes differ. */
  lemma SkipAfterMatch(y: seq<byte>, x: seq<byte>, j: nat)
    requires |x| >= 2 && j + |x| <= |y| && x[1] == y[j + 1] && !(x[2..] == y[j + 2..j + |x|] && x[0] == y[j])
    ensures !OccursAt(y, x, j) && (x[0] != x[1] ==> !OccursAt(y, x, j + 1))
  {
    if OccursAt(y, x, j) {
      OccursTail(y, x, j);
    }
    if OccursAt(y, x, j + 1) {
      OccursByte(y, x, j + 1, 0);
    }
  }
}
