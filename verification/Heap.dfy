/** The split-and-merge heap of the kernel and of the user library. */
module Heap {

  const HEADER: nat := 16

  /** The header word in front of a chunk; size 0 marks the end. */
  datatype Head = Head(size: nat, used: bool)

  const END_MARK: Head := Head(0, false)

  /** A block in use: where its header lies, and its size with the header. */
  datatype Block = Block(at: nat, size: nat)

  predicate SizeOk(size: nat) {
    size >= HEADER && size % HEADER == 0
  }

  predicate SizesOk(chunks: seq<Head>) {
    forall i :: 0 <= i < |chunks| ==> SizeOk(chunks[i].size)
  }

  function Total(chunks: seq<Head>): nat {
    if chunks == [] then 0 else chunks[0].size + Total(chunks[1..])
  }

  lemma {:induction false} TotalJoin(a: seq<Head>, b: seq<Head>)
    ensures Total(a + b) == Total(a) + Total(b)
  {
    if a == [] {
      assert a + b == b;
    } else {
      assert (a + b)[1..] == a[1..] + b;
      TotalJoin(a[1..], b);
    }
  }

  /** The headers of the chunks stand one behind the other from `pos` on. */
  predicate Headers(w: seq<Head>, pos: nat, chunks: seq<Head>)
    decreases |chunks|
  {
    chunks == [] || (pos < |w| && w[pos] == chunks[0] && Headers(w, pos + chunks[0].size, chunks[1..]))
  }

  /** The chunks tile the heap from `pos` on, up to the end mark. */
  predicate Tiled(w: seq<Head>, pos: nat, chunks: seq<Head>) {
    var end := pos + Total(chunks);
    Headers(w, pos, chunks) && end < |w| && w[end] == END_MARK
  }

  lemma {:induction false} HeadersJoin(w: seq<Head>, pos: nat, a: seq<Head>, b: seq<Head>)
    ensures Headers(w, pos, a + b) <==> Headers(w, pos, a) && Headers(w, pos + Total(a), b)
    decreases |a|
  {
    if a == [] {
      assert a + b == b;
    } else {
      assert (a + b)[1..] == a[1..] + b;
      HeadersJoin(w, pos + a[0].size, a[1..], b);
    }
  }

  /** Headers depend only on the words of their range. */
  lemma {:induction false} HeadersKept(w: seq<Head>, w': seq<Head>, pos: nat, chunks: seq<Head>)
    requires SizesOk(chunks) && Headers(w, pos, chunks) && |w'| == |w|
    requires forall x :: pos <= x < pos + Total(chunks) && x < |w| ==> w'[x] == w[x]
    ensures Headers(w', pos, chunks)
    decreases |chunks|
  {
    if chunks != [] {
      HeadersKept(w, w', pos + chunks[0].size, chunks[1..]);
    }
  }

  /** The blocks in use, for chunks that begin at `pos`. */
  function Live(chunks: seq<Head>, pos: nat): set<Block> {
    if chunks == [] then {}
    else (if chunks[0].used then {Block(pos, chunks[0].size)} else {}) + Live(chunks[1..], pos + chunks[0].size)
  }

  lemma {:induction false} LiveJoin(a: seq<Head>, b: seq<Head>, pos: nat)
    ensures Live(a + b, pos) == Live(a, pos) + Live(b, pos + Total(a))
  {
    if a == [] {
      assert a + b == b;
    } else {
      assert (a + b)[1..] == a[1..] + b;
      LiveJoin(a[1..], b, pos + a[0].size);
    }
  }

  /** Blocks in use lie inside the range of their chunks, aligned. */
  lemma {:induction false} LiveInside(chunks: seq<Head>, pos: nat, b: Block)
    requires SizesOk(chunks) && b in Live(chunks, pos)
    ensures pos <= b.at && b.at + b.size <= pos + Total(chunks) && b.size >= HEADER
    ensures pos % HEADER == 0 ==> b.at % HEADER == 0
  {
    if b != Block(pos, chunks[0].size) || !chunks[0].used {
      Aligned(pos, chunks[0].size);
      LiveInside(chunks[1..], pos + chunks[0].size, b);
    }
  }

  lemma Aligned(a: nat, b: nat)
    requires b % HEADER == 0
    ensures a % HEADER == 0 ==> (a + b) % HEADER == 0
  {
  }

  /** Two blocks in use do not overlap. */
  lemma {:induction false} LiveDisjoint(chunks: seq<Head>, pos: nat, a: Block, b: Block)
    requires SizesOk(chunks) && a in Live(chunks, pos) && b in Live(chunks, pos) && a != b
    ensures a.at + a.size <= b.at || b.at + b.size <= a.at
  {
    var rest, next := chunks[1..], pos + chunks[0].size;
    if a in Live(rest, next) {
      LiveInside(rest, next, a);
      if b in Live(rest, next) {
        LiveDisjoint(rest, next, a, b);
      }
    } else {
      LiveInside(rest, next, b);
    }
  }

  /** No two free chunks are neighbours, and the last chunk is in use. */
  predicate Canonical(chunks: seq<Head>) {
    && (forall i :: 0 <= i < |chunks| - 1 ==> chunks[i].used || chunks[i + 1].used)
    && (chunks != [] ==> chunks[|chunks| - 1].used)
  }

  // ---- Allocation ----

  /** The chunk size for a request: header included, rounded up. */
  function RealSize(bytes: nat): (r: nat)
    ensures r % HEADER == 0 && bytes + HEADER <= r < bytes + 2 * HEADER
  {
    var n := bytes + HEADER;
    if n % HEADER != 0 then n + (HEADER - n % HEADER) else n
  }

  predicate Fits(c: Head, need: nat) {
    !c.used && c.size >= need
  }

  /** The first chunk a request fits in, or the number of chunks. */
  function FirstFit(chunks: seq<Head>, need: nat): (r: nat)
    ensures r <= |chunks| && (r < |chunks| ==> Fits(chunks[r], need))
    ensures forall i :: 0 <= i < r ==> !Fits(chunks[i], need)
  {
    if chunks == [] || Fits(chunks[0], need) then 0 else 1 + FirstFit(chunks[1..], need)
  }

  lemma FitsHere(chunks: seq<Head>, i: nat, need: nat)
    requires SizesOk(chunks) && i <= FirstFit(chunks, need)
    ensures var c := if i == |chunks| then END_MARK else chunks[i];
            i == FirstFit(chunks, need) <==> !c.used && (c.size >= need || c.size == 0)
  {
  }

  /** Chunk `i`, or the end mark behind the last chunk, becomes a chunk in use. */
  function Allocated(chunks: seq<Head>, i: nat, need: nat): seq<Head>
    requires i <= |chunks| && (i < |chunks| ==> chunks[i].size >= need)
  {
    if i == |chunks| then chunks + [Head(need, true)]
    else if chunks[i].size - need >= 8 then
      chunks[..i] + [Head(need, true), Head(chunks[i].size - need, false)] + chunks[i + 1..]
    else chunks[..i] + [Head(chunks[i].size, true)] + chunks[i + 1..]
  }

  /** Allocation adds exactly one block, of exactly the rounded size, and keeps the heap canonical. */
  lemma AllocatedIs(chunks: seq<Head>, i: nat, need: nat)
    requires SizesOk(chunks) && Canonical(chunks) && SizeOk(need)
    requires i <= |chunks| && (i < |chunks| ==> Fits(chunks[i], need))
    ensures SizesOk(Allocated(chunks, i, need)) && Canonical(Allocated(chunks, i, need))
    ensures Live(Allocated(chunks, i, need), 0) == Live(chunks, 0) + {Block(Total(chunks[..i]), need)}
    ensures Block(Total(chunks[..i]), need) !in Live(chunks, 0)
  {
    hide Canonical, Live, Total, Allocated, SizesOk, SizeOk, Taken;
    AllocatedCanonical(chunks, i, need);
    var a := chunks[..i];
    if i == |chunks| {
      assert a == chunks;
      AllocatedEnd(chunks, need);
    } else {
      assert chunks == a + [chunks[i]] + chunks[i + 1..];
      AllocatedIn(a, chunks[i], chunks[i + 1..], need);
      AllocatedParts(chunks, i, need);
    }
  }

  lemma AllocatedParts(chunks: seq<Head>, i: nat, need: nat)
    requires i < |chunks| && chunks[i].size >= need && (chunks[i].size == need || chunks[i].size - need >= HEADER)
    ensures Allocated(chunks, i, need) == chunks[..i] + Taken(chunks[i].size, need) + chunks[i + 1..]
  {
  }

  /** What becomes of a chunk that is taken: all of it is used, or its tail stays free. */
  function Taken(size: nat, need: nat): seq<Head>
    requires size >= need
  {
    if size == need then [Head(need, true)] else [Head(need, true), Head(size - need, false)]
  }

  lemma AllocatedEnd(chunks: seq<Head>, need: nat)
    requires SizesOk(chunks) && SizeOk(need)
    ensures Live(Allocated(chunks, |chunks|, need), 0) == Live(chunks, 0) + {Block(Total(chunks), need)}
    ensures Block(Total(chunks), need) !in Live(chunks, 0)
  {
    hide SizesOk, Live, Total, Canonical;
    LiveJoin(chunks, [Head(need, true)], 0);
    LiveUsed(need, need, Total(chunks));
    if Block(Total(chunks), need) in Live(chunks, 0) {
      LiveInside(chunks, 0, Block(Total(chunks), need));
    }
  }

  lemma AllocatedIn(a: seq<Head>, c: Head, b: seq<Head>, need: nat)
    requires SizesOk(a + [c] + b) && Fits(c, need) && SizeOk(need)
    ensures c.size == need || c.size - need >= HEADER
    ensures Live(a + Taken(c.size, need) + b, 0) == Live(a + [c] + b, 0) + {Block(Total(a), need)}
    ensures Block(Total(a), need) !in Live(a + [c] + b, 0)
  {
    var all := a + [c] + b;
    assert all[|a|] == c;
    Multiple(c.size, need);
    assert SizesOk(a) by {
      assert forall i :: 0 <= i < |a| ==> a[i] == all[i];
    }
    assert SizesOk(b) by {
      assert forall i :: 0 <= i < |b| ==> b[i] == all[|a| + 1 + i];
    }
    hide SizesOk, Live, Total;
    LiveMiddle(a, [c], b);
    LiveMiddle(a, Taken(c.size, need), b);
    LiveFree(c, Total(a));
    LiveUsed(need, c.size, Total(a));
    NotLive(a, c, b, need);
  }

  lemma LiveFree(c: Head, p: nat)
    requires !c.used
    ensures Live([c], p) == {} && Total([c]) == c.size
  {
  }

  lemma LiveUsed(need: nat, size: nat, p: nat)
    requires size >= need
    ensures Live([Head(need, true)], p) == {Block(p, need)} && Total([Head(need, true)]) == need
    ensures Live(Taken(size, need), p) == {Block(p, need)} && Total(Taken(size, need)) == size
  {
    LiveJoin([Head(need, true)], [Head(size - need, false)], p);
    TotalJoin([Head(need, true)], [Head(size - need, false)]);
    assert [Head(need, true)] + [Head(size - need, false)] == [Head(need, true), Head(size - need, false)];
  }

  lemma LiveMiddle(a: seq<Head>, m: seq<Head>, b: seq<Head>)
    ensures Live(a + m + b, 0) == Live(a, 0) + Live(m, Total(a)) + Live(b, Total(a) + Total(m))
    ensures Total(a + m + b) == Total(a) + Total(m) + Total(b)
  {
    LiveJoin(a + m, b, 0);
    LiveJoin(a, m, 0);
    TotalJoin(a + m, b);
    TotalJoin(a, m);
  }

  lemma NotLive(a: seq<Head>, c: Head, b: seq<Head>, need: nat)
    requires SizesOk(a) && SizesOk(b) && !c.used && c.size > 0
    ensures Block(Total(a), need) !in Live(a, 0) && Block(Total(a), need) !in Live(b, Total(a) + c.size)
  {
    var x := Block(Total(a), need);
    if x in Live(a, 0) {
      LiveInside(a, 0, x);
    }
    if x in Live(b, Total(a) + c.size) {
      LiveInside(b, Total(a) + c.size, x);
    }
  }

  lemma AllocatedCanonical(chunks: seq<Head>, i: nat, need: nat)
    requires SizesOk(chunks) && Canonical(chunks) && SizeOk(need)
    requires i <= |chunks| && (i < |chunks| ==> Fits(chunks[i], need))
    ensures SizesOk(Allocated(chunks, i, need)) && Canonical(Allocated(chunks, i, need))
  {
    hide SizeOk, SizesOk, Canonical, Allocated;
    if i == |chunks| {
      EndCanonical(chunks, need);
    } else {
      SizeAt(chunks, i);
      Multiple(chunks[i].size, need);
      if chunks[i].size == need {
        WholeCanonical(chunks, i, need);
      } else {
        SizeAtLeast(chunks[i].size - need);
        SplitCanonical(chunks, i, need);
      }
    }
  }

  lemma SizeAtLeast(n: nat)
    requires SizeOk(n)
    ensures n >= HEADER
  {
  }

  lemma EndCanonical(chunks: seq<Head>, need: nat)
    requires SizesOk(chunks) && Canonical(chunks) && SizeOk(need)
    ensures SizesOk(Allocated(chunks, |chunks|, need)) && Canonical(Allocated(chunks, |chunks|, need))
  {
    hide SizeOk;
    CanonicalSnoc(chunks, Head(need, true));
  }

  lemma CanonicalSnoc(chunks: seq<Head>, c: Head)
    requires Canonical(chunks) && c.used
    ensures Canonical(chunks + [c])
  {
  }

  lemma WholeCanonical(chunks: seq<Head>, i: nat, need: nat)
    requires SizesOk(chunks) && Canonical(chunks) && SizeOk(need) && i < |chunks| && chunks[i].size == need
    ensures SizesOk(Allocated(chunks, i, need)) && Canonical(Allocated(chunks, i, need))
  {
    hide SizeOk;
    assert Allocated(chunks, i, need) == chunks[i := Head(need, true)];
  }

  lemma SplitCanonical(chunks: seq<Head>, i: nat, need: nat)
    requires SizesOk(chunks) && Canonical(chunks) && SizeOk(need) && i < |chunks| && !chunks[i].used
    requires chunks[i].size - need >= HEADER && SizeOk(chunks[i].size - need)
    ensures SizesOk(Allocated(chunks, i, need)) && Canonical(Allocated(chunks, i, need))
  {
    hide SizeOk;
    var next := Allocated(chunks, i, need);
    assert |next| == |chunks| + 1 && next[i] == Head(need, true) && next[i + 1] == Head(chunks[i].size - need, false);
    assert forall k :: 0 <= k < i ==> next[k] == chunks[k];
    assert forall k :: i + 2 <= k < |next| ==> next[k] == chunks[k - 1];
    forall k | 0 <= k < |next| - 1
      ensures next[k].used || next[k + 1].used
    {
      if k >= i + 1 {
        assert chunks[k - 1].used || chunks[k - 1 + 1].used;
      } else if k < i - 1 {
        assert chunks[k].used || chunks[k + 1].used;
      }
    }
  }

  lemma Multiple(size: nat, need: nat)
    requires size >= need && SizeOk(size) && SizeOk(need)
    ensures size == need || SizeOk(size - need)
  {
  }

  // ---- Freeing ----

  function Free(size: nat): Head {
    Head(size, false)
  }

  /** Neighbouring free chunks become one; free chunks at the end become part of the end. */
  function Merged(chunks: seq<Head>): seq<Head>
    decreases |chunks|
  {
    if chunks == [] then []
    else if chunks[0].used then [chunks[0]] + Merged(chunks[1..])
    else if |chunks| == 1 then []
    else if chunks[1].used then [chunks[0]] + Merged(chunks[1..])
    else Merged([Free(chunks[0].size + chunks[1].size)] + chunks[2..])
  }

  lemma {:induction false} MergedSizes(chunks: seq<Head>)
    requires SizesOk(chunks)
    ensures SizesOk(Merged(chunks)) && Total(Merged(chunks)) <= Total(chunks)
    decreases |chunks|
  {
    if chunks == [] {
    } else if chunks[0].used || (|chunks| > 1 && chunks[1].used) {
      MergedSizes(chunks[1..]);
      TotalJoin([chunks[0]], Merged(chunks[1..]));
    } else if |chunks| > 1 {
      var next := [Free(chunks[0].size + chunks[1].size)] + chunks[2..];
      SumOk(chunks[0].size, chunks[1].size);
      assert SizesOk(next);
      assert next[1..] == chunks[2..] == chunks[1..][1..];
      MergedSizes(next);
    }
  }

  lemma SumOk(a: nat, b: nat)
    requires SizeOk(a) && SizeOk(b)
    ensures SizeOk(a + b)
  {
  }

  /** Merging leaves every block in use where it is. */
  lemma {:induction false} MergedLive(chunks: seq<Head>, pos: nat)
    ensures Live(Merged(chunks), pos) == Live(chunks, pos)
    decreases |chunks|
  {
    if chunks == [] {
    } else if chunks[0].used || (|chunks| > 1 && chunks[1].used) {
      MergedLive(chunks[1..], pos + chunks[0].size);
      assert ([chunks[0]] + Merged(chunks[1..]))[1..] == Merged(chunks[1..]);
    } else if |chunks| == 1 {
      assert chunks[1..] == [];
    } else {
      var next := [Free(chunks[0].size + chunks[1].size)] + chunks[2..];
      assert next[1..] == chunks[2..] == chunks[1..][1..];
      MergedLive(next, pos);
    }
  }

  /** Merging makes any heap canonical. */
  lemma {:induction false} MergedCanonical(chunks: seq<Head>)
    ensures Canonical(Merged(chunks))
    ensures Merged(chunks) != [] && chunks[0].used ==> Merged(chunks)[0].used
    decreases |chunks|
  {
    if chunks == [] {
    } else if chunks[0].used || (|chunks| > 1 && chunks[1].used) {
      MergedCanonical(chunks[1..]);
      UsedStays(chunks[1..]);
      CanonicalCons(chunks[0], Merged(chunks[1..]));
    } else if |chunks| > 1 {
      MergedCanonical([Free(chunks[0].size + chunks[1].size)] + chunks[2..]);
    }
  }

  lemma UsedStays(chunks: seq<Head>)
    ensures chunks != [] && chunks[0].used ==> Merged(chunks) != [] && Merged(chunks)[0] == chunks[0]
  {
  }

  lemma CanonicalCons(c: Head, rest: seq<Head>)
    requires Canonical(rest) && (c.used || (rest != [] && rest[0].used))
    ensures Canonical([c] + rest)
  {
    var all := [c] + rest;
    forall i | 0 <= i < |all| - 1
      ensures all[i].used || all[i + 1].used
    {
      if i > 0 {
        assert rest[i - 1].used || rest[i - 1 + 1].used;
      }
    }
  }

  /** Freeing chunk `k` takes exactly its block out of use. */
  lemma FreedLive(chunks: seq<Head>, k: nat)
    requires SizesOk(chunks) && k < |chunks| && chunks[k].used
    ensures var b := Block(Total(chunks[..k]), chunks[k].size);
            b in Live(chunks, 0) && Live(chunks[k := Free(chunks[k].size)], 0) == Live(chunks, 0) - {b}
  {
    var a, c, b := chunks[..k], chunks[k], chunks[k + 1..];
    var p := Total(a);
    assert chunks == a + [c] + b && chunks[k := Free(c.size)] == a + [Free(c.size)] + b;
    assert SizesOk(a) && SizesOk(b);
    LiveMiddle(a, [c], b);
    LiveMiddle(a, [Free(c.size)], b);
    LiveFree(Free(c.size), p);
    assert Live([c], p) == {Block(p, c.size)} && Total([c]) == c.size;
    hide Live, Total;
    if Block(p, c.size) in Live(a, 0) {
      LiveInside(a, 0, Block(p, c.size));
    }
    if Block(p, c.size) in Live(b, p + c.size) {
      LiveInside(b, p + c.size, Block(p, c.size));
    }
  }

  // ---- What single writes do ----

  lemma SizesParts(a: seq<Head>, m: seq<Head>, b: seq<Head>)
    requires SizesOk(a + m + b)
    ensures SizesOk(a) && SizesOk(m) && SizesOk(b)
  {
    var all := a + m + b;
    hide SizeOk;
    forall i | 0 <= i < |a|
      ensures SizeOk(a[i].size)
    {
      assert a[i] == all[i];
    }
    forall i | 0 <= i < |m|
      ensures SizeOk(m[i].size)
    {
      assert m[i] == all[|a| + i];
    }
    forall i | 0 <= i < |b|
      ensures SizeOk(b[i].size)
    {
      assert b[i] == all[|a| + |m| + i];
    }
  }

  /** Chunks that are rewritten inside their own range leave the rest of the heap tiled. */
  lemma ReplaceTiled(w: seq<Head>, w': seq<Head>, a: seq<Head>, m: seq<Head>, n: seq<Head>, b: seq<Head>)
    requires SizesOk(a + m + b) && Tiled(w, 0, a + m + b) && |w'| == |w| && Total(n) == Total(m)
    requires forall x :: 0 <= x < |w| && !(Total(a) <= x < Total(a) + Total(m)) ==> w'[x] == w[x]
    requires Headers(w', Total(a), n)
    ensures Tiled(w', 0, a + n + b)
  {
    hide SizesOk, SizeOk, Headers, Total;
    SizesParts(a, m, b);
    HeadersThree(w, a, m, b);
    HeadersThree(w', a, n, b);
    HeadersKept(w, w', 0, a);
    HeadersKept(w, w', Total(a) + Total(m), b);
  }

  lemma HeadersThree(w: seq<Head>, a: seq<Head>, m: seq<Head>, b: seq<Head>)
    ensures Total(a + m + b) == Total(a) + Total(m) + Total(b)
    ensures Headers(w, 0, a + m + b) <==>
              Headers(w, 0, a) && Headers(w, Total(a), m) && Headers(w, Total(a) + Total(m), b)
  {
    hide Headers, Total;
    TotalJoin(a + m, b);
    TotalJoin(a, m);
    HeadersJoin(w, 0, a + m, b);
    HeadersJoin(w, 0, a, m);
  }

  /** The header of the chunk behind `a`. */
  lemma HeaderAt(w: seq<Head>, a: seq<Head>, c: Head, b: seq<Head>)
    requires Tiled(w, 0, a + [c] + b)
    ensures Total(a) < |w| && w[Total(a)] == c
    ensures Total(a + [c] + b) == Total(a) + c.size + Total(b) && Total(a + [c]) == Total(a) + c.size
  {
    LiveMiddle(a, [c], b);
    HeadersJoin(w, 0, a + [c], b);
    HeadersJoin(w, 0, a, [c]);
    TotalJoin(a, [c]);
    assert [c][1..] == [];
  }

  /** No block in use reaches into a free chunk. */
  lemma FreeNotLive(a: seq<Head>, c: Head, b: seq<Head>, x: Block, y: nat)
    requires SizesOk(a + [c] + b) && !c.used && x in Live(a + [c] + b, 0) && Total(a) <= y < Total(a) + c.size
    ensures !(x.at <= y < x.at + x.size)
  {
    hide Live, Total, SizesOk, SizeOk;
    SizesParts(a, [c], b);
    LiveMiddle(a, [c], b);
    LiveFree(c, Total(a));
    if x in Live(a, 0) {
      LiveInside(a, 0, x);
    } else {
      LiveInside(b, Total(a) + c.size, x);
    }
  }

  /** Nor beyond the last chunk. */
  lemma EndNotLive(chunks: seq<Head>, x: Block, y: nat)
    requires SizesOk(chunks) && x in Live(chunks, 0) && y >= Total(chunks)
    ensures !(x.at <= y < x.at + x.size)
  {
    LiveInside(chunks, 0, x);
  }

  /** The words of all blocks in `live` are as they were. */
  ghost predicate BlocksKept(w: seq<Head>, w': seq<Head>, live: set<Block>) {
    |w'| == |w| &&
    forall b, y {:trigger b in live, w'[y]} :: b in live && 0 <= y < |w| && b.at <= y < b.at + b.size ==> w'[y] == w[y]
  }

  lemma KeptNone(w: seq<Head>, live: set<Block>)
    ensures BlocksKept(w, w, live)
  {
  }

  lemma KeptTrans(w: seq<Head>, x: seq<Head>, y: seq<Head>, live: set<Block>)
    requires BlocksKept(w, x, live) && BlocksKept(x, y, live)
    ensures BlocksKept(w, y, live)
  {
    forall b, i {:trigger b in live, y[i]} | b in live && 0 <= i < |w| && b.at <= i < b.at + b.size
      ensures y[i] == w[i]
    {
      assert x[i] == w[i];
    }
  }

  /** Where chunk `tail[0]` lies. */
  lemma AtChunk(w: seq<Head>, done: seq<Head>, tail: seq<Head>)
    requires SizesOk(done + tail) && Tiled(w, 0, done + tail) && tail != []
    ensures Total(done) + tail[0].size < |w| && w[Total(done)] == tail[0] && tail[0].size >= HEADER
  {
    assert done + tail == done + [tail[0]] + tail[1..];
    HeaderAt(w, done, tail[0], tail[1..]);
    assert (done + tail)[|done|] == tail[0];
  }

  /** What stands behind it: another chunk or the end mark. */
  lemma AtSecond(w: seq<Head>, done: seq<Head>, tail: seq<Head>)
    requires SizesOk(done + tail) && Tiled(w, 0, done + tail) && tail != []
    ensures var p := Total(done) + tail[0].size;
            && p < |w| && w[p] == (if |tail| > 1 then tail[1] else END_MARK)
            && (|tail| > 1 ==> tail[1].size >= HEADER && p + tail[1].size < |w|)
  {
    var front := done + [tail[0]];
    assert done + tail == front + tail[1..];
    TotalJoin(done, [tail[0]]);
    assert [tail[0]][1..] == [];
    if |tail| > 1 {
      AtChunk(w, front, tail[1..]);
    } else {
      assert done + tail == front;
    }
  }

  /** The last chunk, free, becomes the end mark. */
  lemma DropLast(w: seq<Head>, w': seq<Head>, done: seq<Head>, tail: seq<Head>, live: set<Block>)
    requires SizesOk(done + tail) && Tiled(w, 0, done + tail) && |tail| == 1 && !tail[0].used &&
             live == Live(done + tail, 0)
    requires Total(done) < |w| && w' == w[Total(done) := END_MARK]
    ensures SizesOk(done) && Tiled(w', 0, done) && Total(done) <= Total(done + tail)
    ensures Live(done, 0) == live && BlocksKept(w, w', live) && Merged(tail) == []
  {
    hide Live, Total, Headers, SizesOk, SizeOk;
    assert done + tail == done + [tail[0]] + [];
    SizesParts(done, [tail[0]], []);
    LiveMiddle(done, [tail[0]], []);
    LiveFree(tail[0], Total(done));
    LiveNone(Total(done) + tail[0].size);
    AtChunk(w, done, tail);
    HeadersThree(w, done, [tail[0]], []);
    HeadersKept(w, w', 0, done);
    OneWrite(w, w', done, tail[0], [], live);
  }

  lemma LiveNone(pos: nat)
    ensures Live([], pos) == {}
  {
  }

  /** Writing the header of a free chunk touches no block in use. */
  lemma OneWrite(w: seq<Head>, w': seq<Head>, done: seq<Head>, c: Head, b: seq<Head>, live: set<Block>)
    requires SizesOk(done + [c] + b) && !c.used && c.size > 0 && live == Live(done + [c] + b, 0)
    requires Total(done) < |w| == |w'| && forall x :: 0 <= x < |w| && x != Total(done) ==> w'[x] == w[x]
    ensures BlocksKept(w, w', live)
  {
    hide Live, Total, SizesOk;
    forall k, y {:trigger k in live, w'[y]} | k in live && 0 <= y < |w| && k.at <= y < k.at + k.size
      ensures w'[y] == w[y]
    {
      FreeNotLive(done, c, b, k, Total(done));
    }
  }

  /** A free chunk takes in its free neighbour. */
  lemma JoinTwo(w: seq<Head>, w': seq<Head>, done: seq<Head>, tail: seq<Head>, live: set<Block>)
    requires SizesOk(done + tail) && Tiled(w, 0, done + tail) && |tail| >= 2 && !tail[0].used && !tail[1].used
    requires live == Live(done + tail, 0)
    requires Total(done) < |w| && w' == w[Total(done) := Free(tail[0].size + tail[1].size)]
    ensures var next := [Free(tail[0].size + tail[1].size)] + tail[2..];
            && SizesOk(done + next) && Tiled(w', 0, done + next) && Total(done + next) == Total(done + tail)
            && Live(done + next, 0) == live && BlocksKept(w, w', live) && Merged(next) == Merged(tail)
  {
    hide Live, Total, Headers, SizesOk, SizeOk;
    var two, one, rest := [tail[0], tail[1]], [Free(tail[0].size + tail[1].size)], tail[2..];
    assert done + tail == done + two + rest && done + (one + rest) == done + one + rest;
    assert done + tail == done + [tail[0]] + tail[1..];
    SizesParts(done, two, rest);
    TwoFree(tail[0], tail[1], Total(done));
    SizesBack(done, one, rest);
    OneHeader(w', Total(done), one[0]);
    SizesFirst(tail[0], tail[1]);
    ReplaceTiled(w, w', done, two, one, rest);
    LiveMiddle(done, two, rest);
    LiveMiddle(done, one, rest);
    OneWrite(w, w', done, tail[0], tail[1..], live);
  }

  lemma SizesFirst(c: Head, d: Head)
    requires SizesOk([c, d])
    ensures c.size > 0 && d.size > 0
  {
    assert [c, d][0] == c && [c, d][1] == d;
  }

  lemma OneHeader(w: seq<Head>, pos: nat, c: Head)
    ensures Headers(w, pos, [c]) <==> pos < |w| && w[pos] == c
  {
    assert [c][1..] == [];
  }

  lemma TwoFree(c: Head, d: Head, pos: nat)
    requires !c.used && !d.used && SizesOk([c, d])
    ensures var one := [Free(c.size + d.size)];
            && SizesOk(one) && Total(one) == Total([c, d]) == c.size + d.size
            && Live(one, pos) == {} == Live([c, d], pos)
  {
    assert [c, d][1..] == [d] && [d][1..] == [];
    assert [c, d][0] == c && [c, d][1] == d;
    SumOk(c.size, d.size);
  }

  lemma SizesBack(a: seq<Head>, m: seq<Head>, b: seq<Head>)
    requires SizesOk(a) && SizesOk(m) && SizesOk(b)
    ensures SizesOk(a + m + b)
  {
    hide SizeOk;
  }

  /** A chunk that stays: in use, or free with a used one behind it. */
  lemma MergedStep(tail: seq<Head>)
    requires tail != [] && (tail[0].used || (|tail| > 1 && tail[1].used))
    ensures Merged(tail) == [tail[0]] + Merged(tail[1..])
  {
  }

  /** Allocating at the end mark. */
  lemma TakeEnd(w: seq<Head>, w': seq<Head>, chunks: seq<Head>, need: nat)
    requires SizesOk(chunks) && Tiled(w, 0, chunks) && SizeOk(need) && Total(chunks) + need < |w|
    requires w' == w[Total(chunks) := Head(need, true)][Total(chunks) + need := END_MARK]
    ensures var next := Allocated(chunks, |chunks|, need);
            Tiled(w', 0, next) && Total(next) == Total(chunks) + need && BlocksKept(w, w', Live(chunks, 0))
  {
    hide Live, Total, Headers, SizesOk;
    var next := chunks + [Head(need, true)];
    OneHeader(w', Total(chunks), Head(need, true));
    LiveUsed(need, need, 0);
    TotalJoin(chunks, [Head(need, true)]);
    HeadersJoin(w', 0, chunks, [Head(need, true)]);
    HeadersKept(w, w', 0, chunks);
    forall b, y {:trigger b in Live(chunks, 0), w'[y]} |
        b in Live(chunks, 0) && 0 <= y < |w| && b.at <= y < b.at + b.size
      ensures w'[y] == w[y]
    {
      EndNotLive(chunks, b, Total(chunks));
      EndNotLive(chunks, b, Total(chunks) + need);
    }
  }

  /** The headers written for a free chunk that is taken. */
  ghost predicate Takes(w: seq<Head>, w': seq<Head>, p: nat, size: nat, need: nat) {
    && need <= size && p + size < |w|
    && w' ==
       if size - need >= 8 then w[p + need := Free(size - need)][p := Head(need, true)] else w[p := Head(size, true)]
  }

  /** Allocating in a free chunk. */
  lemma TakeChunk(w: seq<Head>, w': seq<Head>, chunks: seq<Head>, i: nat, need: nat)
    requires SizesOk(chunks) && Tiled(w, 0, chunks) && SizeOk(need) && i < |chunks| && Fits(chunks[i], need)
    requires Takes(w, w', Total(chunks[..i]), chunks[i].size, need)
    ensures var next := Allocated(chunks, i, need);
            Tiled(w', 0, next) && Total(next) == Total(chunks) && BlocksKept(w, w', Live(chunks, 0))
  {
    hide Live, Total, Headers, SizesOk, Allocated, Takes, BlocksKept, Tiled;
    assert chunks == chunks[..i] + [chunks[i]] + chunks[i + 1..];
    SizeAt(chunks, i);
    Multiple(chunks[i].size, need);
    AllocatedParts(chunks, i, need);
    TakeIn(w, w', chunks[..i], chunks[i], chunks[i + 1..], need);
  }

  lemma TakeIn(w: seq<Head>, w': seq<Head>, a: seq<Head>, c: Head, b: seq<Head>, need: nat)
    requires SizesOk(a + [c] + b) && Tiled(w, 0, a + [c] + b) && SizeOk(need) && Fits(c, need)
    requires c.size == need || c.size - need >= HEADER
    requires Takes(w, w', Total(a), c.size, need)
    ensures var next := a + Taken(c.size, need) + b;
            Tiled(w', 0, next) && Total(next) == Total(a + [c] + b) && BlocksKept(w, w', Live(a + [c] + b, 0))
  {
    hide Live, Total, Headers, SizesOk, Tiled, Taken;
    LiveFree(c, Total(a));
    LiveUsed(need, c.size, Total(a));
    TakenHeaders(w', Total(a), c.size, need);
    ReplaceTiled(w, w', a, [c], Taken(c.size, need), b);
    LiveMiddle(a, [c], b);
    LiveMiddle(a, Taken(c.size, need), b);
    var live := Live(a + [c] + b, 0);
    forall k, y {:trigger k in live, w'[y]} | k in live && 0 <= y < |w| && k.at <= y < k.at + k.size
      ensures w'[y] == w[y]
    {
      FreeNotLive(a, c, b, k, Total(a));
      FreeNotLive(a, c, b, k, if c.size > need then Total(a) + need else Total(a));
    }
  }

  lemma SizeAt(chunks: seq<Head>, i: nat)
    requires SizesOk(chunks) && i < |chunks|
    ensures SizeOk(chunks[i].size)
  {
  }

  lemma TakenHeaders(w: seq<Head>, p: nat, size: nat, need: nat)
    requires size >= need && p + size < |w| && w[p] == Head(need, true)
    requires size == need || (size > need && w[p + need] == Free(size - need))
    ensures Headers(w, p, Taken(size, need))
  {
    var t := Taken(size, need);
    if size != need {
      assert t[1..] == [Free(size - need)];
      OneHeader(w, p + need, Free(size - need));
    } else {
      OneHeader(w, p, t[0]);
    }
  }

  lemma NothingDone(chunks: seq<Head>)
    ensures Total([]) == 0 && [] + chunks == chunks && [] + Merged(chunks) == Merged(chunks) && chunks[..0] == []
  {
  }

  lemma MergedNone(rest: seq<Head>)
    ensures Merged([]) == []
  {
  }

  /** What stands behind the chunks `done`: the next chunk or the end mark. */
  lemma AtAny(w: seq<Head>, done: seq<Head>, rest: seq<Head>)
    requires SizesOk(done + rest) && Tiled(w, 0, done + rest)
    ensures Total(done) < |w| && w[Total(done)] == if rest == [] then END_MARK else rest[0]
    ensures rest != [] ==> rest[0].size >= HEADER
  {
    if rest == [] {
      assert done + rest == done;
    } else {
      AtChunk(w, done, rest);
    }
  }

  lemma StepOn(done: seq<Head>, rest: seq<Head>)
    requires rest != []
    ensures Total(done + [rest[0]]) == Total(done) + rest[0].size && done + rest == done + [rest[0]] + rest[1..]
    ensures Total(done + [rest[0]]) <= Total(done + rest)
  {
    TotalJoin(done, [rest[0]]);
    TotalJoin(done + [rest[0]], rest[1..]);
    assert [rest[0]][1..] == [];
    assert done + rest == done + [rest[0]] + rest[1..];
  }

  /** What stands where chunk `i` lies, and where the next one lies. */
  lemma AtChunkNumber(w: seq<Head>, chunks: seq<Head>, i: nat)
    requires SizesOk(chunks) && Tiled(w, 0, chunks) && i <= |chunks|
    ensures var p := Total(chunks[..i]);
            && p < |w| && p <= Total(chunks) && w[p] == (if i == |chunks| then END_MARK else chunks[i])
            && (i < |chunks| ==>
                  chunks[i].size >= HEADER && Total(chunks[..i + 1]) == p + chunks[i].size <= Total(chunks))
  {
    assert chunks == chunks[..i] + chunks[i..];
    AtAny(w, chunks[..i], chunks[i..]);
    TotalJoin(chunks[..i], chunks[i..]);
    if i < |chunks| {
      StepOn(chunks[..i], chunks[i..]);
      assert chunks[..i + 1] == chunks[..i] + [chunks[i]];
    } else {
      assert chunks[..i] == chunks;
    }
  }

  /** A chunk that is not in use is no block. */
  lemma NotUsed(chunks: seq<Head>, k: nat)
    requires SizesOk(chunks) && k < |chunks| && !chunks[k].used
    ensures Live(chunks, 0) - {Block(Total(chunks[..k]), chunks[k].size)} == Live(chunks, 0)
  {
    var a, c, b := chunks[..k], chunks[k], chunks[k + 1..];
    var x := Block(Total(a), c.size);
    assert chunks == a + [c] + b;
    hide Live, Total, SizesOk;
    SizeAt(chunks, k);
    if x in Live(chunks, 0) {
      FreeNotLive(a, c, b, x, Total(a));
    }
  }

  /** Clearing the used bit of chunk `k`. */
  lemma MarkFree(w: seq<Head>, w': seq<Head>, chunks: seq<Head>, k: nat)
    requires SizesOk(chunks) && Tiled(w, 0, chunks) && k < |chunks| && Total(chunks[..k]) < |w|
    requires w' == w[Total(chunks[..k]) := Free(chunks[k].size)]
    ensures var freed := chunks[k := Free(chunks[k].size)];
            SizesOk(freed) && Tiled(w', 0, freed) && Total(freed) == Total(chunks) && BlocksKept(w, w', Live(freed, 0))
  {
    var a, c, b := chunks[..k], chunks[k], chunks[k + 1..];
    var freed := chunks[k := Free(c.size)];
    assert chunks == a + [c] + b && freed == a + [Free(c.size)] + b;
    hide Live, Total, Headers, SizeOk;
    SizesParts(a, [c], b);
    OneHeader(w', Total(a), Free(c.size));
    OneTotal(c);
    OneTotal(Free(c.size));
    SizeAt(chunks, k);
    hide SizesOk;
    ReplaceTiled(w, w', a, [c], [Free(c.size)], b);
    LiveMiddle(a, [c], b);
    LiveMiddle(a, [Free(c.size)], b);
    OneWrite(w, w', a, Free(c.size), b, Live(freed, 0));
  }

  lemma OneTotal(c: Head)
    ensures Total([c]) == c.size
  {
    assert [c][1..] == [];
  }
}
