/** Allocating and freeing in heap memory, header by header. */
module Malloc {
  import opened Heap

  class Arena {
    const words: array<Head>      // the header word at each byte offset of the reserved range
    var size: nat                 // bytes of the range that are backed by memory
    ghost var chunks: seq<Head>

    ghost predicate Laid()
      reads this, words
    {
      SizesOk(chunks) && Tiled(words[..], 0, chunks) && Total(chunks) + HEADER <= size <= words.Length
    }

    ghost predicate Valid()
      reads this, words
    {
      Laid() && Canonical(chunks)
    }

    /** An empty heap. */
    constructor (words: array<Head>, initial: nat)
      requires HEADER <= initial <= words.Length && words[0] == END_MARK
      ensures Valid() && this.words == words && size == initial && chunks == []
    {
      this.words := words;
      size := initial;
      chunks := [];
    }

    /** Swallows the free chunks behind the free chunk at `pos`. */
    method Swallow(pos: nat, ghost done: seq<Head>, ghost rest: seq<Head>) returns (ended: bool, ghost tail: seq<Head>)
      requires Laid() && chunks == done + rest && rest != [] && !rest[0].used && pos == Total(done)
      modifies this`chunks, words
      ensures Laid() && BlocksKept(old(words[..]), words[..], Live(old(chunks), 0)) &&
              Live(chunks, 0) == Live(old(chunks), 0)
      ensures ended ==> chunks == done && Merged(rest) == []
      ensures !ended ==> chunks == done + tail && Merged(tail) == Merged(rest) && |tail| <= |rest|
      ensures !ended ==> |tail| >= 2 && !tail[0].used && tail[1].used
    {
      hide Tiled, Headers, Live, Total, SizesOk, Canonical, Merged, BlocksKept;
      ghost var w, live := words[..], Live(chunks, 0);
      tail := rest;
      AtChunk(w, done, tail);
      var nextPos := pos + words[pos].size;
      KeptNone(w, live);
      while true
        invariant Laid() && chunks == done + tail && tail != [] && !tail[0].used && |tail| <= |rest|
        invariant Merged(tail) == Merged(rest) && Live(chunks, 0) == live && BlocksKept(w, words[..], live)
        invariant nextPos == pos + tail[0].size
        decreases |tail|
      {
        ghost var was := words[..];
        AtChunk(was, done, tail);
        AtSecond(was, done, tail);
        var next := words[nextPos];
        if next.used {
          return false, tail;
        }
        if next.size == 0 {
          words[pos] := END_MARK;
          chunks := done;
          DropLast(was, words[..], done, tail, live);
          KeptTrans(w, was, words[..], live);
          return true, [];
        }
        words[pos] := Free(words[pos].size + next.size);
        nextPos := nextPos + next.size;
        JoinTwo(was, words[..], done, tail, live);
        KeptTrans(w, was, words[..], live);
        tail := [Free(tail[0].size + tail[1].size)] + tail[2..];
        chunks := done + tail;
      }
    }

    /** Joins neighbouring free chunks and gives a free end back. */
    method MergeFreeChunks()
      requires Laid()
      modifies this`chunks, words
      ensures Laid() && chunks == Merged(old(chunks))
      ensures BlocksKept(old(words[..]), words[..], Live(old(chunks), 0))
    {
      hide Tiled, Headers, Live, Total, SizesOk, Canonical, Merged, BlocksKept;
      ghost var w, all, live := words[..], chunks, Live(chunks, 0);
      KeptNone(w, live);
      ghost var done, rest := [], chunks;
      var pos := 0;
      NothingDone(chunks);
      while true
        invariant Laid() && chunks == done + rest && pos == Total(done) && Merged(all) == done + Merged(rest)
        invariant Live(chunks, 0) == live && BlocksKept(w, words[..], live)
        decreases |rest|
      {
        AtAny(words[..], done, rest);
        if words[pos].size == 0 {
          MergedNone(rest);
          break;
        }
        if !words[pos].used {
          ghost var was := words[..];
          var ended;
          ghost var tail;
          ended, tail := Swallow(pos, done, rest);
          KeptTrans(w, was, words[..], live);
          if ended {
            return;
          }
          rest := tail;
          AtAny(words[..], done, rest);
        }
        MergedStep(rest);
        pos := pos + words[pos].size;
        StepOn(done, rest);
        done, rest := done + [rest[0]], rest[1..];
        if pos >= size {
          TotalJoin(done, rest);
          assert false;
        }
      }
    }

    /** Frees the block at `addr`, which is chunk `k`; a chunk that is free already stays as it is. */
    method FreeBlock(addr: nat, ghost k: nat)
      requires Valid() && k < |chunks| && addr == Total(chunks[..k]) + HEADER
      modifies this`chunks, words
      ensures Valid()
      ensures chunks == if old(chunks)[k].used then Merged(old(chunks)[k := Free(old(chunks)[k].size)]) else old(chunks)
      ensures Live(chunks, 0) == Live(old(chunks), 0) - {Block(addr - HEADER, old(chunks)[k].size)}
      ensures BlocksKept(old(words[..]), words[..], Live(chunks, 0))
    {
      hide Tiled, Headers, Live, Total, SizesOk, Canonical, Merged, BlocksKept;
      ghost var w, before := words[..], chunks;
      var pos := addr - HEADER;
      AtChunkNumber(w, chunks, k);
      if !words[pos].used {
        KeptNone(w, Live(chunks, 0));
        NotUsed(chunks, k);
        return;
      }
      ghost var freed := chunks[k := Free(chunks[k].size)];
      words[pos] := Free(words[pos].size);
      FreedLive(chunks, k);
      MarkFree(w, words[..], chunks, k);
      chunks := freed;
      ghost var v := words[..];
      MergeFreeChunks();
      MergedCanonical(freed);
      MergedLive(freed, 0);
      KeptTrans(w, v, words[..], Live(freed, 0));
    }

    /** Takes `need` bytes of the free chunk `i` at `pos`, or of the end of the heap. */
    method TakeAt(pos: nat, need: nat, ghost i: nat)
      requires Valid() && SizeOk(need) && i <= |chunks| && pos == Total(chunks[..i]) && pos + need + HEADER <= size
      requires i < |chunks| ==> Fits(chunks[i], need)
      modifies this`chunks, words
      ensures Valid() && chunks == Allocated(old(chunks), i, need)
      ensures BlocksKept(old(words[..]), words[..], Live(old(chunks), 0))
    {
      hide Tiled, Headers, Live, Total, SizesOk, Canonical, BlocksKept, Allocated;
      ghost var w := words[..];
      AtChunkNumber(w, chunks, i);
      assert i == |chunks| ==> chunks[..i] == chunks;
      AllocatedIs(chunks, i, need);
      var c := words[pos];
      if c.size == 0 {
        words[pos] := Head(need, true);
        words[pos + need] := END_MARK;
        TakeEnd(w, words[..], chunks, need);
      } else {
        var diff := c.size - need;
        if diff >= 8 {
          words[pos + need] := Free(diff);
          words[pos] := Head(need, true);
        } else {
          words[pos] := Head(c.size, true);
        }
        TakeChunk(w, words[..], chunks, i, need);
      }
      chunks := Allocated(chunks, i, need);
    }

    /** Looks for the first free chunk that fits, extending the heap for each chunk it passes. */
    method FindFit(need: nat) returns (pos: nat, ghost i: nat)
      requires Valid() && Total(chunks) + need + HEADER <= words.Length
      modifies this`size
      ensures Valid() && size >= old(size) && pos + need + HEADER <= size
      ensures i == FirstFit(chunks, need) <= |chunks| && pos == Total(chunks[..i])
      ensures i < |chunks| ==> Fits(chunks[i], need)
    {
      hide Tiled, Headers, Live, Total, SizesOk, Canonical, FirstFit, Fits;
      ghost var w, cs := words[..], chunks;
      pos, i := 0, 0;
      NothingDone(cs);
      while true
        invariant Valid() && size >= old(size)
        invariant i <= FirstFit(cs, need) && pos == Total(cs[..i])
        decreases |cs| - i
      {
        AtChunkNumber(w, cs, i);
        FitsHere(cs, i, need);
        if pos + need + HEADER > size {
          size := pos + need + HEADER;
        }
        var c := words[pos];
        if !c.used && (c.size >= need || c.size == 0) {
          return;
        }
        pos := pos + c.size;
        i := i + 1;
      }
    }

    /** Hands out a block of at least `bytes` bytes behind its header, in the first chunk it fits in. */
    method Allocate(bytes: nat) returns (addr: nat)
      requires Valid() && Total(chunks) + RealSize(bytes) + HEADER <= words.Length
      modifies this, words
      ensures Valid() && size >= old(size)
      ensures var i := FirstFit(old(chunks), RealSize(bytes));
              chunks == Allocated(old(chunks), i, RealSize(bytes)) && addr == Total(old(chunks)[..i]) + HEADER
      ensures Live(chunks, 0) == Live(old(chunks), 0) + {Block(addr - HEADER, RealSize(bytes))}
      ensures Block(addr - HEADER, RealSize(bytes)) !in Live(old(chunks), 0)
      ensures BlocksKept(old(words[..]), words[..], Live(old(chunks), 0))
    {
      hide Tiled, Headers, Live, Total, SizesOk, Canonical, BlocksKept, Allocated, FirstFit;
      var need := RealSize(bytes);
      ghost var i;
      var pos;
      pos, i := FindFit(need);
      AllocatedIs(chunks, i, need);
      TakeAt(pos, need, i);
      return pos + HEADER;
    }
  }
}
