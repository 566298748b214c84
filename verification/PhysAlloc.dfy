/** The allocator of physical page frames: one bit a frame. */
module PhysAlloc {
  import opened Bytes
  import opened Options

  const BITMAP_BYTES: nat := 16384
  const PAGE: nat := 0x1000
  const FRAMES: nat := 8 * BITMAP_BYTES

  function Mask(i: nat): bv8
    requires i < 8
  {
    match i case 0 => 1 case 1 => 2 case 2 => 4 case 3 => 8 case 4 => 16 case 5 => 32 case 6 => 64 case 7 => 128
  }

  /** Bit `i` of a byte. */
  predicate Bit(b: bv8, i: nat)
    requires i < 8
  {
    b & Mask(i) != 0
  }

  function SetBit(b: bv8, i: nat, used: bool): bv8
    requires i < 8
  {
    var ones: bv8 := if used then 0xFF else 0;
    b ^ ((ones ^ b) & Mask(i))
  }

  lemma SetBitIs(b: bv8, i: nat, used: bool, k: nat)
    requires i < 8 && k < 8
    ensures Bit(SetBit(b, i, used), k) == if k == i then used else Bit(b, k)
  {
  }

  lemma FullByte(b: bv8, i: nat)
    requires i < 8
    ensures b == 0xFF ==> Bit(b, i)
    ensures b != 0xFF ==> exists k :: 0 <= k < 8 && !Bit(b, k)
  {
    if forall k :: 0 <= k < 8 ==> Bit(b, k) {
      assert Bit(b, 0) && Bit(b, 1) && Bit(b, 2) && Bit(b, 3) && Bit(b, 4) && Bit(b, 5) && Bit(b, 6) && Bit(b, 7);
    }
  }

  /** Frames whose bit is set. */
  ghost function UsedFrames(bm: seq<bv8>): set<nat> {
    set f: nat | f < 8 * |bm| && Bit(bm[f / 8], f % 8)
  }

  /** Setting one bit changes the set by one frame. */
  lemma OneBit(bm: seq<bv8>, f: nat, used: bool)
    requires f < 8 * |bm|
    ensures var bm' := bm[f / 8 := SetBit(bm[f / 8], f % 8, used)];
            UsedFrames(bm') == if used then UsedFrames(bm) + {f} else UsedFrames(bm) - {f}
  {
    hide Bit, SetBit;
    var bm' := bm[f / 8 := SetBit(bm[f / 8], f % 8, used)];
    forall g: nat | g < 8 * |bm|
      ensures Bit(bm'[g / 8], g % 8) == if g == f then used else Bit(bm[g / 8], g % 8)
    {
      if g / 8 == f / 8 {
        SetBitIs(bm[f / 8], f % 8, used, g % 8);
        assert g % 8 == f % 8 ==> g == f;
      }
    }
  }

  lemma NoFrames(bm: seq<bv8>)
    requires forall b :: 0 <= b < |bm| ==> bm[b] == 0
    ensures UsedFrames(bm) == {}
  {
  }

  lemma InByte(b: nat, i: nat)
    requires i < 8
    ensures (8 * b + i) / 8 == b && (8 * b + i) % 8 == i
  {
  }

  lemma Address(f: nat)
    ensures f * 0x1000 / PAGE == f && f * 0x1000 % PAGE == 0
  {
  }

  /** The frames of bitmap byte `b`. */
  lemma ByteFrames(bm: seq<bv8>, b: nat)
    requires b < |bm|
    ensures forall g: nat :: 8 * b <= g < 8 * b + 8 ==> (g in UsedFrames(bm) <==> Bit(bm[b], g - 8 * b))
    ensures bm[b] == 0xFF ==> forall g: nat :: 8 * b <= g < 8 * b + 8 ==> g in UsedFrames(bm)
  {
    hide Bit;
    forall g: nat | 8 * b <= g < 8 * b + 8
      ensures g in UsedFrames(bm) <==> Bit(bm[b], g - 8 * b)
      ensures bm[b] == 0xFF ==> g in UsedFrames(bm)
    {
      InByte(b, g - 8 * b);
      FullByte(bm[b], g - 8 * b);
    }
  }

  class FrameAllocator {
    const bitmap: array<bv8>
    var frameMin: dword
    var frameMax: dword
    var total: nat

    /** Frames in use. */
    ghost function Used(): set<nat>
      reads bitmap
    {
      UsedFrames(bitmap[..])
    }

    ghost predicate Valid()
      reads this, bitmap
    {
      && bitmap.Length == BITMAP_BYTES && frameMax / 8 <= BITMAP_BYTES && (frameMax % 8 != 0 ==> frameMax >= 8)
      && total == |Used()|
    }

    function First(): (start: nat)
      reads this
      ensures frameMin <= 8 * start < frameMin + 8
    {
      frameMin / 8 + (if frameMin % 8 != 0 then 1 else 0)
    }

    function Last(): (end: nat)
      reads this
      requires frameMax % 8 != 0 ==> frameMax >= 8
      ensures frameMax % 8 == 0 ==> 8 * end == frameMax
      ensures frameMax % 8 != 0 ==> frameMax - 16 < 8 * end < frameMax - 8
    {
      frameMax / 8 - (if frameMax % 8 != 0 then 1 else 0)
    }

    /** The frames the allocator hands out: whole bitmap bytes inside the bounds. */
    ghost predicate Managed(f: nat)
      reads this
      requires frameMax % 8 != 0 ==> frameMax >= 8
    {
      8 * First() <= f < 8 * Last()
    }

    constructor (memLow: dword, memHigh: dword)
      requires memHigh / 0x1000 / 8 <= BITMAP_BYTES && (memHigh / 0x1000 % 8 != 0 ==> memHigh / 0x1000 >= 8)
      ensures Valid() && Used() == {} && fresh(bitmap)
      ensures forall f: nat :: Managed(f) ==> f * PAGE + PAGE <= memHigh
      ensures memLow <= 0xFFFF_F000 ==> forall f: nat :: Managed(f) ==> memLow <= f * PAGE
    {
      frameMin := (memLow + 0xFFF) % 0x1_0000_0000 / 0x1000;
      frameMax := memHigh / 0x1000;
      total := 0;
      bitmap := new bv8[BITMAP_BYTES](_ => 0);
      new;
      NoFrames(bitmap[..]);
    }

    /** Takes the lowest free frame of bitmap byte `b`. */
    method TakeFrom(b: nat) returns (f: nat)
      requires Valid() && b < BITMAP_BYTES && bitmap[b] != 0xFF
      modifies this`total, bitmap
      ensures Valid() && 8 * b <= f < 8 * b + 8
      ensures f !in old(Used()) && Used() == old(Used()) + {f}
      ensures forall g: nat :: 8 * b <= g < f ==> g in old(Used())
    {
      hide Bit, SetBit, UsedFrames;
      ghost var was := bitmap[..];
      var byte := bitmap[b];
      FullByte(byte, 0);
      ByteFrames(was, b);
      var i := 0;
      while Bit(byte, i)
        invariant 0 <= i < 8 && forall k :: 0 <= k < i ==> Bit(byte, k)
        decreases 8 - i
      {
        i := i + 1;
        if i == 8 {
          assert false;
        }
      }
      f := 8 * b + i;
      InByte(b, i);
      OneBit(was, f, true);
      bitmap[b] := SetBit(byte, i, true);
      assert bitmap[..] == was[b := SetBit(byte, i, true)];
      total := total + 1;
      forall g: nat | 8 * b <= g < f
        ensures g in UsedFrames(was)
      {
        assert Bit(byte, g - 8 * b);
      }
    }

    /** The lowest free managed frame becomes used; there is none only when all of them are used. */
    method Alloc() returns (r: Option<dword>)
      requires Valid()
      modifies this`total, bitmap
      ensures Valid()
      ensures r == None ==> Used() == old(Used()) && forall f: nat :: Managed(f) ==> f in Used()
      ensures r.Some? ==>
                var f := r.value / PAGE;
                && r.value % PAGE == 0 && Managed(f) && f !in old(Used()) && Used() == old(Used()) + {f}
                && forall g: nat :: Managed(g) && g < f ==> g in old(Used())
    {
      hide Bit, UsedFrames;
      var start, end := First(), Last();
      ghost var used := Used();
      var b := start;
      while b < end
        invariant start <= b && Valid() && Used() == used
        invariant forall g: nat :: 8 * start <= g < 8 * b ==> g in used
      {
        ByteFrames(bitmap[..], b);
        if bitmap[b] != 0xFF {
          var f := TakeFrom(b);
          Address(f);
          return Some(f * 0x1000);
        }
        b := b + 1;
      }
      return None;
    }

    /** A used frame becomes free. */
    method Free(addr: dword)
      requires Valid() && addr / PAGE in Used()
      modifies this`total, bitmap
      ensures Valid() && Used() == old(Used()) - {addr / PAGE}
    {
      hide Bit, SetBit;
      var f := addr / 0x1000;
      OneBit(bitmap[..], f, false);
      ghost var was := bitmap[..];
      bitmap[f / 8] := SetBit(bitmap[f / 8], f % 8, false);
      assert bitmap[..] == was[f / 8 := SetBit(was[f / 8], f % 8, false)];
      total := total - 1;
    }
  }
}
