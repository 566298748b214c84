/** The file allocation table as it lies on the disk: the geometry of a volume, the
    FAT12/16/32 entry codec, and the mirror copy. */
module FatTable {
  import opened Bytes

  datatype FatType = Fat12 | Fat16 | Fat32

  /** The part of the filesystem object that mounting fixes. Sector numbers count from
      the start of the drive, sizes are in sectors. */
  datatype Geometry = Geometry(
    fsType: FatType,
    nFats: nat,      // number of FAT copies
    csize: nat,      // sectors per cluster
    fsize: nat,      // sectors per FAT copy
    nFatent: nat,    // number of clusters + 2
    volbase: nat,
    fatbase: nat,
    database: nat,
    dirbase: nat)

  const MAX_FAT12: nat := 0xFF5
  const MAX_FAT16: nat := 0xFFF5
  const MAX_FAT32: nat := 0x0FFF_FFF5

  function MaxClusters(t: FatType): nat {
    match t
    case Fat12 => MAX_FAT12
    case Fat16 => MAX_FAT16
    case Fat32 => MAX_FAT32
  }

  /** One more than the largest value an entry can hold. */
  function EntryLimit(t: FatType): (r: nat)
    ensures r > MaxClusters(t) + 2
  {
    match t
    case Fat12 => 0x1000
    case Fat16 => 0x1_0000
    case Fat32 => 0x1000_0000
  }

  /** What an entry of this width keeps of a value stored in it. */
  function EntryValue(t: FatType, val: dword): (r: nat)
    ensures r < EntryLimit(t)
    ensures val as int < EntryLimit(t) ==> r == val as int
    ensures val == 0xFFFF_FFFF ==> r == EndOfChain(t)
  {
    match t
    case Fat12 => val as int % 0x1000
    case Fat16 => val as int % 0x1_0000
    case Fat32 => val as int % 0x1000_0000
  }

  /** The end-of-chain mark as an entry of this width holds it. */
  function EndOfChain(t: FatType): nat {
    EntryLimit(t) - 1
  }

  /** Byte offset of the first byte of entry `c`, and the number of bytes that hold it. */
  function EntryOffset(t: FatType, c: nat): nat {
    match t
    case Fat12 => c + c / 2
    case Fat16 => 2 * c
    case Fat32 => 4 * c
  }

  function EntryBytes(t: FatType): nat {
    if t == Fat32 then 4 else 2
  }

  predicate ClusterSizeOk(n: nat) {
    n == 1 || n == 2 || n == 4 || n == 8 || n == 16 || n == 32 || n == 64 || n == 128
  }

  /** Sectors taken by all FAT copies. */
  function FatSectors(g: Geometry): nat {
    if g.nFats == 2 then g.fsize + g.fsize else g.fsize
  }

  /** The FAT copies lie inside a drive of `sectors` sectors and hold every entry. */
  ghost predicate FatFits(g: Geometry, sectors: nat) {
    && 1 <= g.nFats <= 2
    && 0 < g.fatbase
    && g.fatbase + FatSectors(g) <= sectors
    && 3 <= g.nFatent <= MaxClusters(g.fsType) + 2
    && EntryOffset(g.fsType, g.nFatent - 1) + EntryBytes(g.fsType) <= g.fsize * SECTOR_SIZE
  }

  /** The layout a mounted volume has on a drive of `sectors` sectors. */
  ghost predicate GeometryOk(g: Geometry, sectors: nat) {
    && FatFits(g, sectors)
    && ClusterSizeOk(g.csize)
    && g.fatbase + FatSectors(g) <= g.database
    && g.database + g.csize * (g.nFatent - 2) <= sectors
    && sectors * SECTOR_SIZE <= 0x1_0000_0000
  }

  /** Sectors of the first FAT. */
  predicate InFat1(g: Geometry, s: nat) {
    g.fatbase <= s < g.fatbase + g.fsize
  }

  /** Sectors of any FAT copy. */
  predicate InFats(g: Geometry, s: nat) {
    g.fatbase <= s < g.fatbase + FatSectors(g)
  }

  /** The first FAT as one run of bytes. */
  function FatBytes(g: Geometry, d: seq<Sector>): (b: seq<byte>)
    requires FatFits(g, |d|)
    ensures |b| == g.fsize * SECTOR_SIZE
  {
    seq(g.fsize * SECTOR_SIZE, x requires 0 <= x < g.fsize * SECTOR_SIZE =>
      d[g.fatbase + x / SECTOR_SIZE][x % SECTOR_SIZE])
  }

  /** The bytes `b` are enough for entry `c`. */
  predicate HasEntry(t: FatType, b: seq<byte>, c: nat) {
    EntryOffset(t, c) + EntryBytes(t) <= |b|
  }

  /** The bytes that hold entry `c`. */
  function EntrySlice(t: FatType, b: seq<byte>, c: nat): (s: seq<byte>)
    requires HasEntry(t, b, c)
    ensures |s| == EntryBytes(t)
  {
    b[EntryOffset(t, c)..EntryOffset(t, c) + EntryBytes(t)]
  }

  /** The value of entry number `c` held in bytes `b`, as the on-disk format defines it. */
  function Decode(t: FatType, c: nat, b: seq<byte>): (r: nat)
    requires |b| == EntryBytes(t)
    ensures r < EntryLimit(t)
  {
    match t
    case Fat12 => if c % 2 == 1 then LdWord(b, 0) / 16 else LdWord(b, 0) % 4096
    case Fat16 => LdWord(b, 0)
    case Fat32 => LdDword(b, 0) % 0x1000_0000
  }

  // A FAT12 entry shares a byte with its neighbour, whose nibble must stay.

  function FirstByte12(c: nat, p: byte, val: dword): byte {
    if c % 2 == 1 then p as int % 16 + 16 * (val as int % 16) else val as int % 256
  }

  function SecondByte12(c: nat, p: byte, val: dword): byte {
    if c % 2 == 1 then val as int / 16 % 256 else 16 * (p as int / 16) + val as int / 256 % 16
  }

  /** A FAT32 store keeps the top four bits of the old word. */
  function Merge32(raw: dword, val: dword): dword {
    0x1000_0000 * (raw as int / 0x1000_0000) + val as int % 0x1000_0000
  }

  /** The bytes of entry `c` after `val` is stored. */
  function Encode(t: FatType, c: nat, b: seq<byte>, val: dword): (r: seq<byte>)
    requires |b| == EntryBytes(t)
    ensures |r| == |b|
  {
    match t
    case Fat12 => [FirstByte12(c, b[0], val), SecondByte12(c, b[1], val)]
    case Fat16 => WordBytes(val)
    case Fat32 => DwordBytes(Merge32(LdDword(b, 0), val))
  }

  lemma DecodeEncode(t: FatType, c: nat, b: seq<byte>, val: dword)
    requires |b| == EntryBytes(t)
    ensures Decode(t, c, Encode(t, c, b, val)) == EntryValue(t, val)
  {
    match t
    case Fat12 =>
      if c % 2 == 0 {
        DecodeEncodeEven(c, b, val);
      } else {
        DecodeEncodeOdd(c, b, val);
      }
    case Fat16 =>
    case Fat32 => TopBitsKept(c, b, val);
  }

  lemma DecodeEncodeEven(c: nat, b: seq<byte>, val: dword)
    requires |b| == 2 && c % 2 == 0
    ensures Decode(Fat12, c, Encode(Fat12, c, b, val)) == val as int % 4096
  {
    var v: int := val;
    Mod4096(v);
    var lo, hi, k := v % 256, v / 256 % 16, b[1] as int / 16;
    assert LdWord(Encode(Fat12, c, b, val), 0) == (lo + 256 * hi) + 4096 * k;
  }

  lemma DecodeEncodeOdd(c: nat, b: seq<byte>, val: dword)
    requires |b| == 2 && c % 2 == 1
    ensures Decode(Fat12, c, Encode(Fat12, c, b, val)) == val as int % 4096
  {
    var v: int := val;
    var h, k := v % 16 + 16 * (v / 16 % 256), b[0] as int % 16;
    assert LdWord(Encode(Fat12, c, b, val), 0) == k + 16 * h;
    Div16(k, h);
    Mod4096Low(v);
  }

  /** A FAT32 store reads back the low 28 bits and keeps the top four. */
  lemma TopBitsKept(c: nat, b: seq<byte>, val: dword)
    requires |b| == 4
    ensures Decode(Fat32, c, Encode(Fat32, c, b, val)) == val as int % 0x1000_0000
    ensures LdDword(Encode(Fat32, c, b, val), 0) as int / 0x1000_0000 == LdDword(b, 0) as int / 0x1000_0000
  {
    hide LdDword, DwordBytes;
    var h, l := LdDword(b, 0) as int / 0x1000_0000, val as int % 0x1000_0000;
    assert LdDword(Encode(Fat32, c, b, val), 0) as int == 0x1000_0000 * h + l;
  }

  lemma Div16(k: nat, h: nat)
    requires k < 16
    ensures (k + 16 * h) / 16 == h
  {
  }

  lemma Mod4096Low(v: nat)
    ensures v % 4096 == v % 16 + 16 * (v / 16 % 256)
  {
  }

  lemma Mod4096(v: nat)
    ensures v % 4096 == v % 256 + 256 * (v / 256 % 16)
  {
  }

  /** The value of entry `c` of the table in `b`. */
  function EntryIn(t: FatType, b: seq<byte>, c: nat): (r: nat)
    requires HasEntry(t, b, c)
    ensures r < EntryLimit(t)
  {
    Decode(t, c, EntrySlice(t, b, c))
  }

  lemma EntryInFat(g: Geometry, d: seq<Sector>, c: nat)
    requires FatFits(g, |d|) && c < g.nFatent
    ensures HasEntry(g.fsType, FatBytes(g, d), c)
  {
  }

  /** The whole table as an array of entries. */
  function FatOf(g: Geometry, d: seq<Sector>): (f: seq<nat>)
    requires FatFits(g, |d|)
    ensures |f| == g.nFatent
    ensures forall c :: 0 <= c < g.nFatent ==>
              HasEntry(g.fsType, FatBytes(g, d), c) && f[c] == EntryIn(g.fsType, FatBytes(g, d), c)
  {
    seq(g.nFatent, c requires 0 <= c < g.nFatent => EntryInFat(g, d, c); EntryIn(g.fsType, FatBytes(g, d), c))
  }

  /** The table is in the sectors of the first FAT. */
  lemma SameFat(g: Geometry, d: seq<Sector>, d': seq<Sector>)
    requires FatFits(g, |d|) && |d'| == |d|
    requires forall s :: 0 <= s < |d| && InFat1(g, s) ==> d'[s] == d[s]
    ensures FatOf(g, d') == FatOf(g, d)
  {
    forall x | 0 <= x < g.fsize * SECTOR_SIZE
      ensures FatBytes(g, d')[x] == FatBytes(g, d)[x]
    {
      assert InFat1(g, g.fatbase + x / SECTOR_SIZE);
    }
    assert FatBytes(g, d') == FatBytes(g, d);
  }

  /** Both FAT copies are the same. */
  ghost predicate Mirrored(g: Geometry, d: seq<Sector>)
    requires FatFits(g, |d|)
  {
    g.nFats == 2 ==> forall s: nat :: InFat1(g, s) ==> d[s] == d[s + g.fsize]
  }

  /** FAT copies that agree still do. */
  ghost predicate MirrorKept(g: Geometry, d: seq<Sector>, d': seq<Sector>) {
    |d'| == |d| && FatFits(g, |d|) && Mirrored(g, d) ==> Mirrored(g, d')
  }

  lemma MirrorUntouched(g: Geometry, d: seq<Sector>, d': seq<Sector>)
    requires |d'| == |d| && forall s :: 0 <= s < |d| && InFats(g, s) ==> d'[s] == d[s]
    ensures MirrorKept(g, d, d')
  {
    if FatFits(g, |d|) && Mirrored(g, d) && g.nFats == 2 {
      forall s: nat | InFat1(g, s)
        ensures d'[s] == d'[s + g.fsize]
      {
        assert InFats(g, s) && InFats(g, s + g.fsize);
      }
    }
  }

  /** The disk after sector `s` is written, reflected into the second FAT where that applies. */
  function WriteThrough(g: Geometry, d: seq<Sector>, s: nat, w: Sector): (d': seq<Sector>)
    requires FatFits(g, |d|) && s < |d|
    ensures |d'| == |d|
  {
    var d1 := d[s := w];
    if g.nFats == 2 && InFat1(g, s) then d1[s + g.fsize := w] else d1
  }

  /** Nothing outside the FAT copies differs. */
  ghost predicate SameOutsideFats(g: Geometry, d: seq<Sector>, d': seq<Sector>) {
    && |d'| == |d|
    && forall s :: 0 <= s < |d| && !InFats(g, s) ==> d'[s] == d[s]
  }

  /** A write to the first FAT changes the FAT copies alone, keeps them equal, and is seen
      by exactly the bytes of that sector. */
  lemma WriteThroughFat(g: Geometry, d: seq<Sector>, s: nat, w: Sector)
    requires FatFits(g, |d|) && InFat1(g, s)
    ensures SameOutsideFats(g, d, WriteThrough(g, d, s, w))
    ensures Mirrored(g, d) ==> Mirrored(g, WriteThrough(g, d, s, w))
    ensures forall k: nat :: InFat1(g, k) ==> WriteThrough(g, d, s, w)[k] == if k == s then w else d[k]
  {
    var d' := WriteThrough(g, d, s, w);
    assert |d'| == |d|;
    if Mirrored(g, d) && g.nFats == 2 {
      forall k: nat | InFat1(g, k)
        ensures d'[k] == d'[k + g.fsize]
      {
        assert d[k] == d[k + g.fsize];
        if k == s {
        } else {
          assert d'[k + g.fsize] == d[k + g.fsize];
        }
      }
    }
  }

  /** What a reader of the first FAT sees after a write to one of its sectors. */
  lemma WriteThroughBytes(g: Geometry, d: seq<Sector>, s: nat, w: Sector, off: nat, v: byte)
    requires FatFits(g, |d|) && off < g.fsize * SECTOR_SIZE && s == g.fatbase + off / SECTOR_SIZE
    requires w == d[s][off % SECTOR_SIZE := v]
    ensures FatBytes(g, WriteThrough(g, d, s, w)) == FatBytes(g, d)[off := v]
  {
    WriteThroughFat(g, d, s, w);
    var d' := WriteThrough(g, d, s, w);
    forall x | 0 <= x < g.fsize * SECTOR_SIZE
      ensures FatBytes(g, d')[x] == FatBytes(g, d)[off := v][x]
    {
      assert InFat1(g, g.fatbase + x / SECTOR_SIZE);
    }
  }

  // ---- What a store to one entry does ----

  /** The table bytes with those of entry `c` replaced by the encoding of `val`. */
  function Stored(t: FatType, b: seq<byte>, c: nat, val: dword): (r: seq<byte>)
    requires HasEntry(t, b, c)
    ensures |r| == |b|
    ensures forall x {:trigger r[x]} :: 0 <= x < |b| ==>
              r[x] == if 0 <= x - EntryOffset(t, c) < EntryBytes(t)
                      then Encode(t, c, EntrySlice(t, b, c), val)[x - EntryOffset(t, c)] else b[x]
  {
    var o := EntryOffset(t, c);
    b[..o] + Encode(t, c, EntrySlice(t, b, c), val) + b[o + EntryBytes(t)..]
  }

  lemma StoredTwo(t: FatType, b: seq<byte>, c: nat, val: dword)
    requires HasEntry(t, b, c) && EntryBytes(t) == 2
    ensures var e, o := Encode(t, c, EntrySlice(t, b, c), val), EntryOffset(t, c);
            Stored(t, b, c, val) == b[o := e[0]][o + 1 := e[1]]
  {
  }

  /** Storing an entry is an update of one array cell. */
  lemma StoreIsUpdate(g: Geometry, d: seq<Sector>, d': seq<Sector>, c: nat, val: dword)
    requires FatFits(g, |d|) && FatFits(g, |d'|) && c < g.nFatent
    requires HasEntry(g.fsType, FatBytes(g, d), c) && FatBytes(g, d') == Stored(g.fsType, FatBytes(g, d), c, val)
    ensures FatOf(g, d') == FatOf(g, d)[c := EntryValue(g.fsType, val)]
  {
    var b := FatBytes(g, d);
    forall e | 0 <= e < g.nFatent
      ensures FatOf(g, d')[e] == if e == c then EntryValue(g.fsType, val) else FatOf(g, d)[e]
    {
      if e == c {
        assert EntrySlice(g.fsType, Stored(g.fsType, b, c, val), c) ==
               Encode(g.fsType, c, EntrySlice(g.fsType, b, c), val);
        DecodeEncode(g.fsType, c, EntrySlice(g.fsType, b, c), val);
      } else {
        StoreKeepsOther(g.fsType, b, c, val, e);
      }
    }
  }

  /** Two entries share no byte, except a FAT12 pair that begins at an even number. */
  lemma EntriesApart(t: FatType, c: nat, e: nat)
    requires c < e
    ensures if t == Fat12 && e == c + 1 && c % 2 == 0 then EntryOffset(t, e) == EntryOffset(t, c) + 1
            else EntryOffset(t, c) + EntryBytes(t) <= EntryOffset(t, e)
  {
  }

  /** A store to entry `c` leaves every other entry, even one that shares a byte with it. */
  lemma StoreKeepsOther(t: FatType, b: seq<byte>, c: nat, val: dword, e: nat)
    requires HasEntry(t, b, c) && HasEntry(t, b, e) && e != c
    ensures EntryIn(t, Stored(t, b, c, val), e) == EntryIn(t, b, e)
  {
    var b' := Stored(t, b, c, val);
    var s, n, n' := EntrySlice(t, b, c), EntrySlice(t, b, e), EntrySlice(t, b', e);
    EntriesApart(t, if c < e then c else e, if c < e then e else c);
    if t == Fat12 && e == c + 1 && c % 2 == 0 {
      KeepsSharedNibble(c, s, val);
      assert n[0] == s[1] && n'[0] == Encode(t, c, s, val)[1] && n'[1] == n[1];
      SharedHighNibble(e, n, n');
    } else if t == Fat12 && c == e + 1 && e % 2 == 0 {
      KeepsSharedNibble(c, s, val);
      assert n[1] == s[0] && n'[1] == Encode(t, c, s, val)[0] && n'[0] == n[0];
      SharedLowNibble(e, n, n');
    } else {
      assert n' == n;
    }
  }

  /** A FAT12 store keeps the nibble that belongs to the neighbour. */
  lemma KeepsSharedNibble(c: nat, b: seq<byte>, val: dword)
    requires |b| == 2
    ensures c % 2 == 0 ==> Encode(Fat12, c, b, val)[1] as int / 16 == b[1] as int / 16
    ensures c % 2 == 1 ==> Encode(Fat12, c, b, val)[0] as int % 16 == b[0] as int % 16
  {
  }

  /** An odd FAT12 entry reads only the high nibble of the byte it shares. */
  lemma SharedHighNibble(e: nat, n: seq<byte>, n': seq<byte>)
    requires e % 2 == 1 && |n| == |n'| == 2
    requires n'[0] as int / 16 == n[0] as int / 16 && n'[1] == n[1]
    ensures Decode(Fat12, e, n') == Decode(Fat12, e, n)
  {
  }

  /** An even FAT12 entry reads only the low nibble of the byte it shares. */
  lemma SharedLowNibble(e: nat, n: seq<byte>, n': seq<byte>)
    requires e % 2 == 0 && |n| == |n'| == 2
    requires n'[1] as int % 16 == n[1] as int % 16 && n'[0] == n[0]
    ensures Decode(Fat12, e, n') == Decode(Fat12, e, n)
  {
  }
}
