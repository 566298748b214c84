/** Mounting: reading the boot sector's parameter block into a geometry. */
module Mount {
  import opened Bytes
  import opened FatTable

  datatype MountResult = Mounted(geo: Geometry) | NoFilesystem

  // The fields of the parameter block.

  function FatSize(b: Sector): dword {
    if LdWord(b, 22) != 0 then LdWord(b, 22) else LdDword(b, 36)
  }

  function TotalSectors(b: Sector): dword {
    if LdWord(b, 19) != 0 then LdWord(b, 19) else LdDword(b, 32)
  }

  function Reserved(b: Sector): nat {
    LdWord(b, 14)
  }

  function RootSectors(b: Sector): nat {
    LdWord(b, 17) as int / 16
  }

  /** Sectors of the FAT area, for the one or two FATs a volume may have. */
  function FatArea(b: Sector): nat {
    if b[16] == 2 then FatSize(b) as int + FatSize(b) as int else FatSize(b) as int
  }

  /** Sectors before the data area, as the code computes them: in 32 bits. */
  function SystemSectors(b: Sector): dword {
    (Reserved(b) + FatArea(b) % 0x1_0000_0000 + RootSectors(b)) % 0x1_0000_0000
  }

  /** The same, without wrap-around. */
  function TrueSystemSectors(b: Sector): nat {
    Reserved(b) + FatArea(b) + RootSectors(b)
  }

  function Clusters(b: Sector): nat
    requires b[13] > 0 && SystemSectors(b) <= TotalSectors(b)
  {
    ClusterCount(TotalSectors(b) - SystemSectors(b), b[13])
  }

  function ClusterCount(sectors: nat, csize: nat): nat
    requires csize > 0
  {
    sectors / csize
  }

  function SubType(clusters: nat): FatType {
    if clusters <= MAX_FAT12 then Fat12 else if clusters <= MAX_FAT16 then Fat16 else Fat32
  }

  /** Bytes of FAT that `n` entries need. */
  function NeededBytes(t: FatType, n: nat): nat {
    match t
    case Fat32 => n * 4
    case Fat16 => n * 2
    case Fat12 => n * 3 / 2 + n % 2
  }

  /** The parameter-block part of `find_volume` for a boot sector `b` at sector `bsect`. */
  function ParseBpb(b: Sector, bsect: dword): MountResult {
    if LdWord(b, 11) != 512 then NoFilesystem
    else if b[16] != 1 && b[16] != 2 then NoFilesystem
    else if !ClusterSizeOk(b[13]) then NoFilesystem
    else if LdWord(b, 17) % 16 != 0 then NoFilesystem
    else if Reserved(b) == 0 then NoFilesystem
    else if TotalSectors(b) < SystemSectors(b) then NoFilesystem
    else if Clusters(b) == 0 || Clusters(b) > MAX_FAT32 then NoFilesystem
    else
      var t := SubType(Clusters(b));
      var n := Clusters(b) + 2;
      var fatbase := Add32(bsect, Reserved(b));
      if t == Fat32 && (LdWord(b, 42) != 0 || LdWord(b, 17) != 0) then NoFilesystem
      else if t != Fat32 && LdWord(b, 17) == 0 then NoFilesystem
      else if FatSize(b) as int < (NeededBytes(t, n) + 511) / 512 then NoFilesystem
      else Mounted(Geometry(t, b[16], b[13], FatSize(b), n, bsect, fatbase, Add32(bsect, SystemSectors(b)),
                            if t == Fat32 then LdDword(b, 44) else (fatbase as int + FatArea(b)) % 0x1_0000_0000))
  }

  /** The size check admits no volume with an entry outside its FAT, whatever wraps. */
  lemma EntriesInside(b: Sector, bsect: dword, c: nat)
    requires ParseBpb(b, bsect).Mounted? && c < ParseBpb(b, bsect).geo.nFatent
    ensures var g := ParseBpb(b, bsect).geo;
            EntryOffset(g.fsType, c) + EntryBytes(g.fsType) <= g.fsize * SECTOR_SIZE
  {
    hide FatSize, Clusters, SystemSectors, TotalSectors, RootSectors, Reserved, SubType, NeededBytes, EntryOffset;
    var g := ParseBpb(b, bsect).geo;
    NeededCovers(g.fsType, g.nFatent, c);
    WholeSectors(NeededBytes(g.fsType, g.nFatent), g.fsize);
  }

  lemma NeededCovers(t: FatType, n: nat, c: nat)
    requires c < n
    ensures EntryOffset(t, c) + EntryBytes(t) <= NeededBytes(t, n)
  {
    if t == Fat12 {
      HalfMonotone(c, n - 1);
    }
  }

  lemma HalfMonotone(c: nat, m: nat)
    requires c <= m
    ensures c + c / 2 <= m + m / 2 && m + m / 2 + 2 == (m + 1) * 3 / 2 + (m + 1) % 2
  {
    var g, h := c / 2, m / 2;
    assert 2 * g <= c <= 2 * g + 1 && 2 * h <= m <= 2 * h + 1;
    if m == 2 * h {
      assert (m + 1) * 3 == 2 * (3 * h + 1) + 1 && m + 1 == 2 * h + 1;
    } else {
      assert (m + 1) * 3 == 2 * (3 * h + 3) && m + 1 == 2 * (h + 1);
    }
  }

  lemma WholeSectors(need: nat, fsize: nat)
    requires fsize >= (need + 511) / 512
    ensures need <= fsize * SECTOR_SIZE
  {
  }

  /** FATs, then data, then the end of the volume, with every cluster number giving a sector
      that fits in 32 bits. */
  ghost predicate LayoutSound(g: Geometry, bsect: nat, total: nat) {
    && bsect < g.fatbase
    && g.fatbase + FatSectors(g) <= g.database
    && g.database + g.csize * (g.nFatent - 2) <= bsect + total
    && g.database + g.csize * (g.nFatent - 2) <= 0x1_0000_0000
  }

  /** None of the 32-bit sums of the mount wraps. */
  predicate NoWrap(b: Sector, bsect: dword)
    requires b[13] > 0 && SystemSectors(b) <= TotalSectors(b)
  {
    && TrueSystemSectors(b) < 0x1_0000_0000
    && bsect as int + TrueSystemSectors(b) + b[13] as int * Clusters(b) <= 0x1_0000_0000
  }

  /** A mounted volume has a sound layout exactly when no sum wrapped. */
  lemma LayoutExactly(b: Sector, bsect: dword)
    requires ParseBpb(b, bsect).Mounted?
    ensures b[13] > 0 && SystemSectors(b) <= TotalSectors(b)
    ensures LayoutSound(ParseBpb(b, bsect).geo, bsect, TotalSectors(b)) <==> NoWrap(b, bsect)
  {
    hide FatSize, TotalSectors, SubType, NeededBytes, ClusterCount;
    var g := ParseBpb(b, bsect).geo;
    assert FatArea(b) == FatSectors(g);
    ClustersFit((TotalSectors(b) - SystemSectors(b)) as int, b[13]);
    SumWrap(Reserved(b), FatArea(b), RootSectors(b));
    var data := g.csize * (g.nFatent - 2);
    assert data == b[13] as int * Clusters(b) >= 1 by { Product(g.csize, Clusters(b)); }
    ModDrop(bsect as int + SystemSectors(b) as int);
    ModDrop(bsect as int + Reserved(b));
  }

  lemma Product(m: nat, n: nat)
    requires m >= 1 && n >= 1
    ensures m * n >= 1
  {
  }

  lemma SumWrap(a: nat, b: nat, c: nat)
    ensures a + b + c < 0x1_0000_0000 ==> (a + b % 0x1_0000_0000 + c) % 0x1_0000_0000 == a + b + c
    ensures a + b + c >= 0x1_0000_0000 ==> (a + b % 0x1_0000_0000 + c) % 0x1_0000_0000 <= a + b + c - 0x1_0000_0000
  {
    ModDrop(b);
    ModDrop(a + b % 0x1_0000_0000 + c);
  }

  lemma ModDrop(x: nat)
    ensures if x < 0x1_0000_0000 then x % 0x1_0000_0000 == x else x % 0x1_0000_0000 <= x - 0x1_0000_0000
  {
    var q, r := x / 0x1_0000_0000, x % 0x1_0000_0000;
    assert x == 0x1_0000_0000 * q + r;
  }

  lemma ClustersFit(sectors: nat, csize: nat)
    requires csize > 0
    ensures csize * ClusterCount(sectors, csize) <= sectors
  {
  }

  lemma ReservedArea(b: Sector, bsect: dword)
    requires ParseBpb(b, bsect).Mounted?
    ensures var g := ParseBpb(b, bsect).geo;
            1 <= g.nFats <= 2 && ClusterSizeOk(g.csize) && 3 <= g.nFatent <= MaxClusters(g.fsType) + 2
  {
    hide FatSize, TotalSectors, SystemSectors, RootSectors, Clusters, NeededBytes;
  }

  /** A mounted volume whose sums did not wrap, on a drive that holds it, has the layout the
      rest of the code relies on. */
  lemma MountedIsOk(b: Sector, bsect: dword, sectors: nat)
    requires ParseBpb(b, bsect).Mounted? && NoWrap(b, bsect)
    requires bsect as int + TotalSectors(b) as int <= sectors && sectors * SECTOR_SIZE <= 0x1_0000_0000
    ensures GeometryOk(ParseBpb(b, bsect).geo, sectors)
  {
    hide FatSize, TotalSectors, SystemSectors, TrueSystemSectors, RootSectors, FatArea, Clusters, NeededBytes, NoWrap;
    LayoutExactly(b, bsect);
    ReservedArea(b, bsect);
    EntriesInside(b, bsect, ParseBpb(b, bsect).geo.nFatent - 1);
  }

  /** A boot sector whose FAT size, doubled, wraps to 0: it mounts with the data inside the FAT. */
  function WrappingBootSector(): Sector {
    seq(512, i => if i == 12 || i == 16 then 2 else if i == 13 || i == 14 then 1 else if i == 17 then 16
                  else if i == 19 then 100 else if i == 39 then 0x80 else 0)
  }

  lemma WrapBreaksLayout()
    ensures ParseBpb(WrappingBootSector(), 0).Mounted?
    ensures !LayoutSound(ParseBpb(WrappingBootSector(), 0).geo, 0, TotalSectors(WrappingBootSector()))
  {
    var b := WrappingBootSector();
    assert FatSize(b) == 0x8000_0000 && TotalSectors(b) == 100 && Reserved(b) == 1 && RootSectors(b) == 1;
    assert SystemSectors(b) == 2 && Clusters(b) == 98;
  }
}
