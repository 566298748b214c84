/** The mounted volume: one-sector write-back window over the drive, FAT entry access,
    and cluster allocation. */
module Volume {
  import opened Bytes
  import opened FatTable
  import opened Chains
  import opened Mount

  datatype FResult = Ok | IntErr | Denied

  /** A sector with the three signatures of FSInfo. */
  predicate IsFsInfo(b: Sector) {
    LdWord(b, 510) == 0xAA55 && LdDword(b, 0) == 0x4161_5252 && LdDword(b, 484) == 0x6141_7272
  }

  class FatFs {
    const geo: Geometry
    var disk: seq<Sector>     // the drive, one element per sector
    const win: array<byte>    // disk access window
    var winsect: dword        // sector appearing in the window
    var wflag: bool           // the window is dirty
    var lastClst: dword       // last allocated cluster
    var freeClst: dword       // number of free clusters, when it is at most nFatent - 2
    var fsiFlag: bool         // the FSInfo sector is out of date

    /** The window caches its sector; a dirty window is never a sector of the second FAT. */
    ghost predicate Valid()
      reads this`disk, this`winsect, this`wflag, win
      ensures Valid() ==> GeometryOk(geo, |disk|) && win.Length == SECTOR_SIZE
      ensures Valid() ==> 3 <= geo.nFatent < 0x1000_0000 && FatFits(geo, |disk|)
      ensures Valid() ==> EndOfChain(geo.fsType) >= geo.nFatent
    {
      && GeometryOk(geo, |disk|)
      && win.Length == SECTOR_SIZE
      && (wflag ==> winsect < |disk| && (InFats(geo, winsect) ==> InFat1(geo, winsect)))
      && (!wflag && winsect < |disk| ==> win[..] == disk[winsect])
    }

    /** The drive as a reader that goes through the window sees it. */
    ghost function Logical(): (d: seq<Sector>)
      requires Valid()
      reads this`disk, this`winsect, this`wflag, win
      ensures |d| == |disk| && FatFits(geo, |d|)
    {
      if wflag then WriteThrough(geo, disk, winsect, win[..]) else disk
    }

    ghost function Fat(): (f: seq<nat>)
      requires Valid()
      reads this`disk, this`winsect, this`wflag, win
      ensures |f| == geo.nFatent && f == FatOf(geo, Logical())
    {
      FatOf(geo, Logical())
    }

    /** The volume found at boot sector `bsect` of the drive, as `find_volume` sets it up: the
        window shows the boot sector, and on FAT32 the allocation hints come from the FSInfo
        sector if the boot sector names sector 1 for it and its signatures are right. */
    constructor Mount(drive: seq<Sector>, bsect: dword)
      requires bsect as int < |drive| && ParseBpb(drive[bsect], bsect).Mounted?
      requires NoWrap(drive[bsect], bsect) && bsect as int + TotalSectors(drive[bsect]) as int <= |drive|
      requires |drive| * SECTOR_SIZE <= 0x1_0000_0000
      ensures Valid() && fresh(win) && disk == drive && Logical() == drive
      ensures geo == ParseBpb(drive[bsect], bsect).geo
      ensures geo.fsType == Fat32 && LdWord(drive[bsect], 48) == 1 ==> bsect as int + 1 < |drive|
      ensures if geo.fsType == Fat32 && LdWord(drive[bsect], 48) == 1 && IsFsInfo(drive[bsect + 1])
              then freeClst == LdDword(drive[bsect + 1], 488) && lastClst == LdDword(drive[bsect + 1], 492)
              else freeClst == lastClst == 0xFFFF_FFFF
    {
      hide NoWrap, TotalSectors, FatOf, WriteThrough, ClusterSizeOk, EntryOffset, EntryBytes, IsFsInfo;
      MountedIsOk(drive[bsect], bsect, |drive|);
      geo := ParseBpb(drive[bsect], bsect).geo;
      disk := drive;
      win := new byte[SECTOR_SIZE](i requires 0 <= i < SECTOR_SIZE => drive[bsect][i]);
      winsect, wflag, fsiFlag := bsect, false, false;
      lastClst, freeClst := 0xFFFF_FFFF, 0xFFFF_FFFF;
      new;
      assert win[..] == drive[bsect];
      if geo.fsType == Fat32 && LdWord(win[..], 48) == 1 {
        LoadHints(bsect + 1);
      }
    }

    /** Takes the allocation hints from the FSInfo sector, if that is what `sector` is. */
    method LoadHints(sector: dword)
      requires Valid() && sector < |disk|
      modifies this`disk, this`wflag, this`winsect, this`freeClst, this`lastClst, win
      ensures Valid() && Logical() == old(Logical()) && (disk == old(disk) || disk == old(Logical()))
      ensures var b := Logical()[sector];
              if IsFsInfo(b) then freeClst == LdDword(b, 488) && lastClst == LdDword(b, 492)
              else freeClst == old(freeClst) && lastClst == old(lastClst)
    {
      hide Valid, Logical, IsFsInfo;
      MoveWindow(sector);
      ghost var d := Logical();
      if IsFsInfo(win[..]) {
        freeClst := LdDword(win[..], 488);
        lastClst := LdDword(win[..], 492);
      }
      assert Logical() == d;
    }

    /** Outside the FATs and the window, the drive is as its readers see it. */
    lemma Physical(s: nat)
      requires Valid() && s < |disk| && !InFats(geo, s) && s != winsect
      ensures disk[s] == Logical()[s]
    {
    }

    /** While the FAT copies agree for readers, they agree on the drive, except at a sector that
        the window holds unwritten. */
    lemma CopiesAgree(s: nat)
      requires Valid() && Mirrored(geo, Logical()) && geo.nFats == 2 && InFat1(geo, s)
      ensures s + geo.fsize < |disk| && (disk[s] == disk[s + geo.fsize] || (wflag && winsect as int == s))
    {
      if wflag && winsect as int != s {
        assert Logical()[s] == disk[s] && Logical()[s + geo.fsize] == disk[s + geo.fsize];
      }
    }

    /** The first FAT as a run of bytes. */
    ghost function Table(): (b: seq<byte>)
      requires Valid()
      reads this`disk, this`winsect, this`wflag, win
      ensures |b| == geo.fsize * SECTOR_SIZE
    {
      FatBytes(geo, Logical())
    }

    method SyncWindow()
      requires Valid()
      modifies this`disk, this`wflag
      ensures Valid() && !wflag
      ensures disk == Logical() == old(Logical())
    {
      if wflag {
        disk := disk[winsect := win[..]];
        wflag := false;
        if Sub32(winsect, geo.fatbase) < geo.fsize {
          if geo.nFats == 2 {
            disk := disk[winsect + geo.fsize := win[..]];
          }
        }
      }
    }

    method MoveWindow(sector: dword)
      requires Valid() && sector < |disk|
      modifies this`disk, this`wflag, this`winsect, win
      ensures Valid() && Logical() == old(Logical())
      ensures winsect == sector && win[..] == Logical()[sector]
      ensures disk == old(disk) || disk == old(Logical())
    {
      if sector != winsect {
        SyncWindow();
        forall i | 0 <= i < SECTOR_SIZE {
          win[i] := disk[sector][i];
        }
        winsect := sector;
        assert win[..] == disk[sector];
      }
    }

    /** Reads `count` sectors past the window. */
    method ReadSectors(sector: nat, count: nat) returns (data: seq<byte>)
      requires sector + count <= |disk|
      ensures |data| == SECTOR_SIZE * count
      ensures forall k :: 0 <= k < count ==> Piece(data, k) == disk[sector + k]
    {
      data := [];
      for k := 0 to count
        invariant |data| == SECTOR_SIZE * k
        invariant forall i :: 0 <= i < k ==> Piece(data, i) == disk[sector + i]
      {
        ghost var before := data;
        data := data + disk[sector + k];
        assert forall i :: 0 <= i < k ==> Piece(data, i) == Piece(before, i);
        assert Piece(data, k) == disk[sector + k];
      }
    }

    /** Writes whole sectors of the data area past the window, which must not show them. */
    method WriteSectors(sector: nat, data: seq<byte>, count: nat)
      requires Valid() && |data| == SECTOR_SIZE * count
      requires geo.database <= sector && sector + count <= |disk| && !(sector <= winsect as int < sector + count)
      modifies this`disk
      ensures Valid() && |disk| == old(|disk|)
      ensures forall s :: 0 <= s < |disk| ==>
                Logical()[s] == if sector <= s < sector + count then Piece(data, s - sector) else old(Logical())[s]
      ensures Fat() == old(Fat())
    {
      hide FatOf, FatFits, Fat;
      ghost var d := Logical();
      for k := 0 to count
        invariant Valid() && |disk| == old(|disk|)
        invariant forall s :: 0 <= s < |disk| ==>
                    Logical()[s] == if sector <= s < sector + k then Piece(data, s - sector) else d[s]
      {
        ghost var d' := Logical();
        disk := disk[sector + k := Piece(data, k)];
        assert Logical() == d'[sector + k := Piece(data, k)];
      }
      SameFat(geo, d, Logical());
    }

    /** Brings the sector holding FAT byte `off` into the window. */
    method FatWindow(off: nat)
      requires Valid() && off < geo.fsize * SECTOR_SIZE
      modifies this`disk, this`wflag, this`winsect, win
      ensures Valid() && Logical() == old(Logical())
      ensures winsect as int == geo.fatbase + off / SECTOR_SIZE
      ensures win[off % SECTOR_SIZE] == Table()[off]
    {
      MoveWindow(geo.fatbase + off / SECTOR_SIZE);
    }

    /** Stores byte `off` of the FAT through the window, which must be showing its sector. */
    method SetFatByte(off: nat, v: byte)
      requires Valid() && off < geo.fsize * SECTOR_SIZE
      requires winsect as int == geo.fatbase + off / SECTOR_SIZE
      modifies this`wflag, win
      ensures Valid() && wflag
      ensures Table() == old(Table())[off := v]
      ensures SameOutsideFats(geo, old(Logical()), Logical())
      ensures Mirrored(geo, old(Logical())) ==> Mirrored(geo, Logical())
    {
      win[off % SECTOR_SIZE] := v;
      wflag := true;
      ghost var d := old(Logical());
      assert InFat1(geo, winsect);
      assert d[winsect] == old(win[..]);
      assert Logical() == WriteThrough(geo, d, winsect, win[..]);
      WriteThroughFat(geo, d, winsect, win[..]);
      WriteThroughBytes(geo, d, winsect, win[..], off, v);
    }

    lemma WindowCoherent()
      requires Valid() && winsect < |disk|
      ensures win[..] == Logical()[winsect]
    {
    }

    /** The bytes of an aligned FAT word are in the window that shows the sector of its first byte. */
    lemma WindowShows(off: nat, n: nat)
      requires Valid() && (n == 2 || n == 4) && off % n == 0
      requires off + n <= geo.fsize * SECTOR_SIZE && winsect as int == geo.fatbase + off / SECTOR_SIZE
      ensures off % SECTOR_SIZE + n <= SECTOR_SIZE
      ensures win[off % SECTOR_SIZE] == Table()[off]
      ensures win[off % SECTOR_SIZE + 1] == Table()[off + 1]
      ensures n == 4 ==> win[off % SECTOR_SIZE + 2] == Table()[off + 2]
      ensures n == 4 ==> win[off % SECTOR_SIZE + 3] == Table()[off + 3]
    {
      hide Logical, Valid;
      SectorInFat(off, geo.fsize);
      WindowCoherent();
      Aligned(off, n);
      SameSector(off, 1);
      if n == 4 {
        SameSector(off, 2);
        SameSector(off, 3);
      }
    }

    lemma WindowWord(c: nat)
      requires Valid() && geo.fsType == Fat16 && c < geo.nFatent
      requires winsect as int == geo.fatbase + 2 * c / SECTOR_SIZE
      ensures 2 * c % SECTOR_SIZE + 2 <= SECTOR_SIZE
      ensures LdWord(win[..], 2 * c % SECTOR_SIZE) as int == Fat()[c]
    {
      hide Logical, Valid, FatBytes;
      WordOffset(c);
      EntryInFat(geo, Logical(), c);
      WindowShows(2 * c, 2);
    }

    /** The double word of the window at a FAT32 entry is that entry's four bytes. */
    lemma WindowDword(c: nat)
      requires Valid() && geo.fsType == Fat32 && c < geo.nFatent
      requires winsect as int == geo.fatbase + 4 * c / SECTOR_SIZE
      ensures 4 * c % SECTOR_SIZE + 4 <= SECTOR_SIZE && HasEntry(Fat32, Table(), c)
      ensures LdDword(win[..], 4 * c % SECTOR_SIZE) == LdDword(EntrySlice(Fat32, Table(), c), 0)
      ensures LdDword(win[..], 4 * c % SECTOR_SIZE) as int % 0x1000_0000 == Fat()[c]
    {
      hide Logical, Valid, FatBytes;
      DwordOffset(c);
      EntryInFat(geo, Logical(), c);
      WindowShows(4 * c, 4);
    }

    /** Value of a FAT entry; 1 is the internal-error answer for a number out of range. */
    method GetFat(clst: dword) returns (val: dword)
      requires Valid()
      modifies this`disk, this`wflag, this`winsect, win
      ensures Valid() && Logical() == old(Logical())
      ensures winsect == old(winsect) || InFat1(geo, winsect)
      ensures val as int == if clst < 2 || clst >= geo.nFatent then 1 else Fat()[clst]
    {
      if clst < 2 || clst >= geo.nFatent {
        return 1;
      }
      match geo.fsType
      case Fat12 => val := GetFat12(clst);
      case Fat16 => val := GetFat16(clst);
      case Fat32 => val := GetFat32(clst);
    }

    // One method per arm of the switch on the FAT type.

    method GetFat12(clst: dword) returns (val: dword)
      requires Valid() && clst < geo.nFatent && geo.fsType == Fat12
      modifies this`disk, this`wflag, this`winsect, win
      ensures Valid() && Logical() == old(Logical()) && InFat1(geo, winsect)
      ensures val as int == Fat()[clst]
    {
      hide WriteThrough, FatBytes, InFats;
      EntryInFat(geo, Logical(), clst);
      var bc := clst as int + clst / 2;
      FatWindow(bc);
      var wc := win[bc % SECTOR_SIZE] as int;
      bc := bc + 1;
      FatWindow(bc);
      wc := wc + 256 * (win[bc % SECTOR_SIZE] as int);
      assert wc == LdWord(EntrySlice(geo.fsType, Table(), clst), 0);
      val := if clst % 2 == 1 then wc / 16 else wc % 4096;
    }

    method GetFat16(clst: dword) returns (val: dword)
      requires Valid() && clst < geo.nFatent && geo.fsType == Fat16
      modifies this`disk, this`wflag, this`winsect, win
      ensures Valid() && Logical() == old(Logical()) && InFat1(geo, winsect)
      ensures val as int == Fat()[clst]
    {
      EntryInFat(geo, Logical(), clst);
      EntrySector(geo, |disk|, clst);
      MoveWindow(geo.fatbase + clst / 256);
      WindowWord(clst);
      val := LdWord(win[..], 2 * clst % SECTOR_SIZE);
    }

    method GetFat32(clst: dword) returns (val: dword)
      requires Valid() && clst < geo.nFatent && geo.fsType == Fat32
      modifies this`disk, this`wflag, this`winsect, win
      ensures Valid() && Logical() == old(Logical()) && InFat1(geo, winsect)
      ensures val as int == Fat()[clst]
    {
      hide Merge32, LdDword, DwordBytes, FatBytes, WriteThrough, InFats;
      EntrySector(geo, |disk|, clst);
      MoveWindow(geo.fatbase + clst / 128);
      WindowDword(clst);
      var raw := LdDword(win[..], 4 * clst % SECTOR_SIZE);
      val := raw % 0x1000_0000;
    }

    /** Stores `bytes` at FAT offset `off`, inside the sector the window shows. */
    method SetFatBytes(off: nat, bytes: seq<byte>)
      requires Valid() && off + |bytes| <= geo.fsize * SECTOR_SIZE && 0 < |bytes|
      requires winsect as int == geo.fatbase + off / SECTOR_SIZE && off % SECTOR_SIZE + |bytes| <= SECTOR_SIZE
      modifies this`wflag, win
      ensures Valid() && wflag
      ensures forall x :: 0 <= x < |Table()| ==>
                Table()[x] == if off <= x < off + |bytes| then bytes[x - off] else old(Table())[x]
      ensures SameOutsideFats(geo, old(Logical()), Logical())
      ensures Mirrored(geo, old(Logical())) ==> Mirrored(geo, Logical())
    {
      hide WriteThrough, FatBytes, InFats;
      for k := 0 to |bytes|
        invariant Valid() && (k > 0 ==> wflag)
        invariant forall x :: 0 <= x < |Table()| ==>
                    Table()[x] == if off <= x < off + k then bytes[x - off] else old(Table())[x]
        invariant SameOutsideFats(geo, old(Logical()), Logical())
        invariant Mirrored(geo, old(Logical())) ==> Mirrored(geo, Logical())
      {
        SameSector(off, k);
        SetFatByte(off + k, bytes[k]);
      }
    }

    /** Changes a FAT entry; a number out of range is refused and changes nothing. */
    method PutFat(clst: dword, val: dword) returns (res: FResult)
      requires Valid()
      modifies this`disk, this`wflag, this`winsect, win
      ensures Valid()
      ensures res == if 2 <= clst < geo.nFatent then Ok else IntErr
      ensures Fat() == if res == Ok then old(Fat())[clst := EntryValue(geo.fsType, val)] else old(Fat())
      ensures res == Ok && geo.fsType == Fat32 ==>
                LdDword(EntrySlice(geo.fsType, Table(), clst), 0) as int / 0x1000_0000
                == old(LdDword(EntrySlice(geo.fsType, Table(), clst), 0)) as int / 0x1000_0000
      ensures FatOnly(geo, old(Logical()), Logical(), old(winsect), winsect)
    {
      if !(2 <= clst < geo.nFatent) {
        return IntErr;
      }
      match geo.fsType {
        case Fat12 => PutFat12(clst, val);
        case Fat16 => PutFat16(clst, val);
        case Fat32 => PutFat32(clst, val);
      }
      StoreIsUpdate(geo, old(Logical()), Logical(), clst, val);
      if geo.fsType == Fat32 {
        TopBitsKept(clst, old(EntrySlice(geo.fsType, Table(), clst)), val);
      }
      res := Ok;
    }

    method PutFat12(clst: dword, val: dword)
      requires Valid() && clst < geo.nFatent && geo.fsType == Fat12
      modifies this`disk, this`wflag, this`winsect, win
      ensures Valid() && InFat1(geo, winsect)
      ensures Table() == Stored(geo.fsType, old(Table()), clst, val)
      ensures SameOutsideFats(geo, old(Logical()), Logical())
      ensures Mirrored(geo, old(Logical())) ==> Mirrored(geo, Logical())
    {
      hide Logical, FirstByte12, SecondByte12, LdWord, FatBytes, WriteThrough, InFats;
      EntryInFat(geo, Logical(), clst);
      ghost var t := Table();
      ghost var e := Encode(Fat12, clst, EntrySlice(Fat12, t, clst), val);
      var bc := clst as int + clst / 2;
      FatWindow(bc);
      SetFatByte(bc, FirstByte12(clst, win[bc % SECTOR_SIZE], val));
      assert Table() == t[bc := e[0]];
      FatWindow(bc + 1);
      SetFatByte(bc + 1, SecondByte12(clst, win[(bc + 1) % SECTOR_SIZE], val));
      assert Table() == t[bc := e[0]][bc + 1 := e[1]];
      StoredTwo(Fat12, t, clst, val);
    }

    method PutFat16(clst: dword, val: dword)
      requires Valid() && clst < geo.nFatent && geo.fsType == Fat16
      modifies this`disk, this`wflag, this`winsect, win
      ensures Valid() && InFat1(geo, winsect)
      ensures Table() == Stored(geo.fsType, old(Table()), clst, val)
      ensures SameOutsideFats(geo, old(Logical()), Logical())
      ensures Mirrored(geo, old(Logical())) ==> Mirrored(geo, Logical())
    {
      hide Valid, Logical, FatFits, GeometryOk, SameOutsideFats, Mirrored, WordBytes;
      ghost var t := Table();
      EntryInFat(geo, Logical(), clst);
      EntrySector(geo, |disk|, clst);
      MoveWindow(geo.fatbase + clst / 256);
      assert Table() == t;
      Aligned(2 * clst, 2);
      SetFatBytes(2 * clst, WordBytes(val));
      assert Table() == Stored(Fat16, t, clst, val);
    }

    method PutFat32(clst: dword, val: dword)
      requires Valid() && clst < geo.nFatent && geo.fsType == Fat32
      modifies this`disk, this`wflag, this`winsect, win
      ensures Valid() && InFat1(geo, winsect)
      ensures Table() == Stored(geo.fsType, old(Table()), clst, val)
      ensures SameOutsideFats(geo, old(Logical()), Logical())
      ensures Mirrored(geo, old(Logical())) ==> Mirrored(geo, Logical())
    {
      hide Valid, Logical, FatFits, GeometryOk, SameOutsideFats, Mirrored, Merge32, LdDword, DwordBytes;
      ghost var t := Table();
      EntrySector(geo, |disk|, clst);
      MoveWindow(geo.fatbase + clst / 128);
      assert Table() == t;
      WindowDword(clst);
      var raw := LdDword(win[..], 4 * clst % SECTOR_SIZE);
      SetFatBytes(4 * clst, DwordBytes(Merge32(raw, val)));
      assert Table() == Stored(Fat32, t, clst, val);
    }

    /** The cached number of free clusters, when it is in range, is the true one. */
    ghost predicate FreeOk()
      requires Valid()
      reads this`disk, this`winsect, this`wflag, this`freeClst, win
    {
      freeClst <= geo.nFatent - 2 ==> freeClst as int == FreeCount(Fat())
    }

    /** Frees the chain that begins at `clst`; `pclst`, if not 0, becomes the end of its chain. */
    method RemoveChain(clst: dword, pclst: dword) returns (res: FResult)
      requires Valid()
      modifies this`disk, this`wflag, this`winsect, this`freeClst, this`fsiFlag, win
      ensures Valid()
      ensures RemoveOutcome(old(Fat()), Fat(), EndOfChain(geo.fsType), old(freeClst), freeClst, clst, pclst, res == Ok)
      ensures res == Ok || res == IntErr
      ensures FatOnly(geo, old(Logical()), Logical(), old(winsect), winsect)
    {
      hide Valid, Logical, FatFits, GeometryOk, FatOf, Fat, FatOnly, InFat1, EntryValue, EndOfChain, CountUp,
           RemoveFrom;
      ghost var d, at := Logical(), winsect;
      FatOnlyRefl(geo, d, at, at);
      if clst < 2 || clst >= geo.nFatent {
        return IntErr;
      }
      if pclst != 0 {
        res := PutFat(pclst, 0xFFFF_FFFF);
        if res != Ok {
          return;
        }
      }
      ghost var d', at' := Logical(), winsect;
      res := FreeFrom(clst);
      FatOnlyTrans(geo, d, d', Logical(), at, at', winsect);
    }

    /** The loop of `remove_chain`. */
    method FreeFrom(clst: dword) returns (res: FResult)
      requires Valid() && 2 <= clst < geo.nFatent
      modifies this`disk, this`wflag, this`winsect, this`freeClst, this`fsiFlag, win
      ensures Valid()
      ensures var r := RemoveFrom(old(Fat()), clst);
              res == (if r.ok then Ok else IntErr) && Fat() == r.fat &&
              freeClst as int == CountUp(old(freeClst), r.freed, geo.nFatent - 2)
      ensures FatOnly(geo, old(Logical()), Logical(), old(winsect), winsect)
    {
      hide *;
      ghost var d0, at0, fat0, free0 := Logical(), winsect, Fat(), freeClst;
      ghost var d, freed := d0, 0;
      FatOnlyRefl(geo, d0, at0, at0);
      CountUpStep(free0, 0, geo.nFatent - 2);
      SameRemovalInit(fat0, clst);
      var c := clst;
      while true
        invariant Valid() && 2 <= c < geo.nFatent && d == Logical()
        invariant SameRemoval(fat0, clst, Fat(), c, freed)
        invariant freeClst as int == CountUp(free0, freed, geo.nFatent - 2)
        invariant FatOnly(geo, d0, d, at0, winsect)
        decreases geo.nFatent - FreeCount(Fat())
      {
        ghost var at := winsect;
        var nxt := GetFat(c);
        FatOnlyRefl(geo, d, at, winsect);
        FatOnlyTrans(geo, d0, d, d, at0, at, winsect);
        if nxt <= 1 {
          RemoveStop(fat0, clst, Fat(), c, freed);
          return if nxt == 0 then Ok else IntErr;
        }
        RemoveStep(fat0, clst, Fat(), c, freed);
        at := winsect;
        var r := PutFat(c, 0);
        FatOnlyTrans(geo, d0, d, Logical(), at0, at, winsect);
        d := Logical();
        CountUpStep(free0, freed, geo.nFatent - 2);
        if freeClst < geo.nFatent - 2 {
          freeClst := freeClst + 1;
          fsiFlag := true;
        }
        assert d == Logical();
        freed := freed + 1;
        if nxt >= geo.nFatent {
          return Ok;
        }
        c := nxt;
      }
    }

    /** The search for a free cluster: first the one after `clst` in number when a chain is
        stretched, then all of them in cyclic order. */
    method FindFree(clst: dword, start: dword) returns (r: dword)
      requires Valid() && clst < geo.nFatent
      requires start as int == if clst == 0 then SearchStart(Fat(), lastClst, 0) else clst as int
      requires clst != 0 ==> 2 <= clst && Fat()[clst] >= geo.nFatent
      modifies this`disk, this`wflag, this`winsect, win
      ensures Valid() && Logical() == old(Logical())
      ensures winsect == old(winsect) || InFat1(geo, winsect)
      ensures r == 0 ==> NoStop(Fat())
      ensures r == 1 ==> exists h: nat :: SearchHit(Fat(), lastClst, clst, h) && Fat()[h] == 1
      ensures r >= 2 ==> SearchHit(Fat(), lastClst, clst, r) && Fat()[r] == 0
    {
      hide Valid, Logical, FatFits, GeometryOk, FatOf, Fat, FirstStop, SearchHit, NoStop, InFat1, EndOfChain;
      ghost var d, fat := Logical(), Fat();
      var scl := start;
      if scl == clst {
        r := if scl + 1 >= geo.nFatent then 2 else scl + 1;
        assert r as int == NextCluster(fat, clst);
        var cs := GetFat(r);
        assert Logical() == d && Fat() == fat;
        if cs <= 1 {
          ProbeHit(fat, lastClst, clst);
          return if cs == 0 then r else cs;
        }
        if 2 <= lastClst < geo.nFatent {
          scl := lastClst;
        }
      }
      CyclicHit(fat, lastClst, clst);
      r := SearchFrom(scl);
      assert Fat() == fat;
    }

    /** The cyclic part of the search. */
    method SearchFrom(scl: dword) returns (r: dword)
      requires Valid() && 1 <= scl < geo.nFatent
      modifies this`disk, this`wflag, this`winsect, win
      ensures Valid() && Logical() == old(Logical())
      ensures winsect == old(winsect) || InFat1(geo, winsect)
      ensures r == 0 ==> NoStop(Fat())
      ensures r == 1 ==> exists h: nat :: FirstStop(Fat(), scl, h) && Fat()[h] == 1
      ensures r >= 2 ==> FirstStop(Fat(), scl, r) && Fat()[r] == 0
    {
      hide *;
      ghost var d, fat, at := Logical(), Fat(), winsect;
      assert Passed(fat, scl, scl, false) by {
        PassedNone(fat, scl);
      }
      r := scl;
      ghost var wrapped := false;
      while true
        invariant Valid() && Logical() == d
        invariant winsect == at || InFat1(geo, winsect)
        invariant if wrapped then 2 <= r < scl else scl <= r < geo.nFatent
        invariant Passed(fat, scl, r, wrapped)
        decreases !wrapped, geo.nFatent - r
      {
        SearchStep(fat, scl, r, wrapped);
        r := r + 1;
        if r >= geo.nFatent {
          r := 2;
          if r > scl {
            return 0;
          }
          wrapped := true;
        }
        var cs := GetFat(r);
        assert Fat() == fat;
        if cs <= 1 {
          ghost var h := r;
          assert FirstStop(fat, scl, h) && fat[h] as int == cs;
          return if cs == 0 then r else cs;
        }
        if r == scl {
          return 0;
        }
      }
    }

    /** Allocates a cluster: a new chain if `clst` is 0, otherwise one that follows `clst`.
        The answer is 0 when no cluster is free, 1 on an internal error, otherwise the cluster. */
    method CreateChain(clst: dword) returns (r: dword)
      requires Valid()
      modifies this`disk, this`wflag, this`winsect, this`freeClst, this`lastClst, this`fsiFlag, win
      ensures Valid()
      ensures CreateOutcome(old(Fat()), Fat(), EndOfChain(geo.fsType), old(lastClst), lastClst,
                            old(freeClst), freeClst, clst, r)
      ensures old(FreeOk()) ==> FreeOk()
      ensures FatOnly(geo, old(Logical()), Logical(), old(winsect), winsect)
    {
      hide Valid, Logical, FatFits, GeometryOk, FatOf, Fat, FatOnly, InFat1, EntryValue, EndOfChain, FreeCount,
           SearchHit, NoStop, CreateOutcome;
      ghost var d, fat, at, eoc := Logical(), Fat(), winsect, EndOfChain(geo.fsType);
      CreateRefuses(fat, eoc, lastClst, freeClst, clst);
      FatOnlyRefl(geo, d, at, at);
      var scl;
      if clst == 0 {
        scl := lastClst;
        if scl == 0 || scl >= geo.nFatent {
          scl := 1;
        }
      } else {
        var cs := GetFat(clst);
        assert Fat() == fat;
        FatOnlyRefl(geo, d, at, winsect);
        if cs < 2 {
          return 1;
        }
        if cs < geo.nFatent {
          return cs;
        }
        scl := clst;
      }
      ghost var at1 := winsect;
      r := AllocateFrom(clst, scl);
      FatOnlyTrans(geo, d, d, Logical(), at, at1, winsect);
    }

    /** The rest of `create_chain`: searches from `scl`, and takes the cluster found. */
    method AllocateFrom(clst: dword, scl: dword) returns (r: dword)
      requires Valid() && clst < geo.nFatent && MayExtend(Fat(), clst)
      requires scl as int == if clst == 0 then SearchStart(Fat(), lastClst, 0) else clst as int
      modifies this`disk, this`wflag, this`winsect, this`freeClst, this`lastClst, this`fsiFlag, win
      ensures Valid()
      ensures CreateOutcome(old(Fat()), Fat(), EndOfChain(geo.fsType), old(lastClst), lastClst,
                            old(freeClst), freeClst, clst, r)
      ensures old(FreeOk()) ==> FreeOk()
      ensures FatOnly(geo, old(Logical()), Logical(), old(winsect), winsect)
    {
      hide Valid, Logical, FatFits, GeometryOk, FatOf, Fat, FatOnly, InFat1, EntryValue, EndOfChain, FreeCount,
           SearchHit, NoStop, CreateOutcome;
      ghost var d, fat, at, eoc := Logical(), Fat(), winsect, EndOfChain(geo.fsType);
      CreateRefuses(fat, eoc, lastClst, freeClst, clst);
      FatOnlyRefl(geo, d, at, at);
      if freeClst == 0 {
        return 0;
      }
      r := FindFree(clst, scl);
      assert Fat() == fat;
      FatOnlyRefl(geo, d, at, winsect);
      HitIsStop(fat, lastClst, clst);
      if r < 2 {
        return;
      }
      CreateAllocates(fat, eoc, lastClst, freeClst, clst, r);
      ghost var at' := winsect;
      LinkCluster(clst, r);
      FatOnlyTrans(geo, d, d, Logical(), at, at', winsect);
      NoteAllocated(r);
    }

    /** Brings the allocation hints up to date after cluster `ncl` was taken. */
    method NoteAllocated(ncl: dword)
      requires Valid() && freeClst > 0
      modifies this`freeClst, this`lastClst, this`fsiFlag
      ensures Valid() && Logical() == old(Logical()) && Fat() == old(Fat()) && lastClst == ncl
      ensures freeClst as int ==
              if old(freeClst) <= geo.nFatent - 2 then old(freeClst) as int - 1 else old(freeClst) as int
    {
      hide Valid, Logical, Fat, FatOf;
      lastClst := ncl;
      if freeClst <= geo.nFatent - 2 {
        freeClst := freeClst - 1;
      }
      fsiFlag := true;
    }

    /** Marks the new cluster as the end of its chain and links it from the previous one. */
    method LinkCluster(clst: dword, ncl: dword)
      requires Valid() && 2 <= ncl < geo.nFatent && (clst == 0 || 2 <= clst < geo.nFatent)
      requires Fat()[ncl] == 0 && (clst != 0 ==> Fat()[clst] != 0)
      modifies this`disk, this`wflag, this`winsect, win
      ensures Valid()
      ensures Fat() == var f := old(Fat())[ncl := EndOfChain(geo.fsType)]; if clst == 0 then f else f[clst := ncl]
      ensures FreeCount(Fat()) == old(FreeCount(Fat())) - 1
      ensures FatOnly(geo, old(Logical()), Logical(), old(winsect), winsect)
    {
      hide *;
      FreeCountUpdate(Fat(), ncl, EndOfChain(geo.fsType));
      var res := PutFat(ncl, 0xFFFF_FFFF);
      if clst != 0 {
        FreeCountUpdate(Fat(), clst, ncl);
        ghost var d, at := Logical(), winsect;
        res := PutFat(clst, ncl);
        FatOnlyTrans(geo, old(Logical()), d, Logical(), old(winsect), at, winsect);
      }
    }

    /** Number of free clusters: the cached one if it is in range, otherwise by a scan of the
        FAT. On FAT12 the scan ends at an entry with the internal-error value, with an error and
        the count so far; on FAT16 and FAT32 it counts entries 0 and 1 along with the clusters. */
    method GetFree() returns (res: FResult, nclst: dword)
      requires Valid()
      modifies this`disk, this`wflag, this`winsect, this`freeClst, this`fsiFlag, win
      ensures Valid() && Logical() == old(Logical()) && freeClst == nclst
      ensures res == if old(freeClst) > geo.nFatent - 2 && geo.fsType == Fat12 && HasInvalid(Fat()) then IntErr else Ok
      ensures old(freeClst) <= geo.nFatent - 2 ==> nclst == old(freeClst)
      ensures old(freeClst) > geo.nFatent - 2 ==>
                nclst as int == if geo.fsType == Fat12 then FreeBelow(Fat(), ScanEnd(Fat(), 2))
                                else FreeCount(Fat()) + ZerosBelow(Fat(), 2)
      ensures old(FreeOk()) ==>
                (nclst as int == FreeCount(Fat())
                 <==> old(freeClst) <= geo.nFatent - 2
                      || if geo.fsType == Fat12 then !HidesFree(Fat()) else Fat()[0] != 0 && Fat()[1] != 0)
      ensures FreeOk() <==> nclst as int == FreeCount(Fat()) || nclst > geo.nFatent - 2
      ensures geo.fsType == Fat12 && old(FreeOk()) && FreeOk() ==> nclst as int == FreeCount(Fat())
    {
      hide Valid, Logical, FatFits, FatOf, Fat, FreeCount, FreeBelow, ScanEnd, ZerosBelow, HasInvalid, HidesFree;
      ghost var d, fat := Logical(), Fat();
      ScanExactly(fat);
      if freeClst <= geo.nFatent - 2 {
        return Ok, freeClst;
      }
      res := Ok;
      if geo.fsType == Fat12 {
        res, nclst := CountFree12();
      } else {
        nclst := CountFreeWords();
        ZerosSplit(fat, geo.nFatent);
        FreeBelowStep(fat, 2);
      }
      assert Fat() == fat;
      freeClst := nclst;
      fsiFlag := true;
      assert Logical() == d && Fat() == fat;
    }

    /** Counts the free clusters up to the first entry with the internal-error value. */
    method CountFree12() returns (res: FResult, nfree: dword)
      requires Valid()
      modifies this`disk, this`wflag, this`winsect, win
      ensures Valid() && Logical() == old(Logical()) && nfree as int == FreeBelow(Fat(), ScanEnd(Fat(), 2))
      ensures res == if ScanEnd(Fat(), 2) < geo.nFatent then IntErr else Ok
    {
      hide *;
      ghost var d, fat := Logical(), Fat();
      FreeBelowStep(fat, 2);
      nfree := 0;
      var clst: dword := 2;
      while clst < geo.nFatent
        invariant Valid() && Logical() == d
        invariant 2 <= clst <= geo.nFatent && nfree as int == FreeBelow(fat, clst) <= clst
        invariant forall x :: 2 <= x < clst ==> fat[x] != 1
      {
        var stat := GetFat(clst);
        assert Fat() == fat;
        FreeBelowStep(fat, clst);
        if stat == 1 {
          return IntErr, nfree;
        }
        if stat == 0 {
          nfree := nfree + 1;
        }
        clst := clst + 1;
      }
      return Ok, nfree;
    }

    method CountFreeWords() returns (nfree: dword)
      requires Valid() && geo.fsType != Fat12
      modifies this`disk, this`wflag, this`winsect, win
      ensures Valid() && Logical() == old(Logical()) && nfree as int == ZerosBelow(Fat(), geo.nFatent)
    {
      hide Valid, Logical, FatFits, GeometryOk, FatOf, Fat, ZerosBelow, ScanSector, ScanIndex;
      ghost var d, fat := Logical(), Fat();
      var w := if geo.fsType == Fat16 then 2 else 4;
      nfree := 0;
      ZerosBelowStep(fat, 0);
      ScanFirst(w);
      var clst, sect, i := geo.nFatent, geo.fatbase, 0;
      while clst > 0
        invariant Valid() && Logical() == d
        invariant 0 <= clst <= geo.nFatent
        invariant nfree as int == ZerosBelow(fat, geo.nFatent - clst) <= geo.nFatent - clst
        invariant i == ScanIndex(w, geo.nFatent - clst)
        invariant sect == geo.fatbase + ScanSector(w, geo.nFatent - clst) + if i == 0 then 0 else 1
        invariant i != 0 ==> winsect as int == sect - 1
      {
        ghost var k := geo.nFatent - clst;
        ScanInside(w, k);
        if i == 0 {
          MoveWindow(sect);
          sect := sect + 1;
        }
        var zero := WordIsZero(w, i, k);
        assert Fat() == fat;
        ZerosBelowStep(fat, k);
        if zero {
          nfree := nfree + 1;
        }
        ScanNext(w, k);
        i := (i + w) % SECTOR_SIZE;
        clst := clst - 1;
      }
    }

    /** Whether the word of the window at offset `i`, that of entry `k`, is a free entry. */
    method WordIsZero(w: nat, i: nat, ghost k: nat) returns (zero: bool)
      requires Valid() && geo.fsType != Fat12 && w == (if geo.fsType == Fat16 then 2 else 4) && k < geo.nFatent
      requires i == ScanIndex(w, k) && winsect as int == geo.fatbase + ScanSector(w, k)
      ensures zero <==> Fat()[k] == 0
    {
      hide Valid, Logical, FatFits, FatOf, Fat;
      if geo.fsType == Fat16 {
        WindowWord(k);
        zero := LdWord(win[..], i) == 0;
      } else {
        WindowDword(k);
        zero := LdDword(win[..], i) % 0x1000_0000 == 0;
      }
    }

    /** The scan stays inside the drive. */
    lemma ScanInside(w: nat, k: nat)
      requires Valid() && geo.fsType != Fat12 && w == (if geo.fsType == Fat16 then 2 else 4) && k < geo.nFatent
      ensures geo.fatbase + ScanSector(w, k) < |disk| && |disk| < 0x1_0000_0000
    {
      EntrySector(geo, |disk|, k);
    }
  }

  lemma WordOffset(c: nat)
    ensures 2 * c % SECTOR_SIZE == 2 * (c % 256) <= SECTOR_SIZE - 2 && 2 * c / SECTOR_SIZE == c / 256
  {
    var q, r := c / 256, c % 256;
    assert 2 * c == SECTOR_SIZE * q + 2 * r;
  }

  lemma DwordOffset(c: nat)
    ensures 4 * c % SECTOR_SIZE == 4 * (c % 128) <= SECTOR_SIZE - 4 && 4 * c / SECTOR_SIZE == c / 128
  {
    var q, r := c / 128, c % 128;
    assert 4 * c == SECTOR_SIZE * q + 4 * r;
  }

  // Where a scan of words of `w` bytes finds word `k`.

  function ScanSector(w: nat, k: nat): nat {
    w * k / SECTOR_SIZE
  }

  function ScanIndex(w: nat, k: nat): nat {
    w * k % SECTOR_SIZE
  }

  lemma ScanFirst(w: nat)
    ensures ScanSector(w, 0) == ScanIndex(w, 0) == 0
  {
    assert w * 0 == 0;
  }

  lemma ScanNext(w: nat, k: nat)
    requires w == 2 || w == 4
    ensures ScanIndex(w, k + 1) == (ScanIndex(w, k) + w) % SECTOR_SIZE
    ensures ScanSector(w, k + 1) == ScanSector(w, k) + if ScanIndex(w, k + 1) == 0 then 1 else 0
  {
    if w == 2 {
      StepWithin(2 * k, 2);
    } else {
      StepWithin(4 * k, 4);
    }
  }

  lemma StepWithin(x: nat, w: nat)
    requires (w == 2 || w == 4) && x % w == 0
    ensures (x + w) % SECTOR_SIZE == (x % SECTOR_SIZE + w) % SECTOR_SIZE
    ensures (x + w) / SECTOR_SIZE == x / SECTOR_SIZE + if (x + w) % SECTOR_SIZE == 0 then 1 else 0
  {
    var q, r := x / SECTOR_SIZE, x % SECTOR_SIZE;
    Aligned(x, w);
    if r + w == SECTOR_SIZE {
      SectorParts(q + 1, 0);
    } else {
      SectorParts(q, r + w);
    }
  }

  lemma SectorParts(q: nat, r: nat)
    requires r < SECTOR_SIZE
    ensures (512 * q + r) / SECTOR_SIZE == q && (512 * q + r) % SECTOR_SIZE == r
  {
  }

  /** First sector of a cluster, 0 for a number that is not one; sums wrap at 32 bits. */
  function ClstToSect(g: Geometry, clst: dword): (s: nat)
    requires g.nFatent >= 2
  {
    var c := Sub32(clst, 2);
    if c >= g.nFatent - 2 then 0 else (g.database + g.csize * c) % 0x1_0000_0000
  }

  /** Only the FAT copies were written, they still agree if they did, and the window was
      moved, if at all, to the first FAT. */
  ghost predicate FatOnly(g: Geometry, d: seq<Sector>, d': seq<Sector>, at: nat, at': nat)
    requires FatFits(g, |d|) && FatFits(g, |d'|)
  {
    && SameOutsideFats(g, d, d')
    && (Mirrored(g, d) ==> Mirrored(g, d'))
    && (at' == at || InFat1(g, at'))
  }

  lemma FatOnlyRefl(g: Geometry, d: seq<Sector>, at: nat, at': nat)
    requires FatFits(g, |d|) && (at' == at || InFat1(g, at'))
    ensures FatOnly(g, d, d, at, at')
  {
  }

  lemma FatOnlyParts(g: Geometry, d: seq<Sector>, d': seq<Sector>, at: nat, at': nat)
    requires FatFits(g, |d|) && FatFits(g, |d'|) && FatOnly(g, d, d', at, at')
    ensures SameOutsideFats(g, d, d') && |d'| == |d| && (at' == at || InFat1(g, at')) && MirrorKept(g, d, d')
  {
  }

  lemma FatOnlyTrans(g: Geometry, d: seq<Sector>, d': seq<Sector>, d'': seq<Sector>, at: nat, at': nat, at'': nat)
    requires FatFits(g, |d|) && FatFits(g, |d'|) && FatFits(g, |d''|)
    requires FatOnly(g, d, d', at, at') && FatOnly(g, d', d'', at', at'')
    ensures FatOnly(g, d, d'', at, at'')
  {
  }

  /** The sector that a FAT16 or FAT32 entry is looked up in. */
  lemma EntrySector(g: Geometry, sectors: nat, c: nat)
    requires GeometryOk(g, sectors) && c < g.nFatent
    ensures g.fsType == Fat16 ==> c / 256 == 2 * c / SECTOR_SIZE < g.fsize
    ensures g.fsType == Fat32 ==> c / 128 == 4 * c / SECTOR_SIZE < g.fsize
    ensures g.fatbase + g.fsize <= sectors < 0x1_0000_0000
  {
  }

  lemma SectorInFat(off: nat, fsize: nat)
    requires off < fsize * SECTOR_SIZE
    ensures off / SECTOR_SIZE < fsize
  {
  }

  lemma Aligned(off: nat, n: nat)
    requires (n == 2 || n == 4) && off % n == 0
    ensures off % SECTOR_SIZE + n <= SECTOR_SIZE
  {
    var q, r, m := off / SECTOR_SIZE, off % SECTOR_SIZE, off / n;
    if n == 4 {
      assert r == 4 * (m - 128 * q);
    } else {
      assert r == 2 * (m - 256 * q);
    }
  }

  lemma SameSector(off: nat, k: nat)
    requires off % SECTOR_SIZE + k < SECTOR_SIZE
    ensures (off + k) / SECTOR_SIZE == off / SECTOR_SIZE && (off + k) % SECTOR_SIZE == off % SECTOR_SIZE + k
  {
  }
}
