/** An open file: reading, writing and seeking through a private sector buffer, proved to act
    on a sequence of bytes. */
module FileObject {
  import opened Bytes
  import opened FatTable
  import opened Chains
  import opened Tiling
  import opened Volume
  import opened FileView

  class Fil {
    const fs: FatFs
    var sclust: dword     // first cluster, 0 if none
    var objsize: dword    // file size
    var fptr: dword       // read/write position
    var clust: dword      // cluster of byte fptr - 1
    var sect: dword       // sector in the buffer, 0 if none
    const buf: array<byte>
    var dirty: bool       // the buffer must be written back
    var modified: bool
    const canRead: bool
    const canWrite: bool
    var err: FResult
    ghost var chain: seq<nat>   // the cluster chain of the file

    /** The private buffer, its sector and the volume agree on the file's chain. */
    ghost predicate Sound()
      reads this`sclust, this`objsize, this`sect, this`dirty, this`chain, buf, fs`disk, fs`winsect, fs`wflag, fs.win
      ensures Sound() ==> fs.Valid() && buf.Length == SECTOR_SIZE && buf != fs.win
      ensures Sound() ==> fs.geo.csize > 0 && ChainIn(fs.geo, chain) && (dirty ==> sect as int < |fs.disk|)
      ensures Sound() ==> Holds(fs.geo, fs.Logical(), chain, objsize)
    {
      && fs.Valid() && buf.Length == SECTOR_SIZE && buf != fs.win
      && FileState(fs.geo, fs.Fat(), fs.Logical(), fs.winsect, chain, sclust, objsize, dirty, sect, buf[..])
    }

    /** The drive as this file sees it. */
    ghost function Drive(): (e: seq<Sector>)
      requires Sound()
      reads this`sclust, this`objsize, this`sect, this`dirty, this`chain, buf, fs`disk, fs`winsect, fs`wflag, fs.win
      ensures |e| == |fs.disk| && Holds(fs.geo, e, chain, objsize)
    {
      View(fs.Logical(), dirty, sect, buf[..])
    }

    /** The content of the file. */
    ghost function Content(): (c: seq<byte>)
      requires Sound()
      reads this`sclust, this`objsize, this`sect, this`dirty, this`chain, buf, fs`disk, fs`winsect, fs`wflag, fs.win
      ensures |c| == objsize as int
    {
      ContentOf(fs.geo, Drive(), chain, objsize)
    }

    /** What holds between the calls that make up an operation. */
    ghost predicate Ready()
      reads this`sclust, this`objsize, this`sect, this`dirty, this`chain, this`fptr, this`clust, buf
      reads fs`disk, fs`winsect, fs`wflag, fs.win
      ensures Ready() ==> Sound() && fptr <= objsize
    {
      Sound() && CursorOk(fs.geo, chain, fptr, objsize, clust, sect)
    }

    /** The invariant of an open file. Once an operation has been aborted the position means
        nothing, and every later operation is refused. */
    ghost predicate Valid()
      reads this, buf, fs, fs.win
    {
      Sound() && (err == Ok ==> Ready())
    }

    /** The chain reaches byte `p`. */
    ghost predicate Under(p: nat)
      requires fs.geo.csize > 0
      reads this`chain
    {
      HasSector(fs.geo, chain, p / SECTOR_SIZE)
    }

    /** Position in the chain of the cluster of byte `p`. */
    ghost function ClusterOf(p: nat): nat
      requires fs.geo.csize > 0
    {
      p / SECTOR_SIZE / fs.geo.csize
    }

    /** The file just opened: positioned at its first byte, with an empty buffer. */
    constructor (volume: FatFs, start: dword, size: dword, read: bool, write: bool, ghost ch: seq<nat>)
      requires volume.Valid()
      requires if start == 0 then ch == [] else IsChain(volume.Fat(), ch) && ch[0] == start as int
      requires Holds(volume.geo, volume.Logical(), ch, size)
      requires WindowAway(volume.geo, volume.Fat(), ch, volume.winsect)
      ensures Valid() && err == Ok && fresh(buf) && fs == volume && chain == ch && objsize == size && fptr == 0
      ensures canRead == read && canWrite == write && err == Ok
      ensures Content() == ContentOf(volume.geo, volume.Logical(), ch, size)
    {
      fs := volume;
      sclust, objsize, fptr, clust, sect := start, size, 0, 0, 0;
      buf := new byte[SECTOR_SIZE](_ => 0);
      dirty, modified, canRead, canWrite, err := false, false, read, write, Ok;
      chain := ch;
    }

    /** Writes the buffer back if it is dirty. */
    method Flush()
      requires Sound()
      modifies this`dirty, fs`disk
      ensures Sound() && !dirty
      ensures Drive() == old(Drive()) && Content() == old(Content()) && fs.Fat() == old(fs.Fat())
      ensures FileOnly(fs.geo, fs.Fat(), old(fs.Logical()), chain, fs.Fat(), fs.Logical(), chain)
    {
      hide FileState, FileOnly, FatFits, GeometryOk, ContentOf;
      hide FatFs.Valid, FatFs.Logical, FatFs.Fat, FatFs.FreeOk, FatOf, EndOfChain, MaxClusters, EntryLimit;
      ghost var d, b := fs.Logical(), buf[..];
      FileOnlyRefl(fs.geo, fs.Fat(), d, chain);
      if dirty {
        FlushState(fs.geo, fs.Fat(), d, fs.winsect, chain, sclust, objsize, sect, b);
        fs.WriteSectors(sect, buf[..], 1);
        assert Piece(b, 0) == b;
        assert fs.Logical() == d[sect := b];
        dirty := false;
      }
    }

    /** Follows the chain from cluster number `q - 1`, which is `prev`, stretching it if it ends
        there; a `prev` of 0 begins the chain. The answer is that of `create_chain`. */
    method Extend(prev: dword, ghost q: nat) returns (clst: dword)
      requires Sound()
      requires if prev == 0 then sclust == 0 && q == 0
               else sclust != 0 && 0 < q <= |chain| && prev as int == chain[q - 1]
      modifies this`sclust, this`chain
      modifies fs`disk, fs`wflag, fs`winsect, fs`freeClst, fs`lastClst, fs`fsiFlag, fs.win
      ensures Sound() && Content() == old(Content()) && old(chain) <= chain
      ensures FileOnly(fs.geo, old(fs.Fat()), old(fs.Logical()), old(chain), fs.Fat(), fs.Logical(), chain)
      ensures old(fs.FreeOk()) ==> fs.FreeOk()
      ensures clst < 2 ==> fs.Fat() == old(fs.Fat()) && chain == old(chain) && sclust == old(sclust)
      ensures q < |old(chain)| ==>
              clst >= 2 && fs.Fat() == old(fs.Fat()) && chain == old(chain) && sclust == old(sclust)
      ensures clst == 0 ==> fs.freeClst == 0 || NoStop(fs.Fat())
      ensures clst == 1 ==> HasInvalid(fs.Fat())
      ensures clst >= 2 ==> sclust != 0 && q < |chain| && chain[q] == clst as int
    {
      hide FileState, FileOnly, FatFits, GeometryOk, ContentOf, WindowAway, CreateOutcome, IsChain, NoStop, HasInvalid,
           ChainIn, Holds, Mirrored, MirrorKept, SameOutsideFats;
      hide FatFs.Valid, FatFs.Logical, FatFs.Fat, FatFs.FreeOk, FatOf, EndOfChain, MaxClusters, EntryLimit;
      ghost var g, fat, d, ws, ch, scl, n := fs.geo, fs.Fat(), fs.Logical(), fs.winsect, chain, sclust, objsize;
      ghost var dirty0, sect0, b, hint, free := dirty, sect, buf[..], fs.lastClst, fs.freeClst;
      StateParts(g, fat, d, ws, ch, scl, n, dirty0, sect0, b);
      clst := fs.CreateChain(prev);
      ghost var fat', d', ws' := fs.Fat(), fs.Logical(), fs.winsect;
      FatOnlyParts(g, d, d', ws, ws');
      GrowFile(g, fat, d, fat', d', ws, ws', ch, q, EndOfChain(g.fsType), hint,
               fs.lastClst, free, fs.freeClst, prev, clst);
      chain := Grown(ch, prev, clst);
      if prev == 0 && clst >= 2 {
        sclust := clst;
      }
      GrowState(g, fat, d, ws, ch, scl, fat', d', ws', chain, sclust, n, dirty0, sect0, b);
      assert fs.Fat() == fat' && fs.Logical() == d' && buf[..] == b;
    }

    /** At the first byte of a cluster the current cluster is the one before in the chain. */
    lemma CursorCluster()
      requires Ready() && fptr % SECTOR_SIZE == 0 && fptr / SECTOR_SIZE % fs.geo.csize == 0
      ensures var q := ClusterOf(fptr);
              if fptr == 0 then q == 0 else 0 < q <= |chain| && clust as int == chain[q - 1] && clust >= 2
      ensures if sclust == 0 then chain == [] && fptr == 0 else chain != [] && chain[0] == sclust as int >= 2
      ensures ClusterOf(0) == 0
    {
      hide GeometryOk, WindowAway, BufferOk;
      hide FatFs.Valid, FatFs.Logical, FatFs.Fat, FatFs.FreeOk, FatOf, EndOfChain, MaxClusters, EntryLimit;
      DivideUnique(0, 0, 0, fs.geo.csize);
      if fptr > 0 {
        DividePrevious(fptr / SECTOR_SIZE, fs.geo.csize);
        assert (fptr - 1) / SECTOR_SIZE == fptr / SECTOR_SIZE - 1;
      }
    }

    /** At the first byte of a cluster: moves into it, stretching or beginning the chain if it
        ends here. The answer is that of `create_chain`. */
    method EnterForWrite() returns (clst: dword)
      requires Ready() && fptr % SECTOR_SIZE == 0 && fptr / SECTOR_SIZE % fs.geo.csize == 0
      modifies this`sclust, this`clust, this`chain
      modifies fs`disk, fs`wflag, fs`winsect, fs`freeClst, fs`lastClst, fs`fsiFlag, fs.win
      ensures Sound() && Content() == old(Content())
      ensures FileOnly(fs.geo, old(fs.Fat()), old(fs.Logical()), old(chain), fs.Fat(), fs.Logical(), chain)
      ensures old(fs.FreeOk()) ==> fs.FreeOk()
      ensures clst < 2 ==> Ready() && fs.Fat() == old(fs.Fat())
      ensures clst == 0 ==> fs.freeClst == 0 || NoStop(fs.Fat())
      ensures clst == 1 ==> HasInvalid(fs.Fat())
      ensures clst >= 2 ==> Under(fptr) && clust as int == chain[ClusterOf(fptr)]
    {
      hide Sound, Drive, Content, FileState, FileOnly, FatFits, GeometryOk, ContentOf, WindowAway, CursorOk, IsChain,
           NoStop, HasInvalid, ChainIn, Holds;
      hide FatFs.Valid, FatFs.Logical, FatFs.Fat, FatFs.FreeOk, FatOf, EndOfChain, MaxClusters, EntryLimit;
      CursorCluster();
      ghost var q, ch := ClusterOf(fptr), chain;
      FileOnlyRefl(fs.geo, fs.Fat(), fs.Logical(), chain);
      if fptr == 0 && sclust != 0 {
        clst := sclust;
      } else {
        clst := Extend(if fptr == 0 then 0 else clust, q);
      }
      if clst >= 2 {
        assert q < |chain| && chain[q] == clst as int;
        clust := clst;
      } else {
        assert chain == ch;
      }
    }

    /** Makes the buffer stand for sector `s`, reading it unless the file ends before it. */
    method Load(s: dword)
      requires Sound() && fptr <= objsize && ClusterAt(fs.geo, chain, fptr, clust) && !dirty
      requires s as int == SectorOf(fs.geo, chain, fptr / SECTOR_SIZE) && fptr % SECTOR_SIZE == 0
      modifies this`sect, buf
      ensures sect == s && Loaded(fs.Logical(), objsize, old(sect), old(buf[..]), fptr, s, buf[..])
    {
      hide FileState, SectorOf, Holds, GeometryOk;
      hide FatFs.Valid, FatFs.Logical, FatFs.Fat, FatFs.FreeOk, FatOf, EndOfChain, MaxClusters, EntryLimit;
      if sect != s && fptr < objsize {
        SectorFromDrive(s, fptr / SECTOR_SIZE);
        forall i | 0 <= i < SECTOR_SIZE {
          buf[i] := fs.disk[s][i];
        }
        assert buf[..] == fs.disk[s];
      }
      sect := s;
    }

    /** Copies part of a sector into the buffer, first loading sector `s` if the buffer does
        not show it, and moves the position. */
    method WritePart(s: dword, data: seq<byte>)
      requires Sound() && fptr <= objsize && ClusterAt(fs.geo, chain, fptr, clust)
      requires s as int == SectorOf(fs.geo, chain, fptr / SECTOR_SIZE) &&
               if fptr % SECTOR_SIZE == 0 then !dirty else sect == s
      requires 0 < |data| && fptr % SECTOR_SIZE + |data| <= SECTOR_SIZE && fptr as int + |data| < 0x1_0000_0000
      modifies this`sect, this`dirty, this`fptr, this`objsize, buf
      ensures Ready() && fptr as int == old(fptr) as int + |data|
      ensures Content() == Overwrite(old(Content()), old(fptr), data)
    {
      hide FileState, Overwrite, ContentOf, CursorOk, SectorOf, Holds, GeometryOk, WindowAway, IsChain;
      hide FatFs.Valid, FatFs.Logical, FatFs.Fat, FatFs.FreeOk, FatOf, EndOfChain, MaxClusters, EntryLimit;
      ghost var g, fat, d, ws := fs.geo, fs.Fat(), fs.Logical(), fs.winsect;
      ghost var n, dirty0, sect0, b, p := objsize, dirty, sect, buf[..], fptr;
      if fptr % SECTOR_SIZE == 0 {
        Load(s);
      }
      ghost var b1 := buf[..];
      PartialState(g, fat, d, ws, chain, sclust, n, dirty0, sect0, b, p, s, b1, data);
      PartCursor(g, chain, p, |data|, Larger(p + |data|, n), clust, s);
      CopyIn(data);
      hide Loaded, Patched;
      hide FatFs.Valid, FatFs.Logical, FatFs.Fat, FatFs.FreeOk, FatOf, EndOfChain, MaxClusters, EntryLimit;
      dirty := true;
      fptr := fptr + |data|;
      if fptr > objsize {
        objsize := fptr;
      }
      assert fs.Fat() == fat && fs.Logical() == d && objsize as int == Larger(p + |data|, n);
    }

    method CopyIn(data: seq<byte>)
      requires buf.Length == SECTOR_SIZE && fptr % SECTOR_SIZE + |data| <= SECTOR_SIZE
      modifies buf
      ensures buf[..] == Patched(old(buf[..]), fptr % SECTOR_SIZE, data)
    {
      forall i | 0 <= i < |data| {
        buf[fptr % SECTOR_SIZE + i] := data[i];
      }
    }

    /** A sector of the file read past the window is what the file sees there. */
    lemma SectorFromDrive(s: nat, j: nat)
      requires Sound() && HasSector(fs.geo, chain, j) && s == SectorOf(fs.geo, chain, j)
      ensures s < |fs.disk| && fs.disk[s] == fs.Logical()[s]
    {
      hide SectorOf, ClusterStart, IsChain, BufferOk;
      hide FatFs.Valid, FatFs.Logical, FatFs.Fat, FatFs.FreeOk, FatOf, EndOfChain, MaxClusters, EntryLimit;
      AwayFromOwn(fs.geo, fs.Fat(), fs.Logical(), chain, fs.winsect, j);
      fs.Physical(s);
    }

    /** Writes whole sectors straight to the drive and moves the position. */
    method WriteDirect(s: dword, data: seq<byte>, cc: nat)
      requires Sound() && !dirty && fptr <= objsize && ClusterAt(fs.geo, chain, fptr, clust) && fptr % SECTOR_SIZE == 0
      requires s as int == SectorOf(fs.geo, chain, fptr / SECTOR_SIZE)
      requires 0 < cc && fptr / SECTOR_SIZE % fs.geo.csize + cc <= fs.geo.csize
      requires |data| == SECTOR_SIZE * cc && fptr as int + |data| < 0x1_0000_0000
      modifies this`dirty, this`fptr, this`objsize, buf, fs`disk
      ensures Ready() && fptr as int == old(fptr) as int + |data|
      ensures Content() == Overwrite(old(Content()), old(fptr), data) && fs.Fat() == old(fs.Fat())
      ensures FileOnly(fs.geo, fs.Fat(), old(fs.Logical()), chain, fs.Fat(), fs.Logical(), chain)
    {
      hide FileState, FileOnly, Overwrite, ContentOf, CursorOk, SectorOf, Holds, GeometryOk, WindowAway, IsChain, Piece;
      hide FatFs.Valid, FatFs.Logical, FatFs.Fat, FatFs.FreeOk, FatOf, EndOfChain, MaxClusters, EntryLimit;
      ghost var g, fat, d, ws, n, b, p := fs.geo, fs.Fat(), fs.Logical(), fs.winsect, objsize, buf[..], fptr;
      RunInside(g, fat, d, ws, chain, sclust, n, false, sect, b, p / SECTOR_SIZE, cc);
      fs.WriteSectors(s, data, cc);
      ghost var d' := fs.Logical();
      DirectState(g, fat, d, d', ws, chain, sclust, n, sect, b, p, s, cc, data);
      DirectCursor(g, chain, p, cc, Larger(p + |data|, n), clust, sect);
      SubRange(sect, s, cc, |fs.disk|);
      if Sub32(sect, s) < cc {
        Refill(Piece(data, sect - s));
      }
      fptr := fptr + |data|;
      if fptr > objsize {
        objsize := fptr;
      }
      assert fs.Fat() == fat && fs.Logical() == d' && objsize as int == Larger(p + |data|, n);
    }

    /** Replaces the buffer, which then agrees with the drive. */
    method Refill(b: Sector)
      requires buf.Length == SECTOR_SIZE
      modifies this`dirty, buf
      ensures buf[..] == b && !dirty
    {
      forall i | 0 <= i < SECTOR_SIZE {
        buf[i] := b[i];
      }
      dirty := false;
    }

    /** One pass of the loop of `f_write`: writes the next piece of `rest`, or answers 0 or 1 as
        `create_chain` did. */
    method WritePass(rest: seq<byte>) returns (code: dword, wcnt: nat)
      requires Ready() && |rest| > 0 && fptr as int + |rest| < 0x1_0000_0000
      modifies this`sclust, this`clust, this`chain, this`sect, this`dirty, this`fptr, this`objsize, buf
      modifies fs`disk, fs`wflag, fs`winsect, fs`freeClst, fs`lastClst, fs`fsiFlag, fs.win
      ensures Ready() && wcnt <= |rest| && fptr as int == old(fptr) as int + wcnt
      ensures Content() == Overwrite(old(Content()), old(fptr), rest[..wcnt])
      ensures FileOnly(fs.geo, old(fs.Fat()), old(fs.Logical()), old(chain), fs.Fat(), fs.Logical(), chain)
      ensures old(fs.FreeOk()) ==> fs.FreeOk()
      ensures if code < 2 then wcnt == 0 else wcnt > 0
      ensures code == 0 ==> fs.freeClst == 0 || NoStop(fs.Fat())
      ensures code == 1 ==> HasInvalid(fs.Fat())
    {
      hide FileState, FileOnly, Overwrite, ContentOf, CursorOk, ClusterAt, SectorOf, Holds, WindowAway, IsChain,
           ChainIn, NoStop, HasInvalid, ClstToSect, FatFits, GeometryOk;
      hide FatFs.Valid, FatFs.Logical, FatFs.Fat, FatOf, EndOfChain, MaxClusters, EntryLimit;
      ghost var g, fat, d, ch, content, p, n := fs.geo, fs.Fat(), fs.Logical(), chain, Content(), fptr, objsize;
      CursorParts(g, chain, fptr, objsize, clust, sect);
      WrittenNone(content, p, rest);
      code := 2;
      if fptr % SECTOR_SIZE == 0 {
        var csect := fptr / SECTOR_SIZE % fs.geo.csize;
        code := EnterSector(csect);
        if code < 2 {
          return code, 0;
        }
        ghost var fat1, d1, ch1 := fs.Fat(), fs.Logical(), chain;
        ClusterSector(g, |fs.disk|, chain, fptr, clust);
        var s := ClstToSect(fs.geo, clust) + csect;
        var cc := |rest| / SECTOR_SIZE;
        if cc > 0 {
          if csect + cc > fs.geo.csize {
            cc := fs.geo.csize - csect;
          }
          wcnt := SECTOR_SIZE * cc;
          WriteDirect(s, rest[..wcnt], cc);
          FileOnlyTrans(g, fat, d, ch, fat1, d1, ch1, fs.Fat(), fs.Logical(), chain);
          return;
        }
        wcnt := |rest|;
        WritePart(s, rest[..wcnt]);
      } else {
        SameCluster(g, chain, fptr, objsize, clust, sect);
        FileOnlyRefl(g, fat, d, ch);
        wcnt := SECTOR_SIZE - fptr % SECTOR_SIZE;
        if wcnt > |rest| {
          wcnt := |rest|;
        }
        WritePart(sect, rest[..wcnt]);
      }
    }

    /** At a sector boundary: moves into the cluster of the position and empties the buffer. */
    method EnterSector(csect: nat) returns (code: dword)
      requires Ready() && fptr % SECTOR_SIZE == 0 && csect == fptr / SECTOR_SIZE % fs.geo.csize
      modifies this`sclust, this`clust, this`chain, this`dirty
      modifies fs`disk, fs`wflag, fs`winsect, fs`freeClst, fs`lastClst, fs`fsiFlag, fs.win
      ensures Sound() && fptr <= objsize && Content() == old(Content())
      ensures FileOnly(fs.geo, old(fs.Fat()), old(fs.Logical()), old(chain), fs.Fat(), fs.Logical(), chain)
      ensures old(fs.FreeOk()) ==> fs.FreeOk()
      ensures code < 2 ==> Ready()
      ensures code == 0 ==> fs.freeClst == 0 || NoStop(fs.Fat())
      ensures code == 1 ==> HasInvalid(fs.Fat())
      ensures code >= 2 ==> ClusterAt(fs.geo, chain, fptr, clust) && !dirty
    {
      hide FileState, FileOnly, ContentOf, SectorOf, Holds, WindowAway, IsChain, ChainIn, NoStop, HasInvalid, FatFits,
           GeometryOk;
      hide FatFs.Valid, FatFs.Logical, FatFs.Fat, FatOf, EndOfChain, MaxClusters, EntryLimit;
      ghost var g, fat, d, ch, content := fs.geo, fs.Fat(), fs.Logical(), chain, Content();
      code := 2;
      if csect == 0 {
        code := EnterForWrite();
        if code < 2 {
          return;
        }
      } else {
        SameCluster(g, chain, fptr, objsize, clust, sect);
        FileOnlyRefl(g, fat, d, ch);
      }
      ghost var fat1, d1, ch1 := fs.Fat(), fs.Logical(), chain;
      Flush();
      FileOnlyTrans(g, fat, d, ch, fat1, d1, ch1, fs.Fat(), fs.Logical(), chain);
    }

    /** Writes `data` at the position. All of it is written, up to the 4 GiB limit, unless the
        volume fills up; an invalid FAT entry met on the way ends the call with an error. In
        every case the file has the written bytes in place of its own and nothing else changed. */
    method Write(data: seq<byte>) returns (res: FResult, bw: nat)
      requires Valid() && |data| < 0x1_0000_0000
      modifies this`sclust, this`clust, this`chain, this`sect, this`dirty, this`fptr, this`objsize, this`modified
      modifies this`err, buf
      modifies fs`disk, fs`wflag, fs`winsect, fs`freeClst, fs`lastClst, fs`fsiFlag, fs.win
      ensures Valid() && bw <= |data|
      ensures FileOnly(fs.geo, old(fs.Fat()), old(fs.Logical()), old(chain), fs.Fat(), fs.Logical(), chain)
      ensures old(fs.FreeOk()) ==> fs.FreeOk()
      ensures old(err) != Ok || !canWrite ==>
                && res == (if old(err) != Ok then old(err) else Denied) && bw == 0
                && Content() == old(Content()) && fptr == old(fptr) && err == old(err)
      ensures old(err) == Ok && canWrite ==>
                && old(fptr) <= old(objsize) && bw <= Clipped(old(fptr), |data|)
                && Content() == Overwrite(old(Content()), old(fptr), data[..bw]) && fptr as int == old(fptr) as int + bw
                && err == res && (res == Ok || res == IntErr)
      ensures old(err) == Ok && canWrite && res == Ok ==>
                modified && (bw == Clipped(old(fptr), |data|) || fs.freeClst == 0 || NoStop(fs.Fat()))
      ensures old(err) == Ok && canWrite && res == IntErr ==> HasInvalid(fs.Fat())
    {
      hide Sound, FileState, FileOnly, Overwrite, Written, ContentOf, CursorOk, Holds, WindowAway, IsChain, ChainIn,
           NoStop, HasInvalid, FatFits, GeometryOk, Clipped;
      hide FatFs.Valid, FatFs.Logical, FatFs.Fat, FatFs.FreeOk, FatOf, EndOfChain, MaxClusters, EntryLimit;
      ghost var fat, d, ch, content, p := fs.Fat(), fs.Logical(), chain, Content(), fptr;
      FileOnlyRefl(fs.geo, fat, d, ch);
      if err != Ok {
        return err, 0;
      }
      if !canWrite {
        return Denied, 0;
      }
      CursorParts(fs.geo, chain, fptr, objsize, clust, sect);
      var btw := Clipped(fptr, |data|);
      var code;
      code, bw := WriteLoop(data[..btw]);
      WrittenOf(content, p, data, btw, bw, Content());
      if code == 1 {
        err := IntErr;
        return IntErr, bw;
      }
      modified := true;
      res := Ok;
    }

    /** The loop of `f_write`; the answer is 2 if all was written, else that of `create_chain`. */
    method WriteLoop(data: seq<byte>) returns (code: dword, bw: nat)
      requires Ready() && fptr as int + |data| < 0x1_0000_0000
      modifies this`sclust, this`clust, this`chain, this`sect, this`dirty, this`fptr, this`objsize, buf
      modifies fs`disk, fs`wflag, fs`winsect, fs`freeClst, fs`lastClst, fs`fsiFlag, fs.win
      ensures Ready() && bw <= |data|
      ensures Written(old(Content()), old(fptr), data, bw, Content()) && fptr as int == old(fptr) as int + bw
      ensures FileOnly(fs.geo, old(fs.Fat()), old(fs.Logical()), old(chain), fs.Fat(), fs.Logical(), chain)
      ensures old(fs.FreeOk()) ==> fs.FreeOk()
      ensures code >= 2 ==> bw == |data|
      ensures code == 0 ==> fs.freeClst == 0 || NoStop(fs.Fat())
      ensures code == 1 ==> HasInvalid(fs.Fat())
    {
      hide Ready, Sound, Drive, Content, FileState, FileOnly, Overwrite, Written, ContentOf, CursorOk, Holds,
           WindowAway, IsChain, ChainIn, NoStop, HasInvalid, FatFits, GeometryOk;
      hide FatFs.Valid, FatFs.Logical, FatFs.Fat, FatFs.FreeOk, FatOf, EndOfChain, MaxClusters, EntryLimit;
      ghost var g, fat, d, ch := fs.geo, fs.Fat(), fs.Logical(), chain;
      ghost var content, p, freeOk := Content(), fptr, fs.FreeOk();
      ghost var fat1, d1, ch1, content1 := fat, d, ch, content;
      FileOnlyRefl(g, fat, d, ch);
      WrittenNone(content, p, data);
      code, bw := 2, 0;
      while bw < |data|
        invariant Ready() && bw <= |data| && fptr as int == p as int + bw && code == 2
        invariant fat1 == fs.Fat() && d1 == fs.Logical() && ch1 == chain && content1 == Content()
        invariant Written(content, p, data, bw, content1)
        invariant FileOnly(g, fat, d, ch, fat1, d1, ch1)
        invariant freeOk ==> fs.FreeOk()
      {
        var wcnt;
        code, wcnt := WritePass(data[bw..]);
        FileOnlyTrans(g, fat, d, ch, fat1, d1, ch1, fs.Fat(), fs.Logical(), chain);
        WrittenMore(content, p, data, bw, content1, wcnt, Content());
        fat1, d1, ch1, content1 := fs.Fat(), fs.Logical(), chain, Content();
        if code < 2 {
          return;
        }
        code := 2;
        bw := bw + wcnt;
      }
    }

    /** At a sector boundary before the end of the file: moves into the cluster of the position. */
    method FollowForRead(csect: nat)
      requires Ready() && fptr < objsize && fptr % SECTOR_SIZE == 0 && csect == fptr / SECTOR_SIZE % fs.geo.csize
      modifies this`clust, fs`disk, fs`wflag, fs`winsect, fs.win
      ensures Sound() && Content() == old(Content()) && Drive() == old(Drive()) && fs.Logical() == old(fs.Logical())
      ensures ClusterAt(fs.geo, chain, fptr, clust)
    {
      hide FileState, ContentOf, SectorOf, Holds, WindowAway, IsChain, ChainIn, FatFits, GeometryOk, InFat1, EntryValue,
           HasSector, ClusterStart;
      hide FatFs.Valid, FatFs.Logical, FatFs.Fat, FatFs.FreeOk, FatOf, EndOfChain, MaxClusters, EntryLimit;
      ghost var g, fat, d, ws, b := fs.geo, fs.Fat(), fs.Logical(), fs.winsect, buf[..];
      FollowChain(g, fat, d, ws, chain, sclust, objsize, dirty, sect, b, fptr);
      if csect == 0 {
        CursorCluster();
        var clst;
        if fptr == 0 {
          clst := sclust;
        } else {
          clst := fs.GetFat(clust);
        }
        assert fs.Logical() == d && fs.Fat() == fat;
        clust := clst;
      } else {
        SameCluster(g, chain, fptr, objsize, clust, sect);
      }
      WindowMoved(g, fat, d, ws, fs.winsect, chain, sclust, objsize, dirty, sect, b);
    }

    /** Reads whole sectors of the current cluster from the drive, except that a dirty buffer
        stands for its own. */
    method ReadDirect(s: dword, cc: nat) returns (data: seq<byte>)
      requires Sound() && ClusterAt(fs.geo, chain, fptr, clust) && fptr % SECTOR_SIZE == 0
      requires s as int == SectorOf(fs.geo, chain, fptr / SECTOR_SIZE)
      requires 0 < cc && fptr / SECTOR_SIZE % fs.geo.csize + cc <= fs.geo.csize &&
               fptr as int + SECTOR_SIZE * cc <= objsize as int
      ensures |data| == SECTOR_SIZE * cc && data == Content()[fptr..fptr as int + |data|]
    {
      hide FileState, ContentOf, SectorOf, Holds, WindowAway, IsChain, FatFits, GeometryOk, Piece;
      hide FatFs.Valid, FatFs.Logical, FatFs.Fat, FatFs.FreeOk, FatOf, EndOfChain, MaxClusters, EntryLimit;
      ghost var g, fat, d, ws, b, j := fs.geo, fs.Fat(), fs.Logical(), fs.winsect, buf[..], fptr / SECTOR_SIZE;
      RunInside(g, fat, d, ws, chain, sclust, objsize, dirty, sect, b, j, cc);
      data := fs.ReadSectors(s, cc);
      forall k | 0 <= k < cc
        ensures Piece(data, k) == d[s as int + k]
      {
        SectorsRun(g, chain, j, k);
        SectorFromDrive(s as int + k, j + k);
      }
      SubRange(sect, s, cc, |fs.disk|);
      if dirty && Sub32(sect, s) < cc {
        ghost var before := data;
        var at := SECTOR_SIZE * (sect - s);
        data := data[..at] + buf[..] + data[at + SECTOR_SIZE..];
        PiecesAfter(before, b, sect as int - s as int, cc, data);
      }
      assert forall k :: 0 <= k < cc ==> Piece(data, k) == Drive()[s as int + k];
      RunContent(g, Drive(), chain, objsize, fptr, cc, data);
    }

    /** One pass of the loop of `f_read`: the next bytes, at most `btr`. */
    method ReadPass(btr: nat) returns (data: seq<byte>)
      requires Ready() && 0 < btr && fptr as int + btr <= objsize as int
      modifies this`clust, this`sect, this`dirty, this`fptr, buf, fs`disk, fs`wflag, fs`winsect, fs.win
      ensures Ready() && 0 < |data| <= btr && fptr as int == old(fptr) as int + |data|
      ensures Content() == old(Content()) && data == Content()[old(fptr)..fptr]
      ensures fs.Fat() == old(fs.Fat()) &&
              FileOnly(fs.geo, fs.Fat(), old(fs.Logical()), chain, fs.Fat(), fs.Logical(), chain)
    {
      hide Sound, Drive, FileState, FileOnly, ContentOf, CursorOk, SectorOf, Holds, WindowAway, IsChain, ChainIn,
           FatFits, GeometryOk, ClstToSect;
      hide FatFs.Valid, FatFs.Logical, FatFs.Fat, FatFs.FreeOk, FatOf, EndOfChain, MaxClusters, EntryLimit;
      ghost var g, fat, d, p, n, content := fs.geo, fs.Fat(), fs.Logical(), fptr, objsize, Content();
      FileOnlyRefl(g, fat, d, chain);
      if fptr % SECTOR_SIZE == 0 {
        var csect := fptr / SECTOR_SIZE % fs.geo.csize;
        FollowForRead(csect);
        ClusterSector(g, |fs.disk|, chain, fptr, clust);
        var s := ClstToSect(fs.geo, clust) + csect;
        var cc := btr / SECTOR_SIZE;
        if cc > 0 {
          if csect + cc > fs.geo.csize {
            cc := fs.geo.csize - csect;
          }
          data := ReadDirect(s, cc);
          DirectCursor(g, chain, p, cc, n, clust, sect);
          fptr := fptr + |data|;
          return;
        }
        LoadForRead(s);
      } else {
        SameCluster(g, chain, fptr, objsize, clust, sect);
        CursorParts(g, chain, fptr, objsize, clust, sect);
      }
      data := ReadPart(btr);
    }

    /** Copies what is left of the buffered sector, at most `btr` bytes. */
    method ReadPart(btr: nat) returns (data: seq<byte>)
      requires Sound() && 0 < btr && fptr as int + btr <= objsize as int
      requires ClusterAt(fs.geo, chain, fptr, clust) && sect as int == SectorOf(fs.geo, chain, fptr / SECTOR_SIZE)
      modifies this`fptr
      ensures Ready() && 0 < |data| <= btr && fptr as int == old(fptr) as int + |data|
      ensures Content() == old(Content()) && data == Content()[old(fptr)..fptr]
    {
      hide Sound, Drive, FileState, ContentOf, CursorOk, SectorOf, Holds, FatFits, GeometryOk;
      hide FatFs.Valid, FatFs.Logical, FatFs.Fat, FatFs.FreeOk, FatOf, EndOfChain, MaxClusters, EntryLimit;
      var rcnt := SECTOR_SIZE - fptr % SECTOR_SIZE;
      if rcnt > btr {
        rcnt := btr;
      }
      data := BytesFromBuffer(rcnt);
      PartCursor(fs.geo, chain, fptr, rcnt, objsize, clust, sect);
      fptr := fptr + rcnt;
    }

    /** Makes the buffer show sector `s`, writing it back first if it is dirty. */
    method LoadForRead(s: dword)
      requires Sound() && ClusterAt(fs.geo, chain, fptr, clust) &&
               s as int == SectorOf(fs.geo, chain, fptr / SECTOR_SIZE)
      modifies this`sect, this`dirty, buf, fs`disk
      ensures Sound() && sect == s && Content() == old(Content()) && fs.Fat() == old(fs.Fat())
      ensures FileOnly(fs.geo, fs.Fat(), old(fs.Logical()), chain, fs.Fat(), fs.Logical(), chain)
    {
      hide FileState, FileOnly, ContentOf, SectorOf, Holds, WindowAway, IsChain, FatFits, GeometryOk;
      hide FatFs.Valid, FatFs.Logical, FatFs.Fat, FatFs.FreeOk, FatOf, EndOfChain, MaxClusters, EntryLimit;
      FileOnlyRefl(fs.geo, fs.Fat(), fs.Logical(), chain);
      if sect != s {
        Flush();
        ghost var d, fat, b, sect0 := fs.Logical(), fs.Fat(), buf[..], sect;
        SectorFromDrive(s, fptr / SECTOR_SIZE);
        forall i | 0 <= i < SECTOR_SIZE {
          buf[i] := fs.disk[s][i];
        }
        assert buf[..] == d[s];
        LoadedState(fs.geo, fat, d, fs.winsect, chain, sclust, objsize, sect0, b, fptr / SECTOR_SIZE, s, buf[..]);
        sect := s;
      }
    }

    method BytesFromBuffer(rcnt: nat) returns (data: seq<byte>)
      requires Sound() && ClusterAt(fs.geo, chain, fptr, clust) &&
               sect as int == SectorOf(fs.geo, chain, fptr / SECTOR_SIZE)
      requires fptr as int + rcnt <= objsize as int && fptr % SECTOR_SIZE + rcnt <= SECTOR_SIZE
      ensures |data| == rcnt && data == Content()[fptr..fptr as int + rcnt]
    {
      hide FileState, ContentOf, SectorOf, WindowAway, IsChain, FatFits;
      hide FatFs.Valid, FatFs.Logical, FatFs.Fat, FatFs.FreeOk, FatOf, EndOfChain, MaxClusters, EntryLimit;
      ghost var g, d, b := fs.geo, fs.Logical(), buf[..];
      StateParts(g, fs.Fat(), d, fs.winsect, chain, sclust, objsize, dirty, sect, b);
      SectorInside(g, |d|, chain, fptr / SECTOR_SIZE);
      BufferShows(g, fs.Fat(), d, fs.winsect, chain, sclust, objsize, dirty, sect, b);
      BufferContent(g, Drive(), chain, objsize, fptr, rcnt, b);
      data := buf[fptr % SECTOR_SIZE..fptr % SECTOR_SIZE + rcnt];
      assert data == b[fptr % SECTOR_SIZE..fptr % SECTOR_SIZE + rcnt];
    }

    /** Reads at the position: as many of the `btr` bytes asked for as the file has left. */
    method Read(btr: nat) returns (res: FResult, data: seq<byte>)
      requires Valid() && btr < 0x1_0000_0000
      modifies this`clust, this`sect, this`dirty, this`fptr, buf, fs`disk, fs`wflag, fs`winsect, fs.win
      ensures Valid() && Content() == old(Content())
      ensures res == if err != Ok then err else if !canRead then Denied else Ok
      ensures if res == Ok then
                old(fptr) <= objsize
                && fptr as int == (if btr <= objsize - old(fptr) then old(fptr) as int + btr else objsize as int)
                && data == Content()[old(fptr)..fptr]
              else data == [] && fptr == old(fptr)
      ensures fs.Fat() == old(fs.Fat()) &&
              FileOnly(fs.geo, fs.Fat(), old(fs.Logical()), chain, fs.Fat(), fs.Logical(), chain)
    {
      hide Ready, Sound, Drive, Content, FileState, FileOnly, ContentOf, CursorOk, Holds, FatFits, GeometryOk;
      hide FatFs.Valid, FatFs.Logical, FatFs.Fat, FatFs.FreeOk, FatOf, EndOfChain, MaxClusters, EntryLimit;
      ghost var g, fat, d, content, p := fs.geo, fs.Fat(), fs.Logical(), Content(), fptr;
      ghost var d1 := d;
      FileOnlyRefl(g, fat, d, chain);
      data := [];
      if err != Ok {
        return err, [];
      }
      if !canRead {
        return Denied, [];
      }
      var left := if btr <= objsize - fptr then btr else objsize - fptr;
      while left > 0
        invariant Ready() && 0 <= left && fptr as int + left <= objsize as int
        invariant fptr as int + left == if btr <= objsize - p then p as int + btr else objsize as int
        invariant Content() == content && p <= fptr && data == content[p..fptr]
        invariant fs.Fat() == fat && d1 == fs.Logical() && FileOnly(g, fat, d, chain, fat, d1, chain)
      {
        ghost var f := fptr;
        var piece := ReadPass(left);
        FileOnlyTrans(g, fat, d, chain, fat, d1, chain, fat, fs.Logical(), chain);
        d1 := fs.Logical();
        assert content[p..f] + content[f..fptr] == content[p..fptr];
        data := data + piece;
        left := left - |piece|;
      }
      res := Ok;
    }

    /** The cluster-following loop of `f_lseek`: from the start of cluster number `q0` towards the
        byte `ofs0` further on. The answer is 2 when its cluster is reached, 0 when the volume is
        full before that, 1 on an invalid FAT entry. */
    method FollowClusters(ghost q0: nat, ofs0: nat) returns (code: dword, ofs: nat, ghost q: nat)
      requires Sound() && q0 < |chain| && clust as int == chain[q0] >= 2 && sclust != 0 && 0 < ofs0
      requires fptr as int == ClusterBase(fs.geo, q0) && fptr as int + ofs0 < 0x1_0000_0000
      requires !canWrite ==> fptr as int + ofs0 <= objsize as int
      modifies this`fptr, this`clust, this`sclust, this`chain
      modifies fs`disk, fs`wflag, fs`winsect, fs`freeClst, fs`lastClst, fs`fsiFlag, fs.win
      ensures Sound() && Content() == old(Content()) && sclust != 0 && q < |chain| && clust as int == chain[q] >= 2
      ensures FileOnly(fs.geo, old(fs.Fat()), old(fs.Logical()), old(chain), fs.Fat(), fs.Logical(), chain)
      ensures old(fs.FreeOk()) ==> fs.FreeOk()
      ensures code >= 2 ==> 0 < ofs <= ClusterBytes(fs.geo) && fptr as int + ofs == old(fptr) as int + ofs0
      ensures code >= 2 ==> fptr as int == ClusterBase(fs.geo, q)
      ensures code == 0 ==> ofs == 0 && fptr as int == ClusterBase(fs.geo, q) + ClusterBytes(fs.geo)
      ensures code == 0 ==> fptr as int < old(fptr) as int + ofs0 && (fs.freeClst == 0 || NoStop(fs.Fat()))
      ensures code == 1 ==> HasInvalid(fs.Fat())
      ensures old(fptr) as int + ofs0 <= objsize as int ==>
              code >= 2 && chain == old(chain) && fs.Fat() == old(fs.Fat())
    {
      hide Sound, Drive, Content, FileState, FileOnly, ContentOf, Holds, FatFits, GeometryOk, ChainIn, IsChain, NoStop,
           HasInvalid, ClusterBase, ClusterBytes;
      hide FatFs.Valid, FatFs.Logical, FatFs.Fat, FatFs.FreeOk, FatOf, EndOfChain, MaxClusters, EntryLimit;
      ghost var g, fat, d, ch, freeOk, target := fs.geo, fs.Fat(), fs.Logical(), chain, fs.FreeOk(), fptr as int + ofs0;
      ghost var content := Content();
      ghost var fat1, d1, ch1 := fat, d, ch;
      FileOnlyRefl(g, fat, d, ch);
      NextBase(g, q0);
      var bcs := ClusterBytes(fs.geo);
      code, ofs, q := 2, ofs0, q0;
      while ofs > bcs
        invariant Sound() && Content() == content && q < |chain| && clust as int == chain[q] >= 2 && sclust != 0
        invariant 0 < ofs && fptr as int == ClusterBase(g, q) && fptr as int + ofs == target && code == 2
        invariant fat1 == fs.Fat() && d1 == fs.Logical() && ch1 == chain && FileOnly(g, fat, d, ch, fat1, d1, ch1)
        invariant freeOk ==> fs.FreeOk()
        invariant target <= objsize as int ==> chain == ch && fs.Fat() == fat
      {
        if target <= objsize as int {
          ReachCluster(g, fs.Logical(), chain, objsize, q, ofs);
        }
        NextBase(g, q);
        ofs := ofs - bcs;
        fptr := fptr + bcs;
        code := FollowOne(q);
        FileOnlyTrans(g, fat, d, ch, fat1, d1, ch1, fs.Fat(), fs.Logical(), chain);
        fat1, d1, ch1 := fs.Fat(), fs.Logical(), chain;
        if code < 2 {
          ofs := if code == 0 then 0 else ofs;
          return;
        }
        code := 2;
        q := q + 1;
      }
    }

    /** Moves from cluster number `q` to the next one, stretching the chain if the file may grow. */
    method FollowOne(ghost q: nat) returns (clst: dword)
      requires Sound() && sclust != 0 && q < |chain| && clust as int == chain[q] >= 2 && (!canWrite ==> q + 1 < |chain|)
      modifies this`clust, this`sclust, this`chain
      modifies fs`disk, fs`wflag, fs`winsect, fs`freeClst, fs`lastClst, fs`fsiFlag, fs.win
      ensures Sound() && Content() == old(Content()) && sclust != 0
      ensures FileOnly(fs.geo, old(fs.Fat()), old(fs.Logical()), old(chain), fs.Fat(), fs.Logical(), chain)
      ensures old(fs.FreeOk()) ==> fs.FreeOk()
      ensures clst < 2 ==> chain == old(chain) && clust == old(clust)
      ensures clst >= 2 ==> q + 1 < |chain| && clust as int == chain[q + 1] >= 2
      ensures clst == 0 ==> fs.freeClst == 0 || NoStop(fs.Fat())
      ensures clst == 1 ==> HasInvalid(fs.Fat())
      ensures q + 1 < |old(chain)| ==> clst >= 2 && chain == old(chain) && fs.Fat() == old(fs.Fat())
    {
      hide Sound, Drive, Content, FileState, FileOnly, ContentOf, Holds, FatFits, GeometryOk, ChainIn, IsChain, NoStop,
           HasInvalid;
      hide FatFs.Valid, FatFs.Logical, FatFs.Fat, FatOf, EndOfChain, MaxClusters, EntryLimit;
      FileOnlyRefl(fs.geo, fs.Fat(), fs.Logical(), chain);
      if canWrite {
        clst := Extend(clust, q + 1);
      } else {
        clst := NextCluster(q);
      }
      if clst >= 2 {
        clust := clst;
      }
    }

    /** Reads the link from cluster number `q` to the next one of the file. */
    method NextCluster(ghost q: nat) returns (clst: dword)
      requires Sound() && sclust != 0 && q + 1 < |chain| && clust as int == chain[q]
      modifies fs`disk, fs`wflag, fs`winsect, fs.win
      ensures Sound() && Content() == old(Content()) && fs.Fat() == old(fs.Fat()) && fs.Logical() == old(fs.Logical())
      ensures clst as int == chain[q + 1] >= 2
    {
      hide FileState, ContentOf, Holds, WindowAway, IsChain, ChainIn, FatFits, GeometryOk, InFat1;
      hide FatFs.Valid, FatFs.Logical, FatFs.Fat, FatFs.FreeOk, FatOf, EndOfChain, MaxClusters, EntryLimit;
      ghost var g, fat, d, ws, b := fs.geo, fs.Fat(), fs.Logical(), fs.winsect, buf[..];
      StateParts(g, fat, d, ws, chain, sclust, objsize, dirty, sect, b);
      EntryOfChain(fat, chain, q);
      clst := fs.GetFat(clust);
      assert fs.Logical() == d && fs.Fat() == fat;
      WindowMoved(g, fat, d, ws, fs.winsect, chain, sclust, objsize, dirty, sect, b);
    }

    /** Moves the position to byte `target`. A file open for writing grows when it ends before
        that, as far as the volume has room; otherwise the position stops at its end. Inside the
        file nothing but the position changes, and the bytes of the file never do. */
    method Seek(target: dword) returns (res: FResult)
      requires Valid()
      modifies this`sclust, this`clust, this`chain, this`sect, this`dirty, this`fptr, this`objsize, this`modified
      modifies this`err, buf
      modifies fs`disk, fs`wflag, fs`winsect, fs`freeClst, fs`lastClst, fs`fsiFlag, fs.win
      ensures Valid() && old(objsize) <= objsize && Content()[..old(objsize)] == old(Content())
      ensures FileOnly(fs.geo, old(fs.Fat()), old(fs.Logical()), old(chain), fs.Fat(), fs.Logical(), chain)
      ensures old(fs.FreeOk()) ==> fs.FreeOk()
      ensures old(err) != Ok ==> res == err == old(err) && fptr == old(fptr) && objsize == old(objsize)
      ensures old(err) == Ok ==> res == err && (res == Ok || (res == IntErr && HasInvalid(fs.Fat())))
      ensures old(err) == Ok && res == Ok ==>
                var t := if target > old(objsize) && !canWrite then old(objsize) else target;
                && fptr <= t && objsize == (if fptr > old(objsize) then fptr else old(objsize))
                && (fptr == t || fs.freeClst == 0 || NoStop(fs.Fat()))
      ensures old(err) == Ok && (target <= old(objsize) || !canWrite) ==>
                && res == Ok && fptr == (if target <= old(objsize) then target else old(objsize))
                && objsize == old(objsize) && Content() == old(Content()) && chain == old(chain)
                && fs.Fat() == old(fs.Fat())
    {
      hide Sound, Drive, Content, FileState, FileOnly, ContentOf, CursorOk, Holds, FatFits, GeometryOk, ChainIn,
           IsChain, NoStop, HasInvalid;
      hide FatFs.Valid, FatFs.Logical, FatFs.Fat, FatFs.FreeOk, FatOf, EndOfChain, MaxClusters, EntryLimit;
      FileOnlyRefl(fs.geo, fs.Fat(), fs.Logical(), chain);
      if err != Ok {
        return err;
      }
      var t := if target > objsize && !canWrite then objsize else target;
      if t == 0 {
        SeekStart();
        return Ok;
      }
      res := SeekTo(t);
      err := res;
    }

    /** Position 0 needs no cluster. */
    method SeekStart()
      requires Ready()
      modifies this`fptr
      ensures Ready() && fptr == 0 && Content() == old(Content())
    {
      hide FileState, ContentOf, Holds;
      fptr := 0;
    }

    /** The seek itself, to a byte other than the first. */
    method SeekTo(t: dword) returns (res: FResult)
      requires Ready() && t > 0 && (t <= objsize || canWrite) && err == Ok
      modifies this`sclust, this`clust, this`chain, this`sect, this`dirty, this`fptr, this`objsize, this`modified, buf
      modifies fs`disk, fs`wflag, fs`winsect, fs`freeClst, fs`lastClst, fs`fsiFlag, fs.win
      ensures Sound() && (res == Ok ==> Ready()) && old(objsize) <= objsize &&
              Content()[..old(objsize)] == old(Content())
      ensures FileOnly(fs.geo, old(fs.Fat()), old(fs.Logical()), old(chain), fs.Fat(), fs.Logical(), chain)
      ensures old(fs.FreeOk()) ==> fs.FreeOk()
      ensures res == Ok || (res == IntErr && HasInvalid(fs.Fat()))
      ensures res == Ok ==> fptr <= t && objsize == (if fptr > old(objsize) then fptr else old(objsize))
      ensures res == Ok ==> fptr == t || fs.freeClst == 0 || NoStop(fs.Fat())
      ensures t <= old(objsize) ==> res == Ok && fptr == t && objsize == old(objsize)
      ensures t <= old(objsize) ==> Content() == old(Content()) && chain == old(chain) && fs.Fat() == old(fs.Fat())
    {
      hide Sound, Drive, Content, FileState, FileOnly, ContentOf, CursorOk, Holds, FatFits, GeometryOk, ChainIn,
           IsChain, NoStop, HasInvalid, ClusterBase, ClusterBytes, ClusterStart;
      hide FatFs.Valid, FatFs.Logical, FatFs.Fat, FatOf, EndOfChain, MaxClusters, EntryLimit;
      ghost var g, fat, d, ch, content := fs.geo, fs.Fat(), fs.Logical(), chain, Content();
      FileOnlyRefl(g, fat, d, ch);
      ghost var q;
      var code;
      code, q := SeekFirst(t);
      if code < 2 {
        res := if code == 0 then Ok else IntErr;
        return;
      }
      ghost var fat1, d1, ch1 := fs.Fat(), fs.Logical(), chain;
      var ofs;
      code, ofs, q := FollowClusters(q, t - fptr);
      FileOnlyTrans(g, fat, d, ch, fat1, d1, ch1, fs.Fat(), fs.Logical(), chain);
      if code == 1 {
        return IntErr;
      }
      fat1, d1, ch1 := fs.Fat(), fs.Logical(), chain;
      SeekLast(ofs, q);
      FileOnlyTrans(g, fat, d, ch, fat1, d1, ch1, fs.Fat(), fs.Logical(), chain);
      res := Ok;
    }

    /** Chooses where the seek to byte `t` starts: at the current cluster, or at the first,
        which is allocated if there is none. */
    method SeekFirst(t: dword) returns (code: dword, ghost q: nat)
      requires Ready() && t > 0 && (t <= objsize || canWrite)
      modifies this`sclust, this`clust, this`chain, this`fptr
      modifies fs`disk, fs`wflag, fs`winsect, fs`freeClst, fs`lastClst, fs`fsiFlag, fs.win
      ensures Sound() && Content() == old(Content()) && fptr < t
      ensures FileOnly(fs.geo, old(fs.Fat()), old(fs.Logical()), old(chain), fs.Fat(), fs.Logical(), chain)
      ensures old(fs.FreeOk()) ==> fs.FreeOk()
      ensures code == 0 ==> Ready() && fptr == 0 && (fs.freeClst == 0 || NoStop(fs.Fat()))
      ensures code == 1 ==> HasInvalid(fs.Fat())
      ensures code >= 2 ==>
                sclust != 0 && q < |chain| && clust as int == chain[q] >= 2 && fptr as int == ClusterBase(fs.geo, q)
      ensures t <= objsize ==> code >= 2 && chain == old(chain) && fs.Fat() == old(fs.Fat())
    {
      hide Sound, Drive, Content, FileState, FileOnly, ContentOf, CursorOk, Holds, FatFits, GeometryOk, ChainIn,
           IsChain, NoStop, HasInvalid;
      hide ClusterBase, FatFs.Valid, FatFs.Logical, FatFs.Fat, FatFs.FreeOk, FatOf, EndOfChain, MaxClusters, EntryLimit;
      FileOnlyRefl(fs.geo, fs.Fat(), fs.Logical(), chain);
      NextBase(fs.geo, 0);
      var bcs := ClusterBytes(fs.geo);
      var ifptr := fptr;
      if ifptr > 0 && (t - 1) / bcs >= (ifptr - 1) / bcs {
        code, q := 2, (ifptr - 1) / bcs;
        SeekFromHere(fs.geo, chain, ifptr, objsize, clust, sect, t, q);
        BaseOf(fs.geo, (ifptr - 1) / bcs);
        fptr := (ifptr - 1) / bcs * bcs;
        HasChain();
      } else {
        q := 0;
        code := StartChain();
        fptr := 0;
        SeekAtStart(fs.geo, chain, objsize, clust, sect);
      }
    }

    lemma HasChain()
      requires Sound()
      ensures sclust == 0 ==> chain == [] && objsize == 0
      ensures sclust != 0 ==> 0 < |chain| && chain[0] == sclust as int >= 2
    {
      hide WindowAway, BufferOk, GeometryOk;
      SeekFromStart(fs.geo, fs.Fat(), fs.Logical(), fs.winsect, chain, sclust, objsize, dirty, sect, buf[..]);
    }

    /** Makes the first cluster current, allocating it if there is none. */
    method StartChain() returns (code: dword)
      requires Sound() && (objsize > 0 || canWrite)
      modifies this`sclust, this`clust, this`chain
      modifies fs`disk, fs`wflag, fs`winsect, fs`freeClst, fs`lastClst, fs`fsiFlag, fs.win
      ensures Sound() && Content() == old(Content())
      ensures FileOnly(fs.geo, old(fs.Fat()), old(fs.Logical()), old(chain), fs.Fat(), fs.Logical(), chain)
      ensures old(fs.FreeOk()) ==> fs.FreeOk()
      ensures code == 0 ==> fs.freeClst == 0 || NoStop(fs.Fat())
      ensures code == 1 ==> HasInvalid(fs.Fat())
      ensures code >= 2 ==> sclust != 0 && 0 < |chain| && clust as int == chain[0] >= 2
      ensures objsize > 0 ==> code >= 2 && chain == old(chain) && fs.Fat() == old(fs.Fat())
    {
      hide Sound, Drive, Content, FileState, FileOnly, ContentOf, CursorOk, Holds, FatFits, GeometryOk, ChainIn,
           IsChain, NoStop, HasInvalid;
      hide FatFs.Valid, FatFs.Logical, FatFs.Fat, FatFs.FreeOk, FatOf, EndOfChain, MaxClusters, EntryLimit;
      FileOnlyRefl(fs.geo, fs.Fat(), fs.Logical(), chain);
      HasChain();
      code := 2;
      if sclust == 0 {
        code := Extend(0, 0);
        HasChain();
      }
      clust := sclust;
    }

    /** Sets the position `ofs` bytes into cluster number `q`, grows the file if it ends before
        it, and shows the sector of the position if that is inside one. */
    method SeekLast(ofs: nat, ghost q: nat)
      requires Sound() && sclust != 0 && q < |chain| && clust as int == chain[q] >= 2
      requires fptr as int + ofs < 0x1_0000_0000
      requires if ofs == 0 then fptr as int == ClusterBase(fs.geo, q) + ClusterBytes(fs.geo)
               else ofs <= ClusterBytes(fs.geo) && fptr as int == ClusterBase(fs.geo, q)
      modifies this`fptr, this`objsize, this`modified, this`sect, this`dirty, buf, fs`disk
      ensures Ready() && fptr as int == old(fptr) as int + ofs
      ensures objsize == if fptr > old(objsize) then fptr else old(objsize)
      ensures Content()[..old(objsize)] == old(Content()) && fs.Fat() == old(fs.Fat())
      ensures FileOnly(fs.geo, fs.Fat(), old(fs.Logical()), chain, fs.Fat(), fs.Logical(), chain)
    {
      hide Sound, Drive, Content, FileState, FileOnly, ContentOf, CursorOk, Holds, FatFits, GeometryOk, ChainIn,
           IsChain, ClusterBase, ClusterBytes, ClusterStart;
      hide FatFs.Valid, FatFs.Logical, FatFs.Fat, FatOf, EndOfChain, MaxClusters, EntryLimit;
      ghost var g, n := fs.geo, objsize;
      FileOnlyRefl(g, fs.Fat(), fs.Logical(), chain);
      NextBase(g, q);
      var nsect := 0;
      if ofs % SECTOR_SIZE != 0 {
        SectorIn(clust);
        nsect := ClstToSect(fs.geo, clust) + ofs / SECTOR_SIZE;
      }
      SeekCursor(g, chain, q, if ofs == 0 then ClusterBytes(g) else ofs, Larger(fptr as int + ofs, n), clust, nsect);
      fptr := fptr + ofs;
      Stretch();
      if fptr % SECTOR_SIZE != 0 && nsect != sect {
        CursorParts(g, chain, fptr, objsize, clust, nsect);
        SameCluster(g, chain, fptr, objsize, clust, nsect);
        LoadForRead(nsect);
      }
      CursorSector(g, chain, fptr, objsize, clust, nsect, sect);
    }

    lemma SectorIn(c: dword)
      requires Sound() && 2 <= c && sclust != 0 && c as int in chain
      ensures ClstToSect(fs.geo, c) == ClusterStart(fs.geo, c)
      ensures ClusterStart(fs.geo, c) + fs.geo.csize < 0x1_0000_0000
    {
      hide FileState;
      StateParts(fs.geo, fs.Fat(), fs.Logical(), fs.winsect, chain, sclust, objsize, dirty, sect, buf[..]);
      ClstToSectIs(fs.geo, |fs.disk|, c);
    }

    /** Lets the file end at the position if it ended before it. */
    method Stretch()
      requires Sound() && (fptr > 0 ==> HasSector(fs.geo, chain, (fptr - 1) / SECTOR_SIZE))
      modifies this`objsize, this`modified
      ensures Sound() && objsize as int == Larger(fptr, old(objsize)) && Content()[..old(objsize)] == old(Content())
    {
      hide FileState, ContentOf, Holds;
      GrowSize(fs.geo, fs.Fat(), fs.Logical(), fs.winsect, chain, sclust, objsize, dirty, sect, buf[..], fptr);
      if fptr > objsize {
        objsize := fptr;
        modified := true;
      }
    }
  }

  /** How much of a write of `n` bytes is tried: file sizes stay below 4 GiB. */
  function Clipped(fptr: dword, n: nat): (r: nat)
    requires n < 0x1_0000_0000
    ensures r <= n && fptr + r < 0x1_0000_0000 && (r == n || fptr + r == 0xFFFF_FFFF)
  {
    if Add32(fptr, n) < fptr then 0xFFFF_FFFF - fptr else n
  }

  /** The unsigned test for `s <= sect < s + cc`. */
  lemma SubRange(sect: dword, s: dword, cc: nat, sectors: nat)
    requires s as int + cc <= sectors < 0x8000_0000 && cc < 0x8000_0000
    ensures Sub32(sect, s) as int < cc <==> s <= sect && sect as int < s as int + cc
  {
  }

  lemma PiecesAfter(before: seq<byte>, b: Sector, i: nat, cc: nat, after: seq<byte>)
    requires |before| == SECTOR_SIZE * cc && i < cc
    requires after == before[..SECTOR_SIZE * i] + b + before[SECTOR_SIZE * i + SECTOR_SIZE..]
    ensures |after| == |before|
    ensures forall k :: 0 <= k < cc ==> Piece(after, k) == if k == i then b else Piece(before, k)
  {
    forall k | 0 <= k < cc
      ensures Piece(after, k) == if k == i then b else Piece(before, k)
    {
      if k < i {
        assert SECTOR_SIZE * k + SECTOR_SIZE <= SECTOR_SIZE * i;
      } else if k > i {
        assert SECTOR_SIZE * i + SECTOR_SIZE <= SECTOR_SIZE * k;
      }
    }
  }
}