/** A file as the bytes of its cluster chain: which sector holds which byte, and what a write
    to one sector does to the content. */
module FileView {
  import opened Bytes
  import opened FatTable
  import opened Chains
  import opened Tiling
  import opened Volume

  // ---- Division by the cluster size ----

  lemma DivideUnique(a: nat, q: nat, r: nat, m: nat)
    requires a == q * m + r && r < m
    ensures a / m == q && a % m == r
  {
    var p, s := a / m, a % m;
    assert a == p * m + s;
    if p < q {
      assert (q - p) * m >= m by { MulAtLeast(q - p, m); }
    } else if p > q {
      assert (p - q) * m >= m by { MulAtLeast(p - q, m); }
    }
  }

  lemma MulAtLeast(k: int, m: nat)
    ensures k >= 1 ==> k * m >= m
  {
  }

  /** Going back by one stays in the same group of `m`, except from its first element. */
  lemma DividePrevious(a: nat, m: nat)
    requires 0 < a && 0 < m
    ensures (a - 1) / m == if a % m == 0 then a / m - 1 else a / m
    ensures a % m == 0 ==> a / m >= 1
  {
    var q, r := a / m, a % m;
    assert a == q * m + r;
    if r == 0 {
      assert q >= 1;
      assert a - 1 == (q - 1) * m + (m - 1);
      DivideUnique(a - 1, q - 1, m - 1, m);
    } else {
      DivideUnique(a - 1, q, r - 1, m);
    }
  }

  lemma DivideAhead(a: nat, k: nat, m: nat)
    requires 0 < m && a % m + k < m
    ensures (a + k) / m == a / m && (a + k) % m == a % m + k
  {
    DivideUnique(a + k, a / m, a % m + k, m);
  }

  lemma DivideMonotone(a: nat, b: nat, m: nat)
    requires a <= b && 0 < m
    ensures a / m <= b / m
  {
    var p, q := a / m, b / m;
    assert a == p * m + a % m && b == q * m + b % m;
    assert (p - q) * m == p * m - q * m;
    MulAtLeast(p - q, m);
  }

  // ---- Where the bytes of a file are ----

  /** First sector of cluster `c`. */
  function ClusterStart(g: Geometry, c: nat): int {
    g.database + g.csize * (c - 2)
  }

  /** Sector `s` belongs to cluster `c`. */
  predicate InCluster(g: Geometry, c: nat, s: int) {
    ClusterStart(g, c) <= s < ClusterStart(g, c) + g.csize
  }

  /** Chain `ch` reaches sector number `j` of its file. */
  predicate HasSector(g: Geometry, ch: seq<nat>, j: nat)
    requires g.csize > 0
  {
    j / g.csize < |ch|
  }

  /** The sector of the drive that holds sector number `j` of the file. */
  function SectorOf(g: Geometry, ch: seq<nat>, j: nat): int
    requires g.csize > 0 && HasSector(g, ch, j)
  {
    ClusterStart(g, ch[j / g.csize]) + j % g.csize
  }

  ghost predicate ChainIn(g: Geometry, ch: seq<nat>) {
    g.csize > 0 && Distinct(ch) && forall i :: 0 <= i < |ch| ==> 2 <= ch[i] < g.nFatent
  }

  lemma ClusterInside(g: Geometry, sectors: nat, c: nat)
    requires GeometryOk(g, sectors) && 2 <= c < g.nFatent
    ensures g.database <= ClusterStart(g, c) && ClusterStart(g, c) + g.csize <= sectors
  {
    assert g.csize * (c - 2) + g.csize == g.csize * (c - 1);
    MulMonotone(g.csize, c - 1, g.nFatent - 2);
  }

  lemma MulMonotone(m: nat, a: nat, b: nat)
    requires a <= b
    ensures m * a <= m * b
  {
  }

  /** Clusters do not share sectors. */
  lemma ClustersApart(g: Geometry, c: nat, e: nat)
    requires 2 <= c < e
    ensures ClusterStart(g, c) + g.csize <= ClusterStart(g, e)
  {
    assert g.csize * (c - 2) + g.csize == g.csize * (c - 1);
    MulMonotone(g.csize, c - 1, e - 2);
  }

  /** Every sector of a file lies in the data area of the volume. */
  lemma SectorInside(g: Geometry, sectors: nat, ch: seq<nat>, j: nat)
    requires GeometryOk(g, sectors) && ChainIn(g, ch) && HasSector(g, ch, j)
    ensures g.database <= SectorOf(g, ch, j) < sectors
    ensures InCluster(g, ch[j / g.csize], SectorOf(g, ch, j)) && ch[j / g.csize] in ch
  {
    ClusterInside(g, sectors, ch[j / g.csize]);
  }

  /** Different sectors of a file are different sectors of the drive. */
  lemma SectorsApart(g: Geometry, ch: seq<nat>, i: nat, j: nat)
    requires ChainIn(g, ch) && HasSector(g, ch, i) && HasSector(g, ch, j) && i != j
    ensures SectorOf(g, ch, i) != SectorOf(g, ch, j)
  {
    var p, q := i / g.csize, j / g.csize;
    if p == q {
      assert i == p * g.csize + i % g.csize && j == q * g.csize + j % g.csize;
    } else {
      var a, b := ch[p], ch[q];
      assert a != b;
      ClustersApart(g, if a < b then a else b, if a < b then b else a);
    }
  }

  /** Sectors of one cluster follow each other on the drive. */
  lemma SectorsRun(g: Geometry, ch: seq<nat>, j: nat, k: nat)
    requires ChainIn(g, ch) && HasSector(g, ch, j) && j % g.csize + k < g.csize
    ensures HasSector(g, ch, j + k) && SectorOf(g, ch, j + k) == SectorOf(g, ch, j) + k
  {
    DivideAhead(j, k, g.csize);
  }

  lemma EarlierSector(g: Geometry, ch: seq<nat>, i: nat, j: nat)
    requires g.csize > 0 && HasSector(g, ch, j) && i <= j
    ensures HasSector(g, ch, i)
  {
    DivideMonotone(i, j, g.csize);
  }

  // ---- Content ----

  /** The first `n` bytes of the file on drive `e`. */
  function ContentOf(g: Geometry, e: seq<Sector>, ch: seq<nat>, n: nat): (r: seq<byte>)
    requires Holds(g, e, ch, n)
    ensures |r| == n
    ensures forall i :: 0 <= i < n ==> r[i] == FileByte(g, e, ch, n, i)
  {
    seq(n, i requires 0 <= i < n => FileByte(g, e, ch, n, i))
  }

  /** Chain `ch` holds at least `n` bytes, all on the drive. */
  ghost predicate Holds(g: Geometry, e: seq<Sector>, ch: seq<nat>, n: nat) {
    GeometryOk(g, |e|) && ChainIn(g, ch) && (n > 0 ==> HasSector(g, ch, (n - 1) / SECTOR_SIZE))
  }

  function FileByte(g: Geometry, e: seq<Sector>, ch: seq<nat>, n: nat, i: nat): byte
    requires Holds(g, e, ch, n) && i < n
  {
    SectorReached(g, e, ch, n, i);
    e[SectorOf(g, ch, i / SECTOR_SIZE)][i % SECTOR_SIZE]
  }

  lemma SectorReached(g: Geometry, e: seq<Sector>, ch: seq<nat>, n: nat, i: nat)
    requires Holds(g, e, ch, n) && i < n
    ensures HasSector(g, ch, i / SECTOR_SIZE) && 0 <= SectorOf(g, ch, i / SECTOR_SIZE) < |e|
  {
    EarlierSector(g, ch, i / SECTOR_SIZE, (n - 1) / SECTOR_SIZE);
    SectorInside(g, |e|, ch, i / SECTOR_SIZE);
  }

  /** `c` with the bytes from `p` on replaced by `data`, growing if `data` ends later. */
  function Overwrite(c: seq<byte>, p: nat, data: seq<byte>): (r: seq<byte>)
    requires p <= |c|
    ensures |r| == if p + |data| > |c| then p + |data| else |c|
    ensures forall i :: 0 <= i < |r| ==> r[i] == if p <= i < p + |data| then data[i - p] else c[i]
  {
    c[..p] + data + if p + |data| < |c| then c[p + |data|..] else []
  }

  /** `c1` is content `c` with the first `k` bytes of `data` written from `p` on. */
  ghost predicate Written(c: seq<byte>, p: nat, data: seq<byte>, k: nat, c1: seq<byte>) {
    p <= |c| && k <= |data| && c1 == Overwrite(c, p, data[..k])
  }

  lemma WrittenNone(c: seq<byte>, p: nat, data: seq<byte>)
    requires p <= |c|
    ensures Written(c, p, data, 0, c) && Overwrite(c, p, data[..0]) == c
  {
  }

  lemma WrittenOf(c: seq<byte>, p: nat, data: seq<byte>, m: nat, k: nat, c1: seq<byte>)
    requires m <= |data| && Written(c, p, data[..m], k, c1)
    ensures k <= |data| && p <= |c| && c1 == Overwrite(c, p, data[..k])
  {
    assert data[..m][..k] == data[..k];
  }

  lemma WrittenMore(c: seq<byte>, p: nat, data: seq<byte>, k: nat, c1: seq<byte>, w: nat, c2: seq<byte>)
    requires Written(c, p, data, k, c1) && k + w <= |data| && p + k <= |c1|
    requires c2 == Overwrite(c1, p + k, data[k..][..w])
    ensures Written(c, p, data, k + w, c2)
  {
    assert data[k..][..w] == data[k..k + w];
    assert data[..k + w] == data[..k] + data[k..k + w];
    OverwriteTwice(c, p, data[..k], data[k..k + w]);
  }

  lemma OverwriteTwice(c: seq<byte>, p: nat, a: seq<byte>, b: seq<byte>)
    requires p <= |c|
    ensures Overwrite(Overwrite(c, p, a), p + |a|, b) == Overwrite(c, p, a + b)
  {
  }

  lemma ExtendHolds(g: Geometry, e: seq<Sector>, e': seq<Sector>, ch: seq<nat>, ch': seq<nat>, n: nat)
    requires Holds(g, e, ch, n) && ChainIn(g, ch') && ch <= ch' && |e'| == |e|
    requires forall j: nat :: HasSector(g, ch, j) && 0 <= SectorOf(g, ch, j) < |e| ==>
               e'[SectorOf(g, ch, j)] == e[SectorOf(g, ch, j)]
    ensures Holds(g, e', ch', n) && ContentOf(g, e', ch', n) == ContentOf(g, e, ch, n)
  {
    forall i | 0 <= i < n
      ensures FileByte(g, e', ch', n, i) == FileByte(g, e, ch, n, i)
    {
      SectorReached(g, e, ch, n, i);
    }
  }

  // ---- The private sector buffer ----

  /** `s` is one of the sectors of the file. */
  ghost predicate Own(g: Geometry, ch: seq<nat>, s: int)
    requires g.csize > 0
  {
    exists j: nat :: HasSector(g, ch, j) && SectorOf(g, ch, j) == s
  }

  /** The drive as the file sees it: a dirty buffer stands for its sector. */
  function View(d: seq<Sector>, dirty: bool, sect: nat, b: Sector): (e: seq<Sector>)
    requires dirty ==> sect < |d|
    ensures |e| == |d|
  {
    if dirty then d[sect := b] else d
  }

  /** The buffer holds nothing, or a sector of the file: as the drive has it unless dirty. */
  ghost predicate BufferOk(g: Geometry, d: seq<Sector>, ch: seq<nat>, dirty: bool, sect: nat, b: Sector)
    requires g.csize > 0
  {
    || (sect == 0 && !dirty)
    || (sect < |d| && Own(g, ch, sect) && (!dirty ==> d[sect] == b))
  }

  /** The volume's window shows neither a sector of the file nor one the file may be given. */
  ghost predicate WindowAway(g: Geometry, fat: seq<nat>, ch: seq<nat>, winsect: nat) {
    forall c :: 2 <= c < |fat| && (fat[c] == 0 || c in ch) ==> !InCluster(g, c, winsect)
  }

  lemma AwayFromOwn(g: Geometry, fat: seq<nat>, d: seq<Sector>, ch: seq<nat>, winsect: nat, j: nat)
    requires GeometryOk(g, |d|) && |fat| == g.nFatent && ChainIn(g, ch) && WindowAway(g, fat, ch, winsect) &&
             HasSector(g, ch, j)
    ensures SectorOf(g, ch, j) != winsect && g.database <= SectorOf(g, ch, j) < |d|
  {
    SectorInside(g, |d|, ch, j);
  }

  /** Everything an open file relies on: its chain `ch` begins at cluster `scl` and holds its
      `n` bytes, the window is elsewhere, and the buffer is right. */
  ghost predicate FileState(g: Geometry, fat: seq<nat>, d: seq<Sector>, ws: nat, ch: seq<nat>, scl: nat, n: nat,
                            dirty: bool, sect: nat, b: Sector)
  {
    && |fat| == g.nFatent
    && (if scl == 0 then ch == [] else IsChain(fat, ch) && ch[0] == scl)
    && Holds(g, d, ch, n)
    && WindowAway(g, fat, ch, ws)
    && BufferOk(g, d, ch, dirty, sect, b)
  }

  lemma StateParts(g: Geometry, fat: seq<nat>, d: seq<Sector>, ws: nat, ch: seq<nat>, scl: nat, n: nat, dirty: bool,
                   sect: nat, b: Sector)
    requires FileState(g, fat, d, ws, ch, scl, n, dirty, sect, b)
    ensures |fat| == g.nFatent && Holds(g, d, ch, n) && GeometryOk(g, |d|) && g.database > 0 &&
            WindowAway(g, fat, ch, ws) && ChainIn(g, ch)
    ensures if scl == 0 then ch == [] else IsChain(fat, ch) && ch[0] == scl
  {
  }

  /** The position of an open file: inside the file, the current cluster is that of the byte
      before it, and inside a sector the buffer shows that sector. */
  ghost predicate CursorOk(g: Geometry, ch: seq<nat>, fptr: nat, n: nat, clust: nat, sect: nat)
    requires g.csize > 0
  {
    && fptr <= n
    && (fptr > 0 ==> HasSector(g, ch, (fptr - 1) / SECTOR_SIZE) && clust == ch[(fptr - 1) / SECTOR_SIZE / g.csize])
    && (fptr % SECTOR_SIZE != 0 ==> HasSector(g, ch, fptr / SECTOR_SIZE) && sect == SectorOf(g, ch, fptr / SECTOR_SIZE))
  }

  /** Writing the buffer back leaves what the file sees. */
  lemma FlushState(g: Geometry, fat: seq<nat>, d: seq<Sector>, ws: nat, ch: seq<nat>, scl: nat, n: nat, sect: nat,
                   b: Sector)
    requires FileState(g, fat, d, ws, ch, scl, n, true, sect, b)
    ensures g.database <= sect < |d| && sect != ws
    ensures FileState(g, fat, d[sect := b], ws, ch, scl, n, false, sect, b)
    ensures FileOnly(g, fat, d, ch, fat, d[sect := b], ch)
  {
    var j: nat :| HasSector(g, ch, j) && SectorOf(g, ch, j) == sect;
    AwayFromOwn(g, fat, d, ch, ws, j);
    MirrorUntouched(g, d, d[sect := b]);
  }

  // ---- Effect of writes on the content ----

  /** Whole sectors written to the drive at the position of byte `p`. */
  lemma DirectContent(g: Geometry, d: seq<Sector>, d': seq<Sector>, ch: seq<nat>, n: nat, p: nat, cc: nat,
                      data: seq<byte>)
    requires Holds(g, d, ch, n) && p <= n && p % SECTOR_SIZE == 0 && |d'| == |d|
    requires HasSector(g, ch, p / SECTOR_SIZE) && 0 < cc && p / SECTOR_SIZE % g.csize + cc <= g.csize &&
             |data| == SECTOR_SIZE * cc
    requires var s := SectorOf(g, ch, p / SECTOR_SIZE);
             && (forall x :: 0 <= x < |d| && !(s <= x < s + cc) ==> d'[x] == d[x])
             && (forall x :: s <= x < s + cc && 0 <= x < |d| ==> d'[x] == Piece(data, x - s))
    ensures var m := if p + |data| > n then p + |data| else n;
            Holds(g, d', ch, m) && ContentOf(g, d', ch, m) == Overwrite(ContentOf(g, d, ch, n), p, data)
  {
    hide SectorOf, HasSector, ClusterStart, ChainIn, GeometryOk, Piece, FileByte;
    var m := if p + |data| > n then p + |data| else n;
    var j := p / SECTOR_SIZE;
    assert Holds(g, d', ch, m) by {
      SectorsRun(g, ch, j, cc - 1);
      RunBytes(p, cc, p + |data| - 1);
    }
    forall i | 0 <= i < m
      ensures FileByte(g, d', ch, m, i) == if p <= i < p + |data| then data[i - p] else FileByte(g, d, ch, n, i)
    {
      RunBytes(p, cc, i);
      DirectByte(g, d, d', ch, n, m, p, cc, data, i);
    }
  }

  /** Byte `i` in whole sectors from the aligned position `p` on. */
  lemma RunBytes(p: nat, cc: nat, i: nat)
    requires p % SECTOR_SIZE == 0
    ensures p <= i < p + SECTOR_SIZE * cc <==> p / SECTOR_SIZE <= i / SECTOR_SIZE < p / SECTOR_SIZE + cc
    ensures p <= i ==> i - p == SECTOR_SIZE * (i / SECTOR_SIZE - p / SECTOR_SIZE) + i % SECTOR_SIZE
    ensures cc > 0 && i == p + SECTOR_SIZE * cc - 1 ==> i / SECTOR_SIZE == p / SECTOR_SIZE + cc - 1
  {
  }

  lemma DirectByte(g: Geometry, d: seq<Sector>, d': seq<Sector>, ch: seq<nat>, n: nat, m: nat, p: nat, cc: nat,
                   data: seq<byte>, i: nat)
    requires Holds(g, d, ch, n) && Holds(g, d', ch, m) && |d'| == |d| && i < m
    requires HasSector(g, ch, p / SECTOR_SIZE) && p / SECTOR_SIZE % g.csize + cc <= g.csize &&
             |data| == SECTOR_SIZE * cc
    requires var s := SectorOf(g, ch, p / SECTOR_SIZE);
             && (forall x :: 0 <= x < |d| && !(s <= x < s + cc) ==> d'[x] == d[x])
             && (forall x :: s <= x < s + cc && 0 <= x < |d| ==> d'[x] == Piece(data, x - s))
    requires p <= i < p + |data| <==> p / SECTOR_SIZE <= i / SECTOR_SIZE < p / SECTOR_SIZE + cc
    requires p <= i ==> i - p == SECTOR_SIZE * (i / SECTOR_SIZE - p / SECTOR_SIZE) + i % SECTOR_SIZE
    requires !(p <= i < p + |data|) ==> i < n
    ensures FileByte(g, d', ch, m, i) == if p <= i < p + |data| then data[i - p] else FileByte(g, d, ch, n, i)
  {
    hide SectorOf, ClusterStart, GeometryOk, Piece;
    var j, q := p / SECTOR_SIZE, i / SECTOR_SIZE;
    SectorReached(g, d', ch, m, i);
    if p <= i < p + |data| {
      SectorsRun(g, ch, j, q - j);
      assert d'[SectorOf(g, ch, q)] == Piece(data, q - j);
      PieceAt(data, q - j, i % SECTOR_SIZE);
    } else {
      NotInRun(g, ch, j, cc, q);
    }
  }

  /** A sector of the file outside a run of its sectors is outside their place on the drive. */
  lemma NotInRun(g: Geometry, ch: seq<nat>, j: nat, cc: nat, q: nat)
    requires ChainIn(g, ch) && HasSector(g, ch, j) && j % g.csize + cc <= g.csize
    requires HasSector(g, ch, q) && !(j <= q < j + cc)
    ensures !(SectorOf(g, ch, j) <= SectorOf(g, ch, q) < SectorOf(g, ch, j) + cc)
  {
    var k := SectorOf(g, ch, q) - SectorOf(g, ch, j);
    if 0 <= k < cc {
      SectorsRun(g, ch, j, k);
      SectorsApart(g, ch, j + k, q);
    }
  }

  /** Part of one sector written to the buffer, which then stands for that sector. */
  lemma PartialContent(g: Geometry, e: seq<Sector>, e': seq<Sector>, ch: seq<nat>, n: nat, p: nat, b: Sector,
                       data: seq<byte>)
    requires Holds(g, e, ch, n) && p <= n && |e'| == |e| && HasSector(g, ch, p / SECTOR_SIZE)
    requires 0 < |data| && p % SECTOR_SIZE + |data| <= SECTOR_SIZE
    requires var j := p / SECTOR_SIZE; var s := SectorOf(g, ch, j);
             && (forall x :: 0 <= x < |e| && x != s ==> e'[x] == e[x])
             && (forall x :: 0 <= x < SECTOR_SIZE && 0 <= s < |e| && SECTOR_SIZE * j + x < n ==> b[x] == e[s][x])
             && (forall x :: 0 <= x < SECTOR_SIZE && 0 <= s < |e| ==>
                   e'[s][x] ==
                    if p % SECTOR_SIZE <= x < p % SECTOR_SIZE + |data| then data[x - p % SECTOR_SIZE] else b[x])
    ensures var m := if p + |data| > n then p + |data| else n;
            Holds(g, e', ch, m) && ContentOf(g, e', ch, m) == Overwrite(ContentOf(g, e, ch, n), p, data)
  {
    var m := if p + |data| > n then p + |data| else n;
    var j, s := p / SECTOR_SIZE, SectorOf(g, ch, p / SECTOR_SIZE);
    assert (p + |data| - 1) / SECTOR_SIZE == j;
    assert Holds(g, e', ch, m);
    forall i | 0 <= i < m
      ensures FileByte(g, e', ch, m, i) == if p <= i < p + |data| then data[i - p] else FileByte(g, e, ch, n, i)
    {
      SectorReached(g, e', ch, m, i);
      var q := i / SECTOR_SIZE;
      if q != j {
        SectorsApart(g, ch, q, j);
      } else {
        assert i == SECTOR_SIZE * j + i % SECTOR_SIZE;
      }
    }
  }

  // ---- Growing the chain of a file, and what other files see of it ----

  /** From table `fat`, drive `d` and chain `ch` to `fat'`, `d'` and `ch'`: the chain kept its
      clusters and got only free ones, no other entry changed, outside the FATs only sectors of
      the file did, and FAT copies that agreed still do. */
  ghost predicate FileOnly(g: Geometry, fat: seq<nat>, d: seq<Sector>, ch: seq<nat>, fat': seq<nat>, d': seq<Sector>,
                           ch': seq<nat>)
    requires g.csize > 0
  {
    && |fat'| == |fat| && |d'| == |d| && ch <= ch'
    && (forall c :: 0 <= c < |fat| && c !in ch' ==> fat'[c] == fat[c])
    && (forall c :: c in ch' && c !in ch ==> 2 <= c < |fat| && fat[c] == 0)
    && (forall c :: c in ch' && c in ch && 0 <= c < |fat| && fat[c] != 0 ==> fat'[c] != 0)
    && (forall s :: 0 <= s < |d| && !InFats(g, s) && !Own(g, ch', s) ==> d'[s] == d[s])
    && MirrorKept(g, d, d')
  }

  lemma OwnGrows(g: Geometry, ch: seq<nat>, ch': seq<nat>, s: int)
    requires g.csize > 0 && ch <= ch' && Own(g, ch, s)
    ensures Own(g, ch', s)
  {
    var j: nat :| HasSector(g, ch, j) && SectorOf(g, ch, j) == s;
    assert HasSector(g, ch', j) && SectorOf(g, ch', j) == s;
  }

  lemma FileOnlyTrans(g: Geometry, fat: seq<nat>, d: seq<Sector>, ch: seq<nat>,
                      fat': seq<nat>, d': seq<Sector>, ch': seq<nat>, fat'': seq<nat>, d'': seq<Sector>, ch'': seq<nat>)
    requires g.csize > 0 && FileOnly(g, fat, d, ch, fat', d', ch') && FileOnly(g, fat', d', ch', fat'', d'', ch'')
    ensures FileOnly(g, fat, d, ch, fat'', d'', ch'')
  {
    forall s | 0 <= s < |d| && !InFats(g, s) && !Own(g, ch'', s)
      ensures d''[s] == d[s]
    {
      if Own(g, ch', s) {
        OwnGrows(g, ch', ch'', s);
      }
    }
    forall c | c in ch'' && c !in ch
      ensures 2 <= c < |fat| && fat[c] == 0
    {
      if c !in ch' {
        assert fat'[c] == 0;
      }
    }
  }

  /** Another file keeps its chain and its content. */
  lemma OtherFileKept(g: Geometry, fat: seq<nat>, d: seq<Sector>, ch: seq<nat>,
                      fat': seq<nat>, d': seq<Sector>, ch': seq<nat>, other: seq<nat>, n: nat)
    requires GeometryOk(g, |d|) && |fat| == g.nFatent && FileOnly(g, fat, d, ch, fat', d', ch') && ChainIn(g, ch')
    requires IsChain(fat, other) && (forall c :: c in other ==> c !in ch) && Holds(g, d, other, n)
    ensures IsChain(fat', other) && Holds(g, d', other, n) && ContentOf(g, d', other, n) == ContentOf(g, d, other, n)
  {
    ChainUsed(fat, other);
    assert forall c :: c in other ==> c !in ch';
    OtherChain(fat, fat', other);
    forall j: nat | HasSector(g, other, j) && 0 <= SectorOf(g, other, j) < |d|
      ensures d'[SectorOf(g, other, j)] == d[SectorOf(g, other, j)]
    {
      var s := SectorOf(g, other, j);
      SectorInside(g, |d|, other, j);
      if Own(g, ch', s) {
        OneOwner(g, |d|, ch', s, other[j / g.csize]);
      }
    }
    ExtendHolds(g, d, d', other, other, n);
  }

  /** A sector belongs to one cluster. */
  lemma OneOwner(g: Geometry, sectors: nat, ch: seq<nat>, s: int, c: nat)
    requires GeometryOk(g, sectors) && ChainIn(g, ch) && Own(g, ch, s) && 2 <= c && InCluster(g, c, s)
    ensures c in ch
  {
    var j: nat :| HasSector(g, ch, j) && SectorOf(g, ch, j) == s;
    SectorInside(g, sectors, ch, j);
    hide GeometryOk, HasSector;
    var e := ch[j / g.csize];
    if e < c {
      ClustersApart(g, e, c);
    } else if c < e {
      ClustersApart(g, c, e);
    }
  }

  /** The chain after `create_chain(clst)` answered `r`: grown when `clst` was its end. */
  function Grown(ch: seq<nat>, clst: nat, r: nat): seq<nat> {
    if r < 2 || (ch != [] && clst != ch[|ch| - 1]) then ch else ch + [r]
  }

  /** What `create_chain` means for the file whose chain is followed or stretched from its
      cluster number `q`, or begun. */
  lemma GrowFile(g: Geometry, fat: seq<nat>, d: seq<Sector>, fat': seq<nat>, d': seq<Sector>, ws: nat, ws': nat,
                 ch: seq<nat>, q: nat, eoc: nat, hint: nat, hint': nat, free: nat, free': nat, clst: nat, r: nat)
    requires GeometryOk(g, |d|) && |fat| == g.nFatent && eoc >= |fat| && |d'| == |d|
    requires if clst == 0 then ch == [] && q == 0 else IsChain(fat, ch) && 0 < q <= |ch| && clst == ch[q - 1]
    requires CreateOutcome(fat, fat', eoc, hint, hint', free, free', clst, r)
    requires SameOutsideFats(g, d, d') && (ws' == ws || InFat1(g, ws')) && WindowAway(g, fat, ch, ws)
    requires MirrorKept(g, d, d')
    ensures var ch' := Grown(ch, clst, r);
            && (r >= 2 ==> IsChain(fat', ch') && q < |ch'| && ch'[q] == r)
            && (r < 2 ==> fat' == fat && q == |ch| && free' == free)
            && (q < |ch| ==> fat' == fat && ch' == ch)
            && WindowAway(g, fat', ch', ws')
            && FileOnly(g, fat, d, ch, fat', d', ch')
            && (r == 0 ==> free == 0 || NoStop(fat))
            && (r == 1 ==> HasInvalid(fat))
  {
    hide InFats, InCluster, Own, NoStop, SearchHit, IsChain, WindowAway;
    HitIsStop(fat, hint, clst);
    if clst != 0 {
      EntryOfChain(fat, ch, q - 1);
    }
    if fat' == fat {
      AwayKept(g, d, fat, fat, ch, ch, ws, ws');
      if r == 1 {
        assert clst == 0 || fat[clst] >= |fat|;
      }
    } else {
      assert 2 <= r < |fat| && fat[r] == 0 && (clst == 0 || fat[clst] >= |fat|);
      NewCluster(fat, fat', ch, eoc, clst, r);
      AwayKept(g, d, fat, fat', ch, ch + [r], ws, ws');
    }
  }

  lemma EntryOfChain(fat: seq<nat>, ch: seq<nat>, i: nat)
    requires IsChain(fat, ch) && i < |ch|
    ensures 2 <= ch[i] < |fat| && fat[ch[i]] == if i + 1 < |ch| then ch[i + 1] else fat[ch[i]]
    ensures fat[ch[i]] >= |fat| <==> i + 1 == |ch|
    ensures fat[ch[i]] >= 2
    ensures i + 1 < |ch| ==> ch[i] != ch[|ch| - 1]
  {
  }

  lemma NewCluster(fat: seq<nat>, fat': seq<nat>, ch: seq<nat>, eoc: nat, clst: nat, r: nat)
    requires if clst == 0 then ch == [] else IsChain(fat, ch) && clst == ch[|ch| - 1]
    requires 2 <= r < |fat| <= eoc && fat[r] == 0
    requires fat' == if clst == 0 then fat[r := eoc] else fat[r := eoc][clst := r]
    ensures IsChain(fat', ch + [r])
    ensures forall c :: 2 <= c < |fat| && c !in ch && c != r ==> fat'[c] == fat[c]
    ensures forall c :: c in ch && 0 <= c < |fat| && fat[c] != 0 ==> fat'[c] != 0
  {
    if clst != 0 {
      GrowChain(fat, ch, r, eoc);
    }
  }

  lemma AwayKept(g: Geometry, d: seq<Sector>, fat: seq<nat>, fat': seq<nat>, ch: seq<nat>, ch': seq<nat>, ws: nat,
                 ws': nat)
    requires GeometryOk(g, |d|) && |fat| == |fat'| == g.nFatent && WindowAway(g, fat, ch, ws) &&
             (ws' == ws || InFat1(g, ws'))
    requires forall c :: 2 <= c < |fat| && (fat'[c] == 0 || c in ch') ==> fat[c] == 0 || c in ch
    ensures WindowAway(g, fat', ch', ws')
  {
    forall c | 2 <= c < |fat| && (fat'[c] == 0 || c in ch')
      ensures !InCluster(g, c, ws')
    {
      ClusterInside(g, |d|, c);
    }
  }

  lemma FileOnlyRefl(g: Geometry, fat: seq<nat>, d: seq<Sector>, ch: seq<nat>)
    requires g.csize > 0
    ensures FileOnly(g, fat, d, ch, fat, d, ch)
  {
  }

  lemma IsChainIn(g: Geometry, fat: seq<nat>, ch: seq<nat>)
    requires g.csize > 0 && |fat| == g.nFatent && IsChain(fat, ch)
    ensures ChainIn(g, ch)
  {
  }

  lemma DataKept(g: Geometry, d: seq<Sector>, d': seq<Sector>, ch: seq<nat>)
    requires GeometryOk(g, |d|) && ChainIn(g, ch) && SameOutsideFats(g, d, d')
    ensures forall j: nat :: HasSector(g, ch, j) ==>
              0 <= SectorOf(g, ch, j) < |d| && d'[SectorOf(g, ch, j)] == d[SectorOf(g, ch, j)]
  {
    forall j: nat | HasSector(g, ch, j)
      ensures 0 <= SectorOf(g, ch, j) < |d| && d'[SectorOf(g, ch, j)] == d[SectorOf(g, ch, j)]
    {
      SectorInside(g, |d|, ch, j);
    }
  }

  /** An open file after its chain grew: same bytes, same buffer. */
  lemma GrowState(g: Geometry, fat: seq<nat>, d: seq<Sector>, ws: nat, ch: seq<nat>, scl: nat,
                  fat': seq<nat>, d': seq<Sector>, ws': nat, ch': seq<nat>, scl': nat,
                  n: nat, dirty: bool, sect: nat, b: Sector)
    requires FileState(g, fat, d, ws, ch, scl, n, dirty, sect, b)
    requires ch <= ch' && |fat'| == |fat| && |d'| == |d| && SameOutsideFats(g, d, d') && WindowAway(g, fat', ch', ws')
    requires if scl' == 0 then ch' == [] else IsChain(fat', ch') && ch'[0] == scl'
    ensures FileState(g, fat', d', ws', ch', scl', n, dirty, sect, b)
    ensures (dirty ==> sect < |d|)
    ensures ContentOf(g, View(d', dirty, sect, b), ch', n) == ContentOf(g, View(d, dirty, sect, b), ch, n)
  {
    hide SectorOf, HasSector, ClusterStart, FileByte, GeometryOk, IsChain, WindowAway;
    if scl' != 0 {
      IsChainIn(g, fat', ch');
    }
    DataKept(g, d, d', ch);
    if Own(g, ch, sect) {
      OwnGrows(g, ch, ch', sect);
      var j: nat :| HasSector(g, ch, j) && SectorOf(g, ch, j) == sect;
      assert d'[sect] == d[sect];
    }
    ExtendHolds(g, d, d', ch, ch', n);
    ExtendHolds(g, View(d, dirty, sect, b), View(d', dirty, sect, b), ch, ch', n);
  }

  function Larger(a: nat, b: nat): nat {
    if a > b then a else b
  }

  /** `b` with the bytes from `o` on replaced by `data`. */
  function Patched(b: Sector, o: nat, data: seq<byte>): (r: Sector)
    requires o + |data| <= SECTOR_SIZE
  {
    b[..o] + data + b[o + |data|..]
  }

  /** What the buffer holds when part of sector `s` is to be written at byte `p`: the sector,
      unless the file ends before it. */
  ghost predicate Loaded(d: seq<Sector>, n: nat, sect: nat, b: Sector, p: nat, s: nat, b1: Sector) {
    if p % SECTOR_SIZE != 0 || sect == s then b1 == b else p < n ==> s < |d| && b1 == d[s]
  }

  /** Writing part of a sector through the buffer overwrites exactly those bytes. */
  lemma PartialState(g: Geometry, fat: seq<nat>, d: seq<Sector>, ws: nat, ch: seq<nat>, scl: nat, n: nat, dirty: bool,
                     sect: nat, b: Sector, p: nat, s: nat, b1: Sector, data: seq<byte>)
    requires FileState(g, fat, d, ws, ch, scl, n, dirty, sect, b) && p <= n
    requires HasSector(g, ch, p / SECTOR_SIZE) && s == SectorOf(g, ch, p / SECTOR_SIZE)
    requires if p % SECTOR_SIZE == 0 then !dirty else sect == s
    requires Loaded(d, n, sect, b, p, s, b1) && 0 < |data| && p % SECTOR_SIZE + |data| <= SECTOR_SIZE
    ensures dirty ==> sect < |d|
    ensures s < |d| &&
            FileState(g, fat, d, ws, ch, scl, Larger(p + |data|, n), true, s, Patched(b1, p % SECTOR_SIZE, data))
    ensures ContentOf(g, View(d, true, s, Patched(b1, p % SECTOR_SIZE, data)), ch, Larger(p + |data|, n))
         == Overwrite(ContentOf(g, View(d, dirty, sect, b), ch, n), p, data)
  {
    hide SectorOf, HasSector, ClusterStart, FileByte, GeometryOk, IsChain, WindowAway, ContentOf, Overwrite, Patched,
         BufferOk;
    StateParts(g, fat, d, ws, ch, scl, n, dirty, sect, b);
    SectorInside(g, |d|, ch, p / SECTOR_SIZE);
    LoadedBytes(g, d, ch, n, dirty, sect, b, p, s, b1);
    var o := p % SECTOR_SIZE;
    PatchedAt(b1, o, data);
    PartialContent(g, View(d, dirty, sect, b), View(d, true, s, Patched(b1, o, data)), ch, n, p, b1, data);
    NowOwn(g, d, ch, s, p / SECTOR_SIZE, Patched(b1, o, data));
  }

  lemma NowOwn(g: Geometry, d: seq<Sector>, ch: seq<nat>, s: nat, j: nat, b: Sector)
    requires g.csize > 0 && HasSector(g, ch, j) && s == SectorOf(g, ch, j) && s < |d|
    ensures BufferOk(g, d, ch, true, s, b)
  {
    assert Own(g, ch, s);
  }

  lemma PatchedAt(b: Sector, o: nat, data: seq<byte>)
    requires o + |data| <= SECTOR_SIZE
    ensures forall x :: 0 <= x < SECTOR_SIZE ==>
              Patched(b, o, data)[x] == if o <= x < o + |data| then data[x - o] else b[x]
  {
  }

  /** The bytes of the file in the sector of byte `p` are in the buffer once it is loaded. */
  lemma LoadedBytes(g: Geometry, d: seq<Sector>, ch: seq<nat>, n: nat, dirty: bool, sect: nat, b: Sector, p: nat,
                    s: nat, b1: Sector)
    requires g.csize > 0 && BufferOk(g, d, ch, dirty, sect, b) && 0 < s < |d| && p <= n
    requires if p % SECTOR_SIZE == 0 then !dirty else sect == s
    requires Loaded(d, n, sect, b, p, s, b1)
    ensures dirty ==> sect < |d|
    ensures var e := View(d, dirty, sect, b);
            && (forall x :: 0 <= x < |d| && x != s ==> e[x] == d[x])
            && (forall x :: 0 <= x < SECTOR_SIZE && SECTOR_SIZE * (p / SECTOR_SIZE) + x < n ==> b1[x] == e[s][x])
  {
    hide Own;
    PastEnd(p, n);
  }

  /** At the end of the file on a sector boundary, its last sector is behind. */
  lemma PastEnd(p: nat, n: nat)
    ensures p % SECTOR_SIZE == 0 && n <= p ==> SECTOR_SIZE * (p / SECTOR_SIZE) >= n
  {
  }

  /** Writing whole sectors past the buffer overwrites exactly those bytes. */
  lemma DirectState(g: Geometry, fat: seq<nat>, d: seq<Sector>, d': seq<Sector>, ws: nat, ch: seq<nat>, scl: nat,
                    n: nat, sect: nat, b: Sector, p: nat, s: nat, cc: nat, data: seq<byte>)
    requires FileState(g, fat, d, ws, ch, scl, n, false, sect, b) && p <= n && p % SECTOR_SIZE == 0
    requires HasSector(g, ch, p / SECTOR_SIZE) && s == SectorOf(g, ch, p / SECTOR_SIZE)
    requires 0 < cc && p / SECTOR_SIZE % g.csize + cc <= g.csize && |data| == SECTOR_SIZE * cc && |d'| == |d|
    requires forall x :: 0 <= x < |d| ==> d'[x] == if s <= x < s + cc then Piece(data, x - s) else d[x]
    ensures FileState(g, fat, d', ws, ch, scl, Larger(p + |data|, n), false, sect,
                      if s <= sect < s + cc then Piece(data, sect - s) else b)
    ensures ContentOf(g, d', ch, Larger(p + |data|, n)) == Overwrite(ContentOf(g, d, ch, n), p, data)
    ensures FileOnly(g, fat, d, ch, fat, d', ch)
  {
    hide SectorOf, HasSector, ClusterStart, FileByte, GeometryOk, IsChain, WindowAway, ContentOf, Overwrite, Piece;
    DirectContent(g, d, d', ch, n, p, cc, data);
    RunInside(g, fat, d, ws, ch, scl, n, false, sect, b, p / SECTOR_SIZE, cc);
    DataApart(g, d, s);
    MirrorUntouched(g, d, d');
    forall x | 0 <= x < |d| && !Own(g, ch, x)
      ensures d'[x] == d[x]
    {
      if s <= x < s + cc {
        SectorsRun(g, ch, p / SECTOR_SIZE, x - s);
      }
    }
  }

  /** The FATs lie before the data. */
  lemma DataApart(g: Geometry, d: seq<Sector>, s: nat)
    requires GeometryOk(g, |d|) && g.database <= s
    ensures forall x: nat :: InFats(g, x) ==> x < s
  {
  }

  /** A run of sectors inside one cluster of the file is clear of the window and the FATs. */
  lemma RunInside(g: Geometry, fat: seq<nat>, d: seq<Sector>, ws: nat, ch: seq<nat>, scl: nat, n: nat, dirty: bool,
                  sect: nat, b: Sector, j: nat, cc: nat)
    requires FileState(g, fat, d, ws, ch, scl, n, dirty, sect, b)
    requires HasSector(g, ch, j) && 0 < cc && j % g.csize + cc <= g.csize
    ensures g.database <= SectorOf(g, ch, j) && SectorOf(g, ch, j) + cc <= |d| <= 0x1_0000_0000 / SECTOR_SIZE
    ensures !(SectorOf(g, ch, j) <= ws < SectorOf(g, ch, j) + cc)
  {
    hide SectorOf, HasSector, ClusterStart, IsChain, WindowAway, BufferOk;
    SectorsRun(g, ch, j, cc - 1);
    AwayFromOwn(g, fat, d, ch, ws, j);
    AwayFromOwn(g, fat, d, ch, ws, j + (cc - 1));
    var k := ws - SectorOf(g, ch, j);
    if 0 <= k < cc {
      SectorsRun(g, ch, j, k);
      AwayFromOwn(g, fat, d, ch, ws, j + k);
    }
  }

  // ---- Moving the position ----

  /** The current cluster is the one of byte `p`. */
  ghost predicate ClusterAt(g: Geometry, ch: seq<nat>, p: nat, clust: nat)
    requires g.csize > 0
  {
    HasSector(g, ch, p / SECTOR_SIZE) && clust == ch[p / SECTOR_SIZE / g.csize]
  }

  /** Away from the first byte of a cluster, byte p - 1 is in the cluster of byte `p`. */
  lemma SameCluster(g: Geometry, ch: seq<nat>, p: nat, n: nat, clust: nat, sect: nat)
    requires g.csize > 0 && CursorOk(g, ch, p, n, clust, sect)
    requires p % SECTOR_SIZE != 0 || p / SECTOR_SIZE % g.csize != 0
    ensures ClusterAt(g, ch, p, clust)
  {
    if p == 0 {
      DivideUnique(0, 0, 0, g.csize);
    } else if p % SECTOR_SIZE == 0 {
      assert (p - 1) / SECTOR_SIZE == p / SECTOR_SIZE - 1;
      DividePrevious(p / SECTOR_SIZE, g.csize);
    } else {
      assert (p - 1) / SECTOR_SIZE == p / SECTOR_SIZE;
    }
  }

  lemma CursorParts(g: Geometry, ch: seq<nat>, p: nat, n: nat, clust: nat, sect: nat)
    requires g.csize > 0 && CursorOk(g, ch, p, n, clust, sect)
    ensures p <= n
    ensures p % SECTOR_SIZE != 0 ==> HasSector(g, ch, p / SECTOR_SIZE) && sect == SectorOf(g, ch, p / SECTOR_SIZE)
  {
  }

  lemma PartCursor(g: Geometry, ch: seq<nat>, p: nat, w: nat, n: nat, clust: nat, sect: nat)
    requires g.csize > 0 && ClusterAt(g, ch, p, clust) && sect == SectorOf(g, ch, p / SECTOR_SIZE)
    requires 0 < w && p % SECTOR_SIZE + w <= SECTOR_SIZE && p + w <= n
    ensures CursorOk(g, ch, p + w, n, clust, sect)
  {
    assert (p + w - 1) / SECTOR_SIZE == p / SECTOR_SIZE;
    assert (p + w) % SECTOR_SIZE != 0 ==> (p + w) / SECTOR_SIZE == p / SECTOR_SIZE;
  }

  lemma DirectCursor(g: Geometry, ch: seq<nat>, p: nat, cc: nat, n: nat, clust: nat, sect: nat)
    requires g.csize > 0 && ClusterAt(g, ch, p, clust) && p % SECTOR_SIZE == 0
    requires 0 < cc && p / SECTOR_SIZE % g.csize + cc <= g.csize && p + SECTOR_SIZE * cc <= n
    ensures CursorOk(g, ch, p + SECTOR_SIZE * cc, n, clust, sect)
  {
    var j := p / SECTOR_SIZE;
    RunBytes(p, cc, p + SECTOR_SIZE * cc - 1);
    DivideAhead(j, cc - 1, g.csize);
    assert (p + SECTOR_SIZE * cc) % SECTOR_SIZE == 0;
  }

  /** The sector of byte `p`, from its cluster. */
  lemma ClusterSector(g: Geometry, sectors: nat, ch: seq<nat>, p: nat, clust: dword)
    requires GeometryOk(g, sectors) && ChainIn(g, ch) && ClusterAt(g, ch, p, clust)
    ensures ClstToSect(g, clust) != 0 &&
            ClstToSect(g, clust) + p / SECTOR_SIZE % g.csize == SectorOf(g, ch, p / SECTOR_SIZE)
    ensures ClstToSect(g, clust) + p / SECTOR_SIZE % g.csize < sectors < 0x1_0000_0000
  {
    ClstToSectIs(g, sectors, clust);
    SectorInside(g, sectors, ch, p / SECTOR_SIZE);
  }

  /** Every cluster number in range gives a sector of the data area, every other number 0. */
  lemma ClstToSectIs(g: Geometry, sectors: nat, clust: dword)
    requires GeometryOk(g, sectors)
    ensures if 2 <= clust < g.nFatent then
              ClstToSect(g, clust) == ClusterStart(g, clust) && g.database <= ClusterStart(g, clust) &&
              ClusterStart(g, clust) + g.csize <= sectors
            else ClstToSect(g, clust) == 0
  {
    if 2 <= clust < g.nFatent {
      ClusterInside(g, sectors, clust);
      assert Sub32(clust, 2) == clust - 2;
      SmallEnough(ClusterStart(g, clust), sectors);
    }
  }

  lemma SmallEnough(s: int, sectors: nat)
    requires 0 <= s < sectors && sectors * SECTOR_SIZE <= 0x1_0000_0000
    ensures s % 0x1_0000_0000 == s
  {
  }

  // ---- Reading ----

  /** Whole sectors in a row on the drive are consecutive bytes of the file. */
  lemma RunContent(g: Geometry, e: seq<Sector>, ch: seq<nat>, n: nat, p: nat, cc: nat, data: seq<byte>)
    requires Holds(g, e, ch, n) && p % SECTOR_SIZE == 0 && p + SECTOR_SIZE * cc <= n && |data| == SECTOR_SIZE * cc
    requires HasSector(g, ch, p / SECTOR_SIZE) && 0 < cc && p / SECTOR_SIZE % g.csize + cc <= g.csize
    requires forall k :: 0 <= k < cc && 0 <= SectorOf(g, ch, p / SECTOR_SIZE) + k < |e| ==>
               Piece(data, k) == e[SectorOf(g, ch, p / SECTOR_SIZE) + k]
    ensures data == ContentOf(g, e, ch, n)[p..p + |data|]
  {
    hide SectorOf, HasSector, ClusterStart, GeometryOk, Piece;
    var r := ContentOf(g, e, ch, n)[p..p + |data|];
    forall x | 0 <= x < |data|
      ensures data[x] == r[x]
    {
      var i, j := p + x, p / SECTOR_SIZE;
      RunBytes(p, cc, i);
      SectorReached(g, e, ch, n, i);
      var k := i / SECTOR_SIZE - j;
      SectorsRun(g, ch, j, k);
      assert Piece(data, k) == e[SectorOf(g, ch, j) + k];
      PieceAt(data, k, i % SECTOR_SIZE);
    }
  }

  /** Bytes of the buffer that shows the sector of byte `p` are bytes of the file. */
  lemma BufferContent(g: Geometry, e: seq<Sector>, ch: seq<nat>, n: nat, p: nat, w: nat, b: Sector)
    requires Holds(g, e, ch, n) && p + w <= n && p % SECTOR_SIZE + w <= SECTOR_SIZE && HasSector(g, ch, p / SECTOR_SIZE)
    requires 0 <= SectorOf(g, ch, p / SECTOR_SIZE) < |e| && b == e[SectorOf(g, ch, p / SECTOR_SIZE)]
    ensures b[p % SECTOR_SIZE..p % SECTOR_SIZE + w] == ContentOf(g, e, ch, n)[p..p + w]
  {
    hide SectorOf, HasSector, ClusterStart, GeometryOk;
    var l, r := b[p % SECTOR_SIZE..p % SECTOR_SIZE + w], ContentOf(g, e, ch, n)[p..p + w];
    forall x | 0 <= x < w
      ensures l[x] == r[x]
    {
      DivideAhead(p, x, SECTOR_SIZE);
    }
  }

  /** The window moved to the FAT, if at all: nothing changes for the file. */
  lemma WindowMoved(g: Geometry, fat: seq<nat>, d: seq<Sector>, ws: nat, ws': nat, ch: seq<nat>, scl: nat, n: nat,
                    dirty: bool, sect: nat, b: Sector)
    requires FileState(g, fat, d, ws, ch, scl, n, dirty, sect, b) && (ws' == ws || InFat1(g, ws'))
    ensures FileState(g, fat, d, ws', ch, scl, n, dirty, sect, b)
  {
    AwayKept(g, d, fat, fat, ch, ch, ws, ws');
  }

  /** A sector of the file loaded into the clean buffer. */
  lemma LoadedState(g: Geometry, fat: seq<nat>, d: seq<Sector>, ws: nat, ch: seq<nat>, scl: nat, n: nat, sect: nat,
                    b: Sector, j: nat, s: nat, b': Sector)
    requires FileState(g, fat, d, ws, ch, scl, n, false, sect, b)
    requires HasSector(g, ch, j) && s == SectorOf(g, ch, j) && s < |d| && b' == d[s]
    ensures FileState(g, fat, d, ws, ch, scl, n, false, s, b')
  {
    assert Own(g, ch, s);
  }

  /** The buffer of a sector of the file agrees with what the file sees. */
  lemma BufferShows(g: Geometry, fat: seq<nat>, d: seq<Sector>, ws: nat, ch: seq<nat>, scl: nat, n: nat, dirty: bool,
                    sect: nat, b: Sector)
    requires FileState(g, fat, d, ws, ch, scl, n, dirty, sect, b) && sect != 0
    ensures sect < |d| && View(d, dirty, sect, b)[sect] == b
  {
  }

  /** Byte `p` of the file is reached by its chain, and its cluster is linked to the one before. */
  lemma FollowChain(g: Geometry, fat: seq<nat>, d: seq<Sector>, ws: nat, ch: seq<nat>, scl: nat, n: nat, dirty: bool,
                    sect: nat, b: Sector, p: nat)
    requires FileState(g, fat, d, ws, ch, scl, n, dirty, sect, b) && p < n
    ensures HasSector(g, ch, p / SECTOR_SIZE)
    ensures var q := p / SECTOR_SIZE / g.csize;
            && scl != 0 && ch[0] == scl && 2 <= ch[q] < |fat|
            && (q > 0 ==> 2 <= ch[q - 1] < |fat| && fat[ch[q - 1]] == ch[q])
  {
    SectorReached(g, d, ch, n, p);
    var q := p / SECTOR_SIZE / g.csize;
    if q > 0 {
      EntryOfChain(fat, ch, q - 1);
    }
  }

  // ---- Seeking ----

  /** Dividing by a cluster in bytes is dividing by the sector, then by the cluster in sectors. */
  lemma DivideTwice(p: nat, m: nat)
    requires 0 < m
    ensures p / (SECTOR_SIZE * m) == p / SECTOR_SIZE / m
  {
    var s, r := p / SECTOR_SIZE, p % SECTOR_SIZE;
    var q, t := s / m, s % m;
    assert s == q * m + t;
    assert q * (512 * m) == 512 * (q * m);
    DivideUnique(p, q, 512 * t + r, 512 * m);
  }

  /** Byte `o - 1` of cluster number `q` of a file, and the sector of byte `o`. */
  lemma InsideCluster(q: nat, o: nat, m: nat)
    requires 0 < m && 0 < o <= SECTOR_SIZE * m
    ensures (q * (SECTOR_SIZE * m) + o - 1) / SECTOR_SIZE / m == q
    ensures (q * (SECTOR_SIZE * m) + o) % SECTOR_SIZE == o % SECTOR_SIZE
    ensures o % SECTOR_SIZE != 0 ==>
              var j := (q * (SECTOR_SIZE * m) + o) / SECTOR_SIZE;
              j / m == q && j % m == o / SECTOR_SIZE
  {
    var k, u := q * m, (o - 1) / SECTOR_SIZE;
    assert q * (512 * m) == 512 * k;
    SectorShift(k, o - 1);
    SectorShift(k, o);
    DivideUnique(k + u, q, u, m);
    SectorBefore(o);
  }

  lemma SectorShift(k: nat, x: nat)
    ensures (512 * k + x) / SECTOR_SIZE == k + x / SECTOR_SIZE && (512 * k + x) % SECTOR_SIZE == x % SECTOR_SIZE
  {
  }

  lemma SectorBefore(o: nat)
    requires 0 < o
    ensures o % SECTOR_SIZE != 0 ==> (o - 1) / SECTOR_SIZE == o / SECTOR_SIZE
  {
  }

  /** Cluster size in bytes, and the first byte of cluster number `q` of a file. */
  function ClusterBytes(g: Geometry): nat {
    SECTOR_SIZE * g.csize
  }

  function ClusterBase(g: Geometry, q: nat): nat {
    q * ClusterBytes(g)
  }

  lemma NextBase(g: Geometry, q: nat)
    ensures ClusterBase(g, 0) == 0 && ClusterBase(g, q + 1) == ClusterBase(g, q) + ClusterBytes(g)
    ensures ClusterBytes(g) % SECTOR_SIZE == 0 && (g.csize > 0 ==> ClusterBytes(g) > 0)
  {
  }

  lemma BaseOf(g: Geometry, q: nat)
    ensures q * ClusterBytes(g) == ClusterBase(g, q)
  {
  }

  /** The cursor after a seek that ends `o` bytes into cluster number `q` of the chain. */
  lemma SeekCursor(g: Geometry, ch: seq<nat>, q: nat, o: nat, n: nat, clust: nat, sect: nat)
    requires g.csize > 0 && q < |ch| && clust == ch[q] && 0 < o <= ClusterBytes(g)
    requires ClusterBase(g, q) + o <= n
    requires o % SECTOR_SIZE != 0 ==> sect == ClusterStart(g, clust) + o / SECTOR_SIZE
    ensures CursorOk(g, ch, ClusterBase(g, q) + o, n, clust, sect)
  {
    InsideCluster(q, o, g.csize);
  }

  /** Growing the size of the file inside its chain keeps the bytes it had. */
  lemma GrowSize(g: Geometry, fat: seq<nat>, d: seq<Sector>, ws: nat, ch: seq<nat>, scl: nat, n: nat, dirty: bool,
                 sect: nat, b: Sector, p: nat)
    requires FileState(g, fat, d, ws, ch, scl, n, dirty, sect, b)
    requires p > 0 ==> HasSector(g, ch, (p - 1) / SECTOR_SIZE)
    ensures dirty ==> sect < |d|
    ensures FileState(g, fat, d, ws, ch, scl, Larger(p, n), dirty, sect, b)
    ensures ContentOf(g, View(d, dirty, sect, b), ch, Larger(p, n))[..n] == ContentOf(g, View(d, dirty, sect, b), ch, n)
  {
  }

  /** A position inside the file is reached by the chain up to its cluster. */
  lemma ReachCluster(g: Geometry, d: seq<Sector>, ch: seq<nat>, n: nat, q: nat, ofs: nat)
    requires Holds(g, d, ch, n) && 0 < ofs && ClusterBase(g, q) + ofs <= n
    ensures q < |ch| && (ofs > ClusterBytes(g) ==> q + 1 < |ch|)
  {
    var bcs := SECTOR_SIZE * g.csize;
    DivideTwice(n - 1, g.csize);
    DivideUnique(q * bcs, q, 0, bcs);
    DivideMonotone(q * bcs, n - 1, bcs);
    if ofs > bcs {
      assert (q + 1) * bcs == q * bcs + bcs;
      DivideUnique((q + 1) * bcs, q + 1, 0, bcs);
      DivideMonotone((q + 1) * bcs, n - 1, bcs);
    }
  }

  /** Whole clusters before byte `p - 1`. */
  lemma StartOfCluster(p: nat, ofs: nat, bcs: nat)
    requires 0 < bcs && 0 < p && 0 < ofs && (ofs - 1) / bcs >= (p - 1) / bcs
    ensures (p - 1) / bcs * bcs <= p - 1 && (p - 1) / bcs * bcs < ofs
  {
    var q := (p - 1) / bcs;
    assert p - 1 == q * bcs + (p - 1) % bcs;
    var r := (ofs - 1) / bcs;
    assert ofs - 1 == r * bcs + (ofs - 1) % bcs;
    MulMonotone(bcs, q, r);
    assert bcs * q == q * bcs && bcs * r == r * bcs;
  }

  /** The current cluster as the place to seek on from. */
  lemma SeekFromHere(g: Geometry, ch: seq<nat>, p: nat, n: nat, clust: nat, sect: nat, ofs: nat, q: nat)
    requires ChainIn(g, ch) && CursorOk(g, ch, p, n, clust, sect) && 0 < p && 0 < ofs && ClusterBytes(g) > 0
    requires (ofs - 1) / ClusterBytes(g) >= q == (p - 1) / ClusterBytes(g)
    ensures q < |ch| && clust == ch[q] && 2 <= clust
    ensures ClusterBase(g, q) < ofs
  {
    DivideTwice(p - 1, g.csize);
    StartOfCluster(p, ofs, ClusterBytes(g));
  }

  /** The first cluster as the place to seek from; a file with bytes has one. */
  lemma SeekFromStart(g: Geometry, fat: seq<nat>, d: seq<Sector>, ws: nat, ch: seq<nat>, scl: nat, n: nat, dirty: bool,
                      sect: nat, b: Sector)
    requires FileState(g, fat, d, ws, ch, scl, n, dirty, sect, b)
    ensures n > 0 ==> scl != 0
    ensures scl != 0 ==> 0 < |ch| && ch[0] == scl >= 2
    ensures ClusterBase(g, 0) == 0
  {
    NextBase(g, 0);
  }

  lemma SeekAtStart(g: Geometry, ch: seq<nat>, n: nat, clust: nat, sect: nat)
    requires g.csize > 0
    ensures CursorOk(g, ch, 0, n, clust, sect)
  {
  }

  /** On a sector boundary the position does not depend on the buffer. */
  lemma CursorSector(g: Geometry, ch: seq<nat>, p: nat, n: nat, clust: nat, nsect: nat, sect: nat)
    requires g.csize > 0 && CursorOk(g, ch, p, n, clust, nsect) && (p % SECTOR_SIZE != 0 ==> sect == nsect)
    ensures CursorOk(g, ch, p, n, clust, sect)
  {
  }
}
