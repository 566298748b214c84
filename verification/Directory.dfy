/** Directory tables: recognising long names while reading and searching, and registering them. */
module Directory {
  import opened Bytes
  import opened LongNames

  datatype DResult = Found | NoFile | NoRoom

  // ---- The checksum that ties a long name to its short name ----

  function Rotate(sum: byte, b: byte): byte {
    (sum / 2 + 128 * sum + b) % 256
  }

  function SumOf(sfn: seq<byte>, n: nat): byte
    requires n <= |sfn|
  {
    if n == 0 then 0 else Rotate(SumOf(sfn, n - 1), sfn[n - 1])
  }

  function Checksum(sfn: seq<byte>): byte
    requires |sfn| >= 11
  {
    SumOf(sfn, 11)
  }

  method SumSfn(dir: seq<byte>) returns (sum: byte)
    requires |dir| >= 11
    ensures sum == Checksum(dir)
  {
    sum := 0;
    var n, at := 11, 0;
    while n > 0
      invariant at + n == 11 && sum == SumOf(dir, at)
    {
      sum := Rotate(sum, dir[at]);
      at := at + 1;
      n := n - 1;
    }
  }

  /** One bit of rotation, before the byte is added. */
  function Rotated(sum: byte): byte {
    if sum % 2 == 1 then sum / 2 + 128 else sum / 2
  }

  lemma RotateIs(sum: byte, b: byte)
    ensures Rotate(sum, b) == (if Rotated(sum) + b < 256 then Rotated(sum) + b else Rotated(sum) + b - 256)
  {
    var h: int := sum / 2;
    assert sum as int == 2 * h + sum % 2;
    WholeTurns(Rotated(sum) + b as int, h);
  }

  lemma WholeTurns(x: nat, n: nat)
    requires x < 512
    ensures (x + 256 * n) % 256 == if x < 256 then x else x - 256
  {
    var m := if x < 256 then n else n + 1;
    var r := if x < 256 then x else x - 256;
    assert x + 256 * n == 256 * m + r;
  }

  lemma RotateInjective(a: byte, x: byte, b: byte, y: byte)
    requires Rotate(a, x) == Rotate(b, y)
    ensures a == b <==> x == y
  {
    hide Rotate, Rotated;
    RotateIs(a, x);
    RotateIs(b, y);
    assert Rotated(a) == Rotated(b) <==> a == b by { RotatedInjective(a, b); }
  }

  lemma RotatedInjective(a: byte, b: byte)
    ensures Rotated(a) == Rotated(b) <==> a == b
  {
    assert a as int == 2 * (a / 2) + a % 2 && b as int == 2 * (b / 2) + b % 2;
  }

  /** The checksum tells any two short names apart that differ in exactly one byte. */
  lemma {:induction false} ChecksumSeparates(e: seq<byte>, f: seq<byte>, k: nat, n: nat)
    requires k < n <= |e| && n <= |f|
    requires forall x :: 0 <= x < n ==> (e[x] == f[x] <==> x != k)
    ensures SumOf(e, n) != SumOf(f, n)
  {
    if SumOf(e, n) == SumOf(f, n) {
      RotateInjective(SumOf(e, n - 1), e[n - 1], SumOf(f, n - 1), f[n - 1]);
      if k == n - 1 {
        SamePrefix(e, f, k);
      } else {
        ChecksumSeparates(e, f, k, n - 1);
      }
    }
  }

  lemma {:induction false} SamePrefix(e: seq<byte>, f: seq<byte>, n: nat)
    requires n <= |e| && n <= |f| && forall x :: 0 <= x < n ==> e[x] == f[x]
    ensures SumOf(e, n) == SumOf(f, n)
  {
    if n > 0 {
      SamePrefix(e, f, n - 1);
    }
  }

  // ---- What the two scans make of an entry ----

  datatype Kind = End | Junk | Long | Short

  /** `Reading` is the scan of `dir_read`; `Finding` that of `dir_find`, for the name in `buf`. */
  datatype Mode = Reading(vol: bool) | Finding(buf: seq<word>, up: word -> word, noLfn: bool)

  function NoArchive(a: byte): byte
    requires a < 64
  {
    if a >= 32 then a - 32 else a
  }

  function KindOf(m: Mode, e: Entry): Kind {
    var a := e[11] % 64;
    if e[0] == 0 then End
    else if m.Reading? then
      if e[0] == DELETED || e[0] == DOT || (NoArchive(a) == 8) != m.vol then Junk
      else if a == AM_LFN then Long else Short
    else if e[0] == DELETED || (a / 8 % 2 == 1 && a != AM_LFN) then Junk
    else if a == AM_LFN then (if m.noLfn then Junk else Long) else Short
  }

  ghost predicate Accepts(m: Mode, e: Entry)
    requires m.Finding? ==> |m.buf| == MAX_LFN + 1
  {
    match m
    case Reading(_) => Pickable(e)
    case Finding(buf, up, _) => Matches(e, buf, up)
  }

  /** A long-name entry with ordinal `o` and checksum `s` that the scan accepts. */
  ghost predicate Link(m: Mode, e: Entry, o: nat, s: byte)
    requires m.Finding? ==> |m.buf| == MAX_LFN + 1
  {
    KindOf(m, e) == Long && Ordinal(e[0]) == o && e[13] == s && Accepts(m, e)
  }

  /** Entries `b` to `k - 1` are the beginning of one long name, from its last piece down to piece
      `o + 1`; with `o == 0` they are all of it. */
  ghost predicate Sequence(m: Mode, t: seq<byte>, b: nat, k: nat, o: nat, s: byte): (r: bool)
    requires 32 * k <= |t| && (m.Finding? ==> |m.buf| == MAX_LFN + 1)
    ensures r ==> b < k
  {
    && b < k && IsLast(EntryAt(t, b)[0])
    && forall j {:trigger EntryAt(t, j)} :: b <= j < k ==>
         Link(m, EntryAt(t, j), o + k - j, s) && (j > b ==> !IsLast(EntryAt(t, j)[0]))
  }

  /** The scan that came from entry `p` to entry `k` carries (`ord`, `sum`, `start`) exactly when
      there is an open sequence. */
  ghost predicate Tracks(m: Mode, t: seq<byte>, p: nat, k: nat, ord: byte, sum: byte, start: dword)
    requires 32 * k <= |t| && (m.Finding? ==> |m.buf| == MAX_LFN + 1)
  {
    && (ord != DEAD ==> start % 32 == 0 && p <= start / 32 && Sequence(m, t, start / 32, k, ord, sum))
    && (forall b: nat, o: nat, s: byte :: p <= b && Sequence(m, t, b, k, o, s) ==>
          ord == o && sum == s && start == 32 * b)
  }

  /** How one long-name entry moves the scan on. */
  lemma TrackLong(m: Mode, t: seq<byte>, p: nat, k: nat, ord: byte, sum: byte, start: dword, ord': byte, sum': byte,
                  start': dword)
    requires 32 * k + 32 <= |t| <= MAX_DIR && p <= k && (m.Finding? ==> |m.buf| == MAX_LFN + 1)
    requires Tracks(m, t, p, k, ord, sum, start) && KindOf(m, EntryAt(t, k)) == Long
    requires var e := EntryAt(t, k);
             && sum' == (if IsLast(e[0]) then e[13] else sum)
             && start' == (if IsLast(e[0]) then 32 * k else start)
             && (if (IsLast(e[0]) || Ordinal(e[0]) == ord) && sum' == e[13] && Accepts(m, e) then
                   ord' == (Ordinal(e[0]) as int - 1) % 256
                 else ord' == DEAD)
    ensures Tracks(m, t, p, k + 1, ord', sum', start')
  {
    hide IsLast, Ordinal, KindOf, Sequence, Accepts;
    var e, n := EntryAt(t, k), k + 1;
    AcceptedOrdinal(m, e);
    forall b: nat, o: nat, s: byte | p <= b && Sequence(m, t, b, n, o, s)
      ensures ord' == o && sum' == s && start' == 32 * b
    {
      SequenceStep(m, t, b, k, o, s);
    }
    if ord' != DEAD {
      SequenceStep(m, t, start' / 32, k, ord', sum');
    }
  }

  lemma SequenceStep(m: Mode, t: seq<byte>, b: nat, k: nat, o: nat, s: byte)
    requires 32 * k + 32 <= |t| && (m.Finding? ==> |m.buf| == MAX_LFN + 1)
    ensures Sequence(m, t, b, k + 1, o, s) <==>
              b <= k && Link(m, EntryAt(t, k), o + 1, s) &&
              (if b == k then IsLast(EntryAt(t, k)[0]) else !IsLast(EntryAt(t, k)[0]) && Sequence(m, t, b, k, o + 1, s))
  {
    hide IsLast, Ordinal, KindOf, Accepts;
    if b < k && Link(m, EntryAt(t, k), o + 1, s) && !IsLast(EntryAt(t, k)[0]) && Sequence(m, t, b, k, o + 1, s) {
      assert forall j {:trigger EntryAt(t, j)} :: b <= j < k ==> Link(m, EntryAt(t, j), o + 1 + k - j, s);
    }
    if Sequence(m, t, b, k + 1, o, s) {
      assert Link(m, EntryAt(t, k), o + 1, s);
    }
  }

  lemma AcceptedOrdinal(m: Mode, e: Entry)
    requires m.Finding? ==> |m.buf| == MAX_LFN + 1
    ensures Accepts(m, e) ==> Ordinal(e[0]) >= 1
  {
    hide WellFormed, CharAt;
  }

  /** Any other entry ends an open sequence. */
  lemma TrackOther(m: Mode, t: seq<byte>, p: nat, k: nat, sum: byte, start: dword)
    requires 32 * k + 32 <= |t| && (m.Finding? ==> |m.buf| == MAX_LFN + 1)
    requires KindOf(m, EntryAt(t, k)) != Long
    ensures Tracks(m, t, p, k + 1, DEAD, sum, start)
  {
    var n := k + 1;
    forall b: nat, o: nat, s: byte
      ensures !Sequence(m, t, b, n, o, s)
    {
      assert b < n ==> !Link(m, EntryAt(t, k), o + n - k, s);
    }
  }

  /** Entries `p` to `k - 1` were passed over without finding a short entry or the end mark. */
  ghost predicate Skipped(m: Mode, t: seq<byte>, p: nat, k: nat)
    requires 32 * k <= |t|
  {
    p <= k && forall j {:trigger EntryAt(t, j)} :: p <= j < k ==> KindOf(m, EntryAt(t, j)) in {Junk, Long}
  }

  /** The scan can go no further than entry `k`. */
  ghost predicate TableEnds(m: Mode, t: seq<byte>, k: nat)
    requires 32 * k <= |t|
  {
    32 * k == |t| || (32 * k + 32 <= |t| && KindOf(m, EntryAt(t, k)) == End)
  }

  /** All pieces in entries `b` to `k - 1` have been copied to the name buffer. */
  ghost predicate AllPicked(buf: seq<word>, t: seq<byte>, b: nat, k: nat)
    requires 32 * k <= |t| && |buf| == MAX_LFN + 1
  {
    forall j {:trigger EntryAt(t, j)} :: b <= j < k ==> Picked(buf, EntryAt(t, j))
  }

  /** `start` is where the long name of the short entry `k` begins, or no long name precedes it. */
  ghost predicate LongNameSeen(m: Mode, t: seq<byte>, p: nat, k: nat, start: dword)
    requires 32 * k + 32 <= |t| && (m.Finding? ==> |m.buf| == MAX_LFN + 1)
  {
    var s := Checksum(EntryAt(t, k));
    && (start != NO_LFN <==> exists b: nat :: p <= b && Sequence(m, t, b, k, 0, s))
    && (start != NO_LFN ==> start % 32 == 0 && p <= start / 32 && Sequence(m, t, start / 32, k, 0, s))
  }

  lemma SkipStep(m: Mode, t: seq<byte>, p: nat, k: nat)
    requires 32 * k + 32 <= |t| && Skipped(m, t, p, k) && KindOf(m, EntryAt(t, k)) in {Junk, Long}
    ensures Skipped(m, t, p, k + 1)
  {
    hide KindOf;
  }

  lemma SkipNone(m: Mode, t: seq<byte>, p: nat)
    requires 32 * p <= |t|
    ensures Skipped(m, t, p, p)
  {
  }

  lemma TrackStart(m: Mode, t: seq<byte>, p: nat, sum: byte, start: dword)
    requires 32 * p <= |t| && (m.Finding? ==> |m.buf| == MAX_LFN + 1)
    ensures Tracks(m, t, p, p, DEAD, sum, start)
  {
    hide IsLast, Link;
  }

  lemma TrackOpen(m: Mode, t: seq<byte>, p: nat, k: nat, ord: byte, sum: byte, start: dword)
    requires 32 * k <= |t| && (m.Finding? ==> |m.buf| == MAX_LFN + 1)
    requires Tracks(m, t, p, k, ord, sum, start)
    ensures ord != DEAD ==> start % 32 == 0 && p <= start / 32 && Sequence(m, t, start / 32, k, ord, sum)
  {
  }

  /** At a short entry with checksum `s` the scan knows whether its long name precedes it. */
  lemma TrackEnd(m: Mode, t: seq<byte>, p: nat, k: nat, ord: byte, sum: byte, start: dword, s: byte)
    requires 32 * k <= |t| <= MAX_DIR && (m.Finding? ==> |m.buf| == MAX_LFN + 1)
    requires Tracks(m, t, p, k, ord, sum, start)
    ensures ord == 0 && sum == s <==> exists b: nat :: p <= b && Sequence(m, t, b, k, 0, s)
    ensures ord == 0 && sum == s ==>
            start % 32 == 0 && p <= start / 32 && Sequence(m, t, start / 32, k, 0, s) && start != NO_LFN
  {
    hide Sequence;
  }

  /** Storing a piece leaves pieces with higher ordinals in place. */
  lemma PickKeeps(buf: seq<word>, buf': seq<word>, e: Entry, f: Entry)
    requires |buf| == |buf'| == MAX_LFN + 1
    requires Picked(buf, e) && 1 <= Ordinal(f[0]) < Ordinal(e[0])
    requires forall x :: Offset(Ordinal(f[0])) + 13 <= x <= MAX_LFN ==> buf'[x] == buf[x]
    ensures Picked(buf', e)
  {
    hide CharAt, Ordinal, IsLast, Stored;
  }

  lemma PickStep(m: Mode, t: seq<byte>, b: nat, k: nat, o: nat, s: byte, buf: seq<word>, buf': seq<word>)
    requires 32 * k + 32 <= |t| && |buf| == |buf'| == MAX_LFN + 1 && m.Reading?
    requires b < k ==> Sequence(m, t, b, k, o, s) && AllPicked(buf, t, b, k)
    requires b <= k && Picked(buf', EntryAt(t, k)) && Ordinal(EntryAt(t, k)[0]) == o >= 1
    requires b < k ==> forall x :: Offset(Ordinal(EntryAt(t, k)[0])) + 13 <= x <= MAX_LFN ==> buf'[x] == buf[x]
    ensures AllPicked(buf', t, b, k + 1)
  {
    hide Picked, KindOf, Accepts, Ordinal, Offset;
    forall j | b <= j < k + 1
      ensures Picked(buf', EntryAt(t, j))
    {
      if j < k {
        assert Link(m, EntryAt(t, j), o + k - j, s);
        PickKeeps(buf, buf', EntryAt(t, j), EntryAt(t, k));
      }
    }
  }

  // ---- Searching ----

  predicate SameShortName(e: Entry, fn: seq<byte>)
    requires |fn| == 12
  {
    e[..11] == fn[..11]
  }

  /** Entry `k` is what a search for the name in the buffer, or the short name in `fn`, looks for. */
  ghost predicate Hit(m: Mode, t: seq<byte>, k: nat, fn: seq<byte>): (r: bool)
    requires 32 * k + 32 <= |t| && |fn| == 12 && (m.Finding? ==> |m.buf| == MAX_LFN + 1)
    ensures r ==> KindOf(m, EntryAt(t, k)) == Short
  {
    && KindOf(m, EntryAt(t, k)) == Short
    && ((exists b: nat :: Sequence(m, t, b, k, 0, Checksum(EntryAt(t, k))))
        || (fn[11] % 2 == 0 && SameShortName(EntryAt(t, k), fn)))
  }

  ghost predicate PassedBy(m: Mode, t: seq<byte>, k: nat, fn: seq<byte>)
    requires 32 * k <= |t| && |fn| == 12 && (m.Finding? ==> |m.buf| == MAX_LFN + 1)
  {
    forall j {:trigger EntryAt(t, j)} :: 0 <= j < k ==> KindOf(m, EntryAt(t, j)) != End && !Hit(m, t, j, fn)
  }

  lemma PassNone(m: Mode, t: seq<byte>, fn: seq<byte>)
    requires |t| <= MAX_DIR && |fn| == 12 && (m.Finding? ==> |m.buf| == MAX_LFN + 1)
    ensures PassedBy(m, t, 0, fn) && LastStart(m, t, 0) == NO_LFN
  {
  }

  lemma PassOne(m: Mode, t: seq<byte>, k: nat, fn: seq<byte>)
    requires 32 * k + 32 <= |t| && |fn| == 12 && (m.Finding? ==> |m.buf| == MAX_LFN + 1)
    requires PassedBy(m, t, k, fn) && KindOf(m, EntryAt(t, k)) != End && !Hit(m, t, k, fn)
    ensures PassedBy(m, t, k + 1, fn)
  {
    hide Hit, KindOf;
  }

  /** Where the search believes the entries of the object it has reached begin: at the last
      beginning of a long name among the long-name entries just before it. */
  function LastStart(m: Mode, t: seq<byte>, k: nat): dword
    requires 32 * k <= |t| <= MAX_DIR
  {
    if k == 0 || KindOf(m, EntryAt(t, k - 1)) != Long then NO_LFN
    else if IsLast(EntryAt(t, k - 1)[0]) then 32 * (k - 1)
    else LastStart(m, t, k - 1)
  }

  lemma NotLong(m: Mode, t: seq<byte>, k: nat, sum: byte, start: dword)
    requires 32 * k + 32 <= |t| <= MAX_DIR && (m.Finding? ==> |m.buf| == MAX_LFN + 1)
    requires KindOf(m, EntryAt(t, k)) != Long
    ensures Tracks(m, t, 0, k + 1, DEAD, sum, start) && LastStart(m, t, k + 1) == NO_LFN
    ensures m.Finding? && m.noLfn ==> LastStart(m, t, k) == NO_LFN
  {
    hide Tracks;
    TrackOther(m, t, 0, k, sum, start);
  }

  /** For an object found by its long name that is where the name begins. */
  lemma {:induction false} LastStartIs(m: Mode, t: seq<byte>, b: nat, k: nat, o: nat, s: byte)
    requires 32 * k <= |t| <= MAX_DIR && (m.Finding? ==> |m.buf| == MAX_LFN + 1)
    requires Sequence(m, t, b, k, o, s)
    ensures LastStart(m, t, k) == 32 * b
  {
    hide IsLast, Ordinal, KindOf, Accepts;
    SequenceStep(m, t, b, k - 1, o, s);
    if b < k - 1 {
      LastStartIs(m, t, b, k - 1, o + 1, s);
    }
  }

  // ---- Allocating ----

  predicate IsFree(e: Entry) {
    e[0] == DELETED || e[0] == 0
  }

  /** Entries `k` to `k + n - 1` are free. */
  ghost predicate FreeBlock(t: seq<byte>, k: nat, n: nat): (r: bool)
    ensures r ==> 32 * (k + n) <= |t|
  {
    32 * (k + n) <= |t| && forall j {:trigger EntryAt(t, j)} :: k <= j < k + n ==> IsFree(EntryAt(t, j))
  }

  lemma BlockStep(t: seq<byte>, k: nat, n: nat, nent: nat)
    requires n <= k && 32 * k + 32 <= |t| && n < nent
    requires FreeBlock(t, k - n, n) && (n < k ==> !IsFree(EntryAt(t, k - n - 1)))
    ensures if IsFree(EntryAt(t, k)) then FreeBlock(t, k - n, n + 1) else FreeBlock(t, k + 1, 0)
    ensures forall x: nat :: x + nent == k ==> !FreeBlock(t, x, nent)
  {
    forall x: nat | x + nent == k
      ensures !FreeBlock(t, x, nent)
    {
      assert !IsFree(EntryAt(t, k - n - 1));
    }
  }

  // ---- Registering a name ----

  /** A short entry with nothing but its name and case flags. */
  ghost predicate IsNewShort(e: Entry, fn: seq<byte>)
    requires |fn| == 12
  {
    SameShortName(e, fn) && e[12] == fn[11] / 8 % 4 * 8 && forall x :: x == 11 || 13 <= x < 32 ==> e[x] == 0
  }

  /** The pieces of `name` stand in descending order from entry `p` on. */
  ghost predicate PiecesFrom(t: seq<byte>, p: nat, k: nat, name: seq<word>, sum: byte)
    requires 32 * k <= |t| && k <= p + Pieces(name)
  {
    forall j {:trigger EntryAt(t, j)} :: p <= j < k ==> IsPiece(EntryAt(t, j), name, p + Pieces(name) - j, sum)
  }

  /** Name and short name are registered in the entries from `p` on. */
  ghost predicate Registered(t: seq<byte>, p: nat, name: seq<word>, fn: seq<byte>)
    requires |fn| == 12 && 32 * (p + Pieces(name)) + 32 <= |t|
  {
    var k := p + Pieces(name);
    PiecesFrom(t, p, k, name, Checksum(fn)) && IsNewShort(EntryAt(t, k), fn)
  }

  /** A short name that reads as one. */
  predicate ShortNameOk(fn: seq<byte>)
    requires |fn| == 12
  {
    fn[0] != 0 && fn[0] != DELETED && fn[0] != DOT
  }

  lemma PieceFields(e: Entry, name: seq<word>, ord: nat, sum: byte)
    requires NameOk(name) && 1 <= ord <= Pieces(name) && IsPiece(e, name, ord, sum)
    ensures IsLast(e[0]) <==> ord == Pieces(name)
    ensures Ordinal(e[0]) == ord && e[0] % 64 == ord
    ensures WellFormed(e)
    ensures Stored(e) == if 13 * ord <= |name| then 13 else |name| - 13 * (ord - 1) + 1
  {
    hide CharAt;
    var n := if 13 * ord <= |name| then 13 else |name| - 13 * (ord - 1) + 1;
    assert forall x :: 0 <= x < 13 ==> CharAt(e, x) == Padded(name, 13 * (ord - 1) + x);
    StoredIs(e, n);
  }

  lemma StoredIs(e: Entry, n: nat)
    requires 1 <= n <= 13 && (forall x :: 0 <= x < n - 1 ==> CharAt(e, x) != 0) && (n < 13 ==> CharAt(e, n - 1) == 0)
    ensures Stored(e) == n
  {
    hide CharAt;
    var last := CharAt(e, Stored(e) - 1);
  }

  /** Reading accepts a written piece unless the name is longer than 253 characters. */
  lemma PieceRead(e: Entry, name: seq<word>, ord: nat, sum: byte)
    requires NameOk(name) && 1 <= ord <= Pieces(name) && IsPiece(e, name, ord, sum)
    ensures Link(Reading(false), e, ord, sum) <==> (ord == Pieces(name) ==> |name| <= MAX_LFN - 2)
  {
    PieceFields(e, name, ord, sum);
  }

  /** Entries `p` to `k - 1`, marked as last piece only at `p`, can be no sequence but their own. */
  lemma OnlySequence(m: Mode, t: seq<byte>, p: nat, k: nat, s: byte, b: nat)
    requires p < k && 32 * k <= |t| && (m.Finding? ==> |m.buf| == MAX_LFN + 1)
    requires forall j {:trigger EntryAt(t, j)} :: p <= j < k ==> (IsLast(EntryAt(t, j)[0]) <==> j == p)
    ensures Sequence(m, t, b, k, 0, s) <==>
              b == p && forall j {:trigger EntryAt(t, j)} :: p <= j < k ==> Link(m, EntryAt(t, j), k - j, s)
  {
    hide Link, IsLast;
    var e := EntryAt(t, p);
    if Sequence(m, t, b, k, 0, s) {
      assert IsLast(EntryAt(t, b)[0]);
    }
  }

  /** A written name is read back as a long name exactly when it has at most 253 characters. */
  lemma ReadsBack(t: seq<byte>, q: nat, p: nat, name: seq<word>, fn: seq<byte>)
    requires |fn| == 12 && q <= p && 32 * (p + Pieces(name)) + 32 <= |t|
    requires NameOk(name) && ShortNameOk(fn) && Registered(t, p, name, fn)
    ensures var k := p + Pieces(name);
            && KindOf(Reading(false), EntryAt(t, k)) == Short
            && (forall b: nat :: q <= b ==>
                  (Sequence(Reading(false), t, b, k, 0, Checksum(EntryAt(t, k))) <==> b == p && |name| <= MAX_LFN - 2))
  {
    hide Checksum, IsPiece, KindOf, IsLast, Sequence, Link;
    var m, k, s := Reading(false), p + Pieces(name), Checksum(fn);
    SameChecksum(EntryAt(t, k), fn);
    NewShortKind(EntryAt(t, k), fn);
    forall j | p <= j < k
      ensures Link(m, EntryAt(t, j), k - j, s) <==> (j == p ==> |name| <= MAX_LFN - 2)
      ensures IsLast(EntryAt(t, j)[0]) <==> j == p
    {
      PieceRead(EntryAt(t, j), name, k - j, s);
      PieceFields(EntryAt(t, j), name, k - j, s);
    }
    forall b: nat
      ensures Sequence(m, t, b, k, 0, s) <==> b == p && |name| <= MAX_LFN - 2
    {
      OnlySequence(m, t, p, k, s, b);
      assert Link(m, EntryAt(t, p), k - p, s) <==> |name| <= MAX_LFN - 2;
    }
  }

  lemma NewShortKind(e: Entry, fn: seq<byte>)
    requires |fn| == 12 && ShortNameOk(fn) && IsNewShort(e, fn)
    ensures KindOf(Reading(false), e) == Short
    ensures forall m: Mode :: m.Finding? ==> KindOf(m, e) == Short
  {
    assert e[..11][0] == fn[..11][0];
  }

  lemma SameChecksum(e: Entry, fn: seq<byte>)
    requires |fn| == 12 && SameShortName(e, fn)
    ensures Checksum(e) == Checksum(fn)
  {
    assert forall x :: 0 <= x < 11 ==> e[x] == e[..11][x] && fn[x] == fn[..11][x];
    SamePrefix(e, fn, 11);
  }

  /** The piece that character `x` of a name, or the terminator at `|name|`, belongs to. */
  lemma PieceOf(name: seq<word>, x: nat) returns (ord: nat)
    requires 1 <= |name| && x <= |name|
    ensures 1 <= ord <= Pieces(name) && 13 * (ord - 1) <= x
    ensures if x == 13 * Pieces(name) then ord == Pieces(name) else x < 13 * ord
    ensures x == 13 * Pieces(name) ==> x != MAX_LFN
  {
    ord := if x == 13 * Pieces(name) then Pieces(name) else x / 13 + 1;
  }

  /** When all its pieces are picked the buffer holds the name. */
  lemma PickedIsName(buf: seq<word>, t: seq<byte>, p: nat, name: seq<word>, sum: byte)
    requires |buf| == MAX_LFN + 1 && NameOk(name) && |name| <= MAX_LFN - 2
    requires 32 * (p + Pieces(name)) <= |t| && PiecesFrom(t, p, p + Pieces(name), name, sum)
    requires AllPicked(buf, t, p, p + Pieces(name))
    ensures HoldsName(buf, name)
  {
    hide CharAt, IsPiece, Picked;
    var k := p + Pieces(name);
    forall x | 0 <= x <= |name|
      ensures buf[x] == Padded(name, x)
    {
      var ord := PieceOf(name, x);
      var e := EntryAt(t, k - ord);
      assert Picked(buf, e) && IsPiece(e, name, ord, sum);
      PieceAtOffset(buf, e, name, ord, sum, x);
    }
    assert forall x :: 0 <= x < |name| ==> buf[x] == name[x];
  }

  lemma PieceAtOffset(buf: seq<word>, e: Entry, name: seq<word>, ord: nat, sum: byte, x: nat)
    requires |buf| == MAX_LFN + 1 && NameOk(name) && 1 <= ord <= Pieces(name) && IsPiece(e, name, ord, sum)
    requires Picked(buf, e) && x <= |name|
    requires 13 * (ord - 1) <= x && (x < 13 * ord || (x == |name| == 13 * ord && ord == Pieces(name)))
    ensures buf[x] == Padded(name, x)
  {
    hide CharAt;
    PieceFields(e, name, ord, sum);
    var y := x - 13 * (ord - 1);
    if y < 13 {
      assert buf[Offset(ord) + y] == CharAt(e, y) == Padded(name, 13 * (ord - 1) + y);
    }
  }

  /** What reading a registered name yields: the whole name, found where it begins, exactly when it
      has at most 253 characters. */
  lemma ReadYieldsName(t: seq<byte>, q: nat, p: nat, name: seq<word>, fn: seq<byte>, start: dword, buf: seq<word>)
    requires |fn| == 12 && q <= p && 32 * (p + Pieces(name)) + 32 <= |t| <= MAX_DIR && |buf| == MAX_LFN + 1
    requires NameOk(name) && ShortNameOk(fn) && Registered(t, p, name, fn)
    requires LongNameSeen(Reading(false), t, q, p + Pieces(name), start)
    requires start != NO_LFN ==> AllPicked(buf, t, start / 32, p + Pieces(name))
    ensures start != NO_LFN <==> |name| <= MAX_LFN - 2
    ensures start != NO_LFN ==> start == 32 * p && HoldsName(buf, name)
  {
    hide Checksum, IsPiece, KindOf, IsLast, Sequence, PiecesFrom, AllPicked;
    ReadsBack(t, q, p, name, fn);
    if |name| <= MAX_LFN - 2 {
      assert Sequence(Reading(false), t, p, p + Pieces(name), 0, Checksum(EntryAt(t, p + Pieces(name))));
      PickedIsName(buf, t, p, name, Checksum(fn));
    }
  }

  /** Registering a name in free entries leaves every other registered name as it is. */
  lemma StoreKeepsOthers(t: seq<byte>, u: seq<byte>, b: nat, n: nat, p: nat, name: seq<word>, fn: seq<byte>)
    requires |fn| == 12 && 32 * (p + Pieces(name)) + 32 <= |t| && |name| <= MAX_LFN && ShortNameOk(fn)
    requires Registered(t, p, name, fn) && FreeBlock(t, b, n) && SameOutside(t, u, 32 * b, 32 * (b + n))
    ensures Registered(u, p, name, fn)
  {
    hide CharAt, Checksum;
    forall j | p <= j <= p + Pieces(name)
      ensures EntryAt(u, j) == EntryAt(t, j)
    {
      if j < p + Pieces(name) {
        assert IsPiece(EntryAt(t, j), name, p + Pieces(name) - j, Checksum(fn));
      } else {
        assert EntryAt(t, j)[..11][0] == fn[..11][0];
      }
      assert !IsFree(EntryAt(t, j));
    }
  }

  /** Names that a search takes for the same. */
  ghost predicate SameName(a: seq<word>, b: seq<word>, up: word -> word) {
    |a| == |b| && forall x :: 0 <= x < |a| ==> up(a[x]) == up(b[x])
  }

  /** Piece `ord` of `name`, its terminator included, agrees with the buffer and fits in it. */
  ghost predicate PieceAgrees(buf: seq<word>, name: seq<word>, ord: nat, up: word -> word)
    requires |buf| == MAX_LFN + 1 && ord >= 1
  {
    && (forall x :: 13 * (ord - 1) <= x < 13 * ord && x <= |name| ==> x < MAX_LFN && up(Padded(name, x)) == up(buf[x]))
    && (13 * ord == |name| && ord == Pieces(name) && |name| <= MAX_LFN ==> buf[|name|] == 0)
  }

  lemma PieceFound(e: Entry, name: seq<word>, ord: nat, sum: byte, buf: seq<word>, up: word -> word)
    requires NameOk(name) && 1 <= ord <= Pieces(name) && IsPiece(e, name, ord, sum) && |buf| == MAX_LFN + 1
    ensures Link(Finding(buf, up, false), e, ord, sum) <==> PieceAgrees(buf, name, ord, up)
  {
    hide CharAt, IsLast, Ordinal, WellFormed, Stored, PieceAgrees, Padded;
    PieceFields(e, name, ord, sum);
    MatchIsAgreement(e, name, ord, sum, buf, up);
  }

  lemma MatchIsAgreement(e: Entry, name: seq<word>, ord: nat, sum: byte, buf: seq<word>, up: word -> word)
    requires NameOk(name) && 1 <= ord <= Pieces(name) && IsPiece(e, name, ord, sum) && |buf| == MAX_LFN + 1
    ensures Matches(e, buf, up) <==> PieceAgrees(buf, name, ord, up)
  {
    hide CharAt, IsLast, Ordinal, WellFormed, Stored;
    PieceFields(e, name, ord, sum);
    var at := 13 * (ord - 1);
    var n := Stored(e);
    assert forall y :: 0 <= y < 13 ==> CharAt(e, y) == Padded(name, at + y);
    if Matches(e, buf, up) {
      forall x | at <= x < 13 * ord && x <= |name|
        ensures x < MAX_LFN && up(Padded(name, x)) == up(buf[x])
      {
        assert CharAt(e, x - at) == Padded(name, x);
      }
    }
    if PieceAgrees(buf, name, ord, up) {
      assert Padded(name, at + n - 1) == CharAt(e, n - 1);
      forall y | 0 <= y < n
        ensures up(CharAt(e, y)) == up(buf[at + y])
      {
        assert up(Padded(name, at + y)) == up(buf[at + y]);
      }
    }
  }

  lemma AllAgree(buf: seq<word>, name: seq<word>, want: seq<word>, up: word -> word)
    requires NameOk(name) && HoldsName(buf, want) && NameOk(want) && forall c :: up(c) == 0 <==> c == 0
    ensures (forall ord: nat :: 1 <= ord <= Pieces(name) ==> PieceAgrees(buf, name, ord, up)) <==>
              SameName(name, want, up) && |name| <= MAX_LFN - 1
  {
    assert forall x :: 0 <= x < |want| ==> buf[x] == buf[..|want|][x];
    if forall ord: nat :: 1 <= ord <= Pieces(name) ==> PieceAgrees(buf, name, ord, up) {
      forall x | 0 <= x <= |name|
        ensures x < MAX_LFN && up(Padded(name, x)) == up(buf[x])
      {
        var ord := PieceOf(name, x);
        assert PieceAgrees(buf, name, ord, up);
        assert x == 13 * Pieces(name) ==> Padded(name, x) == buf[x];
      }
      assert |name| <= |want| by {
        assert |want| <= |name| ==> up(Padded(name, |want|)) == up(buf[|want|]);
      }
      assert up(Padded(name, |name|)) == up(buf[|name|]);
    }
    if SameName(name, want, up) && |name| <= MAX_LFN - 1 {
      forall x | 0 <= x <= |name|
        ensures up(Padded(name, x)) == up(buf[x])
      {
        assert x < |name| ==> up(name[x]) == up(want[x]);
      }
    }
  }

  /** A registered long name is found under exactly the names that equal it but for case, provided
      it has at most 254 characters. */
  lemma FoundExactly(t: seq<byte>, p: nat, name: seq<word>, fn: seq<byte>, buf: seq<word>, want: seq<word>,
                     up: word -> word)
    requires |fn| == 12 && 32 * (p + Pieces(name)) + 32 <= |t|
    requires NameOk(name) && ShortNameOk(fn) && Registered(t, p, name, fn)
    requires HoldsName(buf, want) && NameOk(want) && forall c :: up(c) == 0 <==> c == 0
    ensures var k, m := p + Pieces(name), Finding(buf, up, false);
            && KindOf(m, EntryAt(t, k)) == Short
            && (forall b: nat ::
                  Sequence(m, t, b, k, 0, Checksum(EntryAt(t, k))) <==>
                    b == p && SameName(name, want, up) && |name| <= MAX_LFN - 1)
  {
    hide Checksum, IsPiece, KindOf, IsLast, PieceAgrees, SameName, Sequence, Link;
    var m, k, s := Finding(buf, up, false), p + Pieces(name), Checksum(fn);
    SameChecksum(EntryAt(t, k), fn);
    NewShortKind(EntryAt(t, k), fn);
    AllAgree(buf, name, want, up);
    forall j | p <= j < k
      ensures Link(m, EntryAt(t, j), k - j, s) <==> PieceAgrees(buf, name, k - j, up)
      ensures IsLast(EntryAt(t, j)[0]) <==> j == p
    {
      PieceFound(EntryAt(t, j), name, k - j, s, buf, up);
      PieceFields(EntryAt(t, j), name, k - j, s);
    }
    if forall j {:trigger EntryAt(t, j)} :: p <= j < k ==> Link(m, EntryAt(t, j), k - j, s) {
      forall ord: nat | 1 <= ord <= Pieces(name)
        ensures PieceAgrees(buf, name, ord, up)
      {
        assert Link(m, EntryAt(t, k - ord), ord, s);
      }
    }
    forall b: nat
      ensures Sequence(m, t, b, k, 0, s) <==> b == p && SameName(name, want, up) && |name| <= MAX_LFN - 1
    {
      OnlySequence(m, t, p, k, s, b);
    }
  }

  /** Only bytes `from` to `to - 1` of the table differ. */
  ghost predicate SameOutside(t: seq<byte>, u: seq<byte>, from: nat, to: nat) {
    |t| == |u| && forall x :: 0 <= x < |t| && !(from <= x < to) ==> u[x] == t[x]
  }

  lemma NoPieces(t: seq<byte>, p: nat, sum: byte)
    requires 32 * p <= |t|
    ensures PiecesFrom(t, p, p, [], sum) && SameOutside(t, t, 32 * p, 32 * p)
  {
  }

  lemma Registration(t: seq<byte>, u: seq<byte>, v: seq<byte>, p: nat, name: seq<word>, fn: seq<byte>)
    requires |fn| == 12 && 32 * (p + Pieces(name)) + 32 <= |t| == |u| == |v|
    requires SameOutside(t, u, 32 * p, 32 * (p + Pieces(name)))
    requires PiecesFrom(u, p, p + Pieces(name), name, Checksum(fn))
    requires OnlyEntry(u, v, 32 * (p + Pieces(name))) && IsNewShort(EntryAt(v, p + Pieces(name)), fn)
    ensures Registered(v, p, name, fn) && SameOutside(t, v, 32 * p, 32 * (p + (Pieces(name) + 1)))
  {
    hide IsPiece, IsNewShort, Checksum;
    forall j | p <= j < p + Pieces(name)
      ensures EntryAt(v, j) == EntryAt(u, j)
    {
    }
  }

  // ---- A registered name is found from the start of the table ----

  /** No entry in use stands behind an end mark. */
  ghost predicate EndLast(t: seq<byte>) {
    forall j, k {:trigger EntryAt(t, j), EntryAt(t, k)} ::
      0 <= j < k && 32 * k + 32 <= |t| && EntryAt(t, j)[0] == 0 ==> EntryAt(t, k)[0] == 0
  }

  /** No end mark stands before entry `k`. */
  ghost predicate NoEndBefore(t: seq<byte>, k: nat)
    requires 32 * k <= |t|
  {
    forall j {:trigger EntryAt(t, j)} :: 0 <= j < k ==> EntryAt(t, j)[0] != 0
  }

  lemma EndBlock(t: seq<byte>, j: nat, n: nat)
    requires EndLast(t) && n > 0 && 32 * (j + n) <= |t| && EntryAt(t, j)[0] == 0
    ensures FreeBlock(t, j, n)
  {
  }

  /** Registering a name in the first free block with room keeps used entries before the end mark,
      and the name is among them. */
  lemma StoreKeepsEnd(t: seq<byte>, u: seq<byte>, p: nat, name: seq<word>, fn: seq<byte>)
    requires |fn| == 12 && ShortNameOk(fn) && |name| <= MAX_LFN && EndLast(t)
    requires var n := Pieces(name) + 1;
             && FreeBlock(t, p, n) && (forall x: nat :: x < p ==> !FreeBlock(t, x, n))
             && SameOutside(t, u, 32 * p, 32 * (p + n)) && Registered(u, p, name, fn)
    ensures EndLast(u) && NoEndBefore(u, p + Pieces(name) + 1)
  {
    hide IsPiece, Checksum, IsNewShort;
    var n := Pieces(name) + 1;
    forall j | 0 <= j < p
      ensures EntryAt(u, j) == EntryAt(t, j) && EntryAt(u, j)[0] != 0
    {
      if EntryAt(t, j)[0] == 0 {
        hide EndLast, FreeBlock;
        EndBlock(t, j, n);
      }
    }
    forall j | p <= j < p + n
      ensures EntryAt(u, j)[0] != 0
    {
      UsedEntry(u, p, name, fn, j);
    }
    forall j | p + n <= j && 32 * j + 32 <= |t|
      ensures EntryAt(u, j) == EntryAt(t, j)
    {
    }
  }

  lemma UsedEntry(u: seq<byte>, p: nat, name: seq<word>, fn: seq<byte>, j: nat)
    requires |fn| == 12 && ShortNameOk(fn) && |name| <= MAX_LFN && 32 * (p + Pieces(name)) + 32 <= |u|
    requires Registered(u, p, name, fn) && p <= j <= p + Pieces(name)
    ensures EntryAt(u, j)[0] != 0
  {
    hide CharAt, Checksum;
    if j < p + Pieces(name) {
      assert IsPiece(EntryAt(u, j), name, p + Pieces(name) - j, Checksum(fn));
    } else {
      assert EntryAt(u, j)[..11][0] == fn[..11][0];
    }
  }

  lemma PassedNot(m: Mode, t: seq<byte>, at: nat, k: nat, fn: seq<byte>)
    requires 32 * at <= |t| && |fn| == 12 && (m.Finding? ==> |m.buf| == MAX_LFN + 1)
    requires PassedBy(m, t, at, fn) && k < at
    ensures !Hit(m, t, k, fn)
  {
    assert EntryAt(t, k) == EntryAt(t, k);
  }

  lemma SkippedNot(m: Mode, t: seq<byte>, q: nat, at: nat, k: nat)
    requires 32 * at <= |t| && Skipped(m, t, q, at) && q <= k < at
    ensures KindOf(m, EntryAt(t, k)) in {Junk, Long}
  {
  }

  /** A search that has an entry `k` to find, with no end mark before it, finds it or an earlier one. */
  lemma SearchReaches(m: Mode, t: seq<byte>, at: nat, k: nat, fn: seq<byte>)
    requires 32 * at <= |t| && 32 * k + 32 <= |t| && |fn| == 12 && (m.Finding? ==> |m.buf| == MAX_LFN + 1)
    requires NoEndBefore(t, k + 1) && Hit(m, t, k, fn) && PassedBy(m, t, at, fn)
    ensures at <= k && !TableEnds(m, t, at)
    ensures (forall j: nat :: j < k ==> !Hit(m, t, j, fn)) && Hit(m, t, at, fn) ==> at == k
  {
    hide Hit, PassedBy;
    if at > k {
      PassedNot(m, t, at, k, fn);
    } else {
      assert EntryAt(t, at)[0] != 0;
    }
  }

  /** Reading from an entry with only passed-over entries between it and the short entry `k` reports `k`. */
  lemma ReadReaches(m: Mode, t: seq<byte>, q: nat, at: nat, k: nat)
    requires 32 * at <= |t| && 32 * k + 32 <= |t| && q <= k
    requires NoEndBefore(t, k + 1) && KindOf(m, EntryAt(t, k)) == Short && Skipped(m, t, q, at)
    ensures at <= k && !TableEnds(m, t, at)
    ensures Skipped(m, t, q, k) && 32 * at + 32 <= |t| && KindOf(m, EntryAt(t, at)) == Short ==> at == k
  {
    if at > k {
      hide Skipped;
      SkippedNot(m, t, q, at, k);
    } else {
      assert EntryAt(t, at)[0] != 0;
    }
  }

  /** An open directory. */
  class Dir {
    const table: array<byte>       // the entries, as the window shows them
    const lfnbuf: array<word>      // the volume's name buffer
    const up: word -> word         // upper-casing of a character
    var fn: seq<byte>              // short name and status flags
    var dptr: nat                  // offset of the current entry
    var live: bool                 // a sector is selected
    var attr: byte
    var blkOfs: dword              // where the entries of the current object begin

    constructor (table: array<byte>, lfnbuf: array<word>, up: word -> word)
      requires 32 <= table.Length <= MAX_DIR && table.Length % 32 == 0 && lfnbuf.Length == MAX_LFN + 1
      ensures Valid() && this.table == table && this.lfnbuf == lfnbuf && this.up == up && live && dptr == 0
    {
      this.table, this.lfnbuf, this.up := table, lfnbuf, up;
      fn, dptr, live, attr, blkOfs := seq(12, _ => 0x20), 0, true, 0, NO_LFN;
    }

    ghost predicate Valid()
      reads this
    {
      && 32 <= table.Length <= MAX_DIR && table.Length % 32 == 0 && lfnbuf.Length == MAX_LFN + 1
      && |fn| == 12 && dptr % 32 == 0 && dptr + 32 <= table.Length
    }

    /** Selects the entry at `ofs`. */
    method Sdi(ofs: nat) returns (ok: bool)
      requires Valid() && ofs % 32 == 0
      modifies this`dptr, this`live
      ensures Valid() && (ok <==> ofs < table.Length)
      ensures if ok then live && dptr == ofs else live == old(live) && dptr == old(dptr)
    {
      if ofs >= table.Length {
        return false;
      }
      dptr, live := ofs, true;
      return true;
    }

    /** Moves to the next entry, without stretching the table. */
    method Next() returns (ok: bool)
      requires Valid()
      modifies this`dptr, this`live
      ensures Valid() && (ok <==> old(live) && old(dptr) + 32 < table.Length)
      ensures if ok then live && dptr == old(dptr) + 32 else dptr == old(dptr) && !live
    {
      if !live {
        return false;
      }
      if dptr + 32 >= table.Length {
        live := false;
        return false;
      }
      dptr := dptr + 32;
      return true;
    }

    /** Takes in one long-name entry: `ord`, `sum` and `blkOfs` move on as `TrackLong` says. */
    method TakeLong(e: Entry, ord0: byte, sum0: byte, ghost m: Mode, ghost t: seq<byte>, ghost p: nat)
      returns (ord: byte, sum: byte)
      requires Valid() && m.Reading? && t == table[..] && e == EntryAt(t, dptr / 32) && KindOf(m, e) == Long
      requires p <= dptr / 32 && Tracks(m, t, p, dptr / 32, ord0, sum0, blkOfs)
      requires ord0 != DEAD ==> AllPicked(lfnbuf[..], t, blkOfs / 32, dptr / 32)
      modifies this`blkOfs, lfnbuf
      ensures Valid() && table[..] == t && Tracks(m, t, p, dptr / 32 + 1, ord, sum, blkOfs)
      ensures ord != DEAD ==> AllPicked(lfnbuf[..], t, blkOfs / 32, dptr / 32 + 1)
    {
      hide Tracks, Sequence, IsLast, Offset, Picked, Pickable, AllPicked, KindOf;
      ghost var k, start0 := dptr / 32, blkOfs;
      TrackOpen(m, t, p, k, ord0, sum0, start0);
      ord, sum := ord0, sum0;
      var c := e[0];
      if IsLast(c) {
        sum := e[13];
        c := Ordinal(c);
        ord := c;
        blkOfs := dptr;
      }
      var ok := c == ord && sum == e[13];
      if ok {
        ghost var buf := lfnbuf[..];
        ok := PickLfn(lfnbuf, e);
        if ok {
          AcceptedOrdinal(m, e);
          PickStep(m, t, blkOfs / 32, k, ord, sum, buf, lfnbuf[..]);
        }
      }
      ord := if ok then (ord as int + 255) % 256 else DEAD;
      TrackLong(m, t, p, k, ord0, sum0, start0, ord, sum, blkOfs);
    }

    /** Finds the next short entry `at`, and decides whether the entries before it spell its long
        name. */
    method Read(vol: bool) returns (res: DResult, ghost at: nat)
      requires Valid()
      modifies this`dptr, this`live, this`attr, this`blkOfs, lfnbuf
      ensures Valid() && live == (res == Found)
      ensures if old(live)
              then 32 * at <= table.Length && Skipped(Reading(vol), table[..], old(dptr) / 32, at)
              else res == NoFile
      ensures res == Found ==>
                && dptr == 32 * at && KindOf(Reading(vol), EntryAt(table[..], at)) == Short
                && attr == EntryAt(table[..], at)[11] % 64
                && LongNameSeen(Reading(vol), table[..], old(dptr) / 32, at, blkOfs)
      ensures res == Found && blkOfs != NO_LFN ==> AllPicked(lfnbuf[..], table[..], blkOfs / 32, at)
      ensures res != Found ==> res == NoFile && (old(live) ==> TableEnds(Reading(vol), table[..], at))
    {
      hide Tracks, Sequence, Skipped, Checksum, SumOf, IsLast, AllPicked, NoArchive;
      ghost var m, t, p := Reading(vol), table[..], dptr / 32;
      res, at := NoFile, p;
      var ord: byte, sum: byte := DEAD, DEAD;
      TrackStart(m, t, p, sum, blkOfs);
      SkipNone(m, t, p);
      while live
        invariant Valid() && table[..] == t && res == NoFile && p <= at && (live ==> old(live))
        invariant old(live) ==> 32 * at <= |t| && Skipped(m, t, p, at)
        invariant !live && old(live) ==> TableEnds(m, t, at)
        invariant live ==> dptr == 32 * at && Tracks(m, t, p, at, ord, sum, blkOfs)
        invariant live && ord != DEAD ==> AllPicked(lfnbuf[..], t, blkOfs / 32, at)
        decreases live, table.Length - dptr
      {
        var e: Entry := table[dptr..dptr + 32];
        assert e == EntryAt(t, at);
        var c := e[0];
        if c == 0 {
          live := false;
          break;
        }
        var a := e[11] % 64;
        attr := a;
        if c == DELETED || c == DOT || (NoArchive(a) == 8) != vol {
          ord := DEAD;
          TrackOther(m, t, p, at, sum, blkOfs);
        } else if a == AM_LFN {
          ord, sum := TakeLong(e, ord, sum, m, t, p);
        } else {
          var s := SumSfn(e);
          TrackEnd(m, t, p, at, ord, sum, blkOfs, s);
          if ord != 0 || sum != s {
            blkOfs := NO_LFN;
          }
          res := Found;
          break;
        }
        SkipStep(m, t, p, at);
        at := at + 1;
        var ok := Next();
      }
    }

    ghost function Sought(): Mode
      reads this, lfnbuf
      requires Valid()
    {
      Finding(lfnbuf[..], up, fn[11] / 64 % 2 == 1)
    }

    method CompareLong(e: Entry, ord0: byte, sum0: byte, ghost m: Mode, ghost t: seq<byte>)
      returns (ord: byte, sum: byte)
      requires Valid() && t == table[..] && m == Sought() && e == EntryAt(t, dptr / 32) && KindOf(m, e) == Long
      requires Tracks(m, t, 0, dptr / 32, ord0, sum0, blkOfs)
      requires blkOfs == LastStart(m, t, dptr / 32)
      modifies this`blkOfs
      ensures Valid() && Tracks(m, t, 0, dptr / 32 + 1, ord, sum, blkOfs)
      ensures blkOfs == LastStart(m, t, dptr / 32 + 1)
    {
      hide Tracks, Sequence, IsLast, Offset, Matches, KindOf;
      ghost var k, start0 := dptr / 32, blkOfs;
      ord, sum := ord0, sum0;
      var c := e[0];
      if IsLast(c) {
        sum := e[13];
        c := Ordinal(c);
        ord := c;
        blkOfs := dptr;
      }
      var ok := c == ord && sum == e[13];
      if ok {
        ok := CmpLfn(lfnbuf, e, up);
      }
      if ok {
        AcceptedOrdinal(m, e);
      }
      ord := if ok then (ord as int + 255) % 256 else DEAD;
      TrackLong(m, t, 0, k, ord0, sum0, start0, ord, sum, blkOfs);
    }

    /** Does the short entry `e` have the long name or the short name that is looked for? */
    method IsSought(e: Entry, ord: byte, sum: byte, ghost m: Mode, ghost t: seq<byte>, ghost at: nat)
      returns (found: bool)
      requires Valid() && m.Finding? && |m.buf| == MAX_LFN + 1 && 32 * at + 32 <= |t| <= MAX_DIR
      requires e == EntryAt(t, at) && KindOf(m, e) == Short && Tracks(m, t, 0, at, ord, sum, blkOfs)
      ensures found <==> Hit(m, t, at, fn)
    {
      hide Tracks, Sequence, KindOf;
      var s := SumSfn(e);
      TrackEnd(m, t, 0, at, ord, sum, blkOfs, s);
      if ord == 0 && sum == s {
        return true;
      }
      return fn[11] % 2 == 0 && SameShortName(e, fn);
    }

    /** Finds the first entry `at` that has the name in the buffer, or the short name in `fn`. */
    method Find() returns (res: DResult, ghost at: nat)
      requires Valid()
      modifies this`dptr, this`live, this`attr, this`blkOfs
      ensures Valid() && 32 * at <= table.Length && PassedBy(Sought(), table[..], at, fn)
      ensures res == Found ==>
                && live && dptr == 32 * at && Hit(Sought(), table[..], at, fn)
                && attr == EntryAt(table[..], at)[11] % 64 && blkOfs == LastStart(Sought(), table[..], at)
      ensures res != Found ==> res == NoFile && TableEnds(Sought(), table[..], at)
    {
      hide Tracks, Sequence, PassedBy, Checksum, SumOf, IsLast, Hit, LastStart;
      var ok := Sdi(0);
      ghost var m, t := Sought(), table[..];
      var noLfn := fn[11] / 64 % 2 == 1;
      var ord: byte, sum: byte := DEAD, DEAD;
      blkOfs := NO_LFN;
      res, at := NoFile, 0;
      TrackStart(m, t, 0, sum, blkOfs);
      PassNone(m, t, fn);
      while ok
        invariant Valid() && table[..] == t && m == Sought() && res == NoFile
        invariant 32 * at <= |t| && PassedBy(m, t, at, fn)
        invariant Tracks(m, t, 0, at, ord, sum, blkOfs) && blkOfs == LastStart(m, t, at) && (noLfn ==> ord == DEAD)
        invariant if ok then live && dptr == 32 * at else TableEnds(m, t, at)
        decreases ok, table.Length - dptr
      {
        var e: Entry := table[dptr..dptr + 32];
        assert e == EntryAt(t, at);
        var c := e[0];
        if c == 0 {
          break;
        }
        var a := e[11] % 64;
        attr := a;
        if c == DELETED || (a / 8 % 2 == 1 && a != AM_LFN) {
          ord := DEAD;
          blkOfs := NO_LFN;
          NotLong(m, t, at, sum, blkOfs);
        } else if a == AM_LFN {
          if !noLfn {
            ord, sum := CompareLong(e, ord, sum, m, t);
          } else {
            NotLong(m, t, at, sum, blkOfs);
          }
        } else {
          var found := IsSought(e, ord, sum, m, t, at);
          if found {
            res := Found;
            break;
          }
          ord := DEAD;
          blkOfs := NO_LFN;
          NotLong(m, t, at, sum, blkOfs);
        }
        PassOne(m, t, at, fn);
        at := at + 1;
        ok := Next();
      }
    }

    /** Finds the first block of `nent` free entries; the last of them, `at`, becomes the current one. */
    method Alloc(nent: nat) returns (res: DResult, ghost at: nat)
      requires Valid() && nent >= 1
      modifies this`dptr, this`live
      ensures Valid()
      ensures res == Found ==> live && dptr == 32 * at && at + 1 >= nent && FreeBlock(table[..], at + 1 - nent, nent)
      ensures forall x: nat :: x + nent <= (if res == Found then at else table.Length / 32) ==>
                !FreeBlock(table[..], x, nent)
      ensures res == Found || res == NoRoom
    {
      var ok := Sdi(0);
      var n := 0;
      ghost var t := table[..];
      at := 0;
      while ok
        invariant Valid() && table[..] == t && n < nent && n <= at && 32 * at <= |t|
        invariant if ok then live && dptr == 32 * at else 32 * at == |t|
        invariant FreeBlock(t, at - n, n) && (n < at ==> !IsFree(EntryAt(t, at - n - 1)))
        invariant forall x: nat :: x + nent < at ==> !FreeBlock(t, x, nent)
        decreases ok, table.Length - dptr
      {
        var e: Entry := table[dptr..dptr + 32];
        assert e == EntryAt(t, at);
        BlockStep(t, at, n, nent);
        if IsFree(e) {
          n := n + 1;
          if n == nent {
            return Found, at;
          }
        } else {
          n := 0;
        }
        at := at + 1;
        ok := Next();
      }
      return NoRoom, at;
    }

    /** Writes the short entry. */
    method PutSfn()
      requires Valid()
      modifies table
      ensures Valid() && OnlyEntry(old(table[..]), table[..], dptr)
      ensures IsNewShort(table[dptr..dptr + 32], fn)
    {
      forall i | 0 <= i < 32 {
        table[dptr + i] := 0;
      }
      forall i | 0 <= i < 11 {
        table[dptr + i] := fn[i];
      }
      table[dptr + 12] := fn[11] / 8 % 4 * 8;
      assert forall i :: 0 <= i < 11 ==> table[dptr..dptr + 32][i] == fn[i];
    }

    /** Writes the pieces of the name from the current entry on, last piece first. */
    method PutPieces(nent: nat, ghost name: seq<word>)
      requires Valid() && live && HoldsName(lfnbuf[..], name) && NameOk(name)
      requires nent == Pieces(name) && dptr + 32 * nent + 32 <= table.Length
      modifies this`dptr, this`live, table
      ensures Valid() && live && dptr == old(dptr) + 32 * nent
      ensures PiecesFrom(table[..], old(dptr) / 32, dptr / 32, name, Checksum(fn))
      ensures SameOutside(old(table[..]), table[..], old(dptr), dptr)
    {
      hide IsPiece, Checksum;
      ghost var t, p := table[..], dptr / 32;
      var sum := SumSfn(fn);
      var n := nent;
      while n > 0
        invariant 0 <= n <= nent && Valid() && live && HoldsName(lfnbuf[..], name)
        invariant dptr == 32 * (p + nent - n)
        invariant PiecesFrom(table[..], p, p + nent - n, name, sum)
        invariant SameOutside(t, table[..], 32 * p, dptr)
      {
        ghost var u, k := table[..], p + nent - n;
        PutLfn(lfnbuf, table, dptr, n, sum, name);
        assert EntryAt(table[..], k) == table[dptr..dptr + 32];
        forall j | p <= j < k
          ensures EntryAt(table[..], j) == EntryAt(u, j)
        {
        }
        var ok := Next();
        n := n - 1;
      }
    }

    method NameLength(ghost name: seq<word>) returns (nlen: nat)
      requires Valid() && HoldsName(lfnbuf[..], name) && NameOk(name)
      ensures nlen == |name|
    {
      assert forall x :: 0 <= x < |name| ==> lfnbuf[x] == lfnbuf[..|name|][x];
      nlen := 0;
      while lfnbuf[nlen] != 0
        invariant nlen <= |name|
        decreases |name| - nlen
      {
        nlen := nlen + 1;
      }
    }

    /** Registers the short name in `fn`, with the name in the buffer when `fn` asks for it, in the
        first block of free entries that has room. */
    method Store(ghost name: seq<word>) returns (res: DResult, ghost p: nat)
      requires Valid() && HoldsName(lfnbuf[..], name) && NameOk(name)
      modifies this`dptr, this`live, table
      ensures Valid() && fn == old(fn) && res in {Found, NoRoom}
      ensures var t, want := old(table[..]), if fn[11] / 2 % 2 == 1 then name else [];
              var n := Pieces(want) + 1;
              if res == Found then
                && FreeBlock(t, p, n) && (forall x: nat :: x < p ==> !FreeBlock(t, x, n))
                && SameOutside(t, table[..], 32 * p, 32 * (p + n))
                && Registered(table[..], p, want, fn)
              else
                table[..] == t && forall x: nat :: !FreeBlock(t, x, n)
    {
      hide IsPiece, Checksum, IsNewShort, SumOf, FreeBlock, PiecesFrom, Registered, HoldsName, NameOk, SameOutside,
           OnlyEntry;
      var nlen := NameLength(name);
      var nent := if fn[11] / 2 % 2 == 1 then (nlen + 12) / 13 + 1 else 1;
      ghost var t, at := table[..], 0;
      res, at := Alloc(nent);
      if res != Found {
        p := 0;
        return;
      }
      p := at + 1 - nent;
      ghost var want := if fn[11] / 2 % 2 == 1 then name else [];
      if nent > 1 {
        var ok := Sdi(dptr - 32 * (nent - 1));
        PutPieces(nent - 1, name);
      } else {
        NoPieces(t, p, Checksum(fn));
      }
      ghost var u := table[..];
      PutSfn();
      assert EntryAt(table[..], at) == table[dptr..dptr + 32];
      Registration(t, u, table[..], p, want, fn);
    }
  }

  lemma StoredIsHit(buf: seq<word>, up: word -> word, t: seq<byte>, p: nat, name: seq<word>, fn: seq<byte>)
    requires |fn| == 12 && 32 * (p + Pieces(name)) + 32 <= |t| && NameOk(name) && HoldsName(buf, name)
    requires ShortNameOk(fn) && Registered(t, p, name, fn) && |name| <= MAX_LFN - 1
    requires forall c :: up(c) == 0 <==> c == 0
    ensures var m, k := Finding(buf, up, false), p + Pieces(name);
            Hit(m, t, k, fn) && Sequence(m, t, p, k, 0, Checksum(EntryAt(t, k)))
  {
    hide Checksum, KindOf, Sequence, Registered;
    FoundExactly(t, p, name, fn, buf, name, up);
    assert SameName(name, name, up);
    var m, k := Finding(buf, up, false), p + Pieces(name);
    assert Sequence(m, t, p, k, 0, Checksum(EntryAt(t, k)));
  }

  /** Table `u` came from `t` by registering a name in the first free block with room. */
  ghost predicate StoredIn(t: seq<byte>, u: seq<byte>, p: nat, name: seq<word>, fn: seq<byte>)
    requires |fn| == 12
  {
    var n := Pieces(name) + 1;
    && FreeBlock(t, p, n) && (forall x: nat :: x < p ==> !FreeBlock(t, x, n))
    && SameOutside(t, u, 32 * p, 32 * (p + n)) && Registered(u, p, name, fn)
  }

  /** A long name of at most 254 characters that was just registered is found by a search from the
      start of the table: its own entries, unless an earlier object answers to it. */
  lemma FindsStored(t: seq<byte>, u: seq<byte>, p: nat, name: seq<word>, fn: seq<byte>, buf: seq<word>,
                    up: word -> word, at: nat)
    requires |fn| == 12 && ShortNameOk(fn) && NameOk(name) && |name| <= MAX_LFN - 1 && HoldsName(buf, name)
    requires EndLast(t) && StoredIn(t, u, p, name, fn) && forall c :: up(c) == 0 <==> c == 0
    requires 32 * at <= |u| <= MAX_DIR && PassedBy(Finding(buf, up, false), u, at, fn)
    ensures var m, k := Finding(buf, up, false), p + Pieces(name);
            && EndLast(u) && at <= k && 32 * k + 32 <= |u| && !TableEnds(m, u, at)
            && ((forall j: nat :: j < k ==> !Hit(m, u, j, fn)) && Hit(m, u, at, fn) ==>
                  at == k && LastStart(m, u, at) == 32 * p)
  {
    hide IsPiece, Checksum, IsNewShort, Registered, KindOf, IsLast, Sequence, Hit, PassedBy, LastStart, TableEnds,
         EndLast, NoEndBefore;
    var m, k := Finding(buf, up, false), p + Pieces(name);
    StoreKeepsEnd(t, u, p, name, fn);
    StoredIsHit(buf, up, u, p, name, fn);
    SearchReaches(m, u, at, k, fn);
    LastStartIs(m, u, p, k, 0, Checksum(EntryAt(u, k)));
  }

  /** A name that was just registered is reported by reading from its first entry, or from any entry
      with only passed-over entries in between; in full exactly when it has at most 253 characters. */
  lemma ReadsStored(t: seq<byte>, u: seq<byte>, p: nat, name: seq<word>, fn: seq<byte>, q: nat, at: nat, start: dword,
                    buf: seq<word>)
    requires |fn| == 12 && ShortNameOk(fn) && NameOk(name) && |buf| == MAX_LFN + 1 && q <= p
    requires EndLast(t) && StoredIn(t, u, p, name, fn) && 32 * at <= |u| <= MAX_DIR
    requires Skipped(Reading(false), u, q, at)
    ensures var m, k := Reading(false), p + Pieces(name);
            && EndLast(u) && at <= k && 32 * k + 32 <= |u| && !TableEnds(m, u, at)
            && (Skipped(m, u, q, k) && KindOf(m, EntryAt(u, at)) == Short && LongNameSeen(m, u, q, at, start)
                && (start != NO_LFN ==> AllPicked(buf, u, start / 32, at)) ==>
                  && at == k && (start != NO_LFN <==> |name| <= MAX_LFN - 2)
                  && (start != NO_LFN ==> start as int == 32 * p && HoldsName(buf, name)))
  {
    hide IsPiece, Checksum, IsNewShort, Registered, KindOf, IsLast, Sequence, TableEnds, EndLast, NoEndBefore, Skipped,
         LongNameSeen, AllPicked;
    var m, k := Reading(false), p + Pieces(name);
    StoreKeepsEnd(t, u, p, name, fn);
    ReadsBack(u, q, p, name, fn);
    ReadReaches(m, u, q, at, k);
    if at == k && LongNameSeen(m, u, q, k, start) && (start != NO_LFN ==> AllPicked(buf, u, start / 32, k)) {
      ReadYieldsName(u, q, p, name, fn, start, buf);
    }
  }

  /** Registers a name and looks it up. */
  method StoreThenFind(d: Dir, ghost name: seq<word>)
    returns (res: DResult, found: DResult, ghost p: nat, ghost at: nat)
    requires d.Valid() && HoldsName(d.lfnbuf[..], name) && NameOk(name) && |name| <= MAX_LFN - 1
    requires EndLast(d.table[..]) && ShortNameOk(d.fn) && d.fn[11] / 2 % 2 == 1 && d.fn[11] / 64 % 2 == 0
    requires forall c :: d.up(c) == 0 <==> c == 0
    modifies d, d.table
    ensures d.Valid() && EndLast(d.table[..])
    ensures res == Found ==>
              && found == Found && at <= p + Pieces(name) && 32 * (p + Pieces(name)) + 32 <= d.table.Length
              && Hit(d.Sought(), d.table[..], at, d.fn)
              && ((forall j: nat :: j < p + Pieces(name) ==> !Hit(d.Sought(), d.table[..], j, d.fn)) ==>
                    d.dptr == 32 * (p + Pieces(name)) && d.blkOfs as int == 32 * p)
  {
    hide IsPiece, Checksum, SumOf, FreeBlock, KindOf, Sequence, Hit, PassedBy, LastStart, NameOk, HoldsName, TableEnds,
         EndLast, SameOutside, Registered, ShortNameOk;
    ghost var t := d.table[..];
    res, p := d.Store(name);
    found, at := NoFile, 0;
    if res == Found {
      ghost var u := d.table[..];
      found, at := d.Find();
      FindsStored(t, u, p, name, d.fn, d.lfnbuf[..], d.up, at);
    }
  }

  /** Registers a name and reads from entry `q` on. */
  method StoreThenRead(d: Dir, ghost name: seq<word>, q: nat)
    returns (res: DResult, found: DResult, ghost p: nat, ghost at: nat)
    requires d.Valid() && HoldsName(d.lfnbuf[..], name) && NameOk(name) && 32 * q + 32 <= d.table.Length
    requires EndLast(d.table[..]) && ShortNameOk(d.fn) && d.fn[11] / 2 % 2 == 1
    modifies d, d.table, d.lfnbuf
    ensures d.Valid()
    ensures res == Found && q <= p ==>
              && EndLast(d.table[..]) && 32 * (p + Pieces(name)) + 32 <= d.table.Length
              && found == Found && at <= p + Pieces(name)
              && (Skipped(Reading(false), d.table[..], q, p + Pieces(name)) ==>
                    && d.dptr == 32 * (p + Pieces(name)) && (d.blkOfs != NO_LFN <==> |name| <= MAX_LFN - 2)
                    && (d.blkOfs != NO_LFN ==> d.blkOfs as int == 32 * p && HoldsName(d.lfnbuf[..], name)))
  {
    hide IsPiece, Checksum, SumOf, FreeBlock, KindOf, Sequence, NameOk, HoldsName, TableEnds, EndLast, SameOutside,
         Registered, ShortNameOk, Skipped, LongNameSeen, AllPicked;
    ghost var t := d.table[..];
    res, p := d.Store(name);
    found, at := NoFile, 0;
    if res == Found {
      ghost var u := d.table[..];
      var ok := d.Sdi(32 * q);
      found, at := d.Read(false);
      if q <= p {
        ReadsStored(t, u, p, name, d.fn, q, at, d.blkOfs, d.lfnbuf[..]);
      }
    }
  }
}
