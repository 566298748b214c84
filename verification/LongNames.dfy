/** Long file names: cutting a name into directory entries and recognising it again. */
module LongNames {
  import opened Bytes

  const MAX_LFN: nat := 255
  const MAX_DIR: nat := 0x20_0000
  const NO_LFN: dword := 0xFFFF_FFFF
  const DELETED: byte := 0xE5
  const DOT: byte := 0x2E
  const AM_LFN: byte := 0x0F
  const DEAD: byte := 0xFF

  /** One directory entry. */
  type Entry = s: seq<byte> | |s| == 32 witness seq(32, _ => 0)

  function EntryAt(t: seq<byte>, k: nat): Entry
    requires 32 * k + 32 <= |t|
  {
    t[32 * k..32 * k + 32]
  }

  // ---- The fields of a long-name entry ----

  function LfnOfs(s: nat): (r: nat)
    requires s < 13
    ensures 1 <= r <= 9 || 14 <= r <= 24 || 28 <= r <= 30
  {
    if s < 5 then 1 + 2 * s else if s < 11 then 14 + 2 * (s - 5) else 28 + 2 * (s - 11)
  }

  function CharAt(e: Entry, s: nat): word
    requires s < 13
  {
    LdWord(e, LfnOfs(s))
  }

  predicate IsLast(c: byte) {
    c / 64 % 2 == 1
  }

  function Ordinal(c: byte): (r: byte)
    ensures r < 0xC0
  {
    if IsLast(c) then c - 64 else c
  }

  /** How many characters an entry holds, its terminator included. */
  function StoredFrom(e: Entry, s: nat): (r: nat)
    requires s < 13
    ensures s < r <= 13
    ensures forall x :: s <= x < r - 1 ==> CharAt(e, x) != 0
    ensures r < 13 ==> CharAt(e, r - 1) == 0
    decreases 13 - s
  {
    if s == 12 || CharAt(e, s) == 0 then s + 1 else StoredFrom(e, s + 1)
  }

  function Stored(e: Entry): (r: nat)
    ensures 1 <= r <= 13
    ensures forall x :: 0 <= x < r - 1 ==> CharAt(e, x) != 0
    ensures r < 13 ==> CharAt(e, r - 1) == 0
  {
    StoredFrom(e, 0)
  }

  /** No cluster number, and nothing but filler behind the terminator. */
  ghost predicate WellFormed(e: Entry) {
    LdWord(e, 26) == 0 && forall x :: Stored(e) <= x < 13 ==> CharAt(e, x) == 0xFFFF
  }

  /** Where in the name buffer the characters of piece `ord` belong, in the code's 32-bit arithmetic. */
  function Offset(ord: byte): (r: dword)
    ensures ord > 0 ==> r == 13 * (ord - 1)
    ensures ord == 0 ==> r > MAX_LFN
  {
    if ord == 0 then 0x1_0000_0000 - 13 else 13 * (ord - 1)
  }

  /** What `pick_lfn` accepts. */
  ghost predicate Pickable(e: Entry) {
    && WellFormed(e)
    && Offset(Ordinal(e[0])) + Stored(e) <= (if IsLast(e[0]) then MAX_LFN - 1 else MAX_LFN)
  }

  /** The characters of `e` are where they belong, and a terminator follows the last piece. */
  ghost predicate Picked(buf: seq<word>, e: Entry)
    requires |buf| == MAX_LFN + 1
  {
    var at := Offset(Ordinal(e[0]));
    && at + Stored(e) <= MAX_LFN
    && (forall x :: 0 <= x < Stored(e) ==> buf[at + x] == CharAt(e, x))
    && (IsLast(e[0]) ==> buf[at + Stored(e)] == 0)
  }

  /** What `cmp_lfn` accepts for the name in `buf`. */
  ghost predicate Matches(e: Entry, buf: seq<word>, up: word -> word)
    requires |buf| == MAX_LFN + 1
  {
    var at := Offset(e[0] % 64);
    && WellFormed(e)
    && at + Stored(e) <= MAX_LFN
    && (forall x :: 0 <= x < Stored(e) ==> up(CharAt(e, x)) == up(buf[at + x]))
    && (IsLast(e[0]) && CharAt(e, Stored(e) - 1) != 0 ==> buf[at + Stored(e)] == 0)
  }

  /** Checks one piece of a name and stores its characters in the name buffer. */
  method PickLfn(lfnbuf: array<word>, dir: Entry) returns (ok: bool)
    requires lfnbuf.Length == MAX_LFN + 1
    modifies lfnbuf
    ensures ok <==> Pickable(dir)
    ensures ok ==> Picked(lfnbuf[..], dir)
    ensures var at := Offset(Ordinal(dir[0]));
            forall x :: 0 <= x <= MAX_LFN && (x < at || x > at + (if IsLast(dir[0]) then 13 else 12)) ==>
              lfnbuf[x] == old(lfnbuf[x])
  {
    hide Stored, StoredFrom, CharAt, LfnOfs, IsLast, Ordinal, Offset, LdWord;
    if LdWord(dir, 26) != 0 {
      return false;
    }
    var at := Offset(Ordinal(dir[0]));
    var i: int := at;
    var wc: word, s := 1, 0;
    while s < 13
      invariant 0 <= s <= 13
      invariant wc != 0 ==> i == at + s && forall x :: 0 <= x < s ==> CharAt(dir, x) != 0
      invariant wc == 0 ==> Stored(dir) <= s && i == at + Stored(dir) && CharAt(dir, Stored(dir) - 1) == 0
      invariant wc == 0 ==> forall x :: Stored(dir) <= x < s ==> CharAt(dir, x) == 0xFFFF
      invariant s > 0 ==> i <= MAX_LFN
      invariant forall x :: 0 <= x < s && x < Stored(dir) ==> lfnbuf[at + x] == CharAt(dir, x)
      invariant forall x :: 0 <= x <= MAX_LFN && (x < at || x >= at + 13) ==> lfnbuf[x] == old(lfnbuf[x])
    {
      var uc := CharAt(dir, s);
      if wc != 0 {
        if i >= MAX_LFN {
          return false;
        }
        wc := uc;
        lfnbuf[i] := wc;
        i := i + 1;
      } else if uc != 0xFFFF {
        return false;
      }
      s := s + 1;
    }
    assert i == at + Stored(dir);
    if IsLast(dir[0]) {
      if i >= MAX_LFN {
        return false;
      }
      lfnbuf[i] := 0;
    }
    return true;
  }

  /** Compares one piece of a name with the name in the buffer. */
  method CmpLfn(lfnbuf: array<word>, dir: Entry, up: word -> word) returns (ok: bool)
    requires lfnbuf.Length == MAX_LFN + 1
    ensures ok <==> Matches(dir, lfnbuf[..], up)
  {
    hide Stored, StoredFrom, CharAt, LfnOfs, IsLast, Offset, LdWord;
    if LdWord(dir, 26) != 0 {
      return false;
    }
    var at := Offset(dir[0] % 64);
    var i: int := at;
    var wc: word, s := 1, 0;
    while s < 13
      invariant 0 <= s <= 13
      invariant wc != 0 ==> i == at + s && forall x :: 0 <= x < s ==> CharAt(dir, x) != 0
      invariant wc == 0 ==> Stored(dir) <= s && i == at + Stored(dir) && CharAt(dir, Stored(dir) - 1) == 0
      invariant wc == 0 ==> forall x :: Stored(dir) <= x < s ==> CharAt(dir, x) == 0xFFFF
      invariant s > 0 ==> i <= MAX_LFN
      invariant forall x :: 0 <= x < s && x < Stored(dir) ==> up(CharAt(dir, x)) == up(lfnbuf[at + x])
    {
      var uc := CharAt(dir, s);
      if wc != 0 {
        if i >= MAX_LFN || up(uc) != up(lfnbuf[i]) {
          return false;
        }
        i := i + 1;
        wc := uc;
      } else if uc != 0xFFFF {
        return false;
      }
      s := s + 1;
    }
    assert i == at + Stored(dir);
    return !(IsLast(dir[0]) && wc != 0 && lfnbuf[i] != 0);
  }

  // ---- Writing a name ----

  /** A name the name buffer can hold. */
  predicate NameOk(name: seq<word>) {
    1 <= |name| <= MAX_LFN && forall k :: 0 <= k < |name| ==> name[k] != 0 && name[k] != 0xFFFF
  }

  predicate HoldsName(buf: seq<word>, name: seq<word>) {
    |buf| == MAX_LFN + 1 && |name| <= MAX_LFN && buf[..|name|] == name && buf[|name|] == 0
  }

  function Pieces(name: seq<word>): nat {
    (|name| + 12) / 13
  }

  /** Character `k` of a name padded to whole pieces. */
  function Padded(name: seq<word>, k: nat): word {
    if k < |name| then name[k] else if k == |name| then 0 else 0xFFFF
  }

  /** `e` is piece `ord` of `name`, tied to the short name with checksum `sum`. */
  ghost predicate IsPiece(e: Entry, name: seq<word>, ord: nat, sum: byte)
    requires ord >= 1
  {
    && e[0] == (if 13 * ord >= |name| then ord + 64 else ord)
    && e[11] == AM_LFN && e[12] == 0 && e[13] == sum && e[26] == 0 && e[27] == 0
    && forall s :: 0 <= s < 13 ==> CharAt(e, s) == Padded(name, 13 * (ord - 1) + s)
  }

  /** Replaces one entry of the table. */
  ghost predicate OnlyEntry(t: seq<byte>, u: seq<byte>, at: nat) {
    |t| == |u| && forall x :: 0 <= x < |t| && !(at <= x < at + 32) ==> u[x] == t[x]
  }

  function WithChar(e: Entry, s: nat, wc: word): Entry
    requires s < 13
  {
    e[LfnOfs(s) := wc % 256][LfnOfs(s) + 1 := wc / 256]
  }

  lemma WithCharIs(e: Entry, s: nat, wc: word)
    requires s < 13
    ensures CharAt(WithChar(e, s, wc), s) == wc
    ensures forall x :: 0 <= x < 13 && x != s ==> CharAt(WithChar(e, s, wc), x) == CharAt(e, x)
    ensures forall k :: k in {0, 11, 12, 13, 26, 27} ==> WithChar(e, s, wc)[k] == e[k]
  {
    forall x | 0 <= x < 13 && x != s
      ensures CharAt(WithChar(e, s, wc), x) == CharAt(e, x)
    {
      OfsApart(x, s);
    }
  }

  lemma OfsApart(x: nat, s: nat)
    requires x < 13 && s < 13 && x != s
    ensures LfnOfs(x) + 2 <= LfnOfs(s) || LfnOfs(s) + 2 <= LfnOfs(x)
  {
  }

  /** The fields of an entry other than its characters and its first byte. */
  predicate LongFields(e: Entry, sum: byte) {
    e[11] == AM_LFN && e[12] == 0 && e[13] == sum && e[26] == 0 && e[27] == 0
  }

  /** Writes piece `ord` of the name in `lfn` over the entry at `at`. */
  method PutLfn(lfn: array<word>, table: array<byte>, at: nat, ord: byte, sum: byte, ghost name: seq<word>)
    requires at + 32 <= table.Length && lfn.Length == MAX_LFN + 1
    requires HoldsName(lfn[..], name) && NameOk(name) && 1 <= ord <= Pieces(name)
    modifies table
    ensures IsPiece(table[at..at + 32], name, ord, sum)
    ensures OnlyEntry(old(table[..]), table[..], at)
  {
    hide LfnOfs, CharAt, WithChar, LdWord;
    table[at + 13] := sum;
    table[at + 11] := AM_LFN;
    table[at + 12] := 0;
    table[at + 26], table[at + 27] := 0, 0;
    ghost var base := 13 * (ord as int - 1);
    ghost var e: Entry := table[at..at + 32];
    var i: int, s, wc: word := (ord as int - 1) * 13, 0, 0;
    while s < 13
      invariant 0 <= s <= 13 && base <= i <= base + s && i <= |name| + 1
      invariant wc != 0xFFFF ==> i == base + s && i <= |name|
      invariant wc == 0xFFFF ==> i == |name| + 1 && base + s >= i
      invariant |e| == 32 && e == table[at..at + 32] && LongFields(e, sum)
      invariant forall x :: 0 <= x < s ==> CharAt(e, x) == Padded(name, base + x)
      invariant OnlyEntry(old(table[..]), table[..], at)
    {
      if wc != 0xFFFF {
        wc := lfn[i];
        i := i + 1;
      }
      WithCharIs(e, s, wc);
      table[at + LfnOfs(s)] := wc % 256;
      table[at + LfnOfs(s) + 1] := wc / 256;
      assert table[at..at + 32] == WithChar(e, s, wc) by {
        IsWithChar(e, s, wc, table[at..at + 32]);
      }
      e := table[at..at + 32];
      if wc == 0 {
        wc := 0xFFFF;
      }
      s := s + 1;
    }
    var mark := ord;
    if wc == 0xFFFF || lfn[i] == 0 {
      mark := ord + 64;
    }
    assert i < |name| ==> lfn[..|name|][i] == name[i];
    assert mark == (if 13 * ord as int >= |name| then ord + 64 else ord);
    PieceIs(e, name, ord, sum);
    table[at] := mark;
    assert table[at..at + 32] == e[0 := mark];
  }

  lemma IsWithChar(e: Entry, s: nat, wc: word, f: Entry)
    requires s < 13
    requires f[LfnOfs(s)] == wc % 256 && f[LfnOfs(s) + 1] == wc / 256
    requires forall k :: 0 <= k < 32 && k != LfnOfs(s) && k != LfnOfs(s) + 1 ==> f[k] == e[k]
    ensures f == WithChar(e, s, wc)
  {
    hide LfnOfs;
  }

  lemma PieceIs(e: Entry, name: seq<word>, ord: byte, sum: byte)
    requires 1 <= ord < 64 && LongFields(e, sum)
    requires forall x :: 0 <= x < 13 ==> CharAt(e, x) == Padded(name, 13 * (ord as int - 1) + x)
    ensures IsPiece(e[0 := if 13 * ord as int >= |name| then ord + 64 else ord], name, ord, sum)
  {
    hide Padded;
    var f: Entry := e[0 := if 13 * ord as int >= |name| then ord + 64 else ord];
    assert forall x :: 0 <= x < 13 ==> CharAt(f, x) == CharAt(e, x);
  }
}
