/** Bytes, sectors and the little-endian loads and stores the FAT code is built on. */
module Bytes {

  const SECTOR_SIZE: nat := 512

  type byte = x: int | 0 <= x < 256
  type word = x: int | 0 <= x < 0x1_0000
  type dword = x: int | 0 <= x < 0x1_0000_0000

  /** One disk sector. */
  type Sector = s: seq<byte> | |s| == 512 witness seq(512, _ => 0)

  /** 32-bit unsigned subtraction, with its wrap-around. */
  function Sub32(a: dword, b: dword): (r: dword) {
    (a - b) % 0x1_0000_0000
  }

  /** 32-bit unsigned addition, with its wrap-around. */
  function Add32(a: dword, b: dword): (r: dword) {
    (a + b) % 0x1_0000_0000
  }

  function LdWord(s: seq<byte>, at: nat): (r: word)
    requires at + 2 <= |s|
  {
    s[at] as int + 256 * (s[at + 1] as int)
  }

  function LdDword(s: seq<byte>, at: nat): (r: dword)
    requires at + 4 <= |s|
  {
    s[at] as int + 0x100 * (s[at + 1] as int) + 0x1_0000 * (s[at + 2] as int) + 0x100_0000 * (s[at + 3] as int)
  }

  /** The two bytes a little-endian store of the low word of `v` writes. */
  function WordBytes(v: dword): (r: seq<byte>)
    ensures |r| == 2 && LdWord(r, 0) as int == v as int % 0x1_0000
  {
    [v % 0x100, v / 0x100 % 0x100]
  }

  /** The four bytes a little-endian store of `v` writes. */
  function DwordBytes(v: dword): (r: seq<byte>)
    ensures |r| == 4 && LdDword(r, 0) == v
  {
    var v1: int := v / 0x100;
    var v2 := v1 / 0x100;
    [v % 0x100, v1 % 0x100, v2 % 0x100, v2 / 0x100]
  }

  /** Sector number `k` of a run of whole sectors. */
  function Piece(data: seq<byte>, k: nat): (r: Sector)
    requires SECTOR_SIZE * k + SECTOR_SIZE <= |data|
  {
    data[SECTOR_SIZE * k..SECTOR_SIZE * k + SECTOR_SIZE]
  }

  lemma PieceAt(data: seq<byte>, k: nat, x: nat)
    requires SECTOR_SIZE * k + SECTOR_SIZE <= |data| && x < SECTOR_SIZE
    ensures Piece(data, k)[x] == data[SECTOR_SIZE * k + x]
  {
  }
}
