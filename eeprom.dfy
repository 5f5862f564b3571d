/** The bounded byte store of src/eeprom_setup.cpp.

    EEPROM_SETUP guards the Arduino EEPROM with a bound `_max_settings`: an
    address at or past the bound reads as 0 and is never written. Addresses
    are uint8_t, so the model covers the 256 cells a uint8_t can address.
    The pure functions below describe one read or a run of writes on the
    cell contents; the class EepromSetup holds the state and is proved
    against them.
 */
module Eeprom {
  import opened Bytes

  /** Cells addressable through a uint8_t index. */
  const CELLS := 256

  /** getByte (eeprom_setup.cpp:14-21) on contents `cells`. */
  function ByteAt(cells: seq<Byte>, bound: Byte, idx: Byte): Byte
    requires |cells| == CELLS
  {
    if idx < bound then cells[idx] else 0
  }

  /** getInt (eeprom_setup.cpp:25-32): read(idx) | read(idx+1) << 8. */
  function IntAt(cells: seq<Byte>, bound: Byte, idx: Byte): (r: U16)
    requires |cells| == CELLS
    ensures idx + 1 < bound ==> r == cells[idx] as int + 256 * cells[idx + 1] as int
    ensures bound <= idx + 1 ==> r == 0
  {
    if idx + 1 < bound then
      Pow2Values();
      var lo: nat, hi: nat := cells[idx], cells[idx + 1];
      BitOrComm(lo, hi * 256);
      DivModUnique(hi * 256, 256, hi, 0);
      BitOrAddLow(hi * 256, lo, 8, 256);
      BitOr(lo, hi * 256)
    else 0
  }

  /** getLong (eeprom_setup.cpp:36-43) as the guard evidently intends: the
      four bytes from idx upward, least significant first. The code as
      written reads its second byte from idx-1; see AsWritten.LongAtAsWritten. */
  function LongAt(cells: seq<Byte>, bound: Byte, idx: Byte): (r: U32)
    requires |cells| == CELLS
    ensures idx + 3 < bound ==>
      r == cells[idx] as int + 0x100 * cells[idx + 1] as int + 0x1_0000 * cells[idx + 2] as int + 0x100_0000 * cells[idx + 3] as int
    ensures bound <= idx + 3 ==> r == 0
  {
    if idx + 3 < bound then
      var b0: nat, b1: nat, b2: nat, b3: nat := cells[idx], cells[idx + 1], cells[idx + 2], cells[idx + 3];
      LittleEndianLong(b0, b1, b2, b3);
      BitOr(BitOr(BitOr(b0, b1 * 0x100), b2 * 0x1_0000), b3 * 0x100_0000)
    else 0
  }

  /** b0 | b1 << 8 | b2 << 16 | b3 << 24, evaluated left to right as C does,
      is the little-endian value of the four bytes. */
  lemma LittleEndianLong(b0: nat, b1: nat, b2: nat, b3: nat)
    requires b0 < 256 && b1 < 256 && b2 < 256 && b3 < 256
    ensures BitOr(BitOr(BitOr(b0, b1 * 0x100), b2 * 0x1_0000), b3 * 0x100_0000)
            == b0 + 0x100 * b1 + 0x1_0000 * b2 + 0x100_0000 * b3
  {
    Pow2Values();
    BitOrComm(b0, b1 * 0x100);
    DivModUnique(b1 * 0x100, 0x100, b1, 0);
    BitOrAddLow(b1 * 0x100, b0, 8, 0x100);
    var lo2 := b0 + 0x100 * b1;
    BitOrComm(lo2, b2 * 0x1_0000);
    DivModUnique(b2 * 0x1_0000, 0x1_0000, b2, 0);
    BitOrAddLow(b2 * 0x1_0000, lo2, 16, 0x1_0000);
    var lo3 := lo2 + 0x1_0000 * b2;
    BitOrComm(lo3, b3 * 0x100_0000);
    DivModUnique(b3 * 0x100_0000, 0x100_0000, b3, 0);
    BitOrAddLow(b3 * 0x100_0000, lo3, 24, 0x100_0000);
  }

  /** getInt is char2int of the two bytes with the byte at idx+1 as the high
      byte: the store is little-endian. */
  lemma IntAtIsChar2Int(cells: seq<Byte>, bound: Byte, idx: Byte)
    requires |cells| == CELLS && idx + 1 < bound
    ensures IntAt(cells, bound, idx) == Char2Int(cells[idx + 1], cells[idx])
  {
    var lo, hi := cells[idx], cells[idx + 1];
    assert lo % 256 == lo && hi % 256 == hi;
  }

  /** The same for getLong and char2long. */
  lemma LongAtIsChar2Long(cells: seq<Byte>, bound: Byte, idx: Byte)
    requires |cells| == CELLS && idx + 3 < bound
    ensures LongAt(cells, bound, idx) == Char2Long(cells[idx + 3], cells[idx + 2], cells[idx + 1], cells[idx])
  {
    var b0, b1, b2, b3 := cells[idx], cells[idx + 1], cells[idx + 2], cells[idx + 3];
    assert b0 % 256 == b0 && b1 % 256 == b1 && b2 % 256 == b2 && b3 % 256 == b3;
    assert LongAt(cells, bound, idx) == b0 as int + 0x100 * b1 as int + 0x1_0000 * b2 as int + 0x100_0000 * b3 as int;
  }

  /** setByte (eeprom_setup.cpp:49-57) on contents `cells`. */
  function StoreByte(cells: seq<Byte>, bound: Byte, idx: Byte, v: Byte): (r: seq<Byte>)
    requires |cells| == CELLS
    ensures |r| == CELLS
    ensures forall j :: 0 <= j < CELLS ==> r[j] == if j == idx && idx < bound then v else cells[j]
  {
    if idx < bound then cells[idx := v] else cells
  }

  /** A store followed by a read: the read sees the stored byte at an
      in-range address and the old contents everywhere else. */
  lemma StoreByteThenByteAt(cells: seq<Byte>, bound: Byte, idx: Byte, v: Byte, j: Byte)
    requires |cells| == CELLS
    ensures ByteAt(StoreByte(cells, bound, idx, v), bound, j)
            == if j == idx && idx < bound then v else ByteAt(cells, bound, j)
  {
  }

  /** setByte(addr + i, bytes[i]) for i = 0, 1, ..., |bytes| - 1, in order. */
  function StoreBytes(cells: seq<Byte>, bound: Byte, addr: nat, bytes: seq<Byte>): (r: seq<Byte>)
    requires |cells| == CELLS && addr + |bytes| <= CELLS
    ensures |r| == CELLS
    ensures forall j :: 0 <= j < CELLS && !(addr <= j < addr + |bytes|) ==> r[j] == cells[j]
    decreases |bytes|
  {
    if bytes == [] then cells
    else
      var n := |bytes| - 1;
      StoreByte(StoreBytes(cells, bound, addr, bytes[..n]), bound, addr + n, bytes[n])
  }

  /** getByte(addr + i) for i = 0, 1, ..., n - 1. */
  function LoadBytes(cells: seq<Byte>, bound: Byte, addr: nat, n: nat): (r: seq<Byte>)
    requires |cells| == CELLS && addr + n <= CELLS
    ensures |r| == n
    ensures forall i :: 0 <= i < n ==> r[i] == ByteAt(cells, bound, addr + i)
  {
    seq<Byte>(n, i requires 0 <= i < n => ByteAt(cells, bound, addr + i))
  }

  /** What a run of stores leaves in each cell: the stored byte inside the
      written range below the bound, the old byte everywhere else. */
  lemma {:induction false} StoreBytesAt(cells: seq<Byte>, bound: Byte, addr: nat, bytes: seq<Byte>, j: nat)
    requires |cells| == CELLS && addr + |bytes| <= CELLS && j < CELLS
    ensures StoreBytes(cells, bound, addr, bytes)[j]
            == if addr <= j < addr + |bytes| && j < bound then bytes[j - addr] else cells[j]
    decreases |bytes|
  {
    if bytes != [] {
      var n := |bytes| - 1;
      StoreBytesAt(cells, bound, addr, bytes[..n], j);
    }
  }

  /** Storing a run of bytes below the bound and loading the same range
      gives the bytes back. */
  lemma StoreThenLoad(cells: seq<Byte>, bound: Byte, addr: nat, bytes: seq<Byte>)
    requires |cells| == CELLS && addr + |bytes| <= bound
    ensures LoadBytes(StoreBytes(cells, bound, addr, bytes), bound, addr, |bytes|) == bytes
  {
    var after := StoreBytes(cells, bound, addr, bytes);
    forall i | 0 <= i < |bytes|
      ensures LoadBytes(after, bound, addr, |bytes|)[i] == bytes[i]
    {
      StoreBytesAt(cells, bound, addr, bytes, addr + i);
    }
  }

  /** Storing a run of bytes leaves every range outside it as it was. */
  lemma StoreOutside(cells: seq<Byte>, bound: Byte, addr: nat, bytes: seq<Byte>, from: nat, n: nat)
    requires |cells| == CELLS && addr + |bytes| <= CELLS && from + n <= CELLS
    requires from + n <= addr || addr + |bytes| <= from
    ensures LoadBytes(StoreBytes(cells, bound, addr, bytes), bound, from, n) == LoadBytes(cells, bound, from, n)
  {
    var after := StoreBytes(cells, bound, addr, bytes);
    forall i | 0 <= i < n
      ensures LoadBytes(after, bound, from, n)[i] == LoadBytes(cells, bound, from, n)[i]
    {
      StoreBytesAt(cells, bound, addr, bytes, from + i);
    }
  }

  /** Loading below the bound reads the cells themselves. */
  lemma LoadInBounds(cells: seq<Byte>, bound: Byte, addr: nat, n: nat)
    requires |cells| == CELLS && addr + n <= bound
    ensures LoadBytes(cells, bound, addr, n) == cells[addr..addr + n]
  {
  }

  /** EEPROM_SETUP: the bound `_max_settings` and the node uuid `_uuid` over
      the Arduino EEPROM `cells`. An object with static storage starts with
      both fields zero, so every access is refused until begin is called. */
  class EepromSetup {
    const cells: array<Byte>
    var bound: Byte
    var uuid: U16

    ghost predicate Valid()
      reads this
    {
      cells.Length == CELLS
    }

    constructor (cells: array<Byte>)
      requires cells.Length == CELLS
      ensures Valid() && this.cells == cells
      ensures bound == 0 && uuid == 0
    {
      this.cells := cells;
      bound := 0;
      uuid := 0;
    }

    /** begin (eeprom_setup.cpp:6-10). */
    method Begin(maxSettings: Byte, uuid: U16)
      modifies this
      ensures bound == maxSettings && this.uuid == uuid
    {
      bound := maxSettings;
      this.uuid := uuid;
    }

    /** getByte (eeprom_setup.cpp:14-21). */
    function GetByte(idx: Byte): (r: Byte)
      reads this, cells
      requires Valid()
      ensures idx < bound ==> r == cells[idx]
      ensures bound <= idx ==> r == 0
    {
      ByteAt(cells[..], bound, idx)
    }

    /** getInt (eeprom_setup.cpp:25-32): little-endian, 0 out of range. */
    function GetInt(idx: Byte): (r: U16)
      reads this, cells
      requires Valid()
      ensures idx + 1 < bound ==> r == Char2Int(cells[idx + 1], cells[idx])
      ensures bound <= idx + 1 ==> r == 0
    {
      if idx + 1 < bound then
        IntAtIsChar2Int(cells[..], bound, idx);
        IntAt(cells[..], bound, idx)
      else
        IntAt(cells[..], bound, idx)
    }

    /** getLong (eeprom_setup.cpp:36-43), reading idx .. idx+3. */
    function GetLong(idx: Byte): (r: U32)
      reads this, cells
      requires Valid()
      ensures idx + 3 < bound ==> r == Char2Long(cells[idx + 3], cells[idx + 2], cells[idx + 1], cells[idx])
      ensures bound <= idx + 3 ==> r == 0
    {
      if idx + 3 < bound then
        LongAtIsChar2Long(cells[..], bound, idx);
        LongAt(cells[..], bound, idx)
      else
        LongAt(cells[..], bound, idx)
    }

    /** setByte (eeprom_setup.cpp:49-57). */
    method SetByte(idx: Byte, v: Byte) returns (ok: bool)
      requires Valid()
      modifies cells
      ensures ok == (idx < bound)
      ensures cells[..] == StoreByte(old(cells[..]), bound, idx, v)
    {
      if idx < bound {
        cells[idx] := v;
        return true;
      }
      return false;
    }

    /** setInt (eeprom_setup.cpp:63-71): when idx+1 is below the bound,
        EEPROM.put lays the two bytes of v out little-endian at idx and
        idx+1, so getInt(idx) reads v back. */
    method SetInt(idx: Byte, v: U16) returns (ok: bool)
      requires Valid()
      modifies cells
      ensures ok == (idx + 1 < bound)
      ensures ok ==> cells[idx] == v % 256 && cells[idx + 1] == v / 256 && GetInt(idx) == v
      ensures !ok ==> cells[..] == old(cells[..])
      ensures forall j :: 0 <= j < CELLS && j != idx && j != idx + 1 ==> cells[j] == old(cells[j])
    {
      if idx + 1 < bound {
        cells[idx] := v % 256;
        cells[idx + 1] := v / 256;
        SplitJoin(v);
        return true;
      }
      return false;
    }

    /** setLong (eeprom_setup.cpp:77-85): when idx+3 is below the bound,
        EEPROM.put lays the four bytes of v out little-endian at
        idx .. idx+3, so the corrected getLong(idx) reads v back. */
    method SetLong(idx: Byte, v: U32) returns (ok: bool)
      requires Valid()
      modifies cells
      ensures ok == (idx + 3 < bound)
      ensures ok ==> && cells[idx] == v % 0x100 && cells[idx + 1] == (v / 0x100) % 0x100
                     && cells[idx + 2] == (v / 0x1_0000) % 0x100 && cells[idx + 3] == v / 0x100_0000
                     && GetLong(idx) == v
      ensures !ok ==> cells[..] == old(cells[..])
      ensures forall j :: 0 <= j < CELLS && !(idx <= j <= idx + 3) ==> cells[j] == old(cells[j])
    {
      if idx + 3 < bound {
        cells[idx] := v % 0x100;
        cells[idx + 1] := (v / 0x100) % 0x100;
        cells[idx + 2] := (v / 0x1_0000) % 0x100;
        cells[idx + 3] := v / 0x100_0000;
        SplitJoinLong(v);
        return true;
      }
      return false;
    }
  }
}
