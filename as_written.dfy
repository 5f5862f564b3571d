/** The code of src/settings.cpp, src/settings.h and src/eeprom_setup.cpp
    where it departs from its evident intent, modelled as written, each
    with a concrete input on which it goes wrong. The rest of the model
    uses the corrected definitions named beside each one.
 */
module AsWritten {
  import opened Bytes
  import opened Eeprom
  import opened Registry
  import opened Bus
  import opened Frames

  // ---------------------------------------------------------------------
  // register_setting (settings.cpp:47-66)

  /** The result of one registration: accepted, the new table, the new
      byte total. */
  datatype Registration = Registration(ok: bool, decls: seq<Decl>, total: Byte)

  /** register_setting as written: the room test is `count <= max` and the
      byte total is a uint8_t that wraps. A full table still accepts one
      more declaration, and the byte total kept is the true total of the
      declarations only modulo 256. */
  function RegisterAsWritten(ds: seq<Decl>, maxCount: Byte, total: Byte, def: U16): (r: Registration)
    ensures |ds| == maxCount ==> r.ok && |r.decls| == maxCount + 1
    ensures r.ok ==> |r.decls| == |ds| + 1 && r.decls[..|ds|] == ds && r.decls[|ds|].offset == total
    ensures !r.ok ==> r.decls == ds && r.total == total
    ensures total == Total(ds) % 256 ==> r.total == Total(r.decls) % 256
  {
    if |ds| <= maxCount then
      var d := Decl(HighByte(def), LowByte(def), total);
      assert (ds + [d])[..|ds|] == ds;
      Registration(true, ds + [d], (total + LowByte(def)) % 256)
    else
      Registration(false, ds, total)
  }

  /** A table with room for one declaration that already holds one accepts
      a second, which the code stores at _declaration[1], past the end of
      the one-element array. */
  lemma RegisterPastCapacity()
    ensures var r := RegisterAsWritten([Decl(1, 1, 0)], 1, 1, 0x0201);
      r.ok && |r.decls| == 2 && |r.decls| > 1
  {
  }

  /** A 200-byte setting followed by a 100-byte one: the byte total wraps to
      44, so the next setting would be given offset 44, inside the bytes of
      the first. */
  lemma RegisterTotalWraps()
    ensures var r := RegisterAsWritten([Decl(1, 200, 0)], 4, 200, 0x0264);
      && r.ok && r.total == 44
      && Total(r.decls) == 300
      && r.decls[0].offset <= r.total < r.decls[0].offset + r.decls[0].size
  {
    var r := RegisterAsWritten([Decl(1, 200, 0)], 4, 200, 0x0264);
    assert r.decls[..1] == [Decl(1, 200, 0)];
    assert [Decl(1, 200, 0)][..0] == [];
  }

  // ---------------------------------------------------------------------
  // setValue / getValue (settings.cpp:187-237)

  /** setValue's test as written (settings.cpp:193): the index is compared
      with `_max_settings`, a member nothing assigns, which for an object of
      static storage stays 0. The code reaches this test only after reading
      `_declaration[index]` at settings.cpp:190; see SetValueAsWritten for
      the indices where that read leaves the table or finds no setting. */
  function SetValueAcceptsAsWritten(maxSettings: Byte, ds: seq<Decl>, idx: Byte, size: Byte): (ok: bool)
    requires idx < |ds|
    ensures ok ==> idx < maxSettings
  {
    idx < maxSettings && size == ds[idx].size
  }

  /** How far setValue gets as written: its read of `_declaration[index]`
      at settings.cpp:190 lands past the table, or it reaches the test at
      settings.cpp:193 with the declaration it read, which is a registered
      one or, on a slot nothing registered, whatever that slot holds. */
  datatype SetValueStep = ReadsPastTable | Tested(unregistered: bool, ok: bool)

  /** setValue as written, in source order: the declaration is read before
      any test of the index, in a table of maxCount slots whose first |ds|
      are registered; `stale` stands for the indeterminate contents of the
      unregistered slots. An index at or past the table size is read past
      the array before any test could refuse it; every other index reaches
      the `_max_settings` test, which never looks at the count or the table
      size, so an unregistered slot whose stale size happens to match is
      accepted. */
  function SetValueAsWritten(maxCount: Byte, maxSettings: Byte, ds: seq<Decl>, stale: Decl, idx: Byte, size: Byte): (s: SetValueStep)
    requires |ds| <= maxCount
    ensures s == ReadsPastTable <==> maxCount <= idx
    ensures s.Tested? ==> (s.unregistered <==> |ds| <= idx)
    ensures idx < maxCount && maxSettings <= idx ==> s == Tested(|ds| <= idx, false)
    ensures s.Tested? && s.ok ==> idx < maxSettings
    ensures s.Tested? && !s.unregistered ==> (s.ok <==> idx < maxSettings && size == ds[idx].size)
    ensures s.Tested? && s.unregistered ==> (s.ok <==> idx < maxSettings && size == stale.size)
  {
    if maxCount <= idx then ReadsPastTable
    else if |ds| <= idx then Tested(true, idx < maxSettings && size == stale.size)
    else Tested(false, SetValueAcceptsAsWritten(maxSettings, ds, idx, size))
  }

  /** In a one-slot table holding one setting, setValue(1, v) and
      setValue(200, v) read `_declaration[1]` and `_declaration[200]`, past
      the one-element array, whatever `_max_settings` is; in a two-slot
      table holding one setting, setValue(1, v) reads the unregistered slot
      and, once `_max_settings` exceeds 1, accepts a value of the stale
      size. */
  lemma SetValueReadsPastTable(maxSettings: Byte, stale: Decl)
    ensures SetValueAsWritten(1, maxSettings, [Decl(1, 1, 0)], stale, 1, 1) == ReadsPastTable
    ensures SetValueAsWritten(1, maxSettings, [Decl(1, 1, 0)], stale, 200, 1) == ReadsPastTable
    ensures 1 < maxSettings ==> SetValueAsWritten(2, maxSettings, [Decl(1, 1, 0)], stale, 1, stale.size) == Tested(true, true)
  {
  }

  /** `a |= b` on a uint8_t. */
  function OrByte(a: Byte, b: Byte): (r: Byte)
    ensures r == BitOr(a, b)
  {
    Pow2Values();
    BitOrBound(a, b, 8);
    BitOr(a, b)
  }

  /** getValue as written: the bound is `_max_settings`, the size of the
      result stays 0, and each byte is OR-ed into the fresh, uninitialised
      buffer `junk`. */
  function GetValueAsWritten(maxSettings: Byte, ds: seq<Decl>, data: seq<Byte>, junk: seq<Byte>, idx: Byte): (v: Value)
    requires Contiguous(ds) && |data| == Total(ds) && idx < |ds| && |junk| >= ds[idx].size
    ensures v.size == 0
    ensures idx < maxSettings ==> |v.data| == ds[idx].size
    ensures idx < maxSettings ==>
      && ds[idx].offset + ds[idx].size <= |data|
      && (forall k :: 0 <= k < |v.data| ==> v.data[k] == BitOr(junk[k], data[ds[idx].offset + k]))
    ensures !(idx < maxSettings) ==> v == NotFound
  {
    if idx < maxSettings then
      DeclsTile(ds, idx, idx);
      var off := ds[idx].offset;
      Value(0, seq(ds[idx].size, k requires 0 <= k < ds[idx].size => OrByte(junk[k], data[off + k])))
    else
      NotFound
  }

  /** With `_max_settings` at 0 a registered setting can be neither set nor
      read: a one-byte value for the one-byte setting 0 is refused, and
      reading setting 0 gives the not-found value. */
  lemma MaxSettingsNeverSet()
    ensures !SetValueAcceptsAsWritten(0, [Decl(1, 1, 0)], 0, 1)
    ensures GetValueAsWritten(0, [Decl(1, 1, 0)], [7], [0], 0) == NotFound
  {
    assert [Decl(1, 1, 0)][..0] == [];
  }

  /** Even with the bound met, the value read for a one-byte setting
      claims size 0, not its declared size 1. */
  lemma GetValueSizeNeverSet()
    ensures GetValueAsWritten(1, [Decl(1, 1, 0)], [7], [0], 0).size == 0 != [Decl(1, 1, 0)][0].size
  {
    assert [Decl(1, 1, 0)][..0] == [];
  }

  /** A stored byte 0x01 read into a buffer that happens to hold 0x80
      comes back as 0x81. */
  lemma GetValueOrsIntoGarbage()
    ensures GetValueAsWritten(1, [Decl(1, 1, 0)], [0x01], [0x80], 0).data == [0x81]
  {
    assert [Decl(1, 1, 0)][..0] == [];
    Pow2Values();
    BitOrAddLow(0x80, 0x01, 7, 128);
    var v := GetValueAsWritten(1, [Decl(1, 1, 0)], [0x01], [0x80], 0);
    assert v.data[0] == OrByte(0x80, 0x01);
  }

  // ---------------------------------------------------------------------
  // begin (settings.cpp:18-40)

  /** The name size begin leaves: its statement `_max_name_size;` has no
      effect, so the size is whatever the member held before. */
  function NameSizeAsWritten(nameSize: Byte, before: Byte): Byte
  {
    before
  }

  /** An object of static storage starts with `_max_name_size` 0, so begin
      with any positive name_size (8, say) allocates a name of 0 bytes. */
  lemma NameSizeIgnored(nameSize: Byte)
    requires nameSize > 0
    ensures NameSizeAsWritten(nameSize, 0) == 0 != nameSize
  {
  }

  /** The bus pointer begin leaves: in `_can_com = _can_com;` both names
      denote the parameter, which hides the member, so the member keeps
      whatever it held before. */
  function BusAsWritten(param: CanCom, before: CanCom?): CanCom?
  {
    before
  }

  /** An object of static storage starts with a null `_can_com`, and begin
      with any bus leaves it null: every later send and uuid call goes
      through a null pointer. */
  lemma BusNeverSet(can: CanCom)
    ensures BusAsWritten(can, null) == null && BusAsWritten(can, null) != can
  {
  }

  // ---------------------------------------------------------------------
  // load / write (settings.cpp:83-124)

  /** The value part of write as written: _data[i] goes to address i for
      i from N up to the byte total, so the bytes below N are never
      stored. */
  function WriteValuesAsWritten(cells: seq<Byte>, bound: Byte, n: nat, data: seq<Byte>): (r: seq<Byte>)
    requires |cells| == CELLS && |data| <= CELLS
    ensures |r| == CELLS
    ensures forall i :: 0 <= i < CELLS ==>
      r[i] == if n <= i < |data| && i < bound then data[i] else cells[i]
  {
    forall i | 0 <= i < CELLS && n < |data|
      ensures StoreBytes(cells, bound, n, data[n..])[i] == if n <= i < |data| && i < bound then data[i] else cells[i]
    {
      StoreBytesAt(cells, bound, n, data[n..], i);
    }
    if n < |data| then StoreBytes(cells, bound, n, data[n..]) else cells
  }

  /** The value part of load as written: _data[i] is read from address i
      for i from N up to the byte total; the bytes below N keep what init
      left there. */
  function LoadValuesAsWritten(cells: seq<Byte>, bound: Byte, n: nat, data: seq<Byte>): (r: seq<Byte>)
    requires |cells| == CELLS && |data| <= CELLS
    ensures |r| == |data|
    ensures forall i :: 0 <= i < |data| ==> r[i] == if i < n then data[i] else ByteAt(cells, bound, i)
  {
    if n < |data| then data[..n] + LoadBytes(cells, bound, n, |data| - n) else data
  }

  /** A 2-byte name and one 2-byte setting: write stores none of the value
      bytes, and a later load leaves the zeros init put there, so the value
      [7, 7] does not survive. */
  lemma WriteLoadLosesValues(cells: seq<Byte>)
    requires |cells| == CELLS
    ensures WriteValuesAsWritten(cells, 4, 2, [7, 7]) == cells
    ensures LoadValuesAsWritten(cells, 4, 2, [0, 0]) == [0, 0] != [7, 7]
  {
  }

  /** The name part of load as written: read before begin sets the bound,
      so with the bound an object of static storage starts with, 0. */
  function LoadNameAsWritten(cells: seq<Byte>, boundBefore: Byte, n: nat): (r: seq<Byte>)
    requires |cells| == CELLS && n <= CELLS
    ensures |r| == n
    ensures boundBefore == 0 ==> forall k :: 0 <= k < n ==> r[k] == 0
  {
    LoadBytes(cells, boundBefore, 0, n)
  }

  /** The first load of a node whose EEPROM holds the name "A" reads the
      name as a zero byte. */
  lemma FirstLoadReadsZeros(cells: seq<Byte>)
    requires |cells| == CELLS && cells[0] == 65
    ensures LoadNameAsWritten(cells, 0, 1) == [0] != cells[..1]
  {
  }

  // ---------------------------------------------------------------------
  // MSB / LSB (settings.h:39-40) in the uuid and version fields

  /** The two uuid bytes of a request as written: MSB(uuid), LSB(uuid),
      the two nibbles of the uuid's low byte. */
  function RequestBytesAsWritten(uuid: U16): (p: seq<Byte>)
    ensures |p| == 2 && p[0] < 16 && p[1] < 16
    ensures 16 * p[0] as int + p[1] as int == uuid % 256
  {
    MsbLsbNibbles(uuid);
    [Msb(uuid), Lsb(uuid)]
  }

  /** Uuids 0x1234 and 0x0034 are sent as the same two bytes, and the
      receiver's char2int reads them as 0x0304. */
  lemma UuidsCollide()
    ensures RequestBytesAsWritten(0x1234) == RequestBytesAsWritten(0x0034) == [3, 4]
    ensures Char2Int(3, 4) == 0x0304 != 0x1234
  {
  }

  // ---------------------------------------------------------------------
  // setupValue (settings.cpp:363-383)

  /** The payload of setupValue as written: the nibble-split uuid, then
      bytes read from the store at index + k, whatever the buffer holds. */
  function SetupValuePayloadAsWritten(uuid: U16, cells: seq<Byte>, bound: Byte, count: Byte, index: Byte, size: Byte): (p: seq<Byte>)
    requires |cells| == CELLS
    ensures |p| == 2 + SetupLength(count, index, size)
    ensures 16 * p[0] as int + p[1] as int == uuid % 256
    ensures forall k :: 2 <= k < |p| ==> p[k] == ByteAt(cells, bound, index + k - 2)
  {
    RequestBytesAsWritten(uuid) + LoadBytes(cells, bound, index, SetupLength(count, index, size))
  }

  /** The id of setupValue as written: `_reply_id | (index + 1)`, no mask. */
  function SetupIdAsWritten(reply: U16, index: Byte): (id: U16)
    ensures id % 128 == ReplyId(reply, index)
    ensures reply <= id
  {
    Pow2Values();
    BitOrRange(reply, index + 1);
    BitOrBound(reply, index + 1, 16);
    BitOrLow(reply, index + 1, 7);
    ReplyIdLowBits(reply, index);
    BitOr(reply, index + 1)
  }

  /** Sending the value 42 for setting 0 with an empty store sends 0. */
  lemma SetupValueIgnoresBuffer(cells: seq<Byte>)
    requires |cells| == CELLS && cells[0] == 0
    ensures SetupValuePayloadAsWritten(0, cells, 1, 1, 0, 1)[2] == 0
    ensures SetupValuePayload(0, [42], 1, 0, 1)[2] == 42
  {
  }

  /** With base id 0x100 the frame for setting 0 goes out under 0x101,
      outside the 7-bit reply ids sendValueReply uses. */
  lemma SetupIdUnmasked()
    ensures SetupIdAsWritten(0x100, 0) == 0x101 && ReplyId(0x100, 0) == 1
  {
    Pow2Values();
    BitOrDisjoint(1, 1, 8);
    ReplyIdCarriesIndex(0x100, 0);
  }

  // ---------------------------------------------------------------------
  // _sendName (settings.cpp:420-454)

  /** Arduino String indexing: the character at i, 0 past the end. */
  function CharAt(name: seq<Byte>, i: nat): Byte
  {
    if i < |name| then name[i] else 0
  }

  /** The uuid prefix as written: the nibble split, when the uuid is non-zero. */
  function HeaderAsWritten(uuid: U16): (h: seq<Byte>)
    ensures |h| == |Header(uuid)|
    ensures uuid > 0 ==> 16 * h[0] as int + h[1] as int == uuid % 256
  {
    if uuid > 0 then RequestBytesAsWritten(uuid) else []
  }

  /** The frames of _sendName as written: `pos` starts at 0 once for the
      whole transfer and stops at _string_max_size, so the first fragment
      carries the first five characters (0 past the end of the name) and
      every later fragment none. */
  function NameFramesAsWritten(uuid: U16, name: seq<Byte>, maxPack: Byte, canId: U16): (fs: seq<Frame>)
    ensures |fs| == maxPack
    ensures forall k :: 0 <= k < maxPack ==>
      && fs[k].id == canId
      && |fs[k].payload| == |Header(uuid)| + 1 + (if k == 0 then STRING_MAX_SIZE else 0)
      && fs[k].payload[..|Header(uuid)|] == HeaderAsWritten(uuid)
      && fs[k].payload[|Header(uuid)|] == CreateCnt(k, maxPack)
  {
    seq(maxPack, k requires 0 <= k < maxPack => NameFrameAsWritten(uuid, name, k, maxPack, canId))
  }

  /** Fragment k as written: the nibble uuid prefix, the counter byte, and
      five characters in fragment 0 only. */
  function NameFrameAsWritten(uuid: U16, name: seq<Byte>, k: Byte, maxPack: Byte, canId: U16): (f: Frame)
    ensures f.id == canId && |f.payload| <= FRAME_SIZE
  {
    var chars := if k == 0 then seq<Byte>(STRING_MAX_SIZE, i requires 0 <= i < STRING_MAX_SIZE => CharAt(name, i)) else [];
    Frame(HeaderAsWritten(uuid) + [CreateCnt(k, maxPack)] + chars, canId)
  }

  /** The name bytes of fragment k as written: five characters in the
      first fragment, none in the others. */
  lemma NameDataAsWritten(name: seq<Byte>, maxPack: Byte, k: nat)
    requires k < maxPack
    ensures NameData(NameFramesAsWritten(0, name, maxPack, 0)[k], 0)
            == if k == 0 then seq<Byte>(STRING_MAX_SIZE, i requires 0 <= i < STRING_MAX_SIZE => CharAt(name, i)) else []
  {
    assert NameFramesAsWritten(0, name, maxPack, 0)[k] == NameFrameAsWritten(0, name, k, maxPack, 0);
    assert HeaderAsWritten(0) == [];
  }

  /** A 12-byte name sent as written in three fragments is reassembled as
      its first five bytes. */
  lemma NameTruncated(name: seq<Byte>)
    requires |name| == 12
    ensures Reassemble(NameFramesAsWritten(0, name, 3, 0), 0) == name[..5] != name
  {
    var fs := NameFramesAsWritten(0, name, 3, 0);
    NameDataAsWritten(name, 3, 0);
    NameDataAsWritten(name, 3, 1);
    NameDataAsWritten(name, 3, 2);
    assert NameData(fs[0], 0) == name[..5];
    assert fs[..1][..0] == [];
    assert fs[..2][..1] == fs[..1];
    assert fs[..3][..2] == fs[..2];
    assert fs[..3] == fs;
    assert Reassemble(fs[..1], 0) == name[..5];
    assert Reassemble(fs[..2], 0) == name[..5];
    assert |name[..5]| != |name|;
  }

  // ---------------------------------------------------------------------
  // getLong (eeprom_setup.cpp:36-43)

  /** getLong as written: the second byte comes from idx - 1. For idx 0
      that is address -1, outside the store; it is read here as the last
      cell. */
  function LongAtAsWritten(cells: seq<Byte>, bound: Byte, idx: Byte): (r: U32)
    requires |cells| == CELLS
    ensures idx + 3 < bound ==>
      r == cells[idx] as int + 0x100 * cells[(idx + 255) % 256] as int + 0x1_0000 * cells[idx + 2] as int + 0x100_0000 * cells[idx + 3] as int
    ensures bound <= idx + 3 ==> r == 0
  {
    if idx + 3 < bound then
      var b0: nat, b1: nat, b2: nat, b3: nat := cells[idx], cells[(idx + 255) % 256], cells[idx + 2], cells[idx + 3];
      LittleEndianLong(b0, b1, b2, b3);
      BitOr(BitOr(BitOr(b0, b1 * 0x100), b2 * 0x1_0000), b3 * 0x100_0000)
    else 0
  }

  /** A long 0x100 stored little-endian at address 1 reads back as 0. */
  lemma LongReadsWrongByte(cells: seq<Byte>)
    requires |cells| == CELLS && cells[0] == 0 && cells[1] == 0 && cells[2] == 1 && cells[3] == 0 && cells[4] == 0
    ensures LongAt(cells, 5, 1) == 0x100
    ensures LongAtAsWritten(cells, 5, 1) == 0
  {
  }
}
