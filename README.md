# can_com_settings in Dafny

A model of the settings layer of the `can_com_settings` Arduino library.
Each node on a CAN bus runs one SETTINGS object with these parts:

- **Declaration table.** `register_setting` fills a table of declarations. Each declaration has a type tag, a size in bytes, and the offset of its bytes in the value region.
- **Value region and name.** The object keeps the value region and a fixed-size node name in memory. `write` puts both into the EEPROM through `EEPROM_SETUP`, and `load` reads them back. `EEPROM_SETUP` is a byte store that refuses every address at or past its bound `_max_settings`.
- **Frames.** Requests, value replies, setup frames, the version frame and multi-fragment name transfers all go out through `CAN_COM::send`. Each is built in an eight-byte buffer with a cursor `_i`.

The project has seven modules:

- **`Bytes`** (`bytes.dfy`)
  - The fixed-width integer types.
  - C's `|` as `BitOr`, defined bit by bit.
  - The macros `char2int`, `char2long`, `MSB` and `LSB`.
  - The high/low byte split used by the corrected frames.
- **`Eeprom`** (`eeprom.dfy`)
  - Pure functions describing reads and runs of writes on the 256 cells a `uint8_t` can address.
  - The class `EepromSetup`. Its methods are proved against those functions.
- **`Registry`** (`registry.dfy`)
  - The declaration table as a sequence.
  - The tiling invariant: offsets are running byte totals.
  - `ValueAt` and `Assign` on the value region.
- **`Bus`** (`bus.dfy`): the CAN transport, as a log of the frames handed to `send`.
- **`Frames`** (`frames.dfy`)
  - The payload and id of every frame the node sends, as values.
  - The receiver's reading of each frame.
  - Round-trip lemmas.
- **`Node`** (`node.dfy`): the class `Settings`. Its array fields are the name, the value region, the frame buffer and the declaration table. Its methods are:
  - loops proved to send exactly the frames `Frames` describes;
  - loops proved to leave exactly the EEPROM contents `Persisted` describes.
- **`AsWritten`** (`as_written.dfy`): the places where the code departs from what it evidently intends, modelled as written. Each comes with a concrete input that shows the departure (see Findings).

Where the library's documentation and its code disagree, the model follows the code, except for the defects listed under Findings:

- A reply id only identifies its setting index when the low seven bits of the base reply id are clear. `_reply_id | (index + 1)` is an OR, not a field overwrite.
- `sendValueReply` reads EEPROM addresses `index + k`. These are the raw store addresses, not the bytes of setting `index`. The name occupies addresses [0, N), so whenever `index + k < N` the reply carries name bytes. The model keeps this.
- `find_setting` returns an `int8_t`. An index of 128 or more comes back negative, so `get_by_type` reports such a setting as not found. The model keeps this too.

## Model

| member | source | states |
|---|---|---|
| Bytes.Char2Int | src/settings.h:36 | char2int of two operands is (hi & 0xFF) * 256 + (lo & 0xFF), a 16-bit value |
| Bytes.Char2Long | src/settings.h:37 | char2long of four operands is the big-endian 32-bit value of their low bytes |
| Bytes.Msb | src/settings.h:39 | MSB(x) is below 16 and is the high nibble of x's low byte: 16 * r <= x & 0xFF < 16 * (r + 1) |
| Bytes.Lsb | src/settings.h:40 | LSB(x) is below 16 and agrees with x's low byte modulo 16 |
| Bytes.MsbLsbNibbles | src/settings.h:39-40 | MSB and LSB are the high and low nibble of the operand's low byte; together they rebuild x & 0xFF and lose everything above bit 7 |
| Bytes.BitOr | src/settings.cpp:460 | C's `\|` on non-negative operands, defined bit by bit; its properties are the lemmas BitOrRange, BitOrComm, BitOrBound, BitOrDisjoint and BitOrLow |
| Bytes.BitOrRange | src/settings.cpp:460 | an OR is at least each operand and at most their sum |
| Bytes.HighByte | src/settings.cpp:49 | the high byte of a 16-bit value, def >> 8, the declared type: x lies in [r * 256, (r + 1) * 256) |
| Bytes.LowByte | src/settings.cpp:50 | the low byte of a 16-bit value, def & 0xff, the declared size: x and r agree modulo 256 |
| Bytes.SplitJoin | src/settings.cpp:44-50 | joining the high and low byte of a 16-bit value (the type and size of a declaration word) with char2int gives the value back |
| Bytes.JoinSplit | src/settings.h:36 | splitting char2int(hi, lo) gives hi and lo back |
| Bytes.SplitJoinLong | src/settings.h:37 | joining the four bytes of a 32-bit value with char2long gives the value back |
| Eeprom.ByteAt | src/eeprom_setup.cpp:14-21 | getByte on given contents: the cell below the bound, 0 at or past it |
| Eeprom.IntAt | src/eeprom_setup.cpp:25-32 | getInt is cells[idx] + 256 * cells[idx+1] when idx+1 is below the bound, else 0 |
| Eeprom.LongAt | src/eeprom_setup.cpp:36-43 | getLong, corrected, is the little-endian value of cells idx..idx+3 when idx+3 is below the bound, else 0 |
| Eeprom.LittleEndianLong | src/eeprom_setup.cpp:39 | the OR of the four shifted bytes, evaluated left to right, is their little-endian sum |
| Eeprom.IntAtIsChar2Int | src/eeprom_setup.cpp:28 | getInt equals char2int with the byte at idx+1 as the high byte |
| Eeprom.LongAtIsChar2Long | src/eeprom_setup.cpp:39 | the corrected getLong equals char2long of the bytes idx+3 .. idx |
| Eeprom.StoreByte | src/eeprom_setup.cpp:49-57 | setByte on given contents: the cell at an address below the bound becomes the byte, every other cell is kept |
| Eeprom.StoreBytes | src/settings.cpp:119-121 | a run of setByte calls, in order: the cells stay 256 and no cell outside the run changes |
| Eeprom.StoreByteThenByteAt | src/eeprom_setup.cpp:49-57 | after setByte, getByte sees the new byte at the stored in-range address and the old contents elsewhere |
| Eeprom.LoadBytes | src/eeprom_setup.cpp:14-21 | a run of getByte calls: n bytes, byte i is getByte(addr + i) |
| Eeprom.StoreBytesAt | src/eeprom_setup.cpp:49-57 | after a run of setByte calls each cell holds the stored byte inside the run and below the bound, its old byte elsewhere |
| Eeprom.StoreThenLoad | src/eeprom_setup.cpp:14-57 | storing a run below the bound and reading the same range gives the run back |
| Eeprom.StoreOutside | src/eeprom_setup.cpp:49-57 | storing a run leaves every disjoint range reading as before |
| Eeprom.LoadInBounds | src/eeprom_setup.cpp:14-21 | below the bound, reads return the cells themselves |
| Eeprom.EepromSetup.constructor | src/eeprom_setup.cpp:3 | a new store of static storage has bound 0 and uuid 0, so it refuses every access |
| Eeprom.EepromSetup.Begin | src/eeprom_setup.cpp:6-10 | begin sets the bound and the uuid |
| Eeprom.EepromSetup.GetByte | src/eeprom_setup.cpp:14-21 | the cell below the bound, 0 (`false`) at or past it |
| Eeprom.EepromSetup.GetInt | src/eeprom_setup.cpp:25-32 | char2int(cells[idx+1], cells[idx]) when idx+1 is below the bound, else 0 |
| Eeprom.EepromSetup.GetLong | src/eeprom_setup.cpp:36-43 | char2long of cells idx+3 .. idx when idx+3 is below the bound, else 0 |
| Eeprom.EepromSetup.SetByte | src/eeprom_setup.cpp:49-57 | true exactly below the bound; the cells become StoreByte of the old cells |
| Eeprom.EepromSetup.SetInt | src/eeprom_setup.cpp:63-71 | true exactly when idx+1 is below the bound; then the value is stored little-endian and getInt(idx) reads it back; no other cell changes |
| Eeprom.EepromSetup.SetLong | src/eeprom_setup.cpp:77-85 | true exactly when idx+3 is below the bound; then the value is stored little-endian and getLong(idx) reads it back; no other cell changes |
| Registry.Total | src/settings.cpp:60 | the running byte total `_setting_index` of a table: at most 255 bytes per declaration |
| Registry.AppendContiguous | src/settings.cpp:55-60 | appending a declaration at the running byte total keeps offsets equal to running totals, and the total grows by the size |
| Registry.DeclsTile | src/settings.cpp:55-60 | in such a table each setting's bytes lie inside the region, and an earlier setting's bytes end before a later one's begin |
| Registry.FindType | src/settings.cpp:169-182 | the lowest index with the tag, or -1 when no declaration has it |
| Registry.FindFrom | src/settings.cpp:173-181 | the search from index i on, with the same result |
| Registry.AsInt8 | src/settings.cpp:169 | the int8_t conversion of the result: in -128..127 and congruent modulo 256 |
| Registry.ValueAt | src/settings.cpp:224-232 | the value of setting i: its declared size, its bytes lying inside the region, byte k being the region's byte at offset + k |
| Registry.Splice | src/settings.cpp:196-198 | the bytes of a run are replaced and all others kept, length unchanged |
| Registry.Assign | src/settings.cpp:196-198 | setValue's copy into the region: the length stays the byte total and every byte outside setting i is kept |
| Registry.AssignPointwise | src/settings.cpp:196-198 | a region that matches Assign byte by byte is Assign |
| Registry.AssignThenValueAt | src/settings.cpp:187-237 | after assigning setting i, setting i reads as the new bytes and every other setting reads as before |
| Bus.CanCom.Send | src/settings.cpp:263 | send appends one frame holding the first len buffer bytes under the id |
| Frames.Split16 | src/settings.cpp:270-271 | the two uuid bytes, corrected to high and low byte, which char2int reads back as the uuid |
| Frames.RequestPayload | src/settings.cpp:259-302 | the four request payloads have lengths 1 to 4 |
| Frames.RequestRoundTrip | src/settings.cpp:259-302 | the receiver's reading of every request payload is that request |
| Frames.DecodeRequestExact | src/settings.cpp:259-302 | every payload read as a request is the encoding of that request |
| Frames.ReplyId | src/settings.cpp:348 | (reply \| (index + 1)) & 0x7F is below 128 |
| Frames.ReplyIdLowBits | src/settings.cpp:348 | the mask keeps only the low seven bits of both operands |
| Frames.ReplyIdCarriesIndex | src/settings.cpp:348 | with the base id's low seven bits clear, the reply id is (index + 1) mod 128 |
| Frames.ReplyIndexInverse | src/settings.cpp:348 | the receiver recovers index mod 128 from such a reply id |
| Frames.ReplyIdsDistinct | src/settings.cpp:348 | indices that differ mod 128 get different reply ids under such a base id |
| Frames.ReplyIdsCollide | src/settings.cpp:348 | with base id 3, indices 0 and 1 share reply id 3 |
| Frames.ReplyLength | src/settings.cpp:337-346 | the number of bytes sent keeps index + n within a byte |
| Frames.ValueReplyPayload | src/settings.cpp:343-346 | the bytes sendValueReply puts in the buffer: they fit a CAN frame, index + their number stays within a byte, none at or past the count |
| Frames.ValueReplyShape | src/settings.cpp:335-349 | the reply carries min(cnt, 8, count - index) bytes, none at or past the count, byte k being getByte(index + k) |
| Frames.SetupLength | src/settings.cpp:373-378 | at most size and 6 bytes, and none past the registered count |
| Frames.SetupValuePayload | src/settings.cpp:369-378 | the corrected setupValue payload: 2 to 8 bytes, only the uuid when index is at or past the count |
| Frames.SetupValueDecode | src/settings.cpp:363-383 | a setup frame fits a CAN frame, its first two bytes read back as the uuid, the rest is a prefix of the buffer of the stated length |
| Frames.CreateCnt | src/settings.cpp:458-460 | the counter byte is (cnt mod 16) * 16 + max_cnt mod 16 |
| Frames.CounterRoundTrip | src/settings.cpp:458-460 | the receiver recovers both nibbles of the counter byte |
| Frames.VersionPayload | src/settings.cpp:406-410 | the version frame: 5 bytes, the setting count first and the module type last |
| Frames.VersionDecode | src/settings.cpp:404-414 | the version frame is 5 bytes: count, counter 0 of max_pack_cnt, the version read back by char2int, the type |
| Frames.CeilDiv | src/settings.cpp:389 | ceil(len / k): len fits in r fragments and not in r - 1 |
| Frames.Header | src/settings.cpp:432-441 | the uuid prefix has 2 bytes exactly when the uuid is non-zero |
| Frames.ChunkEnd | src/settings.cpp:448-450 | the end of the first k runs of five bytes, cut at the end of the name |
| Frames.ChunkBounds | src/settings.cpp:448-450 | each run holds at most five bytes |
| Frames.NameChunk | src/settings.cpp:448-450 | the corrected name bytes of fragment k: at most five, none once 5 * k reaches the name's length |
| Frames.NameFrame | src/settings.cpp:432-452 | the corrected fragment k: sent under can_id, longer than its uuid prefix and at most 8 bytes |
| Frames.NameFrames | src/settings.cpp:429-453 | a transfer sends max_pack_cnt frames |
| Frames.NameFramesStep | src/settings.cpp:429-453 | the first k + 1 frames are the first k frames and then frame k |
| Frames.NameFramesShape | src/settings.cpp:429-452 | each fragment fits a CAN frame, carries the uuid exactly when it is non-zero, then the counter byte |
| Frames.NameDataOfFrame | src/settings.cpp:445-450 | the name bytes of fragment k are the k-th run of the name |
| Frames.ReassemblePrefix | src/settings.cpp:429-453 | the first m fragments reassemble to the first m runs of the name |
| Frames.ChunkConcat | src/settings.cpp:448-450 | consecutive runs follow each other without gap or overlap |
| Frames.ReassembleAppend | src/settings.cpp:452 | reassembly takes the fragments one at a time, in send order |
| Frames.ReassembleNameFrames | src/settings.cpp:387-391 | the ceil(len / 5) fragments of a name reassemble to the whole name |
| Frames.CreateCntInjective | src/settings.cpp:458-460 | fragment indices below 16 get different counter bytes |
| Frames.CountersDistinct | src/settings.cpp:445 | in a transfer of at most 16 fragments no two share a counter byte |
| Frames.TwelveByteName | src/settings.cpp:387-391 | a 12-byte name goes out in 3 fragments with counter bytes 0x03, 0x13, 0x23 |
| Node.Persisted | src/settings.cpp:110-124 | the EEPROM contents write leaves: name from address 0, values right after it |
| Node.WriteThenLoad | src/settings.cpp:83-124 | with the bound covering name and values, load after write reads back exactly the name and the values written |
| Node.PersistedOutside | src/settings.cpp:110-124 | write touches no cell past the end of the values |
| Node.Settings.Begin | src/settings.cpp:18-40 | the object starts with room for count declarations, a name of name_size bytes, nothing registered, the given bus, ids, version and type, and a new store over the EEPROM with bound 0 and uuid 0 |
| Node.Settings.RegisterSetting | src/settings.cpp:47-66 | accepted exactly when the table has room and the bytes still fit after the name; then the declaration is appended at the running total; otherwise nothing changes; the tiling invariant is kept |
| Node.Settings.Count | src/settings.cpp:70-72 | the number of registered declarations, at most the table size |
| Node.Settings.ByteTotal | src/settings.cpp:76-78 | the byte total of the registered declarations |
| Node.Settings.Init | src/settings.cpp:128-137 | a fresh value region of bytes() bytes |
| Node.Settings.Load | src/settings.cpp:83-105 | the bound covers name and values, the name is read from [0, N) and the values from [N, N + bytes()) |
| Node.Settings.ReadRun | src/settings.cpp:91-100 | one read loop: dest[i] is getByte(addr + i) for every i |
| Node.Settings.Write | src/settings.cpp:110-124 | with a value region, the EEPROM becomes Persisted of the old contents; without one it is unchanged |
| Node.Settings.GetName | src/settings.cpp:146-148 | the name bytes held in memory |
| Node.Settings.SetName | src/settings.cpp:152-157 | the name becomes the first N bytes of the argument and is written as by write |
| Node.Settings.FindSetting | src/settings.cpp:169-182 | find_setting as an int8_t: equal to FindType when at most 128 settings are registered, congruent mod 256 always |
| Node.Settings.SetValue | src/settings.cpp:187-207 | accepted exactly for a registered index and a value of the declared size; the region becomes Assign of the old region and the store is written; otherwise nothing changes |
| Node.Settings.GetValue | src/settings.cpp:212-237 | ValueAt for a registered index, the not-found value otherwise |
| Node.Settings.GetByType | src/settings.cpp:241-251 | the value of the first setting of the type, not found when there is none or its index is 128 or more |
| Node.Settings.SendGlobalRequest | src/settings.cpp:259-265 | sends exactly the global request frame under the request id |
| Node.Settings.SendRequest | src/settings.cpp:268-275 | sends exactly the info request frame for the uuid |
| Node.Settings.SendValueRequest | src/settings.cpp:278-287 | sends exactly the value request frame for uuid and index |
| Node.Settings.SendRangeRequest | src/settings.cpp:292-302 | sends exactly the range request frame for uuid, index and cnt |
| Node.Settings.SendValueReplies | src/settings.cpp:335-350 | sends exactly one frame, ValueReplyPayload under ReplyId(reply, index) |
| Node.Settings.SendValueReply | src/settings.cpp:330-332 | the same with cnt 1 |
| Node.Settings.SetupValues | src/settings.cpp:363-383 | nothing for index 0xFF; otherwise exactly one frame, SetupValuePayload under ReplyId(reply, index) |
| Node.Settings.CopySetupBytes | src/settings.cpp:373-378 | the copy loop leaves SetupLength bytes of the buffer after the uuid |
| Node.Settings.SetupValue | src/settings.cpp:358-360 | the same with size 1 |
| Node.Settings.SetupName | src/settings.cpp:387-392 | sends exactly NameFrames of the name in ceil(len / 5) fragments under the setup id |
| Node.Settings.SendVersion | src/settings.cpp:404-414 | sends exactly the version frame under the reply id |
| Node.Settings.CopyNameBytes | src/settings.cpp:448-450 | the name bytes text[start..end] are appended at the cursor |
| Node.Settings.WriteNameHeader | src/settings.cpp:432-445 | the buffer starts with the uuid prefix and the counter byte, and the cursor follows them |
| Node.Settings.SendName | src/settings.cpp:420-454 | sends exactly NameFrames(uuid, name, max_pack_cnt, can_id), in order |
| AsWritten.RegisterAsWritten | src/settings.cpp:47-66 | as written: a full table still accepts one more declaration; an accepted one is appended at the byte total; a refused one changes nothing; the byte total kept is the true total of the table only modulo 256 |
| AsWritten.RegisterPastCapacity | src/settings.cpp:53-59 | a one-slot table holding one declaration accepts a second |
| AsWritten.RegisterTotalWraps | src/settings.cpp:60 | settings of 200 and 100 bytes leave a total of 44, inside the first setting |
| AsWritten.SetValueAsWritten | src/settings.cpp:187-193 | setValue as written, in source order: the declaration of index is read before any test; the read lands past the table exactly when index >= the table size; every other index reaches the `_max_settings` test, an unregistered one with the stale declaration its slot holds; an index at or above `_max_settings` is refused, and an accepted one matched the size of the declaration it read, registered or stale |
| AsWritten.SetValueReadsPastTable | src/settings.cpp:190-193 | in a one-slot table setValue(1, v) and setValue(200, v) read past the array, whatever `_max_settings` is; in a two-slot table holding one setting, setValue(1, v) with a value of the stale size is accepted once `_max_settings` exceeds 1 |
| AsWritten.SetValueAcceptsAsWritten | src/settings.cpp:193 | as written the index is compared with `_max_settings` |
| AsWritten.OrByte | src/settings.cpp:232 | the OR-assignment on a uint8_t is BitOr and stays a byte |
| AsWritten.GetValueAsWritten | src/settings.cpp:212-237 | as written: size always 0; refused at or past `_max_settings`; otherwise the declared number of bytes, byte k being the buffer's byte k OR-ed with the region's byte at offset + k |
| AsWritten.MaxSettingsNeverSet | src/settings.cpp:193 | with `_max_settings` 0 a registered setting can be neither set nor read |
| AsWritten.GetValueSizeNeverSet | src/settings.cpp:218-219 | the value read claims size 0 for a one-byte setting |
| AsWritten.GetValueOrsIntoGarbage | src/settings.cpp:228-232 | a stored 0x01 read into a buffer holding 0x80 comes back as 0x81 |
| AsWritten.NameSizeIgnored | src/settings.cpp:25-26 | on an object of static storage, begin with any positive name_size leaves a 0-byte name |
| AsWritten.BusNeverSet | src/settings.cpp:18-20 | `_can_com = _can_com;` assigns the parameter to itself: on an object of static storage the member stays null, whatever bus begin is given |
| AsWritten.WriteValuesAsWritten | src/settings.cpp:119-121 | as written: cell i holds value byte i when N <= i < total and i is below the bound, its old byte otherwise, so value bytes below N are never stored |
| AsWritten.LoadValuesAsWritten | src/settings.cpp:97-101 | as written: value byte i keeps its old value below N and is getByte(i) from N on |
| AsWritten.WriteLoadLosesValues | src/settings.cpp:97-122 | a 2-byte name and a 2-byte setting: the value is never stored and does not survive load |
| AsWritten.LoadNameAsWritten | src/settings.cpp:88-104 | as written the name is read before begin sets the bound |
| AsWritten.FirstLoadReadsZeros | src/settings.cpp:88-104 | the first load of a stored name "A" reads a zero byte |
| AsWritten.RequestBytesAsWritten | src/settings.cpp:270-271 | as written the uuid bytes are MSB and LSB: the two nibbles of its low byte |
| AsWritten.UuidsCollide | src/settings.cpp:268-275 | uuids 0x1234 and 0x0034 are sent as the same bytes, read back as 0x0304 |
| AsWritten.SetupValuePayloadAsWritten | src/settings.cpp:363-381 | as written: the two uuid nibbles, which rebuild only uuid & 0xFF, then byte k + 2 is getByte(index + k) |
| AsWritten.SetupIdAsWritten | src/settings.cpp:381 | as written the id is reply \| (index + 1) without the 0x7F mask: its low seven bits are the masked reply id, and it is never below the base id |
| AsWritten.SetupValueIgnoresBuffer | src/settings.cpp:376 | the value 42 handed in is not what is sent |
| AsWritten.SetupIdUnmasked | src/settings.cpp:381 | with base id 0x100 setting 0 goes out under 0x101 instead of 1 |
| AsWritten.HeaderAsWritten | src/settings.cpp:432-441 | the uuid prefix as written: as long as the corrected one, and for a non-zero uuid its two nibbles rebuild only uuid & 0xFF |
| AsWritten.CharAt | src/settings.cpp:449 | definition of `name[pos]` on an Arduino String: the character at pos, 0 past the end |
| AsWritten.NameFrameAsWritten | src/settings.cpp:432-452 | fragment k as written: sent under can_id, at most 8 bytes |
| AsWritten.NameFramesAsWritten | src/settings.cpp:420-454 | as written: max_pack_cnt frames under can_id, each starting with the nibble uuid prefix and the counter byte; fragment 0 carries five name bytes and every later fragment none |
| AsWritten.NameDataAsWritten | src/settings.cpp:448-450 | fragment 0 carries the first five characters, the others none |
| AsWritten.NameTruncated | src/settings.cpp:426-450 | a 12-byte name reassembles to its first five bytes |
| AsWritten.LongAtAsWritten | src/eeprom_setup.cpp:36-43 | as written the second byte is read from idx - 1 |
| AsWritten.LongReadsWrongByte | src/eeprom_setup.cpp:39 | the long 0x100 stored at address 1 reads back as 0 |

## Left out

- The Arduino EEPROM library is modelled as an array of 256 byte cells. Its wear, its write-only-changed-bytes behaviour and its real size are not modelled; addresses are `uint8_t`, so 256 cells are all the code can reach.
- CAN_COM is not part of this model beyond `send`, which is a log of frames, and `uuid`, which is a constant. Arbitration and delivery are not modelled.
- The node name is a byte sequence. Arduino `String` is modelled only as its bytes and the float `ceil` in setupName as integer ceiling division.
- Memory management is not modelled: `delete` in init, the `new` of getValue's buffer and pointer aliasing. getValue's buffer is modelled as fresh, and its contents before the `|=` are a parameter in the as-written model.
- Node.Settings.SetName: the code stores the caller's pointer in `_name`. The model copies the first N bytes into the name array, which is the content write then stores.
- sendInfoReply and sendNameReply have empty bodies and are not modelled. eeprom_setup.h is not part of this model.
- `_string_max_size` and `_value_max_size` are never assigned, and their setters have no definition, so on an object of static storage both stay 0 as written. Then _sendName copies no name bytes, setupValue copies no value bytes, and setupName divides by 0 in float, giving infinity (NaN for an empty name), whose conversion to `uint8_t` is undefined. The model takes the documented defaults 5 and 6 as constants instead.
- AsWritten.RegisterAsWritten: `_setting_count` is a `uint8_t`; with a capacity of 255 the 256th registration wraps it to 0, after which slot 0 is overwritten. The model counts registrations without that wrap.
- All objects are taken to have static storage, so members the code never assigns start at 0; for an object on the stack or the heap they would be indeterminate.
- Node.Settings.RegisterSetting: requires that no value region exists yet, since registering after init or load would leave the region shorter than bytes().
- Node.Settings.SetupName: requires fewer than 256 fragments (names up to 1275 bytes), since max_packets is a uint8_t and converting a float of 256 or more to it is undefined behaviour.
- Node.Settings.Init: the fresh region is modelled as zero bytes; in C its contents are unspecified.
- AsWritten.LongAtAsWritten: for idx 0 the code reads address -1, converted to the EEPROM library's index type; the model reads the last cell.
- Eeprom.EepromSetup.SetInt and Eeprom.EepromSetup.SetLong: EEPROM.put is modelled by the little-endian byte layout of AVR targets.
- Eeprom.LongAt: the shifts of eeprom_setup.cpp:39 are evaluated as if `int` had at least 32 bits. `EEPROM.read` returns a `uint8_t`, which C promotes to `int`, and on AVR `int` has 16 bits. There `read(idx+2) << 16` and `read(idx+3) << 24` are undefined, and `read(idx+1) << 8` of a byte of 0x80 or more overflows and is sign-extended into the `uint32_t` result. The model does not capture this.
- Eeprom.LittleEndianLong: states the OR of the shifted bytes in unbounded arithmetic, under the same 32-bit `int` assumption as Eeprom.LongAt.
- Eeprom.EepromSetup.GetLong: its result is Eeprom.LongAt, under the same 32-bit `int` assumption.
- Eeprom.EepromSetup.SetLong: its read-back through getLong holds under the same 32-bit `int` assumption.
- AsWritten.LongAtAsWritten: the shifts are evaluated under the same 32-bit `int` assumption as Eeprom.LongAt.

## Findings

| source | as written | input that shows it | evidently intended | confidence | as-written member | corrected member |
|---|---|---|---|---|---|---|
| src/settings.cpp:53 | room test `_setting_count <= _max_count` | a table of size 1 holding one declaration accepts a second, written past the array | strict `<` | not executed | AsWritten.RegisterPastCapacity | Node.Settings.RegisterSetting |
| src/settings.cpp:60 | `_setting_index += size` on a uint8_t wraps | sizes 200 then 100 leave total 44, inside the first setting | refuse a setting whose bytes do not fit after the name | not executed | AsWritten.RegisterTotalWraps | Node.Settings.RegisterSetting |
| src/settings.cpp:190 | setValue reads `_declaration[index]` before any test of index, and its test at :193 never compares index with the table size | in a one-slot table setValue(1, v) reads `_declaration[1]`, past the array; in a two-slot table holding one setting, setValue(1, v) tests the stale slot 1 | test index against the registered count first; the corrected Node.Settings.SetValue tests `idx < count` before it reads `decls[idx]` | not executed | AsWritten.SetValueReadsPastTable | Node.Settings.SetValue |
| src/settings.cpp:193 | setValue and getValue test the index against `_max_settings`, which nothing assigns | with `_max_settings` 0, setting 0 can be neither set nor read | test against the registered count | not executed | AsWritten.MaxSettingsNeverSet | Node.Settings.SetValue |
| src/settings.cpp:218-219 | getValue's result keeps size 0 | a one-byte setting reads with size 0 | the declared size | not executed | AsWritten.GetValueSizeNeverSet | Node.Settings.GetValue |
| src/settings.cpp:232 | bytes are OR-ed into an uninitialised buffer | stored 0x01 over buffer contents 0x80 reads as 0x81 | copy the bytes | not executed | AsWritten.GetValueOrsIntoGarbage | Registry.AssignThenValueAt |
| src/settings.cpp:20 | `_can_com = _can_com;` assigns the parameter to itself, so the member pointer is never set | begin with any bus on an object of static storage leaves the member null, and every send and uuid call goes through it | store the parameter in the member | not executed | AsWritten.BusNeverSet | Node.Settings.Begin |
| src/settings.cpp:25 | `_max_name_size;` has no effect | name_size 8 leaves a 0-byte name | store name_size | not executed | AsWritten.NameSizeIgnored | Node.Settings.Begin |
| src/settings.cpp:98-121 | values go to address i for i from N to the total, so value bytes below N are never stored. This shows once the defect at settings.cpp:25 is fixed: as written N stays 0, the name loops do not run and the value loops start at 0 | 2-byte name, one 2-byte setting [7, 7]: nothing is stored, load gives [0, 0] | values at [N, N + bytes()) | not executed | AsWritten.WriteLoadLosesValues | Node.WriteThenLoad |
| src/settings.cpp:88-104 | load reads before begin sets the bound. As written N stays 0 (settings.cpp:25), so the name loop does not run; the value loop from 0 still reads under the old bound | first load of stored name "A" reads 0 | set the bound first | not executed | AsWritten.FirstLoadReadsZeros | Node.Settings.Load |
| src/settings.cpp:426-449 | `pos` is reset once per transfer and capped at `_string_max_size`, taken as its documented default 5 | a 12-byte name in 3 fragments reassembles to 5 bytes | the k-th run of 5 bytes in fragment k | not executed | AsWritten.NameTruncated | Frames.ReassembleNameFrames |
| src/settings.cpp:376 | setupValue sends store bytes, not its buffer argument | value 42 over an empty store sends 0 | send the buffer | not executed | AsWritten.SetupValueIgnoresBuffer | Frames.SetupValueDecode |
| src/settings.cpp:381 | setupValue's id lacks the 0x7F mask | base 0x100, index 0 gives 0x101 | mask as sendValueReply does | not executed | AsWritten.SetupIdUnmasked | Node.Settings.SetupValues |
| src/settings.cpp:270-271 | uuid and version split with the nibble macros MSB/LSB | 0x1234 and 0x0034 both sent as [3, 4], read as 0x0304 | high and low byte | not executed | AsWritten.UuidsCollide | Frames.RequestRoundTrip |
| src/eeprom_setup.cpp:39 | getLong reads its second byte from idx - 1 | 0x100 stored little-endian at address 1 reads as 0 | idx + 1 | not executed | AsWritten.LongReadsWrongByte | Eeprom.LongAtIsChar2Long |
