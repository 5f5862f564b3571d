/** The SETTINGS class of src/settings.h and src/settings.cpp.

    One object per CAN node. It holds the declaration table of the node's
    settings, an in-memory copy of the node name and of the setting values,
    and an eight-byte frame buffer with its cursor `_i`. The values are
    written through to the bounded EEPROM store, and frames leave through
    the CAN bus.

    EEPROM layout used here: the name occupies addresses [0, N) and the
    value bytes follow at [N, N + bytes()), N being the name size.
 */
module Node {
  import opened Bytes
  import opened Eeprom
  import opened Registry
  import opened Bus
  import opened Frames

  /** The EEPROM contents write() leaves behind: the name bytes from address
      0, then the value bytes right after them, each store subject to the
      bound. */
  function Persisted(cells: seq<Byte>, bound: Byte, name: seq<Byte>, data: seq<Byte>): (r: seq<Byte>)
    requires |cells| == CELLS && |name| + |data| <= CELLS
    ensures |r| == CELLS
  {
    StoreBytes(StoreBytes(cells, bound, 0, name), bound, |name|, data)
  }

  /** write() followed by load(): with a bound covering the name and the
      values, the name and the value bytes read back are the ones written. */
  lemma WriteThenLoad(cells: seq<Byte>, bound: Byte, name: seq<Byte>, data: seq<Byte>)
    requires |cells| == CELLS && |name| + |data| <= bound
    ensures var after := Persisted(cells, bound, name, data);
      && LoadBytes(after, bound, 0, |name|) == name
      && LoadBytes(after, bound, |name|, |data|) == data
  {
    var first := StoreBytes(cells, bound, 0, name);
    StoreThenLoad(cells, bound, 0, name);
    StoreOutside(first, bound, |name|, data, 0, |name|);
    StoreThenLoad(first, bound, |name|, data);
  }

  /** write() touches no cell at or past the end of the value bytes. */
  lemma PersistedOutside(cells: seq<Byte>, bound: Byte, name: seq<Byte>, data: seq<Byte>, j: nat)
    requires |cells| == CELLS && |name| + |data| <= j < CELLS
    ensures Persisted(cells, bound, name, data)[j] == cells[j]
  {
    var first := StoreBytes(cells, bound, 0, name);
    StoreBytesAt(first, bound, |name|, data, j);
    StoreBytesAt(cells, bound, 0, name, j);
  }

  class Settings {
    /** `_setup`, the bounded EEPROM store. */
    const setup: EepromSetup
    /** `_can_com`, the bus. */
    const can: CanCom
    /** `_buffer[8]`, filled by every frame builder. */
    const buffer: array<Byte>
    /** `_declaration`, room for `_max_count` declarations. */
    const decls: array<Decl>
    const maxCount: Byte
    /** `_name`, `_max_name_size` bytes. */
    const name: array<Byte>
    const maxNameSize: Byte
    const requestId: U16
    const replyId: U16
    const setupId: U16
    const version: U16
    const moduleType: Byte

    /** `_setting_count`: declarations registered so far. */
    var count: Byte
    /** `_setting_index`: value bytes registered so far. */
    var total: Byte
    /** `_data`: the value bytes, absent until init or load. */
    var data: array?<Byte>
    /** `_i`: the frame buffer cursor. */
    var cursor: Byte

    ghost predicate Valid()
      reads this`count, this`total, this`data, setup, decls
    {
      && setup.Valid()
      && buffer.Length == FRAME_SIZE
      && decls.Length == maxCount && count <= maxCount
      && name.Length == maxNameSize
      && Contiguous(decls[..count]) && total == Total(decls[..count])
      && maxNameSize + total <= 255
      && buffer != name && buffer != setup.cells && name != setup.cells
      && (data != null ==> data.Length == total && data != buffer && data != name && data != setup.cells)
    }

    /** The registered declarations, in registration order. */
    function Decls(): seq<Decl>
      reads this, decls
      requires count <= decls.Length
    {
      decls[..count]
    }

    /** begin (settings.cpp:18-40), on a fresh object over the EEPROM
        `cells` and the bus `can`: room for maxCount declarations and a
        name of nameSize bytes, nothing registered yet. */
    constructor Begin(cells: array<Byte>, can: CanCom, version: U16, moduleType: Byte, maxCount: Byte,
                      nameSize: Byte, requestId: U16, replyId: U16, setupId: U16)
      requires cells.Length == CELLS
      ensures Valid()
      ensures setup.cells == cells && setup.bound == 0 && this.can == can
      ensures this.maxCount == maxCount && maxNameSize == nameSize
      ensures this.version == version && this.moduleType == moduleType
      ensures this.requestId == requestId && this.replyId == replyId && this.setupId == setupId
      ensures count == 0 && total == 0 && data == null
      ensures fresh(setup) && setup.uuid == 0
      ensures fresh(decls) && fresh(name) && fresh(buffer)
    {
      setup := new EepromSetup(cells);
      this.can := can;
      buffer := new Byte[FRAME_SIZE];
      this.maxCount := maxCount;
      decls := new Decl[maxCount];
      maxNameSize := nameSize;
      name := new Byte[nameSize];
      count := 0;
      total := 0;
      data := null;
      cursor := 0;
      this.requestId := requestId;
      this.replyId := replyId;
      this.setupId := setupId;
      this.version := version;
      this.moduleType := moduleType;
    }

    /** register_setting (settings.cpp:47-66): a declaration word 0xttss is
        appended with type tt, size ss and the running byte total as its
        offset, when the table has room and the bytes still fit the 8-bit
        address space after the name. */
    method RegisterSetting(def: U16) returns (ok: bool)
      requires Valid() && data == null
      modifies this`count, this`total, decls
      ensures Valid()
      ensures ok == (old(count) < maxCount && maxNameSize + old(total) + LowByte(def) <= 255)
      ensures ok ==> Decls() == old(Decls()) + [Decl(HighByte(def), LowByte(def), old(total))]
      ensures ok ==> count == old(count) + 1 && total == old(total) + LowByte(def)
      ensures !ok ==> Decls() == old(Decls()) && count == old(count) && total == old(total)
    {
      var tag := HighByte(def);
      var size := LowByte(def);
      if count < maxCount && maxNameSize as int + total as int + size as int <= 255 {
        var d := Decl(tag, size, total);
        AppendContiguous(decls[..count], d);
        decls[count] := d;
        assert decls[..count + 1] == old(decls[..count]) + [d];
        count := count + 1;
        total := total + size;
        ok := true;
      } else {
        ok := false;
      }
    }

    /** count (settings.cpp:70-72): the number of registered settings. */
    function Count(): (r: nat)
      reads this, setup, decls
      requires Valid()
      ensures r == |Decls()| && r <= maxCount
    {
      count
    }

    /** bytes (settings.cpp:76-78): the bytes the registered settings occupy. */
    function ByteTotal(): (r: nat)
      reads this, setup, decls
      requires Valid()
      ensures r == Total(Decls()) && maxNameSize + r <= 255
    {
      total
    }

    /** init (settings.cpp:128-137): a fresh value region of bytes() bytes. */
    method Init()
      requires Valid()
      modifies this`data
      ensures Valid()
      ensures data != null && fresh(data) && data[..] == seq(total, _ => 0)
    {
      data := new Byte[total](_ => 0);
    }

    /** load (settings.cpp:83-105): a fresh value region, the store bound set
        to cover the name and the values, then the name read from
        [0, N) and the values from [N, N + bytes()). */
    method Load()
      requires Valid()
      modifies this`data, name, setup
      ensures Valid()
      ensures data != null && fresh(data)
      ensures setup.bound == maxNameSize + total && setup.uuid == can.uuid
      ensures name[..] == LoadBytes(setup.cells[..], setup.bound, 0, maxNameSize)
      ensures data[..] == LoadBytes(setup.cells[..], setup.bound, maxNameSize, total)
    {
      Init();
      setup.Begin(maxNameSize + total, can.uuid);
      ReadRun(name, 0);
      ReadRun(data, maxNameSize);
    }

    /** One read loop of load (settings.cpp:91-93 and 98-100): dest[i] gets
        getByte(addr + i) for every i. */
    method ReadRun(dest: array<Byte>, addr: nat)
      requires setup.Valid() && dest != setup.cells && addr + dest.Length <= CELLS
      modifies dest
      ensures dest[..] == LoadBytes(setup.cells[..], setup.bound, addr, dest.Length)
    {
      var i := 0;
      while i < dest.Length
        invariant i <= dest.Length
        invariant forall k :: 0 <= k < i ==> dest[k] == ByteAt(setup.cells[..], setup.bound, addr + k)
      {
        dest[i] := setup.GetByte(addr + i);
        i := i + 1;
      }
    }

    /** write (settings.cpp:110-124): when the value region exists, the name
        is stored from address 0 and the values right after it. */
    method Write()
      requires Valid()
      modifies setup.cells
      ensures Valid()
      ensures data != null ==> setup.cells[..] == Persisted(old(setup.cells[..]), setup.bound, name[..], data[..])
      ensures data == null ==> setup.cells[..] == old(setup.cells[..])
    {
      if data != null {
        var i: Byte := 0;
        while i < maxNameSize
          invariant i <= maxNameSize
          invariant setup.cells[..] == StoreBytes(old(setup.cells[..]), setup.bound, 0, name[..i])
        {
          assert name[..i + 1][..i] == name[..i];
          var stored := setup.SetByte(i, name[i]);
          i := i + 1;
        }
        assert name[..maxNameSize] == name[..];
        var k: Byte := 0;
        while k < total
          invariant k <= total
          invariant setup.cells[..]
                    == StoreBytes(StoreBytes(old(setup.cells[..]), setup.bound, 0, name[..]), setup.bound, maxNameSize, data[..k])
        {
          assert data[..k + 1][..k] == data[..k];
          var stored := setup.SetByte(maxNameSize + k, data[k]);
          k := k + 1;
        }
        assert data[..total] == data[..];
      }
    }

    /** getName (settings.cpp:146-148): the name bytes held in memory. */
    function GetName(): (r: seq<Byte>)
      reads this, setup, decls, name
      requires Valid()
      ensures |r| == maxNameSize && forall k :: 0 <= k < |r| ==> r[k] == name[k]
    {
      name[..]
    }

    /** setName (settings.cpp:152-157): the first N bytes of newName become
        the name, and everything is written to the store. */
    method SetName(newName: seq<Byte>)
      requires Valid() && maxNameSize <= |newName|
      modifies name, setup.cells
      ensures Valid()
      ensures name[..] == newName[..maxNameSize]
      ensures data != null ==> setup.cells[..] == Persisted(old(setup.cells[..]), setup.bound, name[..], data[..])
      ensures data == null ==> setup.cells[..] == old(setup.cells[..])
    {
      var i: Byte := 0;
      while i < maxNameSize
        invariant i <= maxNameSize
        invariant setup.cells[..] == old(setup.cells[..])
        invariant forall k :: 0 <= k < i ==> name[k] == newName[k]
      {
        name[i] := newName[i];
        i := i + 1;
      }
      Write();
    }

    /** find_setting (settings.cpp:169-182): the lowest index of a setting
        with type t, or -1, returned as an int8_t. */
    function FindSetting(t: Byte): (r: int)
      reads this, setup, decls
      requires Valid()
      ensures -128 <= r < 128
      ensures r % 256 == FindType(Decls(), t) % 256
      ensures count <= 128 ==> r == FindType(Decls(), t)
    {
      AsInt8(FindType(Decls(), t))
    }

    /** setValue (settings.cpp:187-207): a value of the declared size for a
        registered index replaces that setting's bytes, and everything is
        written to the store; anything else is refused and changes nothing.
        The index is tested against the count before its declaration is
        read, where the code reads it first (AsWritten.SetValueAsWritten). */
    method SetValue(idx: Byte, value: Value) returns (ok: bool)
      requires Valid() && data != null && value.size <= |value.data|
      modifies data, setup.cells
      ensures Valid()
      ensures ok == (idx < count && value.size == decls[idx].size)
      ensures ok ==> |old(data[..])| == Total(Decls())
      ensures ok ==> data[..] == Assign(Decls(), old(data[..]), idx, value.data[..value.size])
      ensures ok ==> setup.cells[..] == Persisted(old(setup.cells[..]), setup.bound, name[..], data[..])
      ensures !ok ==> data[..] == old(data[..]) && setup.cells[..] == old(setup.cells[..])
    {
      if idx < count && value.size == decls[idx].size {
        var adr := decls[idx].offset;
        DeclsTile(Decls(), idx, idx);
        assert Decls()[idx] == decls[idx];
        var i: Byte := 0;
        while i < value.size
          invariant i <= value.size
          invariant setup.cells[..] == old(setup.cells[..])
          invariant forall j :: 0 <= j < data.Length ==>
            data[j] == if adr <= j < adr + i then value.data[j - adr] else old(data[j])
        {
          data[adr + i] := value.data[i];
          i := i + 1;
        }
        AssignPointwise(Decls(), old(data[..]), idx, value.data[..value.size], data[..]);
        Write();
        ok := true;
      } else {
        ok := false;
      }
    }

    /** getValue (settings.cpp:212-237): the declared size and the bytes of
        a registered setting, copied into a fresh buffer; size 0 and no
        bytes for any other index. */
    method GetValue(idx: Byte) returns (v: Value)
      requires Valid() && data != null
      ensures v == if idx < count then ValueAt(Decls(), data[..], idx) else NotFound
    {
      if idx < count {
        var adr := decls[idx].offset;
        var size := decls[idx].size;
        DeclsTile(Decls(), idx, idx);
        assert Decls()[idx] == decls[idx];
        var bytes := new Byte[size];
        var i: Byte := 0;
        while i < size
          invariant i <= size
          invariant forall j :: 0 <= j < i ==> bytes[j] == data[adr + j]
        {
          bytes[i] := data[adr + i];
          i := i + 1;
        }
        assert bytes[..] == data[adr .. adr + size];
        v := Value(size, bytes[..]);
      } else {
        v := NotFound;
      }
    }

    /** get_by_type (settings.cpp:241-251): the value of the first setting
        of type t. An index the int8_t result of find_setting cannot carry
        (128 and above) reads as not found. */
    method GetByType(t: Byte) returns (v: Value)
      requires Valid() && data != null
      ensures var i := FindType(Decls(), t);
        v == if 0 <= i < 128 then ValueAt(Decls(), data[..], i) else NotFound
    {
      var idx := FindSetting(t);
      if idx >= 0 {
        v := GetValue(idx);
      } else {
        v := NotFound;
      }
    }

    // ---------------------------------------------------------------
    // Requests (settings.cpp:259-302)

    /** sendGlobalRequest (settings.cpp:259-265). */
    method SendGlobalRequest()
      requires Valid()
      modifies buffer, can`log
      ensures Valid()
      ensures can.log == old(can.log) + [Frame(RequestPayload(Global), requestId)]
    {
      buffer[0] := GLOBAL_REQUEST;
      assert buffer[..1] == RequestPayload(Global);
      can.Send(buffer, 1, requestId);
    }

    /** sendRequest(uuid) (settings.cpp:268-275): an info request. */
    method SendRequest(uuid: U16)
      requires Valid()
      modifies buffer, can`log
      ensures Valid()
      ensures can.log == old(can.log) + [Frame(RequestPayload(Info(uuid)), requestId)]
    {
      buffer[0] := HighByte(uuid);
      buffer[1] := LowByte(uuid);
      assert buffer[..2] == RequestPayload(Info(uuid));
      can.Send(buffer, 2, requestId);
    }

    /** sendRequest(uuid, index) (settings.cpp:278-287): a value request. */
    method SendValueRequest(uuid: U16, index: Byte)
      requires Valid()
      modifies buffer, can`log
      ensures Valid()
      ensures can.log == old(can.log) + [Frame(RequestPayload(Single(uuid, index)), requestId)]
    {
      buffer[0] := HighByte(uuid);
      buffer[1] := LowByte(uuid);
      buffer[2] := index;
      assert buffer[..3] == RequestPayload(Single(uuid, index));
      can.Send(buffer, 3, requestId);
    }

    /** sendRequest(uuid, index, cnt) (settings.cpp:292-302): a request for
        cnt values from index on. */
    method SendRangeRequest(uuid: U16, index: Byte, cnt: Byte)
      requires Valid()
      modifies buffer, can`log
      ensures Valid()
      ensures can.log == old(can.log) + [Frame(RequestPayload(Range(uuid, index, cnt)), requestId)]
    {
      buffer[0] := HighByte(uuid);
      buffer[1] := LowByte(uuid);
      buffer[2] := index;
      buffer[3] := cnt;
      assert buffer[..4] == RequestPayload(Range(uuid, index, cnt));
      can.Send(buffer, 4, requestId);
    }

    // ---------------------------------------------------------------
    // Replies (settings.cpp:330-350)

    /** sendValueReply(index, cnt) (settings.cpp:335-350): up to cnt (at most
        8) store bytes from address index on, no further than the registered
        count, under the reply id of index. */
    method SendValueReplies(index: Byte, cnt: Byte)
      requires Valid()
      modifies this`cursor, buffer, can`log
      ensures Valid()
      ensures can.log == old(can.log)
        + [Frame(ValueReplyPayload(setup.cells[..], setup.bound, count, index, cnt), ReplyId(replyId, index))]
    {
      cursor := 0;
      var clamped := cnt;
      if clamped > 8 {
        clamped := 8;
      }
      while index as int + cursor as int < count as int && cursor < clamped
        invariant can.log == old(can.log)
        invariant cursor <= ReplyLength(count, index, cnt)
        invariant forall k :: 0 <= k < cursor ==> buffer[k] == ByteAt(setup.cells[..], setup.bound, index + k)
      {
        buffer[cursor] := setup.GetByte(index + cursor);
        cursor := cursor + 1;
      }
      assert cursor as int == ReplyLength(count, index, cnt);
      assert buffer[..cursor] == ValueReplyPayload(setup.cells[..], setup.bound, count, index, cnt);
      can.Send(buffer, cursor, ReplyId(replyId, index));
    }

    /** sendValueReply(index) (settings.cpp:330-332): one byte. */
    method SendValueReply(index: Byte)
      requires Valid()
      modifies this`cursor, buffer, can`log
      ensures Valid()
      ensures can.log == old(can.log)
        + [Frame(ValueReplyPayload(setup.cells[..], setup.bound, count, index, 1), ReplyId(replyId, index))]
    {
      SendValueReplies(index, 1);
    }

    // ---------------------------------------------------------------
    // Setup requests (settings.cpp:358-392)

    /** setupValue(uuid, values, index, size) (settings.cpp:363-383): the
        uuid, then up to size (at most 6) bytes of values, no further than
        the registered count from index, under the reply id of index.
        Index 0xFF sends nothing. */
    method SetupValues(uuid: U16, values: array<Byte>, index: Byte, size: Byte)
      requires Valid() && values != buffer && SetupLength(count, index, size) <= values.Length
      modifies this`cursor, buffer, can`log
      ensures Valid()
      ensures index == 0xFF ==> can.log == old(can.log)
      ensures index < 0xFF ==>
        can.log == old(can.log) + [Frame(SetupValuePayload(uuid, values[..], count, index, size), ReplyId(replyId, index))]
    {
      if index < 0xFF {
        buffer[0] := HighByte(uuid);
        buffer[1] := LowByte(uuid);
        CopySetupBytes(values, index, size);
        assert buffer[..cursor + 2] == SetupValuePayload(uuid, values[..], count, index, size);
        can.Send(buffer, cursor + 2, ReplyId(replyId, index));
      }
    }

    /** The copy loop of setupValue (settings.cpp:373-378): values[i] goes
        to buffer[i + 2] while i is below size, below 6 and index + i below
        the registered count. */
    method CopySetupBytes(values: array<Byte>, index: Byte, size: Byte)
      requires buffer.Length == FRAME_SIZE && values != buffer && SetupLength(count, index, size) <= values.Length
      modifies this`cursor, buffer
      ensures cursor == SetupLength(count, index, size)
      ensures buffer[..cursor + 2] == old(buffer[..2]) + values[..cursor]
    {
      cursor := 0;
      while cursor < size && cursor < VALUE_MAX_SIZE && index as int + cursor as int < count as int
        invariant cursor <= SetupLength(count, index, size)
        invariant buffer[..2] == old(buffer[..2])
        invariant forall k :: 0 <= k < cursor ==> buffer[k + 2] == values[k]
      {
        buffer[cursor + 2] := values[cursor];
        cursor := cursor + 1;
      }
      assert buffer[..cursor + 2] == buffer[..2] + values[..cursor];
    }

    /** setupValue(uuid, value, index) (settings.cpp:358-360): one byte. */
    method SetupValue(uuid: U16, values: array<Byte>, index: Byte)
      requires Valid() && values != buffer && SetupLength(count, index, 1) <= values.Length
      modifies this`cursor, buffer, can`log
      ensures Valid()
      ensures index == 0xFF ==> can.log == old(can.log)
      ensures index < 0xFF ==>
        can.log == old(can.log) + [Frame(SetupValuePayload(uuid, values[..], count, index, 1), ReplyId(replyId, index))]
    {
      SetupValues(uuid, values, index, 1);
    }

    /** setupName (settings.cpp:387-392): the name in ceil(len / 5)
        fragments under the setup id. */
    method SetupName(uuid: U16, text: seq<Byte>)
      requires Valid() && CeilDiv(|text|, STRING_MAX_SIZE) < 256
      modifies this`cursor, buffer, can`log
      ensures Valid()
      ensures can.log == old(can.log) + NameFrames(uuid, text, CeilDiv(|text|, STRING_MAX_SIZE), setupId)
    {
      var maxPackets := CeilDiv(|text|, STRING_MAX_SIZE);
      SendName(uuid, text, maxPackets, setupId);
    }

    // ---------------------------------------------------------------
    // Private frame builders (settings.cpp:404-460)

    /** _sendVersion (settings.cpp:404-414). */
    method SendVersion(maxPack: Byte)
      requires Valid()
      modifies buffer, can`log
      ensures Valid()
      ensures can.log == old(can.log) + [Frame(VersionPayload(count, maxPack, version, moduleType), replyId)]
    {
      buffer[0] := count;
      buffer[1] := CreateCnt(0, maxPack);
      buffer[2] := HighByte(version);
      buffer[3] := LowByte(version);
      buffer[4] := moduleType;
      assert buffer[..5] == VersionPayload(count, maxPack, version, moduleType);
      can.Send(buffer, 5, replyId);
    }

    /** The name-copy loop of _sendName (settings.cpp:448-450): the bytes
        text[start..end] go into the buffer at the cursor while it has room. */
    method CopyNameBytes(text: seq<Byte>, start: nat, end: nat)
      requires buffer.Length == FRAME_SIZE && start <= end <= |text| && cursor + (end - start) <= FRAME_SIZE
      modifies this`cursor, buffer
      ensures cursor == old(cursor) + (end - start)
      ensures buffer[..cursor] == old(buffer[..cursor]) + text[start..end]
    {
      var pos := start;
      while pos < end && cursor < FRAME_SIZE
        invariant start <= pos <= end
        invariant cursor == old(cursor) + (pos - start)
        invariant forall k :: 0 <= k < old(cursor) ==> buffer[k] == old(buffer[k])
        invariant forall k :: old(cursor) <= k < cursor ==> buffer[k] == text[start + (k - old(cursor))]
      {
        buffer[cursor] := text[pos];
        cursor := cursor + 1;
        pos := pos + 1;
      }
      assert buffer[..cursor] == old(buffer[..cursor]) + text[start..end];
    }

    /** The start of one _sendName frame (settings.cpp:432-445): the uuid
        when it is non-zero, then the counter byte. */
    method WriteNameHeader(uuid: U16, counter: Byte)
      requires buffer.Length == FRAME_SIZE
      modifies this`cursor, buffer
      ensures cursor == |Header(uuid)| + 1
      ensures buffer[..cursor] == Header(uuid) + [counter]
    {
      if uuid > 0 {
        buffer[0] := HighByte(uuid);
        buffer[1] := LowByte(uuid);
        cursor := 2;
      } else {
        cursor := 0;
      }
      buffer[cursor] := counter;
      cursor := cursor + 1;
    }

    /** _sendName (settings.cpp:420-454): maxPack frames, fragment k
        carrying the uuid when it is non-zero, the counter byte and the
        k-th run of five name bytes. */
    method SendName(uuid: U16, text: seq<Byte>, maxPack: Byte, canId: U16)
      requires Valid()
      modifies this`cursor, buffer, can`log
      ensures Valid()
      ensures can.log == old(can.log) + NameFrames(uuid, text, maxPack, canId)
    {
      var packCnt: Byte := 0;
      while packCnt < maxPack
        invariant packCnt <= maxPack
        invariant can.log == old(can.log) + NameFrames(uuid, text, maxPack, canId)[..packCnt]
      {
        WriteNameHeader(uuid, CreateCnt(packCnt, maxPack));
        var start, end := ChunkEnd(text, packCnt as int), ChunkEnd(text, packCnt as int + 1);
        ChunkBounds(text, packCnt as int);
        CopyNameBytes(text, start, end);
        assert buffer[..cursor] == NameFrame(uuid, text, packCnt, maxPack, canId).payload;
        can.Send(buffer, cursor, canId);
        NameFramesStep(uuid, text, maxPack, canId, packCnt);
        packCnt := packCnt + 1;
      }
      assert NameFrames(uuid, text, maxPack, canId)[..maxPack] == NameFrames(uuid, text, maxPack, canId);
    }
  }
}
