/** The frame formats of src/settings.cpp, as values.

    Each function gives the payload or the id of one frame the node sends;
    the methods of Node.Settings fill their byte buffer in loops and are
    proved to send exactly these frames. Beside each format stands the
    receiver's reading of it, and a lemma that the reading recovers what was
    encoded.
 */
module Frames {
  import opened Bytes
  import opened Eeprom
  import opened Bus

  datatype Option<T> = None | Some(value: T)

  /** `_string_max_size`: name bytes per frame. Its setter has no
      definition; the documented default is 5. */
  const STRING_MAX_SIZE := 5

  /** `_value_max_size`: value bytes per setup frame; documented default 6. */
  const VALUE_MAX_SIZE := 6

  /** The one-byte payload of the global discovery request. */
  const GLOBAL_REQUEST := 0xFF

  function Min(a: int, b: int): int
  {
    if a <= b then a else b
  }

  /** A 16-bit identifier (uuid or version) as its high byte and low byte.
      This is the split the request, setup and version frames use in this
      model; the code as written uses MSB/LSB (see AsWritten.RequestBytesAsWritten). */
  function Split16(x: U16): (p: seq<Byte>)
    ensures |p| == 2 && Char2Int(p[0], p[1]) == x
  {
    SplitJoin(x);
    [HighByte(x), LowByte(x)]
  }

  // ---------------------------------------------------------------------
  // Requests (settings.cpp:259-302)

  /** The four requests, told apart by payload length. */
  datatype Request =
    | Global
    | Info(uuid: U16)
    | Single(uuid: U16, index: Byte)
    | Range(uuid: U16, index: Byte, cnt: Byte)

  /** The payload of sendGlobalRequest and of the three sendRequest overloads. */
  function RequestPayload(r: Request): (p: seq<Byte>)
    ensures 1 <= |p| <= 4
  {
    match r
    case Global => [GLOBAL_REQUEST]
    case Info(uuid) => Split16(uuid)
    case Single(uuid, index) => Split16(uuid) + [index]
    case Range(uuid, index, cnt) => Split16(uuid) + [index, cnt]
  }

  /** The receiver's reading of a request payload. */
  function DecodeRequest(p: seq<Byte>): Option<Request>
  {
    if |p| == 1 then (if p[0] == GLOBAL_REQUEST then Some(Global) else None)
    else if |p| == 2 then Some(Info(Char2Int(p[0], p[1])))
    else if |p| == 3 then Some(Single(Char2Int(p[0], p[1]), p[2]))
    else if |p| == 4 then Some(Range(Char2Int(p[0], p[1]), p[2], p[3]))
    else None
  }

  /** Every request is read back as itself. */
  lemma RequestRoundTrip(r: Request)
    ensures DecodeRequest(RequestPayload(r)) == Some(r)
  {
  }

  /** Every payload that is read as a request is the encoding of that
      request, so the encoding is also onto the readable payloads. */
  lemma DecodeRequestExact(p: seq<Byte>, r: Request)
    requires DecodeRequest(p) == Some(r)
    ensures RequestPayload(r) == p
  {
    if |p| >= 2 {
      JoinSplit(p[0], p[1]);
    }
  }

  // ---------------------------------------------------------------------
  // Reply addressing (settings.cpp:348)

  /** `(_reply_id | (index + 1)) & 0x7F`. */
  function ReplyId(reply: U16, index: Byte): (id: U16)
    ensures id < 128
  {
    BitOr(reply, index + 1) % 128
  }

  /** The mask keeps the low seven bits of each operand and drops the rest
      of the base id. */
  lemma ReplyIdLowBits(reply: U16, index: Byte)
    ensures ReplyId(reply, index) == BitOr(reply % 128, (index + 1) % 128)
  {
    Pow2Values();
    BitOrLow(reply, index + 1, 7);
  }

  /** With a base id whose low seven bits are clear, the reply id is
      index + 1 modulo 128. */
  lemma ReplyIdCarriesIndex(reply: U16, index: Byte)
    requires reply % 128 == 0
    ensures ReplyId(reply, index) == (index + 1) % 128
  {
    ReplyIdLowBits(reply, index);
    BitOrZero((index + 1) % 128);
  }

  /** The receiver's reading of a reply id: the setting index, modulo 128. */
  function ReplyIndex(id: U16): (k: nat)
    ensures k < 128
  {
    (id + 127) % 128
  }

  lemma ReplyIndexInverse(reply: U16, index: Byte)
    requires reply % 128 == 0
    ensures ReplyIndex(ReplyId(reply, index)) == index % 128
  {
    ReplyIdCarriesIndex(reply, index);
  }

  /** Indices that differ modulo 128 get different reply ids when the base
      id has its low seven bits clear. */
  lemma ReplyIdsDistinct(reply: U16, k1: Byte, k2: Byte)
    requires reply % 128 == 0 && (k1 + 1) % 128 != (k2 + 1) % 128
    ensures ReplyId(reply, k1) != ReplyId(reply, k2)
  {
    ReplyIdCarriesIndex(reply, k1);
    ReplyIdCarriesIndex(reply, k2);
  }

  /** The id is an OR, not an overwrite: a base id with low bits set can
      make two indices share an id. */
  lemma ReplyIdsCollide()
    ensures ReplyId(3, 0) == ReplyId(3, 1) == 3
  {
    assert BitOr(3, 1) == 3;
    assert BitOr(3, 2) == 3;
  }

  // ---------------------------------------------------------------------
  // Value reply (settings.cpp:335-349)

  /** The number of bytes sendValueReply(index, cnt) sends: cnt clamped to
      8, and no further than the registered count from index. */
  function ReplyLength(count: Byte, index: Byte, cnt: Byte): (n: nat)
    ensures index + n <= 255
  {
    var clamped := if cnt > 8 then 8 else cnt;
    if index < count then Min(clamped, count - index) else 0
  }

  /** The payload of sendValueReply: getByte(index + k) for each k. */
  function ValueReplyPayload(cells: seq<Byte>, bound: Byte, count: Byte, index: Byte, cnt: Byte): (p: seq<Byte>)
    requires |cells| == CELLS
    ensures |p| <= FRAME_SIZE && index + |p| <= 255
    ensures count <= index ==> p == []
  {
    LoadBytes(cells, bound, index, ReplyLength(count, index, cnt))
  }

  /** The reply carries min(cnt, 8, count - index) bytes (none when index
      is at or past the count), byte k being the store's byte at index + k. */
  lemma ValueReplyShape(cells: seq<Byte>, bound: Byte, count: Byte, index: Byte, cnt: Byte)
    requires |cells| == CELLS
    ensures var p := ValueReplyPayload(cells, bound, count, index, cnt);
      && |p| == Min(Min(cnt, FRAME_SIZE), if index < count then count - index else 0)
      && |p| <= FRAME_SIZE
      && forall k :: 0 <= k < |p| ==> p[k] == ByteAt(cells, bound, index + k)
  {
  }

  // ---------------------------------------------------------------------
  // Setup value (settings.cpp:363-383)

  /** The number of value bytes setupValue(uuid, buffer, index, size) sends. */
  function SetupLength(count: Byte, index: Byte, size: Byte): (n: nat)
    ensures n <= size && n <= VALUE_MAX_SIZE
    ensures 0 < n ==> index + n <= count
  {
    if index < count then Min(Min(size, VALUE_MAX_SIZE), count - index) else 0
  }

  /** The payload of setupValue: the uuid, then the first bytes of buffer. */
  function SetupValuePayload(uuid: U16, buffer: seq<Byte>, count: Byte, index: Byte, size: Byte): (p: seq<Byte>)
    requires SetupLength(count, index, size) <= |buffer|
    ensures 2 <= |p| <= FRAME_SIZE
    ensures count <= index ==> |p| == 2
  {
    Split16(uuid) + buffer[..SetupLength(count, index, size)]
  }

  /** A setup-value frame fits a CAN frame, starts with the uuid the
      receiver reads back with char2int, and carries a prefix of the buffer
      no longer than size, than 6 and than the settings left from index. */
  lemma SetupValueDecode(uuid: U16, buffer: seq<Byte>, count: Byte, index: Byte, size: Byte)
    requires SetupLength(count, index, size) <= |buffer|
    ensures var p := SetupValuePayload(uuid, buffer, count, index, size);
      && 2 <= |p| <= FRAME_SIZE
      && Char2Int(p[0], p[1]) == uuid
      && p[2..] == buffer[..|p| - 2]
      && |p| - 2 <= size && |p| - 2 <= VALUE_MAX_SIZE
      && (index < count ==> |p| - 2 == Min(Min(size, VALUE_MAX_SIZE), count - index))
  {
  }

  // ---------------------------------------------------------------------
  // Fragment counter (settings.cpp:458-460)

  /** _createCnt: `(cnt & 0x0F) << 4 | (max_cnt & 0x0F)`. */
  function CreateCnt(cnt: Byte, maxCnt: Byte): (r: Byte)
    ensures r == (cnt % 16) * 16 + maxCnt % 16
  {
    Pow2Values();
    BitOrDisjoint(cnt % 16, maxCnt % 16, 4);
    BitOr((cnt % 16) * 16, maxCnt % 16)
  }

  /** The receiver's reading of a counter byte: fragment index, total. */
  function CounterIndex(b: Byte): Byte
  {
    b / 16
  }

  function CounterTotal(b: Byte): Byte
  {
    b % 16
  }

  /** The counter byte carries both numbers modulo 16. */
  lemma CounterRoundTrip(cnt: Byte, maxCnt: Byte)
    ensures CounterIndex(CreateCnt(cnt, maxCnt)) == cnt % 16
    ensures CounterTotal(CreateCnt(cnt, maxCnt)) == maxCnt % 16
  {
  }

  // ---------------------------------------------------------------------
  // Version frame (settings.cpp:404-414)

  /** _sendVersion: count, counter (fragment 0 of maxPack), version high
      and low byte, module type. */
  function VersionPayload(count: Byte, maxPack: Byte, version: U16, moduleType: Byte): (p: seq<Byte>)
    ensures |p| == 5 && p[0] == count && p[4] == moduleType
  {
    [count, CreateCnt(0, maxPack)] + Split16(version) + [moduleType]
  }

  lemma VersionDecode(count: Byte, maxPack: Byte, version: U16, moduleType: Byte)
    ensures var p := VersionPayload(count, maxPack, version, moduleType);
      && |p| == 5
      && p[0] == count
      && CounterIndex(p[1]) == 0 && CounterTotal(p[1]) == maxPack % 16
      && Char2Int(p[2], p[3]) == version
      && p[4] == moduleType
  {
    CounterRoundTrip(0, maxPack);
  }

  // ---------------------------------------------------------------------
  // Multi-packet name transfer (settings.cpp:386-392, 420-454)

  /** setupName's packet count, ceil(len / k), as integer division. */
  function CeilDiv(n: nat, k: nat): (r: nat)
    requires k > 0
    ensures n <= r * k
    ensures 0 < r ==> (r - 1) * k < n
  {
    (n + k - 1) / k
  }

  /** The uuid prefix of a name frame: present only for a non-zero uuid. */
  function Header(uuid: U16): (h: seq<Byte>)
    ensures |h| == if uuid > 0 then 2 else 0
  {
    if uuid > 0 then Split16(uuid) else []
  }

  /** Where the name bytes of fragment k end: k runs of STRING_MAX_SIZE
      (written as the literal 5 to keep the arithmetic linear), cut at the
      end of the name. */
  function ChunkEnd(name: seq<Byte>, k: nat): (e: nat)
    ensures e <= |name|
  {
    Min(5 * k, |name|)
  }

  /** Consecutive run ends are at most STRING_MAX_SIZE apart. */
  lemma ChunkBounds(name: seq<Byte>, k: nat)
    ensures ChunkEnd(name, k) <= ChunkEnd(name, k + 1) <= ChunkEnd(name, k) + STRING_MAX_SIZE
  {
  }

  /** The name bytes fragment k carries: the k-th run of STRING_MAX_SIZE
      bytes, cut at the end of the name. */
  function NameChunk(name: seq<Byte>, k: nat): (c: seq<Byte>)
    ensures |c| <= STRING_MAX_SIZE
    ensures 5 * k >= |name| ==> c == []
  {
    name[ChunkEnd(name, k) .. ChunkEnd(name, k + 1)]
  }

  /** Fragment k of a name transfer: uuid prefix, counter byte, chunk k. */
  function NameFrame(uuid: U16, name: seq<Byte>, k: Byte, maxPack: Byte, canId: U16): (f: Frame)
    ensures f.id == canId && |Header(uuid)| < |f.payload| <= FRAME_SIZE
  {
    Frame(Header(uuid) + [CreateCnt(k, maxPack)] + NameChunk(name, k), canId)
  }

  /** The frames of _sendName(uuid, name, maxPack, canId), in send order. */
  function NameFrames(uuid: U16, name: seq<Byte>, maxPack: Byte, canId: U16): (fs: seq<Frame>)
    ensures |fs| == maxPack
  {
    seq(maxPack, k requires 0 <= k < maxPack => NameFrame(uuid, name, k, maxPack, canId))
  }

  /** Sending fragment k after the first k fragments gives the first k + 1. */
  lemma NameFramesStep(uuid: U16, name: seq<Byte>, maxPack: Byte, canId: U16, k: nat)
    requires k < maxPack
    ensures NameFrames(uuid, name, maxPack, canId)[..k + 1]
            == NameFrames(uuid, name, maxPack, canId)[..k] + [NameFrame(uuid, name, k, maxPack, canId)]
  {
  }

  /** The name bytes of one received fragment: what follows the header and
      the counter byte. */
  function NameData(f: Frame, uuid: U16): seq<Byte>
  {
    var h := |Header(uuid)| + 1;
    if h <= |f.payload| then f.payload[h..] else []
  }

  /** The receiver's reassembly: the name bytes of the fragments, in order. */
  function Reassemble(fs: seq<Frame>, uuid: U16): seq<Byte>
    decreases |fs|
  {
    if fs == [] then [] else Reassemble(fs[..|fs| - 1], uuid) + NameData(fs[|fs| - 1], uuid)
  }

  /** Each fragment fits a CAN frame, starts with the uuid bytes exactly
      when the uuid is non-zero, then carries the counter byte
      (k & 0xF) << 4 | (maxPack & 0xF). */
  lemma NameFramesShape(uuid: U16, name: seq<Byte>, maxPack: Byte, canId: U16, k: nat)
    requires k < maxPack
    ensures var p := NameFrames(uuid, name, maxPack, canId)[k].payload;
      && |p| <= FRAME_SIZE
      && (uuid > 0 <==> 3 <= |p| && Char2Int(p[0], p[1]) == uuid && p[..2] == Header(uuid))
      && p[|Header(uuid)|] == (k % 16) * 16 + maxPack % 16
  {
    var p := NameFrames(uuid, name, maxPack, canId)[k].payload;
    assert p == Header(uuid) + [CreateCnt(k, maxPack)] + NameChunk(name, k);
    if uuid == 0 {
      assert Header(uuid) == [];
    }
  }

  /** A fragment's name bytes are its chunk of the name. */
  lemma NameDataOfFrame(uuid: U16, name: seq<Byte>, k: Byte, maxPack: Byte, canId: U16)
    ensures NameData(NameFrame(uuid, name, k, maxPack, canId), uuid) == NameChunk(name, k)
  {
    var p := NameFrame(uuid, name, k, maxPack, canId).payload;
    assert p[|Header(uuid)| + 1..] == NameChunk(name, k);
  }

  /** The first m fragments carry the first m runs of the name. */
  lemma {:induction false} ReassemblePrefix(uuid: U16, name: seq<Byte>, maxPack: Byte, canId: U16, m: nat)
    requires m <= maxPack
    ensures Reassemble(NameFrames(uuid, name, maxPack, canId)[..m], uuid) == name[..ChunkEnd(name, m)]
  {
    if m > 0 {
      var fs := NameFrames(uuid, name, maxPack, canId);
      var f := NameFrame(uuid, name, m - 1, maxPack, canId);
      ReassemblePrefix(uuid, name, maxPack, canId, m - 1);
      NameFramesStep(uuid, name, maxPack, canId, m - 1);
      ReassembleAppend(fs[..m - 1], f, uuid);
      NameDataOfFrame(uuid, name, m - 1, maxPack, canId);
      ChunkConcat(name, m - 1);
    }
  }

  /** The runs of the name follow each other without gap or overlap. */
  lemma ChunkConcat(name: seq<Byte>, k: nat)
    ensures name[..ChunkEnd(name, k)] + NameChunk(name, k) == name[..ChunkEnd(name, k + 1)]
  {
    var lo, hi := ChunkEnd(name, k), ChunkEnd(name, k + 1);
    assert name[..lo] + name[lo..hi] == name[..hi];
  }

  /** Reassembly consumes the fragments one at a time, in order. */
  lemma ReassembleAppend(fs: seq<Frame>, f: Frame, uuid: U16)
    ensures Reassemble(fs + [f], uuid) == Reassemble(fs, uuid) + NameData(f, uuid)
  {
    assert (fs + [f])[..|fs|] == fs;
  }

  /** Concatenating, in fragment order, the name bytes of all fragments of a
      transfer of ceil(len / 5) fragments gives back the name. */
  lemma ReassembleNameFrames(uuid: U16, name: seq<Byte>, canId: U16)
    requires CeilDiv(|name|, STRING_MAX_SIZE) < 256
    ensures var fs := NameFrames(uuid, name, CeilDiv(|name|, STRING_MAX_SIZE), canId);
      Reassemble(fs, uuid) == name
  {
    var maxPack := CeilDiv(|name|, STRING_MAX_SIZE);
    var fs := NameFrames(uuid, name, maxPack, canId);
    assert |name| <= maxPack * STRING_MAX_SIZE;
    assert ChunkEnd(name, maxPack) == |name|;
    ReassemblePrefix(uuid, name, maxPack, canId, maxPack);
    assert fs[..maxPack] == fs;
  }

  /** Fragment indices below 16 get different counter bytes. */
  lemma CreateCntInjective(j: Byte, k: Byte, maxCnt: Byte)
    requires j < 16 && k < 16 && j != k
    ensures CreateCnt(j, maxCnt) != CreateCnt(k, maxCnt)
  {
    CounterRoundTrip(j, maxCnt);
    CounterRoundTrip(k, maxCnt);
    assert CounterIndex(CreateCnt(j, maxCnt)) == j;
    assert CounterIndex(CreateCnt(k, maxCnt)) == k;
  }

  /** In a transfer of at most 16 fragments no two fragments share a
      counter byte. */
  lemma CountersDistinct(uuid: U16, name: seq<Byte>, maxPack: Byte, canId: U16, j: nat, k: nat)
    requires maxPack <= 16 && j < k < maxPack
    ensures var fs := NameFrames(uuid, name, maxPack, canId);
      fs[j].payload[|Header(uuid)|] != fs[k].payload[|Header(uuid)|]
  {
    var fs := NameFrames(uuid, name, maxPack, canId);
    assert fs[j].payload[|Header(uuid)|] == CreateCnt(j, maxPack);
    assert fs[k].payload[|Header(uuid)|] == CreateCnt(k, maxPack);
    CreateCntInjective(j, k, maxPack);
  }

  /** A 12-byte name goes out in three fragments whose counter bytes are
      0x03, 0x13 and 0x23. */
  lemma TwelveByteName(uuid: U16, name: seq<Byte>, canId: U16)
    requires |name| == 12
    ensures CeilDiv(|name|, STRING_MAX_SIZE) == 3
    ensures var fs := NameFrames(uuid, name, 3, canId);
      && fs[0].payload[|Header(uuid)|] == 0x03
      && fs[1].payload[|Header(uuid)|] == 0x13
      && fs[2].payload[|Header(uuid)|] == 0x23
  {
    NameFramesShape(uuid, name, 3, canId, 0);
    NameFramesShape(uuid, name, 3, canId, 1);
    NameFramesShape(uuid, name, 3, canId, 2);
  }
}
