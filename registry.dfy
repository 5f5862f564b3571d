/** The declaration table of src/settings.h and src/settings.cpp, as values.

    Each registered setting has a declaration (type tag, size in bytes,
    offset of its bytes inside the value region). Declarations are kept in
    registration order, and that order, not the tag, is the setting index.
    Offsets are handed out contiguously from a running byte total, so the
    declarations tile the value region [0, Total) without gaps or overlap.
 */
module Registry {
  import opened Bytes

  /** SETTINGS_TYPE (settings.h:43-47): `type`, `size` and `index`, the last
      being the offset of the setting's bytes in the value region.
      register_setting takes type and size from a declaration word 0xttss
      as `def >> 8` and `def & 0xff` (settings.cpp:49-50): its high and
      low byte, Bytes.HighByte and Bytes.LowByte. */
  datatype Decl = Decl(tag: Byte, size: Byte, offset: Byte)

  /** VALUE (settings.h:49-52): a size and the bytes of one setting. */
  datatype Value = Value(size: Byte, data: seq<Byte>)

  /** A default-constructed VALUE: size 0 and no data, the "not found" answer. */
  const NotFound := Value(0, [])

  /** The number of bytes the declarations occupy. */
  function Total(ds: seq<Decl>): (r: nat)
    ensures r <= 255 * |ds|
    decreases |ds|
  {
    if ds == [] then 0 else Total(ds[..|ds| - 1]) + ds[|ds| - 1].size
  }

  /** Every offset equals the sum of the sizes registered before it. */
  ghost predicate Contiguous(ds: seq<Decl>)
  {
    forall i :: 0 <= i < |ds| ==> ds[i].offset == Total(ds[..i])
  }

  /** Appending a declaration whose offset is the running total keeps the
      table contiguous and grows the total by its size. */
  lemma AppendContiguous(ds: seq<Decl>, d: Decl)
    requires Contiguous(ds) && d.offset == Total(ds)
    ensures Contiguous(ds + [d])
    ensures Total(ds + [d]) == Total(ds) + d.size
  {
    var ds' := ds + [d];
    assert ds'[..|ds'| - 1] == ds;
    forall i | 0 <= i < |ds'|
      ensures ds'[i].offset == Total(ds'[..i])
    {
      if i < |ds| {
        assert ds'[..i] == ds[..i];
      } else {
        assert ds'[..i] == ds;
      }
    }
  }

  /** The running total never decreases along the table. */
  lemma {:induction false} TotalMonotone(ds: seq<Decl>, i: nat, j: nat)
    requires i <= j <= |ds|
    ensures Total(ds[..i]) <= Total(ds[..j])
    decreases j - i
  {
    if i < j {
      TotalMonotone(ds, i, j - 1);
      assert ds[..j][..j - 1] == ds[..j - 1];
    }
  }

  /** The bytes of declaration i end where declaration i+1 begins. */
  lemma TotalStep(ds: seq<Decl>, i: nat)
    requires i < |ds|
    ensures Total(ds[..i + 1]) == Total(ds[..i]) + ds[i].size
  {
    assert ds[..i + 1][..i] == ds[..i];
  }

  /** In a contiguous table the bytes of each declaration lie inside
      [0, Total), and the bytes of an earlier declaration end at or before
      the start of a later one. */
  lemma DeclsTile(ds: seq<Decl>, i: nat, j: nat)
    requires Contiguous(ds) && i < |ds| && j < |ds|
    ensures ds[i].offset + ds[i].size <= Total(ds)
    ensures i < j ==> ds[i].offset + ds[i].size <= ds[j].offset
  {
    TotalStep(ds, i);
    assert ds[..|ds|] == ds;
    TotalMonotone(ds, i + 1, |ds|);
    if i < j {
      TotalMonotone(ds, i + 1, j);
    }
  }

  /** find_setting (settings.cpp:169-182): the lowest index whose tag is t,
      or -1 when no declaration has that tag. */
  function FindType(ds: seq<Decl>, t: Byte): (r: int)
    ensures -1 <= r < |ds|
    ensures 0 <= r ==> ds[r].tag == t && forall j :: 0 <= j < r ==> ds[j].tag != t
    ensures r == -1 ==> forall j :: 0 <= j < |ds| ==> ds[j].tag != t
  {
    FindFrom(ds, t, 0)
  }

  /** The search of find_setting from index i on. */
  function FindFrom(ds: seq<Decl>, t: Byte, i: nat): (r: int)
    requires i <= |ds|
    requires forall j :: 0 <= j < i ==> ds[j].tag != t
    ensures -1 <= r < |ds|
    ensures 0 <= r ==> i <= r && ds[r].tag == t && forall j :: 0 <= j < r ==> ds[j].tag != t
    ensures r == -1 ==> forall j :: 0 <= j < |ds| ==> ds[j].tag != t
    decreases |ds| - i
  {
    if i == |ds| then -1
    else if ds[i].tag == t then i
    else FindFrom(ds, t, i + 1)
  }

  /** The conversion of a uint8_t index to find_setting's int8_t result:
      indices from 128 on come out negative. */
  function AsInt8(i: int): (r: int)
    requires -128 <= i < 256
    ensures -128 <= r < 128
    ensures r % 256 == i % 256
  {
    if i < 128 then i else i - 256
  }

  /** The value of setting i in the value region `data`. */
  function ValueAt(ds: seq<Decl>, data: seq<Byte>, i: nat): (v: Value)
    requires Contiguous(ds) && |data| == Total(ds) && i < |ds|
    ensures v.size == ds[i].size == |v.data| && ds[i].offset + ds[i].size <= |data|
    ensures forall k :: 0 <= k < |v.data| ==> v.data[k] == data[ds[i].offset + k]
  {
    DeclsTile(ds, i, i);
    Value(ds[i].size, data[ds[i].offset .. ds[i].offset + ds[i].size])
  }

  /** `data` with the run starting at `off` overwritten by `bytes`: the
      overwritten positions hold the new bytes, all others the old ones. */
  function Splice(data: seq<Byte>, off: nat, bytes: seq<Byte>): (r: seq<Byte>)
    requires off + |bytes| <= |data|
    ensures |r| == |data|
    ensures forall j :: 0 <= j < |r| ==>
      r[j] == if off <= j < off + |bytes| then bytes[j - off] else data[j]
  {
    var r := data[..off] + bytes + data[off + |bytes|..];
    assert forall j :: off + |bytes| <= j < |r| ==> r[j] == data[off + |bytes|..][j - off - |bytes|];
    r
  }

  /** The value region with the bytes of setting i replaced. */
  function Assign(ds: seq<Decl>, data: seq<Byte>, i: nat, bytes: seq<Byte>): (r: seq<Byte>)
    requires Contiguous(ds) && |data| == Total(ds) && i < |ds| && |bytes| == ds[i].size
    ensures |r| == Total(ds)
    ensures forall j :: 0 <= j < |r| && !(ds[i].offset <= j < ds[i].offset + ds[i].size) ==> r[j] == data[j]
  {
    DeclsTile(ds, i, i);
    Splice(data, ds[i].offset, bytes)
  }

  /** Assign described byte by byte: the bytes of setting i are replaced,
      every other byte is kept. */
  lemma AssignPointwise(ds: seq<Decl>, data: seq<Byte>, i: nat, bytes: seq<Byte>, result: seq<Byte>)
    requires Contiguous(ds) && |data| == Total(ds) && i < |ds| && |bytes| == ds[i].size
    requires |result| == |data|
    requires forall j :: 0 <= j < |result| ==>
      result[j] == if ds[i].offset <= j < ds[i].offset + ds[i].size then bytes[j - ds[i].offset] else data[j]
    ensures result == Assign(ds, data, i, bytes)
  {
    DeclsTile(ds, i, i);
    var off := ds[i].offset;
    var expected := Splice(data, off, bytes);
    forall j | 0 <= j < |result|
      ensures result[j] == expected[j]
    {
      assert result[j] == if off <= j < off + |bytes| then bytes[j - off] else data[j];
    }
    assert result == expected;
  }

  /** Assigning setting i and reading a setting back: setting i reads as
      the assigned bytes, every other setting reads as before. */
  lemma AssignThenValueAt(ds: seq<Decl>, data: seq<Byte>, i: nat, bytes: seq<Byte>, j: nat)
    requires Contiguous(ds) && |data| == Total(ds) && i < |ds| && |bytes| == ds[i].size && j < |ds|
    ensures |Assign(ds, data, i, bytes)| == Total(ds)
    ensures ValueAt(ds, Assign(ds, data, i, bytes), j)
            == if j == i then Value(ds[i].size, bytes) else ValueAt(ds, data, j)
  {
    var after := Assign(ds, data, i, bytes);
    var oi, oj := ds[i].offset, ds[j].offset;
    DeclsTile(ds, i, j);
    DeclsTile(ds, j, i);
    if j == i {
      assert after[oi .. oi + ds[i].size] == bytes;
    } else {
      assert after[oj .. oj + ds[j].size] == data[oj .. oj + ds[j].size];
    }
  }
}
