/** Headers, references and records of the reference database (farms/farm-sdk/src/refdb.rs). */
module Records {
  import opened Basics
  import opened Bytes
  import opened Pack

  datatype ReferenceType = PubkeyType | U8Type | U16Type | U32Type | U64Type | F64Type | EmptyType {
    function Size(): (n: nat)
      ensures n <= 32
    {
      match this
      case PubkeyType => 32
      case U8Type => 1
      case U16Type => 2
      case U32Type => 4
      case U64Type => 8
      case F64Type => 8
      case EmptyType => 0
    }

    /** Bytes of one record with a reference of this type. */
    function SlotSize(): (n: nat)
      ensures NO_REF_LEN <= n <= MAX_RECORD_LEN
    {
      NO_REF_LEN + Size()
    }

    function ToByte(): (b: byte)
    {
      match this
      case PubkeyType => 0
      case U8Type => 1
      case U16Type => 2
      case U32Type => 3
      case U64Type => 4
      case F64Type => 5
      case EmptyType => 6
    }
  }

  const NO_REF_LEN: nat := 68
  const MAX_RECORD_LEN: nat := 100

  function TypeFromByte(b: byte): (r: Result<ReferenceType>)
    ensures r.Ok? <==> b <= 6
    ensures r.Ok? ==> r.value.ToByte() == b
  {
    if b == 0 then Ok(PubkeyType)
    else if b == 1 then Ok(U8Type)
    else if b == 2 then Ok(U16Type)
    else if b == 3 then Ok(U32Type)
    else if b == 4 then Ok(U64Type)
    else if b == 5 then Ok(F64Type)
    else if b == 6 then Ok(EmptyType)
    else Err(InvalidAccountData)
  }

  lemma TypeRoundTrip(t: ReferenceType)
    ensures TypeFromByte(t.ToByte()) == Ok(t)
  {
    match t case PubkeyType => case U8Type => case U16Type => case U32Type => case U64Type => case F64Type => case EmptyType =>
  }

  /** The fixed-size value of a record. Floating point numbers are their eight bytes. */
  datatype Reference =
    | Pubkey(key: seq<byte>)
    | U8(v8: byte)
    | U16(v16: u16)
    | U32(v32: u32)
    | U64(v64: u64)
    | F64(bits: seq<byte>)
    | Empty
  {
    function Type(): ReferenceType
    {
      match this
      case Pubkey(_) => PubkeyType
      case U8(_) => U8Type
      case U16(_) => U16Type
      case U32(_) => U32Type
      case U64(_) => U64Type
      case F64(_) => F64Type
      case Empty => EmptyType
    }

    predicate Valid()
    {
      (Pubkey? ==> |key| == 32) && (F64? ==> |bits| == 8)
    }

    function Packed(): (b: seq<byte>)
      requires Valid()
      ensures |b| == Type().Size()
    {
      match this
      case Pubkey(key) => key
      case U8(v) => LeBytes(v, 1)
      case U16(v) => LeBytes(v, 2)
      case U32(v) => LeBytes(v, 4)
      case U64(v) => LeBytes(v, 8)
      case F64(bits) => bits
      case Empty => []
    }
  }

  function UnpackReference(t: ReferenceType, b: seq<byte>): (r: Reference)
    requires |b| == t.Size()
    ensures r.Type() == t && r.Valid()
  {
    LeBytesOfNat(b); Pow256Values();
    match t
    case PubkeyType => Pubkey(b)
    case U8Type => U8(LeNat(b))
    case U16Type => U16(LeNat(b))
    case U32Type => U32(LeNat(b))
    case U64Type => U64(LeNat(b))
    case F64Type => F64(b)
    case EmptyType => Empty
  }

  /** The code and the size of every reference type. */
  lemma TypeCodes()
    ensures TypeFromByte(0) == Ok(PubkeyType) && TypeFromByte(1) == Ok(U8Type) && TypeFromByte(2) == Ok(U16Type)
    ensures TypeFromByte(3) == Ok(U32Type) && TypeFromByte(4) == Ok(U64Type) && TypeFromByte(5) == Ok(F64Type)
    ensures TypeFromByte(6) == Ok(EmptyType)
    ensures PubkeyType.SlotSize() == 100 && U8Type.SlotSize() == 69 && U16Type.SlotSize() == 70 && U32Type.SlotSize() == 72
    ensures U64Type.SlotSize() == 76 && F64Type.SlotSize() == 76 && EmptyType.SlotSize() == 68
  {
  }

  /** The number a reference holds, if it holds one. */
  predicate IsNumber(r: Reference, v: nat)
  {
    (r.U8? && r.v8 == v) || (r.U16? && r.v16 == v) || (r.U32? && r.v32 == v) || (r.U64? && r.v64 == v)
  }

  /** Every byte of a packed reference: a number has its lowest byte first, the others are their own bytes. */
  lemma PackedBytes(r: Reference, v: nat)
    requires r.Valid()
    ensures IsNumber(r, v) ==> forall k :: 0 <= k < r.Type().Size() ==> r.Packed()[k] == v / Pow256(k) % 0x100
    ensures r.Pubkey? ==> r.Packed() == r.key
    ensures r.F64? ==> r.Packed() == r.bits
    ensures r.Empty? ==> r.Packed() == []
  {
    if IsNumber(r, v) {
      forall k | 0 <= k < r.Type().Size() ensures r.Packed()[k] == v / Pow256(k) % 0x100 {
        LeByteAt(v, r.Type().Size(), k);
      }
    }
  }

  /** References of one type and byte strings of its size are in bijection. */
  lemma ReferenceRoundTrip(r: Reference)
    requires r.Valid()
    ensures UnpackReference(r.Type(), r.Packed()) == r
  {
    Pow256Values();
    match r
    case Pubkey(_) =>
    case U8(v) => LeNatOfBytes(v, 1);
    case U16(v) => LeNatOfBytes(v, 2);
    case U32(v) => LeNatOfBytes(v, 4);
    case U64(v) => LeNatOfBytes(v, 8);
    case F64(_) =>
    case Empty =>
  }

  lemma ReferenceBytesRoundTrip(t: ReferenceType, b: seq<byte>)
    requires |b| == t.Size()
    ensures UnpackReference(t, b).Packed() == b
  {
    LeBytesOfNat(b);
  }

  datatype Record = Record(index: Option<u32>, counter: u16, tag: u16, name: ArrayString64, reference: Reference) {
    function Size(): (n: nat)
    {
      reference.Type().SlotSize()
    }
  }

  /** The bytes packing a record leaves in a slot whose name field was `field`. */
  function SlotBytes(counter: u16, tag: u16, name: seq<byte>, field: seq<byte>, reference: Reference): (b: seq<byte>)
    requires |name| <= NAME_LEN == |field| && reference.Valid()
    ensures |b| == reference.Type().SlotSize()
  {
    LeBytes(counter, 2) + LeBytes(tag, 2) + Overlaid(name, field) + reference.Packed()
  }

  /** Where the fields of a packed record are: counter, tag, name and reference at bytes 0, 2, 4 and 68. */
  lemma RecordLayout(counter: u16, tag: u16, name: seq<byte>, field: seq<byte>, reference: Reference)
    requires |name| <= NAME_LEN == |field| && reference.Valid()
    ensures var b := SlotBytes(counter, tag, name, field, reference);
            && b[0] == counter % 0x100 && b[1] == counter / 0x100 && b[2] == tag % 0x100 && b[3] == tag / 0x100
            && (forall k :: 0 <= k < |name| ==> b[4 + k] == name[k])
            && (forall k :: |name| <= k < 64 ==> b[4 + k] == field[k])
            && (forall k :: 0 <= k < reference.Type().Size() ==> b[68 + k] == reference.Packed()[k])
  {
    LeByteAt(counter, 2, 0); LeByteAt(counter, 2, 1);
    LeByteAt(tag, 2, 0); LeByteAt(tag, 2, 1);
  }

  /** `Record::pack` into `data[offset..]`. */
  method PackRecord(record: Record, data: array<byte>, offset: nat) returns (r: Result<nat>)
    requires offset <= data.Length && record.reference.Valid()
    modifies data
    ensures r.Ok? <==> offset + record.Size() <= data.Length
    ensures r.Ok? ==> r.value == record.Size() &&
                      data[..] == Splice(old(data[..]), offset,
                                         SlotBytes(record.counter, record.tag, record.name,
                                                   old(data[..])[offset + 4..offset + NO_REF_LEN], record.reference))
    ensures r.Err? ==> r.error == AccountDataTooSmall && data[..] == old(data[..])
  {
    var size := record.Size();
    var _ :- CheckDataLen(data.Length - offset, size);
    ghost var d := data[..];
    ghost var field := d[offset + 4..offset + NO_REF_LEN];
    ghost var fixed := LeBytes(record.counter, 2) + LeBytes(record.tag, 2);
    CopyInto(data, offset, LeBytes(record.counter, 2));
    CopyInto(data, offset + 2, LeBytes(record.tag, 2));
    SpliceAdjacent(d, offset, LeBytes(record.counter, 2), LeBytes(record.tag, 2));
    SpliceElsewhere(d, offset, fixed, offset + 4, offset + NO_REF_LEN);
    assert data[offset + 4..offset + NO_REF_LEN] == data[..][offset + 4..offset + NO_REF_LEN] == field;
    PackArrayString64(record.name, data, offset + 4);
    SpliceAdjacent(d, offset, fixed, Overlaid(record.name, field));
    CopyInto(data, offset + NO_REF_LEN, record.reference.Packed());
    SpliceAdjacent(d, offset, fixed + Overlaid(record.name, field), record.reference.Packed());
    return Ok(size);
  }

  /** `Record::unpack_counter` of `data[offset..]`. */
  function UnpackCounter(d: seq<byte>): (r: Result<u16>)
    ensures r.Ok? <==> NO_REF_LEN <= |d|
  {
    var _ :- CheckDataLen(|d|, NO_REF_LEN);
    LeBytesOfNat(d[0..2]); Pow256Values();
    Ok(LeNat(d[0..2]))
  }

  function UnpackCounterAndName(d: seq<byte>): (r: Result<(u16, ArrayString64)>)
    ensures r.Ok? ==> NO_REF_LEN <= |d| && UnpackCounter(d) == Ok(r.value.0)
  {
    var counter :- UnpackCounter(d);
    var name :- UnpackArrayString64(d[4..NO_REF_LEN]);
    Ok((counter, name))
  }

  function UnpackRecord(d: seq<byte>, t: ReferenceType, index: Option<u32>): (r: Result<Record>)
    ensures r.Ok? ==> r.value.index == index && r.value.reference.Type() == t && r.value.reference.Valid()
  {
    var _ :- CheckDataLen(|d|, t.SlotSize());
    LeBytesOfNat(d[0..2]); LeBytesOfNat(d[2..4]); Pow256Values();
    var name :- UnpackArrayString64(d[4..NO_REF_LEN]);
    Ok(Record(index, LeNat(d[0..2]), LeNat(d[2..4]), name, UnpackReference(t, d[NO_REF_LEN..t.SlotSize()])))
  }

  /** A record packed into a clean slot, whatever bytes follow, unpacks to itself. */
  lemma RecordRoundTrip(record: Record, field: seq<byte>, after: seq<byte>)
    requires record.reference.Valid() && |field| == NAME_LEN
    requires NulFree(record.name) && (|record.name| < NAME_LEN ==> field[|record.name|] == 0)
    ensures UnpackRecord(SlotBytes(record.counter, record.tag, record.name, field, record.reference) + after,
                         record.reference.Type(), record.index) == Ok(record)
  {
    var b := SlotBytes(record.counter, record.tag, record.name, field, record.reference);
    var d := b + after;
    assert d[0..2] == LeBytes(record.counter, 2);
    assert d[2..4] == LeBytes(record.tag, 2);
    assert d[4..NO_REF_LEN] == Overlaid(record.name, field);
    assert d[NO_REF_LEN..record.Size()] == record.reference.Packed();
    Pow256Values();
    LeNatOfBytes(record.counter, 2);
    LeNatOfBytes(record.tag, 2);
    NameRoundTrip(record.name, field);
    ReferenceRoundTrip(record.reference);
  }
}
