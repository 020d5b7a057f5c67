/**
 * The Protocol Buffers binary wire format as the generated codec uses it through
 * the protobufjs Reader and Writer: base 128 varints, tags made of a field number
 * and a wire type, length-delimited byte strings, and the skipping of fields a
 * decoder does not know (Protocol Buffers "Encoding" guide, sections "Base 128
 * Varints", "Message Structure" and "Length-Delimited Records").
 *
 * Every reading function takes the input that is still unread and yields the
 * value read together with what remains after it; the reader's `pos` cursor is
 * the length of the buffer minus the length of what remains.
 */
module Wire {

  type byte = x: int | 0 <= x < 256
  type Bytes = seq<byte>

  /** protobufjs's `uint32` keeps the low 32 bits of what it reads or writes (`>>> 0`). */
  const UINT32_LIMIT: nat := 0x1_0000_0000
  /** A varint never takes more than ten bytes, the size of a 64-bit value. */
  const MAX_VARINT_BYTES: nat := 10
  /** Varint payloads are 64-bit values. */
  const UINT64_LIMIT: nat := 0x1_0000_0000_0000_0000

  // Wire types
  const VARINT: nat := 0
  const I64: nat := 1
  const LEN: nat := 2
  const SGROUP: nat := 3
  const EGROUP: nat := 4
  const I32: nat := 5

  /** A tag is the varint `(field_number << 3) | wire_type`. */
  function Tag(field: nat, wireType: nat): (t: nat)
    requires wireType < 8
    ensures FieldNumber(t) == field && WireType(t) == wireType
  {
    field * 8 + wireType
  }

  /** `tag >>> 3` */
  function FieldNumber(tag: nat): nat { tag / 8 }

  /** `tag & 7` */
  function WireType(tag: nat): nat { tag % 8 }

  datatype DecodeError =
    | Truncated                    // a read runs past the end of the buffer
    | VarintTooLong                // a varint longer than ten bytes
    | InvalidWireType(wireType: nat)

  datatype Result<T> = Ok(value: T) | Err(error: DecodeError)

  /** A value read, with the input that remains after it. */
  datatype Read<T> = Read(value: T, rest: Bytes)

  /** What a read yields to a caller that does not look at the input left over. */
  function Outcome<T>(r: Result<Read<T>>): Result<T> {
    match r
    case Ok(v) => Ok(v.value)
    case Err(e) => Err(e)
  }

  // ---------------------------------------------------------------- varints

  /** Base 128 varint: seven bits per byte, least significant group first,
      the high bit set on every byte but the last. */
  function Varint(v: nat): (r: Bytes)
    ensures 0 < |r|
    decreases v
  {
    if v < 128 then [v] else [v % 128 + 128] + Varint(v / 128)
  }

  /** Reads a varint of at most `budget` bytes. */
  function ReadVarint(input: Bytes, budget: nat): (r: Result<Read<nat>>)
    ensures r.Ok? ==> |r.value.rest| < |input| && |input| <= |r.value.rest| + budget
    decreases budget
  {
    if |input| == 0 then Err(Truncated)
    else if budget == 0 then Err(VarintTooLong)
    else if input[0] < 128 then Ok(Read(input[0], input[1..]))
    else
      match ReadVarint(input[1..], budget - 1)
      case Err(e) => Err(e)
      case Ok(high) => Ok(Read(input[0] - 128 + 128 * high.value, high.rest))
  }

  /** The reader's `uint32()`: a varint, truncated to its low 32 bits. */
  function ReadUint32(input: Bytes): (r: Result<Read<nat>>)
    ensures r.Ok? ==> r.value.value < UINT32_LIMIT && |r.value.rest| < |input|
  {
    match ReadVarint(input, MAX_VARINT_BYTES)
    case Err(e) => Err(e)
    case Ok(v) => Ok(Read(v.value % UINT32_LIMIT, v.rest))
  }

  /** The reader's `bool()`: any non-zero `uint32` is true. */
  function ReadBool(input: Bytes): (r: Result<Read<bool>>)
    ensures r.Ok? <==> ReadUint32(input).Ok?
    ensures r.Ok? ==> r.value == Read(ReadUint32(input).value.value != 0, ReadUint32(input).value.rest)
  {
    match ReadUint32(input)
    case Err(e) => Err(e)
    case Ok(v) => Ok(Read(v.value != 0, v.rest))
  }

  /** What the writer's `bytes()` and `string()` append: the length as a `uint32`
      varint (so only its low 32 bits), then the bytes themselves. */
  function LengthDelimited(s: Bytes): (r: Bytes)
    ensures |r| == |Varint(|s| % UINT32_LIMIT)| + |s| && r[|r| - |s|..] == s
  {
    Varint(|s| % UINT32_LIMIT) + s
  }

  /** The reader's `bytes()` (and `string()`, strings being kept as their bytes):
      a `uint32` length, then that many bytes, which must all be in the input. */
  function ReadBytes(input: Bytes): (r: Result<Read<Bytes>>)
    ensures r.Ok? ==> |r.value.rest| < |input|
    ensures r.Ok? <==> ReadUint32(input).Ok? && ReadUint32(input).value.value <= |ReadUint32(input).value.rest|
    ensures r.Ok? ==> r.value.value + r.value.rest == ReadUint32(input).value.rest
    ensures r.Ok? ==> |r.value.value| == ReadUint32(input).value.value
  {
    match ReadUint32(input)
    case Err(e) => Err(e)
    case Ok(n) =>
      if n.value > |n.rest| then Err(Truncated)
      else Ok(Read(n.rest[..n.value], n.rest[n.value..]))
  }

  // --------------------------------------------------------------- skipping

  /** Skips one varint, whatever its length. */
  function SkipVarint(input: Bytes): (r: Result<Bytes>)
    ensures r.Ok? ==> |r.value| < |input|
    decreases |input|
  {
    if |input| == 0 then Err(Truncated)
    else if input[0] < 128 then Ok(input[1..])
    else SkipVarint(input[1..])
  }

  /** Skips `n` bytes, all of which must be in the input. */
  function SkipBytes(input: Bytes, n: nat): (r: Result<Bytes>)
    ensures r.Ok? <==> n <= |input|
    ensures r.Ok? ==> r.value == input[n..]
  {
    if n > |input| then Err(Truncated) else Ok(input[n..])
  }

  /** The reader's `skipType(wireType)`, just after the tag. */
  function SkipType(input: Bytes, wireType: nat): (r: Result<Bytes>)
    ensures r.Ok? ==> |r.value| <= |input|
    decreases |input|, 1
  {
    if wireType == VARINT then SkipVarint(input)
    else if wireType == I64 then SkipBytes(input, 8)
    else if wireType == LEN then
      match ReadUint32(input)
      case Err(e) => Err(e)
      case Ok(n) => SkipBytes(n.rest, n.value)
    else if wireType == SGROUP then SkipGroup(input)
    else if wireType == I32 then SkipBytes(input, 4)
    else Err(InvalidWireType(wireType))
  }

  /** Skips the fields of a group up to and including its end-group tag. */
  function SkipGroup(input: Bytes): (r: Result<Bytes>)
    ensures r.Ok? ==> |r.value| < |input|
    decreases |input|, 0
  {
    match ReadUint32(input)
    case Err(e) => Err(e)
    case Ok(t) =>
      if WireType(t.value) == EGROUP then Ok(t.rest)
      else
        match SkipType(t.rest, WireType(t.value))
        case Err(e) => Err(e)
        case Ok(after) => SkipGroup(after)
  }

  // ------------------------------------------------------- whole records

  /** A field record as a decoder that does not know its number meets it. */
  datatype Record =
    | VarintRecord(field: nat, number: nat)
    | I64Record(field: nat, data: Bytes)
    | LenRecord(field: nat, data: Bytes)
    | GroupRecord(field: nat, members: seq<Record>)
    | I32Record(field: nat, data: Bytes)

  function RecordWireType(r: Record): (w: nat)
    ensures w < 8 && w != EGROUP
  {
    match r
    case VarintRecord(_, _) => VARINT
    case I64Record(_, _) => I64
    case LenRecord(_, _) => LEN
    case GroupRecord(_, _) => SGROUP
    case I32Record(_, _) => I32
  }

  function RecordTag(r: Record): nat {
    Tag(r.field, RecordWireType(r))
  }

  /** A record's field number is at least 1, its tag fits in 32 bits, and its
      payload has the size its wire type prescribes. */
  predicate WellFormedRecord(r: Record)
    decreases r
  {
    && 1 <= r.field
    && RecordTag(r) < UINT32_LIMIT
    && match r
       case VarintRecord(_, n) => n < UINT64_LIMIT
       case I64Record(_, data) => |data| == 8
       case LenRecord(_, data) => |data| < UINT32_LIMIT
       case GroupRecord(f, members) => Tag(f, EGROUP) < UINT32_LIMIT && WellFormed(members)
       case I32Record(_, data) => |data| == 4
  }

  predicate WellFormed(rs: seq<Record>)
    decreases rs
  {
    rs == [] || (WellFormedRecord(rs[0]) && WellFormed(rs[1..]))
  }

  /** A record's bytes: its tag, then its payload. */
  function RecordBytes(r: Record): Bytes
    decreases r, 1
  {
    Varint(RecordTag(r)) + Payload(r)
  }

  /** What follows a record's tag. */
  function Payload(r: Record): Bytes
    decreases r, 0
  {
    match r
    case VarintRecord(_, n) => Varint(n)
    case I64Record(_, data) => data
    case LenRecord(_, data) => LengthDelimited(data)
    case GroupRecord(f, members) => RecordsBytes(members) + Varint(Tag(f, EGROUP))
    case I32Record(_, data) => data
  }

  /** The bytes of the records `rs`, one after another. */
  function RecordsBytes(rs: seq<Record>): Bytes
    decreases rs
  {
    if rs == [] then [] else RecordBytes(rs[0]) + RecordsBytes(rs[1..])
  }

  // ----------------------------------------------------------------- lemmas

  lemma Associative(a: Bytes, b: Bytes, c: Bytes)
    ensures (a + b) + c == a + (b + c)
  {
  }

  ghost function Pow128(k: nat): nat {
    if k == 0 then 1 else 128 * Pow128(k - 1)
  }

  /** A value below 128^k takes at most k varint bytes. */
  lemma {:induction false} VarintLengthBound(v: nat, k: nat)
    requires 1 <= k && v < Pow128(k)
    ensures |Varint(v)| <= k
    decreases k
  {
    if v >= 128 {
      assert Pow128(k) == 128 * Pow128(k - 1);
      assert k != 1;
      VarintLengthBound(v / 128, k - 1);
    }
  }

  /** A 32-bit value takes at most five varint bytes, well inside the ten a reader accepts. */
  lemma VarintLength32(v: nat)
    requires v < UINT32_LIMIT
    ensures |Varint(v)| <= 5
  {
    assert Pow128(5) == 0x8_0000_0000;
    VarintLengthBound(v, 5);
  }

  /** A 64-bit value takes at most ten varint bytes. */
  lemma VarintLength64(v: nat)
    requires v < UINT64_LIMIT
    ensures |Varint(v)| <= MAX_VARINT_BYTES
  {
    assert Pow128(10) == 0x40_0000_0000_0000_0000;
    VarintLengthBound(v, 10);
  }

  /** The first byte of a varint and the bytes after it, followed by more input. */
  lemma VarintSplit(v: nat, tail: Bytes)
    ensures v < 128 ==> (Varint(v) + tail)[0] == v && (Varint(v) + tail)[1..] == tail
    ensures v >= 128 ==> (Varint(v) + tail)[0] == v % 128 + 128
    ensures v >= 128 ==> (Varint(v) + tail)[1..] == Varint(v / 128) + tail
  {
    if v >= 128 {
      assert Varint(v) + tail == [v % 128 + 128] + (Varint(v / 128) + tail);
    }
  }

  /** Reading back a varint yields the value written and the input after it. */
  lemma {:induction false} ReadVarintOfVarint(v: nat, tail: Bytes, budget: nat)
    requires |Varint(v)| <= budget
    ensures ReadVarint(Varint(v) + tail, budget) == Ok(Read(v, tail))
    decreases v
  {
    VarintSplit(v, tail);
    if v >= 128 {
      ReadVarintOfVarint(v / 128, tail, budget - 1);
    }
  }

  lemma ReadUint32OfVarint(v: nat, tail: Bytes)
    requires v < UINT32_LIMIT
    ensures ReadUint32(Varint(v) + tail) == Ok(Read(v, tail))
  {
    VarintLength32(v);
    ReadVarintOfVarint(v, tail, MAX_VARINT_BYTES);
    assert v % UINT32_LIMIT == v;
  }

  /** A 64-bit varint fits the reader's ten bytes; `uint32()` keeps its low 32 bits. */
  lemma ReadUint32OfVarint64(v: nat, tail: Bytes)
    requires v < UINT64_LIMIT
    ensures ReadUint32(Varint(v) + tail) == Ok(Read(v % UINT32_LIMIT, tail))
  {
    VarintLength64(v);
    ReadVarintOfVarint(v, tail, MAX_VARINT_BYTES);
  }

  lemma ReadBoolOfVarint(b: bool, tail: Bytes)
    ensures ReadBool(Varint(if b then 1 else 0) + tail) == Ok(Read(b, tail))
  {
    ReadUint32OfVarint(if b then 1 else 0, tail);
  }

  lemma ReadBytesOfLengthDelimited(s: Bytes, tail: Bytes)
    requires |s| < UINT32_LIMIT
    ensures ReadBytes(LengthDelimited(s) + tail) == Ok(Read(s, tail))
  {
    var n := |s| % UINT32_LIMIT;
    assert n == |s| && LengthDelimited(s) + tail == Varint(n) + (s + tail);
    ReadUint32OfVarint(n, s + tail);
    assert (s + tail)[..n] == s && (s + tail)[n..] == tail;
  }

  lemma {:induction false} SkipVarintOfVarint(v: nat, tail: Bytes)
    ensures SkipVarint(Varint(v) + tail) == Ok(tail)
    decreases v
  {
    VarintSplit(v, tail);
    if v >= 128 {
      SkipVarintOfVarint(v / 128, tail);
    }
  }

  /** A decoder skipping a well-formed record reads its tag, then skips the
      payload, and stops exactly at the record's end. */
  lemma SkipRecord(r: Record, tail: Bytes)
    requires WellFormedRecord(r)
    ensures ReadUint32(RecordBytes(r) + tail) == Ok(Read(RecordTag(r), Payload(r) + tail))
    ensures WireType(RecordTag(r)) == RecordWireType(r)
    ensures SkipType(Payload(r) + tail, RecordWireType(r)) == Ok(tail)
    decreases r, 2
  {
    var tag, payload := RecordTag(r), Payload(r);
    assert RecordBytes(r) == Varint(tag) + payload;
    Associative(Varint(tag), payload, tail);
    ReadUint32OfVarint(tag, payload + tail);
    SkipPayload(r, tail);
  }

  lemma {:induction false} SkipPayload(r: Record, tail: Bytes)
    requires WellFormedRecord(r)
    ensures SkipType(Payload(r) + tail, RecordWireType(r)) == Ok(tail)
    decreases r, 1
  {
    if r.VarintRecord? {
      SkipVarintPayload(r, tail);
    } else if r.LenRecord? {
      SkipLenPayload(r, tail);
    } else if r.GroupRecord? {
      SkipGroupPayload(r, tail);
    } else {
      SkipFixedPayload(r, tail);
    }
  }

  lemma SkipVarintPayload(r: Record, tail: Bytes)
    requires r.VarintRecord?
    ensures SkipType(Payload(r) + tail, RecordWireType(r)) == Ok(tail)
  {
    assert RecordWireType(r) == VARINT && Payload(r) == Varint(r.number);
    SkipVarintOfVarint(r.number, tail);
  }

  lemma SkipFixedPayload(r: Record, tail: Bytes)
    requires (r.I64Record? && |r.data| == 8) || (r.I32Record? && |r.data| == 4)
    ensures SkipType(Payload(r) + tail, RecordWireType(r)) == Ok(tail)
  {
    assert Payload(r) == r.data;
    assert (r.data + tail)[|r.data|..] == tail;
  }

  lemma SkipLenPayload(r: Record, tail: Bytes)
    requires r.LenRecord? && |r.data| < UINT32_LIMIT
    ensures SkipType(Payload(r) + tail, RecordWireType(r)) == Ok(tail)
  {
    var n := |r.data| % UINT32_LIMIT;
    assert RecordWireType(r) == LEN && n == |r.data|;
    assert Payload(r) + tail == Varint(n) + (r.data + tail);
    ReadUint32OfVarint(n, r.data + tail);
    assert (r.data + tail)[n..] == tail;
  }

  lemma SkipGroupPayload(r: Record, tail: Bytes)
    requires r.GroupRecord? && WellFormed(r.members) && Tag(r.field, EGROUP) < UINT32_LIMIT
    ensures SkipType(Payload(r) + tail, RecordWireType(r)) == Ok(tail)
    decreases r, 0
  {
    assert RecordWireType(r) == SGROUP;
    SkipGroupOf(r.members, r.field, tail);
  }

  /** Skipping a group consumes its members and its end-group tag. */
  lemma {:induction false} SkipGroupOf(members: seq<Record>, f: nat, tail: Bytes)
    requires WellFormed(members) && Tag(f, EGROUP) < UINT32_LIMIT
    ensures SkipGroup(RecordsBytes(members) + Varint(Tag(f, EGROUP)) + tail) == Ok(tail)
    decreases members, 1
  {
    if members == [] {
      assert RecordsBytes(members) + Varint(Tag(f, EGROUP)) + tail == Varint(Tag(f, EGROUP)) + tail;
      SkipGroupClose(f, tail);
    } else {
      SkipGroupMembers(members, f, tail);
    }
  }

  /** The first member of a group is passed over, and the others after it. */
  lemma {:induction false} SkipGroupMembers(members: seq<Record>, f: nat, tail: Bytes)
    requires members != [] && WellFormed(members) && Tag(f, EGROUP) < UINT32_LIMIT
    ensures SkipGroup(RecordsBytes(members) + Varint(Tag(f, EGROUP)) + tail) == Ok(tail)
    decreases members, 0
  {
    var first, others, close := RecordBytes(members[0]), RecordsBytes(members[1..]), Varint(Tag(f, EGROUP));
    var after := others + close + tail;
    assert RecordsBytes(members) == first + others;
    Associative(first, others, close);
    Associative(first, others + close, tail);
    SkipGroupOf(members[1..], f, tail);
    SkipGroupRecord(members[0], after, Ok(tail));
  }

  /** An end-group tag ends the group-skipping loop. */
  lemma SkipGroupClose(f: nat, tail: Bytes)
    requires Tag(f, EGROUP) < UINT32_LIMIT
    ensures SkipGroup(Varint(Tag(f, EGROUP)) + tail) == Ok(tail)
  {
    ReadUint32OfVarint(Tag(f, EGROUP), tail);
    assert WireType(Tag(f, EGROUP)) == EGROUP;
  }

  /** Inside a group, a well-formed record is passed over as a whole. */
  lemma SkipGroupRecord(r: Record, tail: Bytes, result: Result<Bytes>)
    requires WellFormedRecord(r) && SkipGroup(tail) == result
    ensures SkipGroup(RecordBytes(r) + tail) == result
    decreases r, 3
  {
    SkipRecord(r, tail);
  }
}
