/**
 * The protobufjs Reader and Writer that the generated codec drives: a reader is
 * a buffer with a cursor `pos` that every read advances, a writer is a growing
 * buffer that every write appends to. Each method is proved against the
 * corresponding function of module Wire.
 */
module WireIO {
  import opened Wire

  /** A value accumulated from the low varint groups read so far: the rest of the
      varint, once read, supplies the groups above them. */
  function Lift(rest: Result<Read<nat>>, acc: nat, scale: nat): Result<Read<nat>> {
    match rest
    case Err(e) => Err(e)
    case Ok(v) => Ok(Read(acc + scale * v.value, v.rest))
  }

  /** A byte with the high bit set contributes its low seven bits at `scale`;
      the rest of the varint starts one byte later, with one byte less to go. */
  lemma LiftStep(buf: Bytes, cur: nat, b: byte, budget: nat, acc: nat, scale: nat,
                 cur': nat, budget': nat, acc': nat, scale': nat, spec: Result<Read<nat>>)
    requires cur < |buf| && buf[cur] == b && 0 < budget && 128 <= b
    requires cur' == cur + 1 && budget' == budget - 1
    requires acc' == Shift(acc, scale, b - 128) && scale' == scale * 128
    requires Lift(ReadVarint(buf[cur..], budget), acc, scale) == spec
    ensures Lift(ReadVarint(buf[cur'..], budget'), acc', scale') == spec
  {
    assert buf[cur..][1..] == buf[cur'..];
    match ReadVarint(buf[cur'..], budget')
    case Err(e) =>
    case Ok(v) =>
      calc {
        acc + scale * ((b - 128) + 128 * v.value);
        acc + scale * (b - 128) + (scale * 128) * v.value;
      }
  }

  /** A byte without the high bit ends the varint, and `uint32()` keeps the low
      32 bits of the value accumulated with it. */
  lemma LiftLast(buf: Bytes, cur: nat, b: byte, budget: nat, acc: nat, scale: nat, value: nat, start: Bytes)
    requires cur < |buf| && buf[cur] == b && 0 < budget && b < 128
    requires value == Shift(acc, scale, b)
    requires Lift(ReadVarint(buf[cur..], budget), acc, scale) == ReadVarint(start, MAX_VARINT_BYTES)
    ensures ReadUint32(start) == Ok(Read(value % UINT32_LIMIT, buf[cur + 1..]))
  {
    assert buf[cur..][0] == b && buf[cur..][1..] == buf[cur + 1..];
  }

  /** The accumulated value with `low` added at `scale`. */
  function Shift(acc: nat, scale: nat, low: nat): nat {
    acc + scale * low
  }

  class Reader {
    const buf: Bytes
    var pos: nat

    predicate Valid()
      reads this
    {
      pos <= |buf|
    }

    /** The input not yet read. */
    function Rest(): Bytes
      requires Valid()
      reads this
    {
      buf[pos..]
    }

    /** `Reader.create(buffer)`: a reader at the start of `input`. */
    constructor (input: Bytes)
      ensures buf == input && pos == 0 && Valid() && Rest() == input
    {
      buf := input;
      pos := 0;
    }

    /** `uint32()`: reads a varint byte by byte and keeps its low 32 bits. */
    method Uint32() returns (r: Result<nat>)
      requires Valid()
      modifies this
      ensures Valid()
      ensures r.Ok? ==> ReadUint32(old(Rest())) == Ok(Read(r.value, Rest()))
      ensures r.Err? ==> ReadUint32(old(Rest())) == Err(r.error)
    {
      ghost var start := Rest();
      var cur: nat, budget: nat, acc: nat, scale: nat := pos, MAX_VARINT_BYTES, 0, 1;
      while cur < |buf| && 0 < budget && 128 <= buf[cur]
        invariant pos <= cur <= |buf| && start == buf[pos..]
        invariant Lift(ReadVarint(buf[cur..], budget), acc, scale) == ReadVarint(start, MAX_VARINT_BYTES)
        decreases budget
      {
        var b := buf[cur];
        ghost var cur0, budget0, acc0, scale0 := cur, budget, acc, scale;
        acc, scale := Shift(acc, scale, b - 128), scale * 128;
        cur, budget := cur + 1, budget - 1;
        LiftStep(buf, cur0, b, budget0, acc0, scale0, cur, budget, acc, scale, ReadVarint(start, MAX_VARINT_BYTES));
      }
      if cur == |buf| {
        r := Err(Truncated);
      } else if budget == 0 {
        r := Err(VarintTooLong);
      } else {
        var b := buf[cur];
        var value := Shift(acc, scale, b);
        LiftLast(buf, cur, b, budget, acc, scale, value, start);
        pos := cur + 1;
        r := Ok(value % UINT32_LIMIT);
      }
    }

    /** `bool()`: a `uint32` that is non-zero. */
    method Bool() returns (r: Result<bool>)
      requires Valid()
      modifies this
      ensures Valid()
      ensures r.Ok? ==> ReadBool(old(Rest())) == Ok(Read(r.value, Rest()))
      ensures r.Err? ==> ReadBool(old(Rest())) == Err(r.error)
    {
      var n := Uint32();
      match n
      case Err(e) => r := Err(e);
      case Ok(v) => r := Ok(v != 0);
    }

    /** `string()` and `bytes()`: a `uint32` length, then that many bytes, which
        must all lie in the buffer. */
    method String() returns (r: Result<Bytes>)
      requires Valid()
      modifies this
      ensures Valid()
      ensures r.Ok? ==> ReadBytes(old(Rest())) == Ok(Read(r.value, Rest()))
      ensures r.Err? ==> ReadBytes(old(Rest())) == Err(r.error)
    {
      var n := Uint32();
      match n
      case Err(e) => r := Err(e);
      case Ok(length) =>
        if length > |buf| - pos {
          r := Err(Truncated);
        } else {
          assert buf[pos..][..length] == buf[pos..pos + length];
          assert buf[pos..][length..] == buf[pos + length..];
          r := Ok(buf[pos..pos + length]);
          pos := pos + length;
        }
    }

    /** `skip()`: passes over one varint, whatever its length. */
    method SkipVarint() returns (r: Result<Bytes>)
      requires Valid()
      modifies this
      ensures Valid() && r == Wire.SkipVarint(old(Rest()))
      ensures r.Ok? ==> Rest() == r.value
    {
      ghost var start := Rest();
      while true
        invariant Valid() && Wire.SkipVarint(Rest()) == Wire.SkipVarint(start)
        decreases |buf| - pos
      {
        if pos == |buf| {
          return Err(Truncated);
        }
        var b := buf[pos];
        assert buf[pos..][1..] == buf[pos + 1..];
        pos := pos + 1;
        if b < 128 {
          return Ok(buf[pos..]);
        }
      }
    }

    /** `skip(n)`: passes over `n` bytes, all of which must be in the buffer. */
    method Skip(n: nat) returns (r: Result<Bytes>)
      requires Valid()
      modifies this
      ensures Valid() && r == SkipBytes(old(Rest()), n)
      ensures r.Ok? ==> Rest() == r.value
    {
      if n > |buf| - pos {
        r := Err(Truncated);
      } else {
        assert buf[pos..][n..] == buf[pos + n..];
        pos := pos + n;
        r := Ok(buf[pos..]);
      }
    }

    /** `skipType(wireType)`: passes over a field's payload, the reader being just
        after the field's tag. */
    method SkipType(wireType: nat) returns (r: Result<Bytes>)
      requires Valid()
      modifies this
      ensures Valid() && r == Wire.SkipType(old(Rest()), wireType)
      ensures r.Ok? ==> Rest() == r.value
      decreases |buf| - pos, 1
    {
      if wireType == VARINT {
        r := SkipVarint();
      } else if wireType == I64 {
        r := Skip(8);
      } else if wireType == LEN {
        var n := Uint32();
        match n
        case Err(e) => r := Err(e);
        case Ok(length) => r := Skip(length);
      } else if wireType == SGROUP {
        r := SkipGroup();
      } else if wireType == I32 {
        r := Skip(4);
      } else {
        r := Err(InvalidWireType(wireType));
      }
    }

    /** The group case of `skipType`: skips fields until an end-group tag. */
    method SkipGroup() returns (r: Result<Bytes>)
      requires Valid()
      modifies this
      ensures Valid() && r == Wire.SkipGroup(old(Rest()))
      ensures r.Ok? ==> Rest() == r.value
      decreases |buf| - pos, 0
    {
      ghost var start := Rest();
      while true
        invariant Valid() && old(pos) <= pos
        invariant Wire.SkipGroup(Rest()) == Wire.SkipGroup(start)
        decreases |buf| - pos
      {
        ghost var here := Rest();
        var tag := Uint32();
        if tag.Err? {
          return Err(tag.error);
        }
        if WireType(tag.value) == EGROUP {
          return Ok(buf[pos..]);
        }
        var skipped := SkipType(WireType(tag.value));
        if skipped.Err? {
          return Err(skipped.error);
        }
        assert Wire.SkipGroup(here) == Wire.SkipGroup(Rest());
      }
    }
  }

  class Writer {
    var buf: Bytes

    /** `Writer.create()`: an empty writer. */
    constructor ()
      ensures buf == []
    {
      buf := [];
    }

    /** `uint32(value)`: the low 32 bits of `value` as a varint, seven bits at a time. */
    method Uint32(value: nat)
      modifies this
      ensures buf == old(buf) + Varint(value % UINT32_LIMIT)
    {
      var v: nat := value % UINT32_LIMIT;
      while v > 127
        invariant old(buf) + Varint(value % UINT32_LIMIT) == buf + Varint(v)
      {
        buf := buf + [v % 128 + 128];
        v := v / 128;
      }
      buf := buf + [v];
    }

    /** `bool(value)`: a single byte, 1 or 0. */
    method Bool(value: bool)
      modifies this
      ensures buf == old(buf) + Varint(if value then 1 else 0)
    {
      buf := buf + [if value then 1 else 0];
    }

    /** `string(value)` and `bytes(value)`: the length, then the bytes. */
    method String(value: Bytes)
      modifies this
      ensures buf == old(buf) + LengthDelimited(value)
    {
      Uint32(|value|);
      buf := buf + value;
    }

    /** `finish()`: hands back everything written. */
    method Finish() returns (out: Bytes)
      ensures out == buf
    {
      out := buf;
    }
  }
}
