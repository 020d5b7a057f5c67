/**
 * What the decode loops of `address.proto` promise, proved on the functions
 * `ReadRequest` and `ReadResponse` that the decode methods are proved to follow.
 *
 * A decoder meets a sequence of field records (module Wire); decoding them is
 * a left fold that sets a field for each record carrying a known tag and skips
 * every other record. From that fold follow the round trips of `encode` and
 * `decode`, the last-one-wins merge of concatenated messages, the skipping of
 * unknown fields, the early stop at a zero or end-group tag, and the errors on
 * truncated input.
 */
module AddressProtoLaws {
  import opened Wrappers
  import opened Wire
  import opened AddressProto

  // ------------------------------------------------------------ the folds

  /** What `AddressRequest.decode` does with one record: a length-delimited
      field 1 (tag 10) sets the address; any other record is skipped. */
  function ApplyRequestRecord(r: Record, m: AddressRequest): AddressRequest {
    if r.LenRecord? && r.field == 1 then m.(address := r.data) else m
  }

  function ApplyRequest(rs: seq<Record>, m: AddressRequest): AddressRequest
    decreases |rs|
  {
    if rs == [] then m else ApplyRequest(rs[1..], ApplyRequestRecord(rs[0], m))
  }

  /** What `AddressResponse.decode` does with one record: a varint field 1 (tag 8)
      sets `isValid` to whether its low 32 bits are non-zero, a length-delimited
      field 2 (tag 18) sets the normalized address; any other record is skipped. */
  function ApplyResponseRecord(r: Record, m: AddressResponse): AddressResponse {
    if r.VarintRecord? && r.field == 1 then m.(isValid := r.number % UINT32_LIMIT != 0)
    else if r.LenRecord? && r.field == 2 then m.(normalizedAddress := r.data)
    else m
  }

  function ApplyResponse(rs: seq<Record>, m: AddressResponse): AddressResponse
    decreases |rs|
  {
    if rs == [] then m else ApplyResponse(rs[1..], ApplyResponseRecord(rs[0], m))
  }

  /** The records `AddressRequest.encode` writes. */
  function RequestRecords(m: AddressRequest): seq<Record> {
    if m.address != [] then [LenRecord(1, m.address)] else []
  }

  /** The records `AddressResponse.encode` writes. */
  function ResponseRecords(m: AddressResponse): seq<Record> {
    (if m.isValid then [VarintRecord(1, 1)] else [])
    + (if m.normalizedAddress != [] then [LenRecord(2, m.normalizedAddress)] else [])
  }

  /** A request can be encoded when its address has a 32-bit length. */
  predicate EncodableRequest(m: AddressRequest) {
    |m.address| < UINT32_LIMIT
  }

  /** A response can be encoded when its normalized address has a 32-bit length. */
  predicate EncodableResponse(m: AddressResponse) {
    |m.normalizedAddress| < UINT32_LIMIT
  }

  // ------------------------------------------------------------ records and folds

  /** The bytes of two record sequences, one after the other. */
  lemma {:induction false} RecordsBytesAppend(rs: seq<Record>, qs: seq<Record>)
    ensures RecordsBytes(rs + qs) == RecordsBytes(rs) + RecordsBytes(qs)
    decreases |rs|
  {
    if rs == [] {
      assert rs + qs == qs;
    } else {
      assert (rs + qs)[0] == rs[0] && (rs + qs)[1..] == rs[1..] + qs;
      assert RecordsBytes(rs + qs) == RecordBytes(rs[0]) + RecordsBytes(rs[1..] + qs);
      RecordsBytesAppend(rs[1..], qs);
      Associative(RecordBytes(rs[0]), RecordsBytes(rs[1..]), RecordsBytes(qs));
    }
  }

  lemma AppendEmpty(a: Bytes)
    ensures a + [] == a
  {
  }

  lemma {:induction false} WellFormedAppend(rs: seq<Record>, qs: seq<Record>)
    requires WellFormed(rs) && WellFormed(qs)
    ensures WellFormed(rs + qs)
    decreases |rs|
  {
    if rs != [] {
      assert (rs + qs)[0] == rs[0] && (rs + qs)[1..] == rs[1..] + qs;
      WellFormedAppend(rs[1..], qs);
    } else {
      assert rs + qs == qs;
    }
  }

  lemma {:induction false} ApplyRequestAppend(rs: seq<Record>, qs: seq<Record>, m: AddressRequest)
    ensures ApplyRequest(rs + qs, m) == ApplyRequest(qs, ApplyRequest(rs, m))
    decreases |rs|
  {
    if rs == [] {
      assert rs + qs == qs;
    } else {
      assert (rs + qs)[0] == rs[0] && (rs + qs)[1..] == rs[1..] + qs;
      ApplyRequestAppend(rs[1..], qs, ApplyRequestRecord(rs[0], m));
    }
  }

  lemma {:induction false} ApplyResponseAppend(rs: seq<Record>, qs: seq<Record>, m: AddressResponse)
    ensures ApplyResponse(rs + qs, m) == ApplyResponse(qs, ApplyResponse(rs, m))
    decreases |rs|
  {
    if rs == [] {
      assert rs + qs == qs;
    } else {
      assert (rs + qs)[0] == rs[0] && (rs + qs)[1..] == rs[1..] + qs;
      ApplyResponseAppend(rs[1..], qs, ApplyResponseRecord(rs[0], m));
    }
  }

  /** `encode` writes exactly the bytes of its records, and decoding those
      records from the base message rebuilds the message. */
  lemma RequestRecordsOf(m: AddressRequest)
    requires EncodableRequest(m)
    ensures RequestBytes(m) == RecordsBytes(RequestRecords(m))
    ensures WellFormed(RequestRecords(m))
    ensures ApplyRequest(RequestRecords(m), CreateBaseAddressRequest()) == m
  {
    if m.address != [] {
      var r := LenRecord(1, m.address);
      assert RecordTag(r) == ADDRESS_TAG;
      assert RecordBytes(r) + [] == RecordBytes(r);
      assert WellFormed([r][1..]);
    }
  }

  lemma ResponseRecordsOf(m: AddressResponse)
    requires EncodableResponse(m)
    ensures ResponseBytes(m) == RecordsBytes(ResponseRecords(m))
    ensures WellFormed(ResponseRecords(m))
    ensures ApplyResponse(ResponseRecords(m), CreateBaseAddressResponse()) == m
  {
    var valid: seq<Record> := if m.isValid then [VarintRecord(1, 1)] else [];
    var address: seq<Record> := if m.normalizedAddress != [] then [LenRecord(2, m.normalizedAddress)] else [];
    RecordsBytesAppend(valid, address);
    ApplyResponseAppend(valid, address, CreateBaseAddressResponse());
    if m.isValid {
      var r := VarintRecord(1, 1);
      assert RecordTag(r) == IS_VALID_TAG;
      assert RecordsBytes(valid) == RecordBytes(r) + [];
      assert WellFormed(valid[1..]);
    }
    if m.normalizedAddress != [] {
      var r := LenRecord(2, m.normalizedAddress);
      assert RecordTag(r) == NORMALIZED_ADDRESS_TAG;
      assert RecordsBytes(address) == RecordBytes(r) + [];
      assert WellFormed(address[1..]);
    }
    WellFormedAppend(valid, address);
  }

  // ------------------------------------------------------------ one record

  /** The `switch` of `AddressRequest.decode` on a record's tag applies the record. */
  lemma RequestFieldOfRecord(r: Record, tail: Bytes, m: AddressRequest)
    requires WellFormedRecord(r)
    ensures RequestField(RecordTag(r), Payload(r) + tail, m) == Next(ApplyRequestRecord(r, m), tail)
  {
    if r.LenRecord? && r.field == 1 {
      RequestFieldOfAddressRecord(r, tail, m);
    } else {
      RequestFieldOfOtherRecord(r, tail, m);
    }
  }

  lemma RequestFieldOfAddressRecord(r: Record, tail: Bytes, m: AddressRequest)
    requires WellFormedRecord(r) && r.LenRecord? && r.field == 1
    ensures RequestField(RecordTag(r), Payload(r) + tail, m) == Next(ApplyRequestRecord(r, m), tail)
  {
    assert RecordTag(r) == ADDRESS_TAG && Payload(r) == LengthDelimited(r.data);
    ReadBytesOfLengthDelimited(r.data, tail);
    RequestFieldAddress(Payload(r) + tail, r.data, tail, m);
  }

  lemma RequestFieldOfOtherRecord(r: Record, tail: Bytes, m: AddressRequest)
    requires WellFormedRecord(r) && !(r.LenRecord? && r.field == 1)
    ensures RequestField(RecordTag(r), Payload(r) + tail, m) == Next(ApplyRequestRecord(r, m), tail)
  {
    var tag := RecordTag(r);
    OtherRequestTag(r);
    SkipPayload(r, tail);
    RequestFieldSkips(tag, Payload(r) + tail, tail, m);
  }

  /** The tag of a record the request decoder does not know is neither its own
      tag nor zero. */
  lemma OtherRequestTag(r: Record)
    requires 1 <= r.field && !(r.LenRecord? && r.field == 1)
    ensures RecordTag(r) != ADDRESS_TAG && RecordTag(r) != 0
    ensures WireType(RecordTag(r)) == RecordWireType(r)
  {
    var tag := RecordTag(r);
    assert FieldNumber(tag) == r.field && WireType(tag) == RecordWireType(r);
    assert FieldNumber(ADDRESS_TAG) == 1 && WireType(ADDRESS_TAG) == LEN;
  }

  lemma RequestFieldAddress(input: Bytes, a: Bytes, rest: Bytes, m: AddressRequest)
    requires ReadBytes(input) == Ok(Read(a, rest))
    ensures RequestField(ADDRESS_TAG, input, m) == Next(m.(address := a), rest)
  {
  }

  /** A tag the request decoder does not know, other than zero and end-group, is skipped. */
  lemma RequestFieldSkips(tag: nat, input: Bytes, rest: Bytes, m: AddressRequest)
    requires tag != ADDRESS_TAG && tag != 0 && WireType(tag) != EGROUP
    requires SkipType(input, WireType(tag)) == Ok(rest)
    ensures RequestField(tag, input, m) == Next(m, rest)
  {
  }

  /** A zero or end-group tag ends the request loop. */
  lemma RequestFieldEnds(tag: nat, input: Bytes, m: AddressRequest)
    requires tag != ADDRESS_TAG && (tag == 0 || WireType(tag) == EGROUP)
    ensures RequestField(tag, input, m) == Done(input)
  {
  }

  lemma ResponseFieldOfRecord(r: Record, tail: Bytes, m: AddressResponse)
    requires WellFormedRecord(r)
    ensures ResponseField(RecordTag(r), Payload(r) + tail, m) == Next(ApplyResponseRecord(r, m), tail)
  {
    if r.VarintRecord? && r.field == 1 {
      ResponseFieldOfIsValidRecord(r, tail, m);
    } else if r.LenRecord? && r.field == 2 {
      ResponseFieldOfAddressRecord(r, tail, m);
    } else {
      ResponseFieldOfOtherRecord(r, tail, m);
    }
  }

  lemma ResponseFieldOfIsValidRecord(r: Record, tail: Bytes, m: AddressResponse)
    requires WellFormedRecord(r) && r.VarintRecord? && r.field == 1
    ensures ResponseField(RecordTag(r), Payload(r) + tail, m) == Next(ApplyResponseRecord(r, m), tail)
  {
    assert RecordTag(r) == IS_VALID_TAG && Payload(r) == Varint(r.number);
    ReadUint32OfVarint64(r.number, tail);
    ResponseFieldIsValid(Payload(r) + tail, r.number % UINT32_LIMIT != 0, tail, m);
  }

  lemma ResponseFieldOfAddressRecord(r: Record, tail: Bytes, m: AddressResponse)
    requires WellFormedRecord(r) && r.LenRecord? && r.field == 2
    ensures ResponseField(RecordTag(r), Payload(r) + tail, m) == Next(ApplyResponseRecord(r, m), tail)
  {
    assert RecordTag(r) == NORMALIZED_ADDRESS_TAG && Payload(r) == LengthDelimited(r.data);
    ReadBytesOfLengthDelimited(r.data, tail);
    ResponseFieldAddress(Payload(r) + tail, r.data, tail, m);
  }

  lemma ResponseFieldOfOtherRecord(r: Record, tail: Bytes, m: AddressResponse)
    requires WellFormedRecord(r) && !(r.VarintRecord? && r.field == 1) && !(r.LenRecord? && r.field == 2)
    ensures ResponseField(RecordTag(r), Payload(r) + tail, m) == Next(ApplyResponseRecord(r, m), tail)
  {
    var tag := RecordTag(r);
    OtherResponseTag(r);
    SkipPayload(r, tail);
    ResponseFieldSkips(tag, Payload(r) + tail, tail, m);
  }

  /** The tag of a record the response decoder does not know is neither of its
      own tags nor zero. */
  lemma OtherResponseTag(r: Record)
    requires 1 <= r.field && !(r.VarintRecord? && r.field == 1) && !(r.LenRecord? && r.field == 2)
    ensures RecordTag(r) != IS_VALID_TAG && RecordTag(r) != NORMALIZED_ADDRESS_TAG && RecordTag(r) != 0
    ensures WireType(RecordTag(r)) == RecordWireType(r)
  {
    var tag := RecordTag(r);
    assert FieldNumber(tag) == r.field && WireType(tag) == RecordWireType(r);
    assert FieldNumber(IS_VALID_TAG) == 1 && WireType(IS_VALID_TAG) == VARINT;
    assert FieldNumber(NORMALIZED_ADDRESS_TAG) == 2 && WireType(NORMALIZED_ADDRESS_TAG) == LEN;
  }

  lemma ResponseFieldIsValid(input: Bytes, b: bool, rest: Bytes, m: AddressResponse)
    requires ReadBool(input) == Ok(Read(b, rest))
    ensures ResponseField(IS_VALID_TAG, input, m) == Next(m.(isValid := b), rest)
  {
  }

  lemma ResponseFieldAddress(input: Bytes, a: Bytes, rest: Bytes, m: AddressResponse)
    requires ReadBytes(input) == Ok(Read(a, rest))
    ensures ResponseField(NORMALIZED_ADDRESS_TAG, input, m) == Next(m.(normalizedAddress := a), rest)
  {
  }

  /** A tag the response decoder does not know, other than zero and end-group, is skipped. */
  lemma ResponseFieldSkips(tag: nat, input: Bytes, rest: Bytes, m: AddressResponse)
    requires tag != IS_VALID_TAG && tag != NORMALIZED_ADDRESS_TAG && tag != 0 && WireType(tag) != EGROUP
    requires SkipType(input, WireType(tag)) == Ok(rest)
    ensures ResponseField(tag, input, m) == Next(m, rest)
  {
  }

  /** A zero or end-group tag ends the response loop. */
  lemma ResponseFieldEnds(tag: nat, input: Bytes, m: AddressResponse)
    requires tag != IS_VALID_TAG && tag != NORMALIZED_ADDRESS_TAG && (tag == 0 || WireType(tag) == EGROUP)
    ensures ResponseField(tag, input, m) == Done(input)
  {
  }

  /** One pass of the request loop over a whole record, before `end`. */
  lemma RequestFromRecord(r: Record, tail: Bytes, stop: int, m: AddressRequest)
    requires WellFormedRecord(r) && stop <= |tail|
    ensures RequestFrom(RecordBytes(r) + tail, stop, m) == RequestFrom(tail, stop, ApplyRequestRecord(r, m))
  {
    SkipRecord(r, tail);
    RequestFieldOfRecord(r, tail, m);
  }

  lemma ResponseFromRecord(r: Record, tail: Bytes, stop: int, m: AddressResponse)
    requires WellFormedRecord(r) && stop <= |tail|
    ensures ResponseFrom(RecordBytes(r) + tail, stop, m) == ResponseFrom(tail, stop, ApplyResponseRecord(r, m))
  {
    SkipRecord(r, tail);
    ResponseFieldOfRecord(r, tail, m);
  }

  /** The request loop over well-formed records that all lie before `end` is the fold. */
  lemma {:induction false} RequestFromRecords(rs: seq<Record>, tail: Bytes, stop: int, m: AddressRequest)
    requires WellFormed(rs) && stop <= |tail|
    ensures RequestFrom(RecordsBytes(rs) + tail, stop, m) == RequestFrom(tail, stop, ApplyRequest(rs, m))
    decreases |rs|
  {
    if rs == [] {
      assert RecordsBytes(rs) + tail == tail;
    } else {
      Associative(RecordBytes(rs[0]), RecordsBytes(rs[1..]), tail);
      RequestFromRecords(rs[1..], tail, stop, ApplyRequestRecord(rs[0], m));
      RequestFromRecord(rs[0], RecordsBytes(rs[1..]) + tail, stop, m);
    }
  }

  lemma {:induction false} ResponseFromRecords(rs: seq<Record>, tail: Bytes, stop: int, m: AddressResponse)
    requires WellFormed(rs) && stop <= |tail|
    ensures ResponseFrom(RecordsBytes(rs) + tail, stop, m) == ResponseFrom(tail, stop, ApplyResponse(rs, m))
    decreases |rs|
  {
    if rs == [] {
      assert RecordsBytes(rs) + tail == tail;
    } else {
      Associative(RecordBytes(rs[0]), RecordsBytes(rs[1..]), tail);
      ResponseFromRecords(rs[1..], tail, stop, ApplyResponseRecord(rs[0], m));
      ResponseFromRecord(rs[0], RecordsBytes(rs[1..]) + tail, stop, m);
    }
  }

  /** Decoding an input made of well-formed records and a tail, with the tail at
      or past `end`, is the fold of the records followed by the loop on the tail. */
  lemma RequestReads(input: Bytes, length: Option<nat>, rs: seq<Record>, tail: Bytes, result: Result<Read<AddressRequest>>)
    requires WellFormed(rs) && input == RecordsBytes(rs) + tail && Stop(input, length) <= |tail|
    requires RequestFrom(tail, Stop(input, length), ApplyRequest(rs, CreateBaseAddressRequest())) == result
    ensures ReadRequest(input, length) == result
  {
    RequestFromRecords(rs, tail, Stop(input, length), CreateBaseAddressRequest());
  }

  lemma ResponseReads(input: Bytes, length: Option<nat>, rs: seq<Record>, tail: Bytes, result: Result<Read<AddressResponse>>)
    requires WellFormed(rs) && input == RecordsBytes(rs) + tail && Stop(input, length) <= |tail|
    requires ResponseFrom(tail, Stop(input, length), ApplyResponse(rs, CreateBaseAddressResponse())) == result
    ensures ReadResponse(input, length) == result
  {
    ResponseFromRecords(rs, tail, Stop(input, length), CreateBaseAddressResponse());
  }

  // ------------------------------------------------------------ round trips

  /** `decode(encode(m).finish())` is `m`, and it reads the whole buffer; an
      empty buffer decodes to the base message. */
  lemma RequestRoundTrip(m: AddressRequest)
    requires EncodableRequest(m)
    ensures ReadRequest(RequestBytes(m), None) == Ok(Read(m, []))
    ensures ReadRequest([], None) == Ok(Read(CreateBaseAddressRequest(), []))
  {
    RequestRecordsOf(m);
    AppendEmpty(RecordsBytes(RequestRecords(m)));
    RequestReads(RequestBytes(m), None, RequestRecords(m), [], Ok(Read(m, [])));
  }

  lemma ResponseRoundTrip(m: AddressResponse)
    requires EncodableResponse(m)
    ensures ReadResponse(ResponseBytes(m), None) == Ok(Read(m, []))
    ensures ReadResponse([], None) == Ok(Read(CreateBaseAddressResponse(), []))
  {
    ResponseRecordsOf(m);
    AppendEmpty(RecordsBytes(ResponseRecords(m)));
    ResponseReads(ResponseBytes(m), None, ResponseRecords(m), [], Ok(Read(m, [])));
  }

  /** `decode(reader, length)` with the length of an encoded message reads that
      message and leaves the reader just after it, whatever follows. */
  lemma RequestRoundTripDelimited(m: AddressRequest, rest: Bytes)
    requires EncodableRequest(m)
    ensures ReadRequest(RequestBytes(m) + rest, Some(|RequestBytes(m)|)) == Ok(Read(m, rest))
  {
    RequestRecordsOf(m);
    assert Stop(RequestBytes(m) + rest, Some(|RequestBytes(m)|)) == |rest|;
    RequestReads(RequestBytes(m) + rest, Some(|RequestBytes(m)|), RequestRecords(m), rest, Ok(Read(m, rest)));
  }

  lemma ResponseRoundTripDelimited(m: AddressResponse, rest: Bytes)
    requires EncodableResponse(m)
    ensures ReadResponse(ResponseBytes(m) + rest, Some(|ResponseBytes(m)|)) == Ok(Read(m, rest))
  {
    ResponseRecordsOf(m);
    assert Stop(ResponseBytes(m) + rest, Some(|ResponseBytes(m)|)) == |rest|;
    ResponseReads(ResponseBytes(m) + rest, Some(|ResponseBytes(m)|), ResponseRecords(m), rest, Ok(Read(m, rest)));
  }

  // ------------------------------------------------------------ merging

  /** What decoding `b` over `a` keeps: every field `b` writes, and `a`'s others. */
  function MergeRequests(a: AddressRequest, b: AddressRequest): AddressRequest {
    if b.address != [] then b else a
  }

  function MergeResponses(a: AddressResponse, b: AddressResponse): AddressResponse {
    AddressResponse(
      a.isValid || b.isValid,
      if b.normalizedAddress != [] then b.normalizedAddress else a.normalizedAddress)
  }

  /** Decoding the records of `b` over `a`. */
  lemma RequestMergeFold(a: AddressRequest, b: AddressRequest)
    ensures ApplyRequest(RequestRecords(b), a) == MergeRequests(a, b)
  {
    if b.address != [] {
      assert RequestRecords(b)[1..] == [];
    }
  }

  lemma ResponseMergeFold(a: AddressResponse, b: AddressResponse)
    ensures ApplyResponse(ResponseRecords(b), a) == MergeResponses(a, b)
  {
    var valid: seq<Record> := if b.isValid then [VarintRecord(1, 1)] else [];
    var address: seq<Record> := if b.normalizedAddress != [] then [LenRecord(2, b.normalizedAddress)] else [];
    ApplyResponseAppend(valid, address, a);
    if b.isValid {
      assert valid[1..] == [];
    }
    if b.normalizedAddress != [] {
      assert address[1..] == [];
    }
  }

  /** Two encoded requests one after the other decode as one request in which
      the later address wins. */
  lemma RequestConcatenation(a: AddressRequest, b: AddressRequest)
    requires EncodableRequest(a) && EncodableRequest(b)
    ensures ReadRequest(RequestBytes(a) + RequestBytes(b), None) == Ok(Read(MergeRequests(a, b), []))
  {
    RequestRecordsOf(a);
    RequestRecordsOf(b);
    var ra, rb := RequestRecords(a), RequestRecords(b);
    RecordsBytesAppend(ra, rb);
    WellFormedAppend(ra, rb);
    ApplyRequestAppend(ra, rb, CreateBaseAddressRequest());
    RequestMergeFold(a, b);
    AppendEmpty(RecordsBytes(ra + rb));
    RequestReads(RequestBytes(a) + RequestBytes(b), None, ra + rb, [], Ok(Read(MergeRequests(a, b), [])));
  }

  /** Two encoded responses one after the other decode as one response: a true
      `isValid` in either survives, and the later non-empty address wins. */
  lemma ResponseConcatenation(a: AddressResponse, b: AddressResponse)
    requires EncodableResponse(a) && EncodableResponse(b)
    ensures ReadResponse(ResponseBytes(a) + ResponseBytes(b), None) == Ok(Read(MergeResponses(a, b), []))
  {
    ResponseRecordsOf(a);
    ResponseRecordsOf(b);
    var ra, rb := ResponseRecords(a), ResponseRecords(b);
    RecordsBytesAppend(ra, rb);
    WellFormedAppend(ra, rb);
    ApplyResponseAppend(ra, rb, CreateBaseAddressResponse());
    ResponseMergeFold(a, b);
    AppendEmpty(RecordsBytes(ra + rb));
    ResponseReads(ResponseBytes(a) + ResponseBytes(b), None, ra + rb, [], Ok(Read(MergeResponses(a, b), [])));
  }

  /** Of several address fields in one buffer, the last one is the one decoded. */
  lemma LastAddressWins(first: Bytes, second: Bytes, m: AddressRequest)
    ensures ApplyRequest([LenRecord(1, first), LenRecord(1, second)], m).address == second
  {
    var rs := [LenRecord(1, first), LenRecord(1, second)];
    assert rs[1..] == [LenRecord(1, second)] && rs[1..][1..] == [];
    assert ApplyRequest(rs, m) == ApplyRequest(rs[1..], m.(address := first));
    assert ApplyRequest(rs[1..], m.(address := first)) == ApplyRequest([], m.(address := second));
  }

  // ------------------------------------------------------------ unknown fields

  /** A record the request decoder does not know. */
  predicate UnknownToRequest(r: Record) {
    !(r.LenRecord? && r.field == 1)
  }

  /** A record the response decoder does not know. */
  predicate UnknownToResponse(r: Record) {
    !(r.VarintRecord? && r.field == 1) && !(r.LenRecord? && r.field == 2)
  }

  lemma {:induction false} UnknownRequestRecords(rs: seq<Record>, m: AddressRequest)
    requires forall i | 0 <= i < |rs| :: UnknownToRequest(rs[i])
    ensures ApplyRequest(rs, m) == m
    decreases |rs|
  {
    if rs != [] {
      assert UnknownToRequest(rs[0]);
      UnknownRequestRecords(rs[1..], m);
    }
  }

  lemma {:induction false} UnknownResponseRecords(rs: seq<Record>, m: AddressResponse)
    requires forall i | 0 <= i < |rs| :: UnknownToResponse(rs[i])
    ensures ApplyResponse(rs, m) == m
    decreases |rs|
  {
    if rs != [] {
      assert UnknownToResponse(rs[0]);
      UnknownResponseRecords(rs[1..], m);
    }
  }

  /** Well-formed fields of other numbers or wire types, written before an encoded
      request, are skipped: the request decodes as if they were not there. */
  lemma RequestSkipsUnknown(unknown: seq<Record>, m: AddressRequest)
    requires WellFormed(unknown) && forall i | 0 <= i < |unknown| :: UnknownToRequest(unknown[i])
    requires EncodableRequest(m)
    ensures ReadRequest(RecordsBytes(unknown) + RequestBytes(m), None) == Ok(Read(m, []))
  {
    RequestRecordsOf(m);
    var rs := unknown + RequestRecords(m);
    RecordsBytesAppend(unknown, RequestRecords(m));
    WellFormedAppend(unknown, RequestRecords(m));
    UnknownRequestRecords(unknown, CreateBaseAddressRequest());
    ApplyRequestAppend(unknown, RequestRecords(m), CreateBaseAddressRequest());
    AppendEmpty(RecordsBytes(rs));
    RequestReads(RecordsBytes(unknown) + RequestBytes(m), None, rs, [], Ok(Read(m, [])));
  }

  lemma ResponseSkipsUnknown(unknown: seq<Record>, m: AddressResponse)
    requires WellFormed(unknown) && forall i | 0 <= i < |unknown| :: UnknownToResponse(unknown[i])
    requires EncodableResponse(m)
    ensures ReadResponse(RecordsBytes(unknown) + ResponseBytes(m), None) == Ok(Read(m, []))
  {
    ResponseRecordsOf(m);
    var rs := unknown + ResponseRecords(m);
    RecordsBytesAppend(unknown, ResponseRecords(m));
    WellFormedAppend(unknown, ResponseRecords(m));
    UnknownResponseRecords(unknown, CreateBaseAddressResponse());
    ApplyResponseAppend(unknown, ResponseRecords(m), CreateBaseAddressResponse());
    AppendEmpty(RecordsBytes(rs));
    ResponseReads(RecordsBytes(unknown) + ResponseBytes(m), None, rs, [], Ok(Read(m, [])));
  }

  // ------------------------------------------------------------ early stop

  /** A tag that ends the decode loop: zero, or any end-group tag. */
  predicate EndTag(t: nat) {
    t < UINT32_LIMIT && (t == 0 || WireType(t) == EGROUP)
  }

  /** The loop reading a zero or end-group tag stops just after it. */
  lemma RequestStopsAt(t: nat, rest: Bytes, m: AddressRequest)
    requires EndTag(t)
    ensures RequestFrom(Varint(t) + rest, 0, m) == Ok(Read(m, rest))
  {
    ReadUint32OfVarint(t, rest);
    assert t != ADDRESS_TAG;
    RequestFieldEnds(t, rest, m);
  }

  lemma ResponseStopsAt(t: nat, rest: Bytes, m: AddressResponse)
    requires EndTag(t)
    ensures ResponseFrom(Varint(t) + rest, 0, m) == Ok(Read(m, rest))
  {
    ReadUint32OfVarint(t, rest);
    assert t != IS_VALID_TAG && t != NORMALIZED_ADDRESS_TAG;
    ResponseFieldEnds(t, rest, m);
  }

  /** A zero or end-group tag after an encoded request ends the decode there,
      with the reader just after the tag and whatever follows left unread. */
  lemma RequestStopsAtEndTag(m: AddressRequest, t: nat, rest: Bytes)
    requires EncodableRequest(m) && EndTag(t)
    ensures ReadRequest(RequestBytes(m) + Varint(t) + rest, None) == Ok(Read(m, rest))
  {
    RequestRecordsOf(m);
    Associative(RequestBytes(m), Varint(t), rest);
    RequestStopsAt(t, rest, m);
    RequestReads(RequestBytes(m) + Varint(t) + rest, None, RequestRecords(m), Varint(t) + rest, Ok(Read(m, rest)));
  }

  lemma ResponseStopsAtEndTag(m: AddressResponse, t: nat, rest: Bytes)
    requires EncodableResponse(m) && EndTag(t)
    ensures ReadResponse(ResponseBytes(m) + Varint(t) + rest, None) == Ok(Read(m, rest))
  {
    ResponseRecordsOf(m);
    Associative(ResponseBytes(m), Varint(t), rest);
    ResponseStopsAt(t, rest, m);
    ResponseReads(ResponseBytes(m) + Varint(t) + rest, None, ResponseRecords(m), Varint(t) + rest, Ok(Read(m, rest)));
  }

  // ------------------------------------------------------------ errors

  /** A length-delimited field whose length runs past the end of the buffer fails
      the loop with `Truncated`. */
  lemma RequestTruncatedAt(n: nat, data: Bytes, m: AddressRequest)
    requires |data| < n < UINT32_LIMIT
    ensures RequestFrom(Varint(ADDRESS_TAG) + (Varint(n) + data), 0, m) == Err(Truncated)
  {
    ReadUint32OfVarint(ADDRESS_TAG, Varint(n) + data);
    ReadUint32OfVarint(n, data);
    assert ReadBytes(Varint(n) + data) == Err(Truncated);
  }

  lemma ResponseTruncatedAt(n: nat, data: Bytes, m: AddressResponse)
    requires |data| < n < UINT32_LIMIT
    ensures ResponseFrom(Varint(NORMALIZED_ADDRESS_TAG) + (Varint(n) + data), 0, m) == Err(Truncated)
  {
    ReadUint32OfVarint(NORMALIZED_ADDRESS_TAG, Varint(n) + data);
    ReadUint32OfVarint(n, data);
    assert ReadBytes(Varint(n) + data) == Err(Truncated);
  }

  /** An address whose length runs past the end of the buffer fails the decode
      with `Truncated`, whatever message came before it. */
  lemma RequestTruncatedAddress(m: AddressRequest, n: nat, data: Bytes)
    requires EncodableRequest(m) && |data| < n < UINT32_LIMIT
    ensures ReadRequest(RequestBytes(m) + (Varint(ADDRESS_TAG) + (Varint(n) + data)), None) == Err(Truncated)
  {
    RequestRecordsOf(m);
    var after := Varint(ADDRESS_TAG) + (Varint(n) + data);
    RequestTruncatedAt(n, data, m);
    RequestReads(RequestBytes(m) + after, None, RequestRecords(m), after, Err(Truncated));
  }

  lemma ResponseTruncatedAddress(m: AddressResponse, n: nat, data: Bytes)
    requires EncodableResponse(m) && |data| < n < UINT32_LIMIT
    ensures ReadResponse(ResponseBytes(m) + (Varint(NORMALIZED_ADDRESS_TAG) + (Varint(n) + data)), None) == Err(Truncated)
  {
    ResponseRecordsOf(m);
    var after := Varint(NORMALIZED_ADDRESS_TAG) + (Varint(n) + data);
    ResponseTruncatedAt(n, data, m);
    ResponseReads(ResponseBytes(m) + after, None, ResponseRecords(m), after, Err(Truncated));
  }

  /** A `length` that reaches past the end of the buffer keeps the loop going at
      the end of the buffer, where reading the next tag fails with `Truncated`. */
  lemma RequestLengthPastEnd(m: AddressRequest, length: nat)
    requires EncodableRequest(m) && |RequestBytes(m)| < length
    ensures ReadRequest(RequestBytes(m), Some(length)) == Err(Truncated)
  {
    RequestRecordsOf(m);
    RequestRecordsPastEnd(RequestBytes(m), RequestRecords(m), length);
  }

  lemma RequestRecordsPastEnd(input: Bytes, rs: seq<Record>, length: nat)
    requires WellFormed(rs) && input == RecordsBytes(rs) && |input| < length
    ensures ReadRequest(input, Some(length)) == Err(Truncated)
  {
    var stop := Stop(input, Some(length));
    AppendEmpty(RecordsBytes(rs));
    assert RequestFrom([], stop, ApplyRequest(rs, CreateBaseAddressRequest())) == Err(Truncated);
    RequestReads(input, Some(length), rs, [], Err(Truncated));
  }

  lemma ResponseLengthPastEnd(m: AddressResponse, length: nat)
    requires EncodableResponse(m) && |ResponseBytes(m)| < length
    ensures ReadResponse(ResponseBytes(m), Some(length)) == Err(Truncated)
  {
    ResponseRecordsOf(m);
    ResponseRecordsPastEnd(ResponseBytes(m), ResponseRecords(m), length);
  }

  lemma ResponseRecordsPastEnd(input: Bytes, rs: seq<Record>, length: nat)
    requires WellFormed(rs) && input == RecordsBytes(rs) && |input| < length
    ensures ReadResponse(input, Some(length)) == Err(Truncated)
  {
    var stop := Stop(input, Some(length));
    AppendEmpty(RecordsBytes(rs));
    assert ResponseFrom([], stop, ApplyResponse(rs, CreateBaseAddressResponse())) == Err(Truncated);
    ResponseReads(input, Some(length), rs, [], Err(Truncated));
  }

  // ------------------------------------------------------------ later fields win

  /** Whatever came before, a later `isValid` field decides `isValid`, false
      included, and a later normalized address replaces the one before it,
      empty included. */
  lemma LastResponseFieldWins(rs: seq<Record>, n: nat, d: Bytes, m: AddressResponse)
    ensures ApplyResponse(rs + [VarintRecord(1, n)], m).isValid == (n % UINT32_LIMIT != 0)
    ensures ApplyResponse(rs + [LenRecord(2, d)], m).normalizedAddress == d
  {
    var valid, address := [VarintRecord(1, n)], [LenRecord(2, d)];
    ApplyResponseAppend(rs, valid, m);
    ApplyResponseAppend(rs, address, m);
    assert valid[1..] == [] && address[1..] == [];
  }

  /** A later `isValid` of 0 turns an earlier true one off: `[8, 1, 8, 0]`
      decodes to a response that is not valid. */
  lemma FalseAfterTrue()
    ensures ReadResponse([IS_VALID_TAG, 1, IS_VALID_TAG, 0], None) == Ok(Read(AddressResponse(false, []), []))
  {
    var rs := [VarintRecord(1, 1), VarintRecord(1, 0)];
    assert RecordsBytes(rs[1..][1..]) == [];
    assert RecordsBytes(rs[1..]) == [IS_VALID_TAG, 0];
    assert RecordsBytes(rs) == [IS_VALID_TAG, 1, IS_VALID_TAG, 0];
    AppendEmpty(RecordsBytes(rs));
    LastResponseFieldWins([VarintRecord(1, 1)], 0, [], CreateBaseAddressResponse());
    assert [VarintRecord(1, 1)] + [VarintRecord(1, 0)] == rs;
    assert ApplyResponse(rs, CreateBaseAddressResponse()) == AddressResponse(false, []);
    ResponseReads([IS_VALID_TAG, 1, IS_VALID_TAG, 0], None, rs, [], Ok(Read(AddressResponse(false, []), [])));
  }

  // ------------------------------------------------------------ bad wire types

  /** A tag with wire type 6 or 7 fails the decode of either message: no field
      of theirs has it, and `skipType` rejects it. */
  lemma InvalidWireTypeFails(t: nat, rest: Bytes)
    requires t < UINT32_LIMIT && (WireType(t) == 6 || WireType(t) == 7)
    ensures ReadRequest(Varint(t) + rest, None) == Err(InvalidWireType(WireType(t)))
    ensures ReadResponse(Varint(t) + rest, None) == Err(InvalidWireType(WireType(t)))
  {
    ReadUint32OfVarint(t, rest);
    assert WireType(ADDRESS_TAG) == LEN && WireType(IS_VALID_TAG) == VARINT && WireType(NORMALIZED_ADDRESS_TAG) == LEN;
    assert t != 0;
  }
}
