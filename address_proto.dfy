/**
 * The generated codec of `address.proto`: the messages AddressRequest and
 * AddressResponse, what `encode` writes for each, and the `decode` loops that
 * read them back from a reader. Strings are kept as their UTF-8 bytes.
 *
 * Each encoder is a method on a Writer proved to append exactly the bytes of a
 * function (`RequestBytes`, `ResponseBytes`); each decoder is a method on a
 * Reader proved to agree with a recursive function that follows the loop
 * (`RequestFrom`, `ResponseFrom`). Module AddressProtoLaws proves what the
 * functions promise: round trips, last-one-wins, skipping, early stops.
 */
module AddressProto {
  import opened Wrappers
  import opened Wire
  import opened WireIO

  /** `message AddressRequest { string address = 1; }` */
  datatype AddressRequest = AddressRequest(address: Bytes)

  /** `message AddressResponse { bool is_valid = 1; string normalized_address = 2; }` */
  datatype AddressResponse = AddressResponse(isValid: bool, normalizedAddress: Bytes)

  /** Tag of `AddressRequest.address`: field 1, length-delimited. */
  const ADDRESS_TAG: nat := 10
  /** Tag of `AddressResponse.isValid`: field 1, varint. */
  const IS_VALID_TAG: nat := 8
  /** Tag of `AddressResponse.normalizedAddress`: field 2, length-delimited. */
  const NORMALIZED_ADDRESS_TAG: nat := 18

  lemma TagsAreFieldTags()
    ensures ADDRESS_TAG == Tag(1, LEN)
    ensures IS_VALID_TAG == Tag(1, VARINT)
    ensures NORMALIZED_ADDRESS_TAG == Tag(2, LEN)
  {
  }

  /** `createBaseAddressRequest()`: every field at its default. */
  function CreateBaseAddressRequest(): (m: AddressRequest)
    ensures m.address == []
  {
    AddressRequest([])
  }

  /** `createBaseAddressResponse()`: every field at its default. */
  function CreateBaseAddressResponse(): (m: AddressResponse)
    ensures !m.isValid && m.normalizedAddress == []
  {
    AddressResponse(false, [])
  }

  // ---------------------------------------------------------------- encode

  /** What `AddressRequest.encode` writes: the address under tag 10, unless it is
      the empty default. */
  function RequestBytes(m: AddressRequest): (r: Bytes)
    ensures r == [] <==> m == CreateBaseAddressRequest()
    ensures r != [] ==> r[0] == ADDRESS_TAG
  {
    if m.address != [] then Varint(ADDRESS_TAG) + LengthDelimited(m.address) else []
  }

  /** What `AddressResponse.encode` writes: `isValid` under tag 8 when it is true,
      then the normalized address under tag 18 when it is not empty. */
  function ResponseBytes(m: AddressResponse): (r: Bytes)
    ensures r == [] <==> m == CreateBaseAddressResponse()
    ensures m.isValid ==> |r| >= 2 && r[0] == IS_VALID_TAG && r[1] == 1
    ensures !m.isValid && r != [] ==> r[0] == NORMALIZED_ADDRESS_TAG
    ensures m.isValid && m.normalizedAddress != [] ==> |r| > 2 && r[2] == NORMALIZED_ADDRESS_TAG
  {
    IsValidBytes(m.isValid) + NormalizedAddressBytes(m.normalizedAddress)
  }

  function IsValidBytes(isValid: bool): Bytes {
    if isValid then Varint(IS_VALID_TAG) + Varint(1) else []
  }

  function NormalizedAddressBytes(normalizedAddress: Bytes): Bytes {
    if normalizedAddress != [] then Varint(NORMALIZED_ADDRESS_TAG) + LengthDelimited(normalizedAddress) else []
  }

  /** `AddressRequest.encode(message, writer)`. */
  method EncodeRequest(m: AddressRequest, writer: Writer)
    modifies writer
    ensures writer.buf == old(writer.buf) + RequestBytes(m)
  {
    if m.address != [] {
      ghost var before := writer.buf;
      assert ADDRESS_TAG % UINT32_LIMIT == ADDRESS_TAG;
      writer.Uint32(ADDRESS_TAG);
      writer.String(m.address);
      Associative(before, Varint(ADDRESS_TAG), LengthDelimited(m.address));
    }
  }

  /** `AddressResponse.encode(message, writer)`. */
  method EncodeResponse(m: AddressResponse, writer: Writer)
    modifies writer
    ensures writer.buf == old(writer.buf) + ResponseBytes(m)
  {
    ghost var before := writer.buf;
    if m.isValid {
      assert IS_VALID_TAG % UINT32_LIMIT == IS_VALID_TAG;
      writer.Uint32(IS_VALID_TAG);
      writer.Bool(m.isValid);
      Associative(before, Varint(IS_VALID_TAG), Varint(1));
    }
    ghost var middle := writer.buf;
    assert middle == before + IsValidBytes(m.isValid);
    if m.normalizedAddress != [] {
      assert NORMALIZED_ADDRESS_TAG % UINT32_LIMIT == NORMALIZED_ADDRESS_TAG;
      writer.Uint32(NORMALIZED_ADDRESS_TAG);
      writer.String(m.normalizedAddress);
      Associative(middle, Varint(NORMALIZED_ADDRESS_TAG), LengthDelimited(m.normalizedAddress));
    }
    assert writer.buf == middle + NormalizedAddressBytes(m.normalizedAddress);
    Associative(before, IsValidBytes(m.isValid), NormalizedAddressBytes(m.normalizedAddress));
  }

  /** `AddressRequest.encode(message).finish()`: the bytes of a request on a fresh writer. */
  method EncodeRequestToBytes(m: AddressRequest) returns (out: Bytes)
    ensures out == RequestBytes(m)
  {
    var writer := new Writer();
    EncodeRequest(m, writer);
    out := writer.Finish();
  }

  /** `AddressResponse.encode(message).finish()`: the bytes of a response on a fresh writer. */
  method EncodeResponseToBytes(m: AddressResponse) returns (out: Bytes)
    ensures out == ResponseBytes(m)
  {
    var writer := new Writer();
    EncodeResponse(m, writer);
    out := writer.Finish();
  }

  // ---------------------------------------------------------------- decode

  /** `end = length === undefined ? reader.len : reader.pos + length`, given as the
      number of bytes of `input` (the reader's unread input) that lie past `end`.
      It is negative when `end` lies past the end of the buffer. */
  function Stop(input: Bytes, length: Option<nat>): (stop: int)
    ensures length.None? ==> stop == 0
    ensures length.Some? ==> stop + length.value == |input|
  {
    match length
    case None => 0
    case Some(n) => |input| - n
  }

  /** The outcome of one pass of a decode loop after the tag: the message with
      one more field applied and the input after it (`continue`, or a skipped
      field), the end of the loop on an end-group or zero tag (`break`), or a
      failed read. */
  datatype Step<M> = Next(message: M, rest: Bytes) | Done(rest: Bytes) | Failed(error: DecodeError)

  /** The `switch` of `AddressRequest.decode` on a tag just read, `input` being
      what follows the tag. */
  function RequestField(tag: nat, input: Bytes, m: AddressRequest): (s: Step<AddressRequest>)
    ensures s.Next? ==> |s.rest| <= |input|
  {
    if tag == ADDRESS_TAG then
      match ReadBytes(input)
      case Err(e) => Failed(e)
      case Ok(a) => Next(m.(address := a.value), a.rest)
    else if WireType(tag) == EGROUP || tag == 0 then Done(input)
    else
      match SkipType(input, WireType(tag))
      case Err(e) => Failed(e)
      case Ok(after) => Next(m, after)
  }

  /** The `switch` of `AddressResponse.decode` on a tag just read. */
  function ResponseField(tag: nat, input: Bytes, m: AddressResponse): (s: Step<AddressResponse>)
    ensures s.Next? ==> |s.rest| <= |input|
  {
    if tag == IS_VALID_TAG then
      match ReadBool(input)
      case Err(e) => Failed(e)
      case Ok(b) => Next(m.(isValid := b.value), b.rest)
    else if tag == NORMALIZED_ADDRESS_TAG then
      match ReadBytes(input)
      case Err(e) => Failed(e)
      case Ok(a) => Next(m.(normalizedAddress := a.value), a.rest)
    else if WireType(tag) == EGROUP || tag == 0 then Done(input)
    else
      match SkipType(input, WireType(tag))
      case Err(e) => Failed(e)
      case Ok(after) => Next(m, after)
  }

  /** The loop of `AddressRequest.decode` from the unread input `input` with the
      message `m` decoded so far; it runs while more than `stop` bytes remain
      (`reader.pos < end`), and yields the message with what is left unread. */
  function RequestFrom(input: Bytes, stop: int, m: AddressRequest): (r: Result<Read<AddressRequest>>)
    ensures r.Ok? ==> |r.value.rest| <= |input|
    ensures |input| <= stop ==> r == Ok(Read(m, input))
    decreases |input|
  {
    if |input| <= stop then Ok(Read(m, input))
    else
      match ReadUint32(input)
      case Err(e) => Err(e)
      case Ok(tag) =>
        match RequestField(tag.value, tag.rest, m)
        case Failed(e) => Err(e)
        case Done(rest) => Ok(Read(m, rest))
        case Next(m', rest) => RequestFrom(rest, stop, m')
  }

  /** One pass of the loop of `AddressRequest.decode`, the reader being before `end`:
      reads a tag, then does what the `switch` does with it. */
  method DecodeRequestStep(reader: Reader, m: AddressRequest, ghost stop: int, ghost spec: Result<Read<AddressRequest>>)
    returns (s: Step<AddressRequest>)
    requires reader.Valid() && |reader.Rest()| > stop && RequestFrom(reader.Rest(), stop, m) == spec
    modifies reader
    ensures reader.Valid()
    ensures s.Failed? ==> spec == Err(s.error)
    ensures s.Done? ==> spec == Ok(Read(m, reader.Rest()))
    ensures s.Next? ==> RequestFrom(reader.Rest(), stop, s.message) == spec && |reader.Rest()| < |old(reader.Rest())|
  {
    ghost var here := reader.Rest();
    var tag := reader.Uint32();
    if tag.Err? {
      return Failed(tag.error);
    }
    RequestLoopUnfolds(here, stop, m, tag.value, reader.Rest(), spec);
    s := DecodeRequestField(reader, tag.value, m);
  }

  /** `AddressRequest.decode(reader, length)` on a reader whose unread input is `input`. */
  function ReadRequest(input: Bytes, length: Option<nat>): (r: Result<Read<AddressRequest>>)
    ensures r.Ok? ==> |r.value.rest| <= |input|
    ensures length == Some(0) ==> r == Ok(Read(CreateBaseAddressRequest(), input))
    ensures input == [] && length.None? ==> r == Ok(Read(CreateBaseAddressRequest(), []))
  {
    RequestFrom(input, Stop(input, length), CreateBaseAddressRequest())
  }

  /** The loop of `AddressResponse.decode`, as `RequestFrom` is that of the request. */
  function ResponseFrom(input: Bytes, stop: int, m: AddressResponse): (r: Result<Read<AddressResponse>>)
    ensures r.Ok? ==> |r.value.rest| <= |input|
    ensures |input| <= stop ==> r == Ok(Read(m, input))
    decreases |input|
  {
    if |input| <= stop then Ok(Read(m, input))
    else
      match ReadUint32(input)
      case Err(e) => Err(e)
      case Ok(tag) =>
        match ResponseField(tag.value, tag.rest, m)
        case Failed(e) => Err(e)
        case Done(rest) => Ok(Read(m, rest))
        case Next(m', rest) => ResponseFrom(rest, stop, m')
  }

  /** One pass of the loop of `AddressResponse.decode`, the reader being before `end`:
      reads a tag, then does what the `switch` does with it. */
  method DecodeResponseStep(reader: Reader, m: AddressResponse, ghost stop: int, ghost spec: Result<Read<AddressResponse>>)
    returns (s: Step<AddressResponse>)
    requires reader.Valid() && |reader.Rest()| > stop && ResponseFrom(reader.Rest(), stop, m) == spec
    modifies reader
    ensures reader.Valid()
    ensures s.Failed? ==> spec == Err(s.error)
    ensures s.Done? ==> spec == Ok(Read(m, reader.Rest()))
    ensures s.Next? ==> ResponseFrom(reader.Rest(), stop, s.message) == spec && |reader.Rest()| < |old(reader.Rest())|
  {
    ghost var here := reader.Rest();
    var tag := reader.Uint32();
    if tag.Err? {
      return Failed(tag.error);
    }
    ResponseLoopUnfolds(here, stop, m, tag.value, reader.Rest(), spec);
    s := DecodeResponseField(reader, tag.value, m);
  }

  /** `AddressResponse.decode(reader, length)` on a reader whose unread input is `input`. */
  function ReadResponse(input: Bytes, length: Option<nat>): (r: Result<Read<AddressResponse>>)
    ensures r.Ok? ==> |r.value.rest| <= |input|
    ensures length == Some(0) ==> r == Ok(Read(CreateBaseAddressResponse(), input))
    ensures input == [] && length.None? ==> r == Ok(Read(CreateBaseAddressResponse(), []))
  {
    ResponseFrom(input, Stop(input, length), CreateBaseAddressResponse())
  }

  /** The `switch (tag >>> 3)` of `AddressRequest.decode`, with the end-group and
      zero-tag test and the `skipType` after it. */
  method DecodeRequestField(reader: Reader, tag: nat, m: AddressRequest) returns (s: Step<AddressRequest>)
    requires reader.Valid()
    modifies reader
    ensures reader.Valid() && s == RequestField(tag, old(reader.Rest()), m)
    ensures !s.Failed? ==> reader.Rest() == s.rest
  {
    if tag == ADDRESS_TAG {
      var a := reader.String();
      if a.Err? {
        return Failed(a.error);
      }
      return Next(m.(address := a.value), reader.Rest());
    }
    if WireType(tag) == EGROUP || tag == 0 {
      return Done(reader.Rest());
    }
    var skipped := reader.SkipType(WireType(tag));
    if skipped.Err? {
      return Failed(skipped.error);
    }
    return Next(m, reader.Rest());
  }

  /** The `switch (tag >>> 3)` of `AddressResponse.decode`. */
  method DecodeResponseField(reader: Reader, tag: nat, m: AddressResponse) returns (s: Step<AddressResponse>)
    requires reader.Valid()
    modifies reader
    ensures reader.Valid() && s == ResponseField(tag, old(reader.Rest()), m)
    ensures !s.Failed? ==> reader.Rest() == s.rest
  {
    if tag == IS_VALID_TAG {
      var b := reader.Bool();
      if b.Err? {
        return Failed(b.error);
      }
      return Next(m.(isValid := b.value), reader.Rest());
    }
    if tag == NORMALIZED_ADDRESS_TAG {
      var a := reader.String();
      if a.Err? {
        return Failed(a.error);
      }
      return Next(m.(normalizedAddress := a.value), reader.Rest());
    }
    if WireType(tag) == EGROUP || tag == 0 {
      return Done(reader.Rest());
    }
    var skipped := reader.SkipType(WireType(tag));
    if skipped.Err? {
      return Failed(skipped.error);
    }
    return Next(m, reader.Rest());
  }

  /** `AddressRequest.decode(reader, length)`: reads fields while the reader is before
      `end`; a failed read ends the decode with its error. */
  method DecodeRequest(reader: Reader, length: Option<nat>) returns (r: Result<AddressRequest>)
    requires reader.Valid()
    modifies reader
    ensures reader.Valid()
    ensures r.Ok? ==> ReadRequest(old(reader.Rest()), length) == Ok(Read(r.value, reader.Rest()))
    ensures r.Err? ==> ReadRequest(old(reader.Rest()), length) == Err(r.error)
  {
    var end := match length case None => |reader.buf| case Some(n) => reader.pos + n;
    var message := CreateBaseAddressRequest();
    ghost var stop := |reader.buf| - end;
    assert stop == Stop(reader.Rest(), length);
    ReadRequestStarts(reader.Rest(), length, stop);
    r := DecodeRequestLoop(reader, end, message, stop, RequestFrom(reader.Rest(), stop, message));
  }

  lemma ReadRequestStarts(input: Bytes, length: Option<nat>, stop: int)
    requires stop == Stop(input, length)
    ensures ReadRequest(input, length) == RequestFrom(input, stop, CreateBaseAddressRequest())
  {
  }

  /** The `while (reader.pos < end)` loop of `AddressRequest.decode`, starting from the
      message `m`; `spec` is what the whole loop yields. */
  method DecodeRequestLoop(reader: Reader, end: nat, m: AddressRequest, ghost stop: int, ghost spec: Result<Read<AddressRequest>>)
    returns (r: Result<AddressRequest>)
    requires reader.Valid() && stop == |reader.buf| - end && RequestFrom(reader.Rest(), stop, m) == spec
    modifies reader
    ensures reader.Valid()
    ensures r.Ok? ==> spec == Ok(Read(r.value, reader.Rest()))
    ensures r.Err? ==> spec == Err(r.error)
  {
    var message := m;
    while reader.pos < end
      invariant reader.Valid()
      invariant RequestFrom(reader.Rest(), stop, message) == spec
      decreases |reader.buf| - reader.pos
    {
      var step := DecodeRequestStep(reader, message, stop, spec);
      match step
      case Failed(e) => return Err(e);
      case Done(_) => return Ok(message);
      case Next(m', _) => message := m';
    }
    r := Ok(message);
  }

  /** `AddressResponse.decode(reader, length)`: reads fields while the reader is before
      `end`; a failed read ends the decode with its error. */
  method DecodeResponse(reader: Reader, length: Option<nat>) returns (r: Result<AddressResponse>)
    requires reader.Valid()
    modifies reader
    ensures reader.Valid()
    ensures r.Ok? ==> ReadResponse(old(reader.Rest()), length) == Ok(Read(r.value, reader.Rest()))
    ensures r.Err? ==> ReadResponse(old(reader.Rest()), length) == Err(r.error)
  {
    var end := match length case None => |reader.buf| case Some(n) => reader.pos + n;
    var message := CreateBaseAddressResponse();
    ghost var stop := |reader.buf| - end;
    assert stop == Stop(reader.Rest(), length);
    ReadResponseStarts(reader.Rest(), length, stop);
    r := DecodeResponseLoop(reader, end, message, stop, ResponseFrom(reader.Rest(), stop, message));
  }

  lemma ReadResponseStarts(input: Bytes, length: Option<nat>, stop: int)
    requires stop == Stop(input, length)
    ensures ReadResponse(input, length) == ResponseFrom(input, stop, CreateBaseAddressResponse())
  {
  }

  /** The `while (reader.pos < end)` loop of `AddressResponse.decode`, starting from the
      message `m`; `spec` is what the whole loop yields. */
  method DecodeResponseLoop(reader: Reader, end: nat, m: AddressResponse, ghost stop: int, ghost spec: Result<Read<AddressResponse>>)
    returns (r: Result<AddressResponse>)
    requires reader.Valid() && stop == |reader.buf| - end && ResponseFrom(reader.Rest(), stop, m) == spec
    modifies reader
    ensures reader.Valid()
    ensures r.Ok? ==> spec == Ok(Read(r.value, reader.Rest()))
    ensures r.Err? ==> spec == Err(r.error)
  {
    var message := m;
    while reader.pos < end
      invariant reader.Valid()
      invariant ResponseFrom(reader.Rest(), stop, message) == spec
      decreases |reader.buf| - reader.pos
    {
      var step := DecodeResponseStep(reader, message, stop, spec);
      match step
      case Failed(e) => return Err(e);
      case Done(_) => return Ok(message);
      case Next(m', _) => message := m';
    }
    r := Ok(message);
  }

  /** One pass of the request loop: the tag, then what the `switch` makes of it. */
  lemma RequestLoopUnfolds(here: Bytes, stop: int, m: AddressRequest, tag: nat, tagRest: Bytes,
                           spec: Result<Read<AddressRequest>>)
    requires |here| > stop && RequestFrom(here, stop, m) == spec
    requires ReadUint32(here) == Ok(Read(tag, tagRest))
    ensures RequestField(tag, tagRest, m).Failed? ==> spec == Err(RequestField(tag, tagRest, m).error)
    ensures RequestField(tag, tagRest, m).Done? ==> spec == Ok(Read(m, RequestField(tag, tagRest, m).rest))
    ensures RequestField(tag, tagRest, m).Next? ==>
              RequestFrom(RequestField(tag, tagRest, m).rest, stop, RequestField(tag, tagRest, m).message) == spec
  {
  }

  /** One pass of the response loop. */
  lemma ResponseLoopUnfolds(here: Bytes, stop: int, m: AddressResponse, tag: nat, tagRest: Bytes,
                            spec: Result<Read<AddressResponse>>)
    requires |here| > stop && ResponseFrom(here, stop, m) == spec
    requires ReadUint32(here) == Ok(Read(tag, tagRest))
    ensures ResponseField(tag, tagRest, m).Failed? ==> spec == Err(ResponseField(tag, tagRest, m).error)
    ensures ResponseField(tag, tagRest, m).Done? ==> spec == Ok(Read(m, ResponseField(tag, tagRest, m).rest))
    ensures ResponseField(tag, tagRest, m).Next? ==>
              ResponseFrom(ResponseField(tag, tagRest, m).rest, stop, ResponseField(tag, tagRest, m).message) == spec
  {
  }

  /** `AddressRequest.decode(bytes, length)`: decoding from a fresh reader. */
  method DecodeRequestBytes(input: Bytes, length: Option<nat>) returns (r: Result<AddressRequest>)
    ensures r == Outcome(ReadRequest(input, length))
  {
    var reader := new Reader(input);
    r := DecodeRequest(reader, length);
  }

  /** `AddressResponse.decode(bytes, length)`: decoding from a fresh reader. */
  method DecodeResponseBytes(input: Bytes, length: Option<nat>) returns (r: Result<AddressResponse>)
    ensures r == Outcome(ReadResponse(input, length))
  {
    var reader := new Reader(input);
    r := DecodeResponse(reader, length);
  }

  // ---------------------------------------------------------------- client

  /** `AddressVerifierServiceName` */
  const ADDRESS_VERIFIER_SERVICE_NAME: string := "address.AddressVerifier"

  /** `opts?.service || AddressVerifierServiceName`: an absent or empty name gives the default. */
  function ServiceName(service: Option<string>): (name: string)
    ensures name != []
    ensures service.Some? && service.value != [] ==> name == service.value
    ensures service.None? || service.value == [] ==> name == ADDRESS_VERIFIER_SERVICE_NAME
  {
    match service
    case Some(s) => if s != [] then s else ADDRESS_VERIFIER_SERVICE_NAME
    case None => ADDRESS_VERIFIER_SERVICE_NAME
  }

  /** `AddressVerifierClientImpl.VerifyAddress`: encodes the request, hands it to
      the transport `rpc` as a call of method "VerifyAddress" on `service`, and
      decodes what comes back as a response. */
  method VerifyAddress(request: AddressRequest, service: string, rpc: (string, string, Bytes) -> Bytes)
    returns (r: Result<AddressResponse>)
    ensures r == Outcome(ReadResponse(rpc(service, "VerifyAddress", RequestBytes(request)), None))
  {
    var data := EncodeRequestToBytes(request);
    var reply := rpc(service, "VerifyAddress", data);
    r := DecodeResponseBytes(reply, None);
  }
}
