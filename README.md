# Address moderation agent and its protobuf codec, in Dafny

This project models the two parts of the address-moderation agent that hold
logic.

The first is the agent itself (`src/index.ts`):
- the Ethereum-address format check;
- the case-insensitive blacklist lookup;
- the replies `handleMessage` sends back to a peer;
- the results of the `GET /api/check/:address` endpoint;
- the request checks of `POST /api/chat`;
- the configuration `main` reads from the environment.

The second is the generated protobuf codec of `address.proto`
(`sdk/src/proto/proto/address.ts`), for `AddressRequest` and `AddressResponse`:
- `createBase*`, `encode` and `decode`;
- `fromJSON` and `toJSON`;
- `create` and `fromPartial`;
- `isSet`;
- the `VerifyAddress` client call.

It also models the protobufjs Reader and Writer that the codec drives. Their
source is not part of this model, so they follow the Protocol Buffers binary
encoding ("Base 128 Varints", "Message Structure", "Length-Delimited Records").

Modules:
- `Wrappers` (`wrappers.dfy`): `Option`.
- `Wire` (`wire.dfy`): the wire format as functions over the unread input.
  - Functions: varints, `uint32`, `bool`, `string`, and `skipType` for every wire type.
  - `Record`, a field as a decoder that does not know its number sees it.
  - Lemmas that each reader inverts its writer.
- `WireIO` (`wire_io.dfy`): the Reader as a class with a cursor `pos`, and the
  Writer as a class with a growing buffer. Every method is proved against the
  matching `Wire` function.
- `AddressProto` (`address_proto.dfy`):
  - the messages and tags;
  - `encode` as Writer methods proved to append `RequestBytes` / `ResponseBytes`;
  - `decode` as a `while (reader.pos < end)` loop over a Reader, proved equal to
    the recursive functions `RequestFrom` / `ResponseFrom`;
  - the service name and `VerifyAddress`.
- `AddressJson` (`address_json.dfy`): `isSet`, the `??` operator, `fromJSON` and
  `toJSON` over a JSON object model, and `fromPartial` and `create`.
- `AddressProtoLaws` (`address_proto_laws.dfy`): what the decoder promises.
  - Round trips, plain and length-delimited.
  - The last occurrence of a field wins; two encodings concatenated merge.
  - Unknown fields and wrong wire types are skipped.
  - The loop stops at a zero or end-group tag.
  - Truncated strings fail, and so does a length past the end of an encoded message.
- `Agent` (`agent.dfy`): the moderation rule, the replies, both HTTP endpoints'
  checks, and the configuration defaults.

Strings in the codec are byte sequences, i.e. their UTF-8 encoding. Strings in
the agent are `string`, lower-cased in ASCII. The blacklist (`address.json`),
the clock (`new Date().toISOString()`), the environment and the RPC transport
are parameters. Replies and HTTP results are datatypes, not JSON text.

## Model

| member | source | states |
|---|---|---|
| Agent.EthAddressRegex | src/index.ts:27-28 | `/^0x[a-fA-F0-9]{40}$/` accepts a string iff it has 42 characters, starts with `0x` (lower-case x), and its other 40 characters are hexadecimal digits of either case |
| Agent.IsEthAddress | src/index.ts:27-28 | `ethAddressRegex.test(s)`, as the anchored matcher run on the pattern, is true iff `s` has the address shape |
| Agent.ToLower | src/index.ts:42 | `toLowerCase` keeps the length and lower-cases each character on its own |
| Agent.ToLowerIdempotent | src/index.ts:42-44 | lower-casing an already lower-cased string changes nothing |
| Agent.IsBlacklisted | src/index.ts:43-45 | the lookup is true iff some blacklist entry, lower-cased, equals the lower-cased address |
| Agent.BlacklistIgnoresCase | src/index.ts:42-45 | two addresses equal up to letter case get the same verdict |
| Agent.ListedIsBlacklisted | src/index.ts:42-45 | an entry equal to the address in any letter case makes the address blacklisted, and its lower-cased form too |
| Agent.HandleMessage | src/index.ts:19-55 | the reply goes to the sender; it is a success iff the content has the address format; an error reply is "Invalid Ethereum address format" with the original content; a success carries the original content, the clock's timestamp, and a flag true iff a blacklist entry matches ignoring case |
| Agent.InvalidIgnoresBlacklist | src/index.ts:28-38 | for malformed content the reply has status "error" and depends on neither the blacklist nor the clock |
| Agent.CheckAddress | src/index.ts:134-161 | status 400 iff the address is malformed, with the error message, the address and the timestamp; otherwise 200 with the address, the blacklist verdict and the timestamp |
| Agent.CheckAgreesWithHandler | src/index.ts:139-160 | the endpoint accepts exactly what the peer handler accepts, with the same message on rejection and the same flag on success |
| Agent.CheckChat | src/index.ts:76-90 | 400 "Messages array is required" iff `messages` is not an array or is empty; 400 "Invalid message format" iff the last element is falsy or lacks non-empty content; accepted iff neither applies, and then with the last element's (non-empty) content |
| Agent.ChatLooksAtLastOnly | src/index.ts:85-86 | the elements before the last one never change the outcome |
| Agent.ParseInt | src/index.ts:180-181 | `parseInt` of a string starting with a digit is a non-negative number; one starting with neither a digit nor a sign is NaN; a negative result comes from a leading `-` |
| Agent.EnvOr | src/index.ts:179-182 | `process.env.X \|\| d` gives the variable when it is set and non-empty, the default otherwise |
| Agent.LeadingDigits | src/index.ts:180-181 | counts the run of decimal digits a string starts with, which `parseInt` reads |
| Agent.ParseIntDigits | src/index.ts:180-181 | `parseInt` of decimal digits followed by a non-digit gives the value of the digits |
| Agent.LoadConfig | src/index.ts:179-189 | the gRPC address is `localhost:` plus GRPC_PORT or "50051"; the ports are `parseInt` of P2P_PORT or "8000" and of HTTP_PORT or "3000"; the agent id is AGENT_NAME or "default-agent", so never empty; the binary path is P2P_NODE_PATH as it is, absent when unset; the timeout is 5000 ms |
| Agent.DefaultConfig | src/index.ts:179-189 | with nothing set, the configuration is `localhost:50051`, P2P port 8000, HTTP port 3000, agent "default-agent", no binary path and timeout 5000 |
| Agent.DefaultPorts | src/index.ts:180-181 | "8000" parses to 8000 and "3000" to 3000 |
| Wire.Tag | sdk/src/proto/proto/address.ts:33 | a tag's field number (`tag >>> 3`) and wire type (`tag & 7`) are the ones it was built from |
| Wire.ReadUint32 | sdk/src/proto/proto/address.ts:32 | `reader.uint32()` yields a value below 2^32 and consumes at least one byte |
| Wire.ReadBool | sdk/src/proto/proto/address.ts:99 | `reader.bool()` succeeds iff `uint32()` does, and is whether that value is non-zero |
| Wire.ReadBytes | sdk/src/proto/proto/address.ts:39 | `reader.string()` succeeds iff the length varint reads and that many bytes remain; what it reads has that length, and it plus what follows is the input after the length |
| Wire.SkipBytes | sdk/src/proto/proto/address.ts:45 | skipping `n` bytes succeeds iff `n` bytes remain, and leaves the input after them |
| Wire.LengthDelimited | sdk/src/proto/proto/address.ts:22 | a string is written as its length varint followed by its bytes |
| Wire.RecordWireType | sdk/src/proto/proto/address.ts:45 | the wire type of a field record is below 8 and never end-group |
| Wire.ReadVarintOfVarint | sdk/src/proto/proto/address.ts:22 | reading a varint back gives the value written and the bytes after it |
| Wire.ReadUint32OfVarint | sdk/src/proto/proto/address.ts:22 | `uint32()` reads back any 32-bit value `uint32(v)` wrote |
| Wire.ReadUint32OfVarint64 | sdk/src/proto/proto/address.ts:99 | `uint32()` on a 64-bit varint keeps its low 32 bits |
| Wire.ReadBoolOfVarint | sdk/src/proto/proto/address.ts:79 | `bool()` reads back what `bool(b)` wrote |
| Wire.ReadBytesOfLengthDelimited | sdk/src/proto/proto/address.ts:22 | `string()` reads back what `string(s)` wrote, for a length below 2^32 |
| Wire.SkipVarintOfVarint | sdk/src/proto/proto/address.ts:45 | skipping a varint passes over exactly that varint |
| Wire.SkipRecord | sdk/src/proto/proto/address.ts:32-45 | a record's tag reads back, and `skipType` with its wire type passes over exactly its payload |
| Wire.SkipGroupOf | sdk/src/proto/proto/address.ts:45 | skipping a group passes over its members and its end-group tag |
| WireIO.Reader.constructor | sdk/src/proto/proto/address.ts:28 | `Reader.create(input)` starts at the first byte |
| WireIO.Reader.Uint32 | sdk/src/proto/proto/address.ts:32 | the byte loop yields what `Wire.ReadUint32` yields and leaves the cursor after the varint, or the same error |
| WireIO.Reader.Bool | sdk/src/proto/proto/address.ts:99 | agrees with `Wire.ReadBool` on the value, the cursor and the error |
| WireIO.Reader.String | sdk/src/proto/proto/address.ts:39 | agrees with `Wire.ReadBytes` on the value, the cursor and the error |
| WireIO.Reader.SkipVarint | sdk/src/proto/proto/address.ts:45 | agrees with `Wire.SkipVarint` and leaves the cursor where it says |
| WireIO.Reader.Skip | sdk/src/proto/proto/address.ts:45 | agrees with `Wire.SkipBytes` and leaves the cursor where it says |
| WireIO.Reader.SkipType | sdk/src/proto/proto/address.ts:45 | agrees with `Wire.SkipType` for every wire type, a bad one included |
| WireIO.Reader.SkipGroup | sdk/src/proto/proto/address.ts:45 | agrees with `Wire.SkipGroup` |
| WireIO.Writer.constructor | sdk/src/proto/proto/address.ts:20 | `Writer.create()` is empty |
| WireIO.Writer.Uint32 | sdk/src/proto/proto/address.ts:22 | appends the varint of the value's low 32 bits |
| WireIO.Writer.Bool | sdk/src/proto/proto/address.ts:79 | appends the varint 1 or 0 |
| WireIO.Writer.String | sdk/src/proto/proto/address.ts:22 | appends the length, then the bytes |
| WireIO.Writer.Finish | sdk/src/proto/proto/address.ts:160 | hands back everything written, without changing the writer |
| AddressProto.TagsAreFieldTags | sdk/src/proto/proto/address.ts:22-35 | tags 10, 8 and 18 are field 1 length-delimited, field 1 varint and field 2 length-delimited |
| AddressProto.CreateBaseAddressRequest | sdk/src/proto/proto/address.ts:15-17 | the base request's address is the empty string |
| AddressProto.CreateBaseAddressResponse | sdk/src/proto/proto/address.ts:72-74 | the base response is not valid and its normalized address is empty |
| AddressProto.RequestBytes | sdk/src/proto/proto/address.ts:15-23 | a request encodes to no bytes iff it is the base message; otherwise the encoding starts with tag 10 |
| AddressProto.ResponseBytes | sdk/src/proto/proto/address.ts:72-83 | a response encodes to no bytes iff it is the base message; a true `isValid` comes first as 8, 1; the address's tag 18 comes after it |
| AddressProto.EncodeRequest | sdk/src/proto/proto/address.ts:20-25 | appends exactly `RequestBytes(m)` to the writer |
| AddressProto.EncodeResponse | sdk/src/proto/proto/address.ts:77-85 | appends exactly `ResponseBytes(m)` to the writer |
| AddressProto.EncodeRequestToBytes | sdk/src/proto/proto/address.ts:20-25 | `encode(m).finish()` is `RequestBytes(m)` |
| AddressProto.EncodeResponseToBytes | sdk/src/proto/proto/address.ts:77-85 | `encode(m).finish()` is `ResponseBytes(m)` |
| AddressProto.Stop | sdk/src/proto/proto/address.ts:29 | without a `length` the loop runs to the end of the input; with one it stops once `length` bytes are read |
| AddressProto.ReadRequest | sdk/src/proto/proto/address.ts:27-48 | `decode` never yields more input than it was given; a `length` of 0 reads nothing and gives the base request; no bytes give the base request |
| AddressProto.ReadResponse | sdk/src/proto/proto/address.ts:87-115 | the same for a response |
| AddressProto.RequestField | sdk/src/proto/proto/address.ts:33-45 | a pass of the switch that continues never grows the input |
| AddressProto.ResponseField | sdk/src/proto/proto/address.ts:93-112 | the same for the response switch |
| AddressProto.RequestFrom | sdk/src/proto/proto/address.ts:31-46 | the loop never yields more input than it was given, and stops at once at `end` |
| AddressProto.ResponseFrom | sdk/src/proto/proto/address.ts:91-113 | the same for the response loop |
| AddressProto.DecodeRequestField | sdk/src/proto/proto/address.ts:33-45 | the switch on a reader does what `RequestField` says, and leaves the reader where it says |
| AddressProto.DecodeResponseField | sdk/src/proto/proto/address.ts:93-112 | the same for `ResponseField` |
| AddressProto.DecodeRequestStep | sdk/src/proto/proto/address.ts:32-45 | one pass of the loop keeps the loop's final result and moves the reader forward |
| AddressProto.DecodeResponseStep | sdk/src/proto/proto/address.ts:92-112 | the same for the response loop |
| AddressProto.DecodeRequestLoop | sdk/src/proto/proto/address.ts:31-47 | the `while` loop on a reader yields what `RequestFrom` yields, or its error |
| AddressProto.DecodeResponseLoop | sdk/src/proto/proto/address.ts:91-114 | the `while` loop on a reader yields what `ResponseFrom` yields, or its error |
| AddressProto.DecodeRequest | sdk/src/proto/proto/address.ts:27-48 | `decode(reader, length)` yields `ReadRequest` of the unread input and leaves the reader after what it read, or fails with its error |
| AddressProto.DecodeResponse | sdk/src/proto/proto/address.ts:87-115 | the same for `ReadResponse` |
| AddressProto.DecodeRequestBytes | sdk/src/proto/proto/address.ts:27-29 | decoding a byte array is `ReadRequest` from its first byte |
| AddressProto.DecodeResponseBytes | sdk/src/proto/proto/address.ts:87-89 | decoding a byte array is `ReadResponse` from its first byte |
| AddressProto.ServiceName | sdk/src/proto/proto/address.ts:150-155 | `opts?.service \|\| AddressVerifierServiceName` is the option when it is a non-empty string, and "address.AddressVerifier" when it is absent or empty; so it is never empty |
| AddressProto.VerifyAddress | sdk/src/proto/proto/address.ts:159-163 | a call's result is the reply to method "VerifyAddress" with the encoded request, decoded as a response |
| AddressProtoLaws.RequestRecordsOf | sdk/src/proto/proto/address.ts:20-25 | an encoded request is the bytes of well-formed records, and folding them over the base gives back the request |
| AddressProtoLaws.ResponseRecordsOf | sdk/src/proto/proto/address.ts:77-85 | the same for a response |
| AddressProtoLaws.RequestFieldOfRecord | sdk/src/proto/proto/address.ts:33-45 | the request switch handles each well-formed record as the fold `ApplyRequestRecord` says and continues after it |
| AddressProtoLaws.ResponseFieldOfRecord | sdk/src/proto/proto/address.ts:93-112 | the same for the response switch |
| AddressProtoLaws.RequestFromRecords | sdk/src/proto/proto/address.ts:31-46 | the request loop over records is the fold of those records |
| AddressProtoLaws.ResponseFromRecords | sdk/src/proto/proto/address.ts:91-113 | the same for the response loop |
| AddressProtoLaws.RequestRoundTrip | sdk/src/proto/proto/address.ts:20-48 | `decode(encode(m))` is `m` with nothing left over, and decoding no bytes gives the base request |
| AddressProtoLaws.ResponseRoundTrip | sdk/src/proto/proto/address.ts:77-115 | the same for a response |
| AddressProtoLaws.RequestRoundTripDelimited | sdk/src/proto/proto/address.ts:29-31 | with `length` equal to the encoding's size, decoding reads `m` and leaves the bytes that follow unread |
| AddressProtoLaws.ResponseRoundTripDelimited | sdk/src/proto/proto/address.ts:89-91 | the same for a response |
| AddressProtoLaws.RequestMergeFold | sdk/src/proto/proto/address.ts:39-40 | decoding `b`'s fields over `a` replaces `a`'s address by `b`'s when `b` sets one |
| AddressProtoLaws.ResponseMergeFold | sdk/src/proto/proto/address.ts:99-107 | decoding `b`'s fields over `a` keeps a true `isValid` from either and the later non-empty address |
| AddressProtoLaws.RequestConcatenation | sdk/src/proto/proto/address.ts:31-40 | two encoded requests one after the other decode to their merge |
| AddressProtoLaws.ResponseConcatenation | sdk/src/proto/proto/address.ts:91-107 | two encoded responses one after the other decode to their merge |
| AddressProtoLaws.LastAddressWins | sdk/src/proto/proto/address.ts:39-40 | of two address fields, the second is the one decoded |
| AddressProtoLaws.LastResponseFieldWins | sdk/src/proto/proto/address.ts:99-107 | after any fields, a later `isValid` field decides `isValid` (false included), and a later normalized address replaces the earlier one (empty included) |
| AddressProtoLaws.FalseAfterTrue | sdk/src/proto/proto/address.ts:99 | the bytes 8, 1, 8, 0 decode to a response that is not valid |
| AddressProtoLaws.InvalidWireTypeFails | sdk/src/proto/proto/address.ts:45 | a tag of wire type 6 or 7 fails the decode of a request and of a response with that wire type as the error (also line 112) |
| AddressProtoLaws.UnknownRequestRecords | sdk/src/proto/proto/address.ts:33-45 | records of an unknown number, or of field 1 with a wrong wire type, leave a request unchanged |
| AddressProtoLaws.UnknownResponseRecords | sdk/src/proto/proto/address.ts:93-112 | the same for a response |
| AddressProtoLaws.RequestSkipsUnknown | sdk/src/proto/proto/address.ts:33-45 | unknown fields before an encoded request are skipped, and it still decodes to itself |
| AddressProtoLaws.ResponseSkipsUnknown | sdk/src/proto/proto/address.ts:93-112 | the same for a response |
| AddressProtoLaws.RequestStopsAt | sdk/src/proto/proto/address.ts:42-44 | a zero or end-group tag ends the loop just after it, with the message so far |
| AddressProtoLaws.ResponseStopsAt | sdk/src/proto/proto/address.ts:109-111 | the same for the response loop |
| AddressProtoLaws.RequestStopsAtEndTag | sdk/src/proto/proto/address.ts:42-44 | after an encoded request and a zero or end-group tag, whatever follows is left unread |
| AddressProtoLaws.ResponseStopsAtEndTag | sdk/src/proto/proto/address.ts:109-111 | the same for a response |
| AddressProtoLaws.RequestTruncatedAt | sdk/src/proto/proto/address.ts:39 | an address field whose length runs past the buffer fails as truncated |
| AddressProtoLaws.ResponseTruncatedAt | sdk/src/proto/proto/address.ts:106 | the same for the normalized address |
| AddressProtoLaws.RequestTruncatedAddress | sdk/src/proto/proto/address.ts:27-48 | an encoded request followed by a truncated address field fails as truncated |
| AddressProtoLaws.ResponseTruncatedAddress | sdk/src/proto/proto/address.ts:87-115 | the same for a response |
| AddressProtoLaws.RequestLengthPastEnd | sdk/src/proto/proto/address.ts:29-32 | a `length` past the end of an encoded request makes the decode fail as truncated |
| AddressProtoLaws.ResponseLengthPastEnd | sdk/src/proto/proto/address.ts:89-92 | a `length` past the end of an encoded response makes the decode fail as truncated |
| AddressJson.IsSet | sdk/src/proto/proto/address.ts:182-184 | a value is set iff it is neither `null` nor `undefined` |
| AddressJson.Coalesce | sdk/src/proto/proto/address.ts:67 | `x ?? d` is `x` when it is set, `d` otherwise |
| AddressJson.Property | sdk/src/proto/proto/address.ts:51 | reading a property is `undefined` without the key, `null` for a JSON null, the value otherwise |
| AddressJson.ToBoolean | sdk/src/proto/proto/address.ts:119 | `Boolean(v)` is false exactly for null, false, 0 and the empty string |
| AddressJson.DecimalDigits | sdk/src/proto/proto/address.ts:51 | an integer's decimal digits are non-empty digits with a leading zero only for 0 |
| AddressJson.DigitsValueOfDecimal | sdk/src/proto/proto/address.ts:51 | the digits of `n` denote `n` |
| AddressJson.ToJsString | sdk/src/proto/proto/address.ts:51 | `String(v)` keeps a string as it is, and writes an integer as text that parses back to it |
| AddressJson.RequestFromJson | sdk/src/proto/proto/address.ts:50-52 | a set address is coerced to a string; an absent or null one gives the base request |
| AddressJson.RequestToJson | sdk/src/proto/proto/address.ts:54-60 | the object has the key `address` iff the address is not empty, holding the address; `fromJSON` of it is the request |
| AddressJson.ResponseFromJson | sdk/src/proto/proto/address.ts:117-122 | each set field is coerced (`Boolean`, `String`); an absent or null one is false or empty |
| AddressJson.ResponseToJson | sdk/src/proto/proto/address.ts:124-133 | `isValid` is present iff true and `normalizedAddress` iff non-empty, with their values; `fromJSON` of it is the response |
| AddressJson.RequestFromPartial | sdk/src/proto/proto/address.ts:65-69 | a field the partial sets is taken, any other is the base default |
| AddressJson.ResponseFromPartial | sdk/src/proto/proto/address.ts:138-143 | the same for every field of a response |
| AddressJson.RequestAsPartial | sdk/src/proto/proto/address.ts:65-69 | `fromPartial` gives back a whole request unchanged |
| AddressJson.ResponseAsPartial | sdk/src/proto/proto/address.ts:138-143 | `fromPartial` gives back a whole response unchanged |
| AddressJson.CreateRequest | sdk/src/proto/proto/address.ts:62-64 | `create()` with no base is the base request; with a base it is `fromPartial(base)` |
| AddressJson.CreateResponse | sdk/src/proto/proto/address.ts:135-137 | the same for a response |

## Left out

- `sdk/scripts/download-p2p.js` is not part of this model: it only fetches a binary over HTTPS and writes it to disk.
- Express routing, the SSE headers and `res.write`/`res.end` streaming, and the language-model call `processMessage` are left out. `CheckChat` stops where the model call would start.
- `Logger` and `dotenv` are left out because they are I/O.
- `client.sendMessage` is left out as a transport. The model returns the reply and its recipient as an `Outgoing` value, and replies are values, not JSON text.
- The `catch` branches (src/index.ts:56-69, 122-129, 162-171) are left out. They react to exceptions thrown by the unseen transport, the model call or Express.
- The P2P client's lifecycle (`new P2PClient`, `onMessage`, `connect`) and the `SIGINT` handler are left out. Their implementation is not part of this model; `LoadConfig` captures only the values handed to them.
- `new Date().toISOString()` is replaced by a timestamp parameter.
- The `Rpc` transport and its promises are replaced by a function parameter `rpc`.
- `DeepPartial` and `Exact` are types only and have no behaviour to model.
- AddressJson.ToJsString and AddressJson.ToBoolean cover null, booleans, integers and strings only. Objects, arrays, fractional numbers, exponent notation and NaN are left out.
- Agent.ToLower: lower-cases ASCII only. Unicode case mapping is left out; after the format check only ASCII hexadecimal digits can match.
- Codec strings are their UTF-8 bytes. The UTF-8 encoder and decoder are left out.
- Agent.ParseInt: models an optional sign and leading decimal digits. Leading white space, `0x` prefixes and values past 2^53 are left out.
- WireIO.Reader.Uint32: models protobufjs's `uint32()` from the encoding guide, as reading at most ten varint bytes and keeping the low 32 bits. Input that ends inside the varint is `Truncated`; a byte after ten continuation bytes is `VarintTooLong`. The model and protobufjs's `uint32()` agree only on varints of at most five bytes, which covers every canonical 32-bit value. On a longer varint, protobufjs reads five bytes and then moves its cursor five bytes further without looking at them, while the model stops after the varint's last byte. So Wire.ReadUint32OfVarint64, and the response decode of an `isValid` varint of 2^35 or more, describe the encoding guide rather than protobufjs.
- AddressProto.DecodeRequest: where protobufjs throws, the model returns an error. Where the reader stands after a failed decode is left out, and so is the `RangeError` text.
- AddressProtoLaws.RequestRoundTrip: requires a length below 2^32 for the string fields (`EncodableRequest` / `EncodableResponse`). `uint32(length)` cannot write anything longer. The same holds for every law built on the encoders.
- Agent.CheckChat: takes `content` as absent, null or a string. A non-string truthy content is left out.
- Agent.HandleMessage: the `message` of the error reply built in the `catch` branch is left out.
