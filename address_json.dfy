/**
 * The JavaScript-object side of the generated codec of `address.proto`:
 * `fromJSON` and `toJSON`, which turn messages into plain JSON objects and
 * back, and `create` and `fromPartial`, which fill in the fields a partial
 * message leaves out. JSON strings are kept as the same bytes the message
 * fields hold; JSON numbers are integers.
 */
module AddressJson {
  import Wrappers
  import opened Wire
  import opened AddressProto

  /** A property read on a JavaScript object: absent (`undefined`), `null`, or a value. */
  datatype Nullable<T> = Undefined | Null | Defined(value: T)

  /** `isSet(value)`: `value !== null && value !== undefined`. */
  predicate IsSet<T>(x: Nullable<T>)
    ensures IsSet(x) <==> x.Defined?
  {
    !x.Null? && !x.Undefined?
  }

  /** `x ?? d`: the default for `null` and `undefined`. */
  function Coalesce<T>(x: Nullable<T>, d: T): (r: T)
    ensures IsSet(x) ==> r == x.value
    ensures !IsSet(x) ==> r == d
  {
    match x
    case Defined(v) => v
    case _ => d
  }

  // ------------------------------------------------------------ JSON values

  /** A JSON value other than an array or an object. */
  datatype JsonValue = JNull | JBool(b: bool) | JNumber(n: int) | JString(s: Bytes)

  /** A JSON object: its properties by name. */
  type JsonObject = map<string, JsonValue>

  /** `object.key`: `undefined` when the object has no such property. */
  function Property(o: JsonObject, key: string): (p: Nullable<JsonValue>)
    ensures key !in o ==> p.Undefined?
    ensures key in o ==> (p.Null? <==> o[key] == JNull)
    ensures p.Defined? ==> key in o && p.value == o[key]
  {
    if key !in o then Undefined
    else if o[key] == JNull then Null
    else Defined(o[key])
  }

  /** `globalThis.Boolean(value)`: false exactly for the falsy values. */
  function ToBoolean(v: JsonValue): (b: bool)
    ensures !b <==> v in {JNull, JBool(false), JNumber(0), JString([])}
  {
    match v
    case JNull => false
    case JBool(b) => b
    case JNumber(n) => n != 0
    case JString(s) => s != []
  }

  const ZERO: byte := 48
  const MINUS: byte := 45

  predicate IsDigit(c: byte) {
    ZERO <= c < ZERO + 10
  }

  predicate AllDigits(s: Bytes) {
    forall i | 0 <= i < |s| :: IsDigit(s[i])
  }

  /** The decimal digits of `n`, most significant first, with no leading zero. */
  function DecimalDigits(n: nat): (r: Bytes)
    ensures r != [] && AllDigits(r)
    ensures r[0] == ZERO <==> n == 0
    decreases n
  {
    if n < 10 then [ZERO + n] else DecimalDigits(n / 10) + [ZERO + n % 10]
  }

  /** The number a string of decimal digits denotes. */
  function DigitsValue(s: Bytes): nat
    requires AllDigits(s)
    decreases |s|
  {
    if s == [] then 0 else 10 * DigitsValue(s[..|s| - 1]) + (s[|s| - 1] - ZERO)
  }

  /** The integer a string of the form `-?[0-9]+` denotes, if it has that form. */
  function IntegerValue(s: Bytes): Wrappers.Option<int> {
    if s != [] && s[0] == MINUS && |s| > 1 && AllDigits(s[1..]) then Wrappers.Some(-(DigitsValue(s[1..]) as int))
    else if s != [] && AllDigits(s) then Wrappers.Some(DigitsValue(s))
    else Wrappers.None
  }

  lemma {:induction false} DigitsValueOfDecimal(n: nat)
    ensures DigitsValue(DecimalDigits(n)) == n
    decreases n
  {
    if n >= 10 {
      var high := DecimalDigits(n / 10);
      var r := high + [ZERO + n % 10];
      assert r[..|r| - 1] == high;
      DigitsValueOfDecimal(n / 10);
    }
  }

  /** `globalThis.String(value)`: a string as it is, an integer in decimal with a
      leading minus sign when it is negative, `"true"`, `"false"` and `"null"`. */
  function ToJsString(v: JsonValue): (s: Bytes)
    ensures v.JString? ==> s == v.s
    ensures v.JNumber? ==> IntegerValue(s) == Wrappers.Some(v.n)
  {
    match v
    case JNull => [110, 117, 108, 108]
    case JBool(b) => if b then [116, 114, 117, 101] else [102, 97, 108, 115, 101]
    case JString(s) => s
    case JNumber(n) =>
      DigitsValueOfDecimal(if n < 0 then -n else n);
      if n < 0 then
        assert ([MINUS] + DecimalDigits(-n))[1..] == DecimalDigits(-n);
        [MINUS] + DecimalDigits(-n)
      else DecimalDigits(n)
  }

  // ------------------------------------------------------------ fromJSON / toJSON

  /** `AddressRequest.fromJSON(object)`: the address coerced to a string when it
      is set, the empty default when it is absent or null. */
  function RequestFromJson(o: JsonObject): (m: AddressRequest)
    ensures "address" in o && o["address"] != JNull ==> m.address == ToJsString(o["address"])
    ensures "address" !in o || o["address"] == JNull ==> m == CreateBaseAddressRequest()
  {
    var address := Property(o, "address");
    AddressRequest(if IsSet(address) then ToJsString(address.value) else [])
  }

  /** `AddressRequest.toJSON(message)`: an object with the address, unless it is
      the empty default; reading it back gives the message. */
  function RequestToJson(m: AddressRequest): (o: JsonObject)
    ensures o.Keys <= {"address"}
    ensures "address" in o <==> m.address != []
    ensures "address" in o ==> o["address"] == JString(m.address)
    ensures RequestFromJson(o) == m
  {
    if m.address != [] then map["address" := JString(m.address)] else map[]
  }

  /** `AddressResponse.fromJSON(object)`: each field coerced when it is set, at its
      default when it is absent or null. */
  function ResponseFromJson(o: JsonObject): (m: AddressResponse)
    ensures "isValid" in o && o["isValid"] != JNull ==> m.isValid == ToBoolean(o["isValid"])
    ensures "isValid" !in o || o["isValid"] == JNull ==> !m.isValid
    ensures "normalizedAddress" in o && o["normalizedAddress"] != JNull ==>
              m.normalizedAddress == ToJsString(o["normalizedAddress"])
    ensures "normalizedAddress" !in o || o["normalizedAddress"] == JNull ==> m.normalizedAddress == []
  {
    var isValid := Property(o, "isValid");
    var normalizedAddress := Property(o, "normalizedAddress");
    AddressResponse(
      if IsSet(isValid) then ToBoolean(isValid.value) else false,
      if IsSet(normalizedAddress) then ToJsString(normalizedAddress.value) else [])
  }

  /** `AddressResponse.toJSON(message)`: `isValid` only when it is true, the
      normalized address only when it is not empty; reading it back gives the message. */
  function ResponseToJson(m: AddressResponse): (o: JsonObject)
    ensures o.Keys <= {"isValid", "normalizedAddress"}
    ensures "isValid" in o <==> m.isValid
    ensures "isValid" in o ==> o["isValid"] == JBool(true)
    ensures "normalizedAddress" in o <==> m.normalizedAddress != []
    ensures "normalizedAddress" in o ==> o["normalizedAddress"] == JString(m.normalizedAddress)
    ensures ResponseFromJson(o) == m
  {
    var withValid: JsonObject := if m.isValid then map["isValid" := JBool(true)] else map[];
    if m.normalizedAddress != [] then withValid["normalizedAddress" := JString(m.normalizedAddress)]
    else withValid
  }

  // ------------------------------------------------------------ create / fromPartial

  /** `DeepPartial<AddressRequest>`: a request whose field may be left out. */
  datatype AddressRequestPartial = AddressRequestPartial(address: Nullable<Bytes>)

  /** `DeepPartial<AddressResponse>`: a response whose fields may be left out. */
  datatype AddressResponsePartial = AddressResponsePartial(isValid: Nullable<bool>, normalizedAddress: Nullable<Bytes>)

  /** `AddressRequest.fromPartial(object)`: the base message with every field the
      partial object sets. */
  function RequestFromPartial(p: AddressRequestPartial): (m: AddressRequest)
    ensures p.address.Defined? ==> m.address == p.address.value
    ensures !p.address.Defined? ==> m == CreateBaseAddressRequest()
  {
    CreateBaseAddressRequest().(address := Coalesce(p.address, []))
  }

  /** `AddressResponse.fromPartial(object)`. */
  function ResponseFromPartial(p: AddressResponsePartial): (m: AddressResponse)
    ensures p.isValid.Defined? ==> m.isValid == p.isValid.value
    ensures !p.isValid.Defined? ==> m.isValid == CreateBaseAddressResponse().isValid
    ensures p.normalizedAddress.Defined? ==> m.normalizedAddress == p.normalizedAddress.value
    ensures !p.normalizedAddress.Defined? ==> m.normalizedAddress == CreateBaseAddressResponse().normalizedAddress
  {
    CreateBaseAddressResponse().(isValid := Coalesce(p.isValid, false), normalizedAddress := Coalesce(p.normalizedAddress, []))
  }

  /** A whole request is a partial one that sets every field, and `fromPartial`
      gives it back unchanged. */
  function RequestAsPartial(m: AddressRequest): (p: AddressRequestPartial)
    ensures RequestFromPartial(p) == m
  {
    AddressRequestPartial(Defined(m.address))
  }

  /** A whole response is a partial one that sets every field. */
  function ResponseAsPartial(m: AddressResponse): (p: AddressResponsePartial)
    ensures ResponseFromPartial(p) == m
  {
    AddressResponsePartial(Defined(m.isValid), Defined(m.normalizedAddress))
  }

  /** `AddressRequest.create(base)`: `fromPartial(base ?? {})`. */
  function CreateRequest(base: Nullable<AddressRequestPartial>): (m: AddressRequest)
    ensures !base.Defined? ==> m == CreateBaseAddressRequest()
    ensures base.Defined? ==> m == RequestFromPartial(base.value)
  {
    RequestFromPartial(Coalesce(base, AddressRequestPartial(Undefined)))
  }

  /** `AddressResponse.create(base)`: `fromPartial(base ?? {})`. */
  function CreateResponse(base: Nullable<AddressResponsePartial>): (m: AddressResponse)
    ensures !base.Defined? ==> m == CreateBaseAddressResponse()
    ensures base.Defined? ==> m == ResponseFromPartial(base.value)
  {
    ResponseFromPartial(Coalesce(base, AddressResponsePartial(Undefined, Undefined)))
  }
}
