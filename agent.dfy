/**
 * The address-moderation agent of `src/index.ts`: the format check an incoming
 * address must pass, the case-insensitive blacklist lookup, the replies the
 * peer-to-peer handler sends back and the HTTP results of the check endpoint,
 * the checks on a chat request, and the configuration taken from the
 * environment at start-up.
 *
 * The blacklist, the clock and the environment are parameters; replies and HTTP
 * results are values, not JSON text.
 */
module Agent {
  import opened Wrappers

  // ------------------------------------------------------------ the format check

  /** One character class of a regular expression. */
  datatype CharClass = Exactly(c: char) | AnyOf(ranges: seq<CharRange>)

  /** The range `lo-hi` of a bracket expression. */
  datatype CharRange = CharRange(lo: char, hi: char)

  /** A class repeated exactly `count` times (`atom{count}`; a plain atom is `{1}`). */
  datatype Piece = Piece(atom: CharClass, count: nat)

  predicate InClass(k: CharClass, c: char) {
    match k
    case Exactly(d) => c == d
    case AnyOf(ranges) => exists i | 0 <= i < |ranges| :: ranges[i].lo <= c <= ranges[i].hi
  }

  /** `^p$`: the whole of `s` is the pieces of `p`, one after another. Every piece
      has a fixed length, so there is nothing to backtrack over. */
  predicate Matches(p: seq<Piece>, s: string)
    decreases |p|
  {
    if p == [] then s == []
    else
      && p[0].count <= |s|
      && (forall i | 0 <= i < p[0].count :: InClass(p[0].atom, s[i]))
      && Matches(p[1..], s[p[0].count..])
  }

  /** `/^0x[a-fA-F0-9]{40}$/` */
  const ETH_ADDRESS_REGEX: seq<Piece> :=
    [Piece(Exactly('0'), 1), Piece(Exactly('x'), 1),
     Piece(AnyOf([CharRange('a', 'f'), CharRange('A', 'F'), CharRange('0', '9')]), 40)]

  predicate IsHexDigit(c: char) {
    ('0' <= c <= '9') || ('a' <= c <= 'f') || ('A' <= c <= 'F')
  }

  /** The shape of an Ethereum address: 42 characters, `0x` with a lower-case `x`,
      then 40 hexadecimal digits of either case (no EIP-55 checksum). */
  predicate HasAddressFormat(s: string) {
    && |s| == 42
    && s[0] == '0' && s[1] == 'x'
    && forall i | 2 <= i < 42 :: IsHexDigit(s[i])
  }

  /** `ethAddressRegex.test(s)`: true exactly for the strings of the address shape. */
  predicate IsEthAddress(s: string): (b: bool)
    ensures b <==> HasAddressFormat(s)
  {
    EthAddressRegex(s);
    Matches(ETH_ADDRESS_REGEX, s)
  }

  /** The regular expression accepts exactly the strings of the address shape. */
  lemma EthAddressRegex(s: string)
    ensures Matches(ETH_ADDRESS_REGEX, s) <==> HasAddressFormat(s)
  {
    var p := ETH_ADDRESS_REGEX;
    var hex := p[2].atom;
    assert p[1..][1..] == [p[2]] && p[1..][1..][1..] == [];
    assert forall c :: InClass(hex, c) <==> IsHexDigit(c) by {
      forall c ensures InClass(hex, c) <==> IsHexDigit(c) {
        if IsHexDigit(c) {
          if 'a' <= c <= 'f' {
            assert hex.ranges[0].lo <= c <= hex.ranges[0].hi;
          } else if 'A' <= c <= 'F' {
            assert hex.ranges[1].lo <= c <= hex.ranges[1].hi;
          } else {
            assert hex.ranges[2].lo <= c <= hex.ranges[2].hi;
          }
        }
      }
    }
    if 2 <= |s| {
      var digits := s[2..];
      assert s[1..][1..] == digits;
      assert Matches(p, s) == (s[0] == '0' && Matches(p[1..], s[1..]));
      assert Matches(p[1..], s[1..]) == (s[1] == 'x' && Matches(p[1..][1..], digits));
      assert Matches(p[1..][1..], digits) <==>
             (40 <= |digits| && (forall i | 0 <= i < 40 :: InClass(hex, digits[i])) && digits[40..] == []);
      if |digits| == 40 {
        assert (forall i | 0 <= i < 40 :: IsHexDigit(digits[i])) <==> (forall i | 2 <= i < 42 :: IsHexDigit(s[i])) by {
          assert forall i | 0 <= i < 40 :: digits[i] == s[i + 2];
        }
      }
    } else if |s| == 1 {
      assert s[1..] == [];
    }
  }

  // ------------------------------------------------------------ the blacklist

  /** `toLowerCase` on one character: the ASCII capitals become small letters. */
  function LowerChar(c: char): (l: char)
    ensures 'A' <= c <= 'Z' ==> l as int == c as int + 32 && 'a' <= l <= 'z'
    ensures !('A' <= c <= 'Z') ==> l == c
  {
    if 'A' <= c <= 'Z' then (c as int + 32) as char else c
  }

  /** `s.toLowerCase()` */
  function ToLower(s: string): (r: string)
    ensures |r| == |s| && forall i | 0 <= i < |s| :: r[i] == LowerChar(s[i])
    decreases |s|
  {
    if s == [] then [] else [LowerChar(s[0])] + ToLower(s[1..])
  }

  /** Lower-casing twice is lower-casing once. */
  lemma ToLowerIdempotent(s: string)
    ensures ToLower(ToLower(s)) == ToLower(s)
  {
    var once := ToLower(s);
    assert forall i | 0 <= i < |s| :: LowerChar(once[i]) == once[i];
  }

  /** `blacklist.some((addr) => addr.toLowerCase() === normalizedAddress)` with
      `normalizedAddress` the lower-cased address. */
  function IsBlacklisted(address: string, blacklist: seq<string>): (b: bool)
    ensures b <==> exists i | 0 <= i < |blacklist| :: ToLower(blacklist[i]) == ToLower(address)
    decreases |blacklist|
  {
    if blacklist == [] then false
    else if ToLower(blacklist[0]) == ToLower(address) then true
    else
      var b := IsBlacklisted(address, blacklist[1..]);
      assert forall i | 1 <= i < |blacklist| :: blacklist[i] == blacklist[1..][i - 1];
      b
  }

  /** The lookup does not see the letter case of the address. */
  lemma BlacklistIgnoresCase(address: string, other: string, blacklist: seq<string>)
    requires ToLower(address) == ToLower(other)
    ensures IsBlacklisted(address, blacklist) == IsBlacklisted(other, blacklist)
  {
  }

  /** An address listed in any letter case is blacklisted. */
  lemma ListedIsBlacklisted(address: string, blacklist: seq<string>, i: nat)
    requires i < |blacklist| && ToLower(blacklist[i]) == ToLower(address)
    ensures IsBlacklisted(address, blacklist)
    ensures IsBlacklisted(ToLower(address), blacklist)
  {
    ToLowerIdempotent(address);
  }

  // ------------------------------------------------------------ the peer handler

  /** What the clock said when a reply was built (`new Date().toISOString()`). */
  type Timestamp = string

  /** The fields of an incoming peer message the handler reads. */
  datatype Message = Message(fromAgentId: string, content: string)

  /** The reply objects `handleMessage` sends, as values. */
  datatype Reply =
    | ErrorReply(message: string, address: string)
    | SuccessReply(address: string, isBlacklisted: bool, timestamp: Timestamp)

  /** The `status` field of a reply. */
  function Status(r: Reply): string {
    if r.ErrorReply? then "error" else "success"
  }

  /** A reply and the agent it is sent to (`client.sendMessage(to, reply)`). */
  datatype Outgoing = Outgoing(to: string, reply: Reply)

  const INVALID_ADDRESS_FORMAT: string := "Invalid Ethereum address format"

  /** `handleMessage(message)`: a content that is not an address gets an error
      reply carrying it back; an address gets a success reply with the
      blacklist verdict. Either way the reply goes to the sender. */
  function HandleMessage(message: Message, blacklist: seq<string>, now: Timestamp): (out: Outgoing)
    ensures out.to == message.fromAgentId
    ensures out.reply.SuccessReply? <==> HasAddressFormat(message.content)
    ensures out.reply.ErrorReply? ==> out.reply == ErrorReply(INVALID_ADDRESS_FORMAT, message.content)
    ensures out.reply.SuccessReply? ==> out.reply.address == message.content && out.reply.timestamp == now
    ensures out.reply.SuccessReply? ==>
              (out.reply.isBlacklisted <==> exists i | 0 <= i < |blacklist| :: ToLower(blacklist[i]) == ToLower(message.content))
  {
    if !IsEthAddress(message.content) then
      Outgoing(message.fromAgentId, ErrorReply(INVALID_ADDRESS_FORMAT, message.content))
    else
      Outgoing(message.fromAgentId, SuccessReply(message.content, IsBlacklisted(message.content, blacklist), now))
  }

  /** A malformed content is answered without looking at the blacklist or the clock. */
  lemma InvalidIgnoresBlacklist(message: Message, blacklist: seq<string>, other: seq<string>, now: Timestamp, later: Timestamp)
    requires !HasAddressFormat(message.content)
    ensures HandleMessage(message, blacklist, now) == HandleMessage(message, other, later)
    ensures Status(HandleMessage(message, blacklist, now).reply) == "error"
  {
  }

  // ------------------------------------------------------------ the check endpoint

  /** The bodies `GET /api/check/:address` answers with. */
  datatype CheckBody =
    | CheckError(message: string, address: string, timestamp: Timestamp)
    | CheckSuccess(address: string, isBlacklisted: bool, timestamp: Timestamp)

  /** An HTTP status code with the JSON body sent with it, as a value. */
  datatype HttpResult<B> = HttpResult(status: nat, body: B)

  const BAD_REQUEST: nat := 400
  const OK: nat := 200

  /** `GET /api/check/:address`: 400 and an error body for a malformed address,
      otherwise 200 and the blacklist verdict. */
  function CheckAddress(address: string, blacklist: seq<string>, now: Timestamp): (r: HttpResult<CheckBody>)
    ensures r.status == BAD_REQUEST <==> !HasAddressFormat(address)
    ensures r.status == BAD_REQUEST || r.status == OK
    ensures r.status == BAD_REQUEST ==> r.body == CheckError(INVALID_ADDRESS_FORMAT, address, now)
    ensures r.status == OK ==> r.body == CheckSuccess(address, IsBlacklisted(address, blacklist), now)
  {
    if !IsEthAddress(address) then HttpResult(BAD_REQUEST, CheckError(INVALID_ADDRESS_FORMAT, address, now))
    else HttpResult(OK, CheckSuccess(address, IsBlacklisted(address, blacklist), now))
  }

  /** The endpoint and the peer handler reject the same contents with the same
      message and give the same verdict on the others. */
  lemma CheckAgreesWithHandler(address: string, from: string, blacklist: seq<string>, now: Timestamp)
    ensures var reply := HandleMessage(Message(from, address), blacklist, now).reply;
            var check := CheckAddress(address, blacklist, now);
            && (check.status == OK <==> reply.SuccessReply?)
            && (check.status == OK ==> check.body.isBlacklisted == reply.isBlacklisted && check.body.address == reply.address)
            && (check.status == BAD_REQUEST ==> check.body.message == reply.message && check.body.address == reply.address)
  {
  }

  // ------------------------------------------------------------ the chat endpoint

  /** An element of the `messages` array of a chat request that is an object;
      `content` is absent, null or a string. */
  datatype ChatMessage = ChatMessage(content: Option<string>)

  /** What `POST /api/chat` makes of its body before calling the language model:
      a 400 with a message, or the content of the last message. */
  datatype ChatCheck = ChatRejected(status: nat, message: string) | ChatAccepted(content: string)

  const MESSAGES_REQUIRED: string := "Messages array is required"
  const INVALID_MESSAGE_FORMAT: string := "Invalid message format"

  /** The checks of `POST /api/chat`. `messages` is None when the body's
      `messages` is not an array, and an element is None when it is null or
      otherwise falsy. Only the last element is looked at. */
  function CheckChat(messages: Option<seq<Option<ChatMessage>>>): (r: ChatCheck)
    ensures r == ChatRejected(BAD_REQUEST, MESSAGES_REQUIRED) <==> messages.None? || messages.value == []
    ensures r == ChatRejected(BAD_REQUEST, INVALID_MESSAGE_FORMAT) <==>
              && messages.Some? && messages.value != []
              && var last := messages.value[|messages.value| - 1];
                 last.None? || last.value.content.None? || last.value.content.value == []
    ensures r.ChatAccepted? <==>
              && messages.Some? && messages.value != []
              && var last := messages.value[|messages.value| - 1];
                 last.Some? && last.value.content.Some? && last.value.content.value != []
    ensures r.ChatAccepted? ==>
              && messages.Some? && messages.value != []
              && messages.value[|messages.value| - 1] == Some(ChatMessage(Some(r.content)))
              && r.content != []
  {
    match messages
    case None => ChatRejected(BAD_REQUEST, MESSAGES_REQUIRED)
    case Some(items) =>
      if items == [] then ChatRejected(BAD_REQUEST, MESSAGES_REQUIRED)
      else
        match items[|items| - 1]
        case None => ChatRejected(BAD_REQUEST, INVALID_MESSAGE_FORMAT)
        case Some(last) =>
          match last.content
          case None => ChatRejected(BAD_REQUEST, INVALID_MESSAGE_FORMAT)
          case Some(content) =>
            if content == [] then ChatRejected(BAD_REQUEST, INVALID_MESSAGE_FORMAT)
            else ChatAccepted(content)
  }

  /** Only the last message decides: earlier ones, well-formed or not, change nothing. */
  lemma ChatLooksAtLastOnly(earlier: seq<Option<ChatMessage>>, other: seq<Option<ChatMessage>>, last: Option<ChatMessage>)
    ensures CheckChat(Some(earlier + [last])) == CheckChat(Some(other + [last]))
  {
    assert (earlier + [last])[|earlier + [last]| - 1] == last;
    assert (other + [last])[|other + [last]| - 1] == last;
  }

  // ------------------------------------------------------------ configuration

  /** The process environment. */
  type Env = map<string, string>

  /** `process.env[name] || fallback`: an unset or empty variable gives the fallback. */
  function EnvOr(env: Env, name: string, fallback: string): (v: string)
    ensures name in env && env[name] != [] ==> v == env[name]
    ensures name !in env || env[name] == [] ==> v == fallback
  {
    if name in env && env[name] != [] then env[name] else fallback
  }

  predicate IsDecimalDigit(c: char) {
    '0' <= c <= '9'
  }

  /** The number of decimal digits `s` starts with. */
  function LeadingDigits(s: string): (n: nat)
    ensures n <= |s|
    ensures forall i | 0 <= i < n :: IsDecimalDigit(s[i])
    ensures n < |s| ==> !IsDecimalDigit(s[n])
    decreases |s|
  {
    if s != [] && IsDecimalDigit(s[0]) then 1 + LeadingDigits(s[1..]) else 0
  }

  /** The number a string of decimal digits denotes. */
  function DecimalValue(s: string): nat
    requires forall i | 0 <= i < |s| :: IsDecimalDigit(s[i])
    decreases |s|
  {
    if s == [] then 0 else 10 * DecimalValue(s[..|s| - 1]) + DigitValue(s[|s| - 1])
  }

  function DigitValue(c: char): (d: nat)
    requires IsDecimalDigit(c)
    ensures d < 10
  {
    c as int - '0' as int
  }

  /** `parseInt(s)`: an optional sign, then the longest run of decimal digits;
      `NaN` (None) when no digit comes first. */
  function ParseInt(s: string): (r: Option<int>)
    ensures s != [] && IsDecimalDigit(s[0]) ==> r.Some? && r.value >= 0
    ensures s == [] || !(IsDecimalDigit(s[0]) || s[0] == '-' || s[0] == '+') ==> r.None?
    ensures r.Some? && r.value < 0 ==> s[0] == '-'
  {
    var signed := s != [] && (s[0] == '-' || s[0] == '+');
    var digits := if signed then s[1..] else s;
    var n := LeadingDigits(digits);
    if n == 0 then None
    else
      var v: int := DecimalValue(digits[..n]);
      Some(if signed && s[0] == '-' then -v else v)
  }

  /** `parseInt` reads the digits a string starts with and ignores what follows them. */
  lemma ParseIntDigits(digits: string, rest: string)
    requires digits != [] && forall i | 0 <= i < |digits| :: IsDecimalDigit(digits[i])
    requires rest == [] || !IsDecimalDigit(rest[0])
    ensures ParseInt(digits + rest) == Some(DecimalValue(digits))
  {
    var s := digits + rest;
    LeadingDigitsOf(digits, rest);
    assert s[..|digits|] == digits;
  }

  lemma {:induction false} LeadingDigitsOf(digits: string, rest: string)
    requires forall i | 0 <= i < |digits| :: IsDecimalDigit(digits[i])
    requires rest == [] || !IsDecimalDigit(rest[0])
    ensures LeadingDigits(digits + rest) == |digits|
    decreases |digits|
  {
    if digits == [] {
      assert digits + rest == rest;
    } else {
      assert (digits + rest)[1..] == digits[1..] + rest;
      LeadingDigitsOf(digits[1..], rest);
    }
  }

  /** What `main` reads from the environment before it starts the agent. */
  datatype Config = Config(
    p2pAddress: string,          // the gRPC address of the peer-to-peer node
    p2pPort: Option<int>,        // `parseInt(P2P_PORT || "8000")`, None for NaN
    httpPort: Option<int>,       // `parseInt(HTTP_PORT || "3000")`
    agentId: string,
    binaryPath: Option<string>,  // P2P_NODE_PATH as it is, None when unset
    timeout: nat)                // milliseconds

  const DEFAULT_GRPC_PORT: string := "50051"
  const DEFAULT_P2P_PORT: string := "8000"
  const DEFAULT_HTTP_PORT: string := "3000"
  const DEFAULT_AGENT_NAME: string := "default-agent"
  const P2P_TIMEOUT: nat := 5000

  /** The configuration `main` builds from `env`. */
  function LoadConfig(env: Env): (c: Config)
    ensures c.p2pAddress == "localhost:" + EnvOr(env, "GRPC_PORT", DEFAULT_GRPC_PORT)
    ensures c.p2pPort == ParseInt(EnvOr(env, "P2P_PORT", DEFAULT_P2P_PORT))
    ensures c.httpPort == ParseInt(EnvOr(env, "HTTP_PORT", DEFAULT_HTTP_PORT))
    ensures c.agentId == EnvOr(env, "AGENT_NAME", DEFAULT_AGENT_NAME) && c.agentId != []
    ensures c.binaryPath == (if "P2P_NODE_PATH" in env then Some(env["P2P_NODE_PATH"]) else None)
    ensures c.timeout == P2P_TIMEOUT
  {
    Config(
      "localhost:" + EnvOr(env, "GRPC_PORT", DEFAULT_GRPC_PORT),
      ParseInt(EnvOr(env, "P2P_PORT", DEFAULT_P2P_PORT)),
      ParseInt(EnvOr(env, "HTTP_PORT", DEFAULT_HTTP_PORT)),
      EnvOr(env, "AGENT_NAME", DEFAULT_AGENT_NAME),
      if "P2P_NODE_PATH" in env then Some(env["P2P_NODE_PATH"]) else None,
      P2P_TIMEOUT)
  }

  /** The variable `main` reads is unset or empty. */
  predicate Unset(env: Env, name: string) {
    name !in env || env[name] == []
  }

  /** With nothing set, the agent talks to `localhost:50051`, listens for peers
      on 8000 and for HTTP on 3000, and calls itself "default-agent". */
  lemma DefaultConfig(env: Env)
    requires Unset(env, "GRPC_PORT") && Unset(env, "P2P_PORT") && Unset(env, "HTTP_PORT")
    requires Unset(env, "AGENT_NAME") && "P2P_NODE_PATH" !in env
    ensures LoadConfig(env) == Config("localhost:50051", Some(8000), Some(3000), "default-agent", None, 5000)
  {
    DefaultPorts();
  }

  /** The default port strings parse to their numbers. */
  lemma DefaultPorts()
    ensures ParseInt(DEFAULT_P2P_PORT) == Some(8000)
    ensures ParseInt(DEFAULT_HTTP_PORT) == Some(3000)
  {
    ParseIntDigits(DEFAULT_P2P_PORT, []);
    ParseIntDigits(DEFAULT_HTTP_PORT, []);
    assert DEFAULT_P2P_PORT + [] == DEFAULT_P2P_PORT && DEFAULT_HTTP_PORT + [] == DEFAULT_HTTP_PORT;
    assert "8"[..0] == "" && "80"[..1] == "8" && "800"[..2] == "80" && DEFAULT_P2P_PORT[..3] == "800";
    assert DecimalValue("8") == 8 && DecimalValue("80") == 80 && DecimalValue("800") == 800;
    assert "3"[..0] == "" && "30"[..1] == "3" && "300"[..2] == "30" && DEFAULT_HTTP_PORT[..3] == "300";
    assert DecimalValue("3") == 3 && DecimalValue("30") == 30 && DecimalValue("300") == 300;
  }
}
