/** Method dispatch in `RpcServer` and what a call returns because of it. */
module Server {
  import opened Bytes
  import opened Bits
  import opened BufferModel
  import opened BufferCodec
  import opened Codec
  import opened SerialModel
  import opened Serializers
  import opened ProtocolModel
  import opened Protocols
  import opened Sessions

  /** What a registered function does with its decoded arguments. */
  datatype Effect = Returned(value: Val) | Raised(what: seq<byte>)

  datatype Method = Method(params: seq<Ty>, body: seq<Val> -> Effect)

  type Services = map<seq<byte>, Method>

  /** A context: an error code and a message. */
  datatype Context = Context(code: byte, msg: seq<byte>)

  const NO_FUNCTION: seq<byte> := Ascii("no function named ")
  const ARGS_NOT_MATCH: seq<byte> := Ascii("args not match")

  // ---- the answer to a request -------------------------------------------------------------

  /** `internal_method_impl` on flat argument bytes. */
  function Invoked(m: Method, args: seq<byte>): Context
  {
    match Decode(TTuple(m.params), args, false)
    case Parsed(VSeq(vs), _) =>
      (match m.body(vs)
       case Returned(_) => Context(RPC_SUCCESS, [])
       case Raised(what) => Context(RPC_METHOD_CALL_EXCEPTION, what))
    case _ => Context(RPC_PARAM_NOT_MATCH, ARGS_NOT_MATCH)
  }

  /** The context of the response to a request with payload `content`; an unreadable name throws. */
  function Answer(services: Services, content: seq<byte>): Outcome<Context>
  {
    match ParseStringVint(content)
    case Short => OutOfRange
    case Parsed(name, args) =>
      if name !in services then Ok(Context(RPC_NO_METHOD, NO_FUNCTION + name))
      else Ok(Invoked(services[name], args))
  }

  /** The response carries the request's own payload. */
  function Reply(services: Services, req: Msg): Outcome<Msg>
  {
    match Answer(services, req.payload)
    case Ok(ctx) => Ok(Created(METHOD_RESPONSE, ctx.code, ctx.msg, req.payload, req.id))
    case _ => OutOfRange
  }

  /** Every request whose name can be read is answered, and no other: by a method response under the request's id, with
      the request's payload. */
  lemma ReplyAnswersRequest(services: Services, req: Msg)
    ensures Reply(services, req) == OutOfRange <==> ParseStringVint(req.payload) == Short
    ensures ParseStringVint(req.payload).Parsed? ==>
              && Reply(services, req).Ok?
              && var rsp := Reply(services, req).value;
                 && rsp.kind == 1 && rsp.id == req.id && rsp.payload == req.payload
                 && rsp.magic == 0xfc && rsp.version == 0x10
  {
  }

  /** The code and text of the answer: 2 for an unknown name, 3 for arguments that cannot be decoded, 4 for a function
      that throws, and 1 without a text for one that returns. */
  lemma ReplyCode(services: Services, req: Msg)
    requires ParseStringVint(req.payload).Parsed?
    ensures var p, rsp := ParseStringVint(req.payload), Reply(services, req);
            && rsp.Ok?
            && if p.value !in services then rsp.value.errCode == 2 && rsp.value.errMsg == Ascii("no function named ") + p.value
               else
                 var m := services[p.value];
                 match Decode(TTuple(m.params), p.rest, false)
                 case Short => rsp.value.errCode == 3 && rsp.value.errMsg == Ascii("args not match")
                 case Parsed(args, _) =>
                   && args.VSeq?
                   && match m.body(args.vs)
                      case Returned(_) => rsp.value.errCode == 1 && rsp.value.errMsg == []
                      case Raised(what) => rsp.value.errCode == 4 && rsp.value.errMsg == what
  {
    var p := ParseStringVint(req.payload);
    if p.value in services {
      TupleDecode(TTuple(services[p.value].params), p.rest, false);
    }
  }

  /** What `handleClient` answers a message, by its type: a call and a heartbeat are answered, anything else is not. */
  function Handled(services: Services, m: Msg): Outcome<Option<Msg>>
  {
    if m.kind == METHOD_REQUEST then
      match Reply(services, m)
      case Ok(rsp) => Ok(Some(rsp))
      case _ => OutOfRange
    else if m.kind == HEARTBEAT then Ok(Some(BLANK.(kind := HEARTBEAT)))
    else Ok(None)
  }

  /** By the types' numbers: only a message of type 0 is a call, only one of type 7 a heartbeat. */
  lemma HandledByType(services: Services, m: Msg)
    ensures m.kind == 0 && ParseStringVint(m.payload).Parsed? ==>
              && Handled(services, m).Ok? && Handled(services, m).value.Some?
              && var rsp := Handled(services, m).value.value; rsp.kind == 1 && rsp.id == m.id && rsp.payload == m.payload
    ensures m.kind == 0 && ParseStringVint(m.payload) == Short ==> Handled(services, m) == OutOfRange
    ensures m.kind == 7 ==>
              && Handled(services, m).Ok? && Handled(services, m).value.Some?
              && var rsp := Handled(services, m).value.value; rsp.kind == 7 && rsp.payload == [] && rsp.payloadLen == 0
    ensures m.kind != 0 && m.kind != 7 ==> Handled(services, m) == Ok(None)
  {
  }

  /** What the client serializes for a call. */
  function CallPayload(name: seq<byte>, params: seq<Ty>, args: seq<Val>): seq<byte>
    requires HasType(VSeq(args), TTuple(params))
  {
    StringVint(name) + Encode(VSeq(args), TTuple(params), false)
  }

  /** The server recovers exactly the name and the argument tuple the client serialized. */
  lemma ServerRecoversCall(services: Services, name: seq<byte>, params: seq<Ty>, args: seq<Val>)
    requires |name| < Pow2(64) && HasType(VSeq(args), TTuple(params))
    requires name in services && services[name].params == params
    ensures Answer(services, CallPayload(name, params, args)) ==
            Ok(match services[name].body(args)
               case Returned(_) => Context(RPC_SUCCESS, [])
               case Raised(what) => Context(RPC_METHOD_CALL_EXCEPTION, what))
  {
    var code := Encode(VSeq(args), TTuple(params), false);
    StringVintRoundTrip(name, code);
    RoundTrip(VSeq(args), TTuple(params), false, []);
    assert code + [] == code;
  }

  // ---- what a call returns -----------------------------------------------------------------

  /** What the client makes of a response: a value of the return type, the server's refusal, or a payload that is no
      value of the type. */
  datatype CallResult = Got(value: Val) | Refused(ctx: Context) | TypeMismatch

  function ClientResult(t: Ty, rsp: Msg): CallResult
  {
    if rsp.errCode != RPC_SUCCESS then Refused(Context(rsp.errCode, rsp.errMsg)) else DecodedResult(t, rsp.payload)
  }

  function DecodedResult(t: Ty, payload: seq<byte>): CallResult
  {
    match Decode(t, payload, false)
    case Parsed(v, _) => Got(v)
    case Short => TypeMismatch
  }

  /** By the response's code: 1 stands for a value of the type or a mismatch, anything else is passed on as refused. */
  lemma ClientResultIs(t: Ty, rsp: Msg)
    ensures rsp.errCode != 1 ==> ClientResult(t, rsp) == Refused(Context(rsp.errCode, rsp.errMsg))
    ensures rsp.errCode == 1 ==>
              match Decode(t, rsp.payload, false)
              case Parsed(v, _) => ClientResult(t, rsp) == Got(v)
              case Short => ClientResult(t, rsp) == TypeMismatch
  {
  }

  /** The request of a call. */
  function CallRequest(name: seq<byte>, params: seq<Ty>, args: seq<Val>, id: nat): Msg
    requires HasType(VSeq(args), TTuple(params))
  {
    Created(METHOD_REQUEST, RPC_SUCCESS, [], CallPayload(name, params, args), id)
  }

  /** A call of which the request fits a chunk. */
  ghost predicate Compact(name: seq<byte>, params: seq<Ty>, args: seq<Val>)
  {
    HasType(VSeq(args), TTuple(params)) && HEADER_LEN + |CallPayload(name, params, args)| <= BASE_SIZE
  }

  /** A call of a registered function whose frame fits a chunk. */
  ghost predicate Callable(services: Services, name: seq<byte>, params: seq<Ty>, args: seq<Val>, id: nat)
  {
    && name in services && services[name].params == params
    && Compact(name, params, args) && id < Pow2(64)
  }

  /** A message without text that fits a chunk is sent without a fault and parsed back whole, whatever follows. */
  lemma ChunkSizedFrame(kind: byte, code: byte, content: seq<byte>, id: nat, tail: seq<byte>)
    requires HEADER_LEN + |content| <= BASE_SIZE && id < Pow2(64) && code < 128
    ensures var m := Created(kind, code, [], content, id);
            && m.payload == content && m.errCode == code && m.kind == kind && m.id == id
            && !SendFaults(true, Frame(m))
            && ParseFrame(Frame(m).value + tail) == Ok(Some((m, tail)))
  {
    assert Pow2(12) == BASE_SIZE;
    Pow2Monotone(12, 64);
    CreatedIsPlain(kind, code, content, id);
    var m := Created(kind, code, [], content, id);
    PlainFrame(m);
    FrameRoundTrip(m, tail);
  }

  lemma ShortName(name: seq<byte>, params: seq<Ty>, args: seq<Val>, w: nat)
    requires Compact(name, params, args) && w >= 12
    ensures |name| < Pow2(w)
  {
    assert Pow2(12) == BASE_SIZE;
    Pow2Monotone(12, w);
  }

  /** End to end, for every return type and every function that returns: request and response cross the wire whole,
      and the client gets what its own request decodes to as a value of that type, whatever the function computed. */
  lemma CallReturnsItsRequest(services: Services, name: seq<byte>, params: seq<Ty>, args: seq<Val>, id: nat, t: Ty,
                              tail: seq<byte>, more: seq<byte>)
    requires Callable(services, name, params, args, id) && services[name].body(args).Returned?
    ensures var req := CallRequest(name, params, args, id);
            && !SendFaults(true, Frame(req))
            && ParseFrame(Frame(req).value + tail) == Ok(Some((req, tail)))
            && Reply(services, req).Ok?
            && var rsp := Reply(services, req).value;
               && !SendFaults(true, Frame(rsp))
               && ParseFrame(Frame(rsp).value + more) == Ok(Some((rsp, more)))
               && rsp.kind == 1 && rsp.id == id && req.kind == 0 && req.id == id && rsp.errCode == 1
               && Handled(services, req) == Ok(Some(rsp))
               && ClientResult(t, rsp) == DecodedResult(t, CallPayload(name, params, args))
  {
    var content := CallPayload(name, params, args);
    ChunkSizedFrame(METHOD_REQUEST, RPC_SUCCESS, content, id, tail);
    ChunkSizedFrame(METHOD_RESPONSE, RPC_SUCCESS, content, id, more);
    ShortName(name, params, args, 64);
    ServerRecoversCall(services, name, params, args);
  }

  /** Asked for a number that is written as a varint, a call returns the length of the function's name, read as a
      number of that type. */
  lemma NumberCallReturnsNameLength(name: seq<byte>, params: seq<Ty>, args: seq<Val>, t: Ty)
    requires Compact(name, params, args) && IsVarint(t)
    ensures DecodedResult(t, CallPayload(name, params, args)) == Got(Scalar(t, |name|))
  {
    var w := VarintWidth(t);
    ShortName(name, params, args, w);
    LengthComesFirst(name, params, args, w);
  }

  /** For an unsigned type that is the length itself. */
  lemma UnsignedCallReturnsNameLength(name: seq<byte>, params: seq<Ty>, args: seq<Val>, t: Ty)
    requires Compact(name, params, args) && (t == TU32 || t == TU64)
    ensures DecodedResult(t, CallPayload(name, params, args)) == Got(VInt(|name|))
  {
    NumberCallReturnsNameLength(name, params, args, t);
  }

  /** For a signed one it is the length read as a zigzag number: half of it, or minus half of one more. */
  lemma SignedCallReturnsZigzag(name: seq<byte>, params: seq<Ty>, args: seq<Val>, t: Ty)
    requires Compact(name, params, args) && (t == TI32 || t == TI64)
    ensures DecodedResult(t, CallPayload(name, params, args))
            == Got(VInt(if |name| % 2 == 0 then |name| / 2 else -(|name| / 2) - 1))
  {
    NumberCallReturnsNameLength(name, params, args, t);
    ShortName(name, params, args, VarintWidth(t));
    SignedScalar(t, |name|);
  }

  lemma SignedScalar(t: Ty, n: nat)
    requires (t == TI32 || t == TI64) && n < Pow2(VarintWidth(t))
    ensures Scalar(t, n) == VInt(if n % 2 == 0 then n / 2 else -(n / 2) - 1)
  {
    ZagValue(n, VarintWidth(t));
  }

  /** And asked for a string, the name. */
  lemma StringCallReturnsName(name: seq<byte>, params: seq<Ty>, args: seq<Val>)
    requires Compact(name, params, args)
    ensures DecodedResult(TString, CallPayload(name, params, args)) == Got(VString(name))
  {
    ShortName(name, params, args, 64);
    StringVintRoundTrip(name, Encode(VSeq(args), TTuple(params), false));
  }

  lemma LengthComesFirst(name: seq<byte>, params: seq<Ty>, args: seq<Val>, w: nat)
    requires HasType(VSeq(args), TTuple(params)) && w > 0 && |name| < Pow2(w)
    ensures var code := Encode(VSeq(args), TTuple(params), false);
            ParseVarint(CallPayload(name, params, args), 0, w, 0) == Parsed(|name|, name + code)
  {
    var code := Encode(VSeq(args), TTuple(params), false);
    assert CallPayload(name, params, args) == Varint(|name|) + (name + code);
    VarintRoundTrip(|name|, w, name + code);
  }

  /** The reply to a call of an unknown function can be encoded exactly when the arguments are long enough to
      cover the message it carries. */
  lemma UnknownMethodReplyEncodes(services: Services, req: Msg, name: seq<byte>, args: seq<byte>)
    requires req.payload == StringVint(name) + args && |req.payload| < Pow2(63) && name !in services
    requires |NO_FUNCTION| + |name| < Pow2(63)
    ensures Reply(services, req).Ok?
    ensures Frame(Reply(services, req).value).Ok? <==> |NO_FUNCTION| <= |Varint(|name|)| + |args|
  {
    assert Pow2(64) == 2 * Pow2(63);
    StringVintRoundTrip(name, args);
    CreatedFrame(METHOD_RESPONSE, RPC_NO_METHOD, NO_FUNCTION + name, req.payload, req.id);
  }

  /** Registering a function changes the answers to calls of its name and to no others. */
  lemma RegisteringChangesOneAnswer(services: Services, name: seq<byte>, m: Method, content: seq<byte>)
    ensures var p := ParseStringVint(content);
            Answer(services[name := m], content)
            == if p.Parsed? && p.value == name then Ok(Invoked(m, p.rest)) else Answer(services, content)
  {
  }

  // ---- the class ---------------------------------------------------------------------------

  class RpcServer {
    var services: Services

    constructor ()
      ensures services == map[]
    {
      services := map[];
    }

    /** A later registration under the same name replaces the earlier one. */
    method RegisterMethod(name: seq<byte>, m: Method)
      modifies this
      ensures services == old(services)[name := m]
    {
      services := services[name := m];
    }

    /** The argument tuple, decoded from a fresh buffer. */
    method DecodeArgs(params: seq<Ty>, args: seq<byte>) returns (r: Outcome<Val>)
      ensures |args| < BASE_SIZE ==>
                match Decode(TTuple(params), args, false)
                case Parsed(v, _) => r == Ok(v)
                case Short => r == OutOfRange
    {
      r := DecodeFresh(TTuple(params), args);
    }

    /** `internal_method_impl`. */
    method Invoke(m: Method, args: seq<byte>) returns (r: Outcome<Context>)
      ensures |args| < BASE_SIZE ==> r == Ok(Invoked(m, args))
    {
      var tuple := DecodeArgs(m.params, args);
      match tuple
      case Ok(VSeq(vs)) =>
        var effect := m.body(vs);
        match effect {
          case Returned(_) => r := Ok(Context(RPC_SUCCESS, []));
          case Raised(what) => r := Ok(Context(RPC_METHOD_CALL_EXCEPTION, what));
        }
      case BadAccess => r := BadAccess;
      case _ => r := Ok(Context(RPC_PARAM_NOT_MATCH, ARGS_NOT_MATCH));
    }

    /** The function name, and then everything it left unread. */
    method SplitRequest(s: Serializer, ghost content: seq<byte>) returns (name: Outcome<seq<byte>>, args: Outcome<seq<byte>>)
      requires s.Valid() && s.bt.Model().Unread() == content
      modifies s.bt`position, s.bt`cur, s.bt`lag
      ensures s.Valid()
      ensures SameChunk(old(s.bt.Model())) ==>
                && Moved(old(s.bt.Model()), s.bt.Model())
                && match ParseStringVint(content)
                   case Parsed(n, rest) => name == Ok(n) && args == Ok(rest)
                   case Short => name == OutOfRange
    {
      if SameChunk(s.bt.Model()) {
        StringVintAgrees(s.bt.Model());
      }
      name := TakeStringVint(s.bt);
      args := s.bt.ToString();
    }

    /** Lookup and call. */
    method Answering(name: seq<byte>, args: Outcome<seq<byte>>) returns (r: Outcome<Context>)
      ensures name !in services ==> r == Ok(Context(RPC_NO_METHOD, NO_FUNCTION + name))
      ensures name in services && args.Ok? && |args.value| < BASE_SIZE ==> r == Ok(Invoked(services[name], args.value))
    {
      if name !in services {
        return Ok(Context(RPC_NO_METHOD, NO_FUNCTION + name));
      }
      if !args.Ok? {
        return BadAccess;
      }
      r := Invoke(services[name], args.value);
    }

    /** Rewind the request buffer and take all of it. */
    method Echo(s: Serializer, ghost v: View) returns (r: Outcome<seq<byte>>)
      requires s.Valid()
      modifies s.bt`position, s.bt`size, s.bt`cur, s.bt`lag
      ensures Moved(v, old(s.bt.Model())) && v.Valid() && v.pos == 0 ==> r == Ok(v.Unread())
    {
      var moved := s.bt.SetPosition(0);
      r := s.bt.ToString();
    }

    /** `handleHeartbeat`. */
    method HandleHeartbeat() returns (p: Protocol)
      ensures fresh(p) && p.Model() == BLANK.(kind := HEARTBEAT)
    {
      p := new Protocol();
      p.kind := HEARTBEAT;
    }

    /** The dispatch of `handleClient` on a received message. */
    method HandleMessage(req: Protocol) returns (r: Outcome<Protocol?>)
      ensures |req.payload| < BASE_SIZE ==>
                match Handled(services, req.Model())
                case Ok(Some(m)) => r.Ok? && r.value != null && fresh(r.value) && r.value.Model() == m
                case Ok(None) => r == Ok(null)
                case _ => r == OutOfRange
    {
      if req.kind == METHOD_REQUEST {
        var p := HandleMethodCall(req);
        match p
        case Ok(rsp) => r := Ok(rsp);
        case OutOfRange => r := OutOfRange;
        case BadAccess => r := BadAccess;
      } else if req.kind == HEARTBEAT {
        var p := HandleHeartbeat();
        r := Ok(p);
      } else {
        r := Ok(null);
      }
    }

    /** `handleMethodCall`. */
    method HandleMethodCall(req: Protocol) returns (r: Outcome<Protocol>)
      ensures |req.payload| < BASE_SIZE ==>
                match Reply(services, req.Model())
                case Ok(m) => r.Ok? && fresh(r.value) && r.value.Model() == m
                case _ => r == OutOfRange
    {
      var s := new Serializer.FromData(BASE_SIZE, req.payload);
      ghost var v := s.bt.Model();
      if |req.payload| < BASE_SIZE {
        StartsInOneChunk(v);
        RestIsShorter(req.payload);
      }
      var name, args := SplitRequest(s, req.payload);
      if !name.Ok? {
        return if name.OutOfRange? then OutOfRange else BadAccess;
      }
      var ctx := Answering(name.value, args);
      var echo := Echo(s, v);
      if !ctx.Ok? || !echo.Ok? {
        return BadAccess;
      }
      var p := Protocol.Create(METHOD_RESPONSE, ctx.value.code, ctx.value.msg, echo.value, req.id);
      r := Ok(p);
    }
  }

  lemma RestIsShorter(s: seq<byte>)
    ensures ParseStringVint(s).Parsed? ==> |ParseStringVint(s).rest| <= |s|
  {
    VarintRestIsShorter(s, 0, 64, 0);
  }

  lemma StartsInOneChunk(v: View)
    requires v.Valid() && v.lag == 0 && v.pos == 0 && v.base == BASE_SIZE && |v.Unread()| < BASE_SIZE
    ensures SameChunk(v)
  {
    DivUnique(0, v.base, 0, 0);
    DivUnique(v.size, v.base, 0, v.size);
    MulMonotone(1, v.count, v.base);
  }

  /** A value decoded from a buffer made for it. */
  method DecodeFresh(t: Ty, data: seq<byte>) returns (r: Outcome<Val>)
    ensures |data| < BASE_SIZE ==>
              match Decode(t, data, false)
              case Parsed(v, _) => r == Ok(v)
              case Short => r == OutOfRange
  {
    var s := new Serializer.FromData(BASE_SIZE, data);
    if |data| < BASE_SIZE {
      StartsInOneChunk(s.bt.Model());
      DecodeAgrees(t, s.bt.Model(), false);
    }
    r := s.Get(t);
  }

  /** The end of the client's `call_internal`: a response of less than a chunk is read as the model says. */
  method TakeResult(t: Ty, rsp: Protocol) returns (r: Outcome<CallResult>)
    ensures |rsp.payload| < BASE_SIZE ==> r == Ok(ClientResult(t, rsp.Model()))
  {
    if rsp.errCode != RPC_SUCCESS {
      return Ok(Refused(Context(rsp.errCode, rsp.errMsg)));
    }
    var v := DecodeFresh(t, rsp.payload);
    match v
    case Ok(x) => r := Ok(Got(x));
    case OutOfRange => r := Ok(TypeMismatch);
    case BadAccess => r := BadAccess;
  }
}
