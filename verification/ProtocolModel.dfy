/** A protocol message, its frame on the wire and the parser of frames. */
module ProtocolModel {
  import opened Bytes
  import opened Codec

  const MAGIC: byte := 0xfc
  const VERSION: byte := 0x10
  const HEADER_LEN: nat := 20

  // The message types and error codes the layers above use.
  const METHOD_REQUEST: byte := 0
  const METHOD_RESPONSE: byte := 1
  const HEARTBEAT: byte := 7

  const RPC_SUCCESS: byte := 1
  const RPC_NO_METHOD: byte := 2
  const RPC_PARAM_NOT_MATCH: byte := 3
  const RPC_METHOD_CALL_EXCEPTION: byte := 4

  /** The fields of `Protocol`; `kind` is its `m_type`, `id` its `m_seq`. */
  datatype Msg = Msg(
    carryMsg: bool, magic: byte, version: byte, kind: byte, errCode: byte,
    id: nat, payloadLen: nat, errMsg: seq<byte>, payload: seq<byte>)

  ghost predicate WellSized(m: Msg)
  {
    m.id < Pow2(64) && m.payloadLen < Pow2(64) && |m.errMsg| < Pow2(64)
  }

  const BLANK := Msg(false, MAGIC, VERSION, 0, RPC_SUCCESS, 0, 0, [], [])

  /** `setErrMsg`: the length goes to the payload string as one character, not to the payload length. */
  function WithErrMsg(m: Msg, msg: seq<byte>): Msg
  {
    if msg == [] then m else m.(carryMsg := true, payload := m.payload + [|msg| % 256], errMsg := msg)
  }

  /** `Protocol::Create` with a context of `code` and `msg`. */
  function Created(kind: byte, code: byte, msg: seq<byte>, content: seq<byte>, id: nat): Msg
  {
    WithErrMsg(BLANK.(kind := kind, errCode := code), msg)
      .(payloadLen := |content| % Pow2(64), payload := content, id := id)
  }

  /** `getPayloadLength`, in 64-bit arithmetic. */
  function PayloadLength(m: Msg): nat
  {
    Wrap(m.payloadLen - |m.errMsg|, 64)
  }

  // ---- encoding ----------------------------------------------------------------------------

  function Flags(errCode: byte, carryMsg: bool): byte
  {
    (errCode * 2 + if carryMsg then 1 else 0) % 256
  }

  function Header(m: Msg): (h: seq<byte>)
    ensures |h| == HEADER_LEN
  {
    [m.magic, m.version, m.kind, Flags(m.errCode, m.carryMsg)]
    + Stored(m.id, 8, false) + Stored(m.payloadLen, 8, false)
  }

  function MessagePart(m: Msg): seq<byte>
  {
    if m.carryMsg then StringVint(m.errMsg) else []
  }

  /** What `write(m_payload.c_str(), n)` copies: up to the terminating zero, and past it nothing valid.  For a length
      that wrapped around the code first asks for some 2^52 chunks, which no memory holds; `BadAccess` stands for
      whichever of the two ends the call. */
  function PayloadPart(m: Msg): Outcome<seq<byte>>
  {
    var n := PayloadLength(m);
    if n <= |m.payload| then Ok(m.payload[..n])
    else if n == |m.payload| + 1 then Ok(m.payload + [0])
    else BadAccess
  }

  function Frame(m: Msg): Outcome<seq<byte>>
  {
    match PayloadPart(m)
    case Ok(p) => Ok(Header(m) + MessagePart(m) + p)
    case _ => BadAccess
  }

  // ---- parsing -----------------------------------------------------------------------------

  /** `decodeHeader` into a blank message. */
  function HeaderOf(h: seq<byte>): Msg
    requires |h| == HEADER_LEN
  {
    BLANK.(magic := h[0], version := h[1], kind := h[2], errCode := h[3] / 2, carryMsg := h[3] % 2 == 1,
           id := Loaded(h[4..12], false), payloadLen := Loaded(h[12..20], false))
  }

  /** The message read from a body of the declared length. */
  function BodyOf(m: Msg, body: seq<byte>): Outcome<Msg>
  {
    if !m.carryMsg then Ok(m.(payload := body))
    else
      match ParseStringVint(body)
      case Parsed(s, rest) => Ok(WithErrMsg(m, s).(payload := rest))
      case Short => OutOfRange
  }

  predicate Accepted(h: Msg)
  {
    h.magic == MAGIC && h.version == VERSION
  }

  /** `recvProtocol` when every fixed-size read takes exactly what it is asked for; `None` is its null. */
  function ParseFrame(s: seq<byte>): Outcome<Option<(Msg, seq<byte>)>>
  {
    if |s| < HEADER_LEN then Ok(None)
    else
      var h, rest := HeaderOf(s[..HEADER_LEN]), s[HEADER_LEN..];
      if !Accepted(h) then Ok(None)
      else if h.payloadLen == 0 then Ok(Some((h, rest)))
      else if |rest| < h.payloadLen then Ok(None)
      else
        match BodyOf(h, rest[..h.payloadLen])
        case Ok(m) => Ok(Some((m, rest[h.payloadLen..])))
        case _ => OutOfRange
  }

  // ---- theorems ----------------------------------------------------------------------------

  lemma SliceHeader(p: seq<byte>, x: seq<byte>, y: seq<byte>)
    requires |p| == 4 && |x| == 8 && |y| == 8
    ensures (p + x + y)[..4] == p && (p + x + y)[4..12] == x && (p + x + y)[12..20] == y
  {
  }

  lemma LoadStored64(v: nat)
    requires v < Pow2(64)
    ensures Loaded(Stored(v, 8, false), false) == v
  {
    Pow256IsPow2(8);
    LoadStored(v, 8, false);
  }

  lemma FlagBits(code: byte, carry: bool)
    requires code < 128
    ensures Flags(code, carry) / 2 == code && (Flags(code, carry) % 2 == 1 <==> carry)
  {
  }

  lemma HeaderParts(m: Msg)
    ensures var h := Header(m);
            && h[0] == m.magic && h[1] == m.version && h[2] == m.kind && h[3] == Flags(m.errCode, m.carryMsg)
            && h[4..12] == Stored(m.id, 8, false) && h[12..20] == Stored(m.payloadLen, 8, false)
  {
    SliceHeader([m.magic, m.version, m.kind, Flags(m.errCode, m.carryMsg)], Stored(m.id, 8, false),
                Stored(m.payloadLen, 8, false));
  }

  lemma HeaderRoundTrip(m: Msg)
    requires WellSized(m) && m.errCode < 128
    ensures HeaderOf(Header(m)) == m.(errMsg := [], payload := [])
  {
    HeaderParts(m);
    FlagBits(m.errCode, m.carryMsg);
    LoadStored64(m.id);
    LoadStored64(m.payloadLen);
  }

  /** `getPayloadLength` of a created message is its content less its text; a text longer than the content wraps it
      around to a number far beyond any payload. */
  lemma CreatedPayloadLength(kind: byte, code: byte, msg: seq<byte>, content: seq<byte>, id: nat)
    requires |content| < Pow2(64) && |msg| < Pow2(63)
    ensures var m := Created(kind, code, msg, content, id);
            && m.payloadLen == |content| && m.payload == content
            && (|msg| <= |content| ==> PayloadLength(m) == |content| - |msg|)
            && (|msg| > |content| ==> PayloadLength(m) > |content| + 1)
  {
    var h63 := Pow2(63);
    assert Pow2(64) == 2 * h63;
    WrapNear(|content|, 64);
    WrapNear(|content| - |msg|, 64);
  }

  /** How long the frame of a created message is, and when there is one. */
  lemma CreatedFrame(kind: byte, code: byte, msg: seq<byte>, content: seq<byte>, id: nat)
    requires |content| < Pow2(64) && |msg| < Pow2(63)
    ensures var m := Created(kind, code, msg, content, id);
            && m.payloadLen == |content|
            && (Frame(m).Ok? <==> |msg| <= |content|)
            && (|msg| <= |content| ==>
                  Frame(m).value == Header(m) + MessagePart(m) + content[..|content| - |msg|])
  {
    CreatedPayloadLength(kind, code, msg, content, id);
  }

  /** A frame declares the number of bytes behind its header if and only if it carries no message.
      With a message the frame either cannot be built or is longer by the message's length prefix. */
  lemma DeclaredLengthIffNoMessage(kind: byte, code: byte, msg: seq<byte>, content: seq<byte>, id: nat)
    requires |content| < Pow2(64) && |msg| < Pow2(63)
    ensures var m := Created(kind, code, msg, content, id);
            (Frame(m).Ok? && |Frame(m).value| - HEADER_LEN == m.payloadLen) <==> msg == []
    ensures var m := Created(kind, code, msg, content, id);
            msg != [] && Frame(m).Ok? ==> |Frame(m).value| - HEADER_LEN == m.payloadLen + |Varint(|msg|)|
  {
    CreatedFrame(kind, code, msg, content, id);
    assert Pow2(64) == 2 * Pow2(63);
  }

  lemma SplitAt(x: seq<byte>, y: seq<byte>)
    ensures (x + y)[..|x|] == x && (x + y)[|x|..] == y
  {
  }

  /** Parsing a header followed by a body of the declared length and anything else. */
  lemma ParseHeaderBody(m: Msg, body: seq<byte>, tail: seq<byte>)
    requires WellSized(m) && m.errCode < 128 && Accepted(m) && |body| == m.payloadLen
    requires BodyOf(m.(errMsg := [], payload := []), body).Ok?
    requires body == [] ==> !m.carryMsg
    ensures ParseFrame(Header(m) + (body + tail))
            == Ok(Some((BodyOf(m.(errMsg := [], payload := []), body).value, tail)))
  {
    HeaderRoundTrip(m);
    SplitAt(Header(m), body + tail);
    SplitAt(body, tail);
  }

  lemma Regroup(h: seq<byte>, a: seq<byte>, b: seq<byte>, c: seq<byte>, t: seq<byte>)
    ensures h + a + (b + c) + t == h + ((a + b) + (c + t))
  {
  }

  /** A message as `Create` builds it when the context carries no text. */
  ghost predicate Plain(m: Msg)
  {
    && WellSized(m) && m.errCode < 128 && Accepted(m)
    && !m.carryMsg && m.errMsg == [] && m.payloadLen == |m.payload|
  }

  lemma CreatedIsPlain(kind: byte, code: byte, content: seq<byte>, id: nat)
    requires |content| < Pow2(64) && id < Pow2(64) && code < 128
    ensures Plain(Created(kind, code, [], content, id))
  {
    DivUnique(|content|, Pow2(64), 0, |content|);
  }

  lemma PlainFrame(m: Msg)
    requires Plain(m)
    ensures Frame(m) == Ok(Header(m) + m.payload)
  {
    DivUnique(m.payloadLen, Pow2(64), 0, m.payloadLen);
    assert Header(m) + [] + m.payload[..|m.payload|] == Header(m) + m.payload;
  }

  /** A frame without a message, followed by anything, parses to the message and leaves the rest. */
  lemma FrameRoundTrip(m: Msg, tail: seq<byte>)
    requires Plain(m)
    ensures Frame(m).Ok?
    ensures ParseFrame(Frame(m).value + tail) == Ok(Some((m, tail)))
  {
    PlainFrame(m);
    PlainBody(m);
    Associative(Header(m), m.payload, tail);
    ParseHeaderBody(m, m.payload, tail);
  }

  lemma PlainBody(m: Msg)
    requires Plain(m)
    ensures BodyOf(m.(errMsg := [], payload := []), m.payload) == Ok(m)
  {
  }

  /** Part of a frame is not a message yet. */
  lemma PartialFrame(m: Msg, n: nat)
    requires Plain(m) && Frame(m).Ok? && n < |Frame(m).value|
    ensures ParseFrame(Frame(m).value[..n]) == Ok(None)
  {
    PlainFrame(m);
    var h, s := Header(m), Frame(m).value[..n];
    if n >= HEADER_LEN {
      assert s[..HEADER_LEN] == h;
      HeaderRoundTrip(m);
    }
  }

  /** The receive loop on a byte string: the messages and what is left when no whole frame remains. */
  function ParseAll(s: seq<byte>): (seq<Msg>, seq<byte>)
    decreases |s|
  {
    match ParseFrame(s)
    case Ok(Some((m, rest))) =>
      var (ms, t) := ParseAll(rest);
      ([m] + ms, t)
    case _ => ([], s)
  }

  /** The frame of a message that has one. */
  function FrameOf(m: Msg): seq<byte>
  {
    if Frame(m).Ok? then Frame(m).value else []
  }

  function Frames(ms: seq<Msg>): seq<byte>
  {
    if ms == [] then [] else FrameOf(ms[0]) + Frames(ms[1..])
  }

  lemma ParseAllStep(s: seq<byte>, m: Msg, rest: seq<byte>)
    requires ParseFrame(s) == Ok(Some((m, rest)))
    ensures |rest| < |s| && ParseAll(s) == ([m] + ParseAll(rest).0, ParseAll(rest).1)
  {
  }

  /** Whole frames followed by part of one are received as exactly those messages, in order. */
  lemma {:induction false} ParseFrames(ms: seq<Msg>, tail: seq<byte>)
    requires forall i :: 0 <= i < |ms| ==> Plain(ms[i])
    requires ParseFrame(tail) == Ok(None)
    ensures ParseAll(Frames(ms) + tail) == (ms, tail)
  {
    if ms == [] {
      assert Frames(ms) + tail == tail;
    } else {
      var f, rest := FrameOf(ms[0]), Frames(ms[1..]) + tail;
      assert (f + Frames(ms[1..])) + tail == f + rest;
      FrameRoundTrip(ms[0], rest);
      ParseAllStep(f + rest, ms[0], rest);
      ParseFrames(ms[1..], tail);
      assert ms == [ms[0]] + ms[1..];
    }
  }

  lemma FramesFirst(ms: seq<Msg>)
    requires ms != []
    ensures Frames(ms) == FrameOf(ms[0]) + Frames(ms[1..])
  {
  }

  lemma {:induction false} FramesAppend(ms: seq<Msg>, m: Msg)
    ensures Frames(ms + [m]) == Frames(ms) + FrameOf(m)
  {
    var all := ms + [m];
    if ms == [] {
      assert all[1..] == [];
    } else {
      assert all[1..] == ms[1..] + [m];
      FramesAppend(ms[1..], m);
      FramesFirst(ms);
      FramesFirst(all);
      Associative(FrameOf(ms[0]), Frames(ms[1..]), FrameOf(m));
    }
  }

  /** A frame with a message does not.  Of the content `kept + lost + cut` the sender drops `cut`, as many
      bytes as the message has; the receiver takes the declared number of bytes, finds the message and
      `kept`, and leaves `lost`, as many bytes as the message's length prefix has, before the next frame. */
  lemma MessageFrameDesyncs(kind: byte, code: byte, msg: seq<byte>, kept: seq<byte>, lost: seq<byte>,
                            cut: seq<byte>, id: nat, tail: seq<byte>)
    requires msg != [] && |lost| == |Varint(|msg|)| && |cut| == |msg|
    requires |kept + lost + cut| < Pow2(63) && id < Pow2(64) && code < 128
    ensures var m := Created(kind, code, msg, kept + lost + cut, id);
            && Frame(m).Ok?
            && ParseFrame(Frame(m).value + tail) == Ok(Some((m.(payload := kept), lost + tail)))
  {
    var content, h63 := kept + lost + cut, Pow2(63);
    assert Pow2(64) == 2 * h63;
    var m := Created(kind, code, msg, content, id);
    CreatedFrame(kind, code, msg, content, id);
    SplitAt(kept + lost, cut);
    Regroup(Header(m), StringVint(msg), kept, lost, tail);
    StringVintRoundTrip(msg, kept);
    ParseHeaderBody(m, StringVint(msg) + kept, lost + tail);
  }

  /** A text takes at least as many bytes as its length prefix. */
  lemma {:induction false} VarintIsShort(n: nat)
    requires n > 0
    ensures |Varint(n)| <= n
  {
    if n >= 128 {
      VarintIsShort(n / 128);
    }
  }

  /** When the content is longer than the text by less than the length prefix, there is a frame and the declared
      bytes end inside the text: the receiver throws. */
  lemma CutMessageThrows(kind: byte, code: byte, msg: seq<byte>, content: seq<byte>, id: nat, tail: seq<byte>)
    requires msg != [] && |msg| <= |content| < |msg| + |Varint(|msg|)|
    requires |content| < Pow2(63) && id < Pow2(64) && code < 128
    ensures var m := Created(kind, code, msg, content, id);
            Frame(m).Ok? && ParseFrame(Frame(m).value + tail) == OutOfRange
  {
    var m, h63 := Created(kind, code, msg, content, id), Pow2(63);
    assert Pow2(64) == 2 * h63;
    CreatedFrame(kind, code, msg, content, id);
    VarintIsShort(|msg|);
    var kept := content[..|content| - |msg|];
    var rest := kept + tail;
    Associate(Header(m), StringVint(msg), kept, tail);
    CutText(msg, rest, |content|);
    ParseHeaderFails(m, StringVint(msg) + rest);
  }

  lemma Associate(h: seq<byte>, a: seq<byte>, b: seq<byte>, t: seq<byte>)
    ensures h + a + b + t == h + (a + (b + t))
  {
  }

  /** The first `n` bytes of a prefixed text that end inside it do not parse. */
  lemma CutText(msg: seq<byte>, rest: seq<byte>, n: nat)
    requires |msg| < Pow2(64) && |Varint(|msg|)| <= n < |Varint(|msg|)| + |msg|
    ensures ParseStringVint((StringVint(msg) + rest)[..n]) == Short
  {
    var p := Varint(|msg|);
    var cut := msg[..n - |p|];
    assert (StringVint(msg) + rest)[..n] == p + cut;
    VarintRoundTrip(|msg|, 64, cut);
  }

  lemma ParseHeaderFails(m: Msg, body: seq<byte>)
    requires WellSized(m) && m.errCode < 128 && Accepted(m) && m.carryMsg && 0 < m.payloadLen <= |body|
    requires ParseStringVint(body[..m.payloadLen]) == Short
    ensures ParseFrame(Header(m) + body) == OutOfRange
  {
    HeaderRoundTrip(m);
    SplitAt(Header(m), body);
  }

  /** Exactly when a created message is received as it was sent: whatever follows its frame, the frame parses back to
      the message and leaves what follows if and only if the message carries no text. */
  lemma FrameParsesBackIff(kind: byte, code: byte, msg: seq<byte>, content: seq<byte>, id: nat, tail: seq<byte>)
    requires |content| < Pow2(63) && |msg| < Pow2(63) && id < Pow2(64) && code < 128
    ensures var m := Created(kind, code, msg, content, id);
            && (Frame(m).Ok? <==> |msg| <= |content|)
            && (Frame(m).Ok? ==> (ParseFrame(Frame(m).value + tail) == Ok(Some((m, tail))) <==> msg == []))
  {
    var h63 := Pow2(63);
    assert Pow2(64) == 2 * h63;
    CreatedFrame(kind, code, msg, content, id);
    if msg == [] {
      CreatedIsPlain(kind, code, content, id);
      FrameRoundTrip(Created(kind, code, [], content, id), tail);
    } else if |msg| <= |content| {
      TextDoesNotParseBack(kind, code, msg, content, id, tail);
    }
  }

  lemma TextDoesNotParseBack(kind: byte, code: byte, msg: seq<byte>, content: seq<byte>, id: nat, tail: seq<byte>)
    requires msg != [] && |msg| <= |content| < Pow2(63) && id < Pow2(64) && code < 128
    ensures var m := Created(kind, code, msg, content, id);
            Frame(m).Ok? && ParseFrame(Frame(m).value + tail) != Ok(Some((m, tail)))
  {
    var n, p := |content|, |Varint(|msg|)|;
    if n < |msg| + p {
      CutMessageThrows(kind, code, msg, content, id, tail);
    } else {
      var kept, lost, cut := content[..n - |msg| - p], content[n - |msg| - p..n - |msg|], content[n - |msg|..];
      assert content == kept + lost + cut;
      MessageFrameDesyncs(kind, code, msg, kept, lost, cut, id, tail);
      assert |lost + tail| != |tail|;
    }
  }

  // ---- what the bytes of a frame say -------------------------------------------------------

  /** The message `Create` builds has what it was given, in every field. */
  lemma CreatedIs(kind: byte, code: byte, msg: seq<byte>, content: seq<byte>, id: nat)
    requires |content| < Pow2(64)
    ensures var m := Created(kind, code, msg, content, id);
            && m.magic == 0xfc && m.version == 0x10 && m.kind == kind && m.errCode == code && m.id == id
            && m.errMsg == msg && (m.carryMsg <==> msg != []) && m.payload == content && m.payloadLen == |content|
  {
    DivUnique(|content|, Pow2(64), 0, |content|);
  }

  /** The twenty header bytes: magic, version, type, error code and flag in one byte each, then the id and the length
      in network order. */
  lemma HeaderLayout(m: Msg)
    requires WellSized(m) && m.errCode < 128
    ensures var h := Header(m);
            && h[0] == m.magic && h[1] == m.version && h[2] == m.kind && h[3] == 2 * m.errCode + (if m.carryMsg then 1 else 0)
            && Value(h[4..12]) == m.id && Value(h[12..20]) == m.payloadLen
  {
    var h := Header(m);
    HeaderParts(m);
    FlagValue(m.errCode, m.carryMsg);
    assert Value(h[4..12]) == m.id by { Value64(m.id); }
    assert Value(h[12..20]) == m.payloadLen by { Value64(m.payloadLen); }
  }

  lemma FlagValue(code: byte, carry: bool)
    requires code < 128
    ensures Flags(code, carry) == 2 * code + if carry then 1 else 0
  {
  }

  lemma Value64(v: nat)
    requires v < Pow2(64)
    ensures Value(Stored(v, 8, false)) == v
  {
    Pow256IsPow2(8);
    StoredValue(v, 8);
  }

  /** The frame of a created message, byte by byte. */
  lemma CreatedLayout(kind: byte, code: byte, msg: seq<byte>, content: seq<byte>, id: nat)
    requires |content| < Pow2(63) && |msg| <= |content| && id < Pow2(64) && code < 128
    ensures var f := Frame(Created(kind, code, msg, content, id));
            && f.Ok? && |f.value| >= HEADER_LEN
            && f.value[0] == 0xfc && f.value[1] == 0x10 && f.value[2] == kind
            && f.value[3] == 2 * code + (if msg == [] then 0 else 1)
            && Value(f.value[4..12]) == id && Value(f.value[12..20]) == |content|
            && f.value[20..] == if msg == [] then content else Varint(|msg|) + msg + content[..|content| - |msg|]
  {
    var m, h63 := Created(kind, code, msg, content, id), Pow2(63);
    assert Pow2(64) == 2 * h63;
    CreatedIs(kind, code, msg, content, id);
    CreatedFrame(kind, code, msg, content, id);
    HeaderLayout(m);
    var kept := content[..|content| - |msg|];
    Associative(Header(m), MessagePart(m), kept);
    HeaderInFront(Header(m), MessagePart(m) + kept);
    BehindHeader(kind, code, msg, content, id);
  }

  lemma HeaderInFront(h: seq<byte>, part: seq<byte>)
    requires |h| == HEADER_LEN
    ensures var f := h + part;
            && f[0] == h[0] && f[1] == h[1] && f[2] == h[2] && f[3] == h[3]
            && f[4..12] == h[4..12] && f[12..20] == h[12..20] && f[20..] == part
  {
  }

  lemma BehindHeader(kind: byte, code: byte, msg: seq<byte>, content: seq<byte>, id: nat)
    requires |msg| <= |content|
    ensures MessagePart(Created(kind, code, msg, content, id)) + content[..|content| - |msg|]
            == if msg == [] then content else Varint(|msg|) + msg + content[..|content| - |msg|]
  {
    if msg == [] {
      assert [] + content[..|content|] == content;
    }
  }

  /** What a receiver makes of the frame of a message without text: the type, code, id and content it was created with,
      and nothing else. */
  lemma ParsedIsCreated(kind: byte, code: byte, content: seq<byte>, id: nat, tail: seq<byte>)
    requires |content| < Pow2(64) && id < Pow2(64) && code < 128
    ensures var f := Frame(Created(kind, code, [], content, id));
            && f.Ok? && ParseFrame(f.value + tail).Ok? && ParseFrame(f.value + tail).value.Some?
            && var (m, rest) := ParseFrame(f.value + tail).value.value;
               && m.kind == kind && m.errCode == code && m.id == id && m.payload == content
               && !m.carryMsg && m.errMsg == [] && rest == tail
  {
    CreatedIsPlain(kind, code, content, id);
    FrameRoundTrip(Created(kind, code, [], content, id), tail);
    CreatedIs(kind, code, [], content, id);
  }

  /** Bytes that begin with another magic or version are no message, whatever follows. */
  lemma OtherVersionIsNoMessage(s: seq<byte>)
    requires |s| >= HEADER_LEN && (s[0] != 0xfc || s[1] != 0x10)
    ensures ParseFrame(s) == Ok(None)
  {
  }

  /** A heartbeat on the wire: twenty bytes, of which only the first four are not zero. */
  lemma HeartbeatFrame(kind: byte, tail: seq<byte>)
    requires kind == 7
    ensures var m, f := BLANK.(kind := kind), Frame(BLANK.(kind := kind));
            && f.Ok? && |f.value| == 20 && f.value[0] == 0xfc && f.value[1] == 0x10 && f.value[2] == 7 && f.value[3] == 2
            && Value(f.value[4..12]) == 0 && Value(f.value[12..20]) == 0
            && ParseFrame(f.value + tail) == Ok(Some((m, tail)))
  {
    var m := BLANK.(kind := kind);
    BareFrame(m);
    HeaderLayout(m);
    FrameRoundTrip(m, tail);
  }

  lemma BareFrame(m: Msg)
    requires m == BLANK.(kind := m.kind)
    ensures Plain(m) && Frame(m) == Ok(Header(m))
  {
    PlainFrame(m);
    assert Header(m) + [] == Header(m);
  }

  /** A message has a frame if and only if its string and the terminator behind it hold the bytes to copy. */
  lemma FrameIff(m: Msg)
    requires |m.errMsg| <= m.payloadLen < Pow2(64)
    ensures Frame(m).Ok? <==> m.payloadLen - |m.errMsg| <= |m.payload| + 1
    ensures m.payloadLen - |m.errMsg| == |m.payload| + 1 ==> Frame(m) == Ok(Header(m) + MessagePart(m) + (m.payload + [0]))
  {
    WrapNear(m.payloadLen - |m.errMsg|, 64);
  }

  /** A text leaves the length field alone and puts its own length, as one character, behind the payload. */
  lemma TextLengthGoesAstray(m: Msg, msg: seq<byte>)
    requires msg != []
    ensures var w := WithErrMsg(m, msg);
            && w.payloadLen == m.payloadLen && |w.payload| == |m.payload| + 1 && w.payload[..|m.payload|] == m.payload
            && w.payload[|m.payload|] == |msg| % 256 && w.errMsg == msg && w.carryMsg
  {
  }
}
