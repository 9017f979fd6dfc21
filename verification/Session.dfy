/** `RpcSession`: whole messages over a socket. */
module Sessions {
  import opened Bytes
  import opened BufferModel
  import opened ByteBuffer
  import opened BufferCodec
  import opened Codec
  import opened Crossing
  import opened ProtocolModel
  import opened Protocols
  import opened StreamModel
  import opened Streams

  // ---- receiving ---------------------------------------------------------------------------

  /** What `readFixedSize` does to a fresh or cleared buffer for `length` bytes. */
  function ReadOf(k: Sock, length: nat): (r: Received)
    ensures r.taken <= |k.incoming|
  {
    FixedRead(k.open, k.recvs, |k.incoming|, 0, BASE_SIZE, length, ToInt32(length), 0)
  }

  /** And how many chunks it leaves the buffer with. */
  function ChunksOf(k: Sock, length: nat): (c: nat)
    ensures c >= 1
  {
    ChunksAfter(k.open, k.recvs, |k.incoming|, 0, BASE_SIZE, length, ToInt32(length), 0, 1)
  }

  predicate Served(r: Received)
  {
    r.outcome.Ok? && r.outcome.value > 0
  }

  /** The socket after the header read and the header itself, when it is read and accepted. */
  function HeaderStep(k: Sock): (Option<Msg>, Sock)
  {
    var r := ReadOf(k, HEADER_LEN);
    var k1 := AfterFixedRead(k, r);
    if !Served(r) || r.taken < HEADER_LEN then (None, k1)
    else
      var h := HeaderOf(k.incoming[..HEADER_LEN]);
      (if Accepted(h) then Some(h) else None, k1)
  }

  /** A text, with its length in front, that takes up all of a body. */
  predicate TextFills(body: seq<byte>)
  {
    var p := ParseStringVint(body);
    p.Parsed? && p.rest == []
  }

  /** The message read from a body that a buffer of `count` chunks holds.  Behind a text that ends where the last
      chunk ends there is no chunk to read the payload from, not even an empty one. */
  function BodyRead(h: Msg, body: seq<byte>, count: nat): Outcome<Msg>
  {
    if h.carryMsg && TextFills(body) && |body| == count * BASE_SIZE then BadAccess else BodyOf(h, body)
  }

  /** `recvProtocol`: `Ok(None)` is the null pointer it returns. */
  function RecvResult(k: Sock): (Outcome<Option<Msg>>, Sock)
  {
    var (h, k1) := HeaderStep(k);
    if h.None? then (Ok(None), k1)
    else if h.value.payloadLen == 0 then (Ok(h), k1)
    else
      var n := h.value.payloadLen;
      var r := ReadOf(k1, n);
      var k2 := AfterFixedRead(k1, r);
      if r.outcome == BadAccess then (BadAccess, k2)
      else if !Served(r) then (Ok(None), k2)
      else
        match BodyRead(h.value, k1.incoming[..r.taken], ChunksOf(k1, n))
        case Ok(m) => (Ok(Some(m)), k2)
        case OutOfRange => (OutOfRange, k2)
        case BadAccess => (BadAccess, k2)
  }

  /** How the kernel must cut its deliveries for no read of the session to take bytes that follow the frame: the
      header's pieces as `ExactPieces` says, and the body's from what is left of the script. */
  ghost predicate ExactReads(k: Sock)
    requires |k.incoming| >= HEADER_LEN
  {
    var n := HeaderOf(k.incoming[..HEADER_LEN]).payloadLen;
    && k.open
    && ExactPieces(k.recvs, HEADER_LEN, |k.incoming|)
    && (n == 0 || (n <= BASE_SIZE && ExactPieces(PiecesAfter(k.recvs, HEADER_LEN), n, |k.incoming| - HEADER_LEN)))
  }

  /** A read that succeeds took at least what it was asked for, and was for at most a chunk. */
  lemma ServedTakesAll(k: Sock, n: nat)
    requires Served(ReadOf(k, n))
    ensures k.open && n <= ReadOf(k, n).taken && n <= BASE_SIZE
  {
    if n < INT_LIMIT {
      ToInt32Small(n);
    }
  }

  /** The reads of an open session, by the kernel's pieces. */
  lemma ReadOfExact(k: Sock, n: nat)
    requires 0 < n <= |k.incoming|
    ensures var f := ReadOf(k, n);
            && (Exact(f, n) <==> k.open && n <= BASE_SIZE && ExactPieces(k.recvs, n, |k.incoming|))
            && (Exact(f, n) ==> AfterFixedRead(k, f) == k.(incoming := k.incoming[n..], recvs := PiecesAfter(k.recvs, n)))
  {
    if k.open && n <= BASE_SIZE {
      ReadExactIff(k.recvs, |k.incoming|, BASE_SIZE, n);
    } else if Exact(ReadOf(k, n), n) {
      ServedTakesAll(k, n);
    }
  }

  /** The frame announces a text that fills a body of exactly one chunk, and the kernel delivers that body at once, so
      that the buffer never gets a second chunk. */
  ghost predicate TextFillsChunk(k: Sock)
    requires |k.incoming| >= HEADER_LEN
  {
    var h, pieces := HeaderOf(k.incoming[..HEADER_LEN]), PiecesAfter(k.recvs, HEADER_LEN);
    && h.carryMsg && h.payloadLen == BASE_SIZE && |k.incoming| >= HEADER_LEN + BASE_SIZE
    && TextFills(k.incoming[HEADER_LEN..][..BASE_SIZE])
    && pieces != [] && pieces[0] >= BASE_SIZE
  }

  /** With a whole frame at the front of what arrives, the session returns its message and leaves exactly what
      follows it if and only if the kernel cuts its deliveries that way and no text fills the one chunk. */
  lemma RecvIsParseIff(k: Sock)
    requires ParseFrame(k.incoming).Ok? && ParseFrame(k.incoming).value.Some?
    ensures var (m, rest) := ParseFrame(k.incoming).value.value;
            var (r, k') := RecvResult(k);
            (r == Ok(Some(m)) && k'.incoming == rest) <==> ExactReads(k) && !TextFillsChunk(k)
  {
    var h, f := HeaderOf(k.incoming[..HEADER_LEN]), ReadOf(k, HEADER_LEN);
    var n, k1 := h.payloadLen, AfterFixedRead(k, f);
    ReadOfExact(k, HEADER_LEN);
    RecvConsumes(k);
    if Exact(f, HEADER_LEN) && n != 0 {
      ReadOfExact(k1, n);
      if Exact(ReadOf(k1, n), n) {
        ChunksOfExact(k1, n);
      }
    }
  }

  /** A chunk-sized read leaves one chunk if and only if it is served in one piece; a smaller one never fills its
      chunks. */
  lemma ChunksOfExact(k: Sock, n: nat)
    requires 0 < n <= BASE_SIZE && n <= |k.incoming| && Exact(ReadOf(k, n), n)
    ensures n == ChunksOf(k, n) * BASE_SIZE <==> n == BASE_SIZE && k.recvs != [] && k.recvs[0] >= BASE_SIZE
  {
    var c := ChunksOf(k, n);
    ToInt32Small(n);
    ExactRound(k.recvs, |k.incoming|, BASE_SIZE, n, 0);
    FirstChunkOffer(BASE_SIZE, 0, n);
    if n == BASE_SIZE && 0 < k.recvs[0] < n {
      SecondRoundGrows(k, n);
    }
  }

  lemma SecondRoundGrows(k: Sock, n: nat)
    requires n == BASE_SIZE <= |k.incoming| && k.open && k.recvs != [] && 0 < k.recvs[0] < n
    ensures ChunksOf(k, n) >= 2
  {
    var t := k.recvs[0];
    ToInt32Small(n);
    FirstChunkOffer(BASE_SIZE, 0, n);
    assert GrowthAt(1 * BASE_SIZE, BASE_SIZE, 0, n) == 0;
    CeilPositive(n - (BASE_SIZE - t), BASE_SIZE);
    assert GrowthAt(1 * BASE_SIZE, BASE_SIZE, t, n) > 0;
    FirstChunkOffer(BASE_SIZE, t, n);
    assert ChunksAfter(true, Rest(k.recvs), |k.incoming|, 0, BASE_SIZE, n, n - t, t, 1) >= 2;
  }

  /** The session returns that message and leaves that rest if and only if both reads are exact and the body is not
      full of text up to the end of its last chunk. */
  lemma RecvConsumes(k: Sock)
    requires ParseFrame(k.incoming).Ok? && ParseFrame(k.incoming).value.Some?
    ensures var (m, rest) := ParseFrame(k.incoming).value.value;
            var (r, k') := RecvResult(k);
            var h, f := HeaderOf(k.incoming[..HEADER_LEN]), ReadOf(k, HEADER_LEN);
            var n, k1 := h.payloadLen, AfterFixedRead(k, f);
            (r == Ok(Some(m)) && k'.incoming == rest)
            <==> && Exact(f, HEADER_LEN)
                 && (n == 0 || (&& Exact(ReadOf(k1, n), n)
                                && !(h.carryMsg && TextFills(k.incoming[HEADER_LEN..][..n]) && n == ChunksOf(k1, n) * BASE_SIZE)))
  {
    var (m, rest) := ParseFrame(k.incoming).value.value;
    var f, n := ReadOf(k, HEADER_LEN), HeaderOf(k.incoming[..HEADER_LEN]).payloadLen;
    assert |rest| == |k.incoming| - HEADER_LEN - n;
    if Served(f) {
      ServedTakesAll(k, HEADER_LEN);
      var k1 := AfterFixedRead(k, f);
      if n != 0 && Served(ReadOf(k1, n)) {
        ServedTakesAll(k1, n);
      }
    }
  }

  /** When each read is served in one piece only such a text is in the way, and then the session faults. */
  lemma RecvIsParse(k: Sock)
    requires k.open && |k.recvs| >= 2 && k.recvs[0] >= HEADER_LEN && k.recvs[1] >= BASE_SIZE
    requires ParseFrame(k.incoming).Ok? && ParseFrame(k.incoming).value.Some?
    requires HeaderOf(k.incoming[..HEADER_LEN]).payloadLen <= BASE_SIZE
    ensures var (m, rest) := ParseFrame(k.incoming).value.value;
            var (r, k') := RecvResult(k);
            if TextFillsChunk(k) then r == BadAccess else r == Ok(Some(m)) && k'.incoming == rest
  {
    RecvIsParseIff(k);
    assert PiecesAfter(k.recvs, HEADER_LEN) == k.recvs[1..];
    if TextFillsChunk(k) {
      var k1 := AfterFixedRead(k, ReadOf(k, HEADER_LEN));
      ReadOfExact(k, HEADER_LEN);
      ReadOfExact(k1, BASE_SIZE);
      ChunksOfExact(k1, BASE_SIZE);
    }
  }

  /** Such frames exist: any text of 4094 bytes under a header that announces it and a body of 4096.  The frame parses,
      and the session that receives it faults. */
  lemma FullTextFaults(text: seq<byte>, tail: seq<byte>)
    requires |text| == BASE_SIZE - 2
    ensures var h := BLANK.(carryMsg := true, payloadLen := BASE_SIZE);
            var wire := Header(h) + (StringVint(text) + tail);
            && ParseFrame(wire) == Ok(Some((h.(errMsg := text, payload := []), tail)))
            && RecvResult(Sock(true, wire, [HEADER_LEN, BASE_SIZE], [], [])).0 == BadAccess
  {
    var h := BLANK.(carryMsg := true, payloadLen := BASE_SIZE);
    var body := StringVint(text);
    FullText(text);
    ParseHeaderBody(h, body, tail);
    FullBodyFaults(h, body, tail);
  }

  lemma FullBodyFaults(h: Msg, body: seq<byte>, tail: seq<byte>)
    requires WellSized(h) && h.errCode < 128 && Accepted(h) && h.carryMsg && h.payloadLen == BASE_SIZE
    requires |body| == BASE_SIZE && TextFills(body)
    requires ParseFrame(Header(h) + (body + tail)).Ok? && ParseFrame(Header(h) + (body + tail)).value.Some?
    ensures RecvResult(Sock(true, Header(h) + (body + tail), [HEADER_LEN, BASE_SIZE], [], [])).0 == BadAccess
  {
    HeaderRoundTrip(h);
    var wire := Header(h) + (body + tail);
    var k := Sock(true, wire, [HEADER_LEN, BASE_SIZE], [], []);
    assert wire[..HEADER_LEN] == Header(h) && wire[HEADER_LEN..] == body + tail;
    assert (body + tail)[..BASE_SIZE] == body;
    assert PiecesAfter(k.recvs, HEADER_LEN) == [BASE_SIZE];
    assert TextFillsChunk(k);
    RecvIsParse(k);
  }

  lemma FullText(text: seq<byte>)
    requires |text| == BASE_SIZE - 2
    ensures var h := BLANK.(carryMsg := true, payloadLen := BASE_SIZE);
            && WellSized(h) && |StringVint(text)| == BASE_SIZE && TextFills(StringVint(text))
            && BodyOf(h.(errMsg := [], payload := []), StringVint(text)) == Ok(h.(errMsg := text, payload := []))
  {
    assert Pow2(12) == BASE_SIZE;
    Pow2Monotone(12, 64);
    assert |Varint(BASE_SIZE - 2)| == 2;
    StringVintRoundTrip(text, []);
    assert StringVint(text) + [] == StringVint(text);
  }

  /** A session that ends gives the null pointer: at the header, */
  lemma NoHeaderIsNull(k: Sock)
    requires !k.open || k.recvs == [] || k.recvs[0] <= 0 || k.incoming == []
    ensures RecvResult(k).0 == Ok(None)
  {
    ToInt32Small(HEADER_LEN);
    FirstChunkOffer(BASE_SIZE, 0, HEADER_LEN);
  }

  /** in front of a body that was announced, */
  lemma NoBodyIsNull(k: Sock)
    requires k.open && k.recvs != [] && k.recvs[0] >= HEADER_LEN && |k.incoming| >= HEADER_LEN
    requires 0 < HeaderOf(k.incoming[..HEADER_LEN]).payloadLen <= BASE_SIZE
    requires |k.recvs| == 1 || k.recvs[1] <= 0 || |k.incoming| == HEADER_LEN
    ensures RecvResult(k).0 == Ok(None)
  {
    var n := HeaderOf(k.incoming[..HEADER_LEN]).payloadLen;
    ReadOfExact(k, HEADER_LEN);
    assert PiecesAfter(k.recvs, HEADER_LEN) == k.recvs[1..];
    ToInt32Small(n);
    FirstChunkOffer(BASE_SIZE, 0, n);
  }

  /** and so does one that sends something else. */
  lemma OtherHeaderIsNull(k: Sock)
    requires |k.incoming| >= HEADER_LEN && (k.incoming[0] != 0xfc || k.incoming[1] != 0x10)
    ensures RecvResult(k).0 == Ok(None)
  {
  }

  // ---- sending -----------------------------------------------------------------------------

  /** What one `sendProtocol` puts on the wire: the frame, whole, or a prefix of it when a write fails. */
  ghost predicate SentFrame(k: Sock, k': Sock, frame: seq<byte>, ok: bool)
  {
    exists n: nat ::
      && n <= |frame|
      && k'.sent == k.sent + frame[..n]
      && (ok <==> n == |frame|)
  }

  /** Sending faults when the message has no frame, and on an open socket when its frame is longer than a chunk and
      its length is a positive `int`. */
  predicate SendFaults(open: bool, frame: Outcome<seq<byte>>)
  {
    !frame.Ok? || (open && |frame.value| > BASE_SIZE && ToInt32(|frame.value|) > 0)
  }

  /** What `sendProtocol` returns and puts on the wire. */
  ghost predicate SendResult(k: Sock, frame: Outcome<seq<byte>>, r: Outcome<bool>, k': Sock)
  {
    if SendFaults(k.open, frame) then r == BadAccess && k' == k
    else if |frame.value| <= BASE_SIZE then r.Ok? && SentFrame(k, k', frame.value, r.value)
    else r == Ok(false) && k' == k
  }

  class RpcSession {
    const stream: SocketStream

    constructor (s: Socket)
      ensures fresh(stream) && stream.sock == s
    {
      stream := new SocketStream(s);
    }

    /** Fill an empty buffer with a fixed-size read and rewind it. */
    method Fetch(bt: ByteArray, length: nat) returns (r: Outcome<int>)
      requires bt.Valid() && stream.sock !in bt.Repr && Empty(bt.Model())
      modifies stream.sock, bt.Repr
      ensures bt.Valid() && fresh(bt.Repr - old(bt.Repr)) && stream.sock !in bt.Repr && bt.little == old(bt.little)
      ensures var k := old(stream.sock.State());
              var f := ReadOf(k, length);
              && r == f.outcome
              && stream.sock.State() == AfterFixedRead(k, f)
              && (Served(f) ==> Holds(bt.Model(), k.incoming[..f.taken]) && bt.Model().count == ChunksOf(k, length))
    {
      ghost var k, v := stream.sock.State(), bt.Model();
      r := stream.ReadFixedSize(bt, length);
      if r.Ok? && r.value > 0 {
        RewoundHolds(v, bt.Model(), k.incoming[..ReadOf(k, length).taken]);
        var moved := bt.SetPosition(0);
      }
    }

    /** Read a header into a fresh message; null when the session ends or rejects it. */
    method RecvHeader() returns (p: Protocol?, bt: ByteArray)
      modifies stream.sock
      ensures fresh(bt.Repr) && bt.Valid() && bt.baseSize == BASE_SIZE && !bt.little && stream.sock !in bt.Repr
      ensures p != null ==> fresh(p) && p !in bt.Repr
      ensures var (h, k) := HeaderStep(old(stream.sock.State()));
              stream.sock.State() == k && (p == null <==> h.None?) && (h.Some? ==> p.Model() == h.value)
    {
      ghost var k := stream.sock.State();
      bt := new ByteArray(BASE_SIZE);
      var n := Fetch(bt, HEADER_LEN);
      assert fresh(bt.Repr);
      if !n.Ok? || n.value <= 0 {
        return null, bt;
      }
      HeaderInOneChunk(k);
      p := Accept(bt, k.incoming[..ReadOf(k, HEADER_LEN).taken]);
    }

    /** Decode a header and check magic and version. */
    method Accept(bt: ByteArray, ghost data: seq<byte>) returns (p: Protocol?)
      requires bt.Valid() && !bt.little && bt.baseSize == BASE_SIZE
      requires Holds(bt.Model(), data) && HEADER_LEN <= |data| < BASE_SIZE
      modifies bt`position, bt`cur, bt`lag
      ensures bt.Valid()
      ensures var h := HeaderOf(data[..HEADER_LEN]);
              if Accepted(h) then p != null && fresh(p) && p !in bt.Repr && p.Model() == h else p == null
    {
      HeldInOneChunk(bt.Model(), data);
      HeaderInChunk(bt.Model());
      p := new Protocol();
      var ok := p.DecodeHeader(bt);
      if p.magic != MAGIC || p.version != VERSION {
        p := null;
      }
    }

    /** Read the payload of a message whose header is in `p`, in the header's buffer. */
    method RecvBody(p: Protocol, bt: ByteArray) returns (r: Outcome<bool>)
      requires bt.Valid() && bt.baseSize == BASE_SIZE && !bt.little && stream.sock !in bt.Repr
      requires p !in bt.Repr && p.errMsg == [] && PayloadLength(p.Model()) == p.payloadLen
      modifies stream.sock, bt.Repr, p
      ensures var k, h := old(stream.sock.State()), old(p.Model());
              var f := ReadOf(k, h.payloadLen);
              && stream.sock.State() == AfterFixedRead(k, f)
              && (f.outcome == BadAccess ==> r == BadAccess)
              && (f.outcome.Ok? && !Served(f) ==> r == Ok(false))
              && (Served(f) ==>
                    match BodyRead(h, k.incoming[..f.taken], ChunksOf(k, h.payloadLen))
                    case Ok(m) => r == Ok(true) && p.Model() == m
                    case OutOfRange => r == OutOfRange
                    case BadAccess => r == BadAccess)
    {
      ghost var k, h := stream.sock.State(), p.Model();
      var length := p.GetPayloadLength();
      bt.Clear();
      var n := Fetch(bt, length);
      if !n.Ok? {
        return BadAccess;
      }
      if n.value <= 0 {
        return Ok(false);
      }
      r := DecodeBody(p, bt, k.incoming[..ReadOf(k, length).taken]);
    }

    /** The error message, if the header announces one, and the rest as payload. */
    method DecodeBody(p: Protocol, bt: ByteArray, ghost body: seq<byte>) returns (r: Outcome<bool>)
      requires bt.Valid() && Holds(bt.Model(), body) && body != [] && p !in bt.Repr && p.errMsg == []
      modifies bt`position, bt`cur, bt`lag, p
      ensures match BodyRead(old(p.Model()), body, old(bt.Model()).count)
              case Ok(m) => r == Ok(true) && p.Model() == m
              case OutOfRange => r == OutOfRange
              case BadAccess => r == BadAccess
    {
      if p.carryMsg {
        var text := DecodeText(p, bt, body);
        if !text.Ok? {
          return if text.OutOfRange? then OutOfRange else BadAccess;
        }
      }
      var rest := bt.ToString();
      if !rest.Ok? {
        return if rest.OutOfRange? then OutOfRange else BadAccess;
      }
      p.payload := rest.value;
      r := Ok(true);
    }

    /** The text at the front of a body. */
    method DecodeText(p: Protocol, bt: ByteArray, ghost body: seq<byte>) returns (r: Outcome<()>)
      requires bt.Valid() && Holds(bt.Model(), body) && p !in bt.Repr
      modifies bt`position, bt`cur, bt`lag, p
      ensures bt.Valid()
      ensures match ParseStringVint(body)
              case Parsed(s, rest) =>
                && r == Ok(()) && p.Model() == WithErrMsg(old(p.Model()), s)
                && BehindText(old(bt.Model()), bt.Model(), rest)
              case Short => r == OutOfRange
    {
      TextOf(bt.Model(), body);
      var s := TakeStringVint(bt);
      if !s.Ok? {
        return if s.OutOfRange? then OutOfRange else BadAccess;
      }
      p.SetErrMsg(s.value);
      r := Ok(());
    }

    /** A whole message, or null, or an exception, or a fault. */
    method RecvProtocol() returns (r: Outcome<Protocol?>)
      modifies stream.sock
      ensures r.Ok? && r.value != null ==> fresh(r.value)
      ensures var (q, k) := RecvResult(old(stream.sock.State()));
              && stream.sock.State() == k
              && match q
                 case Ok(None) => r == Ok(null)
                 case Ok(Some(m)) => r.Ok? && r.value != null && r.value.Model() == m
                 case OutOfRange => r == OutOfRange
                 case BadAccess => r == BadAccess
    {
      ghost var k := stream.sock.State();
      var p, bt := RecvHeader();
      if p == null {
        return Ok(null);
      }
      if p.payloadLen == 0 {
        return Ok(p);
      }
      HeaderFits(k);
      var b := RecvBody(p, bt);
      match b
      case Ok(got) => r := Ok(if got then p else null);
      case OutOfRange => r := OutOfRange;
      case BadAccess => r := BadAccess;
    }

    /** Encode, then write the whole frame; the mutex keeps other writers out meanwhile. */
    method SendProtocol(msg: Protocol) returns (r: Outcome<bool>)
      requires |msg.errMsg| < Pow2(64)
      modifies stream.sock
      ensures SendResult(old(stream.sock.State()), old(Frame(msg.Model())), r, stream.sock.State())
    {
      var bt := msg.Encode();
      if !bt.Ok? {
        return BadAccess;
      }
      WriteFrame(stream.sock.State(), bt.value.Model(), Frame(msg.Model()).value);
      var n := stream.WriteFixedSize(bt.value, bt.value.size);
      match n
      case Ok(sent) => r := Ok(sent > 0);
      case OutOfRange => r := OutOfRange;
      case BadAccess => r := BadAccess;
    }
  }

  /** `w` is `v` with everything read but `rest`, wherever its cursor is. */
  ghost predicate BehindText(v: View, w: View, rest: seq<byte>)
  {
    w.Valid() && w == v.(pos := w.pos, lag := w.lag) && w.Unread() == rest
  }

  /** Reading the text at the front of a body, over any number of chunks: none of the single bytes of its length slips,
      and the text is read at once. */
  lemma TextOf(v: View, body: seq<byte>)
    requires Holds(v, body)
    ensures match ParseStringVint(body)
            case Parsed(s, rest) => StringVintV(v).outcome == Ok(s) && BehindText(v, StringVintV(v).view, rest)
            case Short => StringVintV(v).outcome == OutOfRange
  {
    if |body| < BASE_SIZE {
      HeldInOneChunk(v, body);
      StringVintAgrees(v);
    } else {
      LengthOf(v, body);
      var p := ParseVarint(body, 0, 64, 0);
      TextBehind(v, body, p.value, p.rest);
      var s := TakeV(Left(v, |p.rest|), p.value);
      assert StringVintV(v) == s;
    }
  }

  lemma LengthOf(v: View, body: seq<byte>)
    requires Holds(v, body) && |body| >= BASE_SIZE
    ensures var p := ParseVarint(body, 0, 64, 0);
            && p.Parsed? && |body| - 10 <= |p.rest| <= |body| && p.rest == body[|body| - |p.rest|..]
            && VarintV(v, 0, 64, 0) == Step(Ok(p.value), Left(v, |p.rest|))
  {
    VarintConsumes(body, 0, 64, 0, 10);
    VarintRestIsShorter(body, 0, 64, 0);
    var p := ParseVarint(body, 0, 64, 0);
    var k := |body| - |p.rest|;
    SteadyStart(v, k);
    assert Singles(k) + [] == Singles(k);
    SteadyVarint(v, 0, 64, 0, p.value, p.rest, []);
  }

  lemma {:induction false} SteadyStart(u: View, k: nat)
    requires u.Valid() && u.lag == 0 && u.base == BASE_SIZE && u.pos + k <= 10 && u.size >= BASE_SIZE
    ensures Steady(u, Singles(k))
    decreases k
  {
    if k > 0 {
      DivUnique(u.pos, BASE_SIZE, 0, u.pos);
      SteadyStart(Skip(u, 1), k - 1);
      assert Singles(k)[1..] == Singles(k - 1);
    }
  }

  lemma TextBehind(v: View, body: seq<byte>, n: nat, rest: seq<byte>)
    requires Holds(v, body) && |body| >= BASE_SIZE && |body| - 10 <= |rest| <= |body|
    requires rest == body[|body| - |rest|..]
    ensures var s := TakeV(Left(v, |rest|), n);
            match ParseBytes(rest, n)
            case Parsed(b, t) => s.outcome == Ok(b) && BehindText(v, s.view, t)
            case Short => s.outcome == OutOfRange
  {
    var u := Left(v, |rest|);
    assert v.flat[..v.size] == body;
    assert u.Unread() == rest;
    if n <= |rest| {
      assert v.flat[u.pos..u.pos + n] == rest[..n];
      assert v.flat[u.pos + n..u.size] == rest[n..];
    }
  }

  lemma HeaderFits(k: Sock)
    requires HeaderStep(k).0.Some?
    ensures var h := HeaderStep(k).0.value; h.errMsg == [] && PayloadLength(h) == h.payloadLen
  {
    var s := k.incoming[..HEADER_LEN];
    LoadedBound(s[12..20], false);
    Pow256IsPow2(8);
    var n := HeaderOf(s).payloadLen;
    DivUnique(n, Pow2(64), 0, n);
  }

  /** The write loop over a rewound buffer that holds a frame. */
  lemma WriteFrame(k: Sock, v: View, frame: seq<byte>)
    requires Holds(v, frame) && |frame| > 0
    ensures var w := WriteAll(k, v, |frame|, ToInt32(|frame|));
            if |frame| <= BASE_SIZE then w.outcome.Ok? && SentFrame(k, w.sock, frame, w.outcome.value > 0)
            else if k.open && ToInt32(|frame|) > 0 then w.outcome == BadAccess && w.sock == k
            else w.outcome.Ok? && w.outcome.value <= 0 && w.sock == k
  {
    if |frame| <= BASE_SIZE {
      var p := Pump(k.open, k.sends, |frame|, |frame|, 0);
      WriteAllOneChunk(k, v, |frame|);
      assert v.flat[0..p.taken] == frame[..p.taken];
    } else if k.open {
      WriteAllOversized(k, v, |frame|);
    } else {
      WriteAllClosed(k, v, |frame|);
    }
  }

  ghost predicate Empty(v: View)
  {
    v.Valid() && v.lag == 0 && v.pos == 0 && v.size == 0 && v.base == BASE_SIZE && v.count == 1
  }

  lemma HeaderInOneChunk(k: Sock)
    requires Served(ReadOf(k, HEADER_LEN))
    ensures HEADER_LEN <= ReadOf(k, HEADER_LEN).taken < BASE_SIZE
    ensures k.incoming[..ReadOf(k, HEADER_LEN).taken][..HEADER_LEN] == k.incoming[..HEADER_LEN]
  {
    ToInt32Small(HEADER_LEN);
    TakenBelow(k.open, k.recvs, |k.incoming|, BASE_SIZE, HEADER_LEN, HEADER_LEN, 0);
  }

  lemma HeldInOneChunk(v: View, data: seq<byte>)
    requires Holds(v, data) && |data| < BASE_SIZE
    ensures SameChunk(v)
  {
    DivUnique(0, v.base, 0, 0);
    DivUnique(v.size, v.base, 0, v.size);
    MulMonotone(1, v.count, v.base);
  }
}
