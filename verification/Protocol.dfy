/** `Protocol`: the mutable message object and its two codecs. */
module Protocols {
  import opened Bytes
  import opened BufferModel
  import opened ByteBuffer
  import opened BufferCodec
  import opened Codec
  import opened ProtocolModel

  const BASE_SIZE: nat := 4096

  /** Any message is held in a buffer with this view once `encode` has rewound it. */
  ghost predicate Holds(v: View, data: seq<byte>)
  {
    v.Valid() && v.lag == 0 && v.pos == 0 && v.base == BASE_SIZE && v.Unread() == data
  }

  class Protocol {
    var carryMsg: bool
    var magic: byte
    var version: byte
    var kind: byte
    var errCode: byte
    var id: nat
    var payloadLen: nat
    var errMsg: seq<byte>
    var payload: seq<byte>

    ghost function Model(): Msg
      reads this
    {
      Msg(carryMsg, magic, version, kind, errCode, id, payloadLen, errMsg, payload)
    }

    constructor ()
      ensures Model() == BLANK
    {
      carryMsg, magic, version, kind, errCode := false, MAGIC, VERSION, 0, RPC_SUCCESS;
      id, payloadLen, errMsg, payload := 0, 0, [], [];
    }

    method GetPayloadLength() returns (n: nat)
      ensures n == PayloadLength(Model())
    {
      n := Wrap(payloadLen - |errMsg|, 64);
    }

    method SetErrMsg(msg: seq<byte>)
      modifies this
      ensures Model() == WithErrMsg(old(Model()), msg)
    {
      if msg == [] {
        return;
      }
      carryMsg := true;
      payload := payload + [|msg| % 256];
      errMsg := msg;
    }

    static method Create(kind: byte, code: byte, msg: seq<byte>, content: seq<byte>, id: nat) returns (p: Protocol)
      ensures fresh(p) && p.Model() == Created(kind, code, msg, content, id)
    {
      p := new Protocol();
      p.kind := kind;
      p.errCode := code;
      p.SetErrMsg(msg);
      p.payloadLen := (p.payloadLen + |content|) % Pow2(64);
      p.payload := content;
      p.id := id;
    }

    /** One header field behind what is there. */
    method PutField(bt: ByteArray, value: nat, n: nat)
      requires bt.Valid() && this !in bt.Repr
      modifies bt.Repr
      ensures bt.Valid() && fresh(bt.Repr - old(bt.Repr)) && bt.little == old(bt.little)
      ensures old(bt.lag) == 0 ==> Appended(old(bt.Model()), bt.Model(), Stored(value, n, bt.little))
    {
      PutFixed(bt, value, n);
    }

    method EncodeHeader(bt: ByteArray)
      requires bt.Valid() && !bt.little && this !in bt.Repr
      modifies bt.Repr
      ensures bt.Valid() && fresh(bt.Repr - old(bt.Repr)) && !bt.little && this !in bt.Repr
      ensures old(bt.lag) == 0 ==> Appended(old(bt.Model()), bt.Model(), Header(Model()))
    {
      ghost var v0 := bt.Model();
      var first: seq<byte> := [magic, version, kind, Flags(errCode, carryMsg)];
      Put(bt, first);
      ghost var v1 := bt.Model();
      PutField(bt, id, 8);
      ghost var v2 := bt.Model();
      PutField(bt, payloadLen, 8);
      if v0.lag == 0 {
        AppendsThree(v0, v1, v2, bt.Model(), first, Stored(id, 8, false), Stored(payloadLen, 8, false));
      }
    }

    /** Header, message and payload in a fresh buffer, rewound. */
    method Encode() returns (r: Outcome<ByteArray>)
      requires |errMsg| < Pow2(64)
      ensures r.Ok? <==> Frame(Model()).Ok?
      ensures !r.Ok? ==> r == BadAccess
      ensures r.Ok? ==> fresh(r.value.Repr) && r.value.Valid() && Holds(r.value.Model(), Frame(Model()).value)
    {
      var bt := new ByteArray(BASE_SIZE);
      ghost var v := bt.Model();
      var ok := EncodeInto(bt);
      assert fresh(bt.Repr);
      if !ok {
        return BadAccess;
      }
      RewoundHolds(v, bt.Model(), Frame(Model()).value);
      var rewound := bt.SetPosition(0);
      r := Ok(bt);
    }

    method EncodeInto(bt: ByteArray) returns (ok: bool)
      requires bt.Valid() && !bt.little && this !in bt.Repr && bt.lag == 0 && |errMsg| < Pow2(64)
      modifies bt.Repr
      ensures bt.Valid() && fresh(bt.Repr - old(bt.Repr)) && this !in bt.Repr
      ensures ok <==> Frame(Model()).Ok?
      ensures ok ==> Appended(old(bt.Model()), bt.Model(), Frame(Model()).value)
    {
      ghost var v0 := bt.Model();
      EncodeHeader(bt);
      ghost var v1 := bt.Model();
      EncodeMessage(bt);
      assert fresh(bt.Repr - old(bt.Repr));
      ghost var v2 := bt.Model();
      ok := EncodePayload(bt);
      if ok {
        ghost var m := Model();
        AppendsThree(v0, v1, v2, bt.Model(), Header(m), MessagePart(m), PayloadPart(m).value);
      }
    }

    /** `n` bytes from the payload string, `n` in 64-bit arithmetic. */
    method EncodePayload(bt: ByteArray) returns (ok: bool)
      requires bt.Valid() && !bt.little && this !in bt.Repr
      modifies bt.Repr
      ensures bt.Valid() && fresh(bt.Repr - old(bt.Repr)) && !bt.little && this !in bt.Repr
      ensures ok <==> PayloadPart(Model()).Ok?
      ensures ok && old(bt.lag) == 0 ==> Appended(old(bt.Model()), bt.Model(), PayloadPart(Model()).value)
    {
      var n := Wrap(payloadLen - |errMsg|, 64);
      if n > |payload| + 1 {
        return false;
      }
      Put(bt, if n <= |payload| then payload[..n] else payload + [0]);
      ok := true;
    }

    /** The length-prefixed error message, if there is one. */
    method EncodeMessage(bt: ByteArray)
      requires bt.Valid() && !bt.little && this !in bt.Repr && |errMsg| < Pow2(64)
      modifies bt.Repr
      ensures bt.Valid() && fresh(bt.Repr - old(bt.Repr)) && !bt.little && this !in bt.Repr
      ensures old(bt.lag) == 0 ==> Appended(old(bt.Model()), bt.Model(), MessagePart(Model()))
    {
      if carryMsg {
        PutStringVint(bt, errMsg);
      } else {
        Put(bt, []);
      }
    }

    method AssignHeader(f: seq<nat>)
      requires |f| == 6
      modifies this
      ensures Model() == Assigned(f).(errMsg := old(errMsg), payload := old(payload))
    {
      magic, version, kind := f[0] % 256, f[1] % 256, f[2] % 256;
      errCode, carryMsg := f[3] % 256 / 2, f[3] % 2 == 1;
      id, payloadLen := f[4], f[5];
    }

    /** The fields as one value. */
    method Message() returns (m: Msg)
      ensures m == Model()
    {
      m := Msg(carryMsg, magic, version, kind, errCode, id, payloadLen, errMsg, payload);
    }

    /** Field by field from a buffer; a buffer that runs short throws. */
    method DecodeHeader(bt: ByteArray) returns (r: Outcome<()>)
      requires bt.Valid() && !bt.little && this !in bt.Repr
      modifies this, bt`position, bt`cur, bt`lag
      ensures bt.Valid()
      ensures var s := FieldsV(FIELD_WIDTHS, old(bt.Model()), []);
              && bt.Model() == s.view
              && match s.outcome
                 case Ok(f) => r == Ok(()) && Model() == Assigned(f).(errMsg := old(errMsg), payload := old(payload))
                 case OutOfRange => r == OutOfRange
                 case BadAccess => r == BadAccess
    {
      var fields := TakeFields(bt, FIELD_WIDTHS);
      match fields {
        case Ok(f) =>
          AssignHeader(f);
          r := Ok(());
        case OutOfRange => r := OutOfRange;
        case BadAccess => r := BadAccess;
      }
    }
  }

  // ---- the header as six fixed-width numbers -----------------------------------------------

  const FIELD_WIDTHS: seq<nat> := [1, 1, 1, 1, 8, 8]

  function FieldsV(ws: seq<nat>, v: View, acc: seq<nat>): (s: Step<seq<nat>>)
    requires v.Valid()
    ensures s.view.Valid()
    ensures s.outcome.Ok? ==> |s.outcome.value| == |acc| + |ws|
    decreases |ws|
  {
    if ws == [] then Step(Ok(acc), v)
    else
      var x := FixedV(v, ws[0], false);
      match x.outcome
      case Ok(n) => FieldsV(ws[1..], x.view, acc + [n])
      case OutOfRange => Step(OutOfRange, x.view)
      case BadAccess => Step(BadAccess, x.view)
  }

  function ParseFields(ws: seq<nat>, s: seq<byte>, acc: seq<nat>): Parsed<seq<nat>>
    decreases |ws|
  {
    if ws == [] then Parsed(acc, s)
    else
      match ParseFixed(s, ws[0], false)
      case Parsed(n, rest) => ParseFields(ws[1..], rest, acc + [n])
      case Short => Short
  }

  lemma {:induction false} FieldsAgree(ws: seq<nat>, v: View, acc: seq<nat>)
    requires SameChunk(v)
    ensures Agrees(v, FieldsV(ws, v, acc), ParseFields(ws, v.Unread(), acc))
    decreases |ws|
  {
    if ws != [] {
      FixedAgrees(v, ws[0], false);
      var x := FixedV(v, ws[0], false);
      if x.outcome.Ok? {
        FieldsAgree(ws[1..], x.view, acc + [x.outcome.value]);
      }
    }
  }

  method TakeFields(bt: ByteArray, ws: seq<nat>) returns (r: Outcome<seq<nat>>)
    requires bt.Valid() && !bt.little
    modifies bt`position, bt`cur, bt`lag
    ensures bt.Valid() && Step(r, bt.Model()) == FieldsV(ws, old(bt.Model()), [])
  {
    var out: seq<nat> := [];
    var i := 0;
    while i < |ws|
      invariant 0 <= i <= |ws| && bt.Valid()
      invariant FieldsV(ws, old(bt.Model()), []) == FieldsV(ws[i..], bt.Model(), out)
    {
      assert ws[i..][1..] == ws[i + 1..];
      var x := TakeFixed(bt, ws[i]);
      match x {
        case Ok(n) => out := out + [n];
        case OutOfRange => return OutOfRange;
        case BadAccess => return BadAccess;
      }
      i := i + 1;
    }
    r := Ok(out);
  }

  /** The six numbers of a header. */
  function Fields(h: seq<byte>): seq<nat>
    requires |h| >= HEADER_LEN
  {
    [h[0], h[1], h[2], h[3], Loaded(h[4..12], false), Loaded(h[12..20], false)]
  }

  /** The header fields assigned from the six numbers. */
  function Assigned(f: seq<nat>): Msg
    requires |f| == 6
  {
    BLANK.(magic := f[0] % 256, version := f[1] % 256, kind := f[2] % 256,
           errCode := f[3] % 256 / 2, carryMsg := f[3] % 2 == 1, id := f[4], payloadLen := f[5])
  }

  /** Inside one chunk the six reads take a header. */
  lemma HeaderInChunk(v: View)
    requires SameChunk(v)
    ensures var s := FieldsV(FIELD_WIDTHS, v, []);
            && Moved(v, s.view)
            && (|v.Unread()| < HEADER_LEN ==> s.outcome == OutOfRange)
            && (|v.Unread()| >= HEADER_LEN ==>
                  && s.outcome.Ok? && s.view.Unread() == v.Unread()[HEADER_LEN..]
                  && Assigned(s.outcome.value) == HeaderOf(v.Unread()[..HEADER_LEN]))
  {
    FieldsAgree(FIELD_WIDTHS, v, []);
    HeaderFields(FIELD_WIDTHS, v.Unread());
    if |v.Unread()| >= HEADER_LEN {
      AssignedIsHeader(v.Unread());
    }
  }

  lemma AssignedIsHeader(s: seq<byte>)
    requires |s| >= HEADER_LEN
    ensures Assigned(Fields(s)) == HeaderOf(s[..HEADER_LEN])
  {
    var h := s[..HEADER_LEN];
    assert h[4..12] == s[4..12] && h[12..20] == s[12..20];
    assert h[0] == s[0] && h[1] == s[1] && h[2] == s[2] && h[3] == s[3];
  }

  lemma {:induction false} FieldsShort(ws: seq<nat>, s: seq<byte>, acc: seq<nat>)
    requires |s| < Sum(ws)
    ensures ParseFields(ws, s, acc) == Short
    decreases |ws|
  {
    if ws != [] && ws[0] <= |s| {
      FieldsShort(ws[1..], s[ws[0]..], acc + [Loaded(s[..ws[0]], false)]);
    }
  }

  /** One field, `k` bytes into `s`. */
  lemma NextField(w: nat, ws: seq<nat>, s: seq<byte>, k: nat, acc: seq<nat>)
    requires k + w <= |s|
    ensures ParseFields([w] + ws, s[k..], acc) == ParseFields(ws, s[k + w..], acc + [Loaded(s[k..k + w], false)])
  {
    assert ([w] + ws)[1..] == ws;
    assert s[k..][..w] == s[k..k + w] && s[k..][w..] == s[k + w..];
  }

  lemma NextByte(ws: seq<nat>, s: seq<byte>, k: nat, acc: seq<nat>)
    requires k < |s|
    ensures ParseFields([1] + ws, s[k..], acc) == ParseFields(ws, s[k + 1..], acc + [s[k]])
  {
    NextField(1, ws, s, k, acc);
    assert s[k..k + 1] == [s[k]];
    LoadedByte(s[k]);
  }

  lemma TwoBytes(ws: seq<nat>, s: seq<byte>, k: nat, acc: seq<nat>)
    requires k + 2 <= |s|
    ensures ParseFields([1] + ([1] + ws), s[k..], acc) == ParseFields(ws, s[k + 2..], acc + [s[k], s[k + 1]])
  {
    NextByte([1] + ws, s, k, acc);
    NextByte(ws, s, k + 1, acc + [s[k]]);
    assert acc + [s[k]] + [s[k + 1]] == acc + [s[k], s[k + 1]];
  }

  lemma FourBytes(ws: seq<nat>, s: seq<byte>)
    requires |s| >= 4
    ensures ParseFields([1] + ([1] + ([1] + ([1] + ws))), s, []) == ParseFields(ws, s[4..], [s[0], s[1], s[2], s[3]])
  {
    assert s[0..] == s;
    var a, b: seq<nat> := [], [s[0], s[1]];
    TwoBytes([1] + ([1] + ws), s, 0, a);
    assert a + [s[0], s[1]] == b;
    TwoBytes(ws, s, 2, b);
    assert b + [s[2], s[3]] == [s[0], s[1], s[2], s[3]];
  }

  lemma TwoWords(ws: seq<nat>, s: seq<byte>, acc: seq<nat>)
    requires |s| >= 20 && ws == []
    ensures ParseFields([8] + ([8] + ws), s[4..], acc)
            == Parsed(acc + [Loaded(s[4..12], false)] + [Loaded(s[12..20], false)], s[20..])
  {
    NextField(8, [8] + ws, s, 4, acc);
    NextField(8, ws, s, 12, acc + [Loaded(s[4..12], false)]);
  }

  lemma HeaderFields(ws: seq<nat>, s: seq<byte>)
    requires ws == FIELD_WIDTHS
    ensures |s| < HEADER_LEN ==> ParseFields(ws, s, []) == Short
    ensures |s| >= HEADER_LEN ==> ParseFields(ws, s, []) == Parsed(Fields(s), s[HEADER_LEN..])
  {
    var none: seq<nat> := [];
    var two := [8] + ([8] + none);
    assert ws == [1] + ([1] + ([1] + ([1] + two)));
    if |s| < HEADER_LEN {
      assert Sum(ws) == 20;
      FieldsShort(ws, s, []);
    } else {
      var acc: seq<nat> := [s[0], s[1], s[2], s[3]];
      FourBytes(two, s);
      TwoWords(none, s, acc);
      assert acc + [Loaded(s[4..12], false)] + [Loaded(s[12..20], false)] == Fields(s);
    }
  }

  lemma RewoundHolds(v0: View, v: View, data: seq<byte>)
    requires Appended(v0, v, data) && v0.pos == 0 && v0.size == 0 && v0.base == BASE_SIZE
    ensures Holds(AfterSetPosition(v, 0), data)
  {
    assert v0.Written() + data == data;
  }
}
