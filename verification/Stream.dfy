/** `SocketStream` and the fixed-size loops of `Stream`, over the chunked buffer. */
module Streams {
  import opened Bytes
  import opened Chunks
  import opened Iovec
  import opened BufferModel
  import opened ByteBuffer
  import opened BufferCodec
  import opened StreamModel

  class Socket {
    var open: bool
    var incoming: seq<byte>
    var recvs: seq<int>
    var sent: seq<byte>
    var sends: seq<int>

    ghost function State(): Sock
      reads this
    {
      Sock(open, incoming, recvs, sent, sends)
    }

    /** The kernel moves at most `cap` waiting bytes out, as its script says. */
    method Recv(cap: nat) returns (n: int, data: seq<byte>)
      modifies this
      ensures n == Took(old(recvs), Min(cap, |old(incoming)|))
      ensures data == if n > 0 then old(incoming)[..n] else []
      ensures State() == old(State()).(recvs := Rest(old(recvs)), incoming := old(incoming)[|data|..])
    {
      n := Took(recvs, Min(cap, |incoming|));
      data := if n > 0 then incoming[..n] else [];
      recvs, incoming := Rest(recvs), incoming[|data|..];
    }

    method Send(data: seq<byte>) returns (n: int)
      modifies this
      ensures n == SendCount(old(State()), data)
      ensures State() == AfterSend(old(State()), data)
    {
      n := Took(sends, |data|);
      sends, sent := Rest(sends), if n > 0 then sent + data[..n] else sent;
    }
  }

  ghost function Zeros(n: nat): (s: seq<byte>)
    ensures |s| == n
  {
    seq(n, i => 0)
  }

  function Capacity(iov: seq<IoVec>): nat
  {
    if iov == [] then 0 else iov[0].len + Capacity(iov[1..])
  }

  lemma {:induction false} CapacityIsTotal(iov: seq<IoVec>, segs: seq<Seg>)
    requires |iov| == |segs| && forall i :: 0 <= i < |iov| ==> iov[i].len == segs[i].len
    ensures Capacity(iov) == Total(segs)
  {
    if iov != [] {
      CapacityIsTotal(iov[1..], segs[1..]);
    }
  }

  /** Store received bytes through the list and advance the position over them. */
  method StoreReceived(ba: ByteArray, iov: seq<IoVec>, data: seq<byte>, ghost segs: seq<Seg>)
    requires ba.Valid() && ba.Points(iov, segs) && Adjacent(segs, ba.baseSize, ba.Model().Target())
    requires |data| <= Total(segs) && ba.position + |data| <= ba.capacity
    modifies ba.Repr
    ensures ba.Valid() && ba.Repr == old(ba.Repr) && ba.little == old(ba.little)
    ensures ba.Model() == Placed(old(ba.Model()), data)
  {
    ba.FlatLength();
    ba.Scatter(iov, data, segs, ba.Model().Target());
    var moved := ba.SetPosition(ba.position + |data|);
  }

  // ---- reading -----------------------------------------------------------------------------

  /** `done` of the bytes waiting at `k` were read into the buffer `v` and `rs` is left of the script; into an aligned
      buffer they were appended. */
  ghost predicate Reading(k: Sock, v: View, done: nat, rs: seq<int>, k': Sock, v': View)
  {
    && v.Valid() && v'.Valid() && done <= |k.incoming|
    && v'.pos == v.pos + done && v'.base == v.base
    && k' == k.(incoming := k.incoming[done..], recvs := rs)
    && (v.lag == 0 ==> Appended(v, v', k.incoming[..done]))
  }

  lemma GrownAppends(v: View, length: nat, garbage: seq<byte>)
    requires v.Valid() && v.lag == 0 && |garbage| == Growth(v, length) * v.base
    ensures Appended(v, Grown(v, Growth(v, length), garbage), [])
  {
    assert v.Written() + [] == v.Written();
  }

  lemma PlacedAppends(v: View, g: View, data: seq<byte>)
    requires Appended(v, g, []) && g.pos + |data| <= |g.flat|
    ensures Appended(v, Placed(g, data), data)
  {
    var z := Placed(g, data);
    assert z.Written() == g.Written() + data;
    assert v.Written() + [] == v.Written();
  }

  /** One read into an aligned buffer appends what it takes. */
  lemma ReadAppends(k: Sock, v: View, length: nat, garbage: seq<byte>)
    requires v.Valid() && v.lag == 0 && length > 0 && |garbage| == Growth(v, length) * v.base
    ensures var t := ReadOnce(k, v, length, garbage);
            Appended(v, t.view, if t.outcome.Ok? && t.outcome.value > 0 then k.incoming[..t.outcome.value] else [])
  {
    assert v.Written() + [] == v.Written();
    GrownAppends(v, length, garbage);
    var t, g := ReadOnce(k, v, length, garbage), Grown(v, Growth(v, length), garbage);
    if t.outcome.Ok? && t.outcome.value > 0 {
      GrownFits(v, length, garbage);
      PlacedAppends(v, g, k.incoming[..t.outcome.value]);
    }
  }

  lemma TakeMore(k: Sock, v: View, v1: View, v2: View, done: nat, n: nat)
    requires done + n <= |k.incoming|
    requires Appended(v, v1, k.incoming[..done]) && Appended(v1, v2, k.incoming[done..][..n])
    ensures Appended(v, v2, k.incoming[..done + n])
  {
    AppendsCompose(v, v1, v2, k.incoming[..done], k.incoming[done..][..n]);
    assert k.incoming[..done] + k.incoming[done..][..n] == k.incoming[..done + n];
  }

  /** What one round of the fixed-size read does, as the script alone says it. */
  lemma RoundOf(k: Sock, v: View, done: nat, rs: seq<int>, k1: Sock, v1: View, length: nat, garbage: seq<byte>)
    returns (n: nat, rs': seq<int>)
    requires Reading(k, v, done, rs, k1, v1) && length > 0 && |garbage| == Growth(v1, length) * v1.base
    ensures var t := ReadOnce(k1, v1, length, garbage);
            && RoundResult(k.open, rs, |k.incoming|, v.pos, v.base, length, done, t.outcome, n, rs')
            && done + n <= |k.incoming| && t.view.pos == v1.pos + n && t.view.base == v1.base
            && t.sock == k.(incoming := k.incoming[done + n..], recvs := rs')
            && (if t.outcome.Ok? && t.outcome.value > 0 then t.outcome.value == n else n == 0)
            && t.view.count == v1.count + if k.open then Growth(v1, length) else 0
  {
    ChunkOffsetIsMod(v.base, v.pos + done);
    var t := ReadOnce(k1, v1, length, garbage);
    n := if t.outcome.Ok? && t.outcome.value > 0 then t.outcome.value else 0;
    rs' := if k.open && t.outcome.Ok? then Rest(rs) else rs;
    assert k.incoming[done..][n..] == k.incoming[done + n..];
  }

  /** A round of a read that will end as `f` says. */
  lemma ReadingRound(k: Sock, v: View, done: nat, rs: seq<int>, k1: Sock, v1: View, length: nat, left: int,
                     garbage: seq<byte>, f: Received, c: nat)
    returns (n: nat, rs': seq<int>)
    requires Reading(k, v, done, rs, k1, v1) && length > 0 && left > 0 && |garbage| == Growth(v1, length) * v1.base
    requires f == FixedRead(k.open, rs, |k.incoming|, v.pos, v.base, length, left, done)
    requires c == ChunksAfter(k.open, rs, |k.incoming|, v.pos, v.base, length, left, done, v1.count)
    ensures var t := ReadOnce(k1, v1, length, garbage);
            && Reading(k, v, done + n, rs', t.sock, t.view)
            && (if n > 0 then t.outcome == Ok(n) else !t.outcome.Ok? || t.outcome.value <= 0)
            && (f == if n > 0 then FixedRead(k.open, rs', |k.incoming|, v.pos, v.base, length, left - n, done + n)
                     else Received(t.outcome, done, rs'))
            && (c == if n > 0
                     then ChunksAfter(k.open, rs', |k.incoming|, v.pos, v.base, length, left - n, done + n, t.view.count)
                     else t.view.count)
  {
    var t := ReadOnce(k1, v1, length, garbage);
    n, rs' := RoundOf(k, v, done, rs, k1, v1, length, garbage);
    RoundUnfold(k.open, rs, |k.incoming|, v.pos, v.base, length, left, done, t.outcome, n, rs');
    ChunksUnfold(k.open, rs, |k.incoming|, v.pos, v.base, length, left, done, v1.count, t.outcome, n, rs');
    if v.lag == 0 {
      ReadAppends(k1, v1, length, garbage);
      assert n == 0 ==> k.incoming[done..][..n] == [];
      TakeMore(k, v, v1, t.view, done, n);
    }
  }

  /** With `left` bytes to go the read will end as `f` says, with `c` chunks. */
  ghost predicate Toward(f: Received, c: nat, k: Sock, v: View, length: nat, left: int, done: nat, rs: seq<int>, k': Sock,
                         v': View)
  {
    && Reading(k, v, done, rs, k', v') && (left > 0 ==> length > 0)
    && f == FixedRead(k.open, rs, |k.incoming|, v.pos, v.base, length, left, done)
    && c == ChunksAfter(k.open, rs, |k.incoming|, v.pos, v.base, length, left, done, v'.count)
  }

  lemma StartsReading(k: Sock, v: View)
    requires v.Valid()
    ensures Reading(k, v, 0, k.recvs, k, v)
  {
    assert v.Written() + k.incoming[..0] == v.Written();
  }

  /** What `readFixedSize` returns and leaves behind: the result and the bytes taken are those of the loop on the
      socket's script, and an aligned buffer has them appended. */
  ghost predicate FixedReadResult(k: Sock, v: View, length: nat, r: Outcome<int>, k': Sock, v': View)
  {
    && v.Valid()
    && v'.count == ChunksAfter(k.open, k.recvs, |k.incoming|, v.pos, v.base, length, ToInt32(length), 0, v.count)
    && var f := FixedRead(k.open, k.recvs, |k.incoming|, v.pos, v.base, length, ToInt32(length), 0);
       r == f.outcome && Reading(k, v, f.taken, f.recvs, k', v')
  }

  /** With `left` bytes to go the write will end as `goal` says. */
  ghost predicate Sending(goal: Transfer, length: nat, left: int, k: Sock, v: View)
  {
    v.Valid() && goal == WriteAll(k, v, length, left)
  }

  lemma SendingDone(goal: Transfer, length: nat, left: int, k: Sock, v: View)
    requires Sending(goal, length, left, k, v) && left <= 0
    ensures goal == Transfer(Ok(ToInt32(length)), k, v)
  {
    WriteAllDone(k, v, length, left);
  }

  class SocketStream {
    const sock: Socket

    constructor (s: Socket)
      ensures sock == s
    {
      sock := s;
    }

    /** `read(ByteArray)`. */
    method Read(ba: ByteArray, length: nat) returns (r: Outcome<int>, ghost garbage: seq<byte>)
      requires ba.Valid() && sock !in ba.Repr && length > 0
      modifies sock, ba.Repr
      ensures ba.Valid() && fresh(ba.Repr - old(ba.Repr)) && sock !in ba.Repr && ba.little == old(ba.little)
      ensures |garbage| == Growth(old(ba.Model()), length) * old(ba.Model()).base
      ensures Transfer(r, sock.State(), ba.Model()) == ReadOnce(old(sock.State()), old(ba.Model()), length, garbage)
    {
      ghost var v := ba.Model();
      if !sock.open {
        garbage := Zeros(Growth(v, length) * v.base);
        return Ok(-1), garbage;
      }
      var iov;
      ghost var segs;
      iov, segs, garbage := ba.GetWriteBuffers(length);
      if !iov.Ok? {
        return BadAccess, garbage;
      }
      CapacityIsTotal(iov.value, segs);
      GrownFits(v, length, garbage);
      var n, data := sock.Recv(Capacity(iov.value));
      if n > 0 {
        StoreReceived(ba, iov.value, data, segs);
      }
      r := Ok(n);
    }

    /** One round of the loop below, which will end as `f` says. */
    method ReadRound(ba: ByteArray, length: nat, ghost left: int, ghost k: Sock, ghost v: View, ghost done: nat,
                     ghost rs: seq<int>, ghost f: Received, ghost c: nat)
      returns (r: Outcome<int>, ghost done': nat, ghost rs': seq<int>)
      requires ba.Valid() && sock !in ba.Repr && length > 0 && left > 0
      requires Toward(f, c, k, v, length, left, done, rs, sock.State(), ba.Model())
      modifies sock, ba.Repr
      ensures ba.Valid() && fresh(ba.Repr - old(ba.Repr)) && sock !in ba.Repr && ba.little == old(ba.little)
      ensures if r.Ok? && r.value > 0 then Toward(f, c, k, v, length, left - r.value, done', rs', sock.State(), ba.Model())
              else r == f.outcome && ba.Model().count == c && Reading(k, v, f.taken, f.recvs, sock.State(), ba.Model())
    {
      ghost var k1, v1 := sock.State(), ba.Model();
      ghost var garbage, n;
      r, garbage := Read(ba, length);
      n, rs' := ReadingRound(k, v, done, rs, k1, v1, length, left, garbage, f, c);
      done' := done + n;
    }

    /** `readFixedSize(ByteArray)`. */
    method ReadFixedSize(ba: ByteArray, length: nat) returns (r: Outcome<int>)
      requires ba.Valid() && sock !in ba.Repr
      modifies sock, ba.Repr
      ensures ba.Valid() && fresh(ba.Repr - old(ba.Repr)) && sock !in ba.Repr && ba.little == old(ba.little)
      ensures FixedReadResult(old(sock.State()), old(ba.Model()), length, r, sock.State(), ba.Model())
    {
      ghost var k, v := sock.State(), ba.Model();
      var left := ToInt32(length);
      ghost var done: nat, rs := 0, k.recvs;
      ghost var f := FixedRead(k.open, rs, |k.incoming|, v.pos, v.base, length, left, 0);
      ghost var c := ChunksAfter(k.open, rs, |k.incoming|, v.pos, v.base, length, left, 0, v.count);
      StartsReading(k, v);
      while left > 0
        invariant ba.Valid() && fresh(ba.Repr - old(ba.Repr)) && sock !in ba.Repr && ba.little == old(ba.little)
        invariant Toward(f, c, k, v, length, left, done, rs, sock.State(), ba.Model())
      {
        r, done, rs := ReadRound(ba, length, left, k, v, done, rs, f, c);
        if !r.Ok? || r.value <= 0 {
          return;
        }
        left := left - r.value;
      }
      r := Ok(ToInt32(length));
    }

    /** `write(ByteArray)`: gather from the position on, send, and advance over what was taken. */
    method Write(ba: ByteArray, length: nat) returns (r: Outcome<int>)
      requires ba.Valid() && sock !in ba.Repr
      modifies sock, ba`position, ba`size, ba`cur, ba`lag
      ensures ba.Valid()
      ensures Transfer(r, sock.State(), ba.Model()) == WriteOnce(old(sock.State()), old(ba.Model()), length)
    {
      if !sock.open {
        return Ok(-1);
      }
      var want, iov;
      ghost var segs;
      want, iov, segs := ba.GetReadBuffers(length);
      if !iov.Ok? {
        return BadAccess;
      }
      var data := ba.Collect(iov.value, segs);
      var n := sock.Send(data);
      r := Ok(n);
      if n > 0 {
        var moved := ba.SetPosition(ba.position + n);
        if !moved.Ok? {
          r := OutOfRange;
        }
      }
    }

    /** One round of the loop below, which will end as `goal` says. */
    method WriteRound(ba: ByteArray, length: nat, left: int, ghost goal: Transfer) returns (r: Outcome<int>, left': int)
      requires ba.Valid() && sock !in ba.Repr && left > 0 && Sending(goal, length, left, sock.State(), ba.Model())
      modifies sock, ba`position, ba`size, ba`cur, ba`lag
      ensures ba.Valid()
      ensures left' == left - if r.Ok? && r.value > 0 then r.value else 0
      ensures if r.Ok? && r.value > 0 then Sending(goal, length, left', sock.State(), ba.Model())
              else goal == Transfer(r, sock.State(), ba.Model())
    {
      WriteAllUnfold(sock.State(), ba.Model(), length, left);
      r := Write(ba, length);
      left' := left - if r.Ok? && r.value > 0 then r.value else 0;
    }

    /** `writeFixedSize(ByteArray)`. */
    method WriteFixedSize(ba: ByteArray, length: nat) returns (r: Outcome<int>)
      requires ba.Valid() && sock !in ba.Repr
      modifies sock, ba`position, ba`size, ba`cur, ba`lag
      ensures ba.Valid()
      ensures Transfer(r, sock.State(), ba.Model()) == WriteAll(old(sock.State()), old(ba.Model()), length, ToInt32(length))
    {
      var left := ToInt32(length);
      ghost var goal := WriteAll(sock.State(), ba.Model(), length, left);
      assert Sending(goal, length, left, sock.State(), ba.Model());
      while left > 0
        invariant ba.Valid()
        invariant Sending(goal, length, left, sock.State(), ba.Model())
      {
        r, left := WriteRound(ba, length, left, goal);
        if !r.Ok? || r.value <= 0 {
          return;
        }
      }
      SendingDone(goal, length, left, sock.State(), ba.Model());
      r := Ok(ToInt32(length));
    }
  }
}
