/** A connected socket with scripted short reads and writes, and the fixed-size loops over it.

    `recvs` and `sends` are the kernel's choices, one per call: a positive number limits the transfer,
    zero is an orderly shutdown and a negative number an error.  An empty script is an error. */
module StreamModel {
  import opened Bytes
  import opened Iovec
  import opened BufferModel

  datatype Sock = Sock(open: bool, incoming: seq<byte>, recvs: seq<int>, sent: seq<byte>, sends: seq<int>)

  function Took(script: seq<int>, cap: nat): (n: int)
    ensures n <= cap
  {
    if script == [] then -1 else Min(script[0], cap)
  }

  function Rest(script: seq<int>): seq<int>
  {
    if script == [] then [] else script[1..]
  }

  function SendCount(k: Sock, data: seq<byte>): int
  {
    Took(k.sends, |data|)
  }

  function AfterSend(k: Sock, data: seq<byte>): Sock
  {
    var n := SendCount(k, data);
    k.(sends := Rest(k.sends), sent := if n > 0 then k.sent + data[..n] else k.sent)
  }

  /** One past the largest `int`. */
  const INT_LIMIT: nat := 0x8000_0000

  /** `size_t` to `int`. */
  function ToInt32(n: nat): int
  {
    var u := n % 0x1_0000_0000;
    if u < INT_LIMIT then u else u - 0x1_0000_0000
  }

  /** How a transfer ends and what it leaves of the socket and the buffer. */
  datatype Transfer = Transfer(outcome: Outcome<int>, sock: Sock, view: View)

  // ---- read and readFixedSize --------------------------------------------------------------

  /** `read(ByteArray)`: what one recv yields is stored where the cursor really is, and the position moves over it.
      `garbage` is what the chunks appended for it held before. */
  function ReadOnce(k: Sock, v: View, length: nat, garbage: seq<byte>): (t: Transfer)
    requires v.Valid() && length > 0 && |garbage| == Growth(v, length) * v.base
    ensures t.view.Valid()
  {
    if !k.open then Transfer(Ok(-1), k, v)
    else
      var g := Grown(v, Growth(v, length), garbage);
      ModBasics(v.pos, v.base);
      match Offered(v.base, v.pos % v.base, length)
      case Ok(cap) =>
        var n := Took(k.recvs, Min(cap, |k.incoming|));
        if n <= 0 then Transfer(Ok(n), k.(recvs := Rest(k.recvs)), g)
        else
          GrownFits(v, length, garbage);
          Transfer(Ok(n), k.(recvs := Rest(k.recvs), incoming := k.incoming[n..]), Placed(g, k.incoming[..n]))
      case _ => Transfer(BadAccess, k, g)
  }

  /** `data` laid over the bytes at the cursor, and the position moved behind it. */
  function Placed(g: View, data: seq<byte>): (w: View)
    requires g.Valid() && g.pos + |data| <= |g.flat|
    ensures w.Valid() && w.pos == g.pos + |data| && w.lag == 0 && w.base == g.base
  {
    AfterSetPosition(g.(flat := Splice(g.flat, g.Target(), data)), g.pos + |data|)
  }

  /** The room made for a read is enough for all the list offers. */
  lemma GrownFits(v: View, length: nat, garbage: seq<byte>)
    requires v.Valid() && length > 0 && |garbage| == Growth(v, length) * v.base
    requires Offered(v.base, v.pos % v.base, length).Ok?
    ensures v.pos + Offered(v.base, v.pos % v.base, length).value <= |Grown(v, Growth(v, length), garbage).flat|
  {
    GrowthSuffices(v, length);
    var g := Grown(v, Growth(v, length), garbage);
    OfferFits(g.count, g.base, g.pos, length);
  }

  /** How the loop ends, how many of the waiting bytes it took and what is left of the script. */
  datatype Received = Received(outcome: Outcome<int>, taken: nat, recvs: seq<int>)

  /** How far into its chunk the flat offset `at` lies. */
  function ChunkOffset(base: nat, at: nat): (off: nat)
    requires base > 0
    ensures off < base
    decreases at
  {
    if at < base then at else ChunkOffset(base, at - base)
  }

  lemma {:induction false} ChunkOffsetIsMod(base: nat, at: nat)
    requires base > 0
    ensures ChunkOffset(base, at) == at % base
    decreases at
  {
    DivBasics(at, base);
    if at >= base {
      ChunkOffsetIsMod(base, at - base);
      DivBasics(at - base, base);
      MulSucc((at - base) / base, base);
      DivUnique(at, base, (at - base) / base + 1, (at - base) % base);
    } else {
      DivUnique(at, base, 0, at);
    }
  }

  /** The loop of `readFixedSize(ByteArray)` with `avail` bytes waiting, `taken` of them taken so far; the first
      went to buffer position `p`.  Every round asks for `length`, not for what is left of it, so a positive
      result means at least the wanted number of bytes and maybe more. */
  function FixedRead(open: bool, recvs: seq<int>, avail: nat, p: nat, base: nat, length: nat, left: int, taken: nat)
    : (r: Received)
    requires base > 0 && taken <= avail
    ensures taken <= r.taken <= avail && !r.outcome.OutOfRange?
    ensures left > 0 && r.outcome.Ok? && r.outcome.value > 0 ==>
              r.outcome.value == ToInt32(length) && r.taken >= taken + left
    decreases left
  {
    if left <= 0 then Received(Ok(ToInt32(length)), taken, recvs)
    else if !open then Received(Ok(-1), taken, recvs)
    else
      match Offered(base, ChunkOffset(base, p + taken), length)
      case Ok(cap) =>
        var n := Took(recvs, Min(cap, avail - taken));
        if n <= 0 then Received(Ok(n), taken, Rest(recvs))
        else FixedRead(open, Rest(recvs), avail, p, base, length, left - n, taken + n)
      case _ => Received(BadAccess, taken, recvs)
  }

  /** How many chunks the buffer has when the loop ends, of `count` now: each round makes room for `length` bytes. */
  function ChunksAfter(open: bool, recvs: seq<int>, avail: nat, p: nat, base: nat, length: nat, left: int, taken: nat,
                       count: nat)
    : (c: nat)
    requires base > 0 && taken <= avail
    ensures c >= count
    decreases left
  {
    if left <= 0 || !open then count
    else
      var g := count + GrowthAt(count * base, base, p + taken, length);
      match Offered(base, ChunkOffset(base, p + taken), length)
      case Ok(cap) =>
        var n := Took(recvs, Min(cap, avail - taken));
        if n <= 0 then g else ChunksAfter(open, Rest(recvs), avail, p, base, length, left - n, taken + n, g)
      case _ => g
  }

  lemma ChunksUnfold(open: bool, recvs: seq<int>, avail: nat, p: nat, base: nat, length: nat, left: int, taken: nat,
                     count: nat, r: Outcome<int>, n: nat, recvs': seq<int>)
    requires base > 0 && taken <= avail && left > 0
    requires RoundResult(open, recvs, avail, p, base, length, taken, r, n, recvs')
    ensures taken + n <= avail
    ensures var g := if open then count + GrowthAt(count * base, base, p + taken, length) else count;
            ChunksAfter(open, recvs, avail, p, base, length, left, taken, count)
            == if n > 0 then ChunksAfter(open, recvs', avail, p, base, length, left - n, taken + n, g) else g
  {
  }

  /** What one round returns, how many bytes it takes and the script it leaves. */
  predicate RoundResult(open: bool, recvs: seq<int>, avail: nat, p: nat, base: nat, length: nat, taken: nat,
                        r: Outcome<int>, n: nat, recvs': seq<int>)
    requires base > 0 && taken <= avail
  {
    if !open then r == Ok(-1) && n == 0 && recvs' == recvs
    else
      match Offered(base, ChunkOffset(base, p + taken), length)
      case Ok(cap) =>
        r == Ok(Took(recvs, Min(cap, avail - taken))) && n == Max(r.value, 0) && recvs' == Rest(recvs)
      case _ => r == BadAccess && n == 0 && recvs' == recvs
  }

  /** The loop is a round and, if it took something, the loop again. */
  lemma RoundUnfold(open: bool, recvs: seq<int>, avail: nat, p: nat, base: nat, length: nat, left: int, taken: nat,
                    r: Outcome<int>, n: nat, recvs': seq<int>)
    requires base > 0 && taken <= avail && left > 0
    requires RoundResult(open, recvs, avail, p, base, length, taken, r, n, recvs')
    ensures taken + n <= avail
    ensures if n > 0 then r == Ok(n) else !r.Ok? || r.value <= 0
    ensures FixedRead(open, recvs, avail, p, base, length, left, taken)
            == if n > 0 then FixedRead(open, recvs', avail, p, base, length, left - n, taken + n)
               else Received(r, taken, recvs')
  {
  }

  lemma ToInt32Small(n: nat)
    requires n < INT_LIMIT
    ensures ToInt32(n) == n
  {
  }

  /** Inside the first chunk the list offers what is asked for when that fits, and otherwise more. */
  lemma FirstChunkOffer(base: nat, at: nat, length: nat)
    requires at < base && length <= base
    ensures Offered(base, ChunkOffset(base, at), length) == Ok(if at + length <= base then length else base - at + length)
  {
  }

  /** A read that stays in the first chunk overshoots by less than its own length. */
  lemma {:induction false} TakenBelow(open: bool, recvs: seq<int>, avail: nat, base: nat, length: nat, left: int, taken: nat)
    requires base > 0 && taken <= avail && left > 0 && length > 0 && taken + left + length <= base
    ensures FixedRead(open, recvs, avail, 0, base, length, left, taken).taken < taken + left + length
    decreases left
  {
    FirstChunkOffer(base, taken, length);
    if open {
      var n := Took(recvs, Min(length, avail - taken));
      if 0 < n < left {
        TakenBelow(open, Rest(recvs), avail, base, length, left - n, taken + n);
      }
    }
  }

  /** The pieces are positive and add up to exactly `left`. */
  predicate Reaches(pieces: seq<int>, left: nat)
  {
    left == 0 || (pieces != [] && 0 < pieces[0] <= left && Reaches(pieces[1..], left - pieces[0]))
  }

  /** The pieces are positive until they add up to `left` or more. */
  predicate Covers(pieces: seq<int>, left: int)
  {
    left <= 0 || (pieces != [] && pieces[0] > 0 && Covers(pieces[1..], left - pieces[0]))
  }

  /** The pieces that remain once `left` is covered. */
  function PiecesAfter(pieces: seq<int>, left: int): seq<int>
  {
    if left <= 0 || pieces == [] then pieces else PiecesAfter(pieces[1..], left - pieces[0])
  }

  /** How the kernel must cut its deliveries for a read of `length` bytes to take exactly those: the pieces reach
      the length exactly, or the first one covers it, or nothing waits behind the `length` bytes. */
  predicate ExactPieces(pieces: seq<int>, length: nat, waiting: nat)
  {
    || Reaches(pieces, length)
    || (pieces != [] && pieces[0] >= length)
    || (waiting == length && Covers(pieces, length))
  }

  predicate Exact(r: Received, length: nat)
  {
    r.outcome.Ok? && r.outcome.value > 0 && r.taken == length
  }

  /** One round: no piece ends the read, a short one continues it, and one that covers the rest ends it, beyond the
      length when more is waiting and this is not the first round. */
  lemma ExactRound(pieces: seq<int>, avail: nat, base: nat, length: nat, taken: nat)
    requires taken < length <= avail && length <= base && length < INT_LIMIT
    ensures var r, left := FixedRead(true, pieces, avail, 0, base, length, length - taken, taken), length - taken;
            if pieces == [] || pieces[0] <= 0 then !Exact(r, length)
            else if pieces[0] < left
            then r == FixedRead(true, pieces[1..], avail, 0, base, length, left - pieces[0], taken + pieces[0])
            else r.recvs == pieces[1..] && (Exact(r, length) <==> pieces[0] == left || taken == 0 || avail == length)
  {
    FirstChunkOffer(base, taken, length);
    ToInt32Small(length);
  }

  /** The same condition with `taken` bytes of the `length` taken already. */
  predicate ExactRest(pieces: seq<int>, length: nat, waiting: nat, taken: nat)
    requires taken < length
  {
    || Reaches(pieces, length - taken)
    || (taken == 0 && pieces != [] && pieces[0] >= length)
    || (waiting == length && Covers(pieces, length - taken))
  }

  lemma ExactRestRound(pieces: seq<int>, length: nat, waiting: nat, taken: nat)
    requires taken < length
    ensures var left := length - taken;
            ExactRest(pieces, length, waiting, taken)
            <==> if pieces == [] || pieces[0] <= 0 then false
                 else if pieces[0] < left then ExactRest(pieces[1..], length, waiting, taken + pieces[0])
                 else pieces[0] == left || taken == 0 || waiting == length
  {
    if pieces != [] && pieces[0] >= length - taken {
      assert Reaches(pieces[1..], 0) && Covers(pieces[1..], length - taken - pieces[0]);
    }
  }

  lemma {:induction false} ExactFrom(pieces: seq<int>, avail: nat, base: nat, length: nat, taken: nat)
    requires taken < length <= avail && length <= base && length < INT_LIMIT
    ensures var r := FixedRead(true, pieces, avail, 0, base, length, length - taken, taken);
            && (Exact(r, length) <==> ExactRest(pieces, length, avail, taken))
            && (Exact(r, length) ==> r.recvs == PiecesAfter(pieces, length - taken))
    decreases |pieces|
  {
    ExactRound(pieces, avail, base, length, taken);
    ExactRestRound(pieces, length, avail, taken);
    if pieces != [] && 0 < pieces[0] < length - taken {
      ExactFrom(pieces[1..], avail, base, length, taken + pieces[0]);
    }
  }

  /** A fixed-size read into an empty buffer takes exactly what it was asked for if and only if the kernel cuts its
      deliveries so. */
  lemma ReadExactIff(pieces: seq<int>, avail: nat, base: nat, length: nat)
    requires 0 < length <= avail && length <= base && length < INT_LIMIT
    ensures var r := FixedRead(true, pieces, avail, 0, base, length, ToInt32(length), 0);
            && (Exact(r, length) <==> ExactPieces(pieces, length, avail))
            && (Exact(r, length) ==> r.recvs == PiecesAfter(pieces, length))
  {
    ToInt32Small(length);
    ExactFrom(pieces, avail, base, length, 0);
  }

  /** A first recv that falls `length - n` bytes short is followed by one that asks for `length` again:
      with enough bytes waiting the read takes `n` bytes of whatever comes after. */
  lemma ShortReadOvershoots(recvs: seq<int>, avail: nat, base: nat, length: nat, n: nat)
    requires 0 < n < length && n + length <= base && length < INT_LIMIT
    requires avail >= n + length && |recvs| >= 2 && recvs[0] == n && recvs[1] >= length
    ensures FixedRead(true, recvs, avail, 0, base, length, ToInt32(length), 0)
            == Received(Ok(length), n + length, recvs[2..])
  {
    ToInt32Small(length);
    FirstChunkOffer(base, 0, length);
    FirstChunkOffer(base, n, length);
    var rest := recvs[1..];
    assert rest[1..] == recvs[2..];
    assert FixedRead(true, rest, avail, 0, base, length, length - n, n) == Received(Ok(length), n + length, recvs[2..]);
  }

  /** The socket once `r.taken` bytes are taken from it. */
  function AfterFixedRead(k: Sock, r: Received): Sock
    requires r.taken <= |k.incoming|
  {
    k.(incoming := k.incoming[r.taken..], recvs := r.recvs)
  }

  // ---- write and writeFixedSize ------------------------------------------------------------

  /** `write(ByteArray)`.  The position moves by what was taken; past the capacity that throws. */
  function WriteOnce(k: Sock, v: View, length: nat): (w: Transfer)
    requires v.Valid()
    ensures w.view.Valid()
    ensures w.outcome.Ok? ==> w.outcome.value <= |v.flat|
  {
    if !k.open then Transfer(Ok(-1), k, v)
    else
      match ReadOffer(v, length)
      case Ok(data) =>
        var n := SendCount(k, data);
        var k' := AfterSend(k, data);
        if n <= 0 then Transfer(Ok(n), k', v)
        else if v.pos + n > |v.flat| then Transfer(OutOfRange, k', v)
        else Transfer(Ok(n), k', AfterSetPosition(v, v.pos + n))
      case _ => Transfer(BadAccess, k, v)
  }

  /** The loop of `writeFixedSize(ByteArray)` with `left` bytes to go.  Every round asks for `length`. */
  function WriteAll(k: Sock, v: View, length: nat, left: int): (w: Transfer)
    requires v.Valid()
    ensures w.view.Valid()
    decreases left
  {
    if left <= 0 then Transfer(Ok(ToInt32(length)), k, v)
    else
      var w := WriteOnce(k, v, length);
      if !w.outcome.Ok? || w.outcome.value <= 0 then w
      else WriteAll(w.sock, w.view, length, left - w.outcome.value)
  }

  lemma WriteAllUnfold(k: Sock, v: View, length: nat, left: int)
    requires v.Valid() && left > 0
    ensures var w := WriteOnce(k, v, length);
            WriteAll(k, v, length, left)
            == if w.outcome.Ok? && w.outcome.value > 0 then WriteAll(w.sock, w.view, length, left - w.outcome.value) else w
  {
  }

  lemma WriteAllDone(k: Sock, v: View, length: nat, left: int)
    requires v.Valid() && left <= 0
    ensures WriteAll(k, v, length, left) == Transfer(Ok(ToInt32(length)), k, v)
  {
  }

  /** How the loop ends, how many bytes went out and what is left of the script. */
  datatype Pumped = Pumped(outcome: int, taken: nat, sends: seq<int>)

  /** The loop over data that lies in one chunk, by the kernel's script alone: `taken` bytes are out and `left`
      are to go.  The result is positive exactly when all of them went out. */
  function Pump(open: bool, sends: seq<int>, left: nat, length: nat, taken: nat): (p: Pumped)
    requires length > 0
    ensures taken <= p.taken <= taken + left
    ensures p.outcome > 0 <==> p.taken == taken + left
    ensures p.outcome > 0 ==> p.outcome == length
    decreases left
  {
    if left == 0 then Pumped(length, taken, sends)
    else if !open then Pumped(-1, taken, sends)
    else
      var n := Took(sends, left);
      if n <= 0 then Pumped(n, taken, Rest(sends))
      else Pump(open, Rest(sends), left - n, length, taken + n)
  }

  /** The loop is a round and, if it sent something, the loop again. */
  lemma PumpUnfold(open: bool, sends: seq<int>, left: nat, length: nat, taken: nat)
    requires length > 0 && left > 0
    ensures var n := if open then Took(sends, left) else -1;
            var ss := if open then Rest(sends) else sends;
            Pump(open, sends, left, length, taken)
            == if n > 0 then Pump(open, ss, left - n, length, taken + n) else Pumped(n, taken, ss)
  {
  }

  /** All that is left to send is unread and lies in the first chunk. */
  ghost predicate InOneChunk(v: View, length: nat)
  {
    v.Valid() && v.lag == 0 && v.size <= v.base && length == v.size - v.pos && 0 < length < INT_LIMIT
  }

  /** A buffer whose data fits its first chunk offers exactly what is unread. */
  lemma OneChunkOffer(v: View, length: nat)
    requires v.Valid() && v.lag == 0 && v.pos < v.size <= v.base && length >= v.size - v.pos
    ensures ReadOffer(v, length) == Ok(v.Unread())
  {
    DivUnique(v.pos, v.base, 0, v.pos);
  }

  /** The socket and the buffer once `done` bytes of the data `v` holds went out. */
  function SockOut(k: Sock, v: View, done: nat, ss: seq<int>): Sock
    requires v.Valid() && v.pos + done <= v.size
  {
    k.(sent := k.sent + v.flat[v.pos..v.pos + done], sends := ss)
  }

  function ViewOut(v: View, done: nat): (w: View)
    requires v.Valid() && v.lag == 0 && v.pos + done <= v.size
    ensures w.Valid()
  {
    DivBasics(v.pos + done, v.base);
    v.(pos := v.pos + done)
  }

  /** One write from a one-chunk buffer sends the next unread bytes, as many as the kernel takes. */
  lemma OneChunkWrite(k: Sock, v: View, length: nat, done: nat, ss: seq<int>)
    requires InOneChunk(v, length) && done < length
    ensures var n := if k.open then Took(ss, length - done) else -1;
            var ss' := if k.open then Rest(ss) else ss;
            WriteOnce(SockOut(k, v, done, ss), ViewOut(v, done), length)
            == Transfer(Ok(n), SockOut(k, v, done + Max(n, 0), ss'), ViewOut(v, done + Max(n, 0)))
  {
    var k1, v1 := SockOut(k, v, done, ss), ViewOut(v, done);
    OneChunkOffer(v1, length);
    var n := Took(ss, length - done);
    if k.open && n > 0 {
      JoinSent(k.sent, v.flat, v.pos + done, n, v.size, v.pos);
      assert AfterSend(k1, v1.Unread()) == SockOut(k, v, done + n, Rest(ss));
      assert AfterSetPosition(v1, v1.pos + n) == ViewOut(v, done + n);
    }
  }

  /** The write loop over a one-chunk buffer of which `done` bytes are out, and how it ends by the script alone. */
  ghost function LoopFrom(k: Sock, v: View, length: nat, done: nat, ss: seq<int>): Transfer
    requires InOneChunk(v, length) && done <= length
  {
    WriteAll(SockOut(k, v, done, ss), ViewOut(v, done), length, length - done)
  }

  ghost function EndOf(k: Sock, v: View, length: nat, p: Pumped): Transfer
    requires InOneChunk(v, length) && p.taken <= length
  {
    Transfer(Ok(p.outcome), SockOut(k, v, p.taken, p.sends), ViewOut(v, p.taken))
  }

  lemma OneChunkEnd(k: Sock, v: View, length: nat, ss: seq<int>)
    requires InOneChunk(v, length)
    ensures LoopFrom(k, v, length, length, ss) == EndOf(k, v, length, Pumped(length, length, ss))
  {
    WriteAllDone(SockOut(k, v, length, ss), ViewOut(v, length), length, 0);
    ToInt32Small(length);
  }

  lemma OneChunkRound(k: Sock, v: View, length: nat, done: nat, ss: seq<int>)
    requires InOneChunk(v, length) && done < length
    ensures var n := if k.open then Took(ss, length - done) else -1;
            LoopFrom(k, v, length, done, ss)
            == if n > 0 then LoopFrom(k, v, length, done + n, Rest(ss))
               else EndOf(k, v, length, Pumped(n, done, if k.open then Rest(ss) else ss))
  {
    var k1, v1 := SockOut(k, v, done, ss), ViewOut(v, done);
    OneChunkWrite(k, v, length, done, ss);
    WriteAllUnfold(k1, v1, length, length - done);
    assert LoopFrom(k, v, length, done, ss) == WriteAll(k1, v1, length, length - done);
  }

  /** One round of a loop over the kernel's script that ends as `end` says. */
  ghost predicate PumpRound<T>(loop: (nat, seq<int>) -> T, end: Pumped -> T, open: bool, length: nat, done: nat, ss: seq<int>)
    requires done <= length
  {
    var n := if open then Took(ss, length - done) else -1;
    loop(done, ss) == if n > 0 then loop(done + n, Rest(ss)) else end(Pumped(n, done, if open then Rest(ss) else ss))
  }

  /** Any loop made of such rounds is the pump. */
  lemma {:induction false} PumpOf<T>(loop: (nat, seq<int>) -> T, end: Pumped -> T, open: bool, length: nat, done: nat,
                                     ss: seq<int>, left: nat)
    requires length > 0 && done + left == length
    requires forall s: seq<int> :: loop(length, s) == end(Pumped(length, length, s))
    requires forall d: nat, s: seq<int> :: d < length ==> PumpRound(loop, end, open, length, d, s)
    ensures loop(done, ss) == end(Pump(open, ss, left, length, done))
    decreases left
  {
    if left > 0 {
      assert PumpRound(loop, end, open, length, done, ss);
      PumpUnfold(open, ss, left, length, done);
      var n := if open then Took(ss, left) else -1;
      if n > 0 {
        PumpOf(loop, end, open, length, done + n, Rest(ss), left - n);
      }
    }
  }

  ghost function LoopAt(k: Sock, v: View, length: nat): (nat, seq<int>) -> Transfer
    requires InOneChunk(v, length)
  {
    (d: nat, s: seq<int>) => if d <= length then LoopFrom(k, v, length, d, s) else Transfer(BadAccess, k, v)
  }

  ghost function EndAt(k: Sock, v: View, length: nat): Pumped -> Transfer
    requires InOneChunk(v, length)
  {
    (p: Pumped) => if p.taken <= length then EndOf(k, v, length, p) else Transfer(BadAccess, k, v)
  }

  lemma LoopRounds(k: Sock, v: View, length: nat)
    requires InOneChunk(v, length)
    ensures var loop, end := LoopAt(k, v, length), EndAt(k, v, length);
            forall d: nat, s: seq<int> :: d < length ==> PumpRound(loop, end, k.open, length, d, s)
  {
    forall d: nat, s: seq<int> | d < length
      ensures PumpRound(LoopAt(k, v, length), EndAt(k, v, length), k.open, length, d, s)
    {
      OneChunkRound(k, v, length, d, s);
    }
  }

  lemma LoopEnds(k: Sock, v: View, length: nat)
    requires InOneChunk(v, length)
    ensures var loop, end := LoopAt(k, v, length), EndAt(k, v, length);
            forall s: seq<int> :: loop(length, s) == end(Pumped(length, length, s))
  {
    forall s: seq<int> ensures LoopAt(k, v, length)(length, s) == EndAt(k, v, length)(Pumped(length, length, s)) {
      OneChunkEnd(k, v, length, s);
    }
  }

  /** However the kernel splits the transfer and wherever an error stops it, what goes out of a one-chunk buffer
      is a prefix of its data, sent once and in order. */
  lemma WriteAllOneChunk(k: Sock, v: View, length: nat)
    requires InOneChunk(v, length)
    ensures WriteAll(k, v, length, ToInt32(length)) == EndOf(k, v, length, Pump(k.open, k.sends, length, length, 0))
  {
    LoopRounds(k, v, length);
    LoopEnds(k, v, length);
    PumpOf(LoopAt(k, v, length), EndAt(k, v, length), k.open, length, 0, k.sends, length);
    LoopStart(k, v, length);
  }

  lemma LoopStart(k: Sock, v: View, length: nat)
    requires InOneChunk(v, length)
    ensures WriteAll(k, v, length, ToInt32(length)) == LoopFrom(k, v, length, 0, k.sends)
  {
    assert k.sent + v.flat[v.pos..v.pos] == k.sent;
    ToInt32Small(length);
  }

  /** More data than a chunk holds walks off the chunk list. */
  lemma OversizedOfferFaults(v: View, length: nat)
    requires v.Valid() && v.size - v.pos > v.base && length > v.base
    ensures ReadOffer(v, length) == BadAccess
  {
    DivBasics(v.pos, v.base);
  }

  /** So it faults before anything is sent, unless its length is no positive `int`: then the loop does nothing. */
  lemma WriteAllOversized(k: Sock, v: View, length: nat)
    requires v.Valid() && v.size - v.pos > v.base && length > v.base && k.open
    ensures WriteAll(k, v, length, ToInt32(length))
            == if ToInt32(length) > 0 then Transfer(BadAccess, k, v) else Transfer(Ok(ToInt32(length)), k, v)
  {
    OversizedOfferFaults(v, length);
    if ToInt32(length) > 0 {
      WriteAllUnfold(k, v, length, ToInt32(length));
    } else {
      WriteAllDone(k, v, length, ToInt32(length));
    }
  }

  lemma WriteAllClosed(k: Sock, v: View, length: nat)
    requires v.Valid() && !k.open
    ensures WriteAll(k, v, length, ToInt32(length)) == Transfer(Ok(if ToInt32(length) > 0 then -1 else ToInt32(length)), k, v)
  {
    if ToInt32(length) > 0 {
      WriteAllUnfold(k, v, length, ToInt32(length));
    } else {
      WriteAllDone(k, v, length, ToInt32(length));
    }
  }

  lemma JoinSent(sent: seq<byte>, s: seq<byte>, i: nat, n: nat, size: nat, j: nat)
    requires j <= i && i + n <= size <= |s|
    ensures (sent + s[j..i]) + s[i..size][..n] == sent + s[j..i + n]
  {
    assert s[j..i] + s[i..size][..n] == s[j..i + n];
  }

  /** On a closed socket both calls return -1 and touch nothing. */
  lemma ClosedSocket(k: Sock, v: View, length: nat, garbage: seq<byte>)
    requires !k.open && v.Valid() && length > 0 && |garbage| == Growth(v, length) * v.base
    ensures ReadOnce(k, v, length, garbage) == Transfer(Ok(-1), k, v)
    ensures WriteOnce(k, v, length) == Transfer(Ok(-1), k, v)
  {
  }

  /** What the kernel answers instead of data is what a read returns, and nothing is taken. */
  lemma KernelEndsRead(k: Sock, length: nat, base: nat)
    requires k.open && k.recvs != [] && k.recvs[0] <= 0 && 0 < length <= base && length < INT_LIMIT
    ensures FixedRead(true, k.recvs, |k.incoming|, 0, base, length, ToInt32(length), 0) == Received(Ok(k.recvs[0]), 0, k.recvs[1..])
  {
    ToInt32Small(length);
    FirstChunkOffer(base, 0, length);
  }
}
