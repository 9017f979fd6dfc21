/** The typed writers and readers of `ByteArray`.

    Writers append an encoding; readers are stated on the buffer view, so that they say what the
    cursor does as well.  `SameChunk` is the condition under which a reader is the flat decoder. */
module BufferCodec {
  import opened Bytes
  import opened Bits
  import opened BufferModel
  import opened ByteBuffer
  import opened Codec

  // ---- writers -----------------------------------------------------------------------------

  /** `w` is `v` with `data` written from the position on and every later byte kept. */
  ghost predicate Appended(v: View, w: View, data: seq<byte>)
  {
    && v.Valid() && w.Valid()
    && v.lag == 0 && w.lag == 0
    && w.base == v.base
    && |w.flat| >= |v.flat|
    && w.pos == v.pos + |data|
    && w.size == Max(v.size, w.pos)
    && w.Written() == v.Written() + data
    && forall i :: w.pos <= i < |v.flat| ==> w.flat[i] == v.flat[i]
  }

  lemma WriteAppends(v: View, data: seq<byte>, garbage: seq<byte>)
    requires v.Valid() && v.lag == 0 && |garbage| == Growth(v, |data|) * v.base
    ensures Appended(v, AfterWrite(v, data, garbage), data)
  {
    if data == [] {
      assert v.Written() + data == v.Written();
    } else {
      GrowthSuffices(v, |data|);
    }
  }

  lemma AppendsCompose(u: View, v: View, w: View, x: seq<byte>, y: seq<byte>)
    requires Appended(u, v, x) && Appended(v, w, y)
    ensures Appended(u, w, x + y)
  {
    assert u.Written() + (x + y) == u.Written() + x + y;
  }

  lemma AppendsThree(u: View, v: View, w: View, z: View, x: seq<byte>, y: seq<byte>, t: seq<byte>)
    requires Appended(u, v, x) && Appended(v, w, y) && Appended(w, z, t)
    ensures Appended(u, z, x + y + t)
  {
    AppendsCompose(u, v, w, x, y);
    AppendsCompose(u, w, z, x + y, t);
  }

  /** `w` is `v` after one `write` of `data`, wherever its cursor was. */
  ghost predicate Wrote(v: View, w: View, data: seq<byte>)
  {
    v.Valid() && exists garbage: seq<byte> :: |garbage| == Growth(v, |data|) * v.base && w == AfterWrite(v, data, garbage)
  }

  /** `write` of raw bytes. */
  method Put(bt: ByteArray, data: seq<byte>)
    requires bt.Valid()
    modifies bt.Repr
    ensures bt.Valid() && fresh(bt.Repr - old(bt.Repr)) && bt.little == old(bt.little)
    ensures Wrote(old(bt.Model()), bt.Model(), data)
    ensures old(bt.lag) == 0 ==> Appended(old(bt.Model()), bt.Model(), data)
  {
    ghost var v := bt.Model();
    ghost var garbage := bt.Write(data);
    assert Wrote(v, bt.Model(), data);
    if v.lag == 0 {
      WriteAppends(v, data, garbage);
    }
  }

  /** The fixed-width writers: `n` bytes in the buffer's byte order. */
  method PutFixed(bt: ByteArray, value: nat, n: nat)
    requires bt.Valid()
    modifies bt.Repr
    ensures bt.Valid() && fresh(bt.Repr - old(bt.Repr)) && bt.little == old(bt.little)
    ensures Wrote(old(bt.Model()), bt.Model(), Stored(value, n, bt.little))
    ensures old(bt.lag) == 0 ==> Appended(old(bt.Model()), bt.Model(), Stored(value, n, bt.little))
  {
    Put(bt, Stored(value, n, bt.little));
  }

  /** `writeUint32` and `writeUint64`, with their scratch arrays of 5 and 10 bytes. */
  method PutVarint(bt: ByteArray, value: nat, w: nat)
    requires bt.Valid() && (w == 32 || w == 64) && value < Pow2(w)
    modifies bt.Repr
    ensures bt.Valid() && fresh(bt.Repr - old(bt.Repr)) && bt.little == old(bt.little)
    ensures Wrote(old(bt.Model()), bt.Model(), Varint(value))
    ensures old(bt.lag) == 0 ==> Appended(old(bt.Model()), bt.Model(), Varint(value))
  {
    var bytes := VarintScratch(value, w);
    Put(bt, bytes);
  }

  /** The encoding loop over the scratch array. */
  method VarintScratch(value: nat, w: nat) returns (bytes: seq<byte>)
    requires (w == 32 || w == 64) && value < Pow2(w)
    ensures bytes == Varint(value)
  {
    VarintFitsScratch(value, w);
    bytes := FillScratch(value, if w == 32 then 5 else 10);
  }

  method FillScratch(value: nat, capacity: nat) returns (bytes: seq<byte>)
    requires |Varint(value)| <= capacity
    ensures bytes == Varint(value)
  {
    var tmp := new byte[capacity];
    var i: nat, v: nat := 0, value;
    ghost var done: seq<byte> := [];
    while v >= 0x80
      invariant i + |Varint(v)| <= tmp.Length
      invariant tmp[..i] == done && done + Varint(v) == Varint(value)
    {
      ghost var next := done + [v % 128 + 128];
      assert next + Varint(v / 128) == done + Varint(v);
      tmp[i] := v % 128 + 128;
      i, v, done := i + 1, v / 128, next;
    }
    tmp[i] := v;
    bytes := tmp[..i + 1];
    assert bytes == done + [v];
  }

  method PutStringVint(bt: ByteArray, s: seq<byte>)
    requires bt.Valid() && |s| < Pow2(64)
    modifies bt.Repr
    ensures bt.Valid() && fresh(bt.Repr - old(bt.Repr)) && bt.little == old(bt.little)
    ensures exists v: View :: Wrote(old(bt.Model()), v, Varint(|s|)) && Wrote(v, bt.Model(), s)
    ensures old(bt.lag) == 0 ==> Appended(old(bt.Model()), bt.Model(), StringVint(s))
  {
    ghost var u := bt.Model();
    PutVarint(bt, |s|, 64);
    ghost var v := bt.Model();
    Put(bt, s);
    if u.lag == 0 {
      AppendsCompose(u, v, bt.Model(), Varint(|s|), s);
    }
  }

  // ---- readers -----------------------------------------------------------------------------

  /** A reader's outcome and the buffer it leaves. */
  datatype Step<+T> = Step(outcome: Outcome<T>, view: View)

  function TakeV(v: View, n: nat): (s: Step<seq<byte>>)
    requires v.Valid()
    ensures s.view.Valid()
  {
    Step(ReadResult(v, n), AfterRead(v, n))
  }

  function FixedV(v: View, n: nat, little: bool): (s: Step<nat>)
    requires v.Valid()
    ensures s.view.Valid()
  {
    var t := TakeV(v, n);
    match t.outcome
    case Ok(bytes) => Step(Ok(Loaded(bytes, little)), t.view)
    case OutOfRange => Step(OutOfRange, t.view)
    case BadAccess => Step(BadAccess, t.view)
  }

  function VarintV(v: View, shift: nat, w: nat, acc: nat): (s: Step<nat>)
    requires v.Valid()
    ensures s.view.Valid()
    decreases v.size - v.pos
  {
    if shift >= w then Step(Ok(acc), v)
    else
      var t := TakeV(v, 1);
      match t.outcome
      case Ok(b) =>
        var acc' := BitOr(acc, b[0] % 128 * Pow2(shift) % Pow2(w));
        if b[0] >= 128 then VarintV(t.view, shift + 7, w, acc') else Step(Ok(acc'), t.view)
      case OutOfRange => Step(OutOfRange, t.view)
      case BadAccess => Step(BadAccess, t.view)
  }

  function StringVintV(v: View): (s: Step<seq<byte>>)
    requires v.Valid()
    ensures s.view.Valid()
  {
    var t := VarintV(v, 0, 64, 0);
    match t.outcome
    case Ok(n) => TakeV(t.view, n)
    case OutOfRange => Step(OutOfRange, t.view)
    case BadAccess => Step(BadAccess, t.view)
  }

  method TakeFixed(bt: ByteArray, n: nat) returns (r: Outcome<nat>)
    requires bt.Valid()
    modifies bt`position, bt`cur, bt`lag
    ensures bt.Valid() && Step(r, bt.Model()) == FixedV(old(bt.Model()), n, bt.little)
  {
    var s := bt.Read(n);
    match s
    case Ok(bytes) => r := Ok(Loaded(bytes, bt.little));
    case OutOfRange => r := OutOfRange;
    case BadAccess => r := BadAccess;
  }

  /** `readUint32` and `readUint64`. */
  method TakeVarint(bt: ByteArray, w: nat) returns (r: Outcome<nat>)
    requires bt.Valid()
    modifies bt`position, bt`cur, bt`lag
    ensures bt.Valid() && Step(r, bt.Model()) == VarintV(old(bt.Model()), 0, w, 0)
  {
    var ans: nat, i: nat := 0, 0;
    while i < w
      invariant bt.Valid()
      invariant VarintV(old(bt.Model()), 0, w, 0) == VarintV(bt.Model(), i, w, ans)
    {
      var b := bt.Read(1);
      match b {
        case Ok(byte1) =>
          ModBasics(byte1[0] % 128 * Pow2(i), Pow2(w));
          ans := BitOr(ans, byte1[0] % 128 * Pow2(i) % Pow2(w));
          if byte1[0] < 128 {
            return Ok(ans);
          }
        case OutOfRange => return OutOfRange;
        case BadAccess => return BadAccess;
      }
      i := i + 7;
    }
    r := Ok(ans);
  }

  method TakeStringVint(bt: ByteArray) returns (r: Outcome<seq<byte>>)
    requires bt.Valid()
    modifies bt`position, bt`cur, bt`lag
    ensures bt.Valid() && Step(r, bt.Model()) == StringVintV(old(bt.Model()))
  {
    var len := TakeVarint(bt, 64);
    match len
    case Ok(n) => r := bt.Read(n);
    case OutOfRange => r := OutOfRange;
    case BadAccess => r := BadAccess;
  }

  // ---- readers inside one chunk ------------------------------------------------------------

  /** The cursor is right and everything unread lies strictly inside the chunk it designates. */
  ghost predicate SameChunk(v: View)
  {
    v.Valid() && v.lag == 0 && v.size < |v.flat| && v.pos / v.base == v.size / v.base
  }

  /** Reading does not touch contents, size or chunk size. */
  ghost predicate Moved(v: View, w: View)
  {
    SameChunk(w) && w.flat == v.flat && w.size == v.size && w.base == v.base && w.count == v.count && w.pos >= v.pos
  }

  /** A buffer reader does what the flat decoder does to the unread bytes. */
  ghost predicate Agrees<T>(v: View, s: Step<T>, p: Parsed<T>)
  {
    && Moved(v, s.view)
    && match p
       case Parsed(x, rest) => s.outcome == Ok(x) && s.view.Unread() == rest
       case Short => s.outcome == OutOfRange
  }

  lemma TakeMoves(v: View, n: nat)
    requires SameChunk(v) && n <= v.size - v.pos
    ensures ReadResult(v, n) == Ok(v.flat[v.pos..v.pos + n])
    ensures AfterRead(v, n) == v.(pos := v.pos + n) && SameChunk(AfterRead(v, n))
  {
    QuotientBetween(v.pos, v.pos + n, v.size, v.base);
    assert !StopsAtBoundary(v.pos, n, v.base) by {
      AdvanceQuotient(v.pos, n, v.base);
    }
  }

  lemma TakeAgrees(v: View, n: nat)
    requires SameChunk(v)
    ensures Agrees(v, TakeV(v, n), ParseBytes(v.Unread(), n))
  {
    var u := v.Unread();
    if n <= |u| {
      TakeMoves(v, n);
      SliceOfSlice(v.flat, v.pos, v.size, n);
    }
  }

  lemma SliceOfSlice(s: seq<byte>, i: nat, j: nat, n: nat)
    requires i + n <= j <= |s|
    ensures s[i..j][..n] == s[i..i + n] && s[i..j][n..] == s[i + n..j]
  {
  }

  lemma QuotientBetween(a: nat, x: nat, b: nat, base: nat)
    requires base > 0 && a <= x <= b && a / base == b / base
    ensures x / base == a / base
  {
    AdvanceQuotient(a, x - a, base);
    AdvanceQuotient(x, b - x, base);
  }

  lemma FixedAgrees(v: View, n: nat, little: bool)
    requires SameChunk(v)
    ensures Agrees(v, FixedV(v, n, little), ParseFixed(v.Unread(), n, little))
  {
    TakeAgrees(v, n);
  }

  lemma {:induction false} VarintAgrees(v: View, shift: nat, w: nat, acc: nat)
    requires SameChunk(v)
    ensures Agrees(v, VarintV(v, shift, w, acc), ParseVarint(v.Unread(), shift, w, acc))
    decreases w - shift
  {
    if shift < w {
      TakeAgrees(v, 1);
      var u, t := v.Unread(), TakeV(v, 1);
      if u != [] {
        var acc' := BitOr(acc, u[0] % 128 * Pow2(shift) % Pow2(w));
        if u[0] >= 128 {
          VarintAgrees(t.view, shift + 7, w, acc');
        }
      }
    }
  }

  lemma StringVintAgrees(v: View)
    requires SameChunk(v)
    ensures Agrees(v, StringVintV(v), ParseStringVint(v.Unread()))
  {
    VarintAgrees(v, 0, 64, 0);
    var t := VarintV(v, 0, 64, 0);
    if t.outcome.Ok? {
      TakeAgrees(t.view, t.outcome.value);
    }
  }
}
