/** The buffer's observable state and what each `ByteArray` operation does to it.

    `pos`, `size` and `base` are the C++ fields.  `lag` is how many chunks the cached cursor node
    trails the chunk that holds `pos`: 0 is what every operation assumes, and `read` can break it. */
module BufferModel {
  import opened Bytes
  import opened Iovec

  datatype View = View(flat: seq<byte>, count: nat, base: nat, pos: nat, size: nat, lag: nat) {

    ghost predicate Valid()
    {
      && base > 0
      && count > 0
      && |flat| == count * base
      && pos <= size <= |flat|
      && (lag == 0 || lag <= pos / base)
    }

    /** The flat offset the cursor really designates. */
    function Target(): (t: nat)
      requires Valid()
      ensures t <= pos
      ensures lag == 0 ==> t == pos
    {
      LagFits();
      pos - lag * base
    }

    lemma LagFits()
      requires Valid()
      ensures 0 <= lag * base <= pos
    {
      DivBasics(pos, base);
      MulMonotone(lag, pos / base, base);
    }

    /** The cursor node is the null pointer behind the last chunk. */
    predicate AtEnd()
    {
      lag == 0 && pos == |flat|
    }

    function Unread(): seq<byte>
      requires Valid()
    {
      flat[pos..size]
    }

    function Written(): seq<byte>
      requires Valid()
    {
      flat[..pos]
    }
  }

  function Fresh(base: nat, garbage: seq<byte>): (v: View)
    requires base > 0 && |garbage| == base
    ensures v.Valid() && v.Unread() == [] && v.lag == 0
  {
    View(garbage, 1, base, 0, 0, 0)
  }

  // ---- cursor read -------------------------------------------------------------------------

  /** A read from strictly inside a chunk to exactly that chunk's end. */
  predicate StopsAtBoundary(pos: nat, n: nat, base: nat)
    requires base > 0
  {
    pos % base != 0 && n == base - pos % base
  }

  function ReadResult(v: View, n: nat): (r: Outcome<seq<byte>>)
    requires v.Valid()
    ensures r.Ok? ==> |r.value| == n
  {
    if n > v.size - v.pos then OutOfRange
    else if v.AtEnd() then BadAccess
    else Ok(v.flat[v.Target()..v.Target() + n])
  }

  function AfterRead(v: View, n: nat): (w: View)
    requires v.Valid()
    ensures w.Valid()
  {
    if ReadResult(v, n).Ok? then
      AdvanceQuotient(v.pos, n, v.base);
      v.(pos := v.pos + n, lag := v.lag + if StopsAtBoundary(v.pos, n, v.base) then 1 else 0)
    else v
  }

  lemma AdvanceQuotient(pos: nat, n: nat, base: nat)
    requires base > 0
    ensures (pos + n) / base >= pos / base
    ensures StopsAtBoundary(pos, n, base) ==> (pos + n) / base == pos / base + 1 && (pos + n) % base == 0
  {
    var q, r := pos / base, pos % base;
    DivBasics(pos, base);
    if StopsAtBoundary(pos, n, base) {
      MulSucc(q, base);
      DivUnique(pos + n, base, q + 1, 0);
    }
    var q', r' := (pos + n) / base, (pos + n) % base;
    DivBasics(pos + n, base);
    if q' < q {
      MulMonotone(q' + 1, q, base);
      MulSucc(q', base);
    }
  }

  // ---- positional read ---------------------------------------------------------------------

  const SIZE_T: nat := 0x1_0000_0000_0000_0000

  /** `m_size - position` in unsigned arithmetic: huge for a position beyond the size. */
  function Remaining(size: nat, at: nat): nat
  {
    if at <= size then size - at else (size - at) % SIZE_T
  }

  /** A position beyond the size passes the check and reads whatever the chunks hold there. */
  function ReadAtResult(v: View, n: nat, at: nat): (r: Outcome<seq<byte>>)
    requires v.Valid()
    ensures r.Ok? ==> |r.value| == n
    ensures at <= v.size ==> (r == OutOfRange <==> n > v.size - at) && (r == BadAccess ==> at == |v.flat| && n == 0)
  {
    if n > Remaining(v.size, at) then OutOfRange
    else if at >= |v.flat| || at + n > |v.flat| then BadAccess
    else Ok(v.flat[at..at + n])
  }

  /** So a position beyond the size is no error while the chunks hold bytes there: the read returns them. */
  lemma ReadBeyondSize(v: View, n: nat, at: nat)
    requires v.Valid() && |v.flat| <= SIZE_T && v.size < at < |v.flat| && at + n <= |v.flat|
    ensures ReadAtResult(v, n, at) == Ok(v.flat[at..at + n])
  {
    assert (v.size - at) % SIZE_T == SIZE_T - (at - v.size);
  }

  // ---- write -------------------------------------------------------------------------------

  function CeilDiv(a: nat, b: nat): nat
    requires b > 0
  {
    (a + b - 1) / b
  }

  lemma CeilPositive(a: nat, b: nat)
    requires a > 0 && b > 0
    ensures CeilDiv(a, b) > 0
  {
    BlockOf(0, 1, b);
    DivBasics(a + b - 1, b);
  }

  /** Chunks appended before `n` bytes are written at `pos`. */
  function GrowthAt(capacity: nat, base: nat, pos: nat, n: nat): nat
    requires base > 0
  {
    if capacity - pos >= n then 0 else CeilDiv(n - (capacity - pos), base)
  }

  /** Chunks appended before `n` bytes are written at the current position. */
  function Growth(v: View, n: nat): nat
    requires v.Valid()
  {
    GrowthAt(|v.flat|, v.base, v.pos, n)
  }

  /** The growth makes room. */
  lemma GrowthSuffices(v: View, n: nat)
    requires v.Valid()
    ensures v.pos + n <= (v.count + Growth(v, n)) * v.base
  {
    var g := Growth(v, n);
    assert (v.count + g) * v.base == v.count * v.base + g * v.base;
    if g == 0 {
      assert g * v.base == 0;
    }
    if n > |v.flat| - v.pos {
      DivBasics(n - (|v.flat| - v.pos) + v.base - 1, v.base);
    }
  }

  /** No smaller growth would. */
  lemma GrowthIsLeast(v: View, n: nat, g: nat)
    requires v.Valid()
    requires v.pos + n <= (v.count + g) * v.base
    ensures Growth(v, n) <= g
  {
    assert (v.count + g) * v.base == v.count * v.base + g * v.base;
    if g < Growth(v, n) {
      DivBasics(n - (|v.flat| - v.pos) + v.base - 1, v.base);
      MulMonotone(g + 1, Growth(v, n), v.base);
      MulSucc(g, v.base);
    }
  }

  /** The view once `g` chunks holding `garbage` are appended. */
  function Grown(v: View, g: nat, garbage: seq<byte>): (w: View)
    requires v.Valid() && |garbage| == g * v.base
    ensures w.Valid()
  {
    assert (v.count + g) * v.base == v.count * v.base + g * v.base;
    v.(flat := v.flat + garbage, count := v.count + g,
       lag := if g > 0 && v.pos == |v.flat| then 0 else v.lag)
  }

  /** `garbage` is whatever the appended chunks held before they were written. */
  function AfterWrite(v: View, data: seq<byte>, garbage: seq<byte>): (w: View)
    requires v.Valid() && |garbage| == Growth(v, |data|) * v.base
    ensures w.Valid()
  {
    if data == [] then v
    else
      GrowthSuffices(v, |data|);
      var g := Grown(v, Growth(v, |data|), garbage);
      AdvanceQuotient(g.pos, |data|, g.base);
      g.(flat := Splice(g.flat, g.Target(), data), pos := v.pos + |data|, size := Max(v.size, v.pos + |data|))
  }

  // ---- setPosition and clear ---------------------------------------------------------------

  function SetPositionResult(v: View, p: nat): (r: Outcome<()>)
    ensures r.Ok? <==> p <= |v.flat|
  {
    if p > |v.flat| then OutOfRange else Ok(())
  }

  function AfterSetPosition(v: View, p: nat): (w: View)
    requires v.Valid()
    ensures w.Valid()
  {
    if p > |v.flat| then v else
    DivBasics(p, v.base);
    v.(pos := p, size := Max(v.size, p), lag := 0)
  }

  function AfterClear(v: View): (w: View)
    requires v.Valid()
    ensures w.Valid() && w.Unread() == []
  {
    MulMonotone(1, v.count, v.base);
    View(v.flat[..v.base], 1, v.base, 0, 0, 0)
  }

  // ---- scatter/gather lists ----------------------------------------------------------------

  lemma OfferFits(count: nat, base: nat, at: nat, len: nat)
    requires base > 0 && 0 < len && at + len <= count * base
    requires Offered(base, at % base, len).Ok?
    ensures at + Offered(base, at % base, len).value <= count * base
  {
    var k, off := at / base, at % base;
    DivBasics(at, base);
    if base - off < len {
      MulSucc(k, base);
      ChunkBelow(count, base, k + 1, 0, len - (base - off));
      MulMonotone(k + 2, count, base);
      MulSucc(k + 1, base);
    }
  }

  /** The lag shifts the cursor by whole chunks, so the offset inside a chunk is the position's. */
  lemma TargetOffset(v: View)
    requires v.Valid()
    ensures v.Target() % v.base == v.pos % v.base
    ensures v.Target() / v.base == v.pos / v.base - v.lag
  {
    var q := v.pos / v.base;
    DivBasics(v.pos, v.base);
    assert (q - v.lag) * v.base == q * v.base - v.lag * v.base;
    DivUnique(v.Target(), v.base, q - v.lag, v.pos % v.base);
  }

  /** The bytes designated by the list `getReadBuffers` builds for `len`. */
  function ReadOffer(v: View, len: nat): (r: Outcome<seq<byte>>)
    requires v.Valid()
  {
    var want := Min(len, v.size - v.pos);
    if want == 0 then Ok([])
    else
      TargetOffset(v);
      match Offered(v.base, v.pos % v.base, want)
      case Ok(n) =>
        OfferFits(v.count, v.base, v.Target(), want);
        Ok(v.flat[v.Target()..v.Target() + n])
      case _ => BadAccess
  }
}
