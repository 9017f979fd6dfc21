/** What holds over whole runs of buffer operations, and how the two reads relate. */
module BufferRuns {
  import opened Bytes
  import opened BufferModel

  datatype Op =
    | Write(data: seq<byte>, garbage: seq<byte>)
    | Read(n: nat)
    | SetPosition(p: nat)
    | Clear

  /** `garbage` must be as long as the chunks the write appends. */
  ghost predicate Enabled(v: View, op: Op)
  {
    v.Valid() && (op.Write? ==> |op.garbage| == Growth(v, |op.data|) * v.base)
  }

  ghost function Step(v: View, op: Op): (w: View)
    requires Enabled(v, op)
    ensures w.Valid()
  {
    match op
    case Write(data, garbage) => AfterWrite(v, data, garbage)
    case Read(n) => AfterRead(v, n)
    case SetPosition(p) => AfterSetPosition(v, p)
    case Clear => AfterClear(v)
  }

  ghost predicate IsRun(vs: seq<View>, ops: seq<Op>)
  {
    && |vs| == |ops| + 1
    && forall i :: 0 <= i < |ops| ==> Enabled(vs[i], ops[i]) && vs[i + 1] == Step(vs[i], ops[i])
  }

  /** A successful read that stops at the end of the chunk it started inside of. */
  ghost predicate Slips(v: View, op: Op)
    requires Enabled(v, op)
  {
    op.Read? && ReadResult(v, op.n).Ok? && StopsAtBoundary(v.pos, op.n, v.base)
  }

  /** An operation that looks the cursor up afresh. */
  ghost predicate Resyncs(v: View, op: Op)
    requires Enabled(v, op)
  {
    match op
    case Write(data, _) => data != [] && v.pos == |v.flat|
    case Read(_) => false
    case SetPosition(p) => p <= |v.flat|
    case Clear => true
  }

  /** How one operation moves the lag. */
  lemma LagStep(v: View, op: Op)
    requires Enabled(v, op)
    ensures Step(v, op).lag == if Resyncs(v, op) then 0 else if Slips(v, op) then v.lag + 1 else v.lag
  {
    if op.Write? && op.data != [] && v.pos == |v.flat| {
      CeilPositive(|op.data|, v.base);
    }
    if op.Write? && op.data != [] && v.pos < |v.flat| && Growth(v, |op.data|) == 0 {
      assert 0 * v.base == 0;
    }
  }

  ghost predicate EverySlipResynced(vs: seq<View>, ops: seq<Op>)
    requires IsRun(vs, ops)
  {
    forall i :: 0 <= i < |ops| && Slips(vs[i], ops[i]) ==>
      exists j :: i < j < |ops| && Resyncs(vs[j], ops[j])
  }

  /** In every run from an aligned buffer, the cached cursor is the chunk that holds the position
      if and only if each slipping read was followed by an operation that looks the cursor up. */
  lemma {:induction false} AlignedIffResynced(vs: seq<View>, ops: seq<Op>)
    requires IsRun(vs, ops) && vs[0].lag == 0
    ensures vs[|ops|].lag == 0 <==> EverySlipResynced(vs, ops)
    decreases |ops|
  {
    var n := |ops| - 1;
    if n >= 0 {
      var vs', ops' := vs[..n + 1], ops[..n];
      AlignedIffResynced(vs', ops');
      LagStep(vs[n], ops[n]);
      if Resyncs(vs[n], ops[n]) {
        forall i | 0 <= i < |ops| && Slips(vs[i], ops[i])
          ensures exists j :: i < j < |ops| && Resyncs(vs[j], ops[j])
        {
          assert i < n;
        }
      } else if Slips(vs[n], ops[n]) {
        assert !EverySlipResynced(vs, ops);
      } else {
        SameSlips(vs, ops, n);
      }
    }
  }

  /** A last operation that neither slips nor resyncs does not change the verdict. */
  lemma SameSlips(vs: seq<View>, ops: seq<Op>, n: nat)
    requires IsRun(vs, ops) && n == |ops| - 1
    requires !Slips(vs[n], ops[n]) && !Resyncs(vs[n], ops[n])
    ensures EverySlipResynced(vs, ops) <==> EverySlipResynced(vs[..n + 1], ops[..n])
  {
    var vs', ops' := vs[..n + 1], ops[..n];
    if EverySlipResynced(vs, ops) {
      forall i | 0 <= i < |ops'| && Slips(vs'[i], ops'[i])
        ensures exists j :: i < j < |ops'| && Resyncs(vs'[j], ops'[j])
      {
        var j :| i < j < |ops| && Resyncs(vs[j], ops[j]);
        assert j != n && vs'[j] == vs[j] && ops'[j] == ops[j];
      }
    }
    if EverySlipResynced(vs', ops') {
      forall i | 0 <= i < |ops| && Slips(vs[i], ops[i])
        ensures exists j :: i < j < |ops| && Resyncs(vs[j], ops[j])
      {
        assert vs'[i] == vs[i] && ops'[i] == ops[i];
        var j :| i < j < |ops'| && Resyncs(vs'[j], ops'[j]);
        assert vs[j] == vs'[j] && ops[j] == ops'[j];
      }
    }
  }

  /** Runs of construct, write, setPosition and clear never misplace the cursor. */
  lemma ReadFreeRunsStayAligned(vs: seq<View>, ops: seq<Op>)
    requires IsRun(vs, ops) && vs[0].lag == 0
    requires forall i :: 0 <= i < |ops| ==> !ops[i].Read?
    ensures vs[|ops|].lag == 0
  {
    AlignedIffResynced(vs, ops);
  }

  /** The cached-cursor read and the walk-from-the-root read agree in every aligned state, on every
      length, the failures included. */
  lemma CursorReadIsPositional(v: View, n: nat)
    requires v.Valid() && v.lag == 0
    ensures ReadResult(v, n) == ReadAtResult(v, n, v.pos)
  {
  }

  /** With a lagging cursor the read returns what the positional read finds `lag` chunks earlier. */
  lemma LaggingReadIsShifted(v: View, n: nat)
    requires v.Valid() && v.lag > 0 && n <= v.size - v.pos
    ensures v.pos - v.lag * v.base >= 0 && n <= v.size - (v.pos - v.lag * v.base)
    ensures ReadResult(v, n) == ReadAtResult(v, n, v.pos - v.lag * v.base)
  {
    v.LagFits();
    MulMonotone(1, v.lag, v.base);
  }

  /** The read after a slip returns the start of the chunk just left, not the chunk that follows. */
  lemma ReadAfterSlip(v: View, n: nat, m: nat)
    requires v.Valid() && v.lag == 0 && StopsAtBoundary(v.pos, n, v.base) && n + m <= v.size - v.pos
    ensures var w := AfterRead(v, n);
            && w.pos >= v.base
            && ReadResult(w, m) == Ok(v.flat[w.pos - v.base..w.pos - v.base + m])
  {
    AdvanceQuotient(v.pos, n, v.base);
    DivBasics(v.pos, v.base);
    MulNonneg(v.pos / v.base, v.base);
  }

  /** Reading four bytes a b c d, held in two-byte chunks, one at a time yields a, b and then a again:
      with a /= c the cursor reads do not return the buffer's contents. */
  lemma SlippedReadRepeatsAChunk(v: View)
    requires v.Valid() && v.lag == 0 && v.base == 2 && v.pos == 0 && v.size == 4
    ensures ReadResult(v, 1) == Ok(v.flat[0..1])
    ensures ReadResult(AfterRead(v, 1), 1) == Ok(v.flat[1..2])
    ensures ReadResult(AfterRead(AfterRead(v, 1), 1), 1) == Ok(v.flat[0..1])
    ensures ReadAtResult(v, 1, 2) == Ok(v.flat[2..3])
  {
    var w := AfterRead(v, 1);
    assert w == v.(pos := 1);
    ReadAfterSlip(w, 1, 1);
  }

  /** An aligned write is a splice: the written range holds the data, every other byte that was there
      is unchanged, and the size is the larger of the old size and the end of the write. */
  lemma WriteIsSplice(v: View, data: seq<byte>, garbage: seq<byte>, i: nat)
    requires v.Valid() && v.lag == 0 && |garbage| == Growth(v, |data|) * v.base
    requires i < |AfterWrite(v, data, garbage).flat|
    ensures var w := AfterWrite(v, data, garbage);
            && w.lag == 0
            && w.pos == v.pos + |data|
            && w.size == Max(v.size, w.pos)
            && |w.flat| == |v.flat| + |garbage|
            && (v.pos <= i < v.pos + |data| ==> w.flat[i] == data[i - v.pos])
            && (i < |v.flat| && !(v.pos <= i < v.pos + |data|) ==> w.flat[i] == v.flat[i])
  {
    if data == [] {
      assert 0 * v.base == 0;
    } else {
      GrowthSuffices(v, |data|);
    }
  }

  /** Bytes written are the bytes read back after returning to where they were written. */
  lemma WriteThenRead(v: View, data: seq<byte>, garbage: seq<byte>)
    requires v.Valid() && v.lag == 0 && data != [] && |garbage| == Growth(v, |data|) * v.base
    ensures var w := AfterSetPosition(AfterWrite(v, data, garbage), v.pos);
            && ReadResult(w, |data|) == Ok(data)
            && ReadAtResult(w, |data|, v.pos) == Ok(data)
  {
    GrowthSuffices(v, |data|);
    var w := AfterSetPosition(AfterWrite(v, data, garbage), v.pos);
    assert w.flat[v.pos..v.pos + |data|] == data;
  }
}
