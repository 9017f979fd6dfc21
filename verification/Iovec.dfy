/** The scatter/gather lists that `getReadBuffers` and `getWriteBuffers` build.

    Both walk the chunk list from the cursor.  Neither subtracts a finished segment from the length
    still wanted, so the walk stops only at a chunk that could hold the whole length by itself. */
module Iovec {
  import opened Bytes
  import opened Chunks

  /** `len` bytes from offset `off` of chunk number `chunk`. */
  datatype Seg = Seg(chunk: nat, off: nat, len: nat)

  /** The walk as written: `len` is the same in every round. */
  function Segments(count: nat, b: nat, k: nat, off: nat, len: nat): (r: Outcome<seq<Seg>>)
    requires b > 0 && off < b
    decreases count - k
  {
    if k >= count then BadAccess
    else if b - off >= len then Ok([Seg(k, off, len)])
    else
      match Segments(count, b, k + 1, 0, len)
      case Ok(rest) => Ok([Seg(k, off, b - off)] + rest)
      case _ => BadAccess
  }

  /** A walk that found `done` before it got here. */
  function Behind(done: seq<Seg>, walk: Outcome<seq<Seg>>): Outcome<seq<Seg>>
  {
    match walk
    case Ok(rest) => Ok(done + rest)
    case _ => BadAccess
  }

  lemma SegmentsRound(done: seq<Seg>, count: nat, b: nat, k: nat, off: nat, len: nat)
    requires b > 0 && off < b && k < count && b - off < len
    ensures Behind(done, Segments(count, b, k, off, len))
            == Behind(done + [Seg(k, off, b - off)], Segments(count, b, k + 1, 0, len))
  {
    var seg, next := Seg(k, off, b - off), Segments(count, b, k + 1, 0, len);
    if next.Ok? {
      assert (done + [seg]) + next.value == done + ([seg] + next.value);
    }
  }

  /** The walk with each segment subtracted from the length still wanted. */
  function SegmentsSubtracting(count: nat, b: nat, k: nat, off: nat, len: nat): (r: Outcome<seq<Seg>>)
    requires b > 0 && off < b
    decreases count - k
  {
    if k >= count then BadAccess
    else if b - off >= len then Ok([Seg(k, off, len)])
    else
      match SegmentsSubtracting(count, b, k + 1, 0, len - (b - off))
      case Ok(rest) => Ok([Seg(k, off, b - off)] + rest)
      case _ => BadAccess
  }

  predicate InChunks(segs: seq<Seg>, count: nat, b: nat)
  {
    forall i :: 0 <= i < |segs| ==> segs[i].chunk < count && segs[i].off + segs[i].len <= b
  }

  /** The bytes a list of segments designates, in order. */
  function Gather(cs: seq<seq<byte>>, b: nat, segs: seq<Seg>): seq<byte>
    requires Uniform(cs, b) && InChunks(segs, |cs|, b)
  {
    if segs == [] then []
    else cs[segs[0].chunk][segs[0].off..segs[0].off + segs[0].len] + Gather(cs, b, segs[1..])
  }

  /** What a walk from `off` bytes into a chunk offers for a wanted length. */
  function Offered(b: nat, off: nat, len: nat): (r: Outcome<nat>)
    requires b > 0 && off < b
  {
    if len <= b - off then Ok(len)
    else if len <= b then Ok(b - off + len)
    else BadAccess
  }

  /** Segments that follow one another in the flat string from offset `at` on. */
  predicate Adjacent(segs: seq<Seg>, b: nat, at: nat)
  {
    segs != [] ==> segs[0].chunk * b + segs[0].off == at && Adjacent(segs[1..], b, at + segs[0].len)
  }

  function Total(segs: seq<Seg>): nat
  {
    if segs == [] then 0 else segs[0].len + Total(segs[1..])
  }

  lemma {:induction false} SegmentsAdjacent(count: nat, b: nat, k: nat, off: nat, len: nat, at: nat)
    requires b > 0 && off < b && at == k * b + off
    requires Segments(count, b, k, off, len).Ok?
    ensures InChunks(Segments(count, b, k, off, len).value, count, b)
    ensures Adjacent(Segments(count, b, k, off, len).value, b, at)
    decreases count - k
  {
    if b - off < len {
      MulSucc(k, b);
      SegmentsAdjacent(count, b, k + 1, 0, len, at + (b - off));
      var rest := Segments(count, b, k + 1, 0, len).value;
      assert ([Seg(k, off, b - off)] + rest)[1..] == rest;
    }
  }

  lemma {:induction false} GatherTotal(cs: seq<seq<byte>>, b: nat, segs: seq<Seg>)
    requires Uniform(cs, b) && InChunks(segs, |cs|, b)
    ensures |Gather(cs, b, segs)| == Total(segs)
  {
    if segs != [] {
      GatherTotal(cs, b, segs[1..]);
    }
  }

  /** The walk never terminates inside the list once the length exceeds a chunk. */
  lemma {:induction false} TooLongRunsOff(count: nat, b: nat, k: nat, off: nat, len: nat)
    requires b > 0 && off < b < len
    ensures Segments(count, b, k, off, len) == BadAccess
    decreases count - k
  {
    if k < count {
      TooLongRunsOff(count, b, k + 1, 0, len);
    }
  }

  /** The walk is one contiguous flat slice whose length is `Offered`, not the length asked for. */
  lemma SegmentsOffer(cs: seq<seq<byte>>, b: nat, k: nat, off: nat, len: nat)
    requires b > 0 && off < b && Uniform(cs, b) && k * b + off + len <= |cs| * b && 0 < len
    ensures k < |cs|
    ensures Segments(|cs|, b, k, off, len).Ok? <==> Offered(b, off, len).Ok?
    ensures Offered(b, off, len).Ok? ==>
              var segs, n, at := Segments(|cs|, b, k, off, len).value, Offered(b, off, len).value, k * b + off;
              && InChunks(segs, |cs|, b)
              && at + n <= |Concat(cs)|
              && Gather(cs, b, segs) == Concat(cs)[at..at + n]
  {
    ChunkBelow(|cs|, b, k, off, len);
    ConcatLength(cs, b);
    if len <= b - off {
      ConcatSlice(cs, b, k, off, len);
      GatherOne(cs, b, Seg(k, off, len));
    } else if len <= b {
      ChunkBelow(|cs|, b, k + 1, 0, off + len - b) by { MulSucc(k, b); }
      assert Segments(|cs|, b, k, off, len) == Ok([Seg(k, off, b - off)] + [Seg(k + 1, 0, len)]);
      GatherTwo(cs, b, k, off, len);
    } else {
      TooLongRunsOff(|cs|, b, k, off, len);
    }
  }

  lemma ChunkBelow(count: nat, b: nat, k: nat, off: nat, len: nat)
    requires k * b + off + len <= count * b && 0 < len && off < b
    ensures k < count
  {
    if k >= count {
      MulMonotone(count, k, b);
    }
  }

  lemma GatherOne(cs: seq<seq<byte>>, b: nat, s: Seg)
    requires Uniform(cs, b) && s.chunk < |cs| && s.off + s.len <= b
    ensures Gather(cs, b, [s]) == cs[s.chunk][s.off..s.off + s.len]
  {
    assert [s][1..] == [];
  }

  lemma GatherCons(cs: seq<seq<byte>>, b: nat, s: Seg, rest: seq<Seg>)
    requires Uniform(cs, b) && s.chunk < |cs| && s.off + s.len <= b && InChunks(rest, |cs|, b)
    ensures InChunks([s] + rest, |cs|, b)
    ensures Gather(cs, b, [s] + rest) == cs[s.chunk][s.off..s.off + s.len] + Gather(cs, b, rest)
  {
    assert ([s] + rest)[1..] == rest;
  }

  /** A full tail of chunk `k` and a head of chunk `k + 1` are adjacent in the flat string. */
  lemma GatherTwo(cs: seq<seq<byte>>, b: nat, k: nat, off: nat, len: nat)
    requires b > 0 && off < b && Uniform(cs, b) && k + 1 < |cs| && len <= b
    ensures var segs := [Seg(k, off, b - off)] + [Seg(k + 1, 0, len)];
            && InChunks(segs, |cs|, b)
            && 0 <= k * b && k * b + b + len <= |Concat(cs)|
            && Gather(cs, b, segs) == Concat(cs)[k * b + off..k * b + b + len]
  {
    var s, t := Seg(k, off, b - off), Seg(k + 1, 0, len);
    var segs := [s] + [t];
    assert segs[1..] == [t];
    GatherOne(cs, b, t);
    MulSucc(k, b);
    ConcatSlice(cs, b, k, off, b - off);
    ConcatSlice(cs, b, k + 1, 0, len);
    SliceJoin(Concat(cs), k * b + off, k * b + b, k * b + b + len);
  }

  /** The list gathers exactly the slice asked for if and only if that slice lies in one chunk. */
  lemma ExactIffOneChunk(cs: seq<seq<byte>>, b: nat, k: nat, off: nat, len: nat)
    requires b > 0 && off < b && Uniform(cs, b) && k * b + off + len <= |cs| * b && 0 < len
    ensures |Concat(cs)| == |cs| * b
    ensures (var r := Segments(|cs|, b, k, off, len);
             && r.Ok?
             && InChunks(r.value, |cs|, b)
             && Gather(cs, b, r.value) == Concat(cs)[k * b + off..k * b + off + len])
            <==> off + len <= b
  {
    ConcatLength(cs, b);
    SegmentsOffer(cs, b, k, off, len);
  }

  /** Subtracting each segment makes the list exact for every slice, whatever chunks it spans. */
  lemma {:induction false} SubtractingIsExact(cs: seq<seq<byte>>, b: nat, k: nat, off: nat, len: nat, at: nat)
    requires b > 0 && off < b && Uniform(cs, b) && 0 < len
    requires at == k * b + off && at + len <= |cs| * b
    ensures at + len <= |Concat(cs)|
    ensures var r := SegmentsSubtracting(|cs|, b, k, off, len);
            && r.Ok?
            && InChunks(r.value, |cs|, b)
            && Gather(cs, b, r.value) == Concat(cs)[at..at + len]
    decreases |cs| - k
  {
    ConcatLength(cs, b);
    ChunkBelow(|cs|, b, k, off, len);
    var n := b - off;
    if len <= n {
      ConcatSlice(cs, b, k, off, len);
      GatherOne(cs, b, Seg(k, off, len));
    } else {
      MulSucc(k, b);
      SubtractingIsExact(cs, b, k + 1, 0, len - n, at + n);
      var rest := SegmentsSubtracting(|cs|, b, k + 1, 0, len - n).value;
      GatherNext(cs, b, k, off, at, at + len, rest);
    }
  }

  /** The tail of chunk `k` in front of a list that gathers what follows it. */
  lemma GatherNext(cs: seq<seq<byte>>, b: nat, k: nat, off: nat, at: nat, end: nat, rest: seq<Seg>)
    requires off < b && Uniform(cs, b) && k < |cs| && at == k * b + off && InChunks(rest, |cs|, b)
    requires at + (b - off) <= end <= |Concat(cs)| && Gather(cs, b, rest) == Concat(cs)[at + (b - off)..end]
    ensures var segs := [Seg(k, off, b - off)] + rest;
            InChunks(segs, |cs|, b) && Gather(cs, b, segs) == Concat(cs)[at..end]
  {
    var n := b - off;
    GatherCons(cs, b, Seg(k, off, n), rest);
    ConcatSlice(cs, b, k, off, n);
    SliceJoin(Concat(cs), at, at + n, end);
  }
}
