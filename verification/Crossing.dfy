/** Values read back across chunk boundaries.

    A cursor read that starts strictly inside a chunk and ends at its end leaves the cursor a chunk behind.  As long as
    none of the reads a decoder makes does that, decoding is right over any number of chunks. */
module Crossing {
  import opened Bytes
  import opened Bits
  import opened BufferModel
  import opened BufferCodec
  import opened Codec
  import opened SerialModel
  import opened Serializers

  // ---- the reads a decoder makes -----------------------------------------------------------

  function Singles(k: nat): seq<nat>
  {
    if k == 0 then [] else [1] + Singles(k - 1)
  }

  /** The lengths of the reads that decode `v`, in order: varints byte by byte, anything else at once. */
  function Reads(v: Val, t: Ty): seq<nat>
    requires HasType(v, t)
    decreases t, 0
  {
    if IsFixed(t) then [FixedWidth(t)]
    else if IsVarint(t) then Singles(|Varint(VarintImage(v, t))|)
    else if t.TString? then Singles(|Varint(|v.s|)|) + [|v.s|]
    else if t.TTuple? then ItemReads(v.vs, t.items)
    else Singles(|Varint(|v.vs|)|) + AllReads(v.vs, t.elem)
  }

  function AllReads(vs: seq<Val>, e: Ty): seq<nat>
    requires AllTyped(vs, e)
    decreases e, 1 + |vs|
  {
    if vs == [] then [] else Reads(vs[0], e) + AllReads(vs[1..], e)
  }

  function ItemReads(vs: seq<Val>, ts: seq<Ty>): seq<nat>
    requires ItemsTyped(vs, ts)
    decreases ts, 0
  {
    if ts == [] then [] else Reads(vs[0], ts[0]) + ItemReads(vs[1..], ts[1..])
  }

  // ---- buffers that serve them -------------------------------------------------------------

  function Skip(u: View, n: nat): (w: View)
    requires u.Valid() && u.lag == 0 && n <= u.size - u.pos
    ensures w.Valid()
  {
    u.(pos := u.pos + n)
  }

  /** A read that neither slips nor starts behind the last chunk. */
  predicate Clean(pos: nat, n: nat, base: nat, capacity: nat)
    requires base > 0
  {
    pos < capacity && !StopsAtBoundary(pos, n, base)
  }

  /** From its position on the buffer serves all these reads, and none of them slips. */
  ghost predicate Steady(u: View, sizes: seq<nat>)
    decreases |sizes|
  {
    && u.Valid() && u.lag == 0
    && (sizes == [] ||
        (&& sizes[0] <= u.size - u.pos
         && Clean(u.pos, sizes[0], u.base, |u.flat|)
         && Steady(Skip(u, sizes[0]), sizes[1..])))
  }

  /** The buffer with `n` bytes left to read. */
  function Left(u: View, n: nat): (w: View)
    requires u.Valid() && u.lag == 0 && n <= u.size - u.pos
    ensures w.Valid() && w.lag == 0
  {
    u.(pos := u.size - n)
  }

  lemma TakeClean(u: View, n: nat, more: seq<nat>)
    requires Steady(u, [n] + more)
    ensures n <= |u.Unread()| && Steady(Left(u, |u.Unread()| - n), more)
    ensures TakeV(u, n) == Step(Ok(u.Unread()[..n]), Left(u, |u.Unread()| - n))
    ensures Left(u, |u.Unread()| - n).Unread() == u.Unread()[n..]
  {
    assert ([n] + more)[1..] == more;
    assert u.flat[u.pos..u.size][..n] == u.flat[u.pos..u.pos + n];
    assert u.flat[u.pos..u.size][n..] == u.flat[u.pos + n..u.size];
  }

  lemma {:induction false} SteadyVarint(u: View, shift: nat, w: nat, acc: nat, n: nat, rest: seq<byte>, more: seq<nat>)
    requires u.Valid() && ParseVarint(u.Unread(), shift, w, acc) == Parsed(n, rest) && |rest| <= |u.Unread()|
    requires Steady(u, Singles(|u.Unread()| - |rest|) + more)
    ensures VarintV(u, shift, w, acc) == Step(Ok(n), Left(u, |rest|))
    decreases |u.Unread()|
  {
    if shift < w {
      var k := |u.Unread()| - |rest|;
      VarintRestIsShorter(u.Unread(), shift, w, acc);
      FirstSingle(u, shift, w, acc, k, more);
      var next := VarintByte(u, shift, w, acc);
      if u.Unread()[0] >= 128 {
        VarintRestIsShorter(u.Unread()[1..], shift + 7, w, next);
        SteadyVarint(Left(u, |u.Unread()| - 1), shift + 7, w, next, n, rest, more);
      }
    }
  }

  /** The first of the single-byte reads. */
  lemma FirstSingle(u: View, shift: nat, w: nat, acc: nat, k: nat, more: seq<nat>)
    requires u.Valid() && shift < w && ParseVarint(u.Unread(), shift, w, acc).Parsed?
    requires k == |u.Unread()| - |ParseVarint(u.Unread(), shift, w, acc).rest| && Steady(u, Singles(k) + more)
    ensures k > 0 && u.lag == 0 && Steady(Left(u, |u.Unread()| - 1), Singles(k - 1) + more)
    ensures TakeV(u, 1) == Step(Ok(u.Unread()[..1]), Left(u, |u.Unread()| - 1))
    ensures Left(u, |u.Unread()| - 1).Unread() == u.Unread()[1..]
  {
    var s := u.Unread();
    VarintRestIsShorter(s[1..], shift + 7, w, BitOr(acc, s[0] % 128 * Pow2(shift) % Pow2(w)));
    assert Singles(k) + more == [1] + (Singles(k - 1) + more);
    TakeClean(u, 1, Singles(k - 1) + more);
  }

  /** A byte of a varint and then the rest of it, on the buffer and on its bytes. */
  lemma VarintByte(u: View, shift: nat, w: nat, acc: nat) returns (next: nat)
    requires u.Valid() && u.lag == 0 && shift < w && u.Unread() != []
    requires TakeV(u, 1) == Step(Ok(u.Unread()[..1]), Left(u, |u.Unread()| - 1))
    ensures var s, v := u.Unread(), Left(u, |u.Unread()| - 1);
            && VarintV(u, shift, w, acc) == (if s[0] >= 128 then VarintV(v, shift + 7, w, next) else Step(Ok(next), v))
            && ParseVarint(s, shift, w, acc) == (if s[0] >= 128 then ParseVarint(s[1..], shift + 7, w, next) else Parsed(next, s[1..]))
  {
    var b := u.Unread()[0];
    assert u.Unread()[..1][0] == b;
    next := BitOr(acc, b % 128 * Pow2(shift) % Pow2(w));
  }

  // ---- composing reads ---------------------------------------------------------------------

  lemma {:induction false} SumConcat(x: seq<nat>, y: seq<nat>)
    ensures Sum(x + y) == Sum(x) + Sum(y)
  {
    if x == [] {
      assert x + y == y;
    } else {
      assert (x + y)[1..] == x[1..] + y;
      SumConcat(x[1..], y);
    }
  }

  lemma {:induction false} SumSingles(k: nat)
    ensures Sum(Singles(k)) == k
  {
    if k > 0 {
      SumSingles(k - 1);
      assert Singles(k)[1..] == Singles(k - 1);
    }
  }

  /** The buffer holds `code` and `tail` and serves the reads of both. */
  ghost predicate Before(u: View, code: seq<byte>, tail: seq<byte>, sizes: seq<nat>, more: seq<nat>)
  {
    u.Valid() && u.lag == 0 && u.Unread() == code + tail && Steady(u, sizes + more)
  }

  lemma {:induction false} SteadyRest(u: View, x: seq<nat>, y: seq<nat>)
    requires Steady(u, x + y)
    ensures Sum(x) <= u.size - u.pos && Steady(Skip(u, Sum(x)), y)
    decreases |x|
  {
    if x == [] {
      assert x + y == y;
    } else {
      assert (x + y)[1..] == x[1..] + y;
      SteadyRest(Skip(u, x[0]), x[1..], y);
    }
  }

  lemma BeforeFirst(u: View, a: seq<byte>, b: seq<byte>, tail: seq<byte>, x: seq<nat>, y: seq<nat>, more: seq<nat>)
    requires Before(u, a + b, tail, x + y, more)
    ensures Before(u, a, b + tail, x, y + more)
  {
    assert (a + b) + tail == a + (b + tail);
    assert (x + y) + more == x + (y + more);
  }

  lemma BeforeNext(u: View, a: seq<byte>, b: seq<byte>, tail: seq<byte>, x: seq<nat>, y: seq<nat>, more: seq<nat>)
    requires Before(u, a, b + tail, x, y + more) && Sum(x) == |a|
    ensures Before(Left(u, |b + tail|), b, tail, y, more)
  {
    SteadyRest(u, x, y + more);
    assert u.Unread()[|a|..] == b + tail;
    assert u.flat[u.pos..u.size][|a|..] == u.flat[u.pos + |a|..u.size];
  }

  /** The reads of a value are as long as its encoding. */
  lemma {:induction false} ReadsSum(v: Val, t: Ty, little: bool)
    requires HasType(v, t)
    ensures Sum(Reads(v, t)) == |Encode(v, t, little)|
    decreases t, 1
  {
    if IsFixed(t) {
      assert Sum([FixedWidth(t)]) == FixedWidth(t);
    } else if IsVarint(t) {
      SumSingles(|Varint(VarintImage(v, t))|);
    } else if t.TString? {
      SumSingles(|Varint(|v.s|)|);
      SumConcat(Singles(|Varint(|v.s|)|), [|v.s|]);
      assert Sum([|v.s|]) == |v.s|;
    } else if t.TTuple? {
      ItemsSum(v.vs, t.items, little);
    } else {
      SumSingles(|Varint(|v.vs|)|);
      SumConcat(Singles(|Varint(|v.vs|)|), AllReads(v.vs, t.elem));
      AllSum(v.vs, t.elem, little);
    }
  }

  lemma {:induction false} AllSum(vs: seq<Val>, e: Ty, little: bool)
    requires AllTyped(vs, e)
    ensures Sum(AllReads(vs, e)) == |EncodeAll(vs, e, little)|
    decreases e, 2 + |vs|
  {
    if vs != [] {
      ReadsSum(vs[0], e, little);
      AllSum(vs[1..], e, little);
      SumConcat(Reads(vs[0], e), AllReads(vs[1..], e));
    }
  }

  lemma {:induction false} ItemsSum(vs: seq<Val>, ts: seq<Ty>, little: bool)
    requires ItemsTyped(vs, ts)
    ensures Sum(ItemReads(vs, ts)) == |EncodeItems(vs, ts, little)|
    decreases ts, 1
  {
    if ts != [] {
      ReadsSum(vs[0], ts[0], little);
      ItemsSum(vs[1..], ts[1..], little);
      SumConcat(Reads(vs[0], ts[0]), ItemReads(vs[1..], ts[1..]));
    }
  }

  // ---- scalars -----------------------------------------------------------------------------

  /** A varint written is a varint read, byte by byte. */
  lemma SteadyNumber(u: View, n: nat, w: nat, tail: seq<byte>, more: seq<nat>)
    requires w > 0 && n < Pow2(w) && Before(u, Varint(n), tail, Singles(|Varint(n)|), more)
    ensures VarintV(u, 0, w, 0) == Step(Ok(n), Left(u, |tail|))
  {
    VarintRoundTrip(n, w, tail);
    SteadyVarint(u, 0, w, 0, n, tail, more);
  }

  lemma SteadyFixed(v: Val, t: Ty, little: bool, u: View, tail: seq<byte>, more: seq<nat>)
    requires IsFixed(t) && HasType(v, t) && Before(u, Encode(v, t, little), tail, [FixedWidth(t)], more)
    ensures DecodeV(t, u, little) == Step(Ok(v), Left(u, |tail|))
  {
    var w := FixedWidth(t);
    TakeClean(u, w, more);
    FixedImageScalar(v, t);
    Pow256IsPow2(w);
    LoadStored(FixedImage(v, t), w, little);
    assert u.Unread()[..w] == Encode(v, t, little);
  }

  lemma SteadyString(b: seq<byte>, u: View, tail: seq<byte>, more: seq<nat>)
    requires |b| < Pow2(64) && Before(u, Varint(|b|) + b, tail, Singles(|Varint(|b|)|) + [|b|], more)
    ensures StringVintV(u) == Step(Ok(b), Left(u, |tail|))
  {
    var p := Varint(|b|);
    BeforeFirst(u, p, b, tail, Singles(|p|), [|b|], more);
    SteadyNumber(u, |b|, 64, b + tail, [|b|] + more);
    SumSingles(|p|);
    BeforeNext(u, p, b, tail, Singles(|p|), [|b|], more);
    TakeClean(Left(u, |b + tail|), |b|, more);
    assert (b + tail)[..|b|] == b;
  }

  // ---- every type --------------------------------------------------------------------------

  /** A buffer that serves the reads of a value without a slip decodes the value and leaves exactly what follows,
      whatever chunks it spans. */
  lemma {:induction false} SteadyValue(v: Val, t: Ty, little: bool, u: View, tail: seq<byte>, more: seq<nat>)
    requires HasType(v, t) && Before(u, Encode(v, t, little), tail, Reads(v, t), more)
    ensures DecodeV(t, u, little) == Step(Ok(v), Left(u, |tail|))
    decreases t, 1
  {
    if t.TTuple? {
      TupleParts(v, t, little, u);
      SteadyItems(v.vs, t.items, little, u, tail, [], more);
    } else if t.TVector? || t.TList? || t.TSet? {
      ContainerParts(v, t, little, u);
      SteadyCounted(v.vs, t.elem, little, u, tail, t.TSet?, more);
    } else {
      SteadyScalar(v, t, little, u, tail, more);
    }
  }

  lemma TupleParts(v: Val, t: Ty, little: bool, u: View)
    requires HasType(v, t) && t.TTuple? && u.Valid()
    ensures v.VSeq? && ItemsTyped(v.vs, t.items) && [] + v.vs == v.vs
    ensures Encode(v, t, little) == EncodeItems(v.vs, t.items, little) && Reads(v, t) == ItemReads(v.vs, t.items)
    ensures DecodeV(t, u, little) == AsSeqV(DecodeItemsV(t.items, u, little, []))
  {
  }

  lemma ContainerParts(v: Val, t: Ty, little: bool, u: View)
    requires HasType(v, t) && (t.TVector? || t.TList? || t.TSet?) && u.Valid()
    ensures v.VSeq? && AllTyped(v.vs, t.elem) && |v.vs| < Pow2(64) && (t.TSet? ==> Increasing(v.vs))
    ensures Encode(v, t, little) == Varint(|v.vs|) + EncodeAll(v.vs, t.elem, little)
    ensures Reads(v, t) == Singles(|Varint(|v.vs|)|) + AllReads(v.vs, t.elem)
    ensures DecodeV(t, u, little) == AsSeqV(DecodeCountedV(t.elem, u, little, t.TSet?))
  {
    ContainerTyped(v, t);
    ContainerReads(v, t);
    ContainerReader(t, u, little);
  }

  lemma ContainerTyped(v: Val, t: Ty)
    requires HasType(v, t) && (t.TVector? || t.TList? || t.TSet?)
    ensures v.VSeq? && AllTyped(v.vs, t.elem) && |v.vs| < Pow2(64) && (t.TSet? ==> Increasing(v.vs))
  {
    assert BitWidth(t) == 64;
  }

  lemma ContainerReads(v: Val, t: Ty)
    requires HasType(v, t) && (t.TVector? || t.TList? || t.TSet?)
    ensures v.VSeq? && AllTyped(v.vs, t.elem)
    ensures Reads(v, t) == Singles(|Varint(|v.vs|)|) + AllReads(v.vs, t.elem)
  {
  }

  lemma SteadyScalar(v: Val, t: Ty, little: bool, u: View, tail: seq<byte>, more: seq<nat>)
    requires HasType(v, t) && (IsFixed(t) || IsVarint(t) || t.TString?)
    requires Before(u, Encode(v, t, little), tail, Reads(v, t), more)
    ensures DecodeV(t, u, little) == Step(Ok(v), Left(u, |tail|))
  {
    if IsFixed(t) {
      SteadyFixed(v, t, little, u, tail, more);
    } else if IsVarint(t) {
      VarintImageScalar(v, t);
      SteadyNumber(u, VarintImage(v, t), VarintWidth(t), tail, more);
    } else {
      SteadyString(v.s, u, tail, more);
    }
  }

  lemma {:induction false} SteadyCounted(vs: seq<Val>, e: Ty, little: bool, u: View, tail: seq<byte>, isSet: bool,
                                         more: seq<nat>)
    requires |vs| < Pow2(64) && AllTyped(vs, e) && (isSet ==> Increasing(vs))
    requires Before(u, Varint(|vs|) + EncodeAll(vs, e, little), tail, Singles(|Varint(|vs|)|) + AllReads(vs, e), more)
    ensures DecodeCountedV(e, u, little, isSet) == Step(Ok(vs), Left(u, |tail|))
    decreases e, 4 + |vs|
  {
    var count, body, sizes := Varint(|vs|), EncodeAll(vs, e, little), AllReads(vs, e);
    BeforeFirst(u, count, body, tail, Singles(|count|), sizes, more);
    SteadyNumber(u, |vs|, 64, body + tail, sizes + more);
    SumSingles(|count|);
    BeforeNext(u, count, body, tail, Singles(|count|), sizes, more);
    assert [] + vs == vs;
    SteadyAll(vs, e, little, Left(u, |body + tail|), tail, [], isSet, more);
    CountedStep(e, u, little, isSet, vs, |body + tail|, |tail|);
  }

  lemma CountedStep(e: Ty, u: View, little: bool, isSet: bool, vs: seq<Val>, mid: nat, end: nat)
    requires u.Valid() && u.lag == 0 && end <= mid <= u.size - u.pos
    requires VarintV(u, 0, 64, 0) == Step(Ok(|vs|), Left(u, mid))
    requires DecodeAllV(e, |vs|, Left(u, mid), little, [], isSet) == Step(Ok(vs), Left(Left(u, mid), end))
    ensures DecodeCountedV(e, u, little, isSet) == Step(Ok(vs), Left(u, end))
  {
  }

  lemma AllFirst(vs: seq<Val>, e: Ty)
    requires vs != [] && AllTyped(vs, e)
    ensures AllReads(vs, e) == Reads(vs[0], e) + AllReads(vs[1..], e)
  {
  }

  lemma {:induction false} SteadyAll(vs: seq<Val>, e: Ty, little: bool, u: View, tail: seq<byte>, acc: seq<Val>,
                                     isSet: bool, more: seq<nat>)
    requires AllTyped(vs, e) && (isSet ==> Increasing(acc + vs))
    requires Before(u, EncodeAll(vs, e, little), tail, AllReads(vs, e), more)
    ensures DecodeAllV(e, |vs|, u, little, acc, isSet) == Step(Ok(acc + vs), Left(u, |tail|))
    decreases e, 3 + |vs|
  {
    if vs == [] {
      assert acc + vs == acc;
      assert EncodeAll(vs, e, little) + tail == tail;
    } else {
      var code := EncodeAll(vs[1..], e, little);
      SteadyHead(vs, e, little, u, tail, more);
      ExtendTarget(acc, vs, isSet);
      SteadyAll(vs[1..], e, little, Left(u, |code + tail|), tail, acc + [vs[0]], isSet, more);
      AllStep(e, |vs|, u, little, acc, isSet, vs[0], |code + tail|, acc + vs, |tail|);
    }
  }

  /** The first of the elements, and where it leaves the buffer. */
  lemma {:induction false} SteadyHead(vs: seq<Val>, e: Ty, little: bool, u: View, tail: seq<byte>, more: seq<nat>)
    requires vs != [] && AllTyped(vs, e) && Before(u, EncodeAll(vs, e, little), tail, AllReads(vs, e), more)
    ensures var code := EncodeAll(vs[1..], e, little);
            && |code + tail| <= u.size - u.pos
            && DecodeV(e, u, little) == Step(Ok(vs[0]), Left(u, |code + tail|))
            && Before(Left(u, |code + tail|), code, tail, AllReads(vs[1..], e), more)
    decreases e, 2
  {
    var head, code, sizes := Encode(vs[0], e, little), EncodeAll(vs[1..], e, little), AllReads(vs[1..], e);
    EncodeAllFirst(vs, e, little);
    AllFirst(vs, e);
    BeforeFirst(u, head, code, tail, Reads(vs[0], e), sizes, more);
    SteadyValue(vs[0], e, little, u, code + tail, sizes + more);
    ReadsSum(vs[0], e, little);
    BeforeNext(u, head, code, tail, Reads(vs[0], e), sizes, more);
  }

  /** An element, and then the rest of them. */
  lemma AllStep(e: Ty, n: nat, u: View, little: bool, acc: seq<Val>, isSet: bool, v: Val, mid: nat, all: seq<Val>, end: nat)
    requires n > 0 && u.Valid() && u.lag == 0 && end <= mid <= u.size - u.pos
    requires DecodeV(e, u, little) == Step(Ok(v), Left(u, mid))
    requires DecodeAllV(e, n - 1, Left(u, mid), little, Added(acc, v, isSet), isSet) == Step(Ok(all), Left(Left(u, mid), end))
    ensures DecodeAllV(e, n, u, little, acc, isSet) == Step(Ok(all), Left(u, end))
  {
    AllUnfold(e, n, u, little, acc, isSet);
  }

  lemma ItemsFirst(vs: seq<Val>, ts: seq<Ty>, little: bool)
    requires ts != [] && ItemsTyped(vs, ts)
    ensures EncodeItems(vs, ts, little) == Encode(vs[0], ts[0], little) + EncodeItems(vs[1..], ts[1..], little)
    ensures ItemReads(vs, ts) == Reads(vs[0], ts[0]) + ItemReads(vs[1..], ts[1..])
  {
  }

  lemma {:induction false} SteadyItems(vs: seq<Val>, ts: seq<Ty>, little: bool, u: View, tail: seq<byte>, acc: seq<Val>,
                                       more: seq<nat>)
    requires ItemsTyped(vs, ts)
    requires Before(u, EncodeItems(vs, ts, little), tail, ItemReads(vs, ts), more)
    ensures DecodeItemsV(ts, u, little, acc) == Step(Ok(acc + vs), Left(u, |tail|))
    decreases ts, 1
  {
    if ts == [] {
      assert acc + vs == acc;
      assert EncodeItems(vs, ts, little) + tail == tail;
    } else {
      var head, code := Encode(vs[0], ts[0], little), EncodeItems(vs[1..], ts[1..], little);
      var sizes := ItemReads(vs[1..], ts[1..]);
      ItemsFirst(vs, ts, little);
      BeforeFirst(u, head, code, tail, Reads(vs[0], ts[0]), sizes, more);
      SteadyValue(vs[0], ts[0], little, u, code + tail, sizes + more);
      ReadsSum(vs[0], ts[0], little);
      BeforeNext(u, head, code, tail, Reads(vs[0], ts[0]), sizes, more);
      assert (acc + [vs[0]]) + vs[1..] == acc + vs;
      SteadyItems(vs[1..], ts[1..], little, Left(u, |code + tail|), tail, acc + [vs[0]], more);
      ItemsStep(ts, u, little, acc, vs[0], |code + tail|, acc + vs, |tail|);
    }
  }

  lemma ItemsStep(ts: seq<Ty>, u: View, little: bool, acc: seq<Val>, v: Val, mid: nat, all: seq<Val>, end: nat)
    requires ts != [] && u.Valid() && u.lag == 0 && end <= mid <= u.size - u.pos
    requires DecodeV(ts[0], u, little) == Step(Ok(v), Left(u, mid))
    requires DecodeItemsV(ts[1..], Left(u, mid), little, acc + [v]) == Step(Ok(all), Left(Left(u, mid), end))
    ensures DecodeItemsV(ts, u, little, acc) == Step(Ok(all), Left(u, end))
  {
  }

  // ---- and only then -----------------------------------------------------------------------

  /** A reader succeeded and left the cursor where it belongs. */
  predicate Aligned<T>(s: Step<T>)
  {
    s.outcome.Ok? && s.view.lag == 0
  }

  /** No reader ever brings a lagging cursor back. */
  lemma {:induction false} VarintLag(u: View, shift: nat, w: nat, acc: nat)
    requires u.Valid()
    ensures VarintV(u, shift, w, acc).view.lag >= u.lag
    decreases u.size - u.pos
  {
    var t := TakeV(u, 1);
    if shift < w && t.outcome.Ok? {
      var b := t.outcome.value;
      VarintLag(t.view, shift + 7, w, BitOr(acc, b[0] % 128 * Pow2(shift) % Pow2(w)));
    }
  }

  lemma {:induction false} DecodeLag(t: Ty, u: View, little: bool)
    requires u.Valid()
    ensures DecodeV(t, u, little).view.lag >= u.lag
    decreases t, 1
  {
    if IsFixed(t) || IsVarint(t) || t.TString? {
      ScalarLag(t, u, little);
    } else if t.TTuple? {
      ItemsLag(t.items, u, little, []);
      var s := DecodeItemsV(t.items, u, little, []);
      assert DecodeV(t, u, little) == AsSeqV(s);
    } else {
      CountedLag(t.elem, u, little, t.TSet?);
      ContainerReader(t, u, little);
    }
  }

  lemma ScalarLag(t: Ty, u: View, little: bool)
    requires u.Valid() && (IsFixed(t) || IsVarint(t) || t.TString?)
    ensures DecodeV(t, u, little).view.lag >= u.lag
  {
    if IsFixed(t) {
      FixedLag(t, u, little);
    } else if IsVarint(t) {
      VarintLag(u, 0, VarintWidth(t), 0);
      var s := VarintV(u, 0, VarintWidth(t), 0);
      assert DecodeV(t, u, little) == AsScalarV(t, s);
    } else {
      StringLag(u);
      var s := StringVintV(u);
      assert DecodeV(t, u, little) == AsStringV(s);
    }
  }

  lemma StringLag(u: View)
    requires u.Valid()
    ensures StringVintV(u).view.lag >= u.lag
  {
    VarintLag(u, 0, 64, 0);
  }

  lemma FixedLag(t: Ty, u: View, little: bool)
    requires u.Valid() && IsFixed(t)
    ensures DecodeV(t, u, little).view.lag >= u.lag
  {
    var s := FixedV(u, FixedWidth(t), little);
    assert s.view == AfterRead(u, FixedWidth(t));
  }

  lemma {:induction false} CountedLag(e: Ty, u: View, little: bool, isSet: bool)
    requires u.Valid()
    ensures DecodeCountedV(e, u, little, isSet).view.lag >= u.lag
    decreases e, 3, 0
  {
    VarintLag(u, 0, 64, 0);
    var c := VarintV(u, 0, 64, 0);
    if c.outcome.Ok? {
      AllLag(e, c.outcome.value, c.view, little, [], isSet);
    }
  }

  lemma {:induction false} AllLag(e: Ty, n: nat, u: View, little: bool, acc: seq<Val>, isSet: bool)
    requires u.Valid()
    ensures DecodeAllV(e, n, u, little, acc, isSet).view.lag >= u.lag
    decreases e, 2, n
  {
    if n > 0 {
      DecodeLag(e, u, little);
      var x := DecodeV(e, u, little);
      if x.outcome.Ok? {
        AllLag(e, n - 1, x.view, little, Added(acc, x.outcome.value, isSet), isSet);
      }
      AllUnfold(e, n, u, little, acc, isSet);
    }
  }

  lemma {:induction false} ItemsLag(ts: seq<Ty>, u: View, little: bool, acc: seq<Val>)
    requires u.Valid()
    ensures DecodeItemsV(ts, u, little, acc).view.lag >= u.lag
    decreases ts, 0
  {
    if ts != [] {
      DecodeLag(ts[0], u, little);
      var x := DecodeV(ts[0], u, little);
      if x.outcome.Ok? {
        ItemsLag(ts[1..], x.view, little, acc + [x.outcome.value]);
      }
    }
  }

  /** The buffer holds `code` and `tail`. */
  ghost predicate Holding(u: View, code: seq<byte>, tail: seq<byte>)
  {
    u.Valid() && u.lag == 0 && u.Unread() == code + tail
  }

  lemma HoldingRest(u: View, a: seq<byte>, b: seq<byte>, tail: seq<byte>)
    requires Holding(u, a + b, tail)
    ensures Holding(u, a, b + tail) && Holding(Left(u, |b + tail|), b, tail)
  {
    assert (a + b) + tail == a + (b + tail);
    assert u.Unread()[|a|..] == b + tail;
    assert u.flat[u.pos..u.size][|a|..] == u.flat[u.pos + |a|..u.size];
  }

  lemma {:induction false} SteadyJoin(u: View, x: seq<nat>, y: seq<nat>)
    requires Steady(u, x) && Sum(x) <= u.size - u.pos && Steady(Skip(u, Sum(x)), y)
    ensures Steady(u, x + y)
    decreases |x|
  {
    if x == [] {
      assert x + y == y;
    } else {
      assert (x + y)[1..] == x[1..] + y;
      SteadyJoin(Skip(u, x[0]), x[1..], y);
    }
  }

  /** Steady reads of one part and of the rest are steady reads of both. */
  lemma SteadyBoth(u: View, a: seq<byte>, b: seq<byte>, tail: seq<byte>, x: seq<nat>, y: seq<nat>)
    requires Holding(u, a + b, tail) && Steady(u, x) && Sum(x) == |a|
    requires |b + tail| <= u.size - u.pos && Steady(Left(u, |b + tail|), y)
    ensures Steady(u, x + y)
  {
    assert Left(u, |b + tail|) == Skip(u, |a|);
    SteadyJoin(u, x, y);
  }

  lemma OnlyTake(u: View, n: nat)
    requires u.Valid() && u.lag == 0 && Aligned(TakeV(u, n))
    ensures Steady(u, [n])
  {
    assert [n][1..] == [];
  }

  lemma {:induction false} OnlyVarint(u: View, shift: nat, w: nat, acc: nat, n: nat, rest: seq<byte>)
    requires u.Valid() && u.lag == 0 && ParseVarint(u.Unread(), shift, w, acc) == Parsed(n, rest) && |rest| <= |u.Unread()|
    requires Aligned(VarintV(u, shift, w, acc))
    ensures Steady(u, Singles(|u.Unread()| - |rest|))
    decreases |u.Unread()|
  {
    if shift < w {
      OnlyByte(u, shift, w, acc);
      var next := VarintByte(u, shift, w, acc);
      var k := |u.Unread()| - |rest|;
      if u.Unread()[0] >= 128 {
        VarintRestIsShorter(u.Unread()[1..], shift + 7, w, next);
        OnlyVarint(Left(u, |u.Unread()| - 1), shift + 7, w, next, n, rest);
      }
      SinglesJoin(u, k);
    }
  }

  lemma SinglesJoin(u: View, k: nat)
    requires k > 0 && u.Valid() && u.lag == 0 && u.pos < u.size && Steady(u, [1])
    requires Steady(Left(u, u.size - u.pos - 1), Singles(k - 1))
    ensures Steady(u, Singles(k))
  {
    assert Singles(k) == [1] + Singles(k - 1) && Sum([1]) == 1;
    SteadyJoin(u, [1], Singles(k - 1));
  }

  /** The first byte of a varint that is read without a slip. */
  lemma OnlyByte(u: View, shift: nat, w: nat, acc: nat)
    requires u.Valid() && u.lag == 0 && u.Unread() != [] && shift < w && Aligned(VarintV(u, shift, w, acc))
    ensures Steady(u, [1]) && Left(u, |u.Unread()| - 1).Unread() == u.Unread()[1..]
    ensures TakeV(u, 1) == Step(Ok(u.Unread()[..1]), Left(u, |u.Unread()| - 1))
  {
    var s, t := u.Unread(), TakeV(u, 1);
    assert t.outcome.Ok? && t.outcome.value == s[..1];
    VarintLag(t.view, shift + 7, w, BitOr(acc, s[0] % 128 * Pow2(shift) % Pow2(w)));
    OnlyTake(u, 1);
    assert [1] + [] == [1];
    TakeClean(u, 1, []);
  }

  lemma OnlyNumber(u: View, n: nat, w: nat, tail: seq<byte>)
    requires w > 0 && n < Pow2(w) && Holding(u, Varint(n), tail) && Aligned(VarintV(u, 0, w, 0))
    ensures Steady(u, Singles(|Varint(n)|)) && VarintV(u, 0, w, 0) == Step(Ok(n), Left(u, |tail|))
  {
    VarintRoundTrip(n, w, tail);
    OnlyVarint(u, 0, w, 0, n, tail);
    assert Singles(|Varint(n)|) + [] == Singles(|Varint(n)|);
    SteadyNumber(u, n, w, tail, []);
  }

  lemma OnlyFixed(v: Val, t: Ty, little: bool, u: View, tail: seq<byte>)
    requires IsFixed(t) && HasType(v, t) && Holding(u, Encode(v, t, little), tail) && Aligned(DecodeV(t, u, little))
    ensures Steady(u, [FixedWidth(t)])
  {
    var s := FixedV(u, FixedWidth(t), little);
    assert DecodeV(t, u, little) == AsScalarV(t, s);
    OnlyTake(u, FixedWidth(t));
  }

  lemma OnlyString(b: seq<byte>, u: View, tail: seq<byte>)
    requires |b| < Pow2(64) && Holding(u, Varint(|b|) + b, tail) && Aligned(StringVintV(u))
    ensures Steady(u, Singles(|Varint(|b|)|) + [|b|])
  {
    var p := Varint(|b|);
    HoldingRest(u, p, b, tail);
    OnlyNumber(u, |b|, 64, b + tail);
    OnlyTake(Left(u, |b + tail|), |b|);
    SumSingles(|p|);
    SteadyBoth(u, p, b, tail, Singles(|p|), [|b|]);
  }

  /** A value that decodes with the cursor left where it belongs was decoded without a slip, and is the value. */
  lemma {:induction false} OnlyValue(v: Val, t: Ty, little: bool, u: View, tail: seq<byte>)
    requires HasType(v, t) && Holding(u, Encode(v, t, little), tail) && Aligned(DecodeV(t, u, little))
    ensures Steady(u, Reads(v, t)) && DecodeV(t, u, little) == Step(Ok(v), Left(u, |tail|))
    decreases t, 2
  {
    OnlySteady(v, t, little, u, tail);
    assert Reads(v, t) + [] == Reads(v, t);
    SteadyValue(v, t, little, u, tail, []);
  }

  lemma {:induction false} OnlySteady(v: Val, t: Ty, little: bool, u: View, tail: seq<byte>)
    requires HasType(v, t) && Holding(u, Encode(v, t, little), tail) && Aligned(DecodeV(t, u, little))
    ensures Steady(u, Reads(v, t))
    decreases t, 1
  {
    if t.TTuple? {
      TupleParts(v, t, little, u);
      OnlyItems(v.vs, t.items, little, u, tail, []);
    } else if t.TVector? || t.TList? || t.TSet? {
      ContainerParts(v, t, little, u);
      OnlyCounted(v.vs, t.elem, little, u, tail, t.TSet?);
    } else {
      OnlyScalar(v, t, little, u, tail);
    }
  }

  lemma OnlyScalar(v: Val, t: Ty, little: bool, u: View, tail: seq<byte>)
    requires HasType(v, t) && (IsFixed(t) || IsVarint(t) || t.TString?)
    requires Holding(u, Encode(v, t, little), tail) && Aligned(DecodeV(t, u, little))
    ensures Steady(u, Reads(v, t))
  {
    if IsFixed(t) {
      OnlyFixed(v, t, little, u, tail);
    } else if IsVarint(t) {
      VarintImageScalar(v, t);
      OnlyNumber(u, VarintImage(v, t), VarintWidth(t), tail);
    } else {
      OnlyString(v.s, u, tail);
    }
  }

  lemma {:induction false} OnlyCounted(vs: seq<Val>, e: Ty, little: bool, u: View, tail: seq<byte>, isSet: bool)
    requires |vs| < Pow2(64) && AllTyped(vs, e)
    requires Holding(u, Varint(|vs|) + EncodeAll(vs, e, little), tail) && Aligned(DecodeCountedV(e, u, little, isSet))
    ensures Steady(u, Singles(|Varint(|vs|)|) + AllReads(vs, e))
    decreases e, 5 + |vs|
  {
    var count, body := Varint(|vs|), EncodeAll(vs, e, little);
    HoldingRest(u, count, body, tail);
    var c := VarintV(u, 0, 64, 0);
    CountedAligned(e, u, little, isSet);
    OnlyNumber(u, |vs|, 64, body + tail);
    OnlyAll(vs, e, little, Left(u, |body + tail|), tail, [], isSet);
    SumSingles(|count|);
    SteadyBoth(u, count, body, tail, Singles(|count|), AllReads(vs, e));
  }

  lemma CountedAligned(e: Ty, u: View, little: bool, isSet: bool)
    requires u.Valid() && u.lag == 0 && Aligned(DecodeCountedV(e, u, little, isSet))
    ensures var c := VarintV(u, 0, 64, 0);
            Aligned(c) && Aligned(DecodeAllV(e, c.outcome.value, c.view, little, [], isSet))
  {
    var c := VarintV(u, 0, 64, 0);
    assert c.outcome.Ok?;
    AllLag(e, c.outcome.value, c.view, little, [], isSet);
    assert DecodeCountedV(e, u, little, isSet) == DecodeAllV(e, c.outcome.value, c.view, little, [], isSet);
  }

  lemma {:induction false} OnlyAll(vs: seq<Val>, e: Ty, little: bool, u: View, tail: seq<byte>, acc: seq<Val>, isSet: bool)
    requires AllTyped(vs, e) && Holding(u, EncodeAll(vs, e, little), tail)
    requires Aligned(DecodeAllV(e, |vs|, u, little, acc, isSet))
    ensures Steady(u, AllReads(vs, e))
    decreases e, 4 + |vs|
  {
    if vs != [] {
      var n := OnlyHead(vs, e, little, u, tail, acc, isSet);
      OnlyAll(vs[1..], e, little, Left(u, n), tail, Added(acc, vs[0], isSet), isSet);
      OnlyBoth(vs, e, little, u, tail);
    }
  }

  /** The first of the elements, and how much it leaves. */
  lemma {:induction false} OnlyHead(vs: seq<Val>, e: Ty, little: bool, u: View, tail: seq<byte>, acc: seq<Val>, isSet: bool)
    returns (n: nat)
    requires vs != [] && AllTyped(vs, e) && Holding(u, EncodeAll(vs, e, little), tail)
    requires Aligned(DecodeAllV(e, |vs|, u, little, acc, isSet))
    ensures AllTyped(vs[1..], e) && n == |EncodeAll(vs[1..], e, little) + tail| <= u.size - u.pos && Steady(u, Reads(vs[0], e))
    ensures Holding(Left(u, n), EncodeAll(vs[1..], e, little), tail)
    ensures Aligned(DecodeAllV(e, |vs| - 1, Left(u, n), little, Added(acc, vs[0], isSet), isSet))
    decreases e, 3
  {
    TypedTail(vs, e);
    var head, code := Encode(vs[0], e, little), EncodeAll(vs[1..], e, little);
    n := |code + tail|;
    EncodeAllFirst(vs, e, little);
    HoldingRest(u, head, code, tail);
    AllAligned(e, |vs|, u, little, acc, isSet);
    OnlyValue(vs[0], e, little, u, code + tail);
  }

  lemma OnlyBoth(vs: seq<Val>, e: Ty, little: bool, u: View, tail: seq<byte>)
    requires vs != [] && AllTyped(vs, e) && AllTyped(vs[1..], e) && Holding(u, EncodeAll(vs, e, little), tail)
    requires Steady(u, Reads(vs[0], e)) && |EncodeAll(vs[1..], e, little) + tail| <= u.size - u.pos
    requires Steady(Left(u, |EncodeAll(vs[1..], e, little) + tail|), AllReads(vs[1..], e))
    ensures Steady(u, AllReads(vs, e))
  {
    EncodeAllFirst(vs, e, little);
    AllFirst(vs, e);
    ReadsSum(vs[0], e, little);
    SteadyBoth(u, Encode(vs[0], e, little), EncodeAll(vs[1..], e, little), tail, Reads(vs[0], e), AllReads(vs[1..], e));
  }

  lemma AllAligned(e: Ty, n: nat, u: View, little: bool, acc: seq<Val>, isSet: bool)
    requires n > 0 && u.Valid() && u.lag == 0 && Aligned(DecodeAllV(e, n, u, little, acc, isSet))
    ensures var x := DecodeV(e, u, little);
            Aligned(x) && Aligned(DecodeAllV(e, n - 1, x.view, little, Added(acc, x.outcome.value, isSet), isSet))
  {
    AllUnfold(e, n, u, little, acc, isSet);
    var x := DecodeV(e, u, little);
    assert x.outcome.Ok?;
    AllLag(e, n - 1, x.view, little, Added(acc, x.outcome.value, isSet), isSet);
  }

  lemma {:induction false} OnlyItems(vs: seq<Val>, ts: seq<Ty>, little: bool, u: View, tail: seq<byte>, acc: seq<Val>)
    requires ItemsTyped(vs, ts) && Holding(u, EncodeItems(vs, ts, little), tail)
    requires Aligned(DecodeItemsV(ts, u, little, acc))
    ensures Steady(u, ItemReads(vs, ts))
    decreases ts, 1
  {
    if ts != [] {
      var head, code := Encode(vs[0], ts[0], little), EncodeItems(vs[1..], ts[1..], little);
      ItemsFirst(vs, ts, little);
      HoldingRest(u, head, code, tail);
      ItemsAligned(ts, u, little, acc);
      OnlyValue(vs[0], ts[0], little, u, code + tail);
      OnlyItems(vs[1..], ts[1..], little, Left(u, |code + tail|), tail, acc + [vs[0]]);
      ReadsSum(vs[0], ts[0], little);
      SteadyBoth(u, head, code, tail, Reads(vs[0], ts[0]), ItemReads(vs[1..], ts[1..]));
    }
  }

  lemma ItemsAligned(ts: seq<Ty>, u: View, little: bool, acc: seq<Val>)
    requires ts != [] && u.Valid() && u.lag == 0 && Aligned(DecodeItemsV(ts, u, little, acc))
    ensures var x := DecodeV(ts[0], u, little);
            Aligned(x) && Aligned(DecodeItemsV(ts[1..], x.view, little, acc + [x.outcome.value]))
  {
    var x := DecodeV(ts[0], u, little);
    assert x.outcome.Ok?;
    ItemsLag(ts[1..], x.view, little, acc + [x.outcome.value]);
  }

  /** Put, reset, get: a value written to a buffer is read back whole, whatever lies behind it and however many chunks
      it spans, and the buffer left as it was written, if and only if none of the reads that decode it slips. */
  lemma BufferRoundTrip(a: View, w: View, v: Val, t: Ty, little: bool)
    requires HasType(v, t) && Appended(a, w, Encode(v, t, little))
    ensures DecodeV(t, AfterSetPosition(w, a.pos), little) == Step(Ok(v), w) <==> Steady(AfterSetPosition(w, a.pos), Reads(v, t))
  {
    var u := AfterSetPosition(w, a.pos);
    Rewound(a, w, Encode(v, t, little));
    DecodesIff(v, t, little, u, w.flat[w.pos..w.size]);
  }

  lemma Rewound(a: View, w: View, code: seq<byte>)
    requires Appended(a, w, code)
    ensures var u, tail := AfterSetPosition(w, a.pos), w.flat[w.pos..w.size];
            Holding(u, code, tail) && |tail| <= u.size - u.pos && Left(u, |tail|) == w
  {
    UnreadIsCode(a, w, code);
  }

  lemma DecodesIf(v: Val, t: Ty, little: bool, u: View, tail: seq<byte>)
    requires HasType(v, t) && Holding(u, Encode(v, t, little), tail) && Steady(u, Reads(v, t)) && |tail| <= u.size - u.pos
    ensures DecodeV(t, u, little) == Step(Ok(v), Left(u, |tail|))
  {
    var sizes := Reads(v, t);
    assert sizes + [] == sizes;
    SteadyValue(v, t, little, u, tail, []);
  }

  lemma DecodesIff(v: Val, t: Ty, little: bool, u: View, tail: seq<byte>)
    requires HasType(v, t) && Holding(u, Encode(v, t, little), tail) && |tail| <= u.size - u.pos
    ensures DecodeV(t, u, little) == Step(Ok(v), Left(u, |tail|)) <==> Steady(u, Reads(v, t))
  {
    var s := DecodeV(t, u, little);
    if Steady(u, Reads(v, t)) {
      DecodesIf(v, t, little, u, tail);
    } else if s.outcome.Ok? && s.view.lag == 0 {
      OnlySteady(v, t, little, u, tail);
    }
  }

  /** A value that comes back wrong: three bytes in chunks of two.  The second read ends its chunk, and the third
      returns the first byte again. */
  lemma SlippedTuple(a: byte, b: byte, c: byte, d: byte)
    ensures var u := View([a, b, c, d], 2, 2, 0, 3, 0);
            var t := TTuple([TU8, TU8, TU8]);
            && u.Valid() && HasType(VSeq([VInt(a), VInt(b), VInt(c)]), t)
            && u.Unread() == Encode(VSeq([VInt(a), VInt(b), VInt(c)]), t, false)
            && DecodeV(t, u, false).outcome == Ok(VSeq([VInt(a), VInt(b), VInt(a)]))
  {
    var u := View([a, b, c, d], 2, 2, 0, 3, 0);
    ByteRead(u);
    var u1 := u.(pos := 1);
    ByteRead(u1);
    var u2 := u.(pos := 2, lag := 1);
    ByteRead(u2);
    TupleRead(u, u1, u2, VInt(a), VInt(b), VInt(a));
    TupleCode(a, b, c);
  }

  /** A byte read at the cursor's real place. */
  lemma ByteRead(u: View)
    requires u.Valid() && u.base == 2 && u.pos < u.size && !u.AtEnd()
    ensures DecodeV(TU8, u, false)
            == Step(Ok(VInt(u.flat[u.Target()])), u.(pos := u.pos + 1, lag := u.lag + if u.pos % 2 == 1 then 1 else 0))
  {
    var x := u.flat[u.Target()];
    assert u.flat[u.Target()..u.Target() + 1] == [x];
    LoadedByte(x);
    var s := FixedV(u, 1, false);
    assert DecodeV(TU8, u, false) == AsScalarV(TU8, s);
  }

  lemma TupleRead(u: View, u1: View, u2: View, x: Val, y: Val, z: Val)
    requires u.Valid() && u1.Valid() && u2.Valid()
    requires DecodeV(TU8, u, false) == Step(Ok(x), u1) && DecodeV(TU8, u1, false) == Step(Ok(y), u2)
    requires DecodeV(TU8, u2, false).outcome == Ok(z)
    ensures DecodeV(TTuple([TU8, TU8, TU8]), u, false).outcome == Ok(VSeq([x, y, z]))
  {
    var ts := [TU8, TU8, TU8];
    assert ts[1..] == [TU8, TU8] && ts[1..][1..] == [TU8] && [TU8][1..] == [];
    var v := DecodeV(TU8, u2, false).view;
    assert DecodeItemsV([TU8], u2, false, [x, y]) == DecodeItemsV([], v, false, [x, y] + [z]);
    assert [x, y] + [z] == [x, y, z] && [x] + [y] == [x, y] && [] + [x] == [x];
    assert DecodeItemsV([TU8, TU8], u1, false, [x]) == DecodeItemsV([TU8], u2, false, [x, y]);
    assert DecodeItemsV(ts, u, false, []) == DecodeItemsV([TU8, TU8], u1, false, [x]);
  }

  lemma ByteCode(x: byte)
    ensures HasType(VInt(x), TU8) && Encode(VInt(x), TU8, false) == [x]
  {
    assert Pow2(8) == 256;
    LoadedByte(x);
  }

  lemma TupleCode(a: byte, b: byte, c: byte)
    ensures var v, t := VSeq([VInt(a), VInt(b), VInt(c)]), TTuple([TU8, TU8, TU8]);
            HasType(v, t) && Encode(v, t, false) == [a, b, c]
  {
    var vs, ts := [VInt(a), VInt(b), VInt(c)], [TU8, TU8, TU8];
    ByteCode(a);
    ByteCode(b);
    ByteCode(c);
    assert vs[1..] == [VInt(b), VInt(c)] && vs[1..][1..] == [VInt(c)] && [VInt(c)][1..] == [];
    assert ts[1..] == [TU8, TU8] && ts[1..][1..] == [TU8] && [TU8][1..] == [];
    ItemsFirst([VInt(c)], [TU8], false);
    ItemsFirst([VInt(b), VInt(c)], [TU8, TU8], false);
    ItemsFirst(vs, ts, false);
    assert [a] + ([b] + ([c] + [])) == [a, b, c];
  }
}
