/** The wire form of the types `Serializer` supports, and its decoder on a flat byte string. */
module SerialModel {
  import opened Bytes
  import opened Codec

  datatype Ty =
    | TBool | TU8 | TI8 | TU16 | TI16 | TU32 | TI32 | TU64 | TI64
    | TFloat | TDouble | TString
    | TVector(elem: Ty) | TList(elem: Ty) | TSet(elem: Ty)
    | TTuple(items: seq<Ty>)

  /** Floating-point values are their bit patterns; a set is its elements in iteration order. */
  datatype Val =
    | VBool(b: bool)
    | VInt(n: int)
    | VBits(bits: nat)
    | VString(s: seq<byte>)
    | VSeq(vs: seq<Val>)

  // ---- the order of std::set elements ------------------------------------------------------

  /** `operator<`: numbers by value, strings by unsigned bytes, containers lexicographically. */
  predicate Less(a: Val, b: Val)
    decreases a, 0
  {
    match a
    case VBool(x) => b.VBool? && !x && b.b
    case VInt(x) => b.VInt? && x < b.n
    case VBits(_) => false
    case VString(x) => b.VString? && BytesLess(x, b.s)
    case VSeq(x) => b.VSeq? && SeqLess(x, b.vs)
  }

  predicate BytesLess(x: seq<byte>, y: seq<byte>)
  {
    if y == [] then false
    else if x == [] then true
    else x[0] < y[0] || (x[0] == y[0] && BytesLess(x[1..], y[1..]))
  }

  predicate SeqLess(x: seq<Val>, y: seq<Val>)
    decreases x, 1
  {
    if y == [] then false
    else if x == [] then true
    else Less(x[0], y[0]) || (x[0] == y[0] && SeqLess(x[1..], y[1..]))
  }

  lemma {:induction false} BytesLessAsymmetric(x: seq<byte>, y: seq<byte>)
    requires BytesLess(x, y)
    ensures !BytesLess(y, x)
  {
    if x != [] && x[0] == y[0] {
      BytesLessAsymmetric(x[1..], y[1..]);
    }
  }

  lemma {:induction false} LessAsymmetric(a: Val, b: Val)
    requires Less(a, b)
    ensures !Less(b, a)
    decreases a, 0
  {
    match a
    case VString(x) => BytesLessAsymmetric(x, b.s);
    case VSeq(x) => SeqLessAsymmetric(x, b.vs);
    case _ =>
  }

  lemma {:induction false} SeqLessAsymmetric(x: seq<Val>, y: seq<Val>)
    requires SeqLess(x, y)
    ensures !SeqLess(y, x)
    decreases x, 1
  {
    if x != [] {
      if Less(x[0], y[0]) {
        LessAsymmetric(x[0], y[0]);
      } else {
        SeqLessAsymmetric(x[1..], y[1..]);
      }
    }
  }

  /** Insertion into a sorted set; an equivalent element is kept and the new one dropped. */
  function Insert(s: seq<Val>, v: Val): seq<Val>
  {
    if s == [] then [v]
    else if Less(v, s[0]) then [v] + s
    else if Less(s[0], v) then [s[0]] + Insert(s[1..], v)
    else s
  }

  predicate Increasing(s: seq<Val>)
  {
    forall i, j :: 0 <= i < j < |s| ==> Less(s[i], s[j])
  }

  lemma {:induction false} InsertLast(s: seq<Val>, v: Val)
    requires forall i :: 0 <= i < |s| ==> Less(s[i], v)
    ensures Insert(s, v) == s + [v]
  {
    if s != [] {
      LessAsymmetric(s[0], v);
      InsertLast(s[1..], v);
      assert s == [s[0]] + s[1..];
    }
  }

  // ---- typing ------------------------------------------------------------------------------

  /** Types whose values `operator<` orders totally. */
  predicate Ordered(t: Ty)
  {
    match t
    case TFloat | TDouble => false
    case TVector(e) => Ordered(e)
    case TList(e) => Ordered(e)
    case TSet(e) => Ordered(e)
    case TTuple(ts) => forall i :: 0 <= i < |ts| ==> Ordered(ts[i])
    case _ => true
  }

  /** Bits of a scalar type; lengths and counts are `size_t`. */
  function BitWidth(t: Ty): (w: nat)
    ensures w > 0
  {
    if t.TBool? || t.TU8? || t.TI8? then 8
    else if t.TU16? || t.TI16? then 16
    else if t.TU32? || t.TI32? || t.TFloat? then 32
    else 64
  }

  predicate HasType(v: Val, t: Ty)
    decreases t, 0
  {
    match t
    case TBool => v.VBool?
    case TU8 | TU16 | TU32 | TU64 => v.VInt? && 0 <= v.n < Pow2(BitWidth(t))
    case TI8 | TI16 | TI32 | TI64 => v.VInt? && FitsSigned(v.n, BitWidth(t))
    case TFloat | TDouble => v.VBits? && v.bits < Pow2(BitWidth(t))
    case TString => v.VString? && |v.s| < Pow2(BitWidth(t))
    case TVector(e) => v.VSeq? && |v.vs| < Pow2(BitWidth(t)) && AllTyped(v.vs, e)
    case TList(e) => v.VSeq? && |v.vs| < Pow2(BitWidth(t)) && AllTyped(v.vs, e)
    case TSet(e) =>
      && v.VSeq? && |v.vs| < Pow2(BitWidth(t)) && Ordered(e) && Increasing(v.vs)
      && AllTyped(v.vs, e)
    case TTuple(ts) => v.VSeq? && ItemsTyped(v.vs, ts)
  }

  predicate AllTyped(vs: seq<Val>, e: Ty)
    decreases e, 1
  {
    forall i :: 0 <= i < |vs| ==> HasType(vs[i], e)
  }

  predicate ItemsTyped(vs: seq<Val>, ts: seq<Ty>)
    decreases ts, 0
  {
    |vs| == |ts| && forall i :: 0 <= i < |ts| ==> HasType(vs[i], ts[i])
  }

  // ---- encoding ----------------------------------------------------------------------------

  /** Bytes of a fixed-width type, or 0 for the varint types. */
  function FixedWidth(t: Ty): nat
  {
    match t
    case TBool | TU8 | TI8 => 1
    case TU16 | TI16 => 2
    case TFloat => 4
    case TDouble => 8
    case _ => 0
  }

  predicate IsFixed(t: Ty)
  {
    FixedWidth(t) > 0
  }

  predicate IsVarint(t: Ty)
  {
    t.TU32? || t.TI32? || t.TU64? || t.TI64?
  }

  function VarintWidth(t: Ty): nat
  {
    if t.TU32? || t.TI32? then 32 else 64
  }

  /** The number a fixed-width value is stored as. */
  function FixedImage(v: Val, t: Ty): (n: nat)
    requires IsFixed(t) && HasType(v, t)
  {
    if t.TBool? then (if v.b then 1 else 0)
    else if t.TI8? || t.TI16? then Wrap(v.n, BitWidth(t))
    else if t.TFloat? || t.TDouble? then v.bits
    else v.n
  }

  /** The number a varint value is stored as. */
  function VarintImage(v: Val, t: Ty): (n: nat)
    requires IsVarint(t) && HasType(v, t)
  {
    if t.TI32? || t.TI64? then EncodeZigzag(v.n, VarintWidth(t)) else v.n
  }

  function Encode(v: Val, t: Ty, little: bool): seq<byte>
    requires HasType(v, t)
    decreases t, 0
  {
    if IsFixed(t) then Stored(FixedImage(v, t), FixedWidth(t), little)
    else if IsVarint(t) then Varint(VarintImage(v, t))
    else if t.TString? then StringVint(v.s)
    else if t.TTuple? then EncodeItems(v.vs, t.items, little)
    else Varint(|v.vs|) + EncodeAll(v.vs, t.elem, little)
  }

  function EncodeAll(vs: seq<Val>, e: Ty, little: bool): seq<byte>
    requires AllTyped(vs, e)
    decreases e, 1 + |vs|
  {
    if vs == [] then [] else Encode(vs[0], e, little) + EncodeAll(vs[1..], e, little)
  }

  function EncodeItems(vs: seq<Val>, ts: seq<Ty>, little: bool): seq<byte>
    requires ItemsTyped(vs, ts)
    decreases ts, 0
  {
    if ts == [] then [] else Encode(vs[0], ts[0], little) + EncodeItems(vs[1..], ts[1..], little)
  }

  lemma EncodeAllFirst(vs: seq<Val>, e: Ty, little: bool)
    requires vs != [] && AllTyped(vs, e)
    ensures EncodeAll(vs, e, little) == Encode(vs[0], e, little) + EncodeAll(vs[1..], e, little)
  {
  }

  lemma {:induction false} EncodeAllSnoc(xs: seq<Val>, v: Val, e: Ty, little: bool)
    requires AllTyped(xs, e) && HasType(v, e) && AllTyped(xs + [v], e)
    ensures EncodeAll(xs + [v], e, little) == EncodeAll(xs, e, little) + Encode(v, e, little)
    decreases |xs|
  {
    var ys := xs + [v];
    EncodeAllFirst(ys, e, little);
    if xs == [] {
      assert ys[1..] == [];
    } else {
      var zs := xs[1..];
      TypedTail(xs, e);
      TypedTail(ys, e);
      assert ys[1..] == zs + [v];
      EncodeAllFirst(xs, e, little);
      EncodeAllSnoc(zs, v, e, little);
      Associative(Encode(xs[0], e, little), EncodeAll(zs, e, little), Encode(v, e, little));
    }
  }

  /** The elements up to `i` and the next one. */
  lemma EncodePrefix(vs: seq<Val>, i: nat, e: Ty, little: bool)
    requires i < |vs| && AllTyped(vs, e)
    ensures AllTyped(vs[..i], e) && AllTyped(vs[..i + 1], e) && HasType(vs[i], e)
    ensures EncodeAll(vs[..i + 1], e, little) == EncodeAll(vs[..i], e, little) + Encode(vs[i], e, little)
  {
    TypedPrefix(vs, i, e);
    TypedPrefix(vs, i + 1, e);
    var xs := vs[..i];
    assert vs[..i + 1] == xs + [vs[i]];
    EncodeAllSnoc(xs, vs[i], e, little);
  }

  lemma TypedTail(vs: seq<Val>, e: Ty)
    requires vs != [] && AllTyped(vs, e)
    ensures AllTyped(vs[1..], e) && HasType(vs[0], e)
  {
  }

  lemma TypedPrefix(vs: seq<Val>, n: nat, e: Ty)
    requires n <= |vs| && AllTyped(vs, e)
    ensures AllTyped(vs[..n], e) && (n < |vs| ==> HasType(vs[n], e))
  {
  }

  /** What a tuple and a container are encoded from. */
  lemma EncodeParts(v: Val, t: Ty, little: bool)
    requires HasType(v, t)
    ensures t.TTuple? ==> v.VSeq? && ItemsTyped(v.vs, t.items) && Encode(v, t, little) == EncodeItems(v.vs, t.items, little)
    ensures t.TVector? || t.TList? || t.TSet? ==>
              && v.VSeq? && AllTyped(v.vs, t.elem) && |v.vs| < Pow2(64)
              && Encode(v, t, little) == Varint(|v.vs|) + EncodeAll(v.vs, t.elem, little)
  {
    assert t.TVector? || t.TList? || t.TSet? ==> BitWidth(t) == 64;
  }

  // ---- decoding ----------------------------------------------------------------------------

  /** A number read from the wire as a value of the scalar type `t`. */
  function Scalar(t: Ty, n: nat): Val
  {
    match t
    case TBool => VBool(n != 0)
    case TI8 => VInt(Signed(n, 8))
    case TI16 => VInt(Signed(n, 16))
    case TI32 => VInt(DecodeZigzag(n, 32))
    case TI64 => VInt(DecodeZigzag(n, 64))
    case TFloat | TDouble => VBits(n)
    case _ => VInt(n)
  }

  function AsScalar(t: Ty, p: Parsed<nat>): Parsed<Val>
  {
    match p
    case Parsed(n, rest) => Parsed(Scalar(t, n), rest)
    case Short => Short
  }

  function AsString(p: Parsed<seq<byte>>): Parsed<Val>
  {
    match p
    case Parsed(s, rest) => Parsed(VString(s), rest)
    case Short => Short
  }

  function AsSeq(p: Parsed<seq<Val>>): Parsed<Val>
  {
    match p
    case Parsed(vs, rest) => Parsed(VSeq(vs), rest)
    case Short => Short
  }

  function Decode(t: Ty, s: seq<byte>, little: bool): Parsed<Val>
    decreases t, 0
  {
    if IsFixed(t) then AsScalar(t, ParseFixed(s, FixedWidth(t), little))
    else if IsVarint(t) then AsScalar(t, ParseVarint(s, 0, VarintWidth(t), 0))
    else if t.TString? then AsString(ParseStringVint(s))
    else if t.TTuple? then AsSeq(DecodeItems(t.items, s, little))
    else AsSeq(DecodeCounted(t.elem, s, little, t.TSet?))
  }

  /** A size, then that many elements. */
  function DecodeCounted(e: Ty, s: seq<byte>, little: bool, isSet: bool): Parsed<seq<Val>>
    decreases e, 2, 0
  {
    match ParseVarint(s, 0, 64, 0)
    case Parsed(n, rest) => DecodeAll(e, n, rest, little, [], isSet)
    case Short => Short
  }

  lemma TupleDecode(t: Ty, s: seq<byte>, little: bool)
    requires t.TTuple?
    ensures Decode(t, s, little) == AsSeq(DecodeItems(t.items, s, little))
  {
    var p := AsSeq(DecodeItems(t.items, s, little));
    assert !IsFixed(t) && !IsVarint(t);
    assert Decode(t, s, little) == p;
  }

  lemma ContainerDecode(t: Ty, s: seq<byte>, little: bool)
    requires t.TVector? || t.TList? || t.TSet?
    ensures Decode(t, s, little) == AsSeq(DecodeCounted(t.elem, s, little, t.TSet?))
  {
    var p := AsSeq(DecodeCounted(t.elem, s, little, t.TSet?));
    assert !IsFixed(t) && !IsVarint(t);
    assert Decode(t, s, little) == p;
  }

  /** A decoded element goes to its place in a set and to the end of any other container. */
  function Added(acc: seq<Val>, v: Val, isSet: bool): seq<Val>
  {
    if isSet then Insert(acc, v) else acc + [v]
  }

  /** `n` more elements go behind, or into, a target that already holds `acc`. */
  function DecodeAll(e: Ty, n: nat, s: seq<byte>, little: bool, acc: seq<Val>, isSet: bool): Parsed<seq<Val>>
    decreases e, 1, n
  {
    if n == 0 then Parsed(acc, s)
    else
      match Decode(e, s, little)
      case Parsed(v, rest) => DecodeAll(e, n - 1, rest, little, Added(acc, v, isSet), isSet)
      case Short => Short
  }

  function DecodeItems(ts: seq<Ty>, s: seq<byte>, little: bool): Parsed<seq<Val>>
    decreases ts, 0
  {
    if ts == [] then Parsed([], s)
    else
      match Decode(ts[0], s, little)
      case Parsed(v, rest) =>
        (match DecodeItems(ts[1..], rest, little)
         case Parsed(vs, rest') => Parsed([v] + vs, rest')
         case Short => Short)
      case Short => Short
  }

  // ---- round trip --------------------------------------------------------------------------

  lemma FixedImageScalar(v: Val, t: Ty)
    requires IsFixed(t) && HasType(v, t)
    ensures FixedImage(v, t) < Pow2(8 * FixedWidth(t)) && Scalar(t, FixedImage(v, t)) == v
  {
    if t.TI8? {
      WrapSigned(v.n, 8);
    } else if t.TI16? {
      WrapSigned(v.n, 16);
    }
  }

  lemma FixedScalarRoundTrip(v: Val, t: Ty, little: bool, tail: seq<byte>)
    requires IsFixed(t) && HasType(v, t)
    ensures Decode(t, Encode(v, t, little) + tail, little) == Parsed(v, tail)
  {
    FixedImageScalar(v, t);
    Pow256IsPow2(FixedWidth(t));
    FixedRoundTrip(FixedImage(v, t), FixedWidth(t), little, tail);
  }

  lemma VarintImageScalar(v: Val, t: Ty)
    requires IsVarint(t) && HasType(v, t)
    ensures VarintImage(v, t) < Pow2(VarintWidth(t)) && Scalar(t, VarintImage(v, t)) == v
  {
    if t.TI32? {
      ZigzagRoundTrip(v.n, 32);
    } else if t.TI64? {
      ZigzagRoundTrip(v.n, 64);
    }
  }

  lemma VarintScalarRoundTrip(v: Val, t: Ty, little: bool, tail: seq<byte>)
    requires IsVarint(t) && HasType(v, t)
    ensures Decode(t, Encode(v, t, little) + tail, little) == Parsed(v, tail)
  {
    VarintImageScalar(v, t);
    VarintRoundTrip(VarintImage(v, t), VarintWidth(t), tail);
  }

  /** Every value of every supported type decodes to itself and leaves exactly what follows it. */
  lemma {:induction false} RoundTrip(v: Val, t: Ty, little: bool, tail: seq<byte>)
    requires HasType(v, t)
    ensures Decode(t, Encode(v, t, little) + tail, little) == Parsed(v, tail)
    decreases t, 1
  {
    if IsFixed(t) {
      FixedScalarRoundTrip(v, t, little, tail);
    } else if IsVarint(t) {
      VarintScalarRoundTrip(v, t, little, tail);
    } else if t.TString? {
      StringVintRoundTrip(v.s, tail);
    } else if t.TTuple? {
      ItemsRoundTrip(v.vs, t.items, little, tail);
    } else {
      CountedRoundTrip(v.vs, t.elem, little, tail, t.TSet?);
    }
  }

  lemma {:induction false} CountedRoundTrip(vs: seq<Val>, e: Ty, little: bool, tail: seq<byte>, isSet: bool)
    requires |vs| < Pow2(64) && AllTyped(vs, e)
    requires isSet ==> Increasing(vs)
    ensures var rest := EncodeAll(vs, e, little) + tail;
            && ParseVarint(Varint(|vs|) + EncodeAll(vs, e, little) + tail, 0, 64, 0) == Parsed(|vs|, rest)
            && DecodeAll(e, |vs|, rest, little, [], isSet) == Parsed(vs, tail)
    decreases e, 3 + |vs|
  {
    var count, body := Varint(|vs|), EncodeAll(vs, e, little);
    assert (count + body) + tail == count + (body + tail);
    VarintRoundTrip(|vs|, 64, body + tail);
    assert [] + vs == vs;
    AllRoundTrip(vs, e, little, tail, [], isSet);
  }

  lemma EncodeAllCons(vs: seq<Val>, e: Ty, little: bool, tail: seq<byte>)
    requires vs != [] && AllTyped(vs, e)
    ensures EncodeAll(vs, e, little) + tail == Encode(vs[0], e, little) + (EncodeAll(vs[1..], e, little) + tail)
  {
    var x, y := Encode(vs[0], e, little), EncodeAll(vs[1..], e, little);
    assert (x + y) + tail == x + (y + tail);
  }

  /** A set target takes the next, larger element at its end. */
  lemma ExtendTarget(acc: seq<Val>, vs: seq<Val>, isSet: bool)
    requires vs != [] && (isSet ==> Increasing(acc + vs))
    ensures (if isSet then Insert(acc, vs[0]) else acc + [vs[0]]) == acc + [vs[0]]
    ensures (acc + [vs[0]]) + vs[1..] == acc + vs
  {
    assert (acc + [vs[0]]) + vs[1..] == acc + vs;
    if isSet {
      var all := acc + vs;
      forall i | 0 <= i < |acc|
        ensures Less(acc[i], vs[0])
      {
        assert Less(all[i], all[|acc|]);
      }
      InsertLast(acc, vs[0]);
    }
  }

  /** Elements decoded into a target that holds `acc` go behind it. */
  lemma {:induction false} AllRoundTrip(vs: seq<Val>, e: Ty, little: bool, tail: seq<byte>, acc: seq<Val>, isSet: bool)
    requires AllTyped(vs, e)
    requires isSet ==> Increasing(acc + vs)
    ensures DecodeAll(e, |vs|, EncodeAll(vs, e, little) + tail, little, acc, isSet) == Parsed(acc + vs, tail)
    decreases e, 2 + |vs|
  {
    if vs == [] {
      assert acc + vs == acc;
      assert EncodeAll(vs, e, little) + tail == tail;
    } else {
      var rest := EncodeAll(vs[1..], e, little) + tail;
      EncodeAllCons(vs, e, little, tail);
      RoundTrip(vs[0], e, little, rest);
      ExtendTarget(acc, vs, isSet);
      AllRoundTrip(vs[1..], e, little, tail, acc + [vs[0]], isSet);
    }
  }

  lemma EncodeItemsCons(vs: seq<Val>, ts: seq<Ty>, little: bool, tail: seq<byte>)
    requires ts != [] && ItemsTyped(vs, ts)
    ensures EncodeItems(vs, ts, little) + tail
            == Encode(vs[0], ts[0], little) + (EncodeItems(vs[1..], ts[1..], little) + tail)
  {
    var x, y := Encode(vs[0], ts[0], little), EncodeItems(vs[1..], ts[1..], little);
    assert (x + y) + tail == x + (y + tail);
  }

  lemma DecodeItemsCons(ts: seq<Ty>, s: seq<byte>, little: bool, v: Val, rest: seq<byte>, vs: seq<Val>, tail: seq<byte>)
    requires ts != [] && Decode(ts[0], s, little) == Parsed(v, rest)
    requires DecodeItems(ts[1..], rest, little) == Parsed(vs, tail)
    ensures DecodeItems(ts, s, little) == Parsed([v] + vs, tail)
  {
  }

  lemma {:induction false} ItemsRoundTrip(vs: seq<Val>, ts: seq<Ty>, little: bool, tail: seq<byte>)
    requires ItemsTyped(vs, ts)
    ensures DecodeItems(ts, EncodeItems(vs, ts, little) + tail, little) == Parsed(vs, tail)
    decreases ts, 1
  {
    if ts == [] {
      assert EncodeItems(vs, ts, little) + tail == tail;
    } else {
      EncodeItemsCons(vs, ts, little, tail);
      var rest := EncodeItems(vs[1..], ts[1..], little) + tail;
      RoundTrip(vs[0], ts[0], little, rest);
      ItemsRoundTrip(vs[1..], ts[1..], little, tail);
      DecodeItemsCons(ts, Encode(vs[0], ts[0], little) + rest, little, vs[0], rest, vs[1..], tail);
      assert vs == [vs[0]] + vs[1..];
    }
  }
}
