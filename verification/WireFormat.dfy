/** The wire form of each type, and which values each type has. */
module WireFormat {
  import opened Bytes
  import opened Codec
  import opened SerialModel

  /** Two's complement in `n` bytes, network order. */
  lemma StoredWrapped(x: int, n: nat, w: nat)
    requires w == 8 * n && w > 0 && (FitsSigned(x, w) || 0 <= x < Pow2(w))
    ensures Value(Stored(Wrap(x, w), n, false)) == if x < 0 then x + Pow2(w) else x
  {
    assert Pow2(w) == 2 * Pow2(w - 1);
    WrapNear(x, w);
    Pow256IsPow2(n);
    StoredValue(Wrap(x, w), n);
  }

  /** A flag is one byte, 0 or 1. */
  lemma FlagFormat(b: bool)
    ensures HasType(VBool(b), TBool) && Encode(VBool(b), TBool, false) == [if b then 1 else 0]
  {
    LoadedByte(if b then 1 else 0);
  }

  /** An 8-bit number is one byte and a 16-bit number two, most significant first, in two's complement. */
  lemma ByteFormat(v: Val, t: Ty)
    requires HasType(v, t) && (t == TU8 || t == TI8)
    ensures |Encode(v, t, false)| == 1 && Value(Encode(v, t, false)) == if v.n < 0 then v.n + 0x100 else v.n
  {
    SmallPowers();
    WrapNear(v.n, 8);
    StoredWrapped(v.n, 1, 8);
  }

  lemma WordFormat(v: Val, t: Ty)
    requires HasType(v, t) && (t == TU16 || t == TI16)
    ensures |Encode(v, t, false)| == 2 && Value(Encode(v, t, false)) == if v.n < 0 then v.n + 0x1_0000 else v.n
  {
    SmallPowers();
    WrapNear(v.n, 16);
    StoredWrapped(v.n, 2, 16);
  }

  /** A floating-point number is its four or eight bytes, most significant first. */
  lemma FloatFormat(v: Val, t: Ty)
    requires HasType(v, t) && (t == TFloat || t == TDouble)
    ensures |Encode(v, t, false)| == (if t == TFloat then 4 else 8) && Value(Encode(v, t, false)) == v.bits
  {
    var n := FixedWidth(t);
    assert v.bits < Pow2(8 * n);
    Pow256IsPow2(n);
    StoredValue(v.bits, n);
  }

  /** Wider unsigned numbers are varints, wider signed ones zigzag varints; a string follows its length. */
  lemma UnsignedFormat(v: Val, t: Ty)
    requires HasType(v, t) && (t == TU32 || t == TU64)
    ensures v.n >= 0 && Encode(v, t, false) == Varint(v.n)
  {
  }

  lemma SignedFormat(v: Val, t: Ty)
    requires HasType(v, t) && (t == TI32 || t == TI64)
    ensures Encode(v, t, false) == Varint(if v.n < 0 then -2 * v.n - 1 else 2 * v.n)
  {
    var w := VarintWidth(t);
    assert FitsSigned(v.n, w);
    assert Encode(v, t, false) == Varint(EncodeZigzag(v.n, w));
    ZigzagValue(v.n, w);
  }

  lemma StringFormat(v: Val, t: Ty)
    requires HasType(v, t) && t == TString
    ensures Encode(v, t, false) == Varint(|v.s|) + v.s
  {
  }

  /** Bytes read in network order. */
  lemma LoadedValue(s: seq<byte>)
    ensures Loaded(s, false) == Value(s)
  {
    ToFromLE(s);
    ReverseTwice(s);
    ValueReverse(Reverse(s));
  }

  /** What any bytes decode to as a value of a fixed-width type: a flag is whatever is not 0, a signed number is in two's
      complement; too few bytes throw. */
  lemma FixedDecoded(s: seq<byte>, t: Ty, n: nat)
    requires n == FixedWidth(t) > 0
    ensures |s| < n ==> Decode(t, s, false) == Short
    ensures |s| >= n ==>
              var x := Value(s[..n]);
              Decode(t, s, false)
              == Parsed(match t
                        case TBool => VBool(x != 0)
                        case TI8 => VInt(if x < 0x80 then x else x - 0x100)
                        case TI16 => VInt(if x < 0x8000 then x else x - 0x1_0000)
                        case TU8 => VInt(x)
                        case TU16 => VInt(x)
                        case _ => VBits(x), s[n..])
  {
    SmallPowers();
    if |s| >= n {
      LoadedValue(s[..n]);
      assert Decode(t, s, false) == Parsed(Scalar(t, Value(s[..n])), s[n..]);
    }
  }

  /** A container is its size and its elements in order, whichever container it is. */
  lemma ContainerFormat(v: Val, t: Ty)
    requires HasType(v, t) && (t.TVector? || t.TList? || t.TSet?)
    ensures v.VSeq? && |v.vs| < Pow2(BitWidth(t)) && AllTyped(v.vs, t.elem)
    ensures t.TSet? ==> Ordered(t.elem) && Increasing(v.vs)
    ensures Encode(v, t, false) == Varint(|v.vs|) + EncodeAll(v.vs, t.elem, false)
  {
  }

  lemma ContainerTyped(vs: seq<Val>, t: Ty)
    requires t.TVector? || t.TList? || t.TSet?
    requires |vs| < Pow2(BitWidth(t)) && AllTyped(vs, t.elem) && (t.TSet? ==> Ordered(t.elem) && Increasing(vs))
    ensures HasType(VSeq(vs), t)
  {
  }

  /** A tuple is its items in order. */
  lemma TupleFormat(vs: seq<Val>, ts: seq<Ty>)
    ensures HasType(VSeq(vs), TTuple(ts)) <==> ItemsTyped(vs, ts)
    ensures HasType(VSeq(vs), TTuple(ts)) ==> Encode(VSeq(vs), TTuple(ts), false) == EncodeItems(vs, ts, false)
  {
  }

  /** Which numbers each type has. */
  lemma SmallRanges(n: int)
    ensures HasType(VInt(n), TU8) <==> 0 <= n < 0x100
    ensures HasType(VInt(n), TI8) <==> -0x80 <= n < 0x80
    ensures HasType(VInt(n), TU16) <==> 0 <= n < 0x1_0000
    ensures HasType(VInt(n), TI16) <==> -0x8000 <= n < 0x8000
  {
    SmallPowers();
  }

  lemma WideRanges(n: int)
    ensures HasType(VInt(n), TU32) <==> 0 <= n < 0x1_0000_0000
    ensures HasType(VInt(n), TI32) <==> -0x8000_0000 <= n < 0x8000_0000
    ensures HasType(VInt(n), TU64) <==> 0 <= n < 0x1_0000_0000_0000_0000
    ensures HasType(VInt(n), TI64) <==> -0x8000_0000_0000_0000 <= n < 0x8000_0000_0000_0000
  {
    WidePowers();
  }

  /** And which bit patterns and strings. */
  lemma FloatRanges(bits: nat, t: Ty)
    requires t == TFloat || t == TDouble
    ensures HasType(VBits(bits), t) <==> bits < if t == TFloat then 0x1_0000_0000 else 0x1_0000_0000_0000_0000
  {
    WidePowers();
  }

  lemma StringRange(s: seq<byte>, t: Ty)
    requires t == TString
    ensures HasType(VString(s), t) <==> |s| < 0x1_0000_0000_0000_0000
  {
    WidePowers();
  }

  lemma SmallPowers()
    ensures Pow2(7) == 0x80 && Pow2(8) == 0x100 && Pow2(15) == 0x8000 && Pow2(16) == 0x1_0000
  {
    assert Pow2(8) == 0x100;
    Pow2Add(8, 8);
    Half(16);
  }

  lemma WidePowers()
    ensures Pow2(31) == 0x8000_0000 && Pow2(32) == 0x1_0000_0000
    ensures Pow2(63) == 0x8000_0000_0000_0000 && Pow2(64) == 0x1_0000_0000_0000_0000
  {
    SmallPowers();
    Pow2Add(16, 16);
    Pow2Add(32, 32);
    Half(32);
    Half(64);
  }

  lemma Half(n: nat)
    requires n > 0
    ensures Pow2(n) == 2 * Pow2(n - 1)
  {
  }
}
