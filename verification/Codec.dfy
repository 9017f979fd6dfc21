/** Byte-level encodings: fixed-width integers, LEB128 varints and zigzag. */
module Codec {
  import opened Bytes
  import opened Bits

  /** A decoder's result: a value and what it left unread, or not enough input. */
  datatype Parsed<+T> = Parsed(value: T, rest: seq<byte>) | Short

  // ---- fixed-width integers ----------------------------------------------------------------

  function Pow256(n: nat): (p: nat)
    ensures p >= 1
  {
    if n == 0 then 1 else 256 * Pow256(n - 1)
  }

  lemma {:induction false} Pow256IsPow2(n: nat)
    ensures Pow256(n) == Pow2(8 * n)
  {
    if n > 0 {
      Pow256IsPow2(n - 1);
      Pow2Add(8, 8 * (n - 1));
      assert Pow2(8) == 256;
    }
  }

  /** The `n` bytes of `v` as a little-endian host stores them. */
  function ToLE(v: nat, n: nat): (s: seq<byte>)
    ensures |s| == n
    decreases v + n
  {
    if n == 0 then [] else [v % 256] + ToLE(v / 256, n - 1)
  }

  function FromLE(s: seq<byte>): (v: nat)
  {
    if s == [] then 0 else s[0] + 256 * FromLE(s[1..])
  }

  function Reverse(s: seq<byte>): (r: seq<byte>)
    ensures |r| == |s|
  {
    if s == [] then [] else Reverse(s[1..]) + [s[0]]
  }

  /** `bswap` of an `n`-byte integer. */
  function ByteSwap(v: nat, n: nat): nat
  {
    FromLE(Reverse(ToLE(v, n)))
  }

  /** The host is little-endian; the buffer's order is big-endian unless `little`. */
  function EndianCast(v: nat, n: nat, little: bool): nat
  {
    if little then v else ByteSwap(v, n)
  }

  function Stored(v: nat, n: nat, little: bool): (s: seq<byte>)
    ensures |s| == n
  {
    ToLE(EndianCast(v, n, little), n)
  }

  function Loaded(s: seq<byte>, little: bool): nat
  {
    EndianCast(FromLE(s), |s|, little)
  }

  lemma {:induction false} FromToLE(v: nat, n: nat)
    requires v < Pow256(n)
    ensures FromLE(ToLE(v, n)) == v
  {
    if n == 0 {
    } else {
      FromToLE(v / 256, n - 1);
      assert ToLE(v, n)[1..] == ToLE(v / 256, n - 1);
    }
  }

  lemma {:induction false} ToFromLE(s: seq<byte>)
    ensures FromLE(s) < Pow256(|s|) && ToLE(FromLE(s), |s|) == s
  {
    if s == [] {
    } else {
      ToFromLE(s[1..]);
      DivUnique(FromLE(s), 256, FromLE(s[1..]), s[0]);
      assert s == [s[0]] + s[1..];
    }
  }

  lemma {:induction false} ReverseAppend(s: seq<byte>, b: byte)
    ensures Reverse(s + [b]) == [b] + Reverse(s)
  {
    if s == [] {
      assert s + [b] == [b] && [b][1..] == [];
    } else {
      assert (s + [b])[1..] == s[1..] + [b];
      ReverseAppend(s[1..], b);
    }
  }

  lemma {:induction false} ReverseTwice(s: seq<byte>)
    ensures Reverse(Reverse(s)) == s
  {
    if s == [] {
    } else {
      ReverseTwice(s[1..]);
      ReverseAppend(Reverse(s[1..]), s[0]);
    }
  }

  /** Swapping twice is the identity, and a swapped integer still fits. */
  lemma ByteSwapTwice(v: nat, n: nat)
    requires v < Pow256(n)
    ensures ByteSwap(v, n) < Pow256(n) && ByteSwap(ByteSwap(v, n), n) == v
  {
    var r := Reverse(ToLE(v, n));
    ToFromLE(r);
    ReverseTwice(ToLE(v, n));
    FromToLE(v, n);
  }

  /** A buffer in network order holds the most significant byte first. */
  lemma StoredBigEndian(v: nat, n: nat)
    requires v < Pow256(n)
    ensures Stored(v, n, false) == Reverse(ToLE(v, n))
  {
    ToFromLE(Reverse(ToLE(v, n)));
  }

  /** In network order the bytes are the digits of the number, base 256. */
  lemma StoredValue(v: nat, n: nat)
    requires v < Pow256(n)
    ensures Value(Stored(v, n, false)) == v
  {
    StoredBigEndian(v, n);
    ValueReverse(ToLE(v, n));
    FromToLE(v, n);
  }

  lemma {:induction false} ValueReverse(s: seq<byte>)
    ensures Value(Reverse(s)) == FromLE(s)
  {
    if s != [] {
      var r := Reverse(s[1..]) + [s[0]];
      assert r[..|r| - 1] == Reverse(s[1..]);
      ValueReverse(s[1..]);
    }
  }

  lemma LoadedBound(s: seq<byte>, little: bool)
    ensures Loaded(s, little) < Pow256(|s|)
  {
    ToFromLE(s);
    ByteSwapTwice(FromLE(s), |s|);
  }

  lemma LoadStored(v: nat, n: nat, little: bool)
    requires v < Pow256(n)
    ensures Loaded(Stored(v, n, little), little) == v
  {
    ByteSwapTwice(v, n);
    FromToLE(EndianCast(v, n, little), n);
  }

  lemma LoadedByte(x: byte)
    ensures Loaded([x], false) == x && Stored(x, 1, false) == [x]
  {
    assert FromLE([x]) == x + 256 * FromLE([x][1..]) && [x][1..] == [];
    assert ToLE(x, 1) == [x % 256] + ToLE(x / 256, 0);
    assert Reverse([x]) == Reverse([x][1..]) + [x];
    ToFromLE([x]);
  }

  function ParseFixed(s: seq<byte>, n: nat, little: bool): Parsed<nat>
  {
    if n > |s| then Short else Parsed(Loaded(s[..n], little), s[n..])
  }

  lemma FixedRoundTrip(v: nat, n: nat, little: bool, t: seq<byte>)
    requires v < Pow256(n)
    ensures ParseFixed(Stored(v, n, little) + t, n, little) == Parsed(v, t)
  {
    var e := Stored(v, n, little) + t;
    assert e[..n] == Stored(v, n, little) && e[n..] == t;
    LoadStored(v, n, little);
  }

  // ---- two's complement --------------------------------------------------------------------

  function Wrap(x: int, w: nat): (u: nat)
    ensures u < Pow2(w)
  {
    ModBasics(x, Pow2(w));
    x % Pow2(w)
  }

  function Signed(u: nat, w: nat): int
    requires w > 0
  {
    if u < Pow2(w - 1) then u else u - Pow2(w)
  }

  predicate FitsSigned(x: int, w: nat)
    requires w > 0
  {
    -(Pow2(w - 1) as int) <= x < Pow2(w - 1)
  }

  lemma WrapNear(x: int, w: nat)
    requires -(Pow2(w) as int) <= x < Pow2(w)
    ensures Wrap(x, w) == if x >= 0 then x else x + Pow2(w)
  {
    DivUnique(x, Pow2(w), if x >= 0 then 0 else -1, if x >= 0 then x else x + Pow2(w));
  }

  lemma WrapSigned(x: int, w: nat)
    requires w > 0 && FitsSigned(x, w)
    ensures Wrap(x, w) == if x >= 0 then x else x + Pow2(w)
    ensures Signed(Wrap(x, w), w) == x
  {
    DivUnique(x, Pow2(w), if x >= 0 then 0 else -1, if x >= 0 then x else x + Pow2(w));
  }

  // ---- zigzag ------------------------------------------------------------------------------

  /** `EncodeZigzag32` and `EncodeZigzag64`, unsigned arithmetic modulo 2^w. */
  function EncodeZigzag(x: int, w: nat): (u: nat)
    ensures u < Pow2(w)
  {
    if x < 0 then Wrap(Wrap(-x, w) * 2 - 1, w) else Wrap(x * 2, w)
  }

  /** `(v >> 1) ^ (-(v & 1))` in `w`-bit arithmetic. */
  function DecodeZigzag(u: nat, w: nat): int
    requires w > 0
  {
    Signed(BitXor(u / 2, Wrap(-(u % 2), w)), w)
  }

  lemma MaskValue(bit: int, w: nat)
    requires w > 0 && 0 <= bit <= 1
    ensures Wrap(-bit, w) == if bit == 0 then 0 else Pow2(w) - 1
  {
    if bit == 0 {
      DivUnique(0, Pow2(w), 0, 0);
    } else {
      DivUnique(-1, Pow2(w), -1, Pow2(w) - 1);
    }
  }

  /** Half of `u`, all bits flipped when `u` is odd. */
  lemma ZagValue(u: nat, w: nat)
    requires w > 0 && u < Pow2(w)
    ensures DecodeZigzag(u, w) == if u % 2 == 0 then u / 2 else -(u / 2) - 1
  {
    var h := u / 2;
    MaskValue(u % 2, w);
    XorOnes(h, w);
    assert BitXor(h, 0) == h;
    assert Pow2(w) == 2 * Pow2(w - 1);
  }

  lemma ZigzagValue(x: int, w: nat)
    requires w > 0 && FitsSigned(x, w)
    ensures EncodeZigzag(x, w) == if x < 0 then -2 * x - 1 else 2 * x
  {
    var p := Pow2(w);
    assert p == 2 * Pow2(w - 1);
    if x < 0 {
      DivUnique(-x, p, 0, -x);
      DivUnique(-2 * x - 1, p, 0, -2 * x - 1);
    } else {
      DivUnique(2 * x, p, 0, 2 * x);
    }
  }

  /** Zigzag is a bijection between the signed and the unsigned integers of a width. */
  lemma ZigzagRoundTrip(x: int, w: nat)
    requires w > 0 && FitsSigned(x, w)
    ensures DecodeZigzag(EncodeZigzag(x, w), w) == x
  {
    ZigzagValue(x, w);
    ZagValue(EncodeZigzag(x, w), w);
  }

  lemma ZigzagRoundTripBack(u: nat, w: nat)
    requires w > 0 && u < Pow2(w)
    ensures FitsSigned(DecodeZigzag(u, w), w) && EncodeZigzag(DecodeZigzag(u, w), w) == u
  {
    ZagValue(u, w);
    ZigzagValue(DecodeZigzag(u, w), w);
  }

  // ---- varint ------------------------------------------------------------------------------

  /** Unsigned LEB128: seven bits a byte, low bits first, the high bit set on all but the last. */
  function Varint(v: nat): (s: seq<byte>)
    ensures |s| >= 1
  {
    if v < 128 then [v] else [v % 128 + 128] + Varint(v / 128)
  }

  /** The reader for width `w`: it gives up after the byte that passes the width, terminated or not.
      A shifted group is truncated to the word. */
  function ParseVarint(s: seq<byte>, shift: nat, w: nat, acc: nat): (r: Parsed<nat>)
    decreases |s|
  {
    if shift >= w then Parsed(acc, s)
    else if s == [] then Short
    else
      var acc' := BitOr(acc, s[0] % 128 * Pow2(shift) % Pow2(w));
      if s[0] >= 128 then ParseVarint(s[1..], shift + 7, w, acc') else Parsed(acc', s[1..])
  }

  lemma {:induction false} VarintRestIsShorter(s: seq<byte>, shift: nat, w: nat, acc: nat)
    ensures var p := ParseVarint(s, shift, w, acc);
            p.Parsed? ==> |p.rest| <= |s| && p.rest == s[|s| - |p.rest|..]
    decreases |s|
  {
    if shift < w && s != [] && s[0] >= 128 {
      VarintRestIsShorter(s[1..], shift + 7, w, BitOr(acc, s[0] % 128 * Pow2(shift) % Pow2(w)));
    }
  }

  /** The reader looks at no more bytes than there are groups of seven bits left, and with that many it succeeds. */
  lemma {:induction false} VarintConsumes(s: seq<byte>, shift: nat, w: nat, acc: nat, k: nat)
    requires w <= shift + 7 * k && k <= |s|
    ensures ParseVarint(s, shift, w, acc).Parsed? && |ParseVarint(s, shift, w, acc).rest| >= |s| - k
    decreases k
  {
    if shift < w && s[0] >= 128 {
      VarintConsumes(s[1..], shift + 7, w, BitOr(acc, s[0] % 128 * Pow2(shift) % Pow2(w)), k - 1);
    }
  }

  /** The least number of seven-bit groups that hold `v`. */
  lemma {:induction false} VarintLength(v: nat, k: nat)
    requires k >= 1
    ensures |Varint(v)| <= k <==> v < Pow2(7 * k)
    decreases k
  {
    assert Pow2(7) == 128;
    if k == 1 {
    } else {
      Pow2Add(7, 7 * (k - 1));
      if v >= 128 {
        VarintLength(v / 128, k - 1);
      } else {
        Pow2Monotone(7, 7 * k);
      }
    }
  }

  lemma {:induction false} VarintRoundTripFrom(v: nat, t: seq<byte>, shift: nat, w: nat, acc: nat)
    requires shift < w && acc < Pow2(shift) && acc + v * Pow2(shift) < Pow2(w)
    ensures ParseVarint(Varint(v) + t, shift, w, acc) == Parsed(acc + v * Pow2(shift), t)
    decreases v
  {
    var s, p := Varint(v) + t, Pow2(shift);
    var lo, hi := v % 128, v / 128;
    assert s[0] % 128 == lo;
    SplitGroup(lo, hi, p, acc, Pow2(w));
    OrGroup(acc, lo, shift, w);
    if v < 128 {
      assert s[1..] == t;
    } else {
      assert s[1..] == Varint(hi) + t;
      NextGroup(shift);
      if shift + 7 >= w {
        Pow2Monotone(w, shift + 7);
      }
      VarintRoundTripFrom(hi, t, shift + 7, w, acc + lo * p);
    }
  }

  lemma NextGroup(shift: nat)
    ensures Pow2(shift + 7) == 128 * Pow2(shift)
  {
    Pow2Add(7, shift);
    assert Pow2(7) == 128;
  }

  lemma OrGroup(acc: nat, lo: nat, shift: nat, w: nat)
    requires acc < Pow2(shift) && lo * Pow2(shift) < Pow2(w)
    ensures BitOr(acc, lo * Pow2(shift) % Pow2(w)) == acc + lo * Pow2(shift)
  {
    MulNonneg(lo, Pow2(shift));
    DivUnique(lo * Pow2(shift), Pow2(w), 0, lo * Pow2(shift));
    OrAbove(acc, lo, shift);
  }

  /** The low group of seven bits and what lies above it. */
  lemma SplitGroup(lo: nat, hi: nat, p: nat, acc: nat, limit: nat)
    requires lo < 128 && acc < p && acc + (hi * 128 + lo) * p < limit
    ensures 0 <= lo * p < limit && acc + lo * p < 128 * p
    ensures acc + lo * p + hi * (128 * p) == acc + (hi * 128 + lo) * p
    ensures hi > 0 ==> 128 * p < limit
  {
    assert (hi * 128 + lo) * p == hi * (128 * p) + lo * p;
    MulNonneg(hi, 128 * p);
    MulNonneg(lo, p);
    MulMonotone(lo, 127, p);
    if hi > 0 {
      MulMonotone(1, hi, 128 * p);
    }
  }

  /** Byte `i` of a varint holds the seven bits from 7i on, and its top bit says whether another byte follows. */
  lemma {:induction false} VarintGroups(v: nat, i: nat)
    requires i < |Varint(v)|
    ensures Varint(v)[i] % 128 == v / Pow2(7 * i) % 128
    ensures Varint(v)[i] >= 128 <==> i < |Varint(v)| - 1
    decreases i
  {
    if i == 0 {
      DivUnique(v, 1, v, 0);
    } else {
      VarintGroups(v / 128, i - 1);
      NextGroup(7 * (i - 1));
      DivTwice(v, 128, Pow2(7 * (i - 1)));
    }
  }

  lemma DivTwice(v: nat, a: nat, b: nat)
    requires a > 0 && b > 0
    ensures a * b > 0 && v / a / b == v / (a * b)
  {
    var q, r := v / a, v % a;
    var p, t := q / b, q % b;
    DivBasics(v, a);
    DivBasics(q, b);
    Nested(p, t, a, b);
    MulMonotone(t, b - 1, a);
    MulNonneg(t, a);
    MulMonotone(1, a, b);
    DivUnique(v, a * b, p, t * a + r);
  }

  lemma Nested(p: nat, t: nat, a: nat, b: nat)
    ensures (p * b + t) * a == p * (a * b) + t * a
  {
    assert p * b * a == p * (a * b);
  }

  /** Self-delimiting: whatever follows, the reader returns the value and leaves exactly the tail. */
  lemma VarintRoundTrip(v: nat, w: nat, t: seq<byte>)
    requires w > 0 && v < Pow2(w)
    ensures ParseVarint(Varint(v) + t, 0, w, 0) == Parsed(v, t)
  {
    VarintRoundTripFrom(v, t, 0, w, 0);
  }

  /** The scratch arrays of 5 and 10 bytes never overflow. */
  lemma VarintFitsScratch(v: nat, w: nat)
    requires w == 32 || w == 64
    requires v < Pow2(w)
    ensures |Varint(v)| <= if w == 32 then 5 else 10
  {
    var k := if w == 32 then 5 else 10;
    Pow2Monotone(w, 7 * k);
    VarintLength(v, k);
  }

  /** A signed varint takes at most `k` bytes exactly when its value fits in 7k bits. */
  lemma SignedVarintLength(x: int, w: nat, k: nat)
    requires w > 0 && FitsSigned(x, w) && k >= 1
    ensures |Varint(EncodeZigzag(x, w))| <= k <==> FitsSigned(x, 7 * k)
  {
    ZigzagValue(x, w);
    VarintLength(EncodeZigzag(x, w), k);
    assert Pow2(7 * k) == 2 * Pow2(7 * k - 1);
  }

  // ---- strings -----------------------------------------------------------------------------

  function StringVint(s: seq<byte>): seq<byte>
  {
    Varint(|s|) + s
  }

  function ParseBytes(s: seq<byte>, n: nat): Parsed<seq<byte>>
  {
    if n > |s| then Short else Parsed(s[..n], s[n..])
  }

  function ParseStringVint(s: seq<byte>): Parsed<seq<byte>>
  {
    match ParseVarint(s, 0, 64, 0)
    case Parsed(n, rest) => ParseBytes(rest, n)
    case Short => Short
  }

  lemma StringVintRoundTrip(s: seq<byte>, t: seq<byte>)
    requires |s| < Pow2(64)
    ensures ParseStringVint(StringVint(s) + t) == Parsed(s, t)
  {
    VarintRoundTrip(|s|, 64, s + t);
    assert StringVint(s) + t == Varint(|s|) + (s + t);
    assert (s + t)[..|s|] == s && (s + t)[|s|..] == t;
  }

  /** A string behind an `n`-byte length: the length is truncated to the field. */
  function StringFixed(s: seq<byte>, n: nat, little: bool): seq<byte>
  {
    Stored(|s| % Pow256(n), n, little) + s
  }

  /** The reader takes the length from a field of `m` bytes. */
  function ParseStringFixed(s: seq<byte>, m: nat, little: bool): Parsed<seq<byte>>
  {
    if m > |s| then Short else ParseBytes(s[m..], Loaded(s[..m], little))
  }

  /** `writeStringF16` and `F32` with their readers round-trip exactly when the length fits its field. */
  lemma StringFixedRoundTrip(s: seq<byte>, n: nat, little: bool, t: seq<byte>)
    ensures ParseStringFixed(StringFixed(s, n, little) + t, n, little) == Parsed(s, t) <==> |s| < Pow256(n)
  {
    var len := |s| % Pow256(n);
    var e := StringFixed(s, n, little) + t;
    assert e[..n] == Stored(len, n, little);
    assert e[n..] == s + t;
    LoadStored(len, n, little);
    if |s| < Pow256(n) {
      DivUnique(|s|, Pow256(n), 0, |s|);
      assert (s + t)[..|s|] == s && (s + t)[|s|..] == t;
    } else {
      assert len < |s|;
    }
  }

  /** `readStringF64` takes its length from two bytes, sign-extended to 64 bits. */
  function ParseStringF64(s: seq<byte>, little: bool): Parsed<seq<byte>>
  {
    if 2 > |s| then Short else ParseBytes(s[2..], Wrap(Signed(Loaded(s[..2], little), 16), 64))
  }

  /** It never reads back what `writeStringF64` wrote, whatever the string, the byte order and what follows. */
  lemma StringF64NeverRoundTrips(s: seq<byte>, little: bool, t: seq<byte>)
    ensures ParseStringF64(StringFixed(s, 8, little) + t, little) != Parsed(s, t)
  {
    var r := ParseStringF64(StringFixed(s, 8, little) + t, little);
    if r.Parsed? && r.value == s {
      assert |r.rest| == 6 + |t|;
    }
  }

  /** In network order it returns the empty string and leaves six length bytes and the string unread, for every
      string of less than 2^48 bytes. */
  lemma StringF64Misread(s: seq<byte>, t: seq<byte>)
    requires |s| < Pow256(6)
    ensures ParseStringF64(StringFixed(s, 8, false) + t, false)
            == Parsed([], Stored(|s|, 8, false)[2..] + s + t)
  {
    var v := |s|;
    assert Pow256(8) == 65536 * Pow256(6);
    DivUnique(v, Pow256(8), 0, v);
    StoredBigEndian(v, 8);
    HighBytesZero(v);
    var e := StringFixed(s, 8, false) + t;
    assert e[..2] == [0, 0];
    LoadedZero();
    WrapNear(0, 64);
    assert e[2..] == Stored(v, 8, false)[2..] + s + t;
  }

  lemma LoadedZero()
    ensures Loaded([0, 0], false) == 0 && Signed(0, 16) == 0
  {
    StoredBigEndian(0, 2);
    LoadStored(0, 2, false);
    assert ToLE(0, 2) == [0, 0];
    assert Reverse([0, 0]) == [0, 0];
  }

  lemma HighBytesZero(v: nat)
    requires v < Pow256(6)
    ensures Reverse(ToLE(v, 8))[..2] == [0, 0]
  {
    var a := ToLE(v, 6);
    PadLE(v, 6, 2);
    assert ToLE(0, 2) == [0, 0];
    assert ToLE(v, 8) == (a + [0]) + [0];
    ReverseAppend(a + [0], 0);
    ReverseAppend(a, 0);
  }

  lemma {:induction false} PadLE(v: nat, m: nat, n: nat)
    requires v < Pow256(m)
    ensures ToLE(v, m + n) == ToLE(v, m) + ToLE(0, n)
  {
    if m > 0 {
      PadLE(v / 256, m - 1, n);
      assert ToLE(v, m + n) == [v % 256] + ToLE(v / 256, m - 1 + n);
    }
  }
}
