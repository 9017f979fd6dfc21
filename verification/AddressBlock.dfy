/** IPv6 prefix arithmetic: network address, broadcast address and subnet mask. */
module AddressBlock {
  import opened Bytes
  import opened Bits

  /** `x` moved up by `n` bits. */
  function Shift(x: nat, n: nat): nat
  {
    if n == 0 then x else 2 * Shift(x, n - 1)
  }

  lemma {:induction false} ShiftAdd(x: nat, y: nat, n: nat)
    ensures Shift(x + y, n) == Shift(x, n) + Shift(y, n)
  {
    if n > 0 {
      ShiftAdd(x, y, n - 1);
    }
  }

  lemma {:induction false} ShiftShift(x: nat, m: nat, n: nat)
    ensures Shift(x, m + n) == Shift(Shift(x, m), n)
  {
    if n > 0 {
      ShiftShift(x, m, n - 1);
      assert Shift(x, m + n) == 2 * Shift(x, m + (n - 1));
    }
  }

  lemma {:induction false} ShiftMul(x: nat, n: nat)
    ensures Shift(x, n) == x * Pow2(n)
  {
    if n > 0 {
      ShiftMul(x, n - 1);
      assert 2 * (x * Pow2(n - 1)) == x * Pow2(n);
    }
  }

  lemma {:induction false} ShiftPow2(m: nat, n: nat)
    ensures Shift(Pow2(m), n) == Pow2(m + n)
  {
    if n > 0 {
      ShiftPow2(m, n - 1);
      assert Pow2(m + n) == 2 * Pow2(m + (n - 1));
    }
  }

  /** `x` moved down by `n` bits. */
  function High(x: nat, n: nat): nat
  {
    if n == 0 then x else High(x / 2, n - 1)
  }

  lemma {:induction false} HighShift(x: nat, n: nat)
    ensures Shift(High(x, n), n) == x - x % Pow2(n)
  {
    if n > 0 {
      HighShift(x / 2, n - 1);
      HalfMod(x, n);
    } else {
      assert x % 1 == 0;
    }
  }

  /** `High` picks the block of size 2^n that holds `x`. */
  lemma {:induction false} HighIff(x: nat, q: nat, n: nat)
    ensures Shift(q, n) <= x < Shift(q, n) + Pow2(n) <==> High(x, n) == q
  {
    if n > 0 {
      HighIff(x / 2, q, n - 1);
    }
  }

  lemma ShiftByte(x: nat)
    ensures Shift(x, 8) == x * 256
  {
    var w := 8;
    ShiftMul(x, w);
  }

  lemma {:induction false} ValueConcat(x: seq<byte>, y: seq<byte>)
    ensures Value(x + y) == Shift(Value(x), 8 * |y|) + Value(y)
  {
    if y == [] {
      assert x + y == x;
    } else {
      var n := |y| - 1;
      var z := x + y;
      assert z[..|z| - 1] == x + y[..n] && z[|z| - 1] == y[n];
      ValueConcat(x, y[..n]);
      var v, w := Shift(Value(x), 8 * n), Value(y[..n]);
      assert Value(z) == (v + w) * 256 + y[n];
      ShiftByte(v);
      ShiftShift(Value(x), 8 * n, 8);
    }
  }

  lemma {:induction false} ValueBound(s: seq<byte>)
    ensures Value(s) < Pow2(8 * |s|)
  {
    if s != [] {
      var n := |s| - 1;
      ValueBound(s[..n]);
      ShiftPow2(8 * n, 8);
      ShiftByte(Pow2(8 * n));
    }
  }

  /** The byte string of length `n` that denotes `v`. */
  function Denoting(v: nat, n: nat): (s: seq<byte>)
    ensures |s| == n
    decreases n
  {
    if n == 0 then [] else Denoting(v / 256, n - 1) + [v % 256]
  }

  /** Byte strings of one length and the numbers they can denote correspond one to one. */
  lemma {:induction false} ValueDenoting(v: nat, n: nat)
    requires v < Pow2(8 * n)
    ensures Value(Denoting(v, n)) == v
  {
    if n > 0 {
      ShiftPow2(8 * (n - 1), 8);
      ShiftByte(Pow2(8 * (n - 1)));
      ValueDenoting(v / 256, n - 1);
      var s := Denoting(v, n);
      assert s[..n - 1] == Denoting(v / 256, n - 1);
    }
  }

  lemma {:induction false} DenotingValue(s: seq<byte>)
    ensures Denoting(Value(s), |s|) == s
  {
    if s != [] {
      var n := |s| - 1;
      DenotingValue(s[..n]);
      assert s == s[..n] + [s[n]];
    }
  }

  function Zeros(n: nat): (s: seq<byte>)
    ensures |s| == n
  {
    if n == 0 then [] else Zeros(n - 1) + [0]
  }

  function Ones(n: nat): (s: seq<byte>)
    ensures |s| == n
  {
    if n == 0 then [] else Ones(n - 1) + [255]
  }

  lemma {:induction false} ZerosValue(n: nat)
    ensures Value(Zeros(n)) == 0
  {
    if n > 0 {
      ZerosValue(n - 1);
    }
  }

  lemma {:induction false} OnesValue(n: nat)
    ensures Value(Ones(n)) == Pow2(8 * n) - 1
  {
    if n > 0 {
      OnesValue(n - 1);
      ShiftPow2(8 * (n - 1), 8);
      ShiftByte(Pow2(8 * (n - 1)));
    }
  }

  /** `CreateMask<uint8_t>`: ones below the top `bits` bits. */
  function CreateMask8(bits: nat): (m: byte)
    requires bits < 8
    ensures m == Pow2(8 - bits) - 1
  {
    Pow2Monotone(8 - bits, 8);
    assert Pow2(8) == 256;
    (Pow2(8 - bits) - 1) % 256
  }

  // ---- the three results as bytes ----------------------------------------------------------

  /** Masking the low `m` bits of a byte. */
  lemma MaskedByte(b: byte, w: nat, m: nat)
    requires m <= w && Pow2(w) == 256
    ensures Pow2(m) <= 256
    ensures BitAnd(b, 256 - Pow2(m)) == Shift(High(b, m), m)
    ensures BitOr(b, Pow2(m) - 1) == Shift(High(b, m), m) + Pow2(m) - 1 < 256
  {
    Pow2Monotone(m, w);
    AndHigh(b, w, m);
    OrLow(b, m);
    HighShift(b, m);
    assert Pow2(w - m) * Pow2(m) == 256 by { Pow2Add(w - m, m); }
    BlockInside(b, Pow2(m), Pow2(w - m));
  }

  lemma BlockInside(b: nat, m: nat, n: nat)
    requires m > 0 && n * m == 256 && b < 256
    ensures b - b % m + m <= 256
  {
    DivBasics(b, m);
    var q := b / m;
    if q >= n {
      MulMonotone(n, q, m);
    } else {
      MulMonotone(q + 1, n, m);
      MulSucc(q, m);
    }
  }

  lemma ByteMasks(b: byte, k: nat)
    requires k < 8
    ensures BitAnd(b, 255 - CreateMask8(k)) == Shift(High(b, 8 - k), 8 - k) < 256
    ensures BitOr(b, CreateMask8(k)) == Shift(High(b, 8 - k), 8 - k) + Pow2(8 - k) - 1 < 256
  {
    var m := CreateMask8(k);
    assert 255 - m == 256 - Pow2(8 - k) && m == Pow2(8 - k) - 1;
    var w: nat := 8;
    MaskedByte(b, w, w - k);
  }

  /** `b & ~CreateMask(k)`: the low bits cleared. */
  function Cleared(b: byte, k: nat): (c: byte)
    requires k < 8
    ensures c == Shift(High(b, 8 - k), 8 - k)
  {
    ByteMasks(b, k);
    BitAnd(b, 255 - CreateMask8(k))
  }

  /** `b | CreateMask(k)`: the low bits set. */
  function Filled(b: byte, k: nat): (c: byte)
    requires k < 8
    ensures c == Shift(High(b, 8 - k), 8 - k) + Pow2(8 - k) - 1
  {
    ByteMasks(b, k);
    BitOr(b, CreateMask8(k))
  }

  function Network(a: seq<byte>, p: nat): (r: seq<byte>)
    requires |a| == 16 && p < 128
    ensures |r| == 16
  {
    var j := p / 8;
    a[..j] + [Cleared(a[j], p % 8)] + Zeros(15 - j)
  }

  function Broadcast(a: seq<byte>, p: nat): (r: seq<byte>)
    requires |a| == 16 && p < 128
    ensures |r| == 16
  {
    var j := p / 8;
    a[..j] + [Filled(a[j], p % 8)] + Ones(15 - j)
  }

  function SubnetMask(p: nat): (r: seq<byte>)
    requires p < 128
    ensures |r| == 16
  {
    Ones(p / 8) + [255 - CreateMask8(p % 8)] + Zeros(15 - p / 8)
  }

  // ---- values ------------------------------------------------------------------------------

  /** The number of addresses under a prefix. */
  function BlockSize(p: nat): nat
    requires p <= 128
  {
    Pow2(128 - p)
  }

  /** The first `8 * j + k` bits of an address, as a number. */
  function Prefix(a: seq<byte>, j: nat, k: nat): nat
    requires j < |a| && k < 8
  {
    Shift(Value(a[..j]), k) + High(a[j], 8 - k)
  }

  /** Splitting an address at byte `j`. */
  lemma Around(a: seq<byte>, j: nat, c: byte, rest: seq<byte>)
    requires |a| == 16 && j < 16 && |rest| == 15 - j
    ensures Value(a[..j] + [c] + rest) == Shift(Value(a[..j]) * 256 + c, 8 * (15 - j)) + Value(rest)
  {
    var front := a[..j] + [c];
    ValueConcat(front, rest);
    assert front[..j] == a[..j];
  }

  /** Regrouping at the end of the prefix instead of at the byte boundary. */
  lemma Assemble(h: nat, k: nat, m: nat, c: nat, r: nat, n: nat)
    requires Pow2(k + m) == 256
    ensures Shift(h * 256 + (Shift(c, m) + r), n) == Shift(Shift(h, k) + c, m + n) + Shift(r, n)
  {
    var x := Shift(h, k) + c;
    ShiftMul(h, k + m);
    ShiftShift(h, k, m);
    ShiftAdd(Shift(h, k), c, m);
    ShiftAdd(Shift(x, m), r, n);
    ShiftShift(x, m, n);
  }

  /** An address that agrees with `a` on the prefix, with `r` and `rest` below it. */
  lemma BelowPrefix(a: seq<byte>, j: nat, k: nat, c: byte, r: nat, rest: seq<byte>)
    requires |a| == 16 && j < 16 && k < 8 && |rest| == 15 - j
    requires c == Shift(High(a[j], 8 - k), 8 - k) + r
    ensures var n := 8 * (15 - j);
            Value(a[..j] + [c] + rest) == Shift(Prefix(a, j, k), 8 - k + n) + Shift(r, n) + Value(rest)
  {
    Around(a, j, c, rest);
    assert Pow2(8) == 256;
    Assemble(Value(a[..j]), k, 8 - k, High(a[j], 8 - k), r, 8 * (15 - j));
  }

  lemma NetworkValue(a: seq<byte>, j: nat, k: nat, c: byte)
    requires |a| == 16 && j < 16 && k < 8 && c == Shift(High(a[j], 8 - k), 8 - k)
    ensures Value(a[..j] + [c] + Zeros(15 - j)) == Shift(Prefix(a, j, k), 8 - k + 8 * (15 - j))
  {
    BelowPrefix(a, j, k, c, 0, Zeros(15 - j));
    ZerosValue(15 - j);
    ShiftMul(0, 8 * (15 - j));
  }

  lemma BroadcastValue(a: seq<byte>, j: nat, k: nat, c: byte, ones: seq<byte>)
    requires |a| == 16 && j < 16 && k < 8 && c == Shift(High(a[j], 8 - k), 8 - k) + (Pow2(8 - k) - 1)
    requires |ones| == 15 - j && Value(ones) == Pow2(8 * (15 - j)) - 1
    ensures var n := 8 - k + 8 * (15 - j);
            Value(a[..j] + [c] + ones) == Shift(Prefix(a, j, k), n) + Pow2(n) - 1
  {
    var r, n := Pow2(8 - k) - 1, 8 * (15 - j);
    assert Shift(r, n) + Pow2(n) == Pow2(8 - k + n) by { FullBlock(8 - k, n); }
    BelowPrefix(a, j, k, c, r, ones);
  }

  lemma FullBlock(m: nat, n: nat)
    ensures Shift(Pow2(m) - 1, n) + Pow2(n) == Pow2(m + n)
  {
    ShiftAdd(Pow2(m) - 1, 1, n);
    ShiftPow2(m, n);
    ShiftPow2(0, n);
  }

  /** The rest of the address is below the block size. */
  lemma PrefixOf(a: seq<byte>, j: nat, k: nat)
    requires |a| == 16 && j < 16 && k < 8
    ensures var n := 8 - k + 8 * (15 - j);
            Shift(Prefix(a, j, k), n) <= Value(a) < Shift(Prefix(a, j, k), n) + Pow2(n)
  {
    var n := 8 * (15 - j);
    var r := a[j] % Pow2(8 - k);
    HighShift(a[j], 8 - k);
    ModBasics(a[j], Pow2(8 - k));
    assert a == a[..j] + [a[j]] + a[j + 1..];
    BelowPrefix(a, j, k, a[j], r, a[j + 1..]);
    RestBelow(r, 8 - k, n, Value(a[j + 1..])) by { ValueBound(a[j + 1..]); }
  }

  lemma RestBelow(r: nat, m: nat, n: nat, low: nat)
    requires r < Pow2(m) && low < Pow2(n)
    ensures Shift(r, n) + low < Pow2(m + n)
  {
    FullBlock(m, n);
    ShiftAdd(r, Pow2(m) - 1 - r, n);
  }

  /** The number of the network address of `a`. */
  function NetworkNumber(a: seq<byte>, p: nat): nat
    requires p < 128
  {
    Shift(High(Value(a), 128 - p), 128 - p)
  }

  lemma PrefixIsHigh(a: seq<byte>, p: nat)
    requires |a| == 16 && p < 128
    ensures Prefix(a, p / 8, p % 8) == High(Value(a), 128 - p)
  {
    var j, k := p / 8, p % 8;
    assert 8 - k + 8 * (15 - j) == 128 - p;
    PrefixOf(a, j, k);
    HighIff(Value(a), Prefix(a, j, k), 128 - p);
  }

  lemma NetworkBound(a: seq<byte>, p: nat)
    requires |a| == 16 && p < 128
    ensures Value(Network(a, p)) == NetworkNumber(a, p)
  {
    var j, k := p / 8, p % 8;
    assert 8 - k + 8 * (15 - j) == 128 - p;
    NetworkValue(a, j, k, Cleared(a[j], k));
    PrefixIsHigh(a, p);
  }

  lemma BroadcastBound(a: seq<byte>, p: nat)
    requires |a| == 16 && p < 128
    ensures Value(Broadcast(a, p)) == NetworkNumber(a, p) + BlockSize(p) - 1
  {
    BroadcastPrefix(a, p);
    PrefixIsHigh(a, p);
  }

  lemma BroadcastPrefix(a: seq<byte>, p: nat)
    requires |a| == 16 && p < 128
    ensures Value(Broadcast(a, p)) == Shift(Prefix(a, p / 8, p % 8), 128 - p) + BlockSize(p) - 1
  {
    var j, k := p / 8, p % 8;
    assert 8 - k + 8 * (15 - j) == 128 - p;
    OnesValue(15 - j);
    BroadcastValue(a, j, k, Filled(a[j], k), Ones(15 - j));
  }

  /** The member number `i` of the block of `a`, counted from the network address. */
  function Member(a: seq<byte>, p: nat, i: nat): (b: seq<byte>)
    requires |a| == 16 && p < 128
    ensures |b| == |a|
  {
    Denoting(NetworkNumber(a, p) + i, |a|)
  }

  /** Every number below 2^n numbers an address above the prefix `q`, */
  lemma NumberedAbove(q: nat, n: nat, i: nat, len: nat, net: nat)
    requires net == Shift(q, n) && i < Pow2(n) && net + Pow2(n) <= Pow2(8 * len)
    ensures var s := Denoting(net + i, len); Value(s) == net + i && High(Value(s), n) == q
  {
    ValueDenoting(net + i, len);
    HighIff(net + i, q, n);
  }

  /** and every address with that prefix is numbered. */
  lemma NumberOf(q: nat, n: nat, b: seq<byte>, net: nat)
    requires net == Shift(q, n) && High(Value(b), n) == q
    ensures 0 <= Value(b) - net < Pow2(n) && Denoting(net + (Value(b) - net), |b|) == b
  {
    HighIff(Value(b), q, n);
    DenotingValue(b);
  }

  /** The block of `a` has 2^(128 - p) members: the numbers below that number addresses that share the first `p` bits
      of `a`, each a different one, */
  lemma MemberInBlock(a: seq<byte>, p: nat, i: nat)
    requires |a| == 16 && p < 128 && i < BlockSize(p)
    ensures Value(Member(a, p, i)) == NetworkNumber(a, p) + i
    ensures High(Value(Member(a, p, i)), 128 - p) == High(Value(a), 128 - p)
  {
    var q, n, net := High(Value(a), 128 - p), 128 - p, NetworkNumber(a, p);
    assert net + Pow2(n) <= Pow2(8 * |a|) by { TopOfBlock(a, p); }
    NumberedAbove(q, n, i, |a|, net);
  }

  /** and every address that shares them has a number. */
  lemma MemberOfBlock(a: seq<byte>, p: nat, b: seq<byte>)
    requires |a| == 16 && |b| == 16 && p < 128 && High(Value(b), 128 - p) == High(Value(a), 128 - p)
    ensures 0 <= Value(b) - NetworkNumber(a, p) < BlockSize(p)
    ensures Member(a, p, Value(b) - NetworkNumber(a, p)) == b
  {
    NumberOf(High(Value(a), 128 - p), 128 - p, b, NetworkNumber(a, p));
  }

  lemma TopOfBlock(a: seq<byte>, p: nat)
    requires |a| == 16 && p < 128
    ensures NetworkNumber(a, p) + BlockSize(p) <= Pow2(8 * |a|)
  {
    BroadcastBound(a, p);
    ValueBound(Broadcast(a, p));
  }

  /** An address lies between the network and the broadcast address of `a` exactly when it shares the first
      `p` bits of `a`; these are 2^(128 - p) numbers in a row. */
  lemma BlockIsPrefix(a: seq<byte>, b: seq<byte>, p: nat)
    requires |a| == 16 && |b| == 16 && p < 128
    ensures Value(Network(a, p)) <= Value(b) <= Value(Broadcast(a, p))
            <==> High(Value(a), 128 - p) == High(Value(b), 128 - p)
    ensures Value(Broadcast(a, p)) - Value(Network(a, p)) + 1 == BlockSize(p)
  {
    NetworkBound(a, p);
    BroadcastBound(a, p);
    HighIff(Value(b), High(Value(a), 128 - p), 128 - p);
  }

  /** The network address is the address and-ed with the subnet mask, byte by byte. */
  lemma NetworkIsMasked(a: seq<byte>, p: nat, i: nat)
    requires |a| == 16 && p < 128 && i < 16
    ensures Network(a, p)[i] == BitAnd(a[i], SubnetMask(p)[i])
  {
    var j := p / 8;
    if i < j {
      OnesAt(j, i);
      assert Pow2(8) == 256;
      AndOnes(a[i], 8);
    } else if i > j {
      ZerosAt(15 - j, i - j - 1);
    }
  }

  lemma {:induction false} OnesAt(n: nat, i: nat)
    requires i < n
    ensures Ones(n)[i] == 255
  {
    if i < n - 1 {
      OnesAt(n - 1, i);
    }
  }

  lemma {:induction false} ZerosAt(n: nat, i: nat)
    requires i < n
    ensures Zeros(n)[i] == 0
  {
    if i < n - 1 {
      ZerosAt(n - 1, i);
    }
  }

  // ---- the loops over a copy of the address bytes -------------------------------------------

  /** Prefixes from 128 on index past the sixteen address bytes. */
  method NetworkAddress(addr: seq<byte>, p: nat) returns (r: Outcome<seq<byte>>)
    requires |addr| == 16
    ensures r == if p < 128 then Ok(Network(addr, p)) else BadAccess
  {
    if p / 8 >= 16 {
      return BadAccess;
    }
    var j := p / 8;
    var s := new byte[16](i requires 0 <= i < 16 => addr[i]);
    s[j] := Cleared(s[j], p % 8);
    for i := j + 1 to 16
      invariant s[..i] == addr[..j] + [Cleared(addr[j], p % 8)] + Zeros(i - j - 1)
    {
      s[i] := 0;
      assert s[..i + 1] == s[..i] + [0];
    }
    assert s[..] == s[..16];
    r := Ok(s[..]);
  }

  method BroadcastAddress(addr: seq<byte>, p: nat) returns (r: Outcome<seq<byte>>)
    requires |addr| == 16
    ensures r == if p < 128 then Ok(Broadcast(addr, p)) else BadAccess
  {
    if p / 8 >= 16 {
      return BadAccess;
    }
    var j := p / 8;
    var s := new byte[16](i requires 0 <= i < 16 => addr[i]);
    s[j] := Filled(s[j], p % 8);
    for i := j + 1 to 16
      invariant s[..i] == addr[..j] + [Filled(addr[j], p % 8)] + Ones(i - j - 1)
    {
      s[i] := 255;
      assert s[..i + 1] == s[..i] + [255];
    }
    assert s[..] == s[..16];
    r := Ok(s[..]);
  }

  method SubnetMaskAddress(p: nat) returns (r: Outcome<seq<byte>>)
    ensures r == if p < 128 then Ok(SubnetMask(p)) else BadAccess
  {
    if p / 8 >= 16 {
      return BadAccess;
    }
    var j := p / 8;
    var s := new byte[16](i => 0);
    var c: byte := 255 - CreateMask8(p % 8);
    s[j] := c;
    ghost var zeros := Zeros(15 - j);
    forall i | 0 <= i < |zeros| ensures zeros[i] == 0 {
      ZerosAt(15 - j, i);
    }
    assert s[j..] == [c] + Zeros(15 - j);
    for i := 0 to j
      invariant s[..i] == Ones(i)
      invariant s[j..] == [c] + Zeros(15 - j)
    {
      s[i] := 255;
      assert s[..i + 1] == s[..i] + [255];
    }
    assert s[..] == s[..j] + s[j..];
    assert s[..] == Ones(j) + [c] + Zeros(15 - j);
    r := Ok(s[..]);
  }
}
