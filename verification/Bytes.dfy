/** Bytes, outcomes and the sequence vocabulary shared by every layer. */
module Bytes {

  /** An octet; `uint8_t` and `char` storage alike. */
  type byte = b: int | 0 <= b < 256 witness 0

  /** What a call does: returns, throws `std::out_of_range`, or touches memory it does not own
      (a null chunk pointer, a copy past the end of a string, or chunks that cannot be had). */
  datatype Outcome<+T> = Ok(value: T) | OutOfRange | BadAccess

  datatype Option<+T> = None | Some(value: T)

  /** `data` laid over `s` from index `at` on. */
  function Splice<T>(s: seq<T>, at: nat, data: seq<T>): (r: seq<T>)
    requires at + |data| <= |s|
    ensures |r| == |s|
  {
    s[..at] + data + s[at + |data|..]
  }

  function Octet(c: char): byte
  {
    c as int % 256
  }

  /** The number a byte string denotes in network order. */
  function Value(s: seq<byte>): nat
  {
    if s == [] then 0 else Value(s[..|s| - 1]) * 256 + s[|s| - 1]
  }

  /** The bytes of an ASCII literal. */
  function Ascii(s: string): seq<byte>
  {
    seq(|s|, i requires 0 <= i < |s| => Octet(s[i]))
  }

  function Max(a: int, b: int): (m: int)
    ensures m == a || m == b
    ensures m >= a && m >= b
  {
    if a >= b then a else b
  }

  function Min(a: int, b: int): (m: int)
    ensures m == a || m == b
    ensures m <= a && m <= b
  {
    if a <= b then a else b
  }

  function Pow2(n: nat): (p: nat)
    ensures p >= 1
  {
    if n == 0 then 1 else 2 * Pow2(n - 1)
  }

  lemma {:induction false} Pow2Add(a: nat, b: nat)
    ensures Pow2(a + b) == Pow2(a) * Pow2(b)
  {
    if a == 0 {
    } else {
      Pow2Add(a - 1, b);
      assert Pow2(a + b) == 2 * Pow2(a - 1 + b);
    }
  }

  lemma {:induction false} Pow2Monotone(a: nat, b: nat)
    requires a <= b
    ensures Pow2(a) <= Pow2(b)
  {
    Pow2Add(a, b - a);
    MulMonotone(1, Pow2(b - a), Pow2(a));
  }

  lemma MulMonotone(a: int, b: int, c: int)
    requires a <= b && 0 <= c
    ensures a * c <= b * c
  {
  }

  /** Quotient and remainder are determined by the decomposition. */
  lemma DivUnique(x: int, b: int, q: int, r: int)
    requires b > 0 && 0 <= r < b && x == q * b + r
    ensures x / b == q && x % b == r
  {
    var d := x / b - q;
    assert x == (x / b) * b + x % b;
    assert d * b == r - x % b by {
      assert d * b == (x / b) * b - q * b;
    }
    if d >= 1 {
      MulMonotone(1, d, b);
    } else if d <= -1 {
      MulMonotone(d, -1, b);
    }
  }

  lemma DivBasics(x: nat, b: nat)
    requires b > 0
    ensures x == (x / b) * b + x % b && 0 <= x % b < b && 0 <= x / b
  {
  }

  lemma ModBasics(x: int, b: nat)
    requires b > 0
    ensures 0 <= x % b < b
  {
  }

  /** Which of `k` blocks of size `b` holds `x`. */
  lemma BlockOf(x: nat, k: nat, b: nat)
    requires b > 0 && x <= k * b
    ensures x < k * b ==> x / b < k
    ensures x == k * b ==> x / b == k && x % b == 0
  {
    if x == k * b {
      DivUnique(x, b, k, 0);
    } else if x / b >= k {
      DivBasics(x, b);
      MulMonotone(k, x / b, b);
    }
  }

  lemma QuotientBelow(x: nat, k: nat, b: nat)
    requires b > 0
    ensures x / b < k <==> x < k * b
  {
    DivBasics(x, b);
    if x / b < k {
      MulMonotone(x / b + 1, k, b);
      MulSucc(x / b, b);
    } else {
      MulMonotone(k, x / b, b);
    }
  }

  /** A multiple plus a full `b` is the next multiple. */
  lemma MulSucc(k: int, b: int)
    ensures (k + 1) * b == k * b + b
  {
  }

  lemma MulNonneg(k: nat, b: nat)
    ensures 0 <= k * b
  {
  }

  function Sum(sizes: seq<nat>): nat
  {
    if sizes == [] then 0 else sizes[0] + Sum(sizes[1..])
  }

  lemma Associative<T>(x: seq<T>, y: seq<T>, z: seq<T>)
    ensures x + (y + z) == (x + y) + z
  {
  }
}
