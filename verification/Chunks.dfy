/** A list of equal-sized chunks read as one flat byte string. */
module Chunks {
  import opened Bytes

  function Concat(cs: seq<seq<byte>>): seq<byte>
  {
    if cs == [] then [] else cs[0] + Concat(cs[1..])
  }

  predicate Uniform(cs: seq<seq<byte>>, b: nat)
  {
    forall i :: 0 <= i < |cs| ==> |cs[i]| == b
  }

  lemma {:induction false} ConcatLength(cs: seq<seq<byte>>, b: nat)
    requires Uniform(cs, b)
    ensures |Concat(cs)| == |cs| * b
  {
    if cs == [] {
    } else {
      ConcatLength(cs[1..], b);
      MulSucc(|cs| - 1, b);
    }
  }

  lemma {:induction false} ConcatSplit(xs: seq<seq<byte>>, ys: seq<seq<byte>>)
    ensures Concat(xs + ys) == Concat(xs) + Concat(ys)
  {
    if xs == [] {
      assert xs + ys == ys;
    } else {
      assert (xs + ys)[1..] == xs[1..] + ys;
      ConcatSplit(xs[1..], ys);
    }
  }

  lemma ConcatOne(c: seq<byte>)
    ensures Concat([c]) == c
  {
    assert [c][1..] == [];
  }

  /** The flat string around chunk `k`. */
  lemma ConcatAround(cs: seq<seq<byte>>, b: nat, k: nat)
    requires Uniform(cs, b) && k < |cs|
    ensures |Concat(cs[..k])| == k * b
    ensures Concat(cs) == Concat(cs[..k]) + cs[k] + Concat(cs[k + 1..])
  {
    ConcatLength(cs[..k], b);
    assert cs == cs[..k] + ([cs[k]] + cs[k + 1..]);
    ConcatSplit(cs[..k], [cs[k]] + cs[k + 1..]);
    ConcatSplit([cs[k]], cs[k + 1..]);
    ConcatOne(cs[k]);
  }

  /** A slice inside one chunk is the flat slice at that chunk's offset. */
  lemma ConcatSlice(cs: seq<seq<byte>>, b: nat, k: nat, off: nat, n: nat)
    requires Uniform(cs, b) && k < |cs| && off + n <= b
    ensures 0 <= k * b && k * b + off + n <= |Concat(cs)|
    ensures Concat(cs)[k * b + off..k * b + off + n] == cs[k][off..off + n]
  {
    ConcatAround(cs, b, k);
    MulNonneg(k, b);
    var p, c, q := Concat(cs[..k]), cs[k], Concat(cs[k + 1..]);
    assert (p + c + q)[|p| + off..|p| + off + n] == c[off..off + n];
  }

  /** Writing inside one chunk is writing to the flat string. */
  lemma ConcatSplice(cs: seq<seq<byte>>, b: nat, k: nat, off: nat, data: seq<byte>)
    requires Uniform(cs, b) && k < |cs| && off + |data| <= b
    ensures 0 <= k * b && k * b + off + |data| <= |Concat(cs)|
    ensures Concat(cs[k := Splice(cs[k], off, data)]) == Splice(Concat(cs), k * b + off, data)
  {
    var ds := cs[k := Splice(cs[k], off, data)];
    ConcatAround(cs, b, k);
    ConcatAround(ds, b, k);
    MulNonneg(k, b);
    assert ds[..k] == cs[..k] && ds[k + 1..] == cs[k + 1..];
    SpliceInside(Concat(cs[..k]), cs[k], Concat(cs[k + 1..]), off, data);
  }

  lemma SpliceInside(p: seq<byte>, c: seq<byte>, q: seq<byte>, off: nat, data: seq<byte>)
    requires off + |data| <= |c|
    ensures Splice(p + c + q, |p| + off, data) == p + Splice(c, off, data) + q
  {
    var s := p + c + q;
    assert s[..|p| + off] == p + c[..off];
    assert s[|p| + off + |data|..] == c[off + |data|..] + q;
  }

  /** Splicing `x` and then `y` right behind it is splicing `x + y`. */
  lemma SpliceSplice(s: seq<byte>, at: nat, x: seq<byte>, y: seq<byte>)
    requires at + |x| + |y| <= |s|
    ensures Splice(Splice(s, at, x), at + |x|, y) == Splice(s, at, x + y)
  {
    var m := Splice(s, at, x);
    assert m[..at + |x|] == s[..at] + x;
    assert m[at + |x| + |y|..] == s[at + |x| + |y|..];
  }

  /** One more round of a copy loop. */
  lemma ExtendSplice(s: seq<byte>, at: nat, buf: seq<byte>, done: nat, n: nat)
    requires at + |buf| <= |s| && done + n <= |buf|
    ensures Splice(Splice(s, at, buf[..done]), at + done, buf[done..done + n]) == Splice(s, at, buf[..done + n])
  {
    SpliceSplice(s, at, buf[..done], buf[done..done + n]);
    assert buf[..done] + buf[done..done + n] == buf[..done + n];
  }

  lemma SliceJoin(s: seq<byte>, i: nat, j: nat, k: nat)
    requires i <= j <= k <= |s|
    ensures s[i..j] + s[j..k] == s[i..k]
  {
  }
}
