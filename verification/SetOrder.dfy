/** The order of `std::set` elements is the one its element type has, and a set keeps its elements in it. */
module SetOrder {
  import opened Bytes
  import opened Codec
  import opened SerialModel

  // ---- what the order is -------------------------------------------------------------------

  /** Numbers by value, false before true. */
  lemma ScalarOrder(x: int, y: int, p: bool, q: bool)
    ensures Less(VInt(x), VInt(y)) <==> x < y
    ensures Less(VBool(p), VBool(q)) <==> !p && q
  {
  }

  /** Two sequences first differ at `k`, where `x` is smaller or at its end. */
  ghost predicate BytesDiffer(x: seq<byte>, y: seq<byte>, k: nat)
  {
    k <= |x| && k < |y| && x[..k] == y[..k] && (k < |x| ==> x[k] < y[k])
  }

  lemma SameHead<T>(x: seq<T>, y: seq<T>, k: nat)
    requires 0 < k <= |x| && k <= |y| && x[..k] == y[..k]
    ensures x[0] == y[0]
  {
    assert x[..k][0] == y[..k][0];
  }

  /** Strings by the first byte in which they differ, a prefix before what it begins. */
  lemma {:induction false} BytesOrder(x: seq<byte>, y: seq<byte>)
    ensures BytesLess(x, y) <==> exists k: nat :: BytesDiffer(x, y, k)
  {
    if x != [] && y != [] && x[0] == y[0] {
      BytesOrder(x[1..], y[1..]);
      if k: nat :| BytesDiffer(x[1..], y[1..], k) {
        assert x[..k + 1] == [x[0]] + x[1..][..k] && y[..k + 1] == [y[0]] + y[1..][..k];
        assert BytesDiffer(x, y, k + 1);
      }
      if k: nat :| BytesDiffer(x, y, k) {
        assert k > 0;
        assert x[1..][..k - 1] == x[..k][1..] && y[1..][..k - 1] == y[..k][1..];
        assert BytesDiffer(x[1..], y[1..], k - 1);
      }
    } else if y != [] {
      assert BytesDiffer(x, y, 0) <==> x == [] || x[0] < y[0];
      forall k: nat | BytesDiffer(x, y, k) ensures k == 0 {
        if k > 0 {
          SameHead(x, y, k);
        }
      }
    }
  }

  ghost predicate SeqsDiffer(x: seq<Val>, y: seq<Val>, k: nat)
  {
    k <= |x| && k < |y| && x[..k] == y[..k] && (k < |x| ==> Less(x[k], y[k]))
  }

  /** Containers by the first element in which they differ. */
  lemma {:induction false} ContainerOrder(x: seq<Val>, y: seq<Val>)
    ensures Less(VSeq(x), VSeq(y)) <==> exists k: nat :: SeqsDiffer(x, y, k)
  {
    if x != [] && y != [] && x[0] == y[0] {
      Irreflexive(x[0]);
      ContainerOrder(x[1..], y[1..]);
      if k: nat :| SeqsDiffer(x[1..], y[1..], k) {
        assert x[..k + 1] == [x[0]] + x[1..][..k] && y[..k + 1] == [y[0]] + y[1..][..k];
        assert SeqsDiffer(x, y, k + 1);
      }
      if k: nat :| SeqsDiffer(x, y, k) {
        assert k > 0;
        assert x[1..][..k - 1] == x[..k][1..] && y[1..][..k - 1] == y[..k][1..];
        assert SeqsDiffer(x[1..], y[1..], k - 1);
      }
    } else if y != [] {
      assert SeqsDiffer(x, y, 0) <==> x == [] || Less(x[0], y[0]);
      forall k: nat | SeqsDiffer(x, y, k) ensures k == 0 {
        if k > 0 {
          SameHead(x, y, k);
        }
      }
    }
  }

  lemma Irreflexive(a: Val)
    ensures !Less(a, a)
  {
    if Less(a, a) {
      LessAsymmetric(a, a);
    }
  }

  // ---- it is a strict total order ----------------------------------------------------------

  lemma {:induction false} BytesTransitive(x: seq<byte>, y: seq<byte>, z: seq<byte>)
    requires BytesLess(x, y) && BytesLess(y, z)
    ensures BytesLess(x, z)
  {
    if x != [] && x[0] == y[0] == z[0] {
      BytesTransitive(x[1..], y[1..], z[1..]);
    }
  }

  lemma {:induction false} LessTransitive(a: Val, b: Val, c: Val)
    requires Less(a, b) && Less(b, c)
    ensures Less(a, c)
    decreases a, 0
  {
    match a
    case VString(x) => BytesTransitive(x, b.s, c.s);
    case VSeq(x) => SeqTransitive(x, b.vs, c.vs);
    case _ =>
  }

  lemma {:induction false} SeqTransitive(x: seq<Val>, y: seq<Val>, z: seq<Val>)
    requires SeqLess(x, y) && SeqLess(y, z)
    ensures SeqLess(x, z)
    decreases x, 1
  {
    if x != [] {
      if Less(x[0], y[0]) && Less(y[0], z[0]) {
        LessTransitive(x[0], y[0], z[0]);
      } else if x[0] == y[0] == z[0] {
        SeqTransitive(x[1..], y[1..], z[1..]);
      }
    }
  }

  /** A value built as its type says, whatever its numbers and lengths are. */
  predicate Shaped(v: Val, t: Ty)
    decreases t, 0
  {
    match t
    case TBool => v.VBool?
    case TFloat | TDouble => v.VBits?
    case TString => v.VString?
    case TVector(e) => v.VSeq? && AllShaped(v.vs, e)
    case TList(e) => v.VSeq? && AllShaped(v.vs, e)
    case TSet(e) => v.VSeq? && AllShaped(v.vs, e)
    case TTuple(ts) => v.VSeq? && ItemsShaped(v.vs, ts)
    case _ => v.VInt?
  }

  predicate AllShaped(vs: seq<Val>, e: Ty)
    decreases e, 1
  {
    forall i :: 0 <= i < |vs| ==> Shaped(vs[i], e)
  }

  predicate ItemsShaped(vs: seq<Val>, ts: seq<Ty>)
    decreases ts, 0
  {
    if ts == [] then vs == [] else vs != [] && Shaped(vs[0], ts[0]) && ItemsShaped(vs[1..], ts[1..])
  }

  lemma {:induction false} BytesTotal(x: seq<byte>, y: seq<byte>)
    ensures BytesLess(x, y) || x == y || BytesLess(y, x)
  {
    if x != [] && y != [] && x[0] == y[0] {
      BytesTotal(x[1..], y[1..]);
      assert x == [x[0]] + x[1..] && y == [y[0]] + y[1..];
    }
  }

  /** Of two values of an ordered type one is smaller or they are the same. */
  lemma {:induction false} LessTotal(a: Val, b: Val, t: Ty)
    requires Ordered(t) && Shaped(a, t) && Shaped(b, t)
    ensures Less(a, b) || a == b || Less(b, a)
    decreases t, 0
  {
    match t
    case TString => BytesTotal(a.s, b.s);
    case TVector(e) => AllTotal(a.vs, b.vs, e);
    case TList(e) => AllTotal(a.vs, b.vs, e);
    case TSet(e) => AllTotal(a.vs, b.vs, e);
    case TTuple(ts) => ItemsTotal(a.vs, b.vs, ts);
    case _ =>
  }

  lemma {:induction false} AllTotal(x: seq<Val>, y: seq<Val>, e: Ty)
    requires Ordered(e) && AllShaped(x, e) && AllShaped(y, e)
    ensures SeqLess(x, y) || x == y || SeqLess(y, x)
    decreases e, 1, |x|
  {
    if x != [] && y != [] {
      LessTotal(x[0], y[0], e);
      if x[0] == y[0] {
        AllTotal(x[1..], y[1..], e);
        assert x == [x[0]] + x[1..] && y == [y[0]] + y[1..];
      }
    }
  }

  lemma {:induction false} ItemsTotal(x: seq<Val>, y: seq<Val>, ts: seq<Ty>)
    requires (forall i :: 0 <= i < |ts| ==> Ordered(ts[i])) && ItemsShaped(x, ts) && ItemsShaped(y, ts)
    ensures SeqLess(x, y) || x == y || SeqLess(y, x)
    decreases ts, 0
  {
    if ts != [] {
      LessTotal(x[0], y[0], ts[0]);
      if x[0] == y[0] {
        ItemsTotal(x[1..], y[1..], ts[1..]);
        assert x == [x[0]] + x[1..] && y == [y[0]] + y[1..];
      }
    }
  }

  /** Exactly one of smaller, same and greater. */
  lemma Trichotomy(a: Val, b: Val, t: Ty)
    requires Ordered(t) && Shaped(a, t) && Shaped(b, t)
    ensures Less(a, b) <==> a != b && !Less(b, a)
    ensures Less(b, a) <==> a != b && !Less(a, b)
  {
    LessTotal(a, b, t);
    Irreflexive(a);
    if Less(a, b) {
      LessAsymmetric(a, b);
    }
  }

  // ---- insertion ---------------------------------------------------------------------------

  /** Inserting keeps the order and adds the value and nothing else. */
  lemma {:induction false} InsertKeeps(s: seq<Val>, v: Val, t: Ty)
    requires Ordered(t) && Increasing(s) && AllShaped(s, t) && Shaped(v, t)
    ensures Increasing(Insert(s, v)) && AllShaped(Insert(s, v), t)
    ensures forall x :: x in Insert(s, v) <==> x in s || x == v
  {
    if s != [] {
      Trichotomy(v, s[0], t);
      assert s == [s[0]] + s[1..];
      if Less(v, s[0]) {
        forall i | 1 <= i < |s| ensures Less(v, s[i]) {
          LessTransitive(v, s[0], s[i]);
        }
      } else if Less(s[0], v) {
        InsertKeeps(s[1..], v, t);
        InFront(s[0], Insert(s[1..], v));
      }
    }
  }

  lemma InFront(x: Val, s: seq<Val>)
    requires Increasing(s) && forall y :: y in s ==> Less(x, y)
    ensures Increasing([x] + s)
  {
    forall i, j | 0 <= i < j < |[x] + s| ensures Less(([x] + s)[i], ([x] + s)[j]) {
      if i == 0 {
        assert ([x] + s)[j] in s;
      }
    }
  }

  // ---- sets of typed values ----------------------------------------------------------------

  /** Values of a type are built as it says. */
  lemma {:induction false} TypedShaped(v: Val, t: Ty)
    requires HasType(v, t)
    ensures Shaped(v, t)
    decreases t, 0
  {
    match t
    case TVector(e) => AllTypedShaped(v.vs, e);
    case TList(e) => AllTypedShaped(v.vs, e);
    case TSet(e) => AllTypedShaped(v.vs, e);
    case TTuple(ts) => ItemsTypedShaped(v.vs, ts);
    case _ =>
  }

  lemma {:induction false} AllTypedShaped(vs: seq<Val>, e: Ty)
    requires AllTyped(vs, e)
    ensures AllShaped(vs, e)
    decreases e, 1
  {
    forall i | 0 <= i < |vs| ensures Shaped(vs[i], e) {
      TypedShaped(vs[i], e);
    }
  }

  lemma {:induction false} ItemsTypedShaped(vs: seq<Val>, ts: seq<Ty>)
    requires ItemsTyped(vs, ts)
    ensures ItemsShaped(vs, ts)
    decreases ts, 0
  {
    if ts != [] {
      TypedShaped(vs[0], ts[0]);
      ItemsTypedShaped(vs[1..], ts[1..]);
    }
  }

  /** The values inserted one after the other into an empty set. */
  function Gathered(vs: seq<Val>): seq<Val>
  {
    if vs == [] then [] else Insert(Gathered(vs[..|vs| - 1]), vs[|vs| - 1])
  }

  lemma {:induction false} GatheredKeeps(vs: seq<Val>, e: Ty)
    requires Ordered(e) && AllTyped(vs, e)
    ensures Increasing(Gathered(vs)) && AllShaped(Gathered(vs), e) && |Gathered(vs)| <= |vs|
    ensures forall x :: x in Gathered(vs) <==> x in vs
  {
    if vs != [] {
      var n := |vs| - 1;
      GatheredKeeps(vs[..n], e);
      TypedShaped(vs[n], e);
      InsertKeeps(Gathered(vs[..n]), vs[n], e);
      InsertLength(Gathered(vs[..n]), vs[n]);
      assert vs == vs[..n] + [vs[n]];
    }
  }

  lemma {:induction false} InsertLength(s: seq<Val>, v: Val)
    ensures |Insert(s, v)| <= |s| + 1
  {
    if s != [] {
      InsertLength(s[1..], v);
    }
  }

  /** Any values of an ordered type make a set, in whatever order they are inserted and however often: it has the set's
      type and holds exactly them. */
  lemma AnyValuesMakeASet(vs: seq<Val>, e: Ty, t: Ty)
    requires t == TSet(e) && Ordered(e) && AllTyped(vs, e) && |vs| < Pow2(BitWidth(t))
    ensures HasType(VSeq(Gathered(vs)), t)
    ensures forall x :: x in Gathered(vs) <==> x in vs
  {
    GatheredKeeps(vs, e);
    var g := Gathered(vs);
    forall i | 0 <= i < |g| ensures HasType(g[i], e) {
      assert g[i] in vs;
    }
    assert AllTyped(g, e);
  }

  /** And only one increasing sequence holds them, so equal sets are equal values and have the same bytes. */
  lemma {:induction false} OneArrangement(x: seq<Val>, y: seq<Val>)
    requires Increasing(x) && Increasing(y) && forall v :: v in x <==> v in y
    ensures x == y
  {
    if x == [] {
      HasElement(y);
    } else {
      assert x[0] in y && (y != [] ==> y[0] in x);
      if x[0] != y[0] {
        LessAsymmetric(x[0], y[0]);
        assert false;
      }
      TailsAgree(x, y);
      OneArrangement(x[1..], y[1..]);
      assert x == [x[0]] + x[1..] && y == [y[0]] + y[1..];
    }
  }

  lemma HasElement<T>(y: seq<T>)
    ensures y == [] || exists v :: v in y
  {
    if y != [] {
      assert y[0] in y;
    }
  }

  lemma TailsAgree(x: seq<Val>, y: seq<Val>)
    requires Increasing(x) && Increasing(y) && (forall v :: v in x <==> v in y)
    requires x != [] && y != [] && x[0] == y[0]
    ensures Increasing(x[1..]) && Increasing(y[1..]) && forall v :: v in x[1..] <==> v in y[1..]
  {
    forall v ensures v in x[1..] <==> v in x && v != x[0] {
      TailHolds(x, v);
    }
    forall v ensures v in y[1..] <==> v in y && v != y[0] {
      TailHolds(y, v);
    }
  }

  lemma TailHolds(s: seq<Val>, v: Val)
    requires Increasing(s) && s != []
    ensures v in s[1..] <==> v in s && v != s[0]
  {
    Irreflexive(s[0]);
    assert s == [s[0]] + s[1..];
  }

  // ---- decoding ----------------------------------------------------------------------------

  /** Whatever the bytes, what decodes is built as the type says. */
  lemma {:induction false} DecodeShaped(t: Ty, s: seq<byte>, little: bool)
    ensures Decode(t, s, little).Parsed? ==> Shaped(Decode(t, s, little).value, t)
    decreases t, 0
  {
    if t.TTuple? {
      TupleDecode(t, s, little);
      ItemsDecodeShaped(t.items, s, little);
    } else if t.TVector? || t.TList? || t.TSet? {
      ContainerDecode(t, s, little);
      var c := ParseVarint(s, 0, 64, 0);
      if c.Parsed? {
        AllDecodeShaped(t.elem, c.value, c.rest, little, [], t.TSet?);
      }
    }
  }

  lemma {:induction false} AllDecodeShaped(e: Ty, n: nat, s: seq<byte>, little: bool, acc: seq<Val>, isSet: bool)
    requires AllShaped(acc, e)
    ensures DecodeAll(e, n, s, little, acc, isSet).Parsed? ==> AllShaped(DecodeAll(e, n, s, little, acc, isSet).value, e)
    decreases e, 1, n
  {
    if n > 0 {
      DecodeShaped(e, s, little);
      var p := Decode(e, s, little);
      if p.Parsed? {
        InsertShaped(acc, p.value, e);
        AllDecodeShaped(e, n - 1, p.rest, little, Added(acc, p.value, isSet), isSet);
      }
    }
  }

  lemma {:induction false} InsertShaped(s: seq<Val>, v: Val, e: Ty)
    requires AllShaped(s, e) && Shaped(v, e)
    ensures AllShaped(Insert(s, v), e)
  {
    if s != [] {
      InsertShaped(s[1..], v, e);
    }
  }

  lemma {:induction false} ItemsDecodeShaped(ts: seq<Ty>, s: seq<byte>, little: bool)
    ensures DecodeItems(ts, s, little).Parsed? ==> ItemsShaped(DecodeItems(ts, s, little).value, ts)
    decreases ts, 0
  {
    if ts != [] {
      DecodeShaped(ts[0], s, little);
      var p := Decode(ts[0], s, little);
      if p.Parsed? {
        ItemsDecodeShaped(ts[1..], p.rest, little);
        var q := DecodeItems(ts[1..], p.rest, little);
        if q.Parsed? {
          assert ([p.value] + q.value)[1..] == q.value;
        }
      }
    }
  }

  /** A set decoded next to a list from the same bytes: it holds what the list holds, in order and once each. */
  lemma {:induction false} SetAlong(e: Ty, n: nat, s: seq<byte>, little: bool, set0: seq<Val>, list0: seq<Val>)
    requires Ordered(e) && Increasing(set0) && AllShaped(set0, e) && forall x :: x in set0 <==> x in list0
    ensures var p, q := DecodeAll(e, n, s, little, list0, false), DecodeAll(e, n, s, little, set0, true);
            && (p.Parsed? <==> q.Parsed?)
            && (p.Parsed? ==> q.rest == p.rest && Increasing(q.value) && forall x :: x in q.value <==> x in p.value)
    decreases n
  {
    if n > 0 {
      DecodeShaped(e, s, little);
      var p := Decode(e, s, little);
      if p.Parsed? {
        InsertKeeps(set0, p.value, e);
        SetAlong(e, n - 1, p.rest, little, Insert(set0, p.value), list0 + [p.value]);
      }
    }
  }

  /** Decoding a set yields, in increasing order and without repetition, exactly the values on the wire, in whatever
      order they come; and it fails, or leaves, exactly what decoding a vector of them does. */
  lemma DecodedSet(e: Ty, s: seq<byte>, little: bool)
    requires Ordered(e)
    ensures var p, q := Decode(TVector(e), s, little), Decode(TSet(e), s, little);
            && (p.Parsed? <==> q.Parsed?)
            && (p.Parsed? ==>
                  && p.value.VSeq? && q.value.VSeq? && q.rest == p.rest
                  && Increasing(q.value.vs) && forall x :: x in q.value.vs <==> x in p.value.vs)
  {
    var t, u := TVector(e), TSet(e);
    ContainerDecode(t, s, little);
    ContainerDecode(u, s, little);
    var c := ParseVarint(s, 0, 64, 0);
    if c.Parsed? {
      SetAlong(e, c.value, c.rest, little, [], []);
    }
  }

  /** An increasing sequence has no element twice. */
  lemma IncreasingOnce(s: seq<Val>, i: nat, j: nat)
    requires Increasing(s) && i < |s| && j < |s| && s[i] == s[j]
    ensures i == j
  {
    Irreflexive(s[i]);
  }
}
