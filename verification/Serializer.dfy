/** `Serializer`: typed values in and out of a `ByteArray`. */
module Serializers {
  import opened Bytes
  import opened BufferModel
  import opened ByteBuffer
  import opened BufferCodec
  import opened Codec
  import opened SerialModel

  // ---- the reader on the buffer view -------------------------------------------------------

  function AsScalarV(t: Ty, s: Step<nat>): Step<Val>
  {
    match s.outcome
    case Ok(n) => Step(Ok(Scalar(t, n)), s.view)
    case OutOfRange => Step(OutOfRange, s.view)
    case BadAccess => Step(BadAccess, s.view)
  }

  function AsStringV(s: Step<seq<byte>>): Step<Val>
  {
    match s.outcome
    case Ok(b) => Step(Ok(VString(b)), s.view)
    case OutOfRange => Step(OutOfRange, s.view)
    case BadAccess => Step(BadAccess, s.view)
  }

  function AsSeqV(s: Step<seq<Val>>): Step<Val>
  {
    match s.outcome
    case Ok(vs) => Step(Ok(VSeq(vs)), s.view)
    case OutOfRange => Step(OutOfRange, s.view)
    case BadAccess => Step(BadAccess, s.view)
  }

  function DecodeV(t: Ty, v: View, little: bool): (s: Step<Val>)
    requires v.Valid()
    ensures s.view.Valid()
    decreases t, 0
  {
    if IsFixed(t) then AsScalarV(t, FixedV(v, FixedWidth(t), little))
    else if IsVarint(t) then AsScalarV(t, VarintV(v, 0, VarintWidth(t), 0))
    else if t.TString? then AsStringV(StringVintV(v))
    else if t.TTuple? then AsSeqV(DecodeItemsV(t.items, v, little, []))
    else AsSeqV(DecodeCountedV(t.elem, v, little, t.TSet?))
  }

  /** A size, then that many elements. */
  function DecodeCountedV(e: Ty, v: View, little: bool, isSet: bool): (s: Step<seq<Val>>)
    requires v.Valid()
    ensures s.view.Valid()
    decreases e, 2, 0
  {
    var c := VarintV(v, 0, 64, 0);
    match c.outcome
    case Ok(n) => DecodeAllV(e, n, c.view, little, [], isSet)
    case OutOfRange => Step(OutOfRange, c.view)
    case BadAccess => Step(BadAccess, c.view)
  }

  function DecodeAllV(e: Ty, n: nat, v: View, little: bool, acc: seq<Val>, isSet: bool): (s: Step<seq<Val>>)
    requires v.Valid()
    ensures s.view.Valid()
    decreases e, 1, n
  {
    if n == 0 then Step(Ok(acc), v)
    else
      var x := DecodeV(e, v, little);
      match x.outcome
      case Ok(y) => DecodeAllV(e, n - 1, x.view, little, Added(acc, y, isSet), isSet)
      case OutOfRange => Step(OutOfRange, x.view)
      case BadAccess => Step(BadAccess, x.view)
  }

  function DecodeItemsV(ts: seq<Ty>, v: View, little: bool, acc: seq<Val>): (s: Step<seq<Val>>)
    requires v.Valid()
    ensures s.view.Valid()
    decreases ts, 0
  {
    if ts == [] then Step(Ok(acc), v)
    else
      var x := DecodeV(ts[0], v, little);
      match x.outcome
      case Ok(y) => DecodeItemsV(ts[1..], x.view, little, acc + [y])
      case OutOfRange => Step(OutOfRange, x.view)
      case BadAccess => Step(BadAccess, x.view)
  }

  /** Inside one chunk the buffer reader is the flat decoder, for every type and every input,
      malformed ones included. */
  lemma {:induction false} DecodeAgrees(t: Ty, v: View, little: bool)
    requires SameChunk(v)
    ensures Agrees(v, DecodeV(t, v, little), Decode(t, v.Unread(), little))
    decreases t, 0
  {
    if t.TTuple? {
      ItemsAgree(t.items, v, little, []);
      assert forall vs: seq<Val> :: [] + vs == vs;
      TupleReader(t, v, little);
      TupleDecode(t, v.Unread(), little);
      SeqAgrees(v, DecodeItemsV(t.items, v, little, []), DecodeItems(t.items, v.Unread(), little));
    } else if t.TVector? || t.TList? || t.TSet? {
      CountedAgree(t.elem, v, little, t.TSet?);
      ContainerReader(t, v, little);
      ContainerDecode(t, v.Unread(), little);
      SeqAgrees(v, DecodeCountedV(t.elem, v, little, t.TSet?), DecodeCounted(t.elem, v.Unread(), little, t.TSet?));
    } else {
      ScalarAgrees(t, v, little);
    }
  }

  lemma TupleReader(t: Ty, u: View, little: bool)
    requires t.TTuple? && u.Valid()
    ensures DecodeV(t, u, little) == AsSeqV(DecodeItemsV(t.items, u, little, []))
  {
    var c := AsSeqV(DecodeItemsV(t.items, u, little, []));
    assert !IsFixed(t) && !IsVarint(t);
    assert DecodeV(t, u, little) == c;
  }

  lemma ContainerReader(t: Ty, u: View, little: bool)
    requires (t.TVector? || t.TList? || t.TSet?) && u.Valid()
    ensures DecodeV(t, u, little) == AsSeqV(DecodeCountedV(t.elem, u, little, t.TSet?))
  {
    var c := AsSeqV(DecodeCountedV(t.elem, u, little, t.TSet?));
    assert !IsFixed(t) && !IsVarint(t);
    assert DecodeV(t, u, little) == c;
  }

  lemma SeqAgrees(v: View, s: Step<seq<Val>>, p: Parsed<seq<Val>>)
    requires Agrees(v, s, p)
    ensures Agrees(v, AsSeqV(s), AsSeq(p))
  {
  }

  lemma ScalarAgrees(t: Ty, v: View, little: bool)
    requires SameChunk(v) && (IsFixed(t) || IsVarint(t) || t.TString?)
    ensures Agrees(v, DecodeV(t, v, little), Decode(t, v.Unread(), little))
  {
    if IsFixed(t) {
      FixedAgrees(v, FixedWidth(t), little);
    } else if IsVarint(t) {
      VarintAgrees(v, 0, VarintWidth(t), 0);
    } else {
      StringVintAgrees(v);
    }
  }

  lemma {:induction false} CountedAgree(e: Ty, v: View, little: bool, isSet: bool)
    requires SameChunk(v)
    ensures Agrees(v, DecodeCountedV(e, v, little, isSet), DecodeCounted(e, v.Unread(), little, isSet))
    decreases e, 2, 0
  {
    VarintAgrees(v, 0, 64, 0);
    var c := VarintV(v, 0, 64, 0);
    if c.outcome.Ok? {
      AllAgree(e, c.outcome.value, c.view, little, [], isSet);
      AgreesChain(v, c.view, DecodeAllV(e, c.outcome.value, c.view, little, [], isSet),
                  DecodeAll(e, c.outcome.value, c.view.Unread(), little, [], isSet));
    }
  }

  lemma {:induction false} AllAgree(e: Ty, n: nat, v: View, little: bool, acc: seq<Val>, isSet: bool)
    requires SameChunk(v)
    ensures Agrees(v, DecodeAllV(e, n, v, little, acc, isSet), DecodeAll(e, n, v.Unread(), little, acc, isSet))
    decreases e, 1, n
  {
    if n > 0 {
      var x := DecodeV(e, v, little);
      DecodeAgrees(e, v, little);
      if x.outcome.Ok? {
        AllAgree(e, n - 1, x.view, little, Added(acc, x.outcome.value, isSet), isSet);
      }
      AllAgreeStep(e, n, v, little, acc, isSet, x, Decode(e, v.Unread(), little));
    }
  }

  lemma AllAgreeStep(e: Ty, n: nat, v: View, little: bool, acc: seq<Val>, isSet: bool, x: Step<Val>, p: Parsed<Val>)
    requires n > 0 && SameChunk(v) && Agrees(v, x, p)
    requires x == DecodeV(e, v, little) && p == Decode(e, v.Unread(), little)
    requires p.Parsed? ==>
               var next := Added(acc, p.value, isSet);
               Agrees(x.view, DecodeAllV(e, n - 1, x.view, little, next, isSet), DecodeAll(e, n - 1, p.rest, little, next, isSet))
    ensures Agrees(v, DecodeAllV(e, n, v, little, acc, isSet), DecodeAll(e, n, v.Unread(), little, acc, isSet))
  {
    AllUnfold(e, n, v, little, acc, isSet);
    if p.Parsed? {
      var next := Added(acc, p.value, isSet);
      var s, q := DecodeAllV(e, n - 1, x.view, little, next, isSet), DecodeAll(e, n - 1, p.rest, little, next, isSet);
      assert DecodeAll(e, n, v.Unread(), little, acc, isSet) == q;
      AgreesChain(v, x.view, s, q);
    }
  }

  lemma AgreesChain<T>(v: View, w: View, s: Step<T>, p: Parsed<T>)
    requires Moved(v, w) && Agrees(w, s, p)
    ensures Agrees(v, s, p)
  {
  }

  lemma AllDone(e: Ty, v: View, little: bool, acc: seq<Val>, isSet: bool)
    requires v.Valid()
    ensures DecodeAllV(e, 0, v, little, acc, isSet) == Step(Ok(acc), v)
  {
  }

  /** Decoding `n` more elements behind `data` yields `goal`. */
  ghost predicate Awaits(e: Ty, n: nat, v: View, little: bool, data: seq<Val>, isSet: bool, goal: Step<seq<Val>>)
  {
    v.Valid() && goal == DecodeAllV(e, n, v, little, data, isSet)
  }

  lemma AwaitsNext(e: Ty, n: nat, v: View, little: bool, data: seq<Val>, isSet: bool, goal: Step<seq<Val>>, x: Step<Val>)
    requires n > 0 && Awaits(e, n, v, little, data, isSet, goal) && x == DecodeV(e, v, little)
    ensures if x.outcome.Ok? then Awaits(e, n - 1, x.view, little, Added(data, x.outcome.value, isSet), isSet, goal)
            else goal == Step(if x.outcome.OutOfRange? then OutOfRange else BadAccess, x.view)
  {
    AllUnfold(e, n, v, little, data, isSet);
  }

  lemma AwaitsNone(e: Ty, v: View, little: bool, data: seq<Val>, isSet: bool, goal: Step<seq<Val>>)
    requires Awaits(e, 0, v, little, data, isSet, goal)
    ensures goal == Step(Ok(data), v)
  {
    AllDone(e, v, little, data, isSet);
  }

  lemma AllUnfold(e: Ty, n: nat, v: View, little: bool, acc: seq<Val>, isSet: bool)
    requires v.Valid() && n > 0
    ensures var x := DecodeV(e, v, little);
            DecodeAllV(e, n, v, little, acc, isSet)
            == if x.outcome.Ok? then DecodeAllV(e, n - 1, x.view, little, Added(acc, x.outcome.value, isSet), isSet)
               else Step(if x.outcome.OutOfRange? then OutOfRange else BadAccess, x.view)
  {
  }

  /** The buffer reader threads the finished items through. */
  lemma {:induction false} ItemsAgree(ts: seq<Ty>, v: View, little: bool, acc: seq<Val>)
    requires SameChunk(v)
    ensures Agrees(v, DecodeItemsV(ts, v, little, acc),
                   match DecodeItems(ts, v.Unread(), little)
                   case Parsed(vs, rest) => Parsed(acc + vs, rest)
                   case Short => Short)
    decreases ts, 0
  {
    if ts == [] {
      assert acc + [] == acc;
    } else {
      DecodeAgrees(ts[0], v, little);
      var x := DecodeV(ts[0], v, little);
      if x.outcome.Ok? {
        var y := x.outcome.value;
        ItemsAgree(ts[1..], x.view, little, acc + [y]);
        assert forall vs: seq<Val> :: acc + ([y] + vs) == (acc + [y]) + vs;
      }
    }
  }

  lemma UnreadIsCode(a: View, w: View, code: seq<byte>)
    requires Appended(a, w, code)
    ensures AfterSetPosition(w, a.pos).Unread() == code + w.flat[w.pos..w.size]
  {
    assert w.flat[a.pos..w.pos] == w.Written()[a.pos..];
    assert w.Written()[a.pos..] == code;
    assert w.flat[a.pos..w.size] == w.flat[a.pos..w.pos] + w.flat[w.pos..w.size];
  }

  // ---- the class ---------------------------------------------------------------------------

  class Serializer {
    const bt: ByteArray

    ghost predicate Valid()
      reads this, bt, bt.Repr
    {
      bt.Valid()
    }

    /** An empty buffer of `base`-byte chunks. */
    constructor (base: nat)
      requires base > 0
      ensures Valid() && fresh(bt) && fresh(bt.Repr) && !bt.little
      ensures bt.Model().pos == 0 == bt.Model().size && bt.Model().lag == 0 && bt.Model().base == base
    {
      bt := new ByteArray(base);
    }

    /** A buffer that holds `data`, rewound. */
    constructor FromData(base: nat, data: seq<byte>)
      requires base > 0
      ensures Valid() && fresh(bt) && fresh(bt.Repr) && !bt.little
      ensures bt.Model().pos == 0 && bt.Model().lag == 0 && bt.Model().base == base && bt.Model().Unread() == data
    {
      bt := new ByteArray(base);
      new;
      ghost var v := bt.Model();
      BufferCodec.Put(bt, data);
      assert v.Written() + data == data;
      var moved := bt.SetPosition(0);
    }

    /** `operator<<`. */
    method Put(v: Val, t: Ty)
      requires Valid() && HasType(v, t)
      modifies bt.Repr
      ensures Valid() && fresh(bt.Repr - old(bt.Repr)) && bt.little == old(bt.little)
      ensures old(bt.lag) == 0 ==> Appended(old(bt.Model()), bt.Model(), Encode(v, t, bt.little))
      decreases t, 0
    {
      EncodeParts(v, t, bt.little);
      if t.TTuple? {
        PutItems(v.vs, t.items);
      } else if t.TVector? || t.TList? || t.TSet? {
        PutCounted(v.vs, t.elem);
      } else {
        PutScalar(v, t);
      }
    }

    /** `serialize`: the dispatch on the scalar types. */
    method PutScalar(v: Val, t: Ty)
      requires Valid() && HasType(v, t) && (IsFixed(t) || IsVarint(t) || t.TString?)
      modifies bt.Repr
      ensures Valid() && fresh(bt.Repr - old(bt.Repr)) && bt.little == old(bt.little)
      ensures old(bt.lag) == 0 ==> Appended(old(bt.Model()), bt.Model(), Encode(v, t, bt.little))
    {
      if IsFixed(t) {
        PutFixed(bt, FixedImage(v, t), FixedWidth(t));
      } else if IsVarint(t) {
        VarintImageScalar(v, t);
        PutVarint(bt, VarintImage(v, t), VarintWidth(t));
      } else {
        PutStringVint(bt, v.s);
      }
    }

    /** A container: its size, then its elements. */
    method PutCounted(vs: seq<Val>, e: Ty)
      requires Valid() && |vs| < Pow2(64) && AllTyped(vs, e)
      modifies bt.Repr
      ensures Valid() && fresh(bt.Repr - old(bt.Repr)) && bt.little == old(bt.little)
      ensures old(bt.lag) == 0 ==>
                Appended(old(bt.Model()), bt.Model(), Varint(|vs|) + EncodeAll(vs, e, bt.little))
      decreases e, 4
    {
      ghost var a := bt.Model();
      PutVarint(bt, |vs|, 64);
      ghost var b := bt.Model();
      PutAll(vs, e);
      if a.lag == 0 {
        AppendsCompose(a, b, bt.Model(), Varint(|vs|), EncodeAll(vs, e, bt.little));
      }
    }

    /** One more value behind what was already put since `a`. */
    method PutNext(v: Val, t: Ty, ghost a: View, ghost done: seq<byte>)
      requires Valid() && HasType(v, t)
      requires a.lag == 0 ==> Appended(a, bt.Model(), done)
      modifies bt.Repr
      ensures Valid() && fresh(bt.Repr - old(bt.Repr)) && bt.little == old(bt.little)
      ensures a.lag == 0 ==> Appended(a, bt.Model(), done + Encode(v, t, bt.little))
      decreases t, 1
    {
      ghost var b := bt.Model();
      Put(v, t);
      if a.lag == 0 {
        AppendsCompose(a, b, bt.Model(), done, Encode(v, t, bt.little));
      }
    }

    /** One round of the loop below. */
    method PutAt(vs: seq<Val>, i: nat, e: Ty, ghost a: View)
      requires Valid() && i < |vs| && AllTyped(vs, e)
      requires a.lag == 0 ==> Appended(a, bt.Model(), EncodeAll(vs[..i], e, bt.little))
      modifies bt.Repr
      ensures Valid() && fresh(bt.Repr - old(bt.Repr)) && bt.little == old(bt.little)
      ensures a.lag == 0 ==> Appended(a, bt.Model(), EncodeAll(vs[..i + 1], e, bt.little))
      decreases e, 2
    {
      EncodePrefix(vs, i, e, bt.little);
      PutNext(vs[i], e, a, EncodeAll(vs[..i], e, bt.little));
    }

    /** The loop over a vector, a list or a set. */
    method PutAll(vs: seq<Val>, e: Ty)
      requires Valid() && AllTyped(vs, e)
      modifies bt.Repr
      ensures Valid() && fresh(bt.Repr - old(bt.Repr)) && bt.little == old(bt.little)
      ensures old(bt.lag) == 0 ==> Appended(old(bt.Model()), bt.Model(), EncodeAll(vs, e, bt.little))
      decreases e, 3
    {
      ghost var a := bt.Model();
      assert a.Written() + EncodeAll(vs[..0], e, bt.little) == a.Written();
      for i := 0 to |vs|
        invariant Valid() && fresh(bt.Repr - old(bt.Repr)) && bt.little == old(bt.little)
        invariant a.lag == 0 ==> Appended(a, bt.Model(), EncodeAll(vs[..i], e, bt.little))
      {
        PutAt(vs, i, e, a);
      }
      assert vs[..|vs|] == vs;
    }

    /** The fold over a tuple's items. */
    method PutItems(vs: seq<Val>, ts: seq<Ty>)
      requires Valid() && ItemsTyped(vs, ts)
      modifies bt.Repr
      ensures Valid() && fresh(bt.Repr - old(bt.Repr)) && bt.little == old(bt.little)
      ensures old(bt.lag) == 0 ==> Appended(old(bt.Model()), bt.Model(), EncodeItems(vs, ts, bt.little))
      decreases ts, 2
    {
      if |ts| == 0 {
        ghost var a := bt.Model();
        assert a.Written() + [] == a.Written();
      } else {
        ghost var a := bt.Model();
        Put(vs[0], ts[0]);
        ghost var b := bt.Model();
        PutItems(vs[1..], ts[1..]);
        if a.lag == 0 {
          AppendsCompose(a, b, bt.Model(), Encode(vs[0], ts[0], bt.little), EncodeItems(vs[1..], ts[1..], bt.little));
        }
      }
    }

    /** `operator>>` into a fresh target. */
    method Get(t: Ty) returns (r: Outcome<Val>)
      requires Valid()
      modifies bt`position, bt`cur, bt`lag
      ensures Valid() && Step(r, bt.Model()) == DecodeV(t, old(bt.Model()), bt.little)
      decreases t, 0
    {
      if IsFixed(t) || IsVarint(t) {
        var n := GetNumber(t);
        r := match n case Ok(x) => Ok(Scalar(t, x)) case OutOfRange => OutOfRange case BadAccess => BadAccess;
      } else if t.TString? {
        var s := TakeStringVint(bt);
        r := match s case Ok(b) => Ok(VString(b)) case OutOfRange => OutOfRange case BadAccess => BadAccess;
      } else {
        var all;
        if t.TTuple? {
          all := GetItems(t.items);
        } else {
          all := GetCounted(t.elem, t.TSet?);
        }
        r := match all case Ok(vs) => Ok(VSeq(vs)) case OutOfRange => OutOfRange case BadAccess => BadAccess;
      }
    }

    /** A container: its size, then its elements. */
    method GetCounted(e: Ty, isSet: bool) returns (r: Outcome<seq<Val>>)
      requires Valid()
      modifies bt`position, bt`cur, bt`lag
      ensures Valid() && Step(r, bt.Model()) == DecodeCountedV(e, old(bt.Model()), bt.little, isSet)
      decreases e, 3
    {
      var count := TakeVarint(bt, 64);
      match count
      case Ok(n) => r := GetAll(e, n, isSet);
      case OutOfRange => r := OutOfRange;
      case BadAccess => r := BadAccess;
    }

    method GetNumber(t: Ty) returns (r: Outcome<nat>)
      requires Valid() && (IsFixed(t) || IsVarint(t))
      modifies bt`position, bt`cur, bt`lag
      ensures Valid()
      ensures Step(r, bt.Model()) == if IsFixed(t) then FixedV(old(bt.Model()), FixedWidth(t), bt.little)
                                     else VarintV(old(bt.Model()), 0, VarintWidth(t), 0)
    {
      if IsFixed(t) {
        r := TakeFixed(bt, FixedWidth(t));
      } else {
        r := TakeVarint(bt, VarintWidth(t));
      }
    }

    /** One round of the loop below: an element, added to those decoded before. */
    method GetNext(e: Ty, ghost n: nat, data: seq<Val>, isSet: bool, ghost goal: Step<seq<Val>>)
      returns (r: Outcome<seq<Val>>, data': seq<Val>, ghost n': nat)
      requires Valid() && n > 0 && Awaits(e, n, bt.Model(), bt.little, data, isSet, goal)
      modifies bt`position, bt`cur, bt`lag
      ensures Valid()
      ensures n' == n - 1
      ensures if r.Ok? then Awaits(e, n', bt.Model(), bt.little, data', isSet, goal) else goal == Step(r, bt.Model())
      decreases e, 1
    {
      ghost var v := bt.Model();
      n', data' := n - 1, data;
      var x := Get(e);
      AwaitsNext(e, n, v, bt.little, data, isSet, goal, Step(x, bt.Model()));
      match x {
        case Ok(y) =>
          data' := Added(data, y, isSet);
          r := Ok(data');
        case OutOfRange => r := OutOfRange;
        case BadAccess => r := BadAccess;
      }
    }

    /** The loop that pushes, or inserts, `n` elements. */
    method GetAll(e: Ty, n: nat, isSet: bool) returns (r: Outcome<seq<Val>>)
      requires Valid()
      modifies bt`position, bt`cur, bt`lag
      ensures Valid() && Step(r, bt.Model()) == DecodeAllV(e, n, old(bt.Model()), bt.little, [], isSet)
      decreases e, 2
    {
      ghost var goal := DecodeAllV(e, n, bt.Model(), bt.little, [], isSet);
      var data := [];
      ghost var left: nat := n;
      assert Awaits(e, left, bt.Model(), bt.little, data, isSet, goal);
      for i := 0 to n
        invariant Valid() && i + left == n && Awaits(e, left, bt.Model(), bt.little, data, isSet, goal)
      {
        r, data, left := GetNext(e, left, data, isSet, goal);
        if !r.Ok? {
          return;
        }
      }
      AwaitsNone(e, bt.Model(), bt.little, data, isSet, goal);
      r := Ok(data);
    }

    /** The fold over a tuple's items. */
    method GetItems(ts: seq<Ty>) returns (r: Outcome<seq<Val>>)
      requires Valid()
      modifies bt`position, bt`cur, bt`lag
      ensures Valid() && Step(r, bt.Model()) == DecodeItemsV(ts, old(bt.Model()), bt.little, [])
      decreases ts, 1
    {
      var data := [];
      var i := 0;
      while i < |ts|
        invariant 0 <= i <= |ts| && Valid()
        invariant DecodeItemsV(ts, old(bt.Model()), bt.little, [])
                  == DecodeItemsV(ts[i..], bt.Model(), bt.little, data)
      {
        assert ts[i..][1..] == ts[i + 1..];
        var x := Get(ts[i]);
        match x {
          case Ok(v) => data := data + [v];
          case OutOfRange => return OutOfRange;
          case BadAccess => return BadAccess;
        }
        i := i + 1;
      }
      r := Ok(data);
    }
  }
}
