/** Many coroutines send messages over one session, each under the session mutex, each in as many short
    writes as the kernel likes. */
module Wire {
  import opened Bytes
  import opened BufferModel
  import opened ProtocolModel
  import opened Protocols
  import opened StreamModel

  /** Where a coroutine is inside `sendProtocol`. */
  datatype Sender =
    | Idle
    | Encoded(msg: Msg, view: View)
    | Writing(msg: Msg, view: View, left: int)

  /** A finished send: the message and how many bytes of its frame went out. */
  datatype Entry = Entry(msg: Msg, sent: nat)

  datatype Sys = Sys(senders: map<nat, Sender>, lock: Option<nat>, wire: seq<byte>, log: seq<Entry>)

  datatype Step =
    | Encode(t: nat, msg: Msg, view: View)
    | Acquire(t: nat)
    | Write(t: nat, n: nat)
    | Fail(t: nat)
    | Release(t: nat)

  function Of(s: Sys, t: nat): Sender
  {
    if t in s.senders then s.senders[t] else Idle
  }

  /** A message whose frame fits the first chunk of its buffer. */
  ghost predicate Sendable(m: Msg)
  {
    Frame(m).Ok? && |Frame(m).value| <= BASE_SIZE
  }

  ghost predicate Enabled(s: Sys, e: Step)
  {
    match e
    case Encode(t, m, v) => Of(s, t).Idle? && Sendable(m) && Holds(v, FrameOf(m))
    case Acquire(t) => Of(s, t).Encoded? && s.lock.None?
    case Write(t, n) =>
      && Of(s, t).Writing? && Of(s, t).left > 0 && Of(s, t).view.Valid()
      && var offer := ReadOffer(Of(s, t).view, Of(s, t).view.size);
         offer.Ok? && 0 < n <= |offer.value|
    case Fail(t) => Of(s, t).Writing? && Of(s, t).left > 0
    case Release(t) => Of(s, t).Writing? && Of(s, t).left <= 0
  }

  ghost function Next(s: Sys, e: Step): Sys
    requires Enabled(s, e)
  {
    match e
    case Encode(t, m, v) => s.(senders := s.senders[t := Encoded(m, v)])
    case Acquire(t) =>
      var x := Of(s, t);
      s.(lock := Some(t), senders := s.senders[t := Writing(x.msg, x.view, x.view.size)])
    case Write(t, n) =>
      var x := Of(s, t);
      var data := ReadOffer(x.view, x.view.size).value;
      s.(wire := s.wire + data[..n],
         senders := s.senders[t := Writing(x.msg, AfterSetPosition(x.view, x.view.pos + n), x.left - n)])
    case Fail(t) => Unlock(s, t)
    case Release(t) => Unlock(s, t)
  }

  function Unlock(s: Sys, t: nat): Sys
    requires Of(s, t).Writing?
  {
    s.(lock := None, senders := s.senders[t := Idle], log := s.log + [Entry(Of(s, t).msg, Of(s, t).view.pos)])
  }

  const INIT := Sys(map[], None, [], [])

  ghost predicate IsRun(ss: seq<Sys>, es: seq<Step>)
  {
    && |ss| == |es| + 1
    && ss[0] == INIT
    && forall i :: 0 <= i < |es| ==> Enabled(ss[i], es[i]) && ss[i + 1] == Next(ss[i], es[i])
  }

  // ---- what the wire holds -----------------------------------------------------------------

  function Prefix(e: Entry): seq<byte>
  {
    FrameOf(e.msg)[..Min(e.sent, |FrameOf(e.msg)|)]
  }

  function Sequel(log: seq<Entry>): seq<byte>
  {
    if log == [] then [] else Sequel(log[..|log| - 1]) + Prefix(log[|log| - 1])
  }

  /** The part of the lock holder's frame that is out. */
  function Current(s: Sys): seq<byte>
  {
    if s.lock.Some? && Of(s, s.lock.value).Writing?
    then Prefix(Entry(Of(s, s.lock.value).msg, Of(s, s.lock.value).view.pos)) else []
  }

  /** A sender's buffer holds its frame, rewound or partly written. */
  ghost predicate Sound(x: Sender)
  {
    match x
    case Idle => true
    case Encoded(m, v) => Sendable(m) && Holds(v, FrameOf(m))
    case Writing(m, v, left) =>
      && Sendable(m)
      && v.Valid() && v.lag == 0 && v.base == BASE_SIZE && v.size == |FrameOf(m)|
      && v.flat[..v.size] == FrameOf(m)
      && left == v.size - v.pos
  }

  ghost predicate Inv(s: Sys)
  {
    && (forall t :: t in s.senders ==> Sound(s.senders[t]))
    && (forall t :: t in s.senders && s.senders[t].Writing? ==> s.lock == Some(t))
    && (s.lock.Some? ==> Of(s, s.lock.value).Writing?)
    && (forall i :: 0 <= i < |s.log| ==> Sendable(s.log[i].msg) && s.log[i].sent <= |FrameOf(s.log[i].msg)|)
    && s.wire == Sequel(s.log) + Current(s)
  }

  lemma WriteStep(x: Sender, n: nat, before: seq<byte>)
    requires Sound(x) && x.Writing? && x.left > 0
    requires ReadOffer(x.view, x.view.size).Ok? && 0 < n <= |ReadOffer(x.view, x.view.size).value|
    ensures var y := Writing(x.msg, AfterSetPosition(x.view, x.view.pos + n), x.left - n);
            && Sound(y)
            && (before + Prefix(Entry(x.msg, x.view.pos))) + ReadOffer(x.view, x.view.size).value[..n]
               == before + Prefix(Entry(y.msg, y.view.pos))
  {
    var v, f := x.view, FrameOf(x.msg);
    OneChunkOffer(v, v.size);
    assert f[..v.pos] + v.flat[v.pos..v.size][..n] == f[..v.pos + n];
  }

  lemma SequelAppend(log: seq<Entry>, e: Entry)
    ensures Sequel(log + [e]) == Sequel(log) + Prefix(e)
  {
    var l := log + [e];
    assert l[..|l| - 1] == log;
  }

  lemma InvStep(s: Sys, e: Step)
    requires Inv(s) && Enabled(s, e)
    ensures Inv(Next(s, e))
  {
    match e
    case Encode(t, m, v) => EncodeStep(s, t, m, v);
    case Acquire(t) => AcquireStep(s, t);
    case Write(t, n) => WriteInv(s, t, n);
    case Fail(t) => UnlockStep(s, t);
    case Release(t) => UnlockStep(s, t);
  }

  lemma EncodeStep(s: Sys, t: nat, m: Msg, v: View)
    requires Inv(s) && Enabled(s, Encode(t, m, v))
    ensures Inv(Next(s, Encode(t, m, v)))
  {
    assert Current(Next(s, Encode(t, m, v))) == Current(s);
  }

  lemma AcquireStep(s: Sys, t: nat)
    requires Inv(s) && Enabled(s, Acquire(t))
    ensures Inv(Next(s, Acquire(t)))
  {
    assert Current(Next(s, Acquire(t))) == [];
    assert Sequel(s.log) + [] == Sequel(s.log);
  }

  lemma WriteInv(s: Sys, t: nat, n: nat)
    requires Inv(s) && Enabled(s, Write(t, n))
    ensures Inv(Next(s, Write(t, n)))
  {
    WriteStep(Of(s, t), n, Sequel(s.log));
  }

  lemma UnlockStep(s: Sys, t: nat)
    requires Inv(s) && Of(s, t).Writing?
    ensures Inv(Unlock(s, t))
  {
    var x := Of(s, t);
    SequelAppend(s.log, Entry(x.msg, x.view.pos));
    var s' := Unlock(s, t);
    assert Sequel(s'.log) + [] == Sequel(s'.log);
  }

  /** In every run the wire is the frames in lock order, each as far as its sender got, and then the part of
      the lock holder's frame that is out: nothing repeated, skipped or interleaved. */
  lemma {:induction false} RunInv(ss: seq<Sys>, es: seq<Step>)
    requires IsRun(ss, es)
    ensures Inv(ss[|es|])
  {
    if |es| == 0 {
      assert Sequel([]) + [] == [];
    } else {
      var n := |es| - 1;
      RunInv(ss[..n + 1], es[..n]);
      InvStep(ss[n], es[n]);
    }
  }

  // ---- from the wire back to the messages --------------------------------------------------

  ghost predicate AllWhole(log: seq<Entry>)
  {
    forall i :: 0 <= i < |log| ==> log[i].sent == |FrameOf(log[i].msg)|
  }

  lemma {:induction false} WithoutFailuresWhole(ss: seq<Sys>, es: seq<Step>)
    requires IsRun(ss, es) && forall i :: 0 <= i < |es| ==> !es[i].Fail?
    ensures AllWhole(ss[|es|].log)
  {
    if |es| > 0 {
      var n := |es| - 1;
      WithoutFailuresWhole(ss[..n + 1], es[..n]);
      RunInv(ss[..n + 1], es[..n]);
      assert es[n].Release? ==> Sound(Of(ss[n], es[n].t));
    }
  }

  function Messages(log: seq<Entry>): seq<Msg>
  {
    if log == [] then [] else Messages(log[..|log| - 1]) + [log[|log| - 1].msg]
  }

  lemma WholePrefix(e: Entry)
    requires e.sent == |FrameOf(e.msg)|
    ensures Prefix(e) == FrameOf(e.msg)
  {
  }

  lemma {:induction false} WholeSequel(log: seq<Entry>)
    requires AllWhole(log)
    ensures Sequel(log) == Frames(Messages(log))
  {
    if log != [] {
      var n := |log| - 1;
      WholeSequel(log[..n]);
      WholePrefix(log[n]);
      FramesAppend(Messages(log[..n]), log[n].msg);
    }
  }

  /** The messages whose frames are wholly out: those sent, and the holder's once nothing is left of it. */
  function Delivered(s: Sys): seq<Msg>
  {
    if s.lock.Some? && Of(s, s.lock.value).Writing? && Of(s, s.lock.value).left <= 0
    then Messages(s.log) + [Of(s, s.lock.value).msg] else Messages(s.log)
  }

  /** The unfinished part of the frame being written. */
  function Unfinished(s: Sys): seq<byte>
  {
    if s.lock.Some? && Of(s, s.lock.value).Writing? && Of(s, s.lock.value).left > 0 then Current(s) else []
  }

  /** While no write has failed the wire is whole frames in lock order and a part of one, texts or not. */
  lemma WireIsFrames(s: Sys)
    requires Inv(s) && AllWhole(s.log)
    ensures s.wire == Frames(Delivered(s)) + Unfinished(s)
  {
    WholeSequel(s.log);
    if s.lock.Some? {
      var x := Of(s, s.lock.value);
      if x.left <= 0 {
        FramesAppend(Messages(s.log), x.msg);
        assert Current(s) == FrameOf(x.msg);
        assert Frames(Delivered(s)) + [] == Frames(Delivered(s));
      }
    }
  }

  /** The messages in a state that are being sent or were, and all of them plain. */
  ghost predicate AllPlain(s: Sys)
  {
    && (forall t :: t in s.senders && !s.senders[t].Idle? ==> Plain(s.senders[t].msg))
    && (forall i :: 0 <= i < |s.log| ==> Plain(s.log[i].msg))
  }

  lemma {:induction false} PlainRun(ss: seq<Sys>, es: seq<Step>)
    requires IsRun(ss, es) && forall i :: 0 <= i < |es| && es[i].Encode? ==> Plain(es[i].msg)
    ensures AllPlain(ss[|es|])
  {
    if |es| > 0 {
      var n := |es| - 1;
      PlainRun(ss[..n + 1], es[..n]);
      PlainStep(ss[n], es[n]);
    }
  }

  lemma PlainStep(s: Sys, e: Step)
    requires AllPlain(s) && Enabled(s, e) && (e.Encode? ==> Plain(e.msg))
    ensures AllPlain(Next(s, e))
  {
  }

  lemma {:induction false} PlainMessages(log: seq<Entry>)
    requires forall i :: 0 <= i < |log| ==> Plain(log[i].msg)
    ensures forall i :: 0 <= i < |Messages(log)| ==> Plain(Messages(log)[i])
  {
    if log != [] {
      PlainMessages(log[..|log| - 1]);
    }
  }

  lemma UnfinishedIsNoFrame(s: Sys)
    requires Inv(s) && AllPlain(s)
    ensures ParseFrame(Unfinished(s)) == Ok(None)
  {
    if s.lock.Some? {
      var x := Of(s, s.lock.value);
      if x.left > 0 {
        PartialFrame(x.msg, x.view.pos);
      }
    }
  }

  /** End to end: when no write fails and no message carries a text, a receiver that parses the wire gets exactly
      the messages sent so far, whole and in lock order, and is left with the unfinished part of the frame being
      written. */
  lemma ReceiverGetsMessages(ss: seq<Sys>, es: seq<Step>)
    requires IsRun(ss, es) && forall i :: 0 <= i < |es| ==> !es[i].Fail?
    requires forall i :: 0 <= i < |es| && es[i].Encode? ==> Plain(es[i].msg)
    ensures ParseAll(ss[|es|].wire) == (Delivered(ss[|es|]), Unfinished(ss[|es|]))
  {
    var s := ss[|es|];
    RunInv(ss, es);
    WithoutFailuresWhole(ss, es);
    PlainRun(ss, es);
    WireIsFrames(s);
    UnfinishedIsNoFrame(s);
    PlainMessages(s.log);
    ParseFrames(Delivered(s), Unfinished(s));
  }

  /** A sender that finishes or fails leaves the session to the others: whoever waits with its frame can write next, behind
      what is out. */
  lemma UnlockLetsOthersIn(s: Sys, t: nat, e: Step, u: nat)
    requires Inv(s) && (e == Fail(t) || e == Release(t)) && Enabled(s, e) && Of(s, u).Encoded?
    ensures var s' := Next(s, e);
            && Of(s', t) == Idle && s'.wire == s.wire && s'.lock == None
            && Enabled(s', Acquire(u)) && Next(s', Acquire(u)).wire == s.wire
            && Of(Next(s', Acquire(u)), u) == Writing(Of(s, u).msg, Of(s, u).view, Of(s, u).view.size)
  {
  }

  /** The lock holder is never stuck: while something is left the kernel may take any part of it or fail, and then it
      releases the lock. */
  lemma HolderGoesOn(s: Sys, t: nat, n: nat)
    requires Inv(s) && Of(s, t).Writing?
    ensures Of(s, t).left <= 0 <==> Enabled(s, Release(t))
    ensures Of(s, t).left > 0 <==> Enabled(s, Fail(t))
    ensures 0 < n <= Of(s, t).left <==> Enabled(s, Write(t, n))
  {
    var x := Of(s, t);
    assert Sound(x);
    if x.left > 0 {
      OneChunkOffer(x.view, x.view.size);
    }
  }

  /** The steps of a send that goes through in one write. */
  lemma FirstSteps(m: Msg, v: View)
    requires Sendable(m) && Holds(v, FrameOf(m))
    ensures var encoded := Sys(map[0 := Encoded(m, v)], None, [], []);
            && Enabled(INIT, Encode(0, m, v)) && Next(INIT, Encode(0, m, v)) == encoded
            && Enabled(encoded, Acquire(0))
            && Next(encoded, Acquire(0)) == Sys(map[0 := Writing(m, v, v.size)], Some(0), [], [])
  {
  }

  lemma WholeWrite(m: Msg, v: View, n: nat, offer: seq<byte>)
    requires v.Valid() && v.size == n && ReadOffer(v, n) == Ok(offer) && 0 < n == |offer|
    ensures var s, e := Sys(map[0 := Writing(m, v, n)], Some(0), [], []), Write(0, n);
            && Enabled(s, e)
            && Next(s, e) == Sys(map[0 := Writing(m, AfterSetPosition(v, v.pos + n), 0)], Some(0), offer, [])
  {
    assert [] + offer[..n] == offer;
  }

  lemma OfferedWhole(v: View, f: seq<byte>)
    requires Holds(v, f) && 0 < |f| <= BASE_SIZE
    ensures v.pos == 0 && v.size == |f| && ReadOffer(v, |f|) == Ok(f)
    ensures AfterSetPosition(v, |f|).pos == |f|
  {
    OneChunkOffer(v, |f|);
  }

  lemma LastStep(m: Msg, v: View, w: seq<byte>)
    ensures var s := Sys(map[0 := Writing(m, v, 0)], Some(0), w, []);
            Enabled(s, Release(0)) && Next(s, Release(0)) == Sys(map[0 := Idle], None, w, [Entry(m, v.pos)])
  {
  }

  /** A message can get through: encoded, locked, written in one piece and released, its frame is the wire. */
  lemma SendIsReachable(m: Msg, v: View) returns (ss: seq<Sys>, es: seq<Step>)
    requires Sendable(m) && FrameOf(m) != [] && Holds(v, FrameOf(m))
    ensures IsRun(ss, es) && ss[|es|] == Sys(map[0 := Idle], None, FrameOf(m), [Entry(m, |FrameOf(m)|)])
  {
    var f := FrameOf(m);
    var n := |f|;
    var w := AfterSetPosition(v, v.pos + n);
    OfferedWhole(v, f);
    FirstSteps(m, v);
    WholeWrite(m, v, n, f);
    LastStep(m, w, f);
    var s1, s2 := Sys(map[0 := Encoded(m, v)], None, [], []), Sys(map[0 := Writing(m, v, n)], Some(0), [], []);
    var s3, s4 := Sys(map[0 := Writing(m, w, 0)], Some(0), f, []), Sys(map[0 := Idle], None, f, [Entry(m, n)]);
    ss, es := [INIT, s1, s2, s3, s4], [Encode(0, m, v), Acquire(0), Write(0, n), Release(0)];
  }
}
