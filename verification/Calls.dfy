/** Call correlation between `RpcClient` and `RpcServer` as an interleaved state machine.

    Every critical section, every unlocked map access, every channel operation and every frame transfer is a
    step of its own.  Response frames may be lost, reordered and duplicated; request frames may be lost.
    A channel made by the default constructor has no buffer: a push waits for a pop or for the close. */
module Calls {
  import opened Bytes

  /** The id field is a `uint64_t`. */
  const ID_MODULUS: nat := 0x1_0000_0000_0000_0000

  /** A response frame; `origin` is the call whose request it answers. */
  datatype Response = Response(id: nat, origin: nat, code: byte)

  /** Where a coroutine is inside `call_internal`. */
  datatype Phase =
    | Inserted
    | Waiting
    | Got(response: Response)
    | TimedOut
    | Finished(result: Option<Response>)

  datatype Call = Call(id: nat, chan: nat, phase: Phase)

  /** Where the receive loop is inside `handleMethodResponse`. */
  datatype Receiver =
    | Listening
    | Found(response: Response)
    | Pushing(response: Response, chan: nat)

  datatype Sys = Sys(
    closed: bool,
    nextId: nat,
    nextChan: nat,
    calls: seq<Call>,
    outstanding: map<nat, nat>,
    queue: seq<nat>,
    requests: multiset<nat>,
    dispatched: multiset<nat>,
    handling: multiset<nat>,
    responses: set<Response>,
    receiver: Receiver)

  const INIT := Sys(false, 0, 0, [], map[], [], multiset{}, multiset{}, multiset{}, {}, Listening)

  datatype Step =
    | Begin
    | Enqueue(c: nat)
    | SendFront
    | DropFront
    | LoseRequest(c: nat)
    | Dispatch(c: nat)
    | Respond(c: nat, code: byte)
    | Receive(response: Response)
    | Index
    | Deliver(c: nat)
    | PushClosed(c: nat)
    | TimeOut(c: nat)
    | Finish(c: nat)
    | Close

  predicate HasPhase(s: Sys, c: nat, waiting: bool)
  {
    c < |s.calls| && if waiting then s.calls[c].phase.Waiting? else s.calls[c].phase.Inserted?
  }

  predicate Enabled(s: Sys, e: Step)
  {
    match e
    case Begin => !s.closed
    case Enqueue(c) => HasPhase(s, c, false)
    case SendFront => s.queue != []
    case DropFront => s.queue != []
    case LoseRequest(c) => c in s.requests
    case Dispatch(c) => c in s.requests
    case Respond(c, _) => c in s.handling && c < |s.calls|
    case Receive(r) => s.receiver.Listening? && r in s.responses
    case Index => s.receiver.Found?
    case Deliver(c) => HasPhase(s, c, true) && s.receiver.Pushing? && s.receiver.chan == s.calls[c].chan
    case PushClosed(c) =>
      c < |s.calls| && s.calls[c].phase.Finished? && s.receiver.Pushing? && s.receiver.chan == s.calls[c].chan
    case TimeOut(c) => HasPhase(s, c, true)
    case Finish(c) => c < |s.calls| && (s.calls[c].phase.Got? || s.calls[c].phase.TimedOut?)
    case Close => true
  }

  function SetPhase(s: Sys, c: nat, p: Phase): Sys
    requires c < |s.calls|
  {
    s.(calls := s.calls[c := s.calls[c].(phase := p)])
  }

  function Next(s: Sys, e: Step): Sys
    requires Enabled(s, e)
  {
    match e
    case Begin =>
      // `insert` keeps an entry that is already there
      s.(nextId := (s.nextId + 1) % ID_MODULUS,
         nextChan := s.nextChan + 1,
         calls := s.calls + [Call(s.nextId, s.nextChan, Inserted)],
         outstanding := if s.nextId in s.outstanding then s.outstanding else s.outstanding[s.nextId := s.nextChan])
    case Enqueue(c) =>
      // a closed channel takes nothing
      SetPhase(s, c, Waiting).(queue := if s.closed then s.queue else s.queue + [c])
    case SendFront => s.(queue := s.queue[1..], requests := s.requests + multiset{s.queue[0]})
    case DropFront => s.(queue := s.queue[1..])
    case LoseRequest(c) => s.(requests := s.requests - multiset{c})
    case Dispatch(c) =>
      s.(requests := s.requests - multiset{c}, dispatched := s.dispatched + multiset{c},
         handling := s.handling + multiset{c})
    case Respond(c, code) =>
      s.(handling := s.handling - multiset{c}, responses := s.responses + {Response(s.calls[c].id, c, code)})
    case Receive(r) => s.(receiver := if r.id in s.outstanding then Found(r) else Listening)
    case Index =>
      // `operator[]` makes an entry with a new channel when the key is gone
      var r := s.receiver.response;
      if r.id in s.outstanding then s.(receiver := Pushing(r, s.outstanding[r.id]))
      else s.(receiver := Pushing(r, s.nextChan), nextChan := s.nextChan + 1,
              outstanding := s.outstanding[r.id := s.nextChan])
    case Deliver(c) => SetPhase(s, c, Got(s.receiver.response)).(receiver := Listening)
    case PushClosed(c) => s.(receiver := Listening)
    case TimeOut(c) => SetPhase(s, c, TimedOut)
    case Finish(c) =>
      var p := s.calls[c].phase;
      SetPhase(s, c, Finished(if p.Got? then Some(p.response) else None))
        .(outstanding := s.outstanding - {s.calls[c].id})
    case Close => s.(closed := true)
  }

  ghost predicate IsRun(ss: seq<Sys>, es: seq<Step>)
  {
    && |ss| == |es| + 1
    && ss[0] == INIT
    && forall i :: 0 <= i < |es| ==> Enabled(ss[i], es[i]) && ss[i + 1] == Next(ss[i], es[i])
  }

  // ---- ids and channels --------------------------------------------------------------------

  ghost predicate IdsInv(s: Sys)
  {
    && s.nextId == |s.calls| % ID_MODULUS
    && (forall i :: 0 <= i < |s.calls| ==> s.calls[i].id == i % ID_MODULUS && s.calls[i].chan < s.nextChan)
    && (forall i, j :: 0 <= i < j < |s.calls| ==> s.calls[i].chan != s.calls[j].chan)
  }

  /** Whoever owns channel `ch` issued `id`. */
  ghost predicate Owns(s: Sys, ch: nat, id: nat)
  {
    ch < s.nextChan && forall i :: 0 <= i < |s.calls| && s.calls[i].chan == ch ==> s.calls[i].id == id
  }

  ghost predicate RoutesInv(s: Sys)
  {
    && (forall id :: id in s.outstanding ==> Owns(s, s.outstanding[id], id))
    && (s.receiver.Pushing? ==> Owns(s, s.receiver.chan, s.receiver.response.id))
  }

  /** Every response answers a dispatched request and carries its call's id. */
  ghost predicate Genuine(s: Sys, r: Response)
  {
    r.origin < |s.calls| && r.id == s.calls[r.origin].id && r.origin in s.dispatched
  }

  ghost predicate ResponsesInv(s: Sys)
  {
    && (forall r :: r in s.responses ==> Genuine(s, r))
    && (s.receiver.Found? || s.receiver.Pushing? ==> Genuine(s, s.receiver.response))
    && (forall c :: c in s.handling ==> c in s.dispatched && c < |s.calls|)
  }

  ghost predicate Answered(s: Sys, i: nat, r: Response)
    requires i < |s.calls|
  {
    Genuine(s, r) && r.id == s.calls[i].id
  }

  /** The response a call has taken from its channel. */
  function Taken(p: Phase): Option<Response>
  {
    match p
    case Got(r) => Some(r)
    case Finished(r) => r
    case _ => None
  }

  ghost predicate ResultsInv(s: Sys)
  {
    forall i :: 0 <= i < |s.calls| && Taken(s.calls[i].phase).Some? ==> Answered(s, i, Taken(s.calls[i].phase).value)
  }

  /** How many copies of a call's request exist anywhere: queued, on the wire or dispatched. */
  function Copies(s: Sys, c: nat): nat
  {
    multiset(s.queue)[c] + s.requests[c] + s.dispatched[c]
  }

  ghost predicate RequestsInv(s: Sys)
  {
    forall c: nat ::
      && Copies(s, c) <= 1
      && (Copies(s, c) > 0 ==> c < |s.calls| && !s.calls[c].phase.Inserted?)
  }

  ghost predicate Inv(s: Sys)
  {
    IdsInv(s) && RoutesInv(s) && ResponsesInv(s) && ResultsInv(s) && RequestsInv(s)
  }

  lemma NextIdWraps(n: nat)
    ensures (n % ID_MODULUS + 1) % ID_MODULUS == (n + 1) % ID_MODULUS
  {
  }

  lemma IdsStep(s: Sys, e: Step)
    requires IdsInv(s) && Enabled(s, e)
    ensures IdsInv(Next(s, e))
  {
    if e.Begin? {
      NextIdWraps(|s.calls|);
    }
  }

  /** Calls keep their ids and channels, and what was dispatched stays dispatched. */
  ghost predicate Extends(s: Sys, s': Sys)
  {
    && |s.calls| <= |s'.calls|
    && s.nextChan <= s'.nextChan
    && (forall i :: 0 <= i < |s.calls| ==> s'.calls[i].id == s.calls[i].id && s'.calls[i].chan == s.calls[i].chan)
    && (forall i :: |s.calls| <= i < |s'.calls| ==> s'.calls[i].chan >= s.nextChan)
    && s.dispatched <= s'.dispatched
  }

  lemma StepExtends(s: Sys, e: Step)
    requires Enabled(s, e)
    ensures Extends(s, Next(s, e))
  {
  }

  lemma OwnsStays(s: Sys, s': Sys, ch: nat, id: nat)
    requires Extends(s, s') && Owns(s, ch, id)
    ensures Owns(s', ch, id)
  {
  }

  lemma GenuineStays(s: Sys, s': Sys, r: Response)
    requires Extends(s, s') && Genuine(s, r)
    ensures Genuine(s', r)
  {
  }

  lemma RoutesStep(s: Sys, e: Step)
    requires IdsInv(s) && RoutesInv(s) && Enabled(s, e)
    ensures RoutesInv(Next(s, e))
  {
    var s' := Next(s, e);
    StepExtends(s, e);
    EntriesStep(s, e);
    if s.receiver.Pushing? {
      OwnsStays(s, s', s.receiver.chan, s.receiver.response.id);
    }
  }

  lemma EntriesStep(s: Sys, e: Step)
    requires IdsInv(s) && RoutesInv(s) && Enabled(s, e)
    ensures var s' := Next(s, e); forall id :: id in s'.outstanding ==> Owns(s', s'.outstanding[id], id)
  {
    var s' := Next(s, e);
    StepExtends(s, e);
    forall id | id in s'.outstanding
      ensures Owns(s', s'.outstanding[id], id)
    {
      if id in s.outstanding && s'.outstanding[id] == s.outstanding[id] {
        OwnsStays(s, s', s.outstanding[id], id);
      }
    }
  }

  lemma ResponsesStep(s: Sys, e: Step)
    requires IdsInv(s) && ResponsesInv(s) && RequestsInv(s) && Enabled(s, e)
    ensures ResponsesInv(Next(s, e))
  {
    var s' := Next(s, e);
    StepExtends(s, e);
    forall r | r in s'.responses
      ensures Genuine(s', r)
    {
      if r in s.responses {
        GenuineStays(s, s', r);
      }
    }
    if s.receiver.Found? || s.receiver.Pushing? {
      GenuineStays(s, s', s.receiver.response);
    }
    forall c | c in s'.handling
      ensures c in s'.dispatched && c < |s'.calls|
    {
      if c !in s.handling {
        assert e == Dispatch(c) && Copies(s, c) > 0;
      }
    }
  }

  lemma ResultsStep(s: Sys, e: Step)
    requires IdsInv(s) && RoutesInv(s) && ResponsesInv(s) && ResultsInv(s) && Enabled(s, e)
    ensures ResultsInv(Next(s, e))
  {
    var s' := Next(s, e);
    StepExtends(s, e);
    forall i | 0 <= i < |s'.calls| && Taken(s'.calls[i].phase).Some?
      ensures Answered(s', i, Taken(s'.calls[i].phase).value)
    {
      var r := Taken(s'.calls[i].phase).value;
      if i < |s.calls| && Taken(s.calls[i].phase) == Some(r) {
        assert Answered(s, i, r);
      } else {
        assert e == Deliver(i) && r == s.receiver.response;
        assert Owns(s, s.receiver.chan, r.id);
      }
      GenuineStays(s, s', r);
    }
  }

  /** Only enqueueing a call's request makes a copy of it. */
  lemma CopiesStep(s: Sys, e: Step, c: nat)
    requires Enabled(s, e)
    ensures Copies(Next(s, e), c) <= Copies(s, c) + if e == Enqueue(c) then 1 else 0
  {
    if e.SendFront? || e.DropFront? {
      assert s.queue == [s.queue[0]] + s.queue[1..];
    }
  }

  lemma RequestsStep(s: Sys, e: Step)
    requires RequestsInv(s) && Enabled(s, e)
    ensures RequestsInv(Next(s, e))
  {
    var s' := Next(s, e);
    forall c: nat
      ensures Copies(s', c) <= 1 && (Copies(s', c) > 0 ==> c < |s'.calls| && !s'.calls[c].phase.Inserted?)
    {
      CopiesStep(s, e, c);
      assert Copies(s, c) <= 1;
    }
  }

  lemma InvStep(s: Sys, e: Step)
    requires Inv(s) && Enabled(s, e)
    ensures Inv(Next(s, e))
  {
    IdsStep(s, e);
    RoutesStep(s, e);
    ResponsesStep(s, e);
    ResultsStep(s, e);
    RequestsStep(s, e);
  }

  lemma {:induction false} RunInv(ss: seq<Sys>, es: seq<Step>)
    requires IsRun(ss, es)
    ensures Inv(ss[|es|])
  {
    if |es| > 0 {
      var n := |es| - 1;
      RunInv(ss[..n + 1], es[..n]);
      InvStep(ss[n], es[n]);
    }
  }

  // ---- the guarantees ----------------------------------------------------------------------

  /** The ids of the calls issued so far are distinct exactly as long as the counter has not come round. */
  lemma IdsDistinctIff(ss: seq<Sys>, es: seq<Step>)
    requires IsRun(ss, es)
    ensures var cs := ss[|es|].calls;
            (forall i, j :: 0 <= i < j < |cs| ==> cs[i].id != cs[j].id) <==> |cs| <= ID_MODULUS
  {
    RunInv(ss, es);
    var cs := ss[|es|].calls;
    if |cs| > ID_MODULUS {
      assert cs[0].id == cs[ID_MODULUS].id;
    }
  }

  /** In every interleaving a call completes only with a response that carries its own id; while ids have not
      come round, only with the answer to its own request, never with a late one for an earlier call. */
  lemma CallGetsItsOwnResponse(ss: seq<Sys>, es: seq<Step>, i: nat)
    requires IsRun(ss, es) && i < |ss[|es|].calls|
    requires ss[|es|].calls[i].phase.Finished? && ss[|es|].calls[i].phase.result.Some?
    ensures var s := ss[|es|];
            var r := s.calls[i].phase.result.value;
            r.id == s.calls[i].id && (|s.calls| <= ID_MODULUS ==> r.origin == i)
  {
    RunInv(ss, es);
    var s := ss[|es|];
    assert Answered(s, i, Taken(s.calls[i].phase).value);
  }

  /** Each request is dispatched at most once, and the request of a call that got a response exactly once,
      timeouts, losses and an early close included. */
  lemma DispatchedOnce(ss: seq<Sys>, es: seq<Step>, i: nat)
    requires IsRun(ss, es) && i < |ss[|es|].calls|
    ensures var s := ss[|es|];
            && s.dispatched[i] <= 1
            && (s.calls[i].phase.Finished? && s.calls[i].phase.result.Some? && |s.calls| <= ID_MODULUS ==>
                  s.dispatched[i] == 1)
  {
    RunInv(ss, es);
    var s := ss[|es|];
    assert Copies(s, i) <= 1;
    if s.calls[i].phase.Finished? && s.calls[i].phase.result.Some? {
      assert Answered(s, i, Taken(s.calls[i].phase).value);
    }
  }

  // ---- results -----------------------------------------------------------------------------

  ghost predicate Occurs(es: seq<Step>, lo: nat, hi: nat, e: Step)
    requires hi <= |es|
  {
    exists j :: lo <= j < hi && es[j] == e
  }

  /** Call `c` finishes somewhere between the steps `lo` and `hi`. */
  predicate Finishes(es: seq<Step>, lo: nat, hi: nat, c: nat)
    requires hi <= |es|
    decreases hi
  {
    lo < hi && (es[hi - 1] == Finish(c) || Finishes(es, lo, hi - 1, c))
  }

  lemma {:induction false} FinishesAt(es: seq<Step>, lo: nat, hi: nat, c: nat, j: nat)
    requires lo <= j < hi <= |es| && es[j] == Finish(c)
    ensures Finishes(es, lo, hi, c)
    decreases hi
  {
    if j < hi - 1 {
      FinishesAt(es, lo, hi - 1, c, j);
    }
  }

  /** Which steps move a call from one phase to the next. */
  lemma PhaseStep(s: Sys, e: Step, c: nat)
    requires Enabled(s, e) && c < |s.calls|
    ensures |s.calls| <= |Next(s, e).calls|
    ensures Next(s, e).calls[c].phase ==
            match s.calls[c].phase
            case Inserted => if e == Enqueue(c) then Waiting else Inserted
            case Waiting =>
              if e == Deliver(c) && s.receiver.Pushing? then Got(s.receiver.response)
              else if e == TimeOut(c) then TimedOut
              else Waiting
            case Got(r) => if e == Finish(c) then Finished(Some(r)) else Got(r)
            case TimedOut => if e == Finish(c) then Finished(None) else TimedOut
            case Finished(r) => Finished(r)
  {
  }

  lemma ClosedStep(s: Sys, e: Step)
    requires Enabled(s, e) && s.closed
    ensures var s' := Next(s, e);
            s'.closed && |s'.calls| == |s.calls| && s'.nextId == s.nextId && |s'.queue| <= |s.queue|
  {
  }

  /** A call past waiting keeps what it holds, and makes it its result when it finishes. */
  predicate Keeps(p: Phase, e: Step, q: Phase, c: nat)
  {
    match p
    case Got(r) => q == if e == Finish(c) then Finished(Some(r)) else p
    case TimedOut => q == if e == Finish(c) then Finished(None) else p
    case Finished(_) => q == p
    case _ => true
  }

  lemma {:induction false} KeptAlong(ps: seq<Phase>, es: seq<Step>, i: nat, k: nat, c: nat)
    requires |ps| == |es| + 1 && i <= k <= |es| && (ps[i].Got? || ps[i].TimedOut?)
    requires forall n :: i <= n < |es| ==> Keeps(ps[n], es[n], ps[n + 1], c)
    ensures ps[k] == if Finishes(es, i, k, c) then Finished(if ps[i].Got? then Some(ps[i].response) else None) else ps[i]
    decreases k
  {
    if i < k {
      KeptAlong(ps, es, i, k - 1, c);
      assert Keeps(ps[k - 1], es[k - 1], ps[k - 1 + 1], c);
    }
  }

  function PhaseOf(s: Sys, c: nat): Phase
  {
    if c < |s.calls| then s.calls[c].phase else Inserted
  }

  lemma KeepsStep(s: Sys, e: Step, c: nat)
    requires Enabled(s, e)
    ensures Keeps(PhaseOf(s, c), e, PhaseOf(Next(s, e), c), c)
  {
    if c < |s.calls| {
      PhaseStep(s, e, c);
    }
  }

  lemma PhaseKept(ss: seq<Sys>, es: seq<Step>, i: nat, c: nat)
    requires IsRun(ss, es) && i <= |es| && (PhaseOf(ss[i], c).Got? || PhaseOf(ss[i], c).TimedOut?)
    ensures var p := PhaseOf(ss[i], c);
            PhaseOf(ss[|es|], c)
            == if Finishes(es, i, |es|, c) then Finished(if p.Got? then Some(p.response) else None) else p
  {
    var ps := seq(|ss|, n requires 0 <= n < |ss| => PhaseOf(ss[n], c));
    forall n | i <= n < |es| ensures Keeps(ps[n], es[n], ps[n + 1], c) {
      KeepsStep(ss[n], es[n], c);
    }
    KeptAlong(ps, es, i, |es|, c);
  }

  /** In every run a call that is delivered a response has it from then on, and once it finishes has exactly that
      response for its result, whatever comes after. */
  lemma DeliveredIsResult(ss: seq<Sys>, es: seq<Step>, i: nat, c: nat)
    requires IsRun(ss, es) && i < |es| && es[i] == Deliver(c)
    ensures c < |ss[|es|].calls| && ss[i].receiver.Pushing?
    ensures var r := ss[i].receiver.response;
            ss[|es|].calls[c].phase == if Finishes(es, i + 1, |es|, c) then Finished(Some(r)) else Got(r)
  {
    PhaseStep(ss[i], es[i], c);
    PhaseKept(ss, es, i + 1, c);
  }

  /** And one that times out has none. */
  lemma TimedOutHasNone(ss: seq<Sys>, es: seq<Step>, i: nat, c: nat)
    requires IsRun(ss, es) && i < |es| && es[i] == TimeOut(c)
    ensures c < |ss[|es|].calls|
    ensures ss[|es|].calls[c].phase == if Finishes(es, i + 1, |es|, c) then Finished(None) else TimedOut
  {
    PhaseStep(ss[i], es[i], c);
    PhaseKept(ss, es, i + 1, c);
  }

  /** Spelled out for a delivery and a finish. */
  lemma CompletedCallHasResponse(ss: seq<Sys>, es: seq<Step>, i: nat, j: nat, c: nat)
    requires IsRun(ss, es) && i < j < |es| && es[i] == Deliver(c) && es[j] == Finish(c)
    ensures c < |ss[|es|].calls| && ss[i].receiver.Pushing?
    ensures ss[|es|].calls[c].phase == Finished(Some(ss[i].receiver.response))
  {
    DeliveredIsResult(ss, es, i, c);
    FinishesAt(es, i + 1, |es|, c, j);
  }

  /** What a call holds came from a delivery or a time-out. */
  ghost predicate Caused(es: seq<Step>, c: nat, p: Phase)
  {
    match p
    case Got(_) => Occurs(es, 0, |es|, Deliver(c))
    case TimedOut => Occurs(es, 0, |es|, TimeOut(c))
    case Finished(r) => Occurs(es, 0, |es|, Finish(c)) && Occurs(es, 0, |es|, if r.Some? then Deliver(c) else TimeOut(c))
    case _ => true
  }

  lemma {:induction false} RunCaused(ss: seq<Sys>, es: seq<Step>, c: nat)
    requires IsRun(ss, es) && c < |ss[|es|].calls|
    ensures Caused(es, c, ss[|es|].calls[c].phase)
  {
    if |es| > 0 {
      var n := |es| - 1;
      var fs := es[..n];
      assert es == fs + [es[n]];
      if c < |ss[n].calls| {
        RunCaused(ss[..n + 1], fs, c);
        PhaseStep(ss[n], es[n], c);
        CausedStep(fs, es[n], c, ss[n].calls[c].phase, ss[n + 1].calls[c].phase);
      } else {
        assert ss[n + 1] == Next(ss[n], es[n]);
      }
    }
  }

  lemma CausedStep(fs: seq<Step>, e: Step, c: nat, p: Phase, q: Phase)
    requires Caused(fs, c, p)
    requires q == p || (e == Enqueue(c) && q == Waiting) || (e == Deliver(c) && q.Got?) || (e == TimeOut(c) && q.TimedOut?)
             || (e == Finish(c) && (if p.Got? then q == Finished(Some(p.response)) else p.TimedOut? && q == Finished(None)))
    ensures Caused(fs + [e], c, q)
  {
    var es, n := fs + [e], |fs|;
    forall d | Occurs(fs, 0, n, d) ensures Occurs(es, 0, n + 1, d) {
      var j :| 0 <= j < n && fs[j] == d;
      assert es[j] == d;
    }
    assert es[n] == e;
  }

  /** So a finished call has a result if and only if a response was delivered to it. */
  lemma ResultIffDelivered(ss: seq<Sys>, es: seq<Step>, c: nat)
    requires IsRun(ss, es) && c < |ss[|es|].calls| && ss[|es|].calls[c].phase.Finished?
    ensures ss[|es|].calls[c].phase.result.Some? <==> Occurs(es, 0, |es|, Deliver(c))
  {
    RunCaused(ss, es, c);
    if Occurs(es, 0, |es|, Deliver(c)) {
      var i :| 0 <= i < |es| && es[i] == Deliver(c);
      DeliveredIsResult(ss, es, i, c);
    }
  }

  /** Once closed a client begins no call and queues no request. */
  lemma {:induction false} ClosedStays(ss: seq<Sys>, es: seq<Step>, i: nat, k: nat)
    requires IsRun(ss, es) && i <= k <= |es| && ss[i].closed
    ensures ss[k].closed && |ss[k].calls| == |ss[i].calls| && ss[k].nextId == ss[i].nextId && |ss[k].queue| <= |ss[i].queue|
    decreases k
  {
    if i < k {
      ClosedStays(ss, es, i, k - 1);
      ClosedStep(ss[k - 1], es[k - 1]);
    }
  }

  /** A close takes effect, in every run and for the rest of it. */
  lemma CloseIsFinal(ss: seq<Sys>, es: seq<Step>, i: nat)
    requires IsRun(ss, es) && i < |es| && es[i] == Close
    ensures ss[|es|].closed && !Enabled(ss[|es|], Begin) && |ss[|es|].calls| == |ss[i].calls|
  {
    assert ss[i + 1] == Next(ss[i], Close);
    ClosedStays(ss, es, i + 1, |es|);
  }

  // ---- requests and answers ----------------------------------------------------------------

  /** Each dispatch leaves the request being handled or answered, and answered once. */
  ghost predicate AnswersInv(s: Sys)
  {
    && (forall c :: s.handling[c] <= s.dispatched[c])
    && (forall r :: r in s.responses ==> s.handling[r.origin] < s.dispatched[r.origin])
    && (forall q, r :: q in s.responses && r in s.responses && q.origin == r.origin ==> q == r)
  }

  lemma AnswersStep(s: Sys, e: Step)
    requires AnswersInv(s) && RequestsInv(s) && Enabled(s, e)
    ensures AnswersInv(Next(s, e))
  {
    match e
    case Respond(c, code) => RespondStep(s, c, code);
    case _ =>
      StepExtends(s, e);
      forall c ensures Next(s, e).handling[c] - s.handling[c] == Next(s, e).dispatched[c] - s.dispatched[c] {
      }
  }

  lemma RespondStep(s: Sys, c: nat, code: byte)
    requires AnswersInv(s) && RequestsInv(s) && Enabled(s, Respond(c, code))
    ensures AnswersInv(Next(s, Respond(c, code)))
  {
    assert Copies(s, c) <= 1;
  }

  /** Each request is answered at most once: two response frames for one call are copies of each other. */
  lemma {:induction false} OneAnswerPerCall(ss: seq<Sys>, es: seq<Step>)
    requires IsRun(ss, es)
    ensures AnswersInv(ss[|es|])
    ensures forall q, r :: q in ss[|es|].responses && r in ss[|es|].responses && q.origin == r.origin ==> q == r
  {
    if |es| > 0 {
      var n := |es| - 1;
      OneAnswerPerCall(ss[..n + 1], es[..n]);
      RunInv(ss[..n + 1], es[..n]);
      AnswersStep(ss[n], es[n]);
    }
  }

  lemma ResponsesGrow(s: Sys, e: Step)
    requires Enabled(s, e)
    ensures s.responses <= Next(s, e).responses
  {
  }

  lemma {:induction false} ResponsesStay(ss: seq<Sys>, es: seq<Step>, i: nat, k: nat)
    requires IsRun(ss, es) && i <= k <= |es|
    ensures ss[i].responses <= ss[k].responses
    decreases k
  {
    if i < k {
      ResponsesStay(ss, es, i, k - 1);
      ResponsesGrow(ss[k - 1], es[k - 1]);
    }
  }

  /** What the server answers is on its way from then on: the code it gave, under the call's number. */
  lemma AnswerIsSent(ss: seq<Sys>, es: seq<Step>, i: nat, c: nat, code: byte)
    requires IsRun(ss, es) && i < |es| && es[i] == Respond(c, code)
    ensures Response(c % 0x1_0000_0000_0000_0000, c, code) in ss[|es|].responses
  {
    RunInv(ss[..i + 1], es[..i]);
    ResponsesStay(ss, es, i + 1, |es|);
    assert Response(c % 0x1_0000_0000_0000_0000, c, code) in Next(ss[i], es[i]).responses;
  }

  /** No copy of a queued request is left. */
  ghost predicate Gone(s: Sys, c: nat)
  {
    c < |s.calls| && !s.calls[c].phase.Inserted? && Copies(s, c) == 0
  }

  lemma GoneStep(s: Sys, e: Step, c: nat)
    requires Gone(s, c) && Enabled(s, e)
    ensures Gone(Next(s, e), c)
  {
    CopiesStep(s, e, c);
    PhaseStep(s, e, c);
  }

  lemma LossStep(s: Sys, e: Step, c: nat)
    requires RequestsInv(s) && Enabled(s, e) && (e == LoseRequest(c) || (e == DropFront && s.queue[0] == c))
    ensures Gone(Next(s, e), c)
  {
    assert Copies(s, c) <= 1;
    if e.DropFront? {
      assert s.queue == [c] + s.queue[1..];
    }
    assert Copies(s, c) > 0;
    PhaseStep(s, e, c);
  }

  lemma {:induction false} GoneAfter(ss: seq<Sys>, es: seq<Step>, i: nat, c: nat)
    requires IsRun(ss, es) && i < |es| && (es[i] == LoseRequest(c) || (es[i] == DropFront && ss[i].queue[0] == c))
    ensures Gone(ss[|es|], c)
    decreases |es|
  {
    var n := |es| - 1;
    if i < n {
      GoneAfter(ss[..n + 1], es[..n], i, c);
      GoneStep(ss[n], es[n], c);
    } else {
      RunInv(ss[..n + 1], es[..n]);
      LossStep(ss[n], es[n], c);
    }
  }

  /** A request that is lost, on the wire or in front of the queue, is never dispatched and never answered. */
  lemma LostIsNeverAnswered(ss: seq<Sys>, es: seq<Step>, i: nat, c: nat)
    requires IsRun(ss, es) && i < |es| && (es[i] == LoseRequest(c) || (es[i] == DropFront && ss[i].queue[0] == c))
    ensures ss[|es|].dispatched[c] == 0 && forall r :: r in ss[|es|].responses ==> r.origin != c
  {
    RunInv(ss, es);
    GoneAfter(ss, es, i, c);
    assert forall r :: r in ss[|es|].responses ==> Genuine(ss[|es|], r);
  }

  /** The calls whose requests were queued, in order: those enqueued while the client was open. */
  function Queued(ss: seq<Sys>, es: seq<Step>): seq<nat>
    requires |ss| == |es| + 1
  {
    if es == [] then []
    else
      var n := |es| - 1;
      Queued(ss[..n + 1], es[..n]) + if es[n].Enqueue? && !ss[n].closed then [es[n].c] else []
  }

  /** How many requests left the queue. */
  function Removed(es: seq<Step>): nat
  {
    if es == [] then 0
    else
      var n := |es| - 1;
      Removed(es[..n]) + if es[n].SendFront? || es[n].DropFront? then 1 else 0
  }

  /** Requests leave the queue in the order in which they were queued. */
  lemma {:induction false} QueueIsFifo(ss: seq<Sys>, es: seq<Step>)
    requires IsRun(ss, es)
    ensures Removed(es) <= |Queued(ss, es)| && ss[|es|].queue == Queued(ss, es)[Removed(es)..]
  {
    if |es| > 0 {
      var n := |es| - 1;
      QueueIsFifo(ss[..n + 1], es[..n]);
      QueueStep(ss[n], es[n]);
    }
  }

  lemma QueueStep(s: Sys, e: Step)
    requires Enabled(s, e)
    ensures Next(s, e).queue ==
            if e.Enqueue? && !s.closed then s.queue + [e.c] else if e.SendFront? || e.DropFront? then s.queue[1..] else s.queue
  {
  }

  // ---- the receive loop can hang -----------------------------------------------------------

  /** The receive loop is pushing into a channel that belongs to no call. */
  ghost predicate Hung(s: Sys)
  {
    && s.receiver.Pushing?
    && s.receiver.chan < s.nextChan
    && forall i :: 0 <= i < |s.calls| ==> s.calls[i].chan != s.receiver.chan
  }

  /** No step of anyone lets it go on. */
  lemma HungStep(s: Sys, e: Step)
    requires Hung(s) && Enabled(s, e)
    ensures Hung(Next(s, e)) && Next(s, e).receiver == s.receiver
  {
    StepExtends(s, e);
  }

  /** Once it does, it does so for ever: in every run it is still there in every later state. */
  lemma {:induction false} HungForever(ss: seq<Sys>, es: seq<Step>, i: nat, j: nat)
    requires IsRun(ss, es) && i <= j <= |es| && Hung(ss[i])
    ensures Hung(ss[j]) && ss[j].receiver == ss[i].receiver
    decreases j
  {
    if i < j {
      HungForever(ss, es, i, j - 1);
      HungStep(ss[j - 1], es[j - 1]);
    }
  }

  /** Every entry of the map is some call's channel. */
  ghost predicate AllOwned(s: Sys)
  {
    forall id :: id in s.outstanding ==> exists i :: 0 <= i < |s.calls| && s.calls[i].chan == s.outstanding[id]
  }

  lemma OwnedStep(s: Sys, e: Step)
    requires IdsInv(s) && Enabled(s, e) && (Hung(s) || AllOwned(s))
    ensures Hung(Next(s, e)) || AllOwned(Next(s, e))
  {
    var s' := Next(s, e);
    StepExtends(s, e);
    if !Hung(s) && !Hung(s') {
      forall id | id in s'.outstanding
        ensures exists i :: 0 <= i < |s'.calls| && s'.calls[i].chan == s'.outstanding[id]
      {
        if id in s.outstanding {
          var i :| 0 <= i < |s.calls| && s.calls[i].chan == s.outstanding[id];
          assert s'.calls[i].chan == s'.outstanding[id];
        } else {
          assert e.Begin?;
          assert s'.calls[|s.calls|].chan == s'.outstanding[id];
        }
      }
    }
  }

  lemma {:induction false} RunOwned(ss: seq<Sys>, es: seq<Step>)
    requires IsRun(ss, es)
    ensures Hung(ss[|es|]) || AllOwned(ss[|es|])
  {
    if |es| > 0 {
      var n := |es| - 1;
      RunOwned(ss[..n + 1], es[..n]);
      RunInv(ss[..n + 1], es[..n]);
      OwnedStep(ss[n], es[n]);
    }
  }

  /** In every run it happens exactly when the entry was erased between the unlocked `find` and the
      `operator[]`. */
  lemma HangsIffErased(ss: seq<Sys>, es: seq<Step>)
    requires IsRun(ss, es) && ss[|es|].receiver.Found?
    ensures var s := ss[|es|]; Hung(Next(s, Index)) <==> s.receiver.response.id !in s.outstanding
  {
    RunInv(ss, es);
    RunOwned(ss, es);
  }

  // ---- where a response goes ---------------------------------------------------------------

  /** A call has its entry until it finishes, and not afterwards. */
  ghost predicate EntriesExact(s: Sys)
  {
    && (forall id :: id in s.outstanding ==> id < |s.calls|)
    && (forall c :: 0 <= c < |s.calls| ==>
          if s.calls[c].phase.Finished? then s.calls[c].id !in s.outstanding
          else s.calls[c].id in s.outstanding && s.outstanding[s.calls[c].id] == s.calls[c].chan)
  }

  lemma EntriesExactStep(s: Sys, e: Step)
    requires IdsInv(s) && EntriesExact(s) && Enabled(s, e) && |Next(s, e).calls| <= ID_MODULUS
    ensures Hung(Next(s, e)) || EntriesExact(Next(s, e))
  {
    StepExtends(s, e);
    PlainIds(s);
    match e
    case Begin => BeginExact(s);
    case Index => IndexExact(s);
    case Finish(c) => FinishExact(s, c);
    case _ => OthersExact(s, e);
  }

  lemma PlainIds(s: Sys)
    requires IdsInv(s) && |s.calls| <= ID_MODULUS
    ensures forall i :: 0 <= i < |s.calls| ==> s.calls[i].id == i
    ensures |s.calls| < ID_MODULUS ==> s.nextId == |s.calls|
  {
  }

  lemma BeginExact(s: Sys)
    requires EntriesExact(s) && s.nextId == |s.calls| && (forall i :: 0 <= i < |s.calls| ==> s.calls[i].id == i)
    requires Enabled(s, Begin)
    ensures EntriesExact(Next(s, Begin))
  {
  }

  lemma IndexExact(s: Sys)
    requires IdsInv(s) && EntriesExact(s) && Enabled(s, Index)
    ensures Hung(Next(s, Index)) || EntriesExact(Next(s, Index))
  {
  }

  lemma FinishExact(s: Sys, c: nat)
    requires EntriesExact(s) && Enabled(s, Finish(c)) && (forall i :: 0 <= i < |s.calls| ==> s.calls[i].id == i)
    ensures EntriesExact(Next(s, Finish(c)))
  {
  }

  lemma OthersExact(s: Sys, e: Step)
    requires EntriesExact(s) && Enabled(s, e) && !e.Begin? && !e.Index? && !e.Finish?
    ensures EntriesExact(Next(s, e))
  {
    var s' := Next(s, e);
    StepExtends(s, e);
    assert s'.outstanding == s.outstanding && |s'.calls| == |s.calls|;
    forall c | 0 <= c < |s.calls| ensures s'.calls[c].phase.Finished? == s.calls[c].phase.Finished? {
      PhaseStep(s, e, c);
    }
  }

  /** As long as ids have not come round and the receive loop does not hang, the map holds the calls that have not
      finished, each with its own channel, and nothing else. */
  lemma {:induction false} EntryIffUnfinished(ss: seq<Sys>, es: seq<Step>)
    requires IsRun(ss, es) && |ss[|es|].calls| <= ID_MODULUS
    ensures Hung(ss[|es|]) || EntriesExact(ss[|es|])
  {
    if |es| > 0 {
      var n := |es| - 1;
      StepExtends(ss[n], es[n]);
      EntryIffUnfinished(ss[..n + 1], es[..n]);
      RunInv(ss[..n + 1], es[..n]);
      if Hung(ss[n]) {
        HungStep(ss[n], es[n]);
      } else {
        EntriesExactStep(ss[n], es[n]);
      }
    }
  }

  /** So the receive loop takes up a response if and only if the call it answers has not finished; one that comes
      later is dropped. */
  lemma ResponseIsRouted(ss: seq<Sys>, es: seq<Step>, r: Response)
    requires IsRun(ss, es) && |ss[|es|].calls| <= ID_MODULUS && Enabled(ss[|es|], Receive(r))
    ensures var s := ss[|es|];
            && r.origin < |s.calls|
            && Next(s, Receive(r)).receiver == if s.calls[r.origin].phase.Finished? then Listening else Found(r)
  {
    RunInv(ss, es);
    EntryIffUnfinished(ss, es);
    assert Genuine(ss[|es|], r);
  }

  /** An entry keeps its channel until its call finishes, also when the id comes round and is inserted again. */
  lemma EntryKeepsChannel(s: Sys, e: Step, id: nat)
    requires Enabled(s, e) && id in s.outstanding && (e.Finish? ==> s.calls[e.c].id != id)
    ensures id in Next(s, e).outstanding && Next(s, e).outstanding[id] == s.outstanding[id]
  {
  }

  const ANSWER := Response(0, 0, 1)

  lemma RequestReachable() returns (ss: seq<Sys>, es: seq<Step>)
    ensures IsRun(ss, es)
    ensures ss[|es|] == Sys(false, 1, 1, [Call(0, 0, Waiting)], map[0 := 0], [], multiset{0}, multiset{}, multiset{}, {},
                            Listening)
  {
    ss, es := [INIT], [];
    ss, es := Extend(ss, es, Begin);
    ss, es := Extend(ss, es, Enqueue(0));
    ss, es := Extend(ss, es, SendFront);
  }

  lemma AnswerReachable() returns (ss: seq<Sys>, es: seq<Step>)
    ensures IsRun(ss, es)
    ensures ss[|es|] == Sys(false, 1, 1, [Call(0, 0, Waiting)], map[0 := 0], [], multiset{}, multiset{0}, multiset{}, {ANSWER},
                            Found(ANSWER))
  {
    ss, es := RequestReachable();
    ss, es := Extend(ss, es, Dispatch(0));
    ss, es := Extend(ss, es, Respond(0, 1));
    ss, es := Extend(ss, es, Receive(ANSWER));
  }

  /** And it does happen: the answer is found, the call times out and erases its entry, the push goes astray. */
  lemma HangIsReachable() returns (ss: seq<Sys>, es: seq<Step>)
    ensures IsRun(ss, es) && Hung(ss[|es|])
  {
    ss, es := AnswerReachable();
    ss, es := Extend(ss, es, TimeOut(0));
    ss, es := Extend(ss, es, Finish(0));
    ss, es := Extend(ss, es, Index);
  }

  /** A push to the channel of a call that no step has released yet is released by steps of that call: it takes the
      response, or finishes and lets the push fall on a closed channel. */
  lemma CallReleasesPush(s: Sys, c: nat)
    requires s.receiver.Pushing? && c < |s.calls| && s.calls[c].chan == s.receiver.chan
    ensures match s.calls[c].phase
            case Inserted => Enabled(s, Enqueue(c)) && Enabled(Next(s, Enqueue(c)), Deliver(c))
            case Waiting =>
              && Enabled(s, Deliver(c)) && Next(s, Deliver(c)).receiver == Listening
              && Next(s, Deliver(c)).calls[c].phase == Got(s.receiver.response)
            case Finished(_) =>
              && Enabled(s, PushClosed(c)) && Next(s, PushClosed(c)).receiver == Listening
              && Next(s, PushClosed(c)).calls == s.calls
            case _ => Enabled(s, Finish(c)) && Enabled(Next(s, Finish(c)), PushClosed(c))
  {
  }

  /** A call can complete: its request is sent, dispatched and answered, and the answer is its result. */
  lemma CompletionIsReachable() returns (ss: seq<Sys>, es: seq<Step>)
    ensures IsRun(ss, es) && |ss[|es|].calls| == 1 && ss[|es|].calls[0].phase == Finished(Some(ANSWER))
    ensures ss[|es|].dispatched[0] == 1 && ss[|es|].outstanding == map[] && ss[|es|].receiver == Listening
  {
    ss, es := AnswerReachable();
    ss, es := Extend(ss, es, Index);
    ss, es := Extend(ss, es, Deliver(0));
    ss, es := Extend(ss, es, Finish(0));
  }

  lemma Extend(ss: seq<Sys>, es: seq<Step>, e: Step) returns (ss': seq<Sys>, es': seq<Step>)
    requires IsRun(ss, es) && Enabled(ss[|es|], e)
    ensures IsRun(ss', es') && |es'| == |es| + 1 && ss'[|es'|] == Next(ss[|es|], e)
  {
    ss', es' := ss + [Next(ss[|es|], e)], es + [e];
  }
}
