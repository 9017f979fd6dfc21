/** The heartbeat of one connection: timer callback, queue, wire, server and reply. */
module Heartbeat {

  /** `answered` is the response flag of the client.  `inCallback` marks a timer callback that has queued its
      heartbeat and not cleared the flag yet.  `lastHandled` and `raced` record history: the reply to the latest
      heartbeat has been handled, and it was handled while `inCallback`. */
  datatype Conn = Conn(
    closed: bool, answered: bool, inCallback: bool,
    queued: nat, onWire: nat, atServer: nat, replies: nat,
    lastHandled: bool, raced: bool)

  /** After `connect` the flag is set and nothing is outstanding. */
  const INIT := Conn(false, true, false, 0, 0, 0, 0, true, false)

  datatype Step =
    | TickQueue      // the callback finds the flag set and queues a heartbeat
    | TickClear      // and clears the flag
    | TickClose      // the callback finds the flag clear and closes the client
    | Send | Arrive | Reply | HandleReply
    | LoseQueued | LoseOnWire | LoseAtServer | LoseReply

  function InFlight(c: Conn): nat
  {
    c.queued + c.onWire + c.atServer + c.replies
  }

  predicate Enabled(c: Conn, e: Step)
  {
    match e
    case TickQueue => !c.closed && !c.inCallback && c.answered
    case TickClear => c.inCallback
    case TickClose => !c.closed && !c.inCallback && !c.answered
    case Send => c.queued > 0
    case Arrive => c.onWire > 0
    case Reply => c.atServer > 0
    case HandleReply => c.replies > 0
    case LoseQueued => c.queued > 0
    case LoseOnWire => c.onWire > 0
    case LoseAtServer => c.atServer > 0
    case LoseReply => c.replies > 0
  }

  function Next(c: Conn, e: Step): Conn
    requires Enabled(c, e)
  {
    match e
    case TickQueue => c.(inCallback := true, queued := c.queued + 1, lastHandled := false, raced := false)
    case TickClear => c.(inCallback := false, answered := false)
    case TickClose => c.(closed := true)
    case Send => c.(queued := c.queued - 1, onWire := c.onWire + 1)
    case Arrive => c.(onWire := c.onWire - 1, atServer := c.atServer + 1)
    case Reply => c.(atServer := c.atServer - 1, replies := c.replies + 1)
    case HandleReply => c.(replies := c.replies - 1, answered := true, lastHandled := true, raced := c.inCallback)
    case LoseQueued => c.(queued := c.queued - 1)
    case LoseOnWire => c.(onWire := c.onWire - 1)
    case LoseAtServer => c.(atServer := c.atServer - 1)
    case LoseReply => c.(replies := c.replies - 1)
  }

  ghost predicate IsRun(cs: seq<Conn>, es: seq<Step>)
  {
    && |cs| == |es| + 1
    && cs[0] == INIT
    && forall i :: 0 <= i < |es| ==> Enabled(cs[i], es[i]) && cs[i + 1] == Next(cs[i], es[i])
  }

  /** The callback runs as one step: the flag is cleared right after the heartbeat is queued. */
  ghost predicate CallbackIsOneStep(es: seq<Step>)
  {
    forall i :: 0 <= i < |es| - 1 && es[i] == TickQueue ==> es[i + 1] == TickClear
  }

  ghost predicate Inv(c: Conn)
  {
    && InFlight(c) <= (if c.lastHandled then 0 else 1)
    && (c.raced ==> c.lastHandled)
    && (if c.inCallback then c.answered && (c.raced <==> c.lastHandled)
        else c.answered <==> c.lastHandled && !c.raced)
  }

  lemma {:induction false} RunInv(cs: seq<Conn>, es: seq<Step>)
    requires IsRun(cs, es)
    ensures Inv(cs[|es|])
  {
    if |es| > 0 {
      RunInv(cs[..|es|], es[..|es| - 1]);
      assert cs[..|es|][|es| - 1] == cs[|es| - 1];
    }
  }

  /** Outside the callback at most one heartbeat is anywhere between the client's queue and its receive loop,
      and none when the flag is set. */
  lemma AtMostOneOutstanding(cs: seq<Conn>, es: seq<Step>)
    requires IsRun(cs, es) && !cs[|es|].inCallback
    ensures InFlight(cs[|es|]) <= (if cs[|es|].answered then 0 else 1)
  {
    RunInv(cs, es);
  }

  /** A tick closes the client although the latest heartbeat was answered if and only if the answer was handled
      between the queueing and the clearing of the flag. */
  lemma WrongCloseIffRaced(cs: seq<Conn>, es: seq<Step>)
    requires IsRun(cs, es) && Enabled(cs[|es|], TickClose)
    ensures cs[|es|].lastHandled <==> cs[|es|].raced
  {
    RunInv(cs, es);
  }

  /** With the callback taken as one step that does not happen: a tick closes the client only when the reply to
      the previous heartbeat has not been handled. */
  lemma {:induction false} NoRaceInOneStep(cs: seq<Conn>, es: seq<Step>)
    requires IsRun(cs, es) && CallbackIsOneStep(es)
    ensures !cs[|es|].raced
  {
    if |es| > 0 {
      var n := |es| - 1;
      NoRaceInOneStep(cs[..n + 1], es[..n]);
      if es[n] == HandleReply && cs[n].inCallback {
        InCallbackAfterQueue(cs, es, n);
      }
    }
  }

  /** In such a run the callback is under way only right after its first half. */
  lemma {:induction false} InCallbackAfterQueue(cs: seq<Conn>, es: seq<Step>, n: nat)
    requires IsRun(cs, es) && CallbackIsOneStep(es) && n <= |es| && cs[n].inCallback
    ensures n > 0 && es[n - 1] == TickQueue
    decreases n
  {
    assert n > 0;
    var c, e := cs[n - 1], es[n - 1];
    assert Enabled(c, e) && cs[n] == Next(c, e);
    if c.inCallback {
      InCallbackAfterQueue(cs, es, n - 1);
      assert false;
    }
  }

  lemma CloseOnlyUnanswered(cs: seq<Conn>, es: seq<Step>)
    requires IsRun(cs, es) && CallbackIsOneStep(es) && Enabled(cs[|es|], TickClose)
    ensures !cs[|es|].lastHandled
  {
    NoRaceInOneStep(cs, es);
    WrongCloseIffRaced(cs, es);
  }

  /** Nothing of the latest heartbeat is left and its reply was not handled. */
  ghost predicate Dead(c: Conn)
  {
    !c.inCallback && !c.answered && InFlight(c) == 0
  }

  /** A heartbeat or a reply that is lost outside the callback is lost for good, */
  lemma LossKills(cs: seq<Conn>, es: seq<Step>, i: nat)
    requires IsRun(cs, es) && i < |es| && !cs[i].inCallback
    requires es[i].LoseQueued? || es[i].LoseOnWire? || es[i].LoseAtServer? || es[i].LoseReply?
    ensures Dead(cs[i + 1])
  {
    AtMostOneOutstanding(cs[..i + 1], es[..i]);
  }

  /** and from then on the connection can only be closed, by the next tick, and it stays closed. */
  lemma {:induction false} DeadStays(cs: seq<Conn>, es: seq<Step>, i: nat, j: nat)
    requires IsRun(cs, es) && i <= j <= |es| && Dead(cs[i])
    ensures Dead(cs[j]) && (Enabled(cs[j], TickClose) <==> !cs[j].closed)
    ensures forall e :: Enabled(cs[j], e) ==> e == TickClose
    ensures i < j ==> cs[j].closed
    decreases j
  {
    if i < j {
      DeadStays(cs, es, i, j - 1);
    }
  }

  /** As two steps it does happen: a fast reply is forgotten and the next tick closes a live connection. */
  lemma WrongCloseIsReachable() returns (cs: seq<Conn>, es: seq<Step>)
    ensures IsRun(cs, es) && cs[|es|].closed && cs[|es|].lastHandled
  {
    cs, es := [INIT], [];
    cs, es := Extend(cs, es, TickQueue);
    cs, es := Extend(cs, es, Send);
    cs, es := Extend(cs, es, Arrive);
    cs, es := Extend(cs, es, Reply);
    cs, es := Extend(cs, es, HandleReply);
    cs, es := Extend(cs, es, TickClear);
    cs, es := Extend(cs, es, TickClose);
  }

  lemma Extend(cs: seq<Conn>, es: seq<Step>, e: Step) returns (cs': seq<Conn>, es': seq<Step>)
    requires IsRun(cs, es) && Enabled(cs[|es|], e)
    ensures IsRun(cs', es') && |es'| == |es| + 1 && cs'[|es'|] == Next(cs[|es|], e)
  {
    cs', es' := cs + [Next(cs[|es|], e)], es + [e];
  }
}
