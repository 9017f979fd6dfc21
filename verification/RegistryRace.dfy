/** Discovery and unregistering side by side.  Both take the reader lock, so the walk over the multimap and the erasures
    interleave; a registration takes the writer lock and interleaves with neither. */
module RegistryRace {
  import opened Bytes
  import opened Registry

  /** A multimap node: erasing it invalidates the iterators that point to it. */
  datatype Node = Node(id: nat, entry: Entry)

  /** Where a discovery is: its iterator is the node `at`, and it has collected `found`. */
  datatype Reader =
    | Idle
    | Walking(name: Str, at: nat, found: seq<Str>)
    | Finished(name: Str, found: seq<Str>)

  datatype Sys = Sys(nodes: seq<Node>, nextId: nat, unregistering: bool, erasing: seq<nat>, reader: Reader)

  datatype Step =
    | Register(entry: Entry)
    | BeginUnregister(addr: Str)
    | EraseOne
    | EndUnregister
    | BeginDiscover(name: Str)
    | Visit

  const INIT := Sys([], 0, false, [], Idle)

  /** The addresses under a name, in order. */
  function Values(nodes: seq<Node>, name: Str): seq<Str>
  {
    if nodes == [] then []
    else
      var n := |nodes| - 1;
      Values(nodes[..n], name) + if nodes[n].entry.key == name then [nodes[n].entry.value] else []
  }

  /** The first node under a name from `from` on, or the end. */
  function FirstFrom(nodes: seq<Node>, from: nat, name: Str): (j: nat)
    requires from <= |nodes|
    ensures from <= j <= |nodes| && (j < |nodes| ==> nodes[j].entry.key == name)
    ensures forall i :: from <= i < j ==> nodes[i].entry.key != name
    decreases |nodes| - from
  {
    if from == |nodes| || nodes[from].entry.key == name then from else FirstFrom(nodes, from + 1, name)
  }

  function IndexOf(nodes: seq<Node>, id: nat): (i: nat)
    ensures i <= |nodes| && (i < |nodes| ==> nodes[i].id == id)
    ensures i == |nodes| ==> forall k :: 0 <= k < |nodes| ==> nodes[k].id != id
  {
    if nodes == [] || nodes[0].id == id then 0 else 1 + IndexOf(nodes[1..], id)
  }

  function IdsOf(nodes: seq<Node>, addr: Str): seq<nat>
  {
    if nodes == [] then [] else (if nodes[0].entry.value == addr then [nodes[0].id] else []) + IdsOf(nodes[1..], addr)
  }

  /** The iterator at node `j`, or the end of the walk. */
  function At(nodes: seq<Node>, j: nat, name: Str, found: seq<Str>): Reader
    requires j <= |nodes|
  {
    if j == |nodes| then Finished(name, found) else Walking(name, nodes[j].id, found)
  }

  /** The iterator of a walk points to a node that is gone. */
  predicate Dangling(s: Sys)
  {
    s.reader.Walking? && IndexOf(s.nodes, s.reader.at) == |s.nodes|
  }

  predicate Enabled(s: Sys, e: Step)
  {
    match e
    case Register(_) => !s.unregistering && !s.reader.Walking?
    case BeginUnregister(_) => !s.unregistering
    case EraseOne => s.unregistering && s.erasing != []
    case EndUnregister => s.unregistering && s.erasing == []
    case BeginDiscover(_) => !s.reader.Walking?
    case Visit => s.reader.Walking? && !Dangling(s)
  }

  function Next(s: Sys, e: Step): Sys
    requires Enabled(s, e)
  {
    match e
    case Register(entry) => s.(nodes := s.nodes + [Node(s.nextId, entry)], nextId := s.nextId + 1)
    case BeginUnregister(addr) => s.(unregistering := true, erasing := IdsOf(s.nodes, addr))
    case EraseOne =>
      var i := IndexOf(s.nodes, s.erasing[0]);
      s.(erasing := s.erasing[1..], nodes := if i < |s.nodes| then s.nodes[..i] + s.nodes[i + 1..] else s.nodes)
    case EndUnregister => s.(unregistering := false)
    case BeginDiscover(name) => s.(reader := At(s.nodes, FirstFrom(s.nodes, 0, name), name, []))
    case Visit =>
      var i, r := IndexOf(s.nodes, s.reader.at), s.reader;
      s.(reader := At(s.nodes, FirstFrom(s.nodes, i + 1, r.name), r.name, r.found + [s.nodes[i].entry.value]))
  }

  ghost predicate IsRun(ss: seq<Sys>, es: seq<Step>)
  {
    && |ss| == |es| + 1
    && ss[0] == INIT
    && forall i :: 0 <= i < |es| ==> Enabled(ss[i], es[i]) && ss[i + 1] == Next(ss[i], es[i])
  }

  /** What the writer lock would add: unregistering and walking exclude each other. */
  predicate Exclusive(s: Sys, e: Step)
  {
    (e.BeginUnregister? ==> !s.reader.Walking?) && (e.BeginDiscover? ==> !s.unregistering)
  }

  ghost predicate Inv(s: Sys)
  {
    && (forall i, j :: 0 <= i < j < |s.nodes| ==> s.nodes[i].id != s.nodes[j].id)
    && (forall i :: 0 <= i < |s.nodes| ==> s.nodes[i].id < s.nextId)
    && (s.reader.Walking? ==>
          var i := IndexOf(s.nodes, s.reader.at);
          && !s.unregistering && i < |s.nodes| && s.nodes[i].entry.key == s.reader.name
          && s.reader.found == Values(s.nodes[..i], s.reader.name))
  }

  lemma {:induction false} ValuesSkip(nodes: seq<Node>, i: nat, j: nat, name: Str)
    requires i <= j <= |nodes| && forall k :: i <= k < j ==> nodes[k].entry.key != name
    ensures Values(nodes[..j], name) == Values(nodes[..i], name)
    decreases j
  {
    if i < j {
      ValuesSkip(nodes, i, j - 1, name);
      assert nodes[..j][..j - 1] == nodes[..j - 1];
    }
  }

  lemma IndexUnique(nodes: seq<Node>, i: nat)
    requires i < |nodes| && forall i, j :: 0 <= i < j < |nodes| ==> nodes[i].id != nodes[j].id
    ensures IndexOf(nodes, nodes[i].id) == i
  {
  }

  /** Moving the iterator to node `j` with everything before it collected. */
  lemma AtIsExact(nodes: seq<Node>, i: nat, name: Str, found: seq<Str>)
    requires i <= |nodes| && found == Values(nodes[..i], name)
    requires forall i, j :: 0 <= i < j < |nodes| ==> nodes[i].id != nodes[j].id
    ensures var j := FirstFrom(nodes, i, name);
            && Values(nodes[..j], name) == found
            && (j == |nodes| ==> found == Values(nodes, name))
            && (j < |nodes| ==> IndexOf(nodes, nodes[j].id) == j)
  {
    var j := FirstFrom(nodes, i, name);
    ValuesSkip(nodes, i, j, name);
    if j == |nodes| {
      assert nodes[..j] == nodes;
    } else {
      IndexUnique(nodes, j);
    }
  }

  lemma VisitStep(s: Sys)
    requires Inv(s) && Enabled(s, Visit)
    ensures Inv(Next(s, Visit))
    ensures var r := Next(s, Visit).reader; r.Finished? ==> r.found == Values(s.nodes, r.name)
  {
    var i, name := IndexOf(s.nodes, s.reader.at), s.reader.name;
    assert s.nodes[..i + 1][..i] == s.nodes[..i];
    AtIsExact(s.nodes, i + 1, name, s.reader.found + [s.nodes[i].entry.value]);
  }

  lemma InvStep(s: Sys, e: Step)
    requires Inv(s) && Enabled(s, e) && Exclusive(s, e)
    ensures Inv(Next(s, e))
  {
    match e
    case Visit => VisitStep(s);
    case BeginDiscover(name) =>
      assert Values(s.nodes[..0], name) == [];
      AtIsExact(s.nodes, 0, name, []);
    case EraseOne => EraseStep(s);
    case Register(_) => RegisterStep(s, e);
    case _ =>
  }

  lemma RegisterStep(s: Sys, e: Step)
    requires Inv(s) && Enabled(s, e) && e.Register?
    ensures Inv(Next(s, e))
  {
  }

  lemma EraseStep(s: Sys)
    requires Inv(s) && Enabled(s, EraseOne)
    ensures Inv(Next(s, EraseOne))
  {
    var i, nodes := IndexOf(s.nodes, s.erasing[0]), Next(s, EraseOne).nodes;
    if i < |s.nodes| {
      forall k | 0 <= k < |nodes| ensures nodes[k] == s.nodes[if k < i then k else k + 1] {
      }
    }
  }

  lemma {:induction false} RunInv(ss: seq<Sys>, es: seq<Step>)
    requires IsRun(ss, es) && forall i :: 0 <= i < |es| ==> Exclusive(ss[i], es[i])
    ensures Inv(ss[|es|])
  {
    if |es| > 0 {
      var n := |es| - 1;
      RunInv(ss[..n + 1], es[..n]);
      InvStep(ss[n], es[n]);
    }
  }

  /** With exclusion, in every run no walk is ever left with a dead iterator, and one that ends has collected exactly
      the addresses that stand under its name. */
  lemma ExclusiveRunsAreExact(ss: seq<Sys>, es: seq<Step>)
    requires IsRun(ss, es) && forall i :: 0 <= i < |es| ==> Exclusive(ss[i], es[i])
    ensures !Dangling(ss[|es|])
    ensures Enabled(ss[|es|], Visit) ==>
              var r := Next(ss[|es|], Visit).reader;
              r.Finished? ==> r.found == Values(ss[|es|].nodes, r.name)
  {
    RunInv(ss, es);
    if Enabled(ss[|es|], Visit) {
      VisitStep(ss[|es|]);
    }
  }

  // ---- the nodes and the history -----------------------------------------------------------

  /** The entries of the nodes that are not about to be erased. */
  function Standing(nodes: seq<Node>, erasing: seq<nat>): seq<Entry>
  {
    if nodes == [] then []
    else (if nodes[0].id in erasing then [] else [nodes[0].entry]) + Standing(nodes[1..], erasing)
  }

  /** The registrations and disconnects of a run; a disconnect counts from when its erasures begin. */
  function HistoryOf(es: seq<Step>): seq<Event>
  {
    if es == [] then []
    else
      var n := |es| - 1;
      HistoryOf(es[..n]) + match es[n]
                           case Register(entry) => [Event.Register(entry.key, entry.value)]
                           case BeginUnregister(addr) => [Disconnect(addr)]
                           case _ => []
  }

  ghost predicate Distinct(nodes: seq<Node>)
  {
    forall i, j :: 0 <= i < j < |nodes| ==> nodes[i].id != nodes[j].id
  }

  lemma {:induction false} StandingSnoc(nodes: seq<Node>, node: Node, erasing: seq<nat>)
    ensures Standing(nodes + [node], erasing) == Standing(nodes, erasing) + if node.id in erasing then [] else [node.entry]
  {
    var l := nodes + [node];
    if nodes == [] {
      assert l[1..] == [];
    } else {
      assert l[1..] == nodes[1..] + [node];
      StandingSnoc(nodes[1..], node, erasing);
    }
  }

  /** Erasures done or still to do make no difference where no node has their id. */
  lemma {:induction false} StandingSame(nodes: seq<Node>, e: seq<nat>, f: seq<nat>)
    requires forall i :: 0 <= i < |nodes| ==> (nodes[i].id in e <==> nodes[i].id in f)
    ensures Standing(nodes, e) == Standing(nodes, f)
  {
    if nodes != [] {
      StandingSame(nodes[1..], e, f);
    }
  }

  lemma {:induction false} StandingErased(nodes: seq<Node>, i: nat, erasing: seq<nat>)
    requires Distinct(nodes) && i < |nodes| && erasing != [] && nodes[i].id == erasing[0]
    ensures Standing(nodes[..i] + nodes[i + 1..], erasing[1..]) == Standing(nodes, erasing)
  {
    var rest := nodes[..i] + nodes[i + 1..];
    if i == 0 {
      assert rest == nodes[1..];
      StandingSame(rest, erasing, erasing[1..]);
      assert [] + Standing(nodes[1..], erasing) == Standing(nodes[1..], erasing);
    } else {
      assert rest[1..] == nodes[1..][..i - 1] + nodes[1..][i..];
      StandingErased(nodes[1..], i - 1, erasing);
      assert nodes[0].id != nodes[i].id;
    }
  }

  lemma {:induction false} IdsBelong(nodes: seq<Node>, addr: Str, id: nat)
    requires id in IdsOf(nodes, addr)
    ensures exists k :: 0 <= k < |nodes| && nodes[k].id == id
  {
    if nodes[0].id != id {
      IdsBelong(nodes[1..], addr, id);
      var k :| 0 <= k < |nodes[1..]| && nodes[1..][k].id == id;
      assert nodes[k + 1].id == id;
    }
  }

  /** Exactly the nodes of an address are erased. */
  lemma {:induction false} IdsOfAddress(nodes: seq<Node>, addr: Str, k: nat)
    requires Distinct(nodes) && k < |nodes|
    ensures nodes[k].id in IdsOf(nodes, addr) <==> nodes[k].entry.value == addr
  {
    if k > 0 {
      IdsOfAddress(nodes[1..], addr, k - 1);
      assert nodes[0].id != nodes[k].id;
    } else if nodes[0].id in IdsOf(nodes[1..], addr) {
      IdsBelong(nodes[1..], addr, nodes[0].id);
    }
  }

  lemma {:induction false} StandingWithout(nodes: seq<Node>, erasing: seq<nat>, addr: Str)
    requires forall k :: 0 <= k < |nodes| ==> (nodes[k].id in erasing <==> nodes[k].entry.value == addr)
    ensures Standing(nodes, erasing) == WithoutValue(Standing(nodes, []), addr)
  {
    if nodes != [] {
      StandingWithout(nodes[1..], erasing, addr);
      WithoutValueCons(nodes[0].entry, Standing(nodes[1..], []), addr);
    }
  }

  /** What the nodes and the pending erasures say is the history so far. */
  ghost predicate Stands(s: Sys, h: seq<Event>)
  {
    && Distinct(s.nodes) && (forall i :: 0 <= i < |s.nodes| ==> s.nodes[i].id < s.nextId)
    && (!s.unregistering ==> s.erasing == [])
    && (forall i :: 0 <= i < |s.erasing| ==> s.erasing[i] < s.nextId)
    && Standing(s.nodes, s.erasing) == Live(h)
  }

  lemma RegisterStands(s: Sys, h: seq<Event>, entry: Entry)
    requires Stands(s, h) && Enabled(s, Step.Register(entry))
    ensures Stands(Next(s, Step.Register(entry)), h + [Event.Register(entry.key, entry.value)])
  {
    StandingSnoc(s.nodes, Node(s.nextId, entry), s.erasing);
    LiveRegister(h, entry.key, entry.value);
  }

  lemma BeginStands(s: Sys, h: seq<Event>, addr: Str)
    requires Stands(s, h) && Enabled(s, BeginUnregister(addr))
    ensures Stands(Next(s, BeginUnregister(addr)), h + [Disconnect(addr)])
  {
    var ids := IdsOf(s.nodes, addr);
    forall k | 0 <= k < |s.nodes| ensures s.nodes[k].id in ids <==> s.nodes[k].entry.value == addr {
      IdsOfAddress(s.nodes, addr, k);
    }
    forall i | 0 <= i < |ids| ensures ids[i] < s.nextId {
      IdsBelong(s.nodes, addr, ids[i]);
    }
    StandingWithout(s.nodes, ids, addr);
    LiveDisconnect(h, addr);
  }

  lemma EraseStands(s: Sys, h: seq<Event>)
    requires Stands(s, h) && Enabled(s, EraseOne)
    ensures Stands(Next(s, EraseOne), h)
  {
    var i, nodes := IndexOf(s.nodes, s.erasing[0]), Next(s, EraseOne).nodes;
    if i < |s.nodes| {
      forall k | 0 <= k < |nodes| ensures nodes[k] == s.nodes[if k < i then k else k + 1] {
      }
      StandingErased(s.nodes, i, s.erasing);
    } else {
      StandingSame(s.nodes, s.erasing, s.erasing[1..]);
    }
  }

  /** An unregistering always comes to its end: each erasure leaves one less to do, and after the last the nodes are what
      stands after the disconnect. */
  lemma UnregisterEnds(s: Sys, h: seq<Event>)
    requires Stands(s, h) && s.unregistering
    ensures if s.erasing == []
            then Enabled(s, EndUnregister)
                 && var s' := Next(s, EndUnregister); !s'.unregistering && Stands(s', h) && Standing(s'.nodes, []) == Live(h)
            else Enabled(s, EraseOne)
                 && var s' := Next(s, EraseOne); s'.unregistering && |s'.erasing| < |s.erasing| && Stands(s', h)
  {
    if s.erasing != [] {
      EraseStands(s, h);
    }
  }

  lemma StandsStep(s: Sys, h: seq<Event>, e: Step) returns (g: seq<Event>)
    requires Stands(s, h) && Enabled(s, e)
    ensures g == h + match e
                     case Register(entry) => [Event.Register(entry.key, entry.value)]
                     case BeginUnregister(addr) => [Disconnect(addr)]
                     case _ => []
    ensures Stands(Next(s, e), g)
  {
    assert h + [] == h;
    g := h;
    match e
    case Register(entry) =>
      RegisterStands(s, h, entry);
      g := h + [Event.Register(entry.key, entry.value)];
    case BeginUnregister(addr) =>
      BeginStands(s, h, addr);
      g := h + [Disconnect(addr)];
    case EraseOne => EraseStands(s, h);
    case _ =>
  }

  /** In every run, exclusive or not, the nodes that are not about to be erased are the registrations that stand after
      the registrations and disconnects of the run. */
  lemma {:induction false} RunStands(ss: seq<Sys>, es: seq<Step>)
    requires IsRun(ss, es)
    ensures Stands(ss[|es|], HistoryOf(es))
  {
    if |es| > 0 {
      var n := |es| - 1;
      RunStands(ss[..n + 1], es[..n]);
      var g := StandsStep(ss[n], HistoryOf(es[..n]), es[n]);
      assert g == HistoryOf(es);
    }
  }

  lemma {:induction false} ValuesIsRange(nodes: seq<Node>, name: Str)
    ensures Values(nodes, name) == Range(Standing(nodes, []), name)
  {
    if nodes != [] {
      var n := |nodes| - 1;
      ValuesIsRange(nodes[..n], name);
      assert nodes == nodes[..n] + [nodes[n]];
      StandingSnoc(nodes[..n], nodes[n], []);
      RangeSnoc(Standing(nodes[..n], []), nodes[n].entry, name);
    }
  }

  /** So under exclusion a discovery, whatever it interleaves with, ends with what the sequential lookup would find in
      the history of the run. */
  lemma ExclusiveDiscoveryIsLookup(ss: seq<Sys>, es: seq<Step>, e: Step)
    requires IsRun(ss, es) && forall i :: 0 <= i < |es| ==> Exclusive(ss[i], es[i])
    requires Enabled(ss[|es|], e) && Exclusive(ss[|es|], e) && (e.Visit? || e.BeginDiscover?)
    ensures var r := Next(ss[|es|], e).reader;
            r.Finished? ==> r.found == Range(Live(HistoryOf(es)), r.name) && (e.BeginDiscover? ==> r.name == e.name)
  {
    var s := ss[|es|];
    RunInv(ss, es);
    RunStands(ss, es);
    if e.Visit? {
      VisitStep(s);
      ValuesIsRange(s.nodes, s.reader.name);
    } else {
      assert Values(s.nodes[..0], e.name) == [];
      AtIsExact(s.nodes, 0, e.name, []);
      ValuesIsRange(s.nodes, e.name);
    }
  }

  /** Nothing but the erasure of the very node a walk is at leaves its iterator dead. */
  lemma OnlyErasureDangles(s: Sys, e: Step)
    requires Enabled(s, e) && !Dangling(s) && Dangling(Next(s, e))
    ensures e == EraseOne && s.reader.Walking? && s.erasing[0] == s.reader.at
  {
    if e.EraseOne? && s.reader.Walking? && IndexOf(s.nodes, s.erasing[0]) < |s.nodes| {
      ErasureKeeps(s.nodes, IndexOf(s.nodes, s.erasing[0]), s.reader.at);
    }
  }

  lemma ErasureKeeps(nodes: seq<Node>, i: nat, id: nat)
    requires i < |nodes| && IndexOf(nodes, id) < |nodes|
    ensures var rest := nodes[..i] + nodes[i + 1..]; IndexOf(rest, id) < |rest| || nodes[i].id == id
  {
    var k, rest := IndexOf(nodes, id), nodes[..i] + nodes[i + 1..];
    if k != i {
      assert rest[if k < i then k else k - 1] == nodes[k];
    }
  }

  /** As the code locks, it happens: a discovery stands at the only node of a service when its provider disconnects. */
  lemma DanglingIsReachable(entry: Entry) returns (ss: seq<Sys>, es: seq<Step>)
    ensures IsRun(ss, es) && Dangling(ss[|es|])
  {
    ss, es := [INIT], [];
    ss, es := Extend(ss, es, Step.Register(entry));
    ss, es := Extend(ss, es, BeginDiscover(entry.key));
    ss, es := Extend(ss, es, BeginUnregister(entry.value));
    ss, es := Extend(ss, es, EraseOne);
  }

  lemma Extend(ss: seq<Sys>, es: seq<Step>, e: Step) returns (ss': seq<Sys>, es': seq<Step>)
    requires IsRun(ss, es) && Enabled(ss[|es|], e)
    ensures IsRun(ss', es') && |es'| == |es| + 1 && ss'[|es'|] == Next(ss[|es|], e)
  {
    ss', es' := ss + [Next(ss[|es|], e)], es + [e];
  }
}
