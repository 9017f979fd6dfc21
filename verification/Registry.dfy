/** The service registry: two multimaps that mirror each other, and the history they represent. */
module Registry {
  import opened Bytes
  import opened Codec
  import opened SerialModel
  import opened ProtocolModel
  import opened AddressText
  import opened Protocols
  import opened StreamModel
  import opened Sessions

  type Str = seq<byte>

  /** A multimap entry.  A multimap is its entries in insertion order; `equal_range` is the entries of a key. */
  datatype Entry = Entry(key: Str, value: Str)

  function Range(m: seq<Entry>, key: Str): seq<Str>
  {
    if m == [] then [] else (if m[0].key == key then [m[0].value] else []) + Range(m[1..], key)
  }

  function WithoutKey(m: seq<Entry>, key: Str): seq<Entry>
  {
    if m == [] then [] else (if m[0].key == key then [] else [m[0]]) + WithoutKey(m[1..], key)
  }

  function WithoutValue(m: seq<Entry>, value: Str): seq<Entry>
  {
    if m == [] then [] else (if m[0].value == value then [] else [m[0]]) + WithoutValue(m[1..], value)
  }

  /** The second multimap holds the first one's entries with key and value exchanged. */
  predicate Mirrors(providers: seq<Entry>, services: seq<Entry>)
  {
    && |providers| == |services|
    && forall i :: 0 <= i < |providers| ==> services[i] == Entry(providers[i].value, providers[i].key)
  }

  /** Some service is registered twice for `addr`. */
  ghost predicate Duplicated(providers: seq<Entry>, addr: Str)
  {
    exists e: Entry :: multiset(providers)[e] >= 2 && e.value == addr
  }

  // ---- histories ---------------------------------------------------------------------------

  datatype Event = Register(service: Str, addr: Str) | Disconnect(addr: Str)

  predicate DisconnectedIn(h: seq<Event>, addr: Str)
  {
    exists i :: 0 <= i < |h| && h[i] == Disconnect(addr)
  }

  /** The registrations of a history that no later disconnect of their address undid, in order. */
  function Live(h: seq<Event>): seq<Entry>
  {
    if h == [] then []
    else (if h[0].Register? && !DisconnectedIn(h[1..], h[0].addr) then [Entry(h[0].service, h[0].addr)] else [])
         + Live(h[1..])
  }

  lemma {:induction false} LiveRegister(h: seq<Event>, service: Str, addr: Str)
    ensures Live(h + [Register(service, addr)]) == Live(h) + [Entry(service, addr)]
  {
    var g := h + [Register(service, addr)];
    if h == [] {
      assert g[1..] == [];
    } else {
      assert g[1..] == h[1..] + [Register(service, addr)];
      LiveRegister(h[1..], service, addr);
      if h[0].Register? {
        var t, u := h[1..], g[1..];
        assert forall i :: 0 <= i < |t| ==> t[i] == u[i];
        assert DisconnectedIn(t, h[0].addr) <==> DisconnectedIn(u, h[0].addr);
      }
    }
  }

  lemma {:induction false} LiveDisconnect(h: seq<Event>, addr: Str)
    ensures Live(h + [Disconnect(addr)]) == WithoutValue(Live(h), addr)
  {
    var g := h + [Disconnect(addr)];
    if h == [] {
      assert g[1..] == [];
    } else {
      assert g[1..] == h[1..] + [Disconnect(addr)];
      LiveDisconnect(h[1..], addr);
      if h[0].Register? {
        var t, u := h[1..], g[1..];
        assert forall i :: 0 <= i < |t| ==> t[i] == u[i];
        assert u[|t|] == Disconnect(addr);
        assert DisconnectedIn(u, h[0].addr) <==> DisconnectedIn(t, h[0].addr) || h[0].addr == addr;
        WithoutValueCons(Entry(h[0].service, h[0].addr), Live(t), addr);
      }
      assert [] + Live(h[1..]) == Live(h[1..]) && [] + Live(g[1..]) == Live(g[1..]);
    }
  }

  lemma WithoutValueCons(e: Entry, m: seq<Entry>, value: Str)
    ensures WithoutValue([e] + m, value) == (if e.value == value then [] else [e]) + WithoutValue(m, value)
  {
    assert ([e] + m)[1..] == m;
  }

  lemma {:induction false} MirrorsWithout(providers: seq<Entry>, services: seq<Entry>, addr: Str)
    requires Mirrors(providers, services)
    ensures Mirrors(WithoutValue(providers, addr), WithoutKey(services, addr))
  {
    if providers != [] {
      MirrorsWithout(providers[1..], services[1..], addr);
    }
  }

  lemma AfterDisconnect(h: seq<Event>, providers: seq<Entry>, services: seq<Entry>, addr: Str) returns (g: seq<Event>)
    requires Mirrors(providers, services) && providers == Live(h)
    ensures g == h + [Disconnect(addr)]
    ensures Mirrors(WithoutValue(providers, addr), WithoutKey(services, addr)) && WithoutValue(providers, addr) == Live(g)
  {
    g := h + [Disconnect(addr)];
    LiveDisconnect(h, addr);
    MirrorsWithout(providers, services, addr);
  }

  // ---- the erased positions ----------------------------------------------------------------

  /** The positions, from `from` on, of the entries equal to `e`. */
  function PositionsOf(providers: seq<Entry>, e: Entry, from: nat): seq<nat>
    decreases |providers| - from
  {
    if from >= |providers| then []
    else (if providers[from] == e then [from] else [])
         + PositionsOf(providers, e, from + 1)
  }

  /** The positions collected for all services listed. */
  function Collected(providers: seq<Entry>, services: seq<Str>, addr: Str): seq<nat>
  {
    if services == [] then []
    else PositionsOf(providers, Entry(services[0], addr), 0) + Collected(providers, services[1..], addr)
  }

  lemma PositionsStep(front: seq<nat>, providers: seq<Entry>, e: Entry, p: nat)
    requires p < |providers|
    ensures var next := if providers[p] == e then front + [p] else front;
            front + PositionsOf(providers, e, p) == next + PositionsOf(providers, e, p + 1)
  {
  }

  lemma CollectedStep(front: seq<nat>, providers: seq<Entry>, names: seq<Str>, i: nat, addr: Str)
    requires i < |names|
    ensures front + Collected(providers, names[i..], addr)
            == front + PositionsOf(providers, Entry(names[i], addr), 0) + Collected(providers, names[i + 1..], addr)
  {
    assert names[i..][1..] == names[i + 1..];
  }

  lemma CountFirst(hit: bool, from: nat, rest: seq<nat>, p: nat)
    ensures multiset((if hit then [from] else []) + rest)[p] == (if hit && from == p then 1 else 0) + multiset(rest)[p]
  {
    CountCons(from, rest, p);
    assert [] + rest == rest;
  }

  lemma {:induction false} PositionsCount(providers: seq<Entry>, e: Entry, from: nat, p: nat)
    ensures multiset(PositionsOf(providers, e, from))[p]
            == if from <= p < |providers| && providers[p] == e then 1 else 0
    decreases |providers| - from
  {
    if from < |providers| {
      PositionsCount(providers, e, from + 1, p);
      var rest := PositionsOf(providers, e, from + 1);
      CountFirst(providers[from] == e, from, rest, p);
    }
  }

  lemma CountCons<T>(x: T, s: seq<T>, y: T)
    ensures multiset([x] + s)[y] == (if x == y then 1 else 0) + multiset(s)[y]
  {
  }

  lemma CountConcat(a: seq<nat>, b: seq<nat>, p: nat)
    ensures multiset(a + b)[p] == multiset(a)[p] + multiset(b)[p]
  {
  }

  /** A position of `addr` is collected as often as its service is listed. */
  lemma {:induction false} CollectedCount(providers: seq<Entry>, services: seq<Str>, addr: Str, p: nat)
    ensures multiset(Collected(providers, services, addr))[p]
            == if p < |providers| && providers[p].value == addr then multiset(services)[providers[p].key] else 0
  {
    if services != [] {
      PositionsCount(providers, Entry(services[0], addr), 0, p);
      CollectedCount(providers, services[1..], addr, p);
      CountConcat(PositionsOf(providers, Entry(services[0], addr), 0), Collected(providers, services[1..], addr), p);
      assert services == [services[0]] + services[1..];
      if p < |providers| {
        CountCons(services[0], services[1..], providers[p].key);
      }
    }
  }

  /** A service is listed for `addr` as often as it is registered for it. */
  lemma {:induction false} RangeCount(providers: seq<Entry>, services: seq<Entry>, addr: Str, service: Str)
    requires Mirrors(providers, services)
    ensures multiset(Range(services, addr))[service] == multiset(providers)[Entry(service, addr)]
  {
    if providers != [] {
      RangeCount(providers[1..], services[1..], addr, service);
      assert providers == [providers[0]] + providers[1..];
    }
  }

  /** The entries at positions not erased. */
  function Kept(m: seq<Entry>, erased: set<nat>, from: nat): seq<Entry>
    requires from <= |m|
    decreases |m| - from
  {
    if from == |m| then [] else (if from in erased then [] else [m[from]]) + Kept(m, erased, from + 1)
  }

  lemma {:induction false} KeptIsWithout(m: seq<Entry>, erased: set<nat>, addr: Str, from: nat)
    requires from <= |m|
    requires forall p :: 0 <= p < |m| ==> (p in erased <==> m[p].value == addr)
    ensures Kept(m, erased, from) == WithoutValue(m[from..], addr)
    decreases |m| - from
  {
    if from < |m| {
      KeptIsWithout(m, erased, addr, from + 1);
      assert m[from..][1..] == m[from + 1..];
    }
  }

  ghost predicate Repeats(del: seq<nat>)
  {
    exists p :: multiset(del)[p] >= 2
  }

  /** Nothing is erased twice if and only if no service is registered twice for the address. */
  lemma TwiceIffDuplicated(providers: seq<Entry>, services: seq<Entry>, addr: Str)
    requires Mirrors(providers, services)
    ensures var del := Collected(providers, Range(services, addr), addr);
            Repeats(del) <==> Duplicated(providers, addr)
  {
    var names := Range(services, addr);
    var del := Collected(providers, names, addr);
    if Duplicated(providers, addr) {
      var e: Entry :| multiset(providers)[e] >= 2 && e.value == addr;
      assert e in providers;
      var p :| 0 <= p < |providers| && providers[p] == e;
      CollectedCount(providers, names, addr, p);
      RangeCount(providers, services, addr, e.key);
    }
    if Repeats(del) {
      var p :| multiset(del)[p] >= 2;
      CollectedCount(providers, names, addr, p);
      RangeCount(providers, services, addr, providers[p].key);
    }
  }

  /** Every position of the address is collected, and no other. */
  lemma CollectedAll(providers: seq<Entry>, services: seq<Entry>, addr: Str, p: nat)
    requires Mirrors(providers, services) && p < |providers|
    ensures p in multiset(Collected(providers, Range(services, addr), addr)) <==> providers[p].value == addr
  {
    CollectedCount(providers, Range(services, addr), addr, p);
    RangeCount(providers, services, addr, providers[p].key);
    assert providers[p] in multiset(providers);
  }

  /** Erasing what was collected leaves the other addresses' entries. */
  lemma KeptAfterErase(providers: seq<Entry>, services: seq<Entry>, addr: Str, erased: set<nat>)
    requires Mirrors(providers, services)
    requires var del := Collected(providers, Range(services, addr), addr);
             forall p :: p in erased <==> p in multiset(del)
    ensures Kept(providers, erased, 0) == WithoutValue(providers, addr)
  {
    forall p | 0 <= p < |providers|
      ensures p in erased <==> providers[p].value == addr
    {
      CollectedAll(providers, services, addr, p);
    }
    KeptIsWithout(providers, erased, addr, 0);
    assert providers[0..] == providers;
  }

  lemma {:induction false} KeptNone(m: seq<Entry>, from: nat)
    requires from <= |m|
    ensures Kept(m, {}, from) == m[from..]
    decreases |m| - from
  {
    if from < |m| {
      KeptNone(m, from + 1);
      assert m[from..] == [m[from]] + m[from + 1..];
    }
  }

  /** An address without services has no providers' entries. */
  lemma NothingToRemove(providers: seq<Entry>, services: seq<Entry>, addr: Str)
    requires Mirrors(providers, services) && Range(services, addr) == []
    ensures WithoutValue(providers, addr) == providers && !Duplicated(providers, addr)
  {
    forall p | 0 <= p < |providers|
      ensures providers[p].value != addr
    {
      CollectedAll(providers, services, addr, p);
    }
    KeptIsWithout(providers, {}, addr, 0);
    KeptNone(providers, 0);
    assert providers[0..] == providers;
  }

  // ---- requests and sessions ---------------------------------------------------------------

  const DISCOVER_REQUEST: byte := 2
  const DISCOVER_RESPONSE: byte := 3
  const PROVIDER: byte := 4
  const REGISTER_REQUEST: byte := 5
  const REGISTER_RESPONSE: byte := 6
  const RPC_PROTOCOL_FORMAT_ERROR: byte := 9

  const CANNOT_PARSE: Str := Ascii("cannot parse msg content")
  const UNREGISTERED: Str := Ascii("service discover with unregister name:")
  const UNKNOWN_FORMAT: Str := Ascii("service discover with unknown name format")

  /** What `recvProtocol` gives the session loop: null at the end of the session, an exception, a fault, or a message. */
  datatype Request =
    | Null
    | Throws
    | Faults
    | Heartbeat
    | Discover(payload: seq<byte>, id: nat)
    | Provider(payload: seq<byte>)
    | RegisterService(payload: seq<byte>, id: nat)
    | Other

  function RequestOf(received: Outcome<Option<Msg>>): Request
  {
    match received
    case OutOfRange => Throws
    case BadAccess => Faults
    case Ok(None) => Null
    case Ok(Some(m)) =>
      if m.kind == HEARTBEAT then Heartbeat
      else if m.kind == DISCOVER_REQUEST then Discover(m.payload, m.id)
      else if m.kind == PROVIDER then Provider(m.payload)
      else if m.kind == REGISTER_REQUEST then RegisterService(m.payload, m.id)
      else Other
  }

  /** `handleProvider`: the port decoded from the payload, cut to 16 bits, in the text of the peer's IPv4 address.  An
      unreadable port throws, and a peer of another family is a null pointer. */
  function ProviderKey(peer: Address, payload: seq<byte>): Outcome<Str>
  {
    match ParseVarint(payload, 0, 32, 0)
    case Short => OutOfRange
    case Parsed(port, _) => if peer.V4? then Ok(Ascii(Text4(peer.addr, port % 65536))) else BadAccess
  }

  /** When a provider's announcement throws, when it faults and what key it gives. */
  lemma ProviderKeyIs(peer: Address, payload: seq<byte>)
    ensures ProviderKey(peer, payload) == OutOfRange <==> ParseVarint(payload, 0, 32, 0) == Short
    ensures ProviderKey(peer, payload) == BadAccess <==> ParseVarint(payload, 0, 32, 0).Parsed? && peer.V6?
    ensures ParseVarint(payload, 0, 32, 0).Parsed? && peer.V4? ==>
              ProviderKey(peer, payload) == Ok(Ascii(Text4(peer.addr, ParseVarint(payload, 0, 32, 0).value % 0x1_0000)))
  {
  }

  /** A provider that announces its port is registered under the text that reads back as its peer address and that port,
      its low sixteen bits if it has more. */
  lemma AnnouncedAddress(peer: Address, port: nat, tail: seq<byte>) returns (text: string)
    requires peer.V4? && peer.Valid() && port < Pow2(32)
    ensures ProviderKey(peer, Varint(port) + tail) == Ok(Ascii(text)) && SevenBit(text)
    ensures ReadText4(text) == Some((peer.addr, port % 0x1_0000))
  {
    text := Text4(peer.addr, port % 0x1_0000);
    VarintRoundTrip(port, 32, tail);
    ProviderKeyIs(peer, Varint(port) + tail);
    Text4IsAscii(peer.addr, port % 0x1_0000);
    Text4RoundTrip(peer.addr, port % 0x1_0000);
  }

  /** Two providers share a key only when they share address and port. */
  lemma ProviderKeysDistinct(a: Address, b: Address, p: seq<byte>, q: seq<byte>)
    requires a.V4? && a.Valid() && b.V4? && b.Valid() && ProviderKey(a, p).Ok? && ProviderKey(a, p) == ProviderKey(b, q)
    ensures a.addr == b.addr
    ensures ParseVarint(p, 0, 32, 0).value % 65536 == ParseVarint(q, 0, 32, 0).value % 65536
  {
    var m, n := ParseVarint(p, 0, 32, 0).value % 65536, ParseVarint(q, 0, 32, 0).value % 65536;
    Text4IsAscii(a.addr, m);
    Text4IsAscii(b.addr, n);
    AsciiInjective(Text4(a.addr, m), Text4(b.addr, n));
    Text4RoundTrip(a.addr, m);
    Text4RoundTrip(b.addr, n);
  }

  lemma AsciiInjective(s: string, t: string)
    requires SevenBit(s) && SevenBit(t) && Ascii(s) == Ascii(t)
    ensures s == t
  {
    assert |s| == |Ascii(s)| == |Ascii(t)| == |t|;
    forall i | 0 <= i < |s| ensures s[i] == t[i] {
      assert Ascii(s)[i] == Ascii(t)[i];
      assert Octet(s[i]) == Octet(t[i]);
    }
  }

  datatype Served = Continue(reply: Option<Msg>) | Ended

  /** The local state of `handleClient`. */
  class Session {
    const peer: Address
    var isProvider: bool
    var addr: Str

    constructor (peer: Address)
      ensures this.peer == peer && !isProvider && addr == []
    {
      this.peer := peer;
      isProvider, addr := false, [];
    }
  }

  function Strings(addrs: seq<Str>): (vs: seq<Val>)
    ensures |vs| == |addrs| && forall i :: 0 <= i < |addrs| ==> vs[i] == VString(addrs[i])
  {
    if addrs == [] then [] else [VString(addrs[0])] + Strings(addrs[1..])
  }

  function AddressList(addrs: seq<Str>): Val
  {
    VSeq(Strings(addrs))
  }

  lemma RangeStep(front: seq<Str>, m: seq<Entry>, i: nat, name: Str)
    requires i < |m|
    ensures var next := if m[i].key == name then front + [m[i].value] else front;
            front + Range(m[i..], name) == next + Range(m[i + 1..], name)
  {
    assert m[i..][1..] == m[i + 1..];
  }

  /** Counts and lengths fit `size_t`. */
  predicate Sized(m: seq<Entry>)
  {
    |m| < Pow2(64) && forall i :: 0 <= i < |m| ==> HasType(VString(m[i].value), TString)
  }

  lemma {:induction false} RangeSized(m: seq<Entry>, name: Str)
    requires forall i :: 0 <= i < |m| ==> HasType(VString(m[i].value), TString)
    ensures |Range(m, name)| <= |m|
    ensures forall i :: 0 <= i < |Range(m, name)| ==> HasType(VString(Range(m, name)[i]), TString)
  {
    if m != [] {
      RangeSized(m[1..], name);
    }
  }

  lemma AddressesTyped(m: seq<Entry>, name: Str)
    requires Sized(m)
    ensures HasType(AddressList(Range(m, name)), TVector(TString))
  {
    RangeSized(m, name);
    ListTyped(Range(m, name), TString);
  }

  lemma ListTyped(addrs: seq<Str>, t: Ty)
    requires |addrs| < Pow2(64) && forall i :: 0 <= i < |addrs| ==> HasType(VString(addrs[i]), t)
    ensures HasType(AddressList(addrs), TVector(t))
  {
  }

  lemma {:induction false} RangeSnoc(m: seq<Entry>, e: Entry, name: Str)
    ensures Range(m + [e], name) == Range(m, name) + if e.key == name then [e.value] else []
  {
    var l := m + [e];
    if m == [] {
      assert l[1..] == [];
    } else {
      assert l[1..] == m[1..] + [e];
      RangeSnoc(m[1..], e, name);
    }
  }

  /** Discovery follows the history: a registration puts its address behind those that stand under its name, */
  lemma DiscoveredAfterRegister(h: seq<Event>, service: Str, addr: Str, name: Str)
    ensures Range(Live(h + [Register(service, addr)]), name) == Range(Live(h), name) + if service == name then [addr] else []
  {
    LiveRegister(h, service, addr);
    RangeSnoc(Live(h), Entry(service, addr), name);
  }

  /** The addresses other than `addr`, in order. */
  function Others(addrs: seq<Str>, addr: Str): seq<Str>
  {
    if addrs == [] then []
    else
      var n := |addrs| - 1;
      Others(addrs[..n], addr) + if addrs[n] == addr then [] else [addrs[n]]
  }

  lemma {:induction false} OthersCons(a: Str, addrs: seq<Str>, addr: Str)
    ensures Others([a] + addrs, addr) == (if a == addr then [] else [a]) + Others(addrs, addr)
  {
    var l := [a] + addrs;
    if addrs == [] {
      assert l[..0] == [];
    } else {
      var n := |addrs| - 1;
      assert l[..|l| - 1] == [a] + addrs[..n];
      OthersCons(a, addrs[..n], addr);
    }
  }

  lemma {:induction false} RangeWithout(m: seq<Entry>, addr: Str, name: Str)
    ensures Range(WithoutValue(m, addr), name) == Others(Range(m, name), addr)
  {
    if m != [] {
      var rest := WithoutValue(m[1..], addr);
      RangeWithout(m[1..], addr, name);
      if m[0].value != addr {
        assert ([m[0]] + rest)[1..] == rest;
      } else {
        assert [] + rest == rest;
      }
      if m[0].key == name {
        OthersCons(m[0].value, Range(m[1..], name), addr);
      } else {
        assert [] + Range(m[1..], name) == Range(m[1..], name);
      }
    }
  }

  /** and a disconnect takes its address out of every name and leaves the others as they were. */
  lemma DiscoveredAfterDisconnect(h: seq<Event>, addr: Str, name: Str)
    ensures Range(Live(h + [Disconnect(addr)]), name) == Others(Range(Live(h), name), addr)
  {
    LiveDisconnect(h, addr);
    RangeWithout(Live(h), addr, name);
  }

  /** After a disconnect the address is discovered under no name. */
  lemma {:induction false} NotDiscovered(m: seq<Entry>, addr: Str, name: Str)
    ensures addr !in Range(WithoutValue(m, addr), name)
  {
    if m != [] {
      NotDiscovered(m[1..], addr, name);
      var rest := WithoutValue(m[1..], addr);
      if m[0].value != addr {
        assert ([m[0]] + rest)[1..] == rest;
      } else {
        assert [] + rest == rest;
      }
    }
  }

  lemma DisconnectedNotDiscovered(h: seq<Event>, addr: Str, name: Str)
    ensures addr !in Range(Live(h + [Disconnect(addr)]), name)
  {
    LiveDisconnect(h, addr);
    NotDiscovered(Live(h), addr, name);
  }

  // ---- responses ---------------------------------------------------------------------------

  /** The response to a registration. */
  function RegisterReply(payload: seq<byte>, id: nat): Msg
  {
    if payload == [] then Created(REGISTER_RESPONSE, RPC_SUCCESS, [], [], 0)
    else if ParseStringVint(payload).Parsed? then Created(REGISTER_RESPONSE, RPC_SUCCESS, [], [], id)
    else Created(REGISTER_RESPONSE, RPC_PROTOCOL_FORMAT_ERROR, CANNOT_PARSE, [], id)
  }

  /** The name a discovery asks for; an unreadable one is looked up as the empty string. */
  function NameIn(payload: seq<byte>): Str
  {
    var p := ParseStringVint(payload);
    if p.Parsed? then p.value else []
  }

  function EncodeAddresses(addrs: seq<Str>): seq<byte>
    requires HasType(AddressList(addrs), TVector(TString))
  {
    Encode(AddressList(addrs), TVector(TString), false)
  }

  /** The addresses that stand under a name, as a reply carries them. */
  function AddressBytes(live: seq<Entry>, name: Str): seq<byte>
    requires Sized(live)
  {
    AddressesTyped(live, name);
    EncodeAddresses(Range(live, name))
  }

  /** The text a reply carries. */
  function ReplyText(live: seq<Entry>, payload: seq<byte>): seq<byte>
  {
    if Range(live, NameIn(payload)) == [] then UNREGISTERED + NameIn(payload)
    else if ParseStringVint(payload).Parsed? then [] else UNKNOWN_FORMAT
  }

  /** The response to a discovery when the registrations in `live` stand. */
  function DiscoverReply(live: seq<Entry>, payload: seq<byte>, id: nat): Msg
    requires Sized(live)
  {
    var code := if Range(live, NameIn(payload)) == [] then RPC_NO_METHOD else RPC_SUCCESS;
    Created(DISCOVER_RESPONSE, code, ReplyText(live, payload), AddressBytes(live, NameIn(payload)), id)
  }

  /** The payload of a reply decodes to exactly the addresses that stand under the name, in registration order. */
  lemma ReplyHoldsAddresses(live: seq<Entry>, payload: seq<byte>, id: nat)
    requires Sized(live)
    ensures Decode(TVector(TString), DiscoverReply(live, payload, id).payload, false)
            == Parsed(AddressList(Range(live, NameIn(payload))), [])
  {
    var addrs := Range(live, NameIn(payload));
    AddressesTyped(live, NameIn(payload));
    RoundTrip(AddressList(addrs), TVector(TString), false, []);
    assert EncodeAddresses(addrs) + [] == EncodeAddresses(addrs);
  }

  /** The sizes a discovery reply is built from are those of strings in memory. */
  predicate Fits(live: seq<Entry>, payload: seq<byte>, id: nat)
    requires Sized(live)
  {
    && id < Pow2(64) && |NameIn(payload)| < Pow2(62)
    && |DiscoverReply(live, payload, id).payload| < Pow2(63)
  }

  lemma ReplyIsCreated(live: seq<Entry>, payload: seq<byte>, id: nat)
    requires Sized(live)
    ensures var reply := DiscoverReply(live, payload, id);
            reply == Created(DISCOVER_RESPONSE, reply.errCode, ReplyText(live, payload), reply.payload, id)
            && reply.errCode < 128
  {
  }

  lemma TextBound(live: seq<Entry>, payload: seq<byte>)
    requires |NameIn(payload)| < Pow2(62)
    ensures |ReplyText(live, payload)| < Pow2(63)
  {
    var h62 := Pow2(62);
    assert Pow2(63) == 2 * h62 && h62 > 1000;
  }

  /** A reply's frame is the header, its text and its content, and parses back if and only if there is no text. */
  lemma ReplyFrame(live: seq<Entry>, payload: seq<byte>, id: nat, tail: seq<byte>)
    requires Sized(live) && Fits(live, payload, id)
    ensures var reply, text := DiscoverReply(live, payload, id), ReplyText(live, payload);
            && (text == [] ==> Frame(reply).Ok? && |Frame(reply).value| == HEADER_LEN + |AddressBytes(live, NameIn(payload))|)
            && (Frame(reply).Ok? ==> (ParseFrame(Frame(reply).value + tail) == Ok(Some((reply, tail))) <==> text == []))
  {
    var reply, text := DiscoverReply(live, payload, id), ReplyText(live, payload);
    ReplyIsCreated(live, payload, id);
    TextBound(live, payload);
    FrameParsesBackIff(DISCOVER_RESPONSE, reply.errCode, text, reply.payload, id, tail);
    var h63 := Pow2(63);
    assert Pow2(64) == 2 * h63;
    CreatedFrame(DISCOVER_RESPONSE, reply.errCode, text, reply.payload, id);
  }

  /** Discovery end to end: the reply is sent whole in one frame that, whatever follows on the wire, parses back to the
      reply, and so to exactly the standing addresses in registration order, if and only if the request's name is
      readable, has a standing address, and header and addresses fit a chunk. */
  lemma DiscoverRoundTrip(live: seq<Entry>, payload: seq<byte>, id: nat, tail: seq<byte>)
    requires Sized(live) && Fits(live, payload, id)
    ensures var reply, name := DiscoverReply(live, payload, id), NameIn(payload);
            && ((&& !SendFaults(true, Frame(reply)) && |Frame(reply).value| <= BASE_SIZE
                 && ParseFrame(Frame(reply).value + tail) == Ok(Some((reply, tail))))
                <==> && ParseStringVint(payload).Parsed? && Range(live, name) != []
                     && HEADER_LEN + |AddressBytes(live, name)| <= BASE_SIZE)
            && Decode(TVector(TString), reply.payload, false) == Parsed(AddressList(Range(live, name)), [])
  {
    ReplyHoldsAddresses(live, payload, id);
    ReplyFrame(live, payload, id, tail);
  }

  /** For a name nobody stands under the reply cannot even be framed: its text is longer than its one byte of content. */
  lemma UnregisteredHasNoFrame(live: seq<Entry>, payload: seq<byte>, id: nat)
    requires Sized(live) && |NameIn(payload)| < Pow2(62) && Range(live, NameIn(payload)) == []
    ensures Frame(DiscoverReply(live, payload, id)) == BadAccess
  {
    var reply := DiscoverReply(live, payload, id);
    ReplyIsCreated(live, payload, id);
    TextBound(live, payload);
    EmptyList();
    CreatedFrame(DISCOVER_RESPONSE, reply.errCode, ReplyText(live, payload), reply.payload, id);
  }

  lemma EmptyList()
    ensures HasType(AddressList([]), TVector(TString)) && |EncodeAddresses([])| == 1
  {
    assert Strings([]) == [];
    assert EncodeAll([], TString, false) == [];
  }

  /** Nor can the reply to a registration whose name cannot be read. */
  lemma UnreadableRegistrationHasNoFrame(payload: seq<byte>, id: nat)
    requires payload != [] && ParseStringVint(payload) == Short
    ensures Frame(RegisterReply(payload, id)) == BadAccess
  {
    var h63 := Pow2(63);
    assert Pow2(64) == 2 * h63 && h63 > 1000;
    CreatedFrame(REGISTER_RESPONSE, RPC_PROTOCOL_FORMAT_ERROR, CANNOT_PARSE, [], id);
  }

  /** What a request adds to the history. */
  function EventsOf(isProvider: bool, addr: Str, req: Request): seq<Event>
  {
    match req
    case Null => if isProvider then [Disconnect(addr)] else []
    case RegisterService(payload, _) =>
      var p := ParseStringVint(payload);
      if payload != [] && p.Parsed? then [Register(p.value, addr)] else []
    case _ => []
  }

  /** The address a session has once a request is handled. */
  function KeyAfter(peer: Address, addr: Str, req: Request): Str
  {
    if req.Provider? && ProviderKey(peer, req.payload).Ok? then ProviderKey(peer, req.payload).value else addr
  }

  function ReplyTo(live: seq<Entry>, req: Request): Option<Msg>
    requires Sized(live)
  {
    match req
    case Heartbeat => Some(BLANK.(kind := HEARTBEAT))
    case Discover(payload, id) => Some(DiscoverReply(live, payload, id))
    case RegisterService(payload, id) => Some(RegisterReply(payload, id))
    case _ => None
  }

  /** A reply is sent while the session is connected, and sending it may fault. */
  function Responded(connected: bool, rsp: Option<Msg>): Outcome<Served>
  {
    if connected && rsp.Some? && SendFaults(true, Frame(rsp.value)) then BadAccess else Ok(Continue(rsp))
  }

  /** The registration a message of type 5 makes: one if its name can be read and none otherwise. */
  function RegisteredBy(payload: seq<byte>, addr: Str): seq<Event>
  {
    var p := ParseStringVint(payload);
    if p.Parsed? then [Register(p.value, addr)] else []
  }

  /** The reply to a discovery: its type, the asker's id, whether there is an address, and the addresses of the name
      asked for, or of the empty name when that is unreadable. */
  lemma DiscoverReplyIs(live: seq<Entry>, payload: seq<byte>, id: nat)
    requires Sized(live)
    ensures match ParseStringVint(payload) case Parsed(name, _) => NameIn(payload) == name case Short => NameIn(payload) == []
    ensures var reply, addrs := DiscoverReply(live, payload, id), Range(live, NameIn(payload));
            && reply.kind == 3 && reply.id == id && reply.magic == 0xfc && reply.version == 0x10
            && reply.errCode == (if addrs == [] then 2 else 1)
            && reply.errMsg == (if addrs == [] then Ascii("service discover with unregister name:") + NameIn(payload)
                                else if ParseStringVint(payload).Parsed? then []
                                else Ascii("service discover with unknown name format"))
            && Decode(TVector(TString), reply.payload, false) == Parsed(AddressList(addrs), [])
  {
    ReplyHoldsAddresses(live, payload, id);
  }

  /** The reply to a registration: its type, no content, and whether the name could be read. */
  lemma RegisterReplyIs(payload: seq<byte>, id: nat)
    ensures var reply := RegisterReply(payload, id);
            && reply.kind == 6 && reply.payload == [] && reply.magic == 0xfc && reply.version == 0x10
            && reply.id == (if payload == [] then 0 else id)
            && reply.errCode == (if payload == [] || ParseStringVint(payload).Parsed? then 1 else 9)
            && reply.errMsg == (if reply.errCode == 1 then [] else Ascii("cannot parse msg content"))
  {
  }

  /** How a round other than the last ends: exceptions and faults of the receive and of the provider's port pass
      through, anything else is answered. */
  function RoundOutcome(live: seq<Entry>, peer: Address, connected: bool, req: Request): Outcome<Served>
    requires Sized(live) && req != Null
  {
    match req
    case Throws => OutOfRange
    case Faults => BadAccess
    case Provider(payload) =>
      (match ProviderKey(peer, payload)
       case Ok(_) => Ok(Continue(None))
       case OutOfRange => OutOfRange
       case BadAccess => BadAccess)
    case _ => Responded(connected, ReplyTo(live, req))
  }

  /** Nothing is sent to a client that is gone, and what has no reply is not answered. */
  lemma RespondedIs(rsp: Option<Msg>)
    ensures Responded(false, rsp) == Ok(Continue(rsp)) && Responded(true, None) == Ok(Continue(None))
    ensures rsp.Some? && Frame(rsp.value).Ok? && |Frame(rsp.value).value| <= BASE_SIZE ==>
              Responded(true, rsp) == Ok(Continue(rsp))
    ensures rsp.Some? && !Frame(rsp.value).Ok? ==> Responded(true, rsp) == BadAccess
  {
  }

  /** A readable name with more standing addresses than fit a chunk faults too. */
  lemma OversizedDiscoveryFaults(live: seq<Entry>, payload: seq<byte>, id: nat)
    requires Sized(live) && Fits(live, payload, id)
    requires ParseStringVint(payload).Parsed? && Range(live, NameIn(payload)) != []
    ensures var n := HEADER_LEN + |AddressBytes(live, NameIn(payload))|;
            Responded(true, ReplyTo(live, Discover(payload, id))) == BadAccess <==> n > BASE_SIZE && ToInt32(n) > 0
  {
    ReplyFrame(live, payload, id, []);
  }

  /** The round that answers a connected client for a name nobody stands under faults. */
  lemma UnregisteredDiscoveryFaults(live: seq<Entry>, payload: seq<byte>, id: nat)
    requires Sized(live) && |NameIn(payload)| < Pow2(62) && Range(live, NameIn(payload)) == []
    ensures Responded(true, ReplyTo(live, Discover(payload, id))) == BadAccess
  {
    UnregisteredHasNoFrame(live, payload, id);
  }

  // ---- the class ---------------------------------------------------------------------------

  class RpcServiceRegistry {
    var providers: seq<Entry>
    var services: seq<Entry>
    ghost var history: seq<Event>

    ghost predicate Valid()
      reads this
    {
      Mirrors(providers, services) && providers == Live(history)
    }

    constructor ()
      ensures Valid() && history == []
    {
      providers, services, history := [], [], [];
    }

    /** The critical section of `handleRegisterService`. */
    method Emplace(service: Str, addr: Str)
      requires Valid()
      modifies this
      ensures Valid() && history == old(history) + [Register(service, addr)]
    {
      LiveRegister(history, service, addr);
      providers := providers + [Entry(service, addr)];
      services := services + [Entry(addr, service)];
      history := history + [Register(service, addr)];
    }

    /** The nested loops of `unregisterService` that collect the positions to erase. */
    method Collect(names: seq<Str>, addr: Str) returns (del: seq<nat>)
      ensures del == Collected(providers, names, addr)
    {
      del := [];
      var i := 0;
      while i < |names|
        invariant 0 <= i <= |names|
        invariant del + Collected(providers, names[i..], addr) == Collected(providers, names, addr)
      {
        CollectedStep(del, providers, names, i, addr);
        var found := Positions(Entry(names[i], addr));
        del := del + found;
        i := i + 1;
      }
    }

    /** The inner loop. */
    method Positions(e: Entry) returns (found: seq<nat>)
      ensures found == PositionsOf(providers, e, 0)
    {
      found := [];
      var p: nat := 0;
      while p < |providers|
        invariant p <= |providers| && found + PositionsOf(providers, e, p) == PositionsOf(providers, e, 0)
      {
        PositionsStep(found, providers, e, p);
        if providers[p] == e {
          found := found + [p];
        }
        p := p + 1;
      }
    }

    /** The loop that erases them; erasing an iterator a second time is a fault. */
    method Erase(del: seq<nat>) returns (ok: bool, erased: set<nat>)
      ensures ok <==> !Repeats(del)
      ensures ok ==> forall p :: p in erased <==> p in multiset(del)
    {
      erased := {};
      var i := 0;
      assert del[..0] == [];
      while i < |del|
        invariant 0 <= i <= |del|
        invariant forall p :: multiset(del[..i])[p] == if p in erased then 1 else 0
      {
        assert del[..i + 1] == del[..i] + [del[i]];
        assert del == del[..i + 1] + del[i + 1..];
        if del[i] in erased {
          assert multiset(del)[del[i]] >= 2;
          return false, erased;
        }
        erased := erased + {del[i]};
        i := i + 1;
      }
      assert del[..i] == del;
      ok := true;
    }

    /** The providers' multimap once the entries of `addr` are erased, unless an iterator is erased twice. */
    method Remaining(addr: Str) returns (ok: bool, kept: seq<Entry>)
      requires Valid()
      ensures ok <==> !Duplicated(providers, addr)
      ensures ok ==> kept == WithoutValue(providers, addr)
    {
      var names := Range(services, addr);
      if names == [] {
        NothingToRemove(providers, services, addr);
        return true, providers;
      }
      TwiceIffDuplicated(providers, services, addr);
      var del := Collect(names, addr);
      var erased;
      ok, erased := Erase(del);
      kept := [];
      if ok {
        KeptAfterErase(providers, services, addr, erased);
        kept := Kept(providers, erased, 0);
      }
    }

    /** A provider's disconnect.  It faults exactly when the provider had registered some service twice;
        otherwise both multimaps forget its address and nothing else. */
    method Unregister(addr: Str) returns (r: Outcome<()>)
      requires Valid()
      modifies this
      ensures r == if Duplicated(old(providers), addr) then BadAccess else Ok(())
      ensures r.Ok? ==> Valid() && history == old(history) + [Disconnect(addr)]
    {
      ghost var after := AfterDisconnect(history, providers, services, addr);
      var ok, kept := Remaining(addr);
      if !ok {
        return BadAccess;
      }
      providers, services := kept, WithoutKey(services, addr);
      history := after;
      r := Ok(());
    }

    /** Exactly the addresses registered under `name` and not disconnected since, in registration order. */
    method Lookup(name: Str) returns (addrs: seq<Str>)
      requires Valid()
      ensures addrs == Range(Live(history), name)
    {
      addrs := [];
      var i := 0;
      while i < |providers|
        invariant 0 <= i <= |providers| && addrs + Range(providers[i..], name) == Range(providers, name)
      {
        RangeStep(addrs, providers, i, name);
        if providers[i].key == name {
          addrs := addrs + [providers[i].value];
        }
        i := i + 1;
      }
    }

    /** `handleRegisterService`: only a readable, non-empty payload registers. */
    method HandleRegister(addr: Str, payload: seq<byte>, id: nat) returns (rsp: Msg)
      requires Valid()
      modifies this
      ensures Valid() && rsp == RegisterReply(payload, id)
      ensures var p := ParseStringVint(payload);
              history == if payload != [] && p.Parsed? then old(history) + [Register(p.value, addr)] else old(history)
    {
      if payload == [] {
        return Created(REGISTER_RESPONSE, RPC_SUCCESS, [], [], 0);
      }
      match ParseStringVint(payload) {
        case Parsed(service, _) =>
          Emplace(service, addr);
          rsp := Created(REGISTER_RESPONSE, RPC_SUCCESS, [], [], id);
        case Short =>
          rsp := Created(REGISTER_RESPONSE, RPC_PROTOCOL_FORMAT_ERROR, CANNOT_PARSE, [], id);
      }
    }

    /** `handleServiceDiscover`: the lookup runs for an unreadable name too. */
    method HandleDiscover(payload: seq<byte>, id: nat) returns (rsp: Msg)
      requires Valid() && Sized(Live(history))
      ensures rsp == DiscoverReply(Live(history), payload, id)
    {
      var p := ParseStringVint(payload);
      var name := NameIn(payload);
      var addrs := Lookup(name);
      AddressesTyped(providers, name);
      var content := AddressBytes(providers, name);
      if addrs == [] {
        rsp := Created(DISCOVER_RESPONSE, RPC_NO_METHOD, UNREGISTERED + name, content, id);
      } else {
        rsp := Created(DISCOVER_RESPONSE, RPC_SUCCESS, if p.Parsed? then [] else UNKNOWN_FORMAT, content, id);
      }
    }

    /** The end of a session: a provider is unregistered, anyone else's null request is dereferenced. */
    method Depart(isProvider: bool, addr: Str) returns (r: Outcome<Served>)
      requires Valid()
      modifies this
      ensures r == if !isProvider || Duplicated(old(providers), addr) then BadAccess else Ok(Ended)
      ensures r.Ok? ==> Valid() && history == old(history) + [Disconnect(addr)]
    {
      if !isProvider {
        return BadAccess;
      }
      var u := Unregister(addr);
      r := if u.Ok? then Ok(Ended) else BadAccess;
    }

    /** `sendProtocol` on what a handler returned. */
    method Respond(connected: bool, rsp: Option<Msg>) returns (r: Outcome<Served>)
      ensures r == Responded(connected, rsp)
    {
      if connected && rsp.Some? && SendFaults(true, Frame(rsp.value)) {
        return BadAccess;
      }
      r := Ok(Continue(rsp));
    }

    /** One round of `handleClient`: what it answers, what it adds to the history, and when it throws or faults. */
    method Serve(session: Session, req: Request, connected: bool) returns (r: Outcome<Served>)
      requires Valid() && Sized(Live(history))
      modifies this, session
      ensures req == Null ==>
                r == if !old(session.isProvider) || Duplicated(old(providers), old(session.addr)) then BadAccess else Ok(Ended)
      ensures req != Null ==> r == RoundOutcome(old(Live(history)), session.peer, connected, req)
      ensures req != Null || r.Ok? ==>
                Valid() && history == old(history) + EventsOf(old(session.isProvider), old(session.addr), req)
      ensures session.isProvider == (old(session.isProvider) || req.Provider?)
      ensures session.addr == KeyAfter(session.peer, old(session.addr), req)
    {
      assert history + [] == history;
      match req
      case Null => r := Depart(session.isProvider, session.addr);
      case Throws => r := OutOfRange;
      case Faults => r := BadAccess;
      case Provider(payload) => r := HandleProvider(session, payload);
      case _ =>
        var rsp := Handle(session.addr, req);
        r := Respond(connected, rsp);
    }

    /** The session is a provider's from here on, also when its port cannot be read. */
    method HandleProvider(session: Session, payload: seq<byte>) returns (r: Outcome<Served>)
      modifies session
      ensures session.isProvider && session.addr == KeyAfter(session.peer, old(session.addr), Provider(payload))
      ensures match ProviderKey(session.peer, payload)
              case Ok(_) => r == Ok(Continue(None))
              case OutOfRange => r == OutOfRange
              case BadAccess => r == BadAccess
    {
      session.isProvider := true;
      match ProviderKey(session.peer, payload)
      case Ok(key) =>
        session.addr := key;
        r := Ok(Continue(None));
      case OutOfRange => r := OutOfRange;
      case BadAccess => r := BadAccess;
    }

    /** The handlers that answer. */
    method Handle(addr: Str, req: Request) returns (rsp: Option<Msg>)
      requires Valid() && Sized(Live(history)) && !req.Null? && !req.Provider?
      modifies this
      ensures Valid() && rsp == ReplyTo(old(Live(history)), req)
      ensures history == old(history) + EventsOf(false, addr, req)
    {
      assert history + [] == history;
      match req
      case Heartbeat => rsp := Some(BLANK.(kind := HEARTBEAT));
      case Discover(payload, id) =>
        var m := HandleDiscover(payload, id);
        rsp := Some(m);
      case RegisterService(payload, id) =>
        var m := HandleRegister(addr, payload, id);
        rsp := Some(m);
      case _ => rsp := None;
    }

    /** One round on a received message. */
    method ServeMessage(session: Session, m: Msg, connected: bool) returns (r: Outcome<Served>)
      requires Valid() && Sized(Live(history))
      modifies this, session
      ensures Valid()
      ensures RoundOf(m, old(session.isProvider), old(session.addr), session, old(history), history, connected, r)
    {
      r := Serve(session, RequestOf(Ok(Some(m))), connected);
      assert history + [] == history;
    }

    /** A round of the session loop: receive, then serve what was received. */
    method HandleClientRound(stream: RpcSession, session: Session) returns (r: Outcome<Served>)
      requires Valid() && Sized(Live(history))
      modifies this, session, stream.stream.sock
      ensures var q := RecvResult(old(stream.stream.sock.State())).0;
              && (q == OutOfRange ==> r == OutOfRange && history == old(history))
              && (q == BadAccess ==> r == BadAccess && history == old(history))
              && (q == Ok(None) ==>
                    && r == (if !old(session.isProvider) || Duplicated(old(providers), old(session.addr)) then BadAccess else Ok(Ended))
                    && (r.Ok? ==> Valid() && history == old(history) + [Disconnect(old(session.addr))]))
              && (q.Ok? && q.value.Some? ==>
                    && Valid()
                    && RoundOf(q.value.value, old(session.isProvider), old(session.addr), session, old(history), history,
                               stream.stream.sock.open, r))
    {
      var received := stream.RecvProtocol();
      match received
      case OutOfRange => r := OutOfRange;
      case BadAccess => r := BadAccess;
      case Ok(p) =>
        if p == null {
          r := Depart(session.isProvider, session.addr);
        } else {
          var m := p.Message();
          r := ServeMessage(session, m, stream.stream.sock.open);
        }
    }
  }

  /** What a round on the message `m` does, by the type's number: 2 asks, 5 registers, 4 announces a provider, 7 is a
      heartbeat, and anything else is ignored. */
  ghost predicate RoundOf(m: Msg, wasProvider: bool, addr: Str, session: Session, h: seq<Event>, h': seq<Event>,
                          connected: bool, r: Outcome<Served>)
    reads session
    requires Sized(Live(h))
  {
    && (m.kind == 2 ==> h' == h && r == Responded(connected, Some(DiscoverReply(Live(h), m.payload, m.id))))
    && (m.kind == 5 ==> h' == h + RegisteredBy(m.payload, addr) && r == Responded(connected, Some(RegisterReply(m.payload, m.id))))
    && (m.kind == 4 ==>
          && h' == h && session.isProvider
          && match ProviderKey(session.peer, m.payload)
             case Ok(key) => session.addr == key && r == Ok(Continue(None))
             case OutOfRange => session.addr == addr && r == OutOfRange
             case BadAccess => session.addr == addr && r == BadAccess)
    && (m.kind == 7 ==> h' == h && r == Responded(connected, Some(BLANK.(kind := 7))))
    && (m.kind !in {2, 4, 5, 7} ==> h' == h && r == Ok(Continue(None)))
    && (m.kind != 4 ==> session.isProvider == wasProvider && session.addr == addr)
  }
}
