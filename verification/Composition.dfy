/** Composing functions onto one device: endpoint relocation, the configuration blob and the address map. */
module Composition {
  import opened Bytes

  const DT_CONFIG: byte := 2
  const DT_INTERFACE: byte := 4
  const DT_ENDPOINT: byte := 5
  const DT_ASSOCIATION: byte := 11
  /** Endpoint numbers are 1..15. */
  const LIMIT: nat := 16

  datatype Ep = Ep(number: nat, dir: nat, attributes: byte, mps: nat, interval: byte)

  type Key = (nat, nat)

  function KeyOf(ep: Ep): Key {
    (ep.number, ep.dir)
  }

  /** bEndpointAddress: the number, with bit 7 for IN. */
  function Address(ep: Ep): nat {
    ep.number + if ep.dir == IN then 0x80 else 0
  }

  predicate Declared(ep: Ep) {
    1 <= ep.number < LIMIT && ep.dir <= IN && ep.mps < 0x1_0000
  }

  // ---- routing one endpoint ----

  /** The lowest number from `from` that is free in this direction. */
  function LowestFree(used: set<Key>, dir: nat, from: nat): (r: Option<nat>)
    requires from <= LIMIT
    ensures r.Some? ==> from <= r.value < LIMIT && (r.value, dir) !in used
    ensures r.Some? ==> forall n: nat :: from <= n < r.value ==> (n, dir) in used
    ensures r.None? ==> forall n: nat :: from <= n < LIMIT ==> (n, dir) in used
    decreases LIMIT - from
  {
    if from == LIMIT then None
    else if (from, dir) !in used then Some(from)
    else LowestFree(used, dir, from + 1)
  }

  function Place(used: set<Key>, ep: Ep): Option<Ep> {
    if KeyOf(ep) !in used then
      Some(ep)
    else
      match LowestFree(used, ep.dir, 1)
      case None => None
      case Some(number) => Some(ep.(number := number))
  }

  /** Endpoints routed one after another; None when some endpoint finds no free number. */
  function PlaceAll(used: set<Key>, eps: seq<Ep>): Option<seq<Ep>>
    decreases |eps|
  {
    if eps == [] then
      Some([])
    else
      match Place(used, eps[0])
      case None => None
      case Some(placed) =>
        match PlaceAll(used + {KeyOf(placed)}, eps[1..])
        case None => None
        case Some(rest) => Some([placed] + rest)
  }

  predicate Distinct(eps: seq<Ep>) {
    forall i, j :: 0 <= i < j < |eps| ==> KeyOf(eps[i]) != KeyOf(eps[j])
  }

  predicate Avoids(eps: seq<Ep>, used: set<Key>) {
    forall i :: 0 <= i < |eps| ==> KeyOf(eps[i]) !in used
  }

  predicate AllDeclared(eps: seq<Ep>) {
    forall i :: 0 <= i < |eps| ==> Declared(eps[i])
  }

  /** Only the number may change. */
  predicate SameBut(a: seq<Ep>, b: seq<Ep>) {
    |a| == |b| && forall i :: 0 <= i < |a| ==> b[i] == a[i].(number := b[i].number)
  }

  /** Relocation gives every endpoint a (number, direction) of its own and changes nothing else. */
  lemma {:induction false} PlacedAreDistinct(used: set<Key>, eps: seq<Ep>)
    requires AllDeclared(eps) && PlaceAll(used, eps).Some?
    ensures var placed := PlaceAll(used, eps).value;
            Distinct(placed) && Avoids(placed, used) && AllDeclared(placed) && SameBut(eps, placed)
    decreases |eps|
  {
    if eps != [] {
      var first := Place(used, eps[0]).value;
      PlacedAreDistinct(used + {KeyOf(first)}, eps[1..]);
    }
  }

  /** Addresses that do not clash are kept as declared. */
  lemma {:induction false} FreeAddressesAreKept(used: set<Key>, eps: seq<Ep>)
    requires Distinct(eps) && Avoids(eps, used)
    ensures PlaceAll(used, eps) == Some(eps)
    decreases |eps|
  {
    if eps != [] {
      var rest := eps[1..];
      forall i | 0 <= i < |rest|
        ensures KeyOf(rest[i]) !in used + {KeyOf(eps[0])}
      {
        assert KeyOf(eps[0]) != KeyOf(eps[i + 1]);
      }
      assert [eps[0]] + rest == eps;
      FreeAddressesAreKept(used + {KeyOf(eps[0])}, rest);
    }
  }

  // ---- when routing succeeds ----

  /** How many numbers from `from` are free in a direction. */
  function FreeCount(used: set<Key>, dir: nat, from: nat): nat
    requires from <= LIMIT
    decreases LIMIT - from
  {
    if from == LIMIT then 0
    else (if (from, dir) in used then 0 else 1) + FreeCount(used, dir, from + 1)
  }

  function CountDir(eps: seq<Ep>, dir: nat): nat {
    if eps == [] then 0 else (if eps[0].dir == dir then 1 else 0) + CountDir(eps[1..], dir)
  }

  lemma {:induction false} TakingOne(used: set<Key>, dir: nat, key: Key, from: nat)
    requires from <= LIMIT && key !in used && key.0 < LIMIT
    ensures FreeCount(used + {key}, dir, from)
         == FreeCount(used, dir, from) - if key.1 == dir && key.0 >= from then 1 else 0
    decreases LIMIT - from
  {
    if from < LIMIT {
      TakingOne(used, dir, key, from + 1);
    }
  }

  lemma {:induction false} NoneFree(used: set<Key>, dir: nat, from: nat)
    requires from <= LIMIT
    ensures LowestFree(used, dir, from).None? <==> FreeCount(used, dir, from) == 0
    decreases LIMIT - from
  {
    if from < LIMIT {
      NoneFree(used, dir, from + 1);
    }
  }

  /** Routing succeeds exactly when each direction has a free number for each of its endpoints. */
  lemma {:induction false} PlacedIffRoom(used: set<Key>, eps: seq<Ep>)
    requires AllDeclared(eps)
    ensures PlaceAll(used, eps).Some?
       <==> CountDir(eps, OUT) <= FreeCount(used, OUT, 1) && CountDir(eps, IN) <= FreeCount(used, IN, 1)
    decreases |eps|
  {
    hide LowestFree, FreeCount;
    if eps != [] {
      NoneFree(used, eps[0].dir, 1);
      var placed := Place(used, eps[0]);
      if placed.Some? {
        TakingOne(used, OUT, KeyOf(placed.value), 1);
        TakingOne(used, IN, KeyOf(placed.value), 1);
        PlacedIffRoom(used + {KeyOf(placed.value)}, eps[1..]);
      }
    }
  }

  lemma AllFree(dir: nat, from: nat)
    requires from <= LIMIT
    ensures FreeCount({}, dir, from) == LIMIT - from
    decreases LIMIT - from
  {
  }

  // ---- interfaces ----

  /** Class, subclass and protocol. */
  datatype Codes = Codes(base: byte, sub: byte, protocol: byte)

  /** The Interface Association Descriptor a function puts before its first interface. */
  datatype Association = Association(count: byte, codes: Codes, text: byte)

  /** One interface of the composition, in claim order; its interface number is its position. */
  datatype Iface = Iface(lead: Option<Association>, codes: Codes, text: byte,
                         eps: seq<Ep>, extras: seq<bytes>)

  function Endpoints(ifaces: seq<Iface>): seq<Ep> {
    if ifaces == [] then [] else ifaces[0].eps + Endpoints(ifaces[1..])
  }

  function Keys(eps: seq<Ep>): set<Key> {
    set i | 0 <= i < |eps| :: KeyOf(eps[i])
  }

  /** `_attach` for each interface in turn: its endpoints are routed into the device. */
  function Attach(used: set<Key>, ifaces: seq<Iface>): Option<seq<Iface>>
    decreases |ifaces|
  {
    if ifaces == [] then
      Some([])
    else
      match PlaceAll(used, ifaces[0].eps)
      case None => None
      case Some(placed) =>
        match Attach(used + Keys(placed), ifaces[1..])
        case None => None
        case Some(rest) => Some([ifaces[0].(eps := placed)] + rest)
  }

  lemma {:induction false} PlaceAppend(used: set<Key>, a: seq<Ep>, b: seq<Ep>)
    ensures PlaceAll(used, a + b)
         == match PlaceAll(used, a)
            case None => None
            case Some(first) =>
              match PlaceAll(used + Keys(first), b)
              case None => None
              case Some(rest) => Some(first + rest)
    decreases |a|
  {
    hide Place;
    if a == [] {
      assert a + b == b;
      assert used + Keys([]) == used;
      assert forall rest: seq<Ep> :: [] + rest == rest;
    } else {
      assert (a + b)[1..] == a[1..] + b;
      var placed := Place(used, a[0]);
      if placed.Some? {
        var next := used + {KeyOf(placed.value)};
        PlaceAppend(next, a[1..], b);
        var more := PlaceAll(next, a[1..]);
        if more.Some? {
          KeysCons(placed.value, more.value);
          assert next + Keys(more.value) == used + Keys([placed.value] + more.value);
          var rest := PlaceAll(next + Keys(more.value), b);
          if rest.Some? {
            Assoc([placed.value], more.value, rest.value);
          }
        }
      }
    }
  }

  lemma KeysCons(ep: Ep, eps: seq<Ep>)
    ensures Keys([ep] + eps) == {KeyOf(ep)} + Keys(eps)
  {
    var all := [ep] + eps;
    forall k | k in {KeyOf(ep)} + Keys(eps)
      ensures k in Keys(all)
    {
      if k == KeyOf(ep) {
        assert all[0] == ep;
      } else {
        var i :| 0 <= i < |eps| && k == KeyOf(eps[i]);
        assert all[i + 1] == eps[i];
      }
    }
  }

  /** Attaching interface by interface routes all their endpoints as one list. */
  lemma {:induction false} AttachIsPlaceAll(used: set<Key>, ifaces: seq<Iface>)
    ensures match Attach(used, ifaces)
            case None => PlaceAll(used, Endpoints(ifaces)) == None
            case Some(out) => |out| == |ifaces| && PlaceAll(used, Endpoints(ifaces)) == Some(Endpoints(out))
    decreases |ifaces|
  {
    hide PlaceAll, Keys;
    if ifaces == [] {
      PlaceNone(used);
    } else {
      PlaceAppend(used, ifaces[0].eps, Endpoints(ifaces[1..]));
      var first := PlaceAll(used, ifaces[0].eps);
      if first.Some? {
        AttachIsPlaceAll(used + Keys(first.value), ifaces[1..]);
      }
    }
  }

  lemma PlaceNone(used: set<Key>)
    ensures PlaceAll(used, []) == Some([])
  {
  }

  /** Each interface keeps its own fields, its endpoints change number only. */
  predicate SameIfaces(a: seq<Iface>, b: seq<Iface>) {
    && |a| == |b|
    && forall i :: 0 <= i < |a| ==> b[i] == a[i].(eps := b[i].eps) && SameBut(a[i].eps, b[i].eps)
  }

  lemma {:induction false} AttachKeepsFields(used: set<Key>, ifaces: seq<Iface>)
    requires AllDeclared(Endpoints(ifaces)) && Attach(used, ifaces).Some?
    ensures SameIfaces(ifaces, Attach(used, ifaces).value)
    decreases |ifaces|
  {
    hide PlaceAll, Keys;
    if ifaces != [] {
      var first := PlaceAll(used, ifaces[0].eps).value;
      DeclaredSplits(ifaces[0].eps, Endpoints(ifaces[1..]));
      PlacedAreDistinct(used, ifaces[0].eps);
      AttachKeepsFields(used + Keys(first), ifaces[1..]);
    }
  }

  lemma DeclaredSplits(a: seq<Ep>, b: seq<Ep>)
    requires AllDeclared(a + b)
    ensures AllDeclared(a) && AllDeclared(b)
  {
    forall i | 0 <= i < |a|
      ensures Declared(a[i])
    {
      assert (a + b)[i] == a[i];
    }
    forall i | 0 <= i < |b|
      ensures Declared(b[i])
    {
      assert (a + b)[|a| + i] == b[i];
    }
  }

  /** `_rekey_endpoints`: the dictionary the interface's endpoints are kept in. */
  function Rekeyed(eps: seq<Ep>): (m: map<Key, Ep>)
  {
    if eps == [] then map[] else Rekeyed(eps[..|eps| - 1])[KeyOf(eps[|eps| - 1]) := eps[|eps| - 1]]
  }

  lemma {:induction false} RekeyedHolds(eps: seq<Ep>)
    ensures forall k :: k in Rekeyed(eps) <==> k in Keys(eps)
    ensures Distinct(eps) ==> |Rekeyed(eps)| == |eps|
  {
    if eps != [] {
      var n := |eps| - 1;
      var front := eps[..n];
      RekeyedHolds(front);
      forall k | k in Keys(eps)
        ensures k in Rekeyed(eps)
      {
        var i :| 0 <= i < |eps| && k == KeyOf(eps[i]);
        if i < n {
          assert front[i] == eps[i];
        }
      }
      forall k | k in Keys(front)
        ensures k in Keys(eps)
      {
        var i :| 0 <= i < |front| && k == KeyOf(front[i]);
        assert eps[i] == front[i];
      }
      assert KeyOf(eps[n]) in Keys(eps);
      if Distinct(eps) {
        assert Distinct(front);
        assert KeyOf(eps[n]) !in Keys(front);
      }
    }
  }

  // ---- the address map ----

  /** `_ep_map` after routing: each (number, direction) to the position of its endpoint. */
  function EpMap(eps: seq<Ep>): map<Key, nat> {
    if eps == [] then map[] else EpMap(eps[..|eps| - 1])[KeyOf(eps[|eps| - 1]) := |eps| - 1]
  }

  /** `_ep_by_addr`. */
  function ByAddress(m: map<Key, nat>, addr: nat): Option<nat> {
    var key := (addr % 16, if (addr / 0x80) % 2 == 1 then IN else OUT);
    if key in m then Some(m[key]) else None
  }

  lemma {:induction false} EpMapFinds(eps: seq<Ep>, i: nat)
    requires Distinct(eps) && i < |eps|
    ensures KeyOf(eps[i]) in EpMap(eps) && EpMap(eps)[KeyOf(eps[i])] == i
  {
    if i < |eps| - 1 {
      EpMapFinds(eps[..|eps| - 1], i);
      assert KeyOf(eps[i]) != KeyOf(eps[|eps| - 1]);
    }
  }

  /** Each advertised address routes back to its own endpoint. */
  lemma AddressRoutesBack(eps: seq<Ep>, i: nat)
    requires Distinct(eps) && AllDeclared(eps) && i < |eps|
    ensures ByAddress(EpMap(eps), Address(eps[i])) == Some(i)
  {
    EpMapFinds(eps, i);
    assert Declared(eps[i]);
  }

  // ---- the configuration blob ----

  predicate Packable(num: nat, ifaces: seq<Iface>) {
    num + |ifaces| <= 0x100 && AllDeclared(Endpoints(ifaces))
    && forall i :: 0 <= i < |ifaces| ==> |ifaces[i].eps| < 0x100
  }

  function EndpointDescriptor(ep: Ep): (d: bytes)
    requires Declared(ep)
    ensures SelfDelimiting(d) && d[1] == DT_ENDPOINT
  {
    [7, DT_ENDPOINT, Address(ep), ep.attributes, ep.mps % 0x100, ep.mps / 0x100, ep.interval]
  }

  function EndpointDescriptors(eps: seq<Ep>): (ds: seq<bytes>)
    requires AllDeclared(eps)
    ensures |ds| == |eps|
    ensures forall i :: 0 <= i < |ds| ==> SelfDelimiting(ds[i]) && ds[i] == EndpointDescriptor(eps[i])
  {
    if eps == [] then [] else [EndpointDescriptor(eps[0])] + EndpointDescriptors(eps[1..])
  }

  function InterfaceDescriptor(num: byte, neps: byte, iface: Iface): (d: bytes)
    ensures |d| == 9 && SelfDelimiting(d) && d[1] == DT_INTERFACE && d[2] == num
  {
    [9, DT_INTERFACE, num, 0, neps, iface.codes.base, iface.codes.sub, iface.codes.protocol, iface.text]
  }

  /** `EndpointDescriptor.parse` and `InterfaceDescriptor.parse`, by field. */
  function ParseEndpoint(raw: bytes): (nat, nat, nat, nat)
    requires |raw| >= 7
  {
    (raw[2], raw[3], FromLE(raw[4..6]), raw[6])
  }

  function ParseInterface(raw: bytes): (nat, nat, nat, Codes, nat)
    requires |raw| >= 9
  {
    (raw[2], raw[3], raw[4], Codes(raw[5], raw[6], raw[7]), raw[8])
  }

  /** Packed descriptors parse back to their fields. */
  lemma DescriptorsParseBack(ep: Ep, num: byte, neps: byte, iface: Iface)
    requires Declared(ep)
    ensures ParseEndpoint(EndpointDescriptor(ep)) == (Address(ep), ep.attributes, ep.mps, ep.interval)
    ensures ParseInterface(InterfaceDescriptor(num, neps, iface)) == (num, 0, neps, iface.codes, iface.text)
  {
    var d := EndpointDescriptor(ep);
    var low: nat, high: nat := ep.mps % 0x100, ep.mps / 0x100;
    var one: bytes, two: bytes := [high], [low, high];
    assert d[4..6] == two && two[1..] == one && one[1..] == [];
    assert FromLE(one) == high;
    assert FromLE(two) == low + 256 * high;
  }

  function AssociationDescriptors(num: byte, iface: Iface): (ds: seq<bytes>)
    ensures forall i :: 0 <= i < |ds| ==> SelfDelimiting(ds[i]) && ds[i][1] == DT_ASSOCIATION
  {
    match iface.lead
    case None => []
    case Some(a) => [[8, DT_ASSOCIATION, num, a.count, a.codes.base, a.codes.sub, a.codes.protocol, a.text]]
  }

  /** One interface's descriptors: an association, the interface, its class descriptors, its endpoints. */
  function Descriptors(num: nat, iface: Iface): seq<bytes>
    requires num < 0x100 && |iface.eps| < 0x100 && AllDeclared(iface.eps)
  {
    AssociationDescriptors(num, iface)
    + ([InterfaceDescriptor(num, |iface.eps|, iface)] + (iface.extras + EndpointDescriptors(iface.eps)))
  }

  function AllDescriptors(num: nat, ifaces: seq<Iface>): seq<bytes>
    requires Packable(num, ifaces)
    decreases |ifaces|
  {
    if ifaces == [] then
      []
    else
      PackableTail(num, ifaces);
      Descriptors(num, ifaces[0]) + AllDescriptors(num + 1, ifaces[1..])
  }

  lemma PackableTail(num: nat, ifaces: seq<Iface>)
    requires Packable(num, ifaces) && ifaces != []
    ensures Packable(num + 1, ifaces[1..]) && AllDeclared(ifaces[0].eps)
  {
    DeclaredSplits(ifaces[0].eps, Endpoints(ifaces[1..]));
  }

  function ConfigHeader(total: nat, count: byte): (h: bytes)
    ensures |h| == 9
  {
    [9, DT_CONFIG, total % 0x100, (total / 0x100) % 0x100, count, 1, 0, 0x80, 50]
  }

  /** `config_bytes`: the configuration header and every descriptor. */
  function ConfigBytes(ifaces: seq<Iface>): bytes
    requires Packable(0, ifaces) && |ifaces| < 0x100
    requires 9 + |Flatten(AllDescriptors(0, ifaces))| < 0x1_0000
  {
    var body := Flatten(AllDescriptors(0, ifaces));
    ConfigHeader(9 + |body|, |ifaces|) + body
  }

  // ---- walking it ----

  predicate SelfDelimiting(d: bytes) {
    |d| >= 2 && |d| == d[0]
  }

  predicate Delimited(ds: seq<bytes>) {
    forall i :: 0 <= i < |ds| ==> SelfDelimiting(ds[i])
  }

  /** `iter_descriptors`: stops at a length below two; a descriptor cut off by the end comes out short. */
  function Walk(b: bytes): seq<bytes>
    decreases |b|
  {
    if |b| < 2 || b[0] < 2 then [] else [Slice(b, 0, b[0])] + Walk(Drop(b, b[0]))
  }

  lemma {:induction false} WalkInvertsJoin(ds: seq<bytes>)
    requires Delimited(ds)
    ensures Walk(Flatten(ds)) == ds
  {
    if ds != [] {
      var rest := Flatten(ds[1..]);
      assert (ds[0] + rest)[0..|ds[0]|] == ds[0];
      assert (ds[0] + rest)[|ds[0]|..] == rest;
      WalkInvertsJoin(ds[1..]);
    }
  }

  /** Class descriptors that delimit themselves, whatever their type. */
  predicate DelimitedExtras(ifaces: seq<Iface>) {
    forall i, j :: 0 <= i < |ifaces| && 0 <= j < |ifaces[i].extras| ==> SelfDelimiting(ifaces[i].extras[j])
  }

  /** Class descriptors that delimit themselves and are neither interface nor endpoint descriptors. */
  predicate PlainExtras(ifaces: seq<Iface>) {
    forall i, j :: 0 <= i < |ifaces| && 0 <= j < |ifaces[i].extras| ==> PlainDescriptor(ifaces[i].extras[j])
  }

  predicate PlainDescriptor(d: bytes) {
    SelfDelimiting(d) && d[1] != DT_INTERFACE && d[1] != DT_ENDPOINT
  }

  lemma {:induction false} AllDelimit(num: nat, ifaces: seq<Iface>)
    requires Packable(num, ifaces) && DelimitedExtras(ifaces)
    ensures Delimited(AllDescriptors(num, ifaces))
    decreases |ifaces|
  {
    hide Descriptors;
    if ifaces != [] {
      PackableTail(num, ifaces);
      assert DelimitedExtras(ifaces[1..]);
      AllDelimit(num + 1, ifaces[1..]);
      OneDelimits(num, ifaces[0]);
      DelimitAppend(Descriptors(num, ifaces[0]), AllDescriptors(num + 1, ifaces[1..]));
    }
  }

  lemma OneDelimits(num: nat, iface: Iface)
    requires num < 0x100 && |iface.eps| < 0x100 && AllDeclared(iface.eps)
    requires Delimited(iface.extras)
    ensures Delimited(Descriptors(num, iface))
  {
    hide EndpointDescriptor, InterfaceDescriptor, AssociationDescriptors, EndpointDescriptors, SelfDelimiting;
    DelimitAppend(iface.extras, EndpointDescriptors(iface.eps));
    DelimitAppend([InterfaceDescriptor(num, |iface.eps|, iface)], iface.extras + EndpointDescriptors(iface.eps));
    DelimitAppend(AssociationDescriptors(num, iface),
                  [InterfaceDescriptor(num, |iface.eps|, iface)] + (iface.extras + EndpointDescriptors(iface.eps)));
  }

  lemma DelimitAppend(a: seq<bytes>, b: seq<bytes>)
    requires Delimited(a) && Delimited(b)
    ensures Delimited(a + b)
  {
  }

  /** Walking the configuration past its header gives back exactly the descriptors it was made of. */
  lemma ConfigWalksBack(ifaces: seq<Iface>)
    requires Packable(0, ifaces) && DelimitedExtras(ifaces) && |ifaces| < 0x100
    requires 9 + |Flatten(AllDescriptors(0, ifaces))| < 0x1_0000
    ensures Walk(Drop(ConfigBytes(ifaces), 9)) == AllDescriptors(0, ifaces)
  {
    hide AllDescriptors, Walk, Flatten, ConfigHeader;
    var ds := AllDescriptors(0, ifaces);
    AllDelimit(0, ifaces);
    WalkInvertsJoin(ds);
    SkipFront(ConfigHeader(9 + |Flatten(ds)|, |ifaces|), Flatten(ds));
  }

  lemma SkipFront(front: bytes, rest: bytes)
    ensures Drop(front + rest, |front|) == rest
  {
  }

  // ---- the conflict check ----

  predicate Scannable(d: bytes) {
    |d| >= 2 && (d[1] == DT_INTERFACE || d[1] == DT_ENDPOINT ==> |d| >= 3)
  }

  /** The (address, interface) pairs a walk of the descriptors meets. */
  function Claims(ds: seq<bytes>, ifnum: Option<nat>): seq<(nat, nat)>
    requires forall i :: 0 <= i < |ds| ==> Scannable(ds[i])
    decreases |ds|
  {
    if ds == [] then
      []
    else
      var d := ds[0];
      assert Scannable(d);
      if d[1] == DT_INTERFACE then Claims(ds[1..], Some(d[2]))
      else if d[1] == DT_ENDPOINT && ifnum.Some? then [(d[2], ifnum.value)] + Claims(ds[1..], ifnum)
      else Claims(ds[1..], ifnum)
  }

  /** `_check_endpoint_conflicts`: false where the source raises. */
  function Passes(claims: seq<(nat, nat)>, owner: map<nat, nat>): bool
    decreases |claims|
  {
    if claims == [] then true
    else if claims[0].0 in owner then owner[claims[0].0] == claims[0].1 && Passes(claims[1..], owner)
    else Passes(claims[1..], owner[claims[0].0 := claims[0].1])
  }

  /** No address is claimed by two interfaces, nor against an owner already known. */
  predicate OneOwnerEach(claims: seq<(nat, nat)>, owner: map<nat, nat>) {
    && (forall i :: 0 <= i < |claims| && claims[i].0 in owner ==> owner[claims[i].0] == claims[i].1)
    && (forall i, j :: 0 <= i < j < |claims| && claims[i].0 == claims[j].0 ==> claims[i].1 == claims[j].1)
  }

  /** The check passes exactly when no address is claimed by two interfaces. */
  lemma {:induction false} PassesIffOneOwner(claims: seq<(nat, nat)>, owner: map<nat, nat>)
    ensures Passes(claims, owner) <==> OneOwnerEach(claims, owner)
    decreases |claims|
  {
    if claims != [] {
      var rest := claims[1..];
      if claims[0].0 in owner {
        PassesIffOneOwner(rest, owner);
        if OneOwnerEach(rest, owner) && owner[claims[0].0] == claims[0].1 {
          forall i, j | 0 <= i < j < |claims| && claims[i].0 == claims[j].0
            ensures claims[i].1 == claims[j].1
          {
            assert claims[j] == rest[j - 1];
            if i > 0 {
              assert claims[i] == rest[i - 1];
            }
          }
        }
      } else {
        var next := owner[claims[0].0 := claims[0].1];
        PassesIffOneOwner(rest, next);
        if OneOwnerEach(rest, next) {
          forall i, j | 0 <= i < j < |claims| && claims[i].0 == claims[j].0
            ensures claims[i].1 == claims[j].1
          {
            assert claims[j] == rest[j - 1];
            if i > 0 {
              assert claims[i] == rest[i - 1];
            }
          }
        }
        if OneOwnerEach(claims, owner) {
          forall i | 0 <= i < |rest| && rest[i].0 in next
            ensures next[rest[i].0] == rest[i].1
          {
            assert rest[i] == claims[i + 1];
          }
        }
      }
      if OneOwnerEach(claims, owner) {
        forall i | 0 <= i < |rest| && rest[i].0 in owner
          ensures owner[rest[i].0] == rest[i].1
        {
          assert rest[i] == claims[i + 1];
        }
        assert forall i, j :: 0 <= i < j < |rest| && rest[i].0 == rest[j].0 ==> claims[i + 1].1 == claims[j + 1].1;
      }
    }
  }

  // ---- what a composition claims ----

  function Pairs(eps: seq<Ep>, num: nat): (ps: seq<(nat, nat)>)
    ensures |ps| == |eps|
    ensures forall i :: 0 <= i < |ps| ==> ps[i] == (Address(eps[i]), num)
  {
    if eps == [] then [] else [(Address(eps[0]), num)] + Pairs(eps[1..], num)
  }

  function IfaceClaims(num: nat, ifaces: seq<Iface>): (ps: seq<(nat, nat)>)
    ensures |ps| == |Endpoints(ifaces)|
    ensures forall i :: 0 <= i < |ps| ==> ps[i].0 == Address(Endpoints(ifaces)[i])
    decreases |ifaces|
  {
    if ifaces == [] then [] else Pairs(ifaces[0].eps, num) + IfaceClaims(num + 1, ifaces[1..])
  }

  predicate AllPlain(ds: seq<bytes>) {
    forall i :: 0 <= i < |ds| ==> PlainDescriptor(ds[i])
  }

  predicate AllScannable(ds: seq<bytes>) {
    forall i :: 0 <= i < |ds| ==> Scannable(ds[i])
  }

  lemma ClaimsCons(d: bytes, rest: seq<bytes>, ifnum: Option<nat>)
    requires Scannable(d) && AllScannable(rest)
    ensures AllScannable([d] + rest)
    ensures Claims([d] + rest, ifnum)
         == if d[1] == DT_INTERFACE then Claims(rest, Some(d[2]))
            else if d[1] == DT_ENDPOINT && ifnum.Some? then [(d[2], ifnum.value)] + Claims(rest, ifnum)
            else Claims(rest, ifnum)
  {
    assert ([d] + rest)[1..] == rest;
  }

  lemma {:induction false} ClaimsSkipPlain(ds: seq<bytes>, rest: seq<bytes>, ifnum: Option<nat>)
    requires AllPlain(ds) && AllScannable(rest)
    ensures AllScannable(ds + rest) && Claims(ds + rest, ifnum) == Claims(rest, ifnum)
    decreases |ds|
  {
    hide Claims;
    if ds == [] {
      assert ds + rest == rest;
    } else {
      ClaimsSkipPlain(ds[1..], rest, ifnum);
      ClaimsCons(ds[0], ds[1..] + rest, ifnum);
      assert ds + rest == [ds[0]] + (ds[1..] + rest);
    }
  }

  lemma {:induction false} ClaimsOfEndpoints(eps: seq<Ep>, rest: seq<bytes>, num: nat)
    requires AllDeclared(eps) && AllScannable(rest)
    ensures AllScannable(EndpointDescriptors(eps) + rest)
    ensures Claims(EndpointDescriptors(eps) + rest, Some(num)) == Pairs(eps, num) + Claims(rest, Some(num))
    decreases |eps|
  {
    hide Claims;
    if eps == [] {
      assert EndpointDescriptors(eps) + rest == rest;
      assert Pairs(eps, num) + Claims(rest, Some(num)) == Claims(rest, Some(num));
    } else {
      var tail := EndpointDescriptors(eps[1..]);
      ClaimsOfEndpoints(eps[1..], rest, num);
      ClaimsCons(EndpointDescriptor(eps[0]), tail + rest, Some(num));
      Assoc([EndpointDescriptor(eps[0])], tail, rest);
      Assoc([(Address(eps[0]), num)], Pairs(eps[1..], num), Claims(rest, Some(num)));
    }
  }

  lemma ClaimsOfInterface(num: nat, iface: Iface, rest: seq<bytes>, ifnum: Option<nat>)
    requires num < 0x100 && |iface.eps| < 0x100 && AllDeclared(iface.eps) && AllPlain(iface.extras)
             && AllScannable(rest)
    ensures AllScannable(Descriptors(num, iface) + rest)
    ensures Claims(Descriptors(num, iface) + rest, ifnum) == Pairs(iface.eps, num) + Claims(rest, Some(num))
  {
    hide Claims, EndpointDescriptors, InterfaceDescriptor, AssociationDescriptors;
    var lead := AssociationDescriptors(num, iface);
    var head := InterfaceDescriptor(num, |iface.eps|, iface);
    var eps := EndpointDescriptors(iface.eps);
    Assoc(lead, [head] + (iface.extras + eps), rest);
    Assoc([head], iface.extras + eps, rest);
    Assoc(iface.extras, eps, rest);
    ClaimsOfEndpoints(iface.eps, rest, num);
    ClaimsSkipPlain(iface.extras, eps + rest, Some(num));
    ClaimsCons(head, iface.extras + (eps + rest), ifnum);
    ClaimsSkipPlain(lead, [head] + (iface.extras + (eps + rest)), ifnum);
  }

  /** The walk meets each routed endpoint once, under its own interface. */
  lemma {:induction false} ClaimsOfAll(num: nat, ifaces: seq<Iface>, ifnum: Option<nat>)
    requires Packable(num, ifaces) && PlainExtras(ifaces)
    ensures AllScannable(AllDescriptors(num, ifaces))
    ensures Claims(AllDescriptors(num, ifaces), ifnum) == IfaceClaims(num, ifaces)
    decreases |ifaces|
  {
    hide Claims, Descriptors;
    if ifaces == [] {
      NoClaims(ifnum);
    } else {
      PackableTail(num, ifaces);
      assert PlainExtras(ifaces[1..]);
      ClaimsOfAll(num + 1, ifaces[1..], Some(num));
      ClaimsOfInterface(num, ifaces[0], AllDescriptors(num + 1, ifaces[1..]), ifnum);
    }
  }

  lemma NoClaims(ifnum: Option<nat>)
    ensures Claims([], ifnum) == []
  {
  }

  lemma DistinctAddressesPass(num: nat, ifaces: seq<Iface>)
    requires Distinct(Endpoints(ifaces)) && AllDeclared(Endpoints(ifaces))
    ensures Passes(IfaceClaims(num, ifaces), map[])
  {
    hide Endpoints, IfaceClaims;
    var eps, claims := Endpoints(ifaces), IfaceClaims(num, ifaces);
    forall i, j | 0 <= i < j < |claims|
      ensures claims[i].0 != claims[j].0
    {
      assert Declared(eps[i]) && Declared(eps[j]);
      assert KeyOf(eps[i]) != KeyOf(eps[j]);
    }
    PassesIffOneOwner(claims, map[]);
  }

  lemma {:induction false} CountsAreLength(eps: seq<Ep>)
    requires AllDeclared(eps)
    ensures |eps| == CountDir(eps, OUT) + CountDir(eps, IN)
  {
    if eps != [] {
      CountsAreLength(eps[1..]);
    }
  }

  lemma {:induction false} InterfaceIsPart(ifaces: seq<Iface>, i: nat)
    requires i < |ifaces| && Distinct(Endpoints(ifaces))
    ensures |ifaces[i].eps| <= |Endpoints(ifaces)| && Distinct(ifaces[i].eps)
  {
    var eps, rest := ifaces[0].eps, Endpoints(ifaces[1..]);
    forall a, b | 0 <= a < b < |eps|
      ensures KeyOf(eps[a]) != KeyOf(eps[b])
    {
      assert (eps + rest)[a] == eps[a] && (eps + rest)[b] == eps[b];
    }
    if i > 0 {
      forall a, b | 0 <= a < b < |rest|
        ensures KeyOf(rest[a]) != KeyOf(rest[b])
      {
        assert (eps + rest)[|eps| + a] == rest[a] && (eps + rest)[|eps| + b] == rest[b];
      }
      InterfaceIsPart(ifaces[1..], i - 1);
    }
  }

  /** A composition is routed exactly when neither direction has more than fifteen endpoints. */
  lemma AttachedIffFifteen(ifaces: seq<Iface>)
    requires AllDeclared(Endpoints(ifaces))
    ensures Attach({}, ifaces).Some?
       <==> CountDir(Endpoints(ifaces), OUT) <= 15 && CountDir(Endpoints(ifaces), IN) <= 15
  {
    AttachIsPlaceAll({}, ifaces);
    PlacedIffRoom({}, Endpoints(ifaces));
    AllFree(OUT, 1);
    AllFree(IN, 1);
  }

  lemma {:induction false} SameDirections(a: seq<Ep>, b: seq<Ep>, dir: nat)
    requires SameBut(a, b)
    ensures CountDir(a, dir) == CountDir(b, dir)
  {
    if a != [] {
      assert b[0].dir == a[0].dir;
      SameDirections(a[1..], b[1..], dir);
    }
  }

  /**
   * A routed composition: every endpoint has its own (number, direction), no interface loses one when
   * its dictionary is rebuilt, and each advertised address leads back to its endpoint.
   */
  lemma RoutedComposition(ifaces: seq<Iface>)
    requires AllDeclared(Endpoints(ifaces)) && Attach({}, ifaces).Some?
    ensures var out := Attach({}, ifaces).value;
            && SameIfaces(ifaces, out)
            && Distinct(Endpoints(out)) && AllDeclared(Endpoints(out))
            && |Endpoints(out)| <= 30
            && (forall i :: 0 <= i < |out| ==> |Rekeyed(out[i].eps)| == |out[i].eps| <= 30)
            && (forall i :: 0 <= i < |Endpoints(out)| ==>
                  ByAddress(EpMap(Endpoints(out)), Address(Endpoints(out)[i])) == Some(i))
  {
    hide Attach, PlaceAll, Endpoints, ByAddress, EpMap, Rekeyed, CountDir, FreeCount;
    var out := Attach({}, ifaces).value;
    AttachIsPlaceAll({}, ifaces);
    AttachKeepsFields({}, ifaces);
    AttachedIffFifteen(ifaces);
    PlacedAreDistinct({}, Endpoints(ifaces));
    SameDirections(Endpoints(ifaces), Endpoints(out), OUT);
    SameDirections(Endpoints(ifaces), Endpoints(out), IN);
    CountsAreLength(Endpoints(out));
    forall i | 0 <= i < |out|
      ensures |Rekeyed(out[i].eps)| == |out[i].eps| <= 30
    {
      InterfaceIsPart(out, i);
      RekeyedHolds(out[i].eps);
    }
    forall i | 0 <= i < |Endpoints(out)|
      ensures ByAddress(EpMap(Endpoints(out)), Address(Endpoints(out)[i])) == Some(i)
    {
      AddressRoutesBack(Endpoints(out), i);
    }
  }

  /**
   * Its configuration walks back to the descriptors emitted. Where the conflict check can read those, it passes
   * exactly when they claim no address for two interfaces; and where no class descriptor poses as an interface or
   * an endpoint it does pass.
   */
  lemma RoutedConfiguration(ifaces: seq<Iface>)
    requires AllDeclared(Endpoints(ifaces)) && Attach({}, ifaces).Some?
    requires |ifaces| < 0x100 && DelimitedExtras(ifaces)
    ensures var out := Attach({}, ifaces).value;
            && Packable(0, out) && |out| == |ifaces|
            && (9 + |Flatten(AllDescriptors(0, out))| < 0x1_0000 ==>
                var walked := Walk(Drop(ConfigBytes(out), 9));
                && walked == AllDescriptors(0, out)
                && (AllScannable(walked) ==>
                      (Passes(Claims(walked, None), map[]) <==> OneOwnerEach(Claims(walked, None), map[])))
                && (PlainExtras(ifaces) ==> AllScannable(walked) && Passes(Claims(walked, None), map[])))
  {
    hide Attach, Endpoints, ByAddress, EpMap, Rekeyed, AllDescriptors, Walk, Claims, Passes, ConfigBytes, Flatten,
         IfaceClaims, OneOwnerEach;
    var out := Attach({}, ifaces).value;
    RoutedComposition(ifaces);
    assert DelimitedExtras(out);
    if PlainExtras(ifaces) {
      assert PlainExtras(out);
      ClaimsOfAll(0, out, None);
      DistinctAddressesPass(0, out);
    }
    if 9 + |Flatten(AllDescriptors(0, out))| < 0x1_0000 {
      ConfigWalksBack(out);
      if AllScannable(AllDescriptors(0, out)) {
        PassesIffOneOwner(Claims(AllDescriptors(0, out), None), map[]);
      }
    }
  }

  // ---- the device ----

  lemma {:induction false} EpMapKeys(eps: seq<Ep>)
    ensures EpMap(eps).Keys == Keys(eps)
  {
    if eps != [] {
      var n := |eps| - 1;
      EpMapKeys(eps[..n]);
      KeysSnoc(eps[..n], eps[n]);
      assert eps == eps[..n] + [eps[n]];
    }
  }

  lemma KeysSnoc(eps: seq<Ep>, ep: Ep)
    ensures Keys(eps + [ep]) == Keys(eps) + {KeyOf(ep)}
  {
    var all := eps + [ep];
    forall k | k in Keys(eps) + {KeyOf(ep)}
      ensures k in Keys(all)
    {
      if k == KeyOf(ep) {
        assert all[|eps|] == ep;
      } else {
        var i :| 0 <= i < |eps| && k == KeyOf(eps[i]);
        assert all[i] == eps[i];
      }
    }
  }

  lemma EpMapSnoc(eps: seq<Ep>, ep: Ep)
    ensures EpMap(eps + [ep]) == EpMap(eps)[KeyOf(ep) := |eps|]
  {
    assert (eps + [ep])[..|eps|] == eps;
  }

  class UsbDevice {
    /** The endpoint objects in the order they were routed, and the map to them. */
    var endpoints: seq<Ep>
    var epMap: map<Key, nat>
    var interfaces: seq<Iface>

    ghost predicate Valid()
      reads this
    {
      && epMap == EpMap(endpoints)
      && Distinct(endpoints) && AllDeclared(endpoints)
    }

    constructor ()
      ensures Valid() && endpoints == [] && interfaces == []
    {
      endpoints, epMap, interfaces := [], map[], [];
    }

    /** The endpoint with its final number, or None where the source raises for want of a number. */
    method RouteEndpoint(ep: Ep) returns (r: Option<Ep>)
      requires Valid() && Declared(ep)
      modifies `endpoints, `epMap
      ensures Valid() && r == Place(Keys(old(endpoints)), ep)
      ensures endpoints == old(endpoints) + if r.Some? then [r.value] else []
    {
      hide EpMap, Keys;
      EpMapKeys(endpoints);
      var placed := ep;
      if KeyOf(ep) in epMap {
        var number := 1;
        while number < LIMIT && (number, ep.dir) in epMap
          invariant 1 <= number <= LIMIT
          invariant LowestFree(epMap.Keys, ep.dir, 1) == LowestFree(epMap.Keys, ep.dir, number)
        {
          number := number + 1;
        }
        if number == LIMIT {
          return None;
        }
        placed := ep.(number := number);
      }
      KeysSnoc(endpoints, placed);
      EpMapSnoc(endpoints, placed);
      StaysDistinct(endpoints, placed);
      epMap := epMap[KeyOf(placed) := |endpoints|];
      endpoints := endpoints + [placed];
      return Some(placed);
    }

    /** Attach one interface; false where the source raises, with the endpoints routed so far left in place. */
    method AttachInterface(iface: Iface) returns (ok: bool)
      requires Valid() && AllDeclared(iface.eps)
      modifies this
      ensures Valid()
      ensures match PlaceAll(Keys(old(endpoints)), iface.eps)
              case None => !ok && interfaces == old(interfaces)
              case Some(placed) =>
                && ok
                && endpoints == old(endpoints) + placed
                && interfaces == old(interfaces) + [iface.(eps := placed)]
                && |Rekeyed(placed)| == |placed|
    {
      hide EpMap, Keys, PlaceAll, Place;
      var placed: seq<Ep> := [];
      ghost var used := Keys(endpoints);
      var i := 0;
      PlaceNone(used);
      assert iface.eps[..0] == [];
      while i < |iface.eps|
        invariant 0 <= i <= |iface.eps|
        invariant Valid() && interfaces == old(interfaces)
        invariant endpoints == old(endpoints) + placed
        invariant PlaceAll(used, iface.eps[..i]) == Some(placed)
      {
        KeysAppend(old(endpoints), placed);
        PlaceSnoc(used, iface.eps[..i], iface.eps[i]);
        assert iface.eps[..i + 1] == iface.eps[..i] + [iface.eps[i]];
        PlaceAppend(used, iface.eps[..i + 1], iface.eps[i + 1..]);
        assert iface.eps[..i + 1] + iface.eps[i + 1..] == iface.eps;
        var r := RouteEndpoint(iface.eps[i]);
        if r == None {
          return false;
        }
        Assoc(old(endpoints), placed, [r.value]);
        placed := placed + [r.value];
        i := i + 1;
      }
      assert iface.eps[..|iface.eps|] == iface.eps;
      PlacedAreDistinct(used, iface.eps);
      RekeyedHolds(placed);
      interfaces := interfaces + [iface.(eps := placed)];
      ok := true;
    }

    method ByAddr(addr: nat) returns (r: Option<nat>)
      requires Valid()
      ensures r == ByAddress(EpMap(endpoints), addr)
    {
      var key := (addr % 16, if (addr / 0x80) % 2 == 1 then IN else OUT);
      r := if key in epMap then Some(epMap[key]) else None;
    }
  }

  lemma StaysDistinct(eps: seq<Ep>, ep: Ep)
    requires Distinct(eps) && KeyOf(ep) !in Keys(eps)
    ensures Distinct(eps + [ep])
  {
    forall i | 0 <= i < |eps|
      ensures KeyOf(eps[i]) != KeyOf(ep)
    {
      assert KeyOf(eps[i]) in Keys(eps);
    }
  }

  lemma KeysAppend(a: seq<Ep>, b: seq<Ep>)
    ensures Keys(a + b) == Keys(a) + Keys(b)
    decreases |b|
  {
    if b == [] {
      assert a + b == a && Keys(b) == {};
    } else {
      var n := |b| - 1;
      KeysAppend(a, b[..n]);
      KeysSnoc(b[..n], b[n]);
      KeysSnoc(a + b[..n], b[n]);
      assert b == b[..n] + [b[n]];
      assert a + b == a + b[..n] + [b[n]];
    }
  }

  lemma PlaceSnoc(used: set<Key>, eps: seq<Ep>, ep: Ep)
    ensures PlaceAll(used, eps + [ep])
         == match PlaceAll(used, eps)
            case None => None
            case Some(first) =>
              match Place(used + Keys(first), ep)
              case None => None
              case Some(last) => Some(first + [last])
  {
    hide Place, PlaceAll;
    PlaceAppend(used, eps, [ep]);
    var first := PlaceAll(used, eps);
    if first.Some? {
      PlaceOne(used + Keys(first.value), ep);
    }
  }

  lemma PlaceOne(used: set<Key>, ep: Ep)
    ensures PlaceAll(used, [ep]) == match Place(used, ep) case None => None case Some(p) => Some([p])
  {
    hide Place;
    assert [ep][1..] == [];
    var placed := Place(used, ep);
    if placed.Some? {
      assert PlaceAll(used + {KeyOf(placed.value)}, []) == Some([]);
      assert [placed.value] + [] == [placed.value];
    }
  }

  /** `iter_descriptors` as a loop over the blob from `offset`. */
  method IterDescriptors(blob: bytes, offset: nat) returns (ds: seq<bytes>)
    ensures ds == Walk(Drop(blob, offset))
  {
    hide Walk, Drop, Slice;
    ds := [];
    var i := offset;
    assert [] + Walk(Drop(blob, offset)) == Walk(Drop(blob, offset));
    while i + 2 <= |blob|
      invariant ds + Walk(Drop(blob, i)) == Walk(Drop(blob, offset))
      decreases |blob| - i
    {
      var blen: nat := blob[i];
      if blen < 2 {
        break;
      }
      WalkStep(blob, i);
      Assoc(ds, [Slice(blob, i, i + blen)], Walk(Drop(blob, i + blen)));
      ds := ds + [Slice(blob, i, i + blen)];
      i := i + blen;
    }
    WalkEnds(blob, i);
    assert ds + [] == ds;
  }

  lemma WalkEnds(blob: bytes, i: nat)
    requires i + 2 > |blob| || blob[i] < 2
    ensures Walk(Drop(blob, i)) == []
  {
  }

  lemma WalkStep(blob: bytes, i: nat)
    requires i + 2 <= |blob| && blob[i] >= 2
    ensures Walk(Drop(blob, i)) == [Slice(blob, i, i + blob[i])] + Walk(Drop(blob, i + blob[i]))
  {
    var b := Drop(blob, i);
    var n: nat := blob[i];
    var end := if i + n <= |blob| then i + n else |blob|;
    assert b[0..end - i] == blob[i..end];
    assert Drop(b, n) == Drop(blob, i + n);
  }

  /** `_check_endpoint_conflicts` on the descriptors past the configuration header. */
  method CheckEndpointConflicts(ds: seq<bytes>) returns (ok: bool)
    requires AllScannable(ds)
    ensures ok <==> Passes(Claims(ds, None), map[])
  {
    var owner: map<nat, nat> := map[];
    var ifnum: Option<nat> := None;
    var i := 0;
    assert ds[0..] == ds;
    while i < |ds|
      invariant 0 <= i <= |ds|
      invariant Passes(Claims(ds[i..], ifnum), owner) <==> Passes(Claims(ds, None), map[])
    {
      var d := ds[i];
      assert Scannable(d);
      ClaimsCons(d, ds[i + 1..], ifnum);
      assert ds[i..] == [d] + ds[i + 1..];
      if d[1] == DT_INTERFACE {
        ifnum := Some(d[2]);
      } else if d[1] == DT_ENDPOINT && ifnum.Some? {
        PassesCons((d[2], ifnum.value), Claims(ds[i + 1..], ifnum), owner);
        var first := if d[2] in owner then owner[d[2]] else ifnum.value;
        owner := owner[d[2] := first];
        if first != ifnum.value {
          return false;
        }
      }
      i := i + 1;
    }
    return true;
  }

  lemma PassesCons(claim: (nat, nat), rest: seq<(nat, nat)>, owner: map<nat, nat>)
    ensures Passes([claim] + rest, owner)
       <==> if claim.0 in owner then owner[claim.0] == claim.1 && Passes(rest, owner[claim.0 := owner[claim.0]])
            else Passes(rest, owner[claim.0 := claim.1])
  {
    assert ([claim] + rest)[1..] == rest;
    if claim.0 in owner {
      assert owner[claim.0 := owner[claim.0]] == owner;
    }
  }

  // ---- the bytes ----

  /** Endpoint descriptors byte by byte (USB 2.0, table 9-13): length, type, address with bit 7 set for IN, attributes,
      packet size with the low byte first, interval. */
  lemma EndpointBytes(ep: Ep)
    requires Declared(ep)
    ensures var d := EndpointDescriptor(ep);
            && |d| == 7 && d[0] == 7 && d[1] == 5
            && d[2] == ep.number + (if ep.dir == 1 then 128 else 0) && d[3] == ep.attributes
            && At(d, 4) + 256 * At(d, 5) == ep.mps && d[6] == ep.interval
  {
  }

  /** Interface and association descriptors likewise (USB 2.0, table 9-12, and its IAD engineering change notice). */
  lemma InterfaceBytes(num: byte, iface: Iface)
    requires |iface.eps| < 0x100
    ensures InterfaceDescriptor(num, |iface.eps|, iface)
         == [9, 4, num, 0, |iface.eps|, iface.codes.base, iface.codes.sub, iface.codes.protocol, iface.text]
    ensures iface.lead.None? ==> AssociationDescriptors(num, iface) == []
    ensures iface.lead.Some? ==>
              var a := iface.lead.value;
              AssociationDescriptors(num, iface)
              == [[8, 11, num, a.count, a.codes.base, a.codes.sub, a.codes.protocol, a.text]]
  {
  }

  /** The configuration header tells the length of the whole, low byte first, and the number of interfaces. */
  lemma HeaderTells(ifaces: seq<Iface>)
    requires Packable(0, ifaces) && |ifaces| < 0x100
    requires 9 + |Flatten(AllDescriptors(0, ifaces))| < 0x1_0000
    ensures var b := ConfigBytes(ifaces);
            && |b| >= 9 && b[0] == 9 && b[1] == 2 && At(b, 2) + 256 * At(b, 3) == |b| && b[4] == |ifaces|
            && b[5] == 1 && b[7] == 0x80
  {
    hide AllDescriptors, Flatten;
    var total := 9 + |Flatten(AllDescriptors(0, ifaces))|;
    assert |ConfigBytes(ifaces)| == total;
  }

  /** How many descriptors the interfaces before `i` take. */
  function Before(ifaces: seq<Iface>, i: nat): nat
    requires i <= |ifaces|
  {
    if i == 0 then 0
    else
      var f := ifaces[i - 1];
      Before(ifaces, i - 1) + (if f.lead.Some? then 1 else 0) + 1 + |f.extras| + |f.eps|
  }

  lemma {:induction false} BeforeTail(ifaces: seq<Iface>, i: nat)
    requires 0 < i <= |ifaces|
    ensures var f := ifaces[0];
            Before(ifaces, i) == (if f.lead.Some? then 1 else 0) + 1 + |f.extras| + |f.eps| + Before(ifaces[1..], i - 1)
  {
    if i > 1 {
      BeforeTail(ifaces, i - 1);
    } else {
      assert Before(ifaces, 0) == 0 && Before(ifaces[1..], 0) == 0;
    }
  }

  /** From `from` on stand an interface's descriptors: the association if it has one, the interface itself, its class
      descriptors in order, its endpoints in order. */
  predicate StandsAt(ds: seq<bytes>, from: nat, num: byte, f: Iface)
    requires |f.eps| < 0x100 && AllDeclared(f.eps)
  {
    var at := from + if f.lead.Some? then 1 else 0;
    && at + 1 + |f.extras| + |f.eps| <= |ds|
    && (f.lead.Some? ==> ds[from] == AssociationDescriptors(num, f)[0])
    && ds[at] == InterfaceDescriptor(num, |f.eps|, f)
    && (forall j :: 0 <= j < |f.extras| ==> ds[at + 1 + j] == f.extras[j])
    && (forall j :: 0 <= j < |f.eps| ==> ds[at + 1 + |f.extras| + j] == EndpointDescriptor(f.eps[j]))
  }

  lemma StandsFirst(num: byte, f: Iface, rest: seq<bytes>)
    requires |f.eps| < 0x100 && AllDeclared(f.eps)
    ensures StandsAt(Descriptors(num, f) + rest, 0, num, f)
  {
    hide InterfaceDescriptor, EndpointDescriptor;
    FrontLength(num, f);
  }

  lemma StandsLater(front: seq<bytes>, ds: seq<bytes>, from: nat, num: byte, f: Iface)
    requires |f.eps| < 0x100 && AllDeclared(f.eps) && StandsAt(ds, from, num, f)
    ensures StandsAt(front + ds, |front| + from, num, f)
  {
    hide InterfaceDescriptor, EndpointDescriptor, AssociationDescriptors;
    var all, at := front + ds, from + if f.lead.Some? then 1 else 0;
    assert forall k :: 0 <= k < |ds| ==> all[|front| + k] == ds[k];
    forall j | 0 <= j < |f.extras|
      ensures all[|front| + at + 1 + j] == f.extras[j]
    {
      assert all[|front| + (at + 1 + j)] == ds[at + 1 + j];
    }
    forall j | 0 <= j < |f.eps|
      ensures all[|front| + at + 1 + |f.extras| + j] == EndpointDescriptor(f.eps[j])
    {
      assert all[|front| + (at + 1 + |f.extras| + j)] == ds[at + 1 + |f.extras| + j];
    }
  }

  /** Interface `i` is numbered `num + i` and its descriptors stand together, after those of the interfaces before. */
  lemma {:induction false} InterfaceIsWhole(num: nat, ifaces: seq<Iface>, i: nat)
    requires Packable(num, ifaces) && i < |ifaces|
    ensures |ifaces[i].eps| < 0x100 && AllDeclared(ifaces[i].eps) && num + i < 0x100
    ensures StandsAt(AllDescriptors(num, ifaces), Before(ifaces, i), num + i, ifaces[i])
    decreases i
  {
    hide Descriptors, StandsAt, Before;
    PackableTail(num, ifaces);
    var front, rest := Descriptors(num, ifaces[0]), AllDescriptors(num + 1, ifaces[1..]);
    assert AllDescriptors(num, ifaces) == front + rest;
    if i > 0 {
      InterfaceIsWhole(num + 1, ifaces[1..], i - 1);
      BeforeTail(ifaces, i);
      FrontLength(num, ifaces[0]);
      StandsLater(front, rest, Before(ifaces[1..], i - 1), num + i, ifaces[i]);
    } else {
      StandsFirst(num, ifaces[0], rest);
      NoneBefore(ifaces);
    }
  }

  lemma NoneBefore(ifaces: seq<Iface>)
    ensures Before(ifaces, 0) == 0
  {
  }

  lemma FrontLength(num: nat, iface: Iface)
    requires num < 0x100 && |iface.eps| < 0x100 && AllDeclared(iface.eps)
    ensures |Descriptors(num, iface)| == (if iface.lead.Some? then 1 else 0) + 1 + |iface.extras| + |iface.eps|
    ensures |AssociationDescriptors(num, iface)| == if iface.lead.Some? then 1 else 0
  {
    hide InterfaceDescriptor, EndpointDescriptor;
  }
}
