/**
 Planning an upgrade (src/josuke/deploy.py, `build_migration`), and judging its result
 (src/josuke/accept.py, `verify_migrated`).
 */
module Upgrade {
  import opened Bytes
  import opened Evm
  import opened Migration
  import opened Sorting
  import opened Wrappers
  import MigrationCodec

  /** keccak256("selectors()")[:4] */
  const SELECTORS_SELECTOR: Selector := 0x6e25b978

  /** A facet of a deployment state, with the selectors it exports at that state's checkout, if readable. */
  datatype Facet = Facet(source: string, address: Option<Address>, exports: Option<seq<Selector>>)

  /** A deployment state: its facets in order, and the generated `selectors()` delegate if it has one. */
  datatype Deployment = Deployment(facets: seq<Facet>, selectorsImpl: Option<Address>)

  /** What slot detection found: each selector's slot, and the word read from it. */
  datatype Slots = Slots(keys: map<Selector, Word>, values: map<Selector, Word>)

  type Routing = map<Selector, Option<Address>>

  /** The delegate address held in a storage word; an empty word routes nowhere. */
  function SlotAddress(word: Word): Option<Address> {
    if word == 0 then None else Some(word % ADDRESS_LIMIT)
  }

  /** It is the word's last 20 bytes, whatever the 12 before them hold. */
  lemma {:induction false} SlotAddressBytes(word: Word)
    ensures SlotAddress(word).None? <==> word == 0
    ensures SlotAddress(word).Some? ==>
              && |ToBytes(32, word)| == 32
              && ToBytes(20, SlotAddress(word).value) == ToBytes(32, word)[12..]
              && FromBytes(ToBytes(32, word)[12..]) == SlotAddress(word).value
  {
    PowerValues();
    LowBytes(12, 20, word);
    assert Pow256(20) == ADDRESS_LIMIT;
    if word != 0 {
      FromToBytes(20, word % ADDRESS_LIMIT);
    }
    hide Pow256, ToBytes, FromBytes;
  }

  function RoutedTo(slots: Slots, s: Selector): Option<Address> {
    if s in slots.values then SlotAddress(slots.values[s]) else None
  }

  // ---------------------------------------------------------------------- owners

  predicate Exports(f: Facet, s: Selector) {
    f.exports.Some? && s in f.exports.value
  }

  predicate Readable(facets: seq<Facet>) {
    forall i :: 0 <= i < |facets| ==> facets[i].exports.Some?
  }

  /** One more facet's selectors, which now route to it. */
  function Claim(owners: Routing, f: Facet): Routing {
    owners + map s | s in f.exports.GetOr([]) :: f.address
  }

  /** Selector -> the recorded address of the facet that exports it; the last such facet counts. */
  function FacetOwners(facets: seq<Facet>): Routing {
    if facets == [] then map[] else Claim(FacetOwners(facets[..|facets| - 1]), facets[|facets| - 1])
  }

  lemma FacetOwnersStep(facets: seq<Facet>, i: nat)
    requires i < |facets|
    ensures FacetOwners(facets[..i + 1]) == Claim(FacetOwners(facets[..i]), facets[i])
  {
    assert facets[..i + 1][..i] == facets[..i];
  }

  /** The last facet that exports the selector. */
  predicate LastExporter(facets: seq<Facet>, s: Selector, i: nat) {
    && i < |facets| && Exports(facets[i], s)
    && forall j :: i < j < |facets| ==> !Exports(facets[j], s)
  }

  /** A selector's owner is the last facet to export it. */
  lemma {:induction false} FacetOwnersLast(facets: seq<Facet>, s: Selector, i: nat)
    requires LastExporter(facets, s, i)
    ensures s in FacetOwners(facets) && FacetOwners(facets)[s] == facets[i].address
    decreases |facets|
  {
    var n := |facets| - 1;
    if i < n {
      assert LastExporter(facets[..n], s, i);
      FacetOwnersLast(facets[..n], s, i);
      assert !Exports(facets[n], s);
    } else {
      assert Exports(facets[n], s);
    }
  }

  /**
   A state routes exactly what its facets export, each selector to the last one that does, and `selectors()`
   to the generated delegate if it has one and no facet exports it.
   */
  lemma {:induction false} OwnersExactly(d: Deployment, s: Selector)
    ensures s in Owners(d) <==> Exported(d.facets, s) || (s == SELECTORS_SELECTOR && d.selectorsImpl.Some?)
    ensures forall i: nat :: LastExporter(d.facets, s, i) ==> s in Owners(d) && Owners(d)[s] == d.facets[i].address
    ensures s == SELECTORS_SELECTOR && d.selectorsImpl.Some? && !Exported(d.facets, s) ==>
              s in Owners(d) && Owners(d)[s] == d.selectorsImpl
  {
    FacetOwnersDomain(d.facets, s);
    hide FacetOwners;
    forall i: nat | LastExporter(d.facets, s, i)
      ensures s in Owners(d) && Owners(d)[s] == d.facets[i].address
    {
      FacetOwnersLast(d.facets, s, i);
    }
  }

  ghost predicate Exported(facets: seq<Facet>, s: Selector) {
    exists i :: 0 <= i < |facets| && Exports(facets[i], s)
  }

  lemma {:induction false} FacetOwnersDomain(facets: seq<Facet>, s: Selector)
    ensures s in FacetOwners(facets) <==> Exported(facets, s)
    ensures s in FacetOwners(facets) ==>
              exists i :: 0 <= i < |facets| && Exports(facets[i], s) && FacetOwners(facets)[s] == facets[i].address
    decreases |facets|
  {
    if facets != [] {
      var front, n := facets[..|facets| - 1], |facets| - 1;
      FacetOwnersDomain(front, s);
      if s in FacetOwners(front) {
        var i :| 0 <= i < |front| && Exports(front[i], s) && FacetOwners(front)[s] == front[i].address;
        assert front[i] == facets[i];
      }
      if Exported(facets, s) && !Exports(facets[n], s) {
        var i :| 0 <= i < |facets| && Exports(facets[i], s);
        assert front[i] == facets[i];
      }
      assert Exports(facets[n], s) ==> FacetOwners(facets)[s] == facets[n].address;
    }
  }

  /** Every selector a state routes, with the generated `selectors()` unless a facet exports it. */
  function Owners(d: Deployment): Routing {
    var owners := FacetOwners(d.facets);
    if d.selectorsImpl.Some? && SELECTORS_SELECTOR !in owners then owners[SELECTORS_SELECTOR := d.selectorsImpl]
    else owners
  }

  /** `selector_owners`: None when a facet cannot be read. */
  method SelectorOwners(d: Deployment) returns (r: Option<(Routing, seq<Selector>)>)
    ensures r.None? <==> !Readable(d.facets)
    ensures r.Some? ==> r.value.0 == Owners(d) && forall s :: s in r.value.1 <==> s in Owners(d)
  {
    var owners: Routing, selectors: seq<Selector> := map[], [];
    for i := 0 to |d.facets|
      invariant owners == FacetOwners(d.facets[..i])
      invariant forall s :: s in selectors <==> s in owners
      invariant Readable(d.facets[..i])
    {
      hide FacetOwners;
      if d.facets[i].exports.None? {
        return None;
      }
      FacetOwnersStep(d.facets, i);
      owners := Claim(owners, d.facets[i]);
      selectors := selectors + d.facets[i].exports.value;
    }
    assert d.facets[..|d.facets|] == d.facets;
    if d.selectorsImpl.Some? && SELECTORS_SELECTOR !in owners {
      owners := owners[SELECTORS_SELECTOR := d.selectorsImpl];
      selectors := selectors + [SELECTORS_SELECTOR];
    }
    return Some((owners, selectors));
  }

  /** `current_selectors`: what the installed facets export, as far as they can be read. */
  function Installed(current: Deployment): set<Selector> {
    FacetOwners(current.facets).Keys
  }

  // -------------------------------------------------------------------- planning

  /** Two facets at different addresses export one selector. */
  ghost predicate Contested(facets: seq<Facet>) {
    exists i, j, s :: 0 <= i < j < |facets| && ClashOn(facets[i], facets[j], s)
  }

  predicate ClashOn(f: Facet, g: Facet, s: Selector) {
    f.address != g.address && Exports(f, s) && Exports(g, s)
  }

  predicate AllRecorded(facets: seq<Facet>) {
    forall i :: 0 <= i < |facets| ==> facets[i].address.Some?
  }

  predicate Covers(want: Routing, slots: Slots, order: seq<Selector>) {
    forall s :: s in order ==> s in want && s in slots.keys
  }

  /** The writes for the selectors of `order` not yet routed as wanted; None is a removal. */
  function Writes(order: seq<Selector>, want: Routing, slots: Slots): seq<Route>
    requires Covers(want, slots, order)
  {
    if order == [] then [] else
    Write(order[0], want, slots) + Writes(order[1..], want, slots)
  }

  function Write(s: Selector, want: Routing, slots: Slots): seq<Route>
    requires s in want && s in slots.keys
  {
    if RoutedTo(slots, s) == want[s] then [] else [Route(s, slots.keys[s], want[s].GetOr(0))]
  }

  /** Installed selectors that no proposed facet or generated `selectors()` takes over. */
  function Removed(proposed: Deployment, installed: set<Selector>): set<Selector> {
    installed - FacetOwners(proposed.facets).Keys - (if proposed.selectorsImpl.Some? then {SELECTORS_SELECTOR} else {})
  }

  function Removals(proposed: Deployment, installed: set<Selector>): Routing {
    map s | s in Removed(proposed, installed) :: None
  }

  function Generated(proposed: Deployment): Routing {
    if proposed.selectorsImpl.Some? then map[SELECTORS_SELECTOR := proposed.selectorsImpl] else map[]
  }

  /** The removals whose slot is known; what storage holds for any other selector reads as empty. */
  function Clearable(proposed: Deployment, installed: set<Selector>, slots: Slots): Routing {
    map s | s in Removed(proposed, installed) && s in slots.keys :: None
  }

  /** A slot is known for every selector to be routed. */
  predicate Located(proposed: Deployment, slots: Slots) {
    FacetOwners(proposed.facets).Keys + Generated(proposed).Keys <= slots.keys.Keys
  }

  predicate Resolved(proposed: Deployment, installed: set<Selector>, slots: Slots) {
    FacetOwners(proposed.facets).Keys + Generated(proposed).Keys + Removed(proposed, installed) <= slots.keys.Keys
  }

  ghost function WritesFor(want: Routing, slots: Slots): seq<Route>
    requires want.Keys <= slots.keys.Keys
  {
    AscendingProperties(want.Keys);
    Writes(Ascending(want.Keys), want, slots)
  }

  /** All writes, in the order they are listed: facets, then the generated `selectors()`, then removals. */
  ghost function Assignments(proposed: Deployment, installed: set<Selector>, slots: Slots): seq<Route>
    requires Located(proposed, slots)
  {
    WritesFor(FacetOwners(proposed.facets), slots)
    + WritesFor(Generated(proposed), slots)
    + WritesFor(Clearable(proposed, installed, slots), slots)
  }

  ghost predicate DistinctSlots(routes: seq<Route>) {
    forall i, j :: 0 <= i < j < |routes| ==> routes[i].slot != routes[j].slot
  }

  datatype BuildError = NoAddress | Unreadable | SelectorClash | Unresolved | SlotClash

  /** `build_migration`: the plan, or None when nothing needs changing. */
  method BuildMigration(proposed: Deployment, installed: set<Selector>, slots: Slots)
    returns (r: Result<Option<seq<Route>>, BuildError>)
    ensures r.Success? <==>
      && AllRecorded(proposed.facets) && Readable(proposed.facets) && !Contested(proposed.facets)
      && Located(proposed, slots) && DistinctSlots(Assignments(proposed, installed, slots))
    ensures r.Success? ==> var routes := Assignments(proposed, installed, slots);
      r.value == if routes == [] then None else Some(Plan(routes))
    ensures r == Failure(SelectorClash) <==> ContestedFirst(proposed.facets)
    ensures r == Failure(Unresolved) ==> !Located(proposed, slots)
    ensures r == Failure(SlotClash) ==>
            Located(proposed, slots) && !DistinctSlots(Assignments(proposed, installed, slots))
  {
    hide FacetOwners, Writes, Plan, Contested;
    var claimed := ClaimSelectors(proposed.facets);
    if claimed.Failure? {
      return Failure(claimed.error);
    }
    if !(claimed.value.Keys + Generated(proposed).Keys <= slots.keys.Keys) {
      return Failure(Unresolved);
    }
    var routes := PlanWrites(claimed.value, slots);
    var generated := PlanWrites(Generated(proposed), slots);
    var removals := PlanWrites(Clearable(proposed, installed, slots), slots);
    routes := routes + generated + removals;
    var distinct := WritesOncePerSlot(routes);
    if !distinct {
      return Failure(SlotClash);
    }
    return Success(if routes == [] then None else Some(Plan(routes)));
  }

  /** The facets' selectors and their addresses, unless two addresses claim one selector. */
  method ClaimSelectors(facets: seq<Facet>) returns (r: Result<Routing, BuildError>)
    ensures r.Success? <==> AllRecorded(facets) && Readable(facets) && !Contested(facets)
    ensures r.Success? ==> r.value == FacetOwners(facets)
    ensures r == Failure(SelectorClash) <==> ContestedFirst(facets)
    ensures r == Failure(NoAddress) ==> !AllRecorded(facets)
    ensures r == Failure(Unreadable) ==> !Readable(facets)
    ensures r != Failure(SlotClash) && r != Failure(Unresolved)
  {
    hide FacetOwners, Contested;
    var owner: Routing := map[];
    ClaimNothing(facets[..0]);
    for i := 0 to |facets|
      invariant owner == FacetOwners(facets[..i])
      invariant AllRecorded(facets[..i]) && Readable(facets[..i])
      invariant !Contested(facets[..i])
    {
      var facet := facets[i];
      FirstFault(facets, i);
      if facet.address.None? {
        return Failure(NoAddress);
      }
      if facet.exports.None? {
        return Failure(Unreadable);
      }
      if clash :| clash in facet.exports.value && clash in owner && owner[clash] != facet.address {
        assert facets[..i + 1] == facets[..i] + [facet] && facets[..i + 1][..i] == facets[..i];
        FoundClash(facets, i, clash);
        FoundClash(facets[..i + 1], i, clash);
        assert ContestedBy(facets, i + 1);
        return Failure(SelectorClash);
      }
      StaysUncontested(facets, i);
      FacetOwnersStep(facets, i);
      owner := Claim(owner, facet);
      assert facets[..i + 1] == facets[..i] + [facet];
    }
    assert facets[..|facets|] == facets;
    FirstFault(facets, |facets|);
    return Success(owner);
  }

  /** Facets that are all recorded and readable contest a selector, before any that is not. */
  ghost predicate ContestedFirst(facets: seq<Facet>) {
    exists n :: 0 <= n <= |facets| && ContestedBy(facets, n)
  }

  ghost predicate ContestedBy(facets: seq<Facet>, n: int)
    requires 0 <= n <= |facets|
  {
    AllRecorded(facets[..n]) && Readable(facets[..n]) && Contested(facets[..n])
  }

  /** Up to the first facet without an address or exports, a contest is found if there is one. */
  lemma FirstFault(facets: seq<Facet>, i: nat)
    requires i <= |facets| && !Contested(facets[..i])
    ensures i == |facets| || facets[i].address.None? || facets[i].exports.None? ==> !ContestedFirst(facets)
  {
    forall n | 0 <= n <= |facets| && (i == |facets| || facets[i].address.None? || facets[i].exports.None?)
      ensures !ContestedBy(facets, n)
    {
      if n <= i {
        LessContested(facets, n, i);
      } else {
        assert facets[..n][i] == facets[i];
      }
    }
  }

  lemma LessContested(facets: seq<Facet>, n: nat, i: nat)
    requires n <= i <= |facets| && !Contested(facets[..i])
    ensures !Contested(facets[..n])
  {
    forall k, j, s | 0 <= k < j < n
      ensures !ClashOn(facets[..n][k], facets[..n][j], s)
    {
      assert !ClashOn(facets[..i][k], facets[..i][j], s);
    }
  }

  lemma ClaimNothing(facets: seq<Facet>)
    requires facets == []
    ensures FacetOwners(facets) == map[] && !Contested(facets)
  {
  }

  lemma FoundClash(facets: seq<Facet>, i: nat, s: Selector)
    requires i < |facets| && Exports(facets[i], s)
    requires s in FacetOwners(facets[..i]) && FacetOwners(facets[..i])[s] != facets[i].address
    ensures Contested(facets)
  {
    FacetOwnersDomain(facets[..i], s);
    var k :| 0 <= k < i && Exports(facets[..i][k], s) && FacetOwners(facets[..i])[s] == facets[..i][k].address;
    assert ClashOn(facets[k], facets[i], s);
  }

  lemma StaysUncontested(facets: seq<Facet>, i: nat)
    requires i < |facets| && !Contested(facets[..i])
    requires forall s :: Exports(facets[i], s) && s in FacetOwners(facets[..i]) ==>
                           FacetOwners(facets[..i])[s] == facets[i].address
    ensures !Contested(facets[..i + 1])
  {
    var before := facets[..i];
    forall k, j, s | 0 <= k < j <= i
      ensures !ClashOn(facets[k], facets[j], s)
    {
      if j < i {
        assert !ClashOn(before[k], before[j], s);
      } else if Exports(facets[k], s) && Exports(facets[i], s) {
        assert Exports(before[k], s);
        FacetOwnersDomain(before, s);
        var o :| 0 <= o < i && Exports(before[o], s) && FacetOwners(before)[s] == before[o].address;
        assert o < k ==> !ClashOn(before[o], before[k], s);
        assert k < o ==> !ClashOn(before[k], before[o], s);
      }
    }
  }

  method PlanWrites(want: Routing, slots: Slots) returns (routes: seq<Route>)
    requires want.Keys <= slots.keys.Keys
    ensures routes == WritesFor(want, slots)
  {
    AscendingProperties(want.Keys);
    var order := Ascending(want.Keys);
    routes := [];
    hide Writes, RoutedTo, Ascending;
    for i := 0 to |order|
      invariant routes + Writes(order[i..], want, slots) == Writes(order, want, slots)
    {
      assert order[i] in order;
      WritesStep(routes, order, i, want, slots);
      if RoutedTo(slots, order[i]) != want[order[i]] {
        routes := routes + [Route(order[i], slots.keys[order[i]], want[order[i]].GetOr(0))];
      } else {
        assert routes + [] == routes;
      }
    }
    NoMoreWrites(routes, order[|order|..], want, slots);
  }

  lemma WritesStep(routes: seq<Route>, order: seq<Selector>, i: nat, want: Routing, slots: Slots)
    requires i < |order| && Covers(want, slots, order)
    ensures order[i] in want && order[i] in slots.keys
    ensures (routes + Write(order[i], want, slots)) + Writes(order[i + 1..], want, slots)
            == routes + Writes(order[i..], want, slots)
  {
    assert order[i] in order && order[i..][1..] == order[i + 1..];
    hide Write;
    Associative(routes, Write(order[i], want, slots), Writes(order[i + 1..], want, slots));
  }

  lemma NoMoreWrites(routes: seq<Route>, rest: seq<Selector>, want: Routing, slots: Slots)
    requires rest == []
    ensures routes + Writes(rest, want, slots) == routes
  {
  }

  /** No slot is written twice. */
  method WritesOncePerSlot(routes: seq<Route>) returns (distinct: bool)
    ensures distinct <==> DistinctSlots(routes)
  {
    var bySlot: map<Word, Selector> := map[];
    for i := 0 to |routes|
      invariant DistinctSlots(routes[..i])
      invariant forall slot :: slot in bySlot <==> exists k :: 0 <= k < i && routes[k].slot == slot
    {
      if routes[i].slot in bySlot {
        return false;
      }
      bySlot := bySlot[routes[i].slot := routes[i].selector];
    }
    assert routes[..|routes|] == routes;
    return true;
  }

  // -------------------------------------------------------------------- accepting

  /** Every selector of `want` routes to the address recorded for it. */
  ghost predicate Routed(want: Routing, slots: Slots) {
    forall s :: s in want ==> want[s].Some? && RoutedTo(slots, s) == want[s]
  }

  ghost predicate Unrouted(selectors: set<Selector>, slots: Slots) {
    forall s :: s in selectors ==> RoutedTo(slots, s) == None
  }

  /** Every proposed selector routes to its recorded facet, every dropped one routes nowhere. */
  ghost predicate Accepted(current: Deployment, proposed: Deployment, slots: Slots) {
    && Routed(Owners(proposed), slots)
    && Unrouted(Owners(current).Keys - Owners(proposed).Keys, slots)
  }

  datatype AcceptFailure =
    | NotRecorded(selector: Selector)
    | Misrouted(selector: Selector, routed: Option<Address>, expected: Address)
    | StillRouted(selector: Selector, to: Address)

  /** What a failure says is so. */
  predicate Warranted(f: AcceptFailure, owners: Routing, dropped: set<Selector>, slots: Slots) {
    match f
    case NotRecorded(s) => s in owners && owners[s] == None
    case Misrouted(s, routed, expected) =>
      s in owners && owners[s] == Some(expected) && RoutedTo(slots, s) == routed != owners[s]
    case StillRouted(s, to) => s in dropped && RoutedTo(slots, s) == Some(to)
  }

  /**
   `verify_migrated`: no failure exactly when the live routing is the proposed one, and each failure
   true; None when a facet cannot be read. An empty `current` stands for none recorded.
   */
  method VerifyMigrated(current: Deployment, proposed: Deployment, slots: Slots) returns (r: Option<seq<AcceptFailure>>)
    ensures r.None? <==> !Readable(current.facets) || !Readable(proposed.facets)
    ensures r.Some? ==> (r.value == [] <==> Accepted(current, proposed, slots))
    ensures r.Some? ==> forall f :: f in r.value ==>
            Warranted(f, Owners(proposed), Owners(current).Keys - Owners(proposed).Keys, slots)
    ensures r.Some? ==> forall f ::
            Warranted(f, Owners(proposed), Owners(current).Keys - Owners(proposed).Keys, slots) ==> f in r.value
  {
    hide RoutedTo, Owners, Warranted, Routed, Unrouted;
    var wanted := SelectorOwners(proposed);
    if wanted.None? {
      return None;
    }
    var installed := SelectorOwners(current);
    if installed.None? {
      return None;
    }
    var owners, dropped := wanted.value.0, installed.value.0.Keys - wanted.value.0.Keys;
    var misrouted := CheckRouted(owners, dropped, slots);
    var stale := CheckUnrouted(owners, dropped, slots);
    return Some(misrouted + stale);
  }

  method CheckRouted(owners: Routing, ghost dropped: set<Selector>, slots: Slots) returns (failures: seq<AcceptFailure>)
    ensures failures == [] <==> Routed(owners, slots)
    ensures forall f :: f in failures <==> !f.StillRouted? && Warranted(f, owners, dropped, slots)
  {
    hide *;
    failures := [];
    var order := Ascending(owners.Keys);
    AscendingProperties(owners.Keys);
    RoutedInOrder(owners, slots, order);
    FoundNone(owners, dropped, slots, order);
    for i := 0 to |order|
      invariant FoundTo(failures, owners, dropped, slots, order, i)
    {
      var s := order[i];
      assert s in order;
      FoundNext(failures, owners, dropped, slots, order, i);
      var routed := RoutedTo(slots, s);
      if owners[s].None? {
        failures := failures + [NotRecorded(s)];
      } else if routed != owners[s] {
        failures := failures + [Misrouted(s, routed, owners[s].value)];
      }
    }
    FoundAll(failures, owners, dropped, slots, order);
  }

  /** The failures are what there is to report of the first `n` selectors. */
  ghost predicate FoundTo(failures: seq<AcceptFailure>, owners: Routing, dropped: set<Selector>, slots: Slots,
                          order: seq<Selector>, n: nat)
    requires n <= |order| && forall s :: s in order ==> s in owners
  {
    && (failures == [] <==> forall k :: 0 <= k < n ==> RoutedAt(owners, slots, order[k]))
    && forall f ::
         f in failures <==> !f.StillRouted? && Warranted(f, owners, dropped, slots) && f.selector in order[..n]
  }

  lemma FoundNone(owners: Routing, dropped: set<Selector>, slots: Slots, order: seq<Selector>)
    requires forall s :: s in order ==> s in owners
    ensures FoundTo([], owners, dropped, slots, order, 0)
  {
  }

  lemma FoundNext(failures: seq<AcceptFailure>, owners: Routing, dropped: set<Selector>, slots: Slots,
                  order: seq<Selector>, n: nat)
    requires n < |order| && (forall s :: s in order ==> s in owners)
    requires FoundTo(failures, owners, dropped, slots, order, n)
    ensures var s := order[n];
      && (owners[s].None? ==> FoundTo(failures + [NotRecorded(s)], owners, dropped, slots, order, n + 1))
      && (owners[s].Some? && RoutedTo(slots, s) != owners[s] ==>
            FoundTo(failures + [Misrouted(s, RoutedTo(slots, s), owners[s].value)], owners, dropped, slots, order,
                    n + 1))
      && (owners[s].Some? && RoutedTo(slots, s) == owners[s] ==>
            FoundTo(failures, owners, dropped, slots, order, n + 1))
  {
    var s := order[n];
    assert order[..n + 1] == order[..n] + [s];
    RouteFailure(owners, s, dropped, slots);
    hide RoutedTo, Warranted, RoutedAt;
  }

  lemma FoundAll(failures: seq<AcceptFailure>, owners: Routing, dropped: set<Selector>, slots: Slots,
                 order: seq<Selector>)
    requires (forall s :: s in order <==> s in owners) && FoundTo(failures, owners, dropped, slots, order, |order|)
    ensures failures == [] <==> forall k :: 0 <= k < |order| ==> RoutedAt(owners, slots, order[k])
    ensures forall f :: f in failures <==> !f.StillRouted? && Warranted(f, owners, dropped, slots)
  {
    assert order[..|order|] == order;
    WarrantedOwned(owners, dropped, slots);
    hide RoutedTo, Warranted, RoutedAt;
  }

  lemma WarrantedOwned(owners: Routing, dropped: set<Selector>, slots: Slots)
    ensures forall f: AcceptFailure :: !f.StillRouted? && Warranted(f, owners, dropped, slots) ==> f.selector in owners
    ensures forall f: AcceptFailure :: f.StillRouted? && Warranted(f, owners, dropped, slots) ==> f.selector in dropped
  {
  }

  predicate RoutedAt(owners: Routing, slots: Slots, s: Selector)
    requires s in owners
  {
    owners[s].Some? && RoutedTo(slots, s) == owners[s]
  }

  /** What the loop reports of a selector is so, and it reports nothing exactly of one that is routed. */
  lemma RouteFailure(owners: Routing, s: Selector, dropped: set<Selector>, slots: Slots)
    requires s in owners
    ensures RoutedAt(owners, slots, s) <==> owners[s].Some? && RoutedTo(slots, s) == owners[s]
    ensures owners[s].None? ==> Warranted(NotRecorded(s), owners, dropped, slots)
    ensures owners[s].Some? && RoutedTo(slots, s) != owners[s] ==>
              Warranted(Misrouted(s, RoutedTo(slots, s), owners[s].value), owners, dropped, slots)
    ensures forall f: AcceptFailure :: !f.StillRouted? && f.selector == s && Warranted(f, owners, dropped, slots) ==>
              f == if owners[s].None? then NotRecorded(s) else Misrouted(s, RoutedTo(slots, s), owners[s].value)
    ensures RoutedAt(owners, slots, s) ==>
              forall f: AcceptFailure :: f.selector == s && Warranted(f, owners, dropped, slots) ==> f.StillRouted?
  {
  }

  lemma RoutedInOrder(owners: Routing, slots: Slots, order: seq<Selector>)
    requires forall s :: s in order <==> s in owners
    ensures Routed(owners, slots) <==> forall k :: 0 <= k < |order| ==> RoutedAt(owners, slots, order[k])
  {
    hide RoutedTo;
    if forall k :: 0 <= k < |order| ==> RoutedAt(owners, slots, order[k]) {
      forall s | s in owners
        ensures RoutedAt(owners, slots, s)
      {
        assert s in order;
      }
    }
  }

  method CheckUnrouted(ghost owners: Routing, dropped: set<Selector>, slots: Slots)
    returns (failures: seq<AcceptFailure>)
    ensures failures == [] <==> Unrouted(dropped, slots)
    ensures forall f :: f in failures <==> f.StillRouted? && Warranted(f, owners, dropped, slots)
  {
    failures := [];
    var order := Ascending(dropped);
    AscendingProperties(dropped);
    hide RoutedTo, Ascending;
    for i := 0 to |order|
      invariant failures == [] <==> forall k :: 0 <= k < i ==> RoutedTo(slots, order[k]) == None
      invariant forall f ::
                  f in failures <==> f.StillRouted? && Warranted(f, owners, dropped, slots) && f.selector in order[..i]
    {
      assert order[i] in order && order[..i + 1] == order[..i] + [order[i]];
      var routed := RoutedTo(slots, order[i]);
      if routed.Some? {
        failures := failures + [StillRouted(order[i], routed.value)];
      }
    }
    assert order[..|order|] == order;
    WarrantedOwned(owners, dropped, slots);
    assert Unrouted(dropped, slots) <==> forall s :: s in order ==> RoutedTo(slots, s) == None;
  }

  // -------------------------------------------- verifying a recorded migration's code

  /** `{sd.selector: sd for sd in routes}`: the last route of each selector. */
  function Latest(routes: seq<Route>): map<Selector, Route> {
    if routes == [] then map[] else
    var last := routes[|routes| - 1];
    Latest(routes[..|routes| - 1])[last.selector := last]
  }

  /** The route kept of a selector is its last one. */
  lemma {:induction false} LatestIsLast(routes: seq<Route>, s: Selector)
    ensures s in Latest(routes) <==> exists i: nat :: LastFor(routes, s, i)
    ensures forall i: nat :: LastFor(routes, s, i) ==> s in Latest(routes) && Latest(routes)[s] == routes[i]
    decreases |routes|
  {
    if routes != [] {
      var n := |routes| - 1;
      LatestIsLast(routes[..n], s);
      if routes[n].selector == s {
        assert LastFor(routes, s, n);
      } else {
        forall i: nat
          ensures LastFor(routes, s, i) <==> LastFor(routes[..n], s, i)
        {
          assert i < n ==> routes[..n][i] == routes[i];
        }
      }
    }
  }

  predicate LastFor(routes: seq<Route>, s: Selector, i: nat) {
    i < |routes| && routes[i].selector == s && forall j :: i < j < |routes| ==> routes[j].selector != s
  }

  datatype MigrationFailure =
    | NotNeeded                              // recorded, but recomputation needs no migration
    | NotRecognized                          // the code on chain is not a migration script
    | Lacks(selector: Selector)
    | WrongDelegate(selector: Selector)
    | WrongSlot(selector: Selector)
    | Unexpected(selector: Selector)

  /** The code decodes, and to the plan's route for each selector. */
  ghost predicate MatchesPlan(code: seq<Byte>, known: set<Address>, plan: seq<Route>) {
    Parse(code, known).Success? && Latest(Plan(Flatten(Parse(code, known).value))) == Latest(plan)
  }

  /** What a failure says of the decoded and the planned routes is so. */
  predicate Differs(f: MigrationFailure, got: map<Selector, Route>, want: map<Selector, Route>) {
    match f
    case NotNeeded => false
    case NotRecognized => false
    case Lacks(s) => s in want && s !in got
    case WrongDelegate(s) => s in want && s in got && got[s].delegate != want[s].delegate
    case WrongSlot(s) => s in want && s in got && got[s].delegate == want[s].delegate && got[s].slot != want[s].slot
    case Unexpected(s) => s in got && s !in want
  }

  /** The failures are exactly what there is to report. */
  ghost predicate ReportsDiffer(failures: seq<MigrationFailure>, code: seq<Byte>, known: set<Address>,
                                plan: seq<Route>) {
    match Parse(code, known)
    case Failure(_) => failures == [NotRecognized]
    case Success(gs) => forall f :: f in failures <==> Differs(f, Latest(Plan(Flatten(gs))), Latest(plan))
  }

  /**
   `verify_migration`, given the recomputed plan. It raises an error the source does not catch exactly
   for code that is whole groups and then ends inside a pushed address.
   */
  method VerifyMigration(expected: Option<seq<Route>>, code: seq<Byte>, known: set<Address>)
    returns (r: Result<seq<MigrationFailure>, DecodeError>)
    ensures r.Failure? <==> expected.Some? && MigrationCodec.CutShort(code, known)
    ensures r == Success([]) <==> expected.Some? && MatchesPlan(code, known, expected.value)
    ensures r.Success? ==>
              if expected.None? then r.value == [NotNeeded] else ReportsDiffer(r.value, code, known, expected.value)
  {
    if expected.None? {
      return Success([NotNeeded]);
    }
    var decoded := Decode(code, known);
    MigrationCodec.MalformedExactly(code, known);
    hide Parse, Plan, Flatten, MigrationCodec.CutShort;
    if decoded == Failure(MalformedAddress) {
      return Failure(MalformedAddress);
    }
    if decoded.Failure? {
      return Success([NotRecognized]);
    }
    var got := CollectLatest(decoded.value);
    var want := CollectLatest(expected.value);
    var failures := CompareRoutes(got, want);
    var extra := UnexpectedEntries(got.Keys - want.Keys);
    failures := failures + extra;
    EqualWhenNoExtra(got, want);
    DiffersAbout(got, want);
    hide Differs, Includes, Latest;
    return Success(failures);
  }

  /** The planned routes that the decoded ones lack or contradict. */
  method CompareRoutes(got: map<Selector, Route>, want: map<Selector, Route>) returns (failures: seq<MigrationFailure>)
    requires forall s :: s in got ==> got[s].selector == s
    requires forall s :: s in want ==> want[s].selector == s
    ensures failures == [] <==> Includes(got, want)
    ensures forall f :: f in failures <==> !f.Unexpected? && Differs(f, got, want)
  {
    failures := [];
    var order := Ascending(want.Keys);
    AscendingProperties(want.Keys);
    hide Ascending, Differs, Includes, About;
    for i := 0 to |order|
      invariant failures == [] <==> forall k :: 0 <= k < i ==> SameRoute(got, want, order[k])
      invariant forall f :: f in failures <==> !f.Unexpected? && Differs(f, got, want) && About(f) in order[..i]
    {
      var s := order[i];
      assert s in order && order[..i + 1] == order[..i] + [s];
      DiffersAt(got, want, s);
      if s !in got {
        failures := failures + [Lacks(s)];
      } else if got[s].delegate != want[s].delegate {
        failures := failures + [WrongDelegate(s)];
      } else if got[s].slot != want[s].slot {
        failures := failures + [WrongSlot(s)];
      }
    }
    assert order[..|order|] == order;
    DiffersAbout(got, want);
    IncludesInOrder(got, want, order);
  }

  predicate SameRoute(got: map<Selector, Route>, want: map<Selector, Route>, s: Selector)
    requires s in want
  {
    s in got && got[s] == want[s]
  }

  lemma IncludesInOrder(got: map<Selector, Route>, want: map<Selector, Route>, order: seq<Selector>)
    requires forall s :: s in order <==> s in want
    ensures Includes(got, want) <==> forall k :: 0 <= k < |order| ==> SameRoute(got, want, order[k])
  {
    if forall k :: 0 <= k < |order| ==> SameRoute(got, want, order[k]) {
      forall s | s in want
        ensures SameRoute(got, want, s)
      {
        assert s in order;
      }
    }
  }

  /** The selector a failure is about, if it is about one. */
  function About(f: MigrationFailure): Selector {
    match f
    case NotNeeded => SELECTORS_SELECTOR
    case NotRecognized => SELECTORS_SELECTOR
    case Lacks(s) => s
    case WrongDelegate(s) => s
    case WrongSlot(s) => s
    case Unexpected(s) => s
  }

  lemma DiffersAt(got: map<Selector, Route>, want: map<Selector, Route>, s: Selector)
    requires s in want
    ensures forall f: MigrationFailure :: !f.Unexpected? && Differs(f, got, want) && About(f) == s <==>
              || (f == Lacks(s) && s !in got)
              || (f == WrongDelegate(s) && s in got && got[s].delegate != want[s].delegate)
              || (f == WrongSlot(s) && s in got && got[s].delegate == want[s].delegate && got[s].slot != want[s].slot)
  {
  }

  lemma DiffersAbout(got: map<Selector, Route>, want: map<Selector, Route>)
    ensures forall f: MigrationFailure :: !f.Unexpected? && Differs(f, got, want) ==> About(f) in want
    ensures forall f: MigrationFailure :: f.Unexpected? ==>
              (Differs(f, got, want) <==> f.selector in got.Keys - want.Keys)
  {
  }

  ghost predicate Includes(got: map<Selector, Route>, want: map<Selector, Route>) {
    forall s :: s in want ==> s in got && got[s] == want[s]
  }

  lemma EqualWhenNoExtra(got: map<Selector, Route>, want: map<Selector, Route>)
    ensures Includes(got, want) && got.Keys - want.Keys == {} <==> got == want
  {
    if got.Keys - want.Keys == {} {
      assert forall s :: s in got.Keys ==> s !in got.Keys - want.Keys;
    }
  }

  method UnexpectedEntries(selectors: set<Selector>) returns (failures: seq<MigrationFailure>)
    ensures failures == [] <==> selectors == {}
    ensures forall f :: f in failures <==> f.Unexpected? && f.selector in selectors
  {
    failures := [];
    var order := Ascending(selectors);
    AscendingProperties(selectors);
    for i := 0 to |order|
      invariant |failures| == i
      invariant forall f :: f in failures <==> f.Unexpected? && f.selector in order[..i]
    {
      assert order[..i + 1] == order[..i] + [order[i]];
      failures := failures + [Unexpected(order[i])];
    }
    assert order[..|order|] == order;
  }

  method CollectLatest(routes: seq<Route>) returns (bySelector: map<Selector, Route>)
    ensures bySelector == Latest(routes)
    ensures forall s :: s in bySelector ==> bySelector[s].selector == s
  {
    bySelector := map[];
    for i := 0 to |routes|
      invariant bySelector == Latest(routes[..i])
      invariant forall s :: s in bySelector ==> bySelector[s].selector == s
    {
      assert routes[..i + 1][..i] == routes[..i];
      bySelector := bySelector[routes[i].selector := routes[i]];
    }
    assert routes[..|routes|] == routes;
  }
}
