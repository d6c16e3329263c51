/**
 The end-to-end meaning of an upgrade: the bytes `build_migration` encodes, run on the proxy's
 storage, leave exactly the routing that `verify_migrated` accepts.
 */
module UpgradeProofs {
  import opened Bytes
  import opened Evm
  import opened Migration
  import opened MigrationCodec
  import opened MigrationRun
  import opened Sorting
  import opened Upgrade
  import opened Wrappers

  // ----------------------------------------------------------- storage after writes

  /** Routes through one slot agree on the delegate, so their order does not matter. */
  ghost predicate Consistent(routes: seq<Route>) {
    forall r, q :: r in routes && q in routes && r.slot == q.slot ==> r.delegate == q.delegate
  }

  ghost predicate Touches(routes: seq<Route>, slot: Word) {
    exists r :: r in routes && r.slot == slot
  }

  lemma {:induction false} WrittenLookup(storage: map<Word, Word>, routes: seq<Route>, slot: Word)
    requires Consistent(routes)
    ensures Touches(routes, slot) ==>
            exists r :: r in routes && r.slot == slot && Sload(Written(storage, routes), slot) == r.delegate
    ensures !Touches(routes, slot) ==> Sload(Written(storage, routes), slot) == Sload(storage, slot)
    decreases |routes|
  {
    if routes != [] {
      var first, rest := routes[0], routes[1..];
      assert first in routes;
      assert forall r :: r in rest ==> r in routes;
      WrittenLookup(storage[first.slot := first.delegate], rest, slot);
      if Touches(rest, slot) {
        var r :| r in rest && r.slot == slot;
        assert Touches(routes, slot);
      } else if first.slot == slot {
        assert Touches(routes, slot);
      } else {
        assert forall r :: r in routes ==> r == first || r in rest;
        assert !Touches(routes, slot);
      }
    }
  }

  lemma RouteWritten(storage: map<Word, Word>, routes: seq<Route>, r: Route)
    requires Consistent(routes) && r in routes
    ensures Sload(Written(storage, routes), r.slot) == r.delegate
  {
    WrittenLookup(storage, routes, r.slot);
    assert Touches(routes, r.slot);
  }

  ghost predicate SameRoutes(a: seq<Route>, b: seq<Route>) {
    forall r :: r in a <==> r in b
  }

  /** Consistent lists of the same routes, in any order and with any repetition, write the same storage. */
  lemma {:induction false} SameStorage(storage: map<Word, Word>, a: seq<Route>, b: seq<Route>, slot: Word)
    requires Consistent(a) && SameRoutes(a, b)
    ensures Sload(Written(storage, a), slot) == Sload(Written(storage, b), slot)
  {
    assert Consistent(b);
    if Touches(a, slot) {
      var r :| r in a && r.slot == slot;
      RouteWritten(storage, a, r);
      RouteWritten(storage, b, r);
    } else {
      assert !Touches(b, slot);
      WrittenLookup(storage, a, slot);
      WrittenLookup(storage, b, slot);
    }
  }

  lemma PlanSameRoutes(routes: seq<Route>)
    ensures SameRoutes(routes, Plan(routes))
  {
    SortProperties(routes, RouteKey);
    forall r
      ensures r in routes <==> r in Plan(routes)
    {
      assert r in routes <==> r in multiset(routes);
      assert r in Plan(routes) <==> r in multiset(Plan(routes));
    }
  }

  // ---------------------------------------------------------- what decoded code does

  /**
   Decoder soundness: whatever bytes `decode` accepts run to their end, performing the decoded
   writes and logs in byte order, under every stack limit from 8 up.
   */
  lemma {:induction false} DecodedRuns(code: seq<Byte>, known: set<Address>, storage: map<Word, Word>, limit: nat)
    requires limit >= 8 && Parse(code, known).Success?
    ensures var routes := Flatten(Parse(code, known).value);
      && Run(code, Fresh(storage), limit)
         == Stopped(Machine(|code|, [SELECTOR_DELEGATED_SIG], [], Written(storage, routes), Announced(routes)))
      && SameRoutes(routes, Plan(routes))
      && DelegatesKnown(routes, known)
  {
    var gs := Parse(code, known).value;
    ParseIsInverse(code, known, gs);
    RunScript(gs, storage, limit);
    PlanSameRoutes(Flatten(gs));
    FlattenKnown(gs, known);
  }

  lemma {:induction false} FlattenKnown(gs: seq<Group>, known: set<Address>)
    requires AllKnown(gs, known)
    ensures DelegatesKnown(Flatten(gs), known)
    decreases |gs|
  {
    if gs != [] {
      assert AllKnown(gs[1..], known);
      FlattenKnown(gs[1..], known);
    }
  }

  /** Running an encoded migration writes its routes in sorted order. */
  lemma {:induction false} EncodedRuns(routes: seq<Route>, storage: map<Word, Word>, limit: nat)
    requires limit >= 8
    ensures Run(Encoded(routes), Fresh(storage), limit)
         == Stopped(Machine(|Encoded(routes)|, [SELECTOR_DELEGATED_SIG], [],
                            Written(storage, Plan(routes)), Announced(Plan(routes))))
  {
    FlattenGroupBy(Plan(routes));
    RunScript(GroupBy(Plan(routes)), storage, limit);
  }

  // -------------------------------------------------------------- the planned writes

  ghost predicate Pending(s: Selector, want: Routing, slots: Slots) {
    s in want && RoutedTo(slots, s) != want[s]
  }

  function PlannedRoute(s: Selector, want: Routing, slots: Slots): Route
    requires s in want && s in slots.keys
  {
    Route(s, slots.keys[s], want[s].GetOr(0))
  }

  lemma {:induction false} WritesExactly(order: seq<Selector>, want: Routing, slots: Slots, r: Route)
    requires Covers(want, slots, order)
    ensures r in Writes(order, want, slots) <==>
      r.selector in order && Pending(r.selector, want, slots) && r == PlannedRoute(r.selector, want, slots)
    decreases |order|
  {
    if order != [] {
      assert forall s :: s in order[1..] ==> s in order;
      assert forall s :: s in order ==> s == order[0] || s in order[1..];
      WritesExactly(order[1..], want, slots, r);
    }
  }

  lemma WritesForExactly(want: Routing, slots: Slots, r: Route)
    requires want.Keys <= slots.keys.Keys
    ensures r in WritesFor(want, slots) <==>
      Pending(r.selector, want, slots) && r == PlannedRoute(r.selector, want, slots)
  {
    AscendingProperties(want.Keys);
    WritesExactly(Ascending(want.Keys), want, slots, r);
  }

  /** What the plan is to make of every selector it is about. */
  function Goal(proposed: Deployment, installed: set<Selector>): Routing {
    Removals(proposed, installed) + Generated(proposed) + FacetOwners(proposed.facets)
  }

  ghost predicate ServedOnce(proposed: Deployment) {
    proposed.selectorsImpl.Some? ==> SELECTORS_SELECTOR !in FacetOwners(proposed.facets)
  }

  /** When `selectors()` is served at most once, the writes are the selectors not yet routed as planned. */
  lemma {:induction false} AssignmentsExactly(proposed: Deployment, installed: set<Selector>, slots: Slots, r: Route)
    requires Resolved(proposed, installed, slots) && ServedOnce(proposed)
    ensures var want := Goal(proposed, installed);
      r in Assignments(proposed, installed, slots) <==>
        Pending(r.selector, want, slots) && r == PlannedRoute(r.selector, want, slots)
  {
    AllClearable(proposed, installed, slots);
    hide FacetOwners, WritesFor;
    WritesForExactly(FacetOwners(proposed.facets), slots, r);
    WritesForExactly(Generated(proposed), slots, r);
    WritesForExactly(Removals(proposed, installed), slots, r);
  }

  /** Planning asks for the slot of every selector to be routed, and of no other. */
  lemma {:induction false} LocatedMeans(proposed: Deployment, slots: Slots)
    ensures Located(proposed, slots) <==>
      && (forall s :: Exported(proposed.facets, s) ==> s in slots.keys)
      && (proposed.selectorsImpl.Some? ==> SELECTORS_SELECTOR in slots.keys)
  {
    forall s
      ensures s in FacetOwners(proposed.facets).Keys <==> Exported(proposed.facets, s)
    {
      FacetOwnersDomain(proposed.facets, s);
    }
    hide FacetOwners, Exported;
  }

  /** A facet exports the selector, the last one that does at `address`. */
  ghost predicate ExportedAt(facets: seq<Facet>, s: Selector, address: Option<Address>) {
    exists i: nat :: LastExporter(facets, s, i) && facets[i].address == address
  }

  /** The route that the planning loop over the facets' selectors adds for this one, if any. */
  ghost predicate Repointed(proposed: Deployment, slots: Slots, r: Route) {
    && Exported(proposed.facets, r.selector) && r.selector in slots.keys && r.slot == slots.keys[r.selector]
    && exists address ::
         && ExportedAt(proposed.facets, r.selector, address)
         && RoutedTo(slots, r.selector) != address && r.delegate == address.GetOr(0)
  }

  /** The one for the generated `selectors()`. */
  ghost predicate Regenerated(proposed: Deployment, slots: Slots, r: Route) {
    && r.selector == SELECTORS_SELECTOR && proposed.selectorsImpl.Some? && r.selector in slots.keys
    && RoutedTo(slots, r.selector) != proposed.selectorsImpl
    && r == Route(r.selector, slots.keys[r.selector], proposed.selectorsImpl.value)
  }

  /** The ones that clear what is dropped. */
  ghost predicate Cleared(proposed: Deployment, installed: set<Selector>, slots: Slots, r: Route) {
    && r.selector in installed && !Exported(proposed.facets, r.selector)
    && !(r.selector == SELECTORS_SELECTOR && proposed.selectorsImpl.Some?)
    && r.selector in slots.keys && RoutedTo(slots, r.selector).Some?
    && r == Route(r.selector, slots.keys[r.selector], 0)
  }

  lemma {:induction false} ExportedLast(facets: seq<Facet>, s: Selector) returns (i: nat)
    requires Exported(facets, s)
    ensures LastExporter(facets, s, i)
    decreases |facets|
  {
    var n := |facets| - 1;
    if Exports(facets[n], s) {
      i := n;
    } else {
      var k :| 0 <= k < |facets| && Exports(facets[k], s);
      assert facets[..n][k] == facets[k];
      i := ExportedLast(facets[..n], s);
      assert facets[..n][i] == facets[i];
      assert forall j :: i < j < n ==> facets[..n][j] == facets[j];
    }
  }

  lemma OwnerExported(facets: seq<Facet>, s: Selector)
    ensures s in FacetOwners(facets) <==> Exported(facets, s)
    ensures s in FacetOwners(facets) ==> forall a :: ExportedAt(facets, s, a) <==> a == FacetOwners(facets)[s]
  {
    FacetOwnersDomain(facets, s);
    hide FacetOwners, Exported;
    if s in FacetOwners(facets) {
      var i := ExportedLast(facets, s);
      FacetOwnersLast(facets, s, i);
      assert ExportedAt(facets, s, facets[i].address);
      forall a | ExportedAt(facets, s, a)
        ensures a == facets[i].address
      {
        var j: nat :| LastExporter(facets, s, j) && facets[j].address == a;
        assert i == j;
      }
    }
  }

  /** Exactly the routes planned, whatever slots of dropped selectors are known. */
  lemma {:induction false} PlansExactly(proposed: Deployment, installed: set<Selector>, slots: Slots, r: Route)
    requires Located(proposed, slots)
    ensures r in Assignments(proposed, installed, slots) <==>
      || Repointed(proposed, slots, r)
      || Regenerated(proposed, slots, r)
      || Cleared(proposed, installed, slots, r)
  {
    OwnerExported(proposed.facets, r.selector);
    hide FacetOwners, WritesFor, Exported, ExportedAt, RoutedTo;
    WritesForExactly(FacetOwners(proposed.facets), slots, r);
    WritesForExactly(Generated(proposed), slots, r);
    WritesForExactly(Clearable(proposed, installed, slots), slots, r);
  }

  lemma AllClearable(proposed: Deployment, installed: set<Selector>, slots: Slots)
    requires Resolved(proposed, installed, slots)
    ensures Clearable(proposed, installed, slots) == Removals(proposed, installed)
  {
    hide FacetOwners;
  }

  /** Each selector has a slot of its own, whose word is known. */
  ghost predicate Detected(slots: Slots, storage: map<Word, Word>, selectors: set<Selector>) {
    && selectors <= slots.keys.Keys && selectors <= slots.values.Keys
    && (forall s :: s in selectors ==> slots.values[s] == Sload(storage, slots.keys[s]))
    && (forall s, t :: s in selectors && t in selectors && s != t ==> slots.keys[s] != slots.keys[t])
  }

  /** What slot detection reads once the storage has changed. */
  function Refetched(slots: Slots, storage: map<Word, Word>): Slots {
    Slots(slots.keys, map s | s in slots.keys :: Sload(storage, slots.keys[s]))
  }

  ghost predicate Deployable(proposed: Deployment) {
    forall s :: s in Owners(proposed) ==> Owners(proposed)[s].Some? && Owners(proposed)[s] != Some(0)
  }

  /** The routes an upgrade writes meet their goal, one slot each. */
  lemma {:induction false} PlanReachesGoal(proposed: Deployment, installed: set<Selector>, slots: Slots,
                                           storage: map<Word, Word>, s: Selector)
    requires Resolved(proposed, installed, slots) && ServedOnce(proposed) && Deployable(proposed)
    requires Detected(slots, storage, Goal(proposed, installed).Keys)
    requires s in Goal(proposed, installed)
    ensures Consistent(Assignments(proposed, installed, slots))
    ensures SlotAddress(Sload(Written(storage, Plan(Assignments(proposed, installed, slots))), slots.keys[s]))
         == Goal(proposed, installed)[s]
  {
    var routes, want := Assignments(proposed, installed, slots), Goal(proposed, installed);
    AssignmentsConsistent(proposed, installed, slots, storage);
    hide Assignments, Plan, Written, FacetOwners;
    PlanSameRoutes(routes);
    assert Consistent(Plan(routes));
    if Pending(s, want, slots) {
      var r := PlannedRoute(s, want, slots);
      AssignmentsExactly(proposed, installed, slots, r);
      RouteWritten(storage, Plan(routes), r);
      GoalNonzero(proposed, installed, s);
    } else {
      if Touches(Plan(routes), slots.keys[s]) {
        var r :| r in Plan(routes) && r.slot == slots.keys[s];
        AssignmentsExactly(proposed, installed, slots, r);
        assert false;
      }
      WrittenLookup(storage, Plan(routes), slots.keys[s]);
    }
  }

  lemma GoalNonzero(proposed: Deployment, installed: set<Selector>, s: Selector)
    requires Deployable(proposed) && ServedOnce(proposed) && s in Goal(proposed, installed)
    ensures SlotAddress(Goal(proposed, installed)[s].GetOr(0)) == Goal(proposed, installed)[s]
  {
    GoalOwners(proposed, installed, s);
  }

  /** The goal is the proposed owners, and nowhere for the rest. */
  lemma GoalOwners(proposed: Deployment, installed: set<Selector>, s: Selector)
    requires ServedOnce(proposed)
    ensures s in Goal(proposed, installed) <==> s in Owners(proposed) || s in installed
    ensures s in Owners(proposed) ==> Goal(proposed, installed)[s] == Owners(proposed)[s]
    ensures s in Goal(proposed, installed) && s !in Owners(proposed) ==> Goal(proposed, installed)[s] == None
  {
    hide FacetOwners;
  }

  lemma AssignmentsConsistent(proposed: Deployment, installed: set<Selector>, slots: Slots, storage: map<Word, Word>)
    requires Resolved(proposed, installed, slots) && ServedOnce(proposed)
    requires Detected(slots, storage, Goal(proposed, installed).Keys)
    ensures Consistent(Assignments(proposed, installed, slots))
  {
    var routes := Assignments(proposed, installed, slots);
    hide Assignments, FacetOwners;
    forall r, q | r in routes && q in routes && r.slot == q.slot
      ensures r.delegate == q.delegate
    {
      AssignmentsExactly(proposed, installed, slots, r);
      AssignmentsExactly(proposed, installed, slots, q);
      assert r.selector == q.selector;
    }
  }

  /** A slot of no planned selector keeps its word. */
  lemma {:induction false} PlanFrame(proposed: Deployment, installed: set<Selector>, slots: Slots,
                                     storage: map<Word, Word>, slot: Word)
    requires Resolved(proposed, installed, slots) && ServedOnce(proposed)
    requires Detected(slots, storage, Goal(proposed, installed).Keys)
    requires forall s :: s in Goal(proposed, installed) ==> slots.keys[s] != slot
    ensures Sload(Written(storage, Plan(Assignments(proposed, installed, slots))), slot) == Sload(storage, slot)
  {
    var routes := Assignments(proposed, installed, slots);
    AssignmentsConsistent(proposed, installed, slots, storage);
    hide Assignments, Plan, Written, FacetOwners;
    PlanSameRoutes(routes);
    assert Consistent(Plan(routes));
    if Touches(Plan(routes), slot) {
      var r :| r in Plan(routes) && r.slot == slot;
      AssignmentsExactly(proposed, installed, slots, r);
      assert false;
    }
    WrittenLookup(storage, Plan(routes), slot);
  }

  /** An upgrade drops the generated `selectors()` without clearing it only if nothing proposed serves it. */
  ghost predicate LeavesSelectors(current: Deployment, proposed: Deployment) {
    SELECTORS_SELECTOR in Owners(current) && SELECTORS_SELECTOR !in Owners(proposed)
    && SELECTORS_SELECTOR !in Installed(current)
  }

  /**
   End to end. With slots detected apart for every selector either state routes, and every
   installed facet readable, running the encoded plan (or nothing, when the plan is empty)
   stops cleanly and leaves each proposed selector at its recorded address, each selector of a
   dropped facet at zero, and every other slot as it was. `verify_migrated` then accepts,
   unless the generated `selectors()` of `current` is dropped for nothing and still routes.
   */
  lemma {:induction false} UpgradeLands(current: Deployment, proposed: Deployment, slots: Slots,
                                        storage: map<Word, Word>, limit: nat)
    requires limit >= 8 && ServedOnce(proposed) && Deployable(proposed)
    requires Detected(slots, storage, Owners(proposed).Keys + Owners(current).Keys)
    ensures Resolved(proposed, Installed(current), slots)
    ensures var routes := Assignments(proposed, Installed(current), slots);
      var after := Written(storage, Plan(routes));
      && Run(Encoded(routes), Fresh(storage), limit)
         == Stopped(Machine(|Encoded(routes)|, [SELECTOR_DELEGATED_SIG], [], after, Announced(Plan(routes))))
      && (routes == [] ==> after == storage)
      && (forall s :: s in Owners(proposed) ==> SlotAddress(Sload(after, slots.keys[s])) == Owners(proposed)[s])
      && (forall s :: s in Installed(current) && s !in Owners(proposed) ==> Sload(after, slots.keys[s]) == 0)
      && (forall slot :: (forall s :: s in Owners(proposed) || s in Installed(current) ==> slots.keys[s] != slot) ==>
            Sload(after, slot) == Sload(storage, slot))
      && (Accepted(current, proposed, Refetched(slots, after)) <==>
            (LeavesSelectors(current, proposed) ==> Sload(storage, slots.keys[SELECTORS_SELECTOR]) == 0))
  {
    var installed := Installed(current);
    ResolvedByDetection(current, proposed, slots, storage);
    var routes := Assignments(proposed, installed, slots);
    var after := Written(storage, Plan(routes));
    EncodedRuns(routes, storage, limit);
    forall s | s in Owners(proposed) || s in installed
      ensures s in Goal(proposed, installed)
      ensures s in Owners(proposed) ==> SlotAddress(Sload(after, slots.keys[s])) == Owners(proposed)[s]
      ensures s !in Owners(proposed) ==> SlotAddress(Sload(after, slots.keys[s])) == None
    {
      GoalOwners(proposed, installed, s);
      PlanReachesGoal(proposed, installed, slots, storage, s);
    }
    forall slot | forall s :: s in Owners(proposed) || s in installed ==> slots.keys[s] != slot
      ensures Sload(after, slot) == Sload(storage, slot)
    {
      forall s | s in Goal(proposed, installed)
        ensures slots.keys[s] != slot
      {
        GoalOwners(proposed, installed, s);
      }
      PlanFrame(proposed, installed, slots, storage, slot);
    }
    AcceptanceCondition(current, proposed, slots, storage, after);
  }

  /** With `selectors()` served by the proposed state, as `deploy` always has it, acceptance passes. */
  lemma {:induction false} UpgradeAccepted(
    current: Deployment, proposed: Deployment, slots: Slots, storage: map<Word, Word>, limit: nat)
    requires limit >= 8 && ServedOnce(proposed) && Deployable(proposed) && SELECTORS_SELECTOR in Owners(proposed)
    requires Detected(slots, storage, Owners(proposed).Keys + Owners(current).Keys)
    ensures Resolved(proposed, Installed(current), slots)
    ensures var o := Run(Encoded(Assignments(proposed, Installed(current), slots)), Fresh(storage), limit);
      o.Stopped? && Accepted(current, proposed, Refetched(slots, o.machine.storage))
  {
    hide Run, Encoded, Owners, Installed, Written, Accepted, Refetched, Detected, Deployable;
    UpgradeLands(current, proposed, slots, storage, limit);
  }

  /** A state that only has the generated `selectors()`, and one that has nothing. */
  const GENERATED_ONLY := Deployment([], Some(5))
  const NOTHING := Deployment([], None)
  const ITS_SLOTS := Slots(map[SELECTORS_SELECTOR := 0], map[SELECTORS_SELECTOR := 5])

  /** From the one to the other, the slot of `selectors()` is left as it was and acceptance fails. */
  lemma {:induction false} LeftBehindRejected(limit: nat)
    requires limit >= 8
    ensures LeavesSelectors(GENERATED_ONLY, NOTHING) && Resolved(NOTHING, Installed(GENERATED_ONLY), ITS_SLOTS)
    ensures
      var code := Encoded(Assignments(NOTHING, Installed(GENERATED_ONLY), ITS_SLOTS));
      var o := Run(code, Fresh(map[0 := 5]), limit);
      o.Stopped? && !Accepted(GENERATED_ONLY, NOTHING, Refetched(ITS_SLOTS, o.machine.storage))
  {
    LeftBehindFacts();
    hide Run, Encoded, Owners, Installed, Written, Accepted, Refetched, Detected, Deployable, ServedOnce,
        LeavesSelectors;
    UpgradeLands(GENERATED_ONLY, NOTHING, ITS_SLOTS, map[0 := 5], limit);
  }

  lemma LeftBehindFacts()
    ensures LeavesSelectors(GENERATED_ONLY, NOTHING) && ServedOnce(NOTHING) && Deployable(NOTHING)
    ensures Detected(ITS_SLOTS, map[0 := 5], Owners(NOTHING).Keys + Owners(GENERATED_ONLY).Keys)
    ensures Sload(map[0 := 5], ITS_SLOTS.keys[SELECTORS_SELECTOR]) != 0
  {
    assert FacetOwners([]) == map[];
    assert Owners(GENERATED_ONLY) == map[SELECTORS_SELECTOR := Some(5)];
    assert Owners(NOTHING) == map[];
  }

  lemma ResolvedByDetection(current: Deployment, proposed: Deployment, slots: Slots, storage: map<Word, Word>)
    requires ServedOnce(proposed)
    requires Detected(slots, storage, Owners(proposed).Keys + Owners(current).Keys)
    ensures Resolved(proposed, Installed(current), slots)
    ensures Detected(slots, storage, Goal(proposed, Installed(current)).Keys)
  {
    var installed := Installed(current);
    hide FacetOwners;
    forall s | s in Goal(proposed, installed)
      ensures s in Owners(proposed).Keys + Owners(current).Keys
    {
      GoalOwners(proposed, installed, s);
    }
  }

  lemma AcceptanceCondition(
    current: Deployment, proposed: Deployment, slots: Slots, storage: map<Word, Word>, after: map<Word, Word>)
    requires Deployable(proposed)
    requires Detected(slots, storage, Owners(proposed).Keys + Owners(current).Keys)
    requires forall s :: s in Owners(proposed) ==> SlotAddress(Sload(after, slots.keys[s])) == Owners(proposed)[s]
    requires forall s :: s in Installed(current) && s !in Owners(proposed) ==> Sload(after, slots.keys[s]) == 0
    requires forall slot :: (forall s :: s in Owners(proposed) || s in Installed(current) ==> slots.keys[s] != slot) ==>
               Sload(after, slot) == Sload(storage, slot)
    ensures Accepted(current, proposed, Refetched(slots, after)) <==>
              (LeavesSelectors(current, proposed) ==> Sload(storage, slots.keys[SELECTORS_SELECTOR]) == 0)
  {
    var dropped := Owners(current).Keys - Owners(proposed).Keys;
    DroppedFrom(current, proposed);
    hide FacetOwners, Owners, Installed, Sload, SlotAddress, Refetched, Routed, Unrouted;
    RoutedAfter(Owners(proposed), slots, after);
    UnroutedAfter(dropped, slots, after);
    if LeavesSelectors(current, proposed) {
      var slot := slots.keys[SELECTORS_SELECTOR];
      assert forall s :: s in Owners(proposed) || s in Installed(current) ==> slots.keys[s] != slot;
      assert Sload(after, slot) == Sload(storage, slot);
    }
  }

  /** A dropped selector is an installed facet's, or the generated `selectors()` left behind. */
  lemma DroppedFrom(current: Deployment, proposed: Deployment)
    ensures forall s :: s in Owners(current) && s !in Owners(proposed) ==>
              s in Installed(current) || (s == SELECTORS_SELECTOR && LeavesSelectors(current, proposed))
    ensures LeavesSelectors(current, proposed) ==> SELECTORS_SELECTOR in Owners(current).Keys - Owners(proposed).Keys
    ensures Installed(current) <= Owners(current).Keys
  {
    hide FacetOwners;
  }

  lemma RoutedAfter(owners: Routing, slots: Slots, after: map<Word, Word>)
    requires owners.Keys <= slots.keys.Keys && forall s :: s in owners ==> owners[s].Some?
    requires forall s :: s in owners ==> SlotAddress(Sload(after, slots.keys[s])) == owners[s]
    ensures Routed(owners, Refetched(slots, after))
  {
    hide SlotAddress, Sload;
  }

  lemma UnroutedAfter(dropped: set<Selector>, slots: Slots, after: map<Word, Word>)
    requires dropped <= slots.keys.Keys
    ensures Unrouted(dropped, Refetched(slots, after))
            <==> forall s :: s in dropped ==> Sload(after, slots.keys[s]) == 0
  {
    hide Sload;
    forall s | s in dropped
      ensures RoutedTo(Refetched(slots, after), s) == None <==> Sload(after, slots.keys[s]) == 0
    {
    }
  }

  // ------------------------------------------------------------- when planning succeeds

  ghost predicate DistinctSelectors(routes: seq<Route>) {
    forall i, j :: 0 <= i < j < |routes| ==> routes[i].selector != routes[j].selector
  }

  lemma {:induction false} WritesDistinct(order: seq<Selector>, want: Routing, slots: Slots)
    requires Covers(want, slots, order) && Increasing(order)
    ensures DistinctSelectors(Writes(order, want, slots))
    decreases |order|
  {
    if order != [] {
      var rest := Writes(order[1..], want, slots);
      WritesDistinct(order[1..], want, slots);
      forall j | 0 <= j < |rest|
        ensures rest[j].selector != order[0]
      {
        assert rest[j] in rest;
        WritesExactly(order[1..], want, slots, rest[j]);
      }
    }
  }

  lemma ConcatDistinct(a: seq<Route>, b: seq<Route>, left: set<Selector>, right: set<Selector>)
    requires DistinctSelectors(a) && DistinctSelectors(b) && left !! right
    requires forall r :: r in a ==> r.selector in left
    requires forall r :: r in b ==> r.selector in right
    ensures DistinctSelectors(a + b)
    ensures forall r :: r in a + b ==> r.selector in left + right
  {
    forall i, j | 0 <= i < j < |a + b|
      ensures (a + b)[i].selector != (a + b)[j].selector
    {
      if i < |a| <= j {
        assert a[i] in a && b[j - |a|] in b;
      }
    }
  }

  lemma WritesForDistinct(want: Routing, slots: Slots)
    requires want.Keys <= slots.keys.Keys
    ensures DistinctSelectors(WritesFor(want, slots))
    ensures forall r :: r in WritesFor(want, slots) ==> r.selector in want.Keys
  {
    AscendingProperties(want.Keys);
    WritesDistinct(Ascending(want.Keys), want, slots);
    forall r | r in WritesFor(want, slots)
      ensures r.selector in want.Keys
    {
      WritesForExactly(want, slots, r);
    }
  }

  /** With slots detected apart, no two writes share a selector or a slot, so only contested facets stop the plan. */
  lemma {:induction false} AssignmentsDistinct(proposed: Deployment, installed: set<Selector>, slots: Slots,
                                               storage: map<Word, Word>)
    requires Resolved(proposed, installed, slots) && ServedOnce(proposed)
    requires Detected(slots, storage, Goal(proposed, installed).Keys)
    ensures DistinctSelectors(Assignments(proposed, installed, slots))
    ensures DistinctSlots(Assignments(proposed, installed, slots))
  {
    var owners, generated, removals := FacetOwners(proposed.facets), Generated(proposed), Removals(proposed, installed);
    AllClearable(proposed, installed, slots);
    var a, b, c := WritesFor(owners, slots), WritesFor(generated, slots), WritesFor(removals, slots);
    var routes := Assignments(proposed, installed, slots);
    WritesForDistinct(owners, slots);
    WritesForDistinct(generated, slots);
    WritesForDistinct(removals, slots);
    hide FacetOwners, WritesFor;
    ConcatDistinct(a, b, owners.Keys, generated.Keys);
    ConcatDistinct(a + b, c, owners.Keys + generated.Keys, removals.Keys);
    forall i, j | 0 <= i < j < |routes|
      ensures routes[i].slot != routes[j].slot
    {
      assert routes[i] in routes && routes[j] in routes;
      AssignmentsExactly(proposed, installed, slots, routes[i]);
      AssignmentsExactly(proposed, installed, slots, routes[j]);
    }
  }

  // ------------------------------------------------------- a verified on-chain migration

  lemma {:induction false} LatestExactly(routes: seq<Route>, r: Route)
    requires DistinctSelectors(routes)
    ensures r in routes <==> r.selector in Latest(routes) && Latest(routes)[r.selector] == r
    decreases |routes|
  {
    if routes != [] {
      var n := |routes| - 1;
      LatestExactly(routes[..n], r);
      assert r in routes <==> r in routes[..n] || r == routes[n];
      assert forall q :: q in routes[..n] ==> q.selector != routes[n].selector;
      LatestKeys(routes[..n], r.selector);
    }
  }

  lemma {:induction false} LatestKeys(routes: seq<Route>, s: Selector)
    ensures s in Latest(routes) ==> Latest(routes)[s] in routes && Latest(routes)[s].selector == s
    decreases |routes|
  {
    if routes != [] {
      LatestKeys(routes[..|routes| - 1], s);
    }
  }

  /** The delegate the last of the routes through the slot writes there, if any does. */
  function LastWrite(routes: seq<Route>, slot: Word): Option<Address> {
    if routes == [] then None else
    var last := routes[|routes| - 1];
    if last.slot == slot then Some(last.delegate) else LastWrite(routes[..|routes| - 1], slot)
  }

  lemma {:induction false} WrittenIsLast(storage: map<Word, Word>, routes: seq<Route>, slot: Word)
    ensures Sload(Written(storage, routes), slot) ==
      match LastWrite(routes, slot)
      case None => Sload(storage, slot)
      case Some(delegate) => delegate
    decreases |routes|
  {
    if routes != [] {
      var n := |routes| - 1;
      WrittenIsLast(storage, routes[..n], slot);
      assert routes == routes[..n] + [routes[n]];
      WrittenConcat(storage, routes[..n], [routes[n]]);
      assert [routes[n]][1..] == [];
    }
  }

  lemma {:induction false} LastWriteTouches(routes: seq<Route>, slot: Word)
    ensures LastWrite(routes, slot).Some? <==> Touches(routes, slot)
    ensures LastWrite(routes, slot).Some? ==>
      exists r :: r in routes && r.slot == slot && r.delegate == LastWrite(routes, slot).value
    decreases |routes|
  {
    if routes != [] {
      var n := |routes| - 1;
      LastWriteTouches(routes[..n], slot);
      assert routes == routes[..n] + [routes[n]];
      assert forall r :: r in routes <==> r in routes[..n] || r == routes[n];
    }
  }

  /** The decoded routes, in byte order, write no slot but the plan's, and each last as the plan does. */
  ghost predicate ByteOrderAgrees(routes: seq<Route>, plan: seq<Route>) {
    && (forall r :: r in routes ==> Touches(plan, r.slot))
    && (forall p :: p in plan ==> LastWrite(routes, p.slot) == Some(p.delegate))
  }

  /** From every storage the two lists leave every slot alike. */
  ghost predicate SameEffect(a: seq<Route>, b: seq<Route>) {
    forall storage, slot: Word :: WritesAlike(storage, a, b, slot)
  }

  ghost predicate WritesAlike(storage: map<Word, Word>, a: seq<Route>, b: seq<Route>, slot: Word) {
    Sload(Written(storage, a), slot) == Sload(Written(storage, b), slot)
  }

  lemma SlotAgrees(routes: seq<Route>, plan: seq<Route>, slot: Word)
    requires Consistent(plan) && ByteOrderAgrees(routes, plan)
    ensures LastWrite(routes, slot) == LastWrite(plan, slot)
  {
    LastWriteTouches(routes, slot);
    LastWriteTouches(plan, slot);
    if Touches(plan, slot) {
      var p :| p in plan && p.slot == slot && p.delegate == LastWrite(plan, slot).value;
    } else {
      assert !Touches(routes, slot);
    }
  }

  /** Alike on storage that holds nothing, or anything but what is written, is written alike. */
  lemma AlikeMeansLast(routes: seq<Route>, plan: seq<Route>, slot: Word)
    requires SameEffect(routes, plan)
    ensures LastWrite(routes, slot) == LastWrite(plan, slot)
  {
    var other := if LastWrite(routes, slot) == Some(1) || LastWrite(plan, slot) == Some(1) then 2 else 1;
    var third := if LastWrite(routes, slot) == Some(3) || LastWrite(plan, slot) == Some(3) then 4 else 3;
    forall w | w == other || w == third
      ensures WritesAlike(map[slot := w], routes, plan, slot)
    {
    }
    WrittenIsLast(map[slot := other], routes, slot);
    WrittenIsLast(map[slot := other], plan, slot);
    WrittenIsLast(map[slot := third], routes, slot);
    WrittenIsLast(map[slot := third], plan, slot);
  }

  lemma SameEffectExactly(routes: seq<Route>, plan: seq<Route>)
    requires Consistent(plan)
    ensures SameEffect(routes, plan) <==> ByteOrderAgrees(routes, plan)
  {
    hide Written, LastWrite, Consistent, Touches;
    if ByteOrderAgrees(routes, plan) {
      forall storage, slot: Word
        ensures WritesAlike(storage, routes, plan, slot)
      {
        SlotAgrees(routes, plan, slot);
        WrittenIsLast(storage, routes, slot);
        WrittenIsLast(storage, plan, slot);
      }
    }
    if SameEffect(routes, plan) {
      forall r | r in routes
        ensures Touches(plan, r.slot)
      {
        AlikeMeansLast(routes, plan, r.slot);
        TouchedBy(routes, r);
        LastWriteTouches(routes, r.slot);
        LastWriteTouches(plan, r.slot);
      }
      forall p | p in plan
        ensures LastWrite(routes, p.slot) == Some(p.delegate)
      {
        AlikeMeansLast(routes, plan, p.slot);
        LastIs(plan, p);
      }
    }
  }

  lemma TouchedBy(routes: seq<Route>, r: Route)
    requires r in routes
    ensures Touches(routes, r.slot)
  {
  }

  lemma LastIs(plan: seq<Route>, p: Route)
    requires Consistent(plan) && p in plan
    ensures LastWrite(plan, p.slot) == Some(p.delegate)
  {
    LastWriteTouches(plan, p.slot);
    TouchedBy(plan, p);
  }

  /** Run on this storage, the code and the recomputed plan leave the slot alike. */
  ghost predicate RunAlike(code: seq<Byte>, plan: seq<Route>, storage: map<Word, Word>, limit: nat, slot: Word) {
    var a, b := Run(code, Fresh(storage), limit), Run(Encoded(plan), Fresh(storage), limit);
    a.Stopped? && b.Stopped? && Sload(a.machine.storage, slot) == Sload(b.machine.storage, slot)
  }

  /**
   What a clean `verify_migration` is worth. It compares the last sorted route of each selector, and
   the code writes in byte order: so the code leaves the storage that the recomputed plan does, from
   every state of the proxy, exactly when its routes agree with the plan in byte order.
   */
  lemma {:induction false} VerifiedCodeMatchesPlan(code: seq<Byte>, known: set<Address>, plan: seq<Route>, limit: nat)
    requires limit >= 8 && MatchesPlan(code, known, plan) && Consistent(plan)
    ensures (forall storage, slot: Word :: RunAlike(code, plan, storage, limit, slot))
       <==> ByteOrderAgrees(Flatten(Parse(code, known).value), plan)
  {
    var routes := Flatten(Parse(code, known).value);
    SameEffectExactly(routes, plan);
    hide Parse, Run, Encoded, Plan, Written, MatchesPlan, ByteOrderAgrees, Consistent;
    MatchesParses(code, known, plan);
    forall storage, slot: Word
      ensures RunAlike(code, plan, storage, limit, slot) <==> WritesAlike(storage, routes, plan, slot)
    {
      DecodedRuns(code, known, storage, limit);
      EncodedRuns(plan, storage, limit);
      PlanSameRoutes(plan);
      SameStorage(storage, plan, Plan(plan), slot);
    }
    assert SameEffect(routes, plan) <==> forall storage, slot: Word :: RunAlike(code, plan, storage, limit, slot);
  }

  lemma MatchesParses(code: seq<Byte>, known: set<Address>, plan: seq<Route>)
    requires MatchesPlan(code, known, plan)
    ensures Parse(code, known).Success?
  {
  }

  /** Code that decodes to one entry per selector agrees with the plan it verifies against. */
  lemma {:induction false} OneEntryAgrees(code: seq<Byte>, known: set<Address>, plan: seq<Route>)
    requires MatchesPlan(code, known, plan) && DistinctSelectors(plan) && Consistent(plan)
    requires DistinctSelectors(Plan(Flatten(Parse(code, known).value)))
    ensures ByteOrderAgrees(Flatten(Parse(code, known).value), plan)
  {
    var routes := Flatten(Parse(code, known).value);
    hide Parse, Plan, Written;
    PlanSameRoutes(routes);
    forall r
      ensures r in routes <==> r in plan
    {
      LatestExactly(plan, r);
      LatestExactly(Plan(routes), r);
    }
    forall storage, slot: Word
      ensures WritesAlike(storage, routes, plan, slot)
    {
      SameStorage(storage, plan, routes, slot);
    }
    SameEffectExactly(routes, plan);
  }

  /** Code that routes a selector to delegate 2 and then to 1. */
  function Misleading(s: Selector, slot: Word): seq<Group> {
    [Group(2, [Entry(s, slot)]), Group(1, [Entry(s, slot)])]
  }

  /** It verifies clean against a plan that routes the selector to 2, and leaves it routed to 1. */
  lemma {:induction false} CleanButWrong(s: Selector, slot: Word, storage: map<Word, Word>, limit: nat)
    requires limit >= 8
    ensures var code, plan := Script(Misleading(s, slot)), [Route(s, slot, 2)];
      && MatchesPlan(code, {1, 2}, plan) && !ByteOrderAgrees(Flatten(Parse(code, {1, 2}).value), plan)
      && var o := Run(code, Fresh(storage), limit);
         o.Stopped? && Sload(o.machine.storage, slot) == 1
  {
    var gs := Misleading(s, slot);
    var first, second := Route(s, slot, 2), Route(s, slot, 1);
    MisleadingRoutes(s, slot);
    MisleadingLatest(first, second);
    assert Nonempty(gs) && AllKnown(gs, {1, 2});
    hide Parse, Run, Script, Plan, Written, Flatten, Latest, LastWrite, Misleading;
    ParseIsInverse(Script(gs), {1, 2}, gs);
    RunScript(gs, storage, limit);
    WrittenIsLast(storage, [first, second], slot);
    assert first in [first];
  }

  lemma MisleadingLatest(first: Route, second: Route)
    requires first.selector == second.selector && first.slot == second.slot
    ensures Latest([second, first]) == Latest([first])
    ensures LastWrite([first, second], first.slot) == Some(second.delegate)
  {
    assert [second, first][..1] == [second] && [first][..0] == [] && [second][..0] == [];
  }

  lemma MisleadingRoutes(s: Selector, slot: Word)
    ensures Flatten(Misleading(s, slot)) == [Route(s, slot, 2), Route(s, slot, 1)]
    ensures Plan([Route(s, slot, 2), Route(s, slot, 1)]) == [Route(s, slot, 1), Route(s, slot, 2)]
  {
    var first, second := Route(s, slot, 2), Route(s, slot, 1);
    var gs := Misleading(s, slot);
    assert gs[1..] == [gs[1]] && gs[1..][1..] == [];
    assert gs[0].entries[1..] == [] && gs[1].entries[1..] == [];
    assert Flatten(gs[1..]) == [second] + Flatten([]) == [second];
    assert Flatten(gs) == [first] + Flatten(gs[1..]);
    assert [first, second][1..] == [second] && [second][1..] == [];
    assert Insert(second, [], RouteKey) == [second] == Sort([second], RouteKey);
    assert Insert(first, [], RouteKey) == [first];
    assert !Leq(RouteKey(first), RouteKey(second));
    assert Insert(first, [second], RouteKey) == [second] + Insert(first, [second][1..], RouteKey);
  }
}
