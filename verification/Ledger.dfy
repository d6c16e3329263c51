/**
 The ledger of deployments (src/josuke/accept.py, src/josuke/audit.py `recorded_delegates`): `deploy`
 stages a proposed state, `accept` makes it current and archives the delegates it replaces.
 */
module Ledger {
  import opened Bytes
  import opened SelectorsMethod
  import opened Sorting
  import opened Wrappers

  type SourceId = int

  /** A facet as recorded: its address, and the rest of its record. */
  datatype Facet = Facet(source: SourceId, address: Option<Address>, record: int)

  datatype State = State(commit: int, facets: seq<Facet>, selectors: Option<Address>, migration: Option<int>)

  /** What `verify` needs to rebuild an archived delegate from source. */
  datatype Entry =
    | FacetEntry(source: SourceId, commit: int, record: int)
    | SelectorsEntry(commit: int, selectorsFor: seq<SourceId>)

  /** One proxy on one chain. */
  datatype History = History(current: Option<State>, proposed: Option<State>, archive: map<Address, Entry>)

  // ---------------------------------------------------------------------- what a state installs

  function SourceKey(source: SourceId): Key {
    (source, 0, 0)
  }

  function Sources(facets: seq<Facet>): seq<SourceId> {
    seq(|facets|, i requires 0 <= i < |facets| => facets[i].source)
  }

  function FacetEntries(commit: int, facets: seq<Facet>): map<Address, Entry> {
    if facets == [] then map[] else
    var f := facets[|facets| - 1];
    var front := FacetEntries(commit, facets[..|facets| - 1]);
    if f.address.Some? then front[f.address.value := FacetEntry(f.source, commit, f.record)] else front
  }

  function HistoryEntries(state: State): map<Address, Entry> {
    var entries := FacetEntries(state.commit, state.facets);
    if state.selectors.None? then entries
    else entries[state.selectors.value := SelectorsEntry(state.commit, Sort(Sources(state.facets), SourceKey))]
  }

  /** A delegate of the state: a facet with an address, or the generated `selectors()`. */
  predicate Installs(state: State, a: Address) {
    state.selectors == Some(a) || exists i :: 0 <= i < |state.facets| && state.facets[i].address == Some(a)
  }

  /** The last facet at the address. */
  predicate LastAt(facets: seq<Facet>, a: Address, i: int) {
    0 <= i < |facets| && facets[i].address == Some(a) && forall j :: i < j < |facets| ==> facets[j].address != Some(a)
  }

  lemma {:induction false} FacetEntriesMean(commit: int, facets: seq<Facet>, a: Address)
    ensures a in FacetEntries(commit, facets) <==> exists i :: 0 <= i < |facets| && facets[i].address == Some(a)
    ensures a in FacetEntries(commit, facets) ==>
              exists i :: LastAt(facets, a, i)
                  && FacetEntries(commit, facets)[a] == FacetEntry(facets[i].source, commit, facets[i].record)
    decreases |facets|
  {
    if facets != [] {
      var n := |facets| - 1;
      FacetEntriesMean(commit, facets[..n], a);
      if facets[n].address == Some(a) {
        assert LastAt(facets, a, n);
      } else if a in FacetEntries(commit, facets[..n]) {
        var i :| LastAt(facets[..n], a, i)
            && FacetEntries(commit, facets[..n])[a] == FacetEntry(facets[i].source, commit, facets[i].record);
        assert LastAt(facets, a, i);
      }
    }
  }

  /** `history_entries` has one entry for each delegate the state installs, with the state's commit. */
  lemma {:induction false} HistoryEntriesMean(state: State, a: Address)
    ensures a in HistoryEntries(state) <==> Installs(state, a)
    ensures state.selectors == Some(a) ==>
              HistoryEntries(state)[a] == SelectorsEntry(state.commit, Sort(Sources(state.facets), SourceKey))
    ensures a in HistoryEntries(state) && state.selectors != Some(a) ==>
              exists i :: LastAt(state.facets, a, i)
                && HistoryEntries(state)[a] == FacetEntry(state.facets[i].source, state.commit, state.facets[i].record)
  {
    FacetEntriesMean(state.commit, state.facets, a);
  }

  method CollectEntries(state: State) returns (entries: map<Address, Entry>)
    ensures entries == HistoryEntries(state)
  {
    entries := map[];
    for i := 0 to |state.facets|
      invariant entries == FacetEntries(state.commit, state.facets[..i])
    {
      var f := state.facets[i];
      assert state.facets[..i + 1][..i] == state.facets[..i];
      if f.address.Some? {
        entries := entries[f.address.value := FacetEntry(f.source, state.commit, f.record)];
      }
    }
    assert state.facets[..|state.facets|] == state.facets;
    if state.selectors.Some? {
      entries := entries[state.selectors.value := SelectorsEntry(state.commit, Sort(Sources(state.facets), SourceKey))];
    }
  }

  // ---------------------------------------------------------------------- accepting

  /** `retired_entries`: the delegates the old state installs that the new one does not. */
  function Retired(current: Option<State>, accepted: State): map<Address, Entry> {
    if current.None? then map[] else
    var entries := HistoryEntries(current.value);
    map a | a in entries && a !in HistoryEntries(accepted) :: entries[a]
  }

  /** The commit of one proxy's proposed state. */
  function Accept(h: History): History {
    if h.proposed.None? then h
    else History(h.proposed, None, h.archive + Retired(h.current, h.proposed.value))
  }

  /** `a` is a delegate of the current state that the proposed one does not install. */
  predicate Replaced(h: History, a: Address) {
    && h.proposed.Some? && h.current.Some?
    && Installs(h.current.value, a) && !Installs(h.proposed.value, a)
  }

  /** The archive gains the current state's entry of a delegate that is replaced, and keeps all else. */
  ghost predicate Archives(h: History, archive: map<Address, Entry>, a: Address) {
    if Replaced(h, a) then
      a in HistoryEntries(h.current.value) && a in archive && archive[a] == HistoryEntries(h.current.value)[a]
    else
      (a in archive <==> a in h.archive) && (a in h.archive ==> archive[a] == h.archive[a])
  }

  /** What accepting makes of a history: the proposed state, if any, is current, and what it replaces archived. */
  ghost predicate Accepts(h: History, next: History) {
    && next.proposed == None
    && next.current == (if h.proposed.Some? then h.proposed else h.current)
    && forall a :: Archives(h, next.archive, a)
  }

  lemma {:induction false} AcceptMeans(h: History)
    ensures Accepts(h, Accept(h)) && (h.proposed.None? ==> Accept(h) == h)
  {
    forall a
      ensures Archives(h, Accept(h).archive, a)
    {
      if h.proposed.Some? && h.current.Some? {
        HistoryEntriesMean(h.current.value, a);
        HistoryEntriesMean(h.proposed.value, a);
      }
      hide HistoryEntries, Installs;
    }
  }

  class LedgerFile {
    var histories: seq<History>

    constructor (histories: seq<History>)
      ensures this.histories == histories
    {
      this.histories := histories;
    }

    /** The end of `run_deploy`: each proxy's plan replaces what was proposed, or nothing is pending. */
    method RecordPlans(plans: seq<Option<State>>)
      requires |plans| == |histories|
      modifies this
      ensures |histories| == |old(histories)|
      ensures forall i :: 0 <= i < |histories| ==> histories[i] == Next(old(histories)[i], Plan(plans[i]))
      ensures forall i :: 0 <= i < |histories| ==>
                && histories[i].proposed == plans[i]
                && histories[i].current == old(histories)[i].current
                && histories[i].archive == old(histories)[i].archive
    {
      ghost var before := histories;
      for i := 0 to |plans|
        invariant |histories| == |before|
        invariant forall j :: 0 <= j < i ==> histories[j] == Next(before[j], Plan(plans[j]))
        invariant forall j :: i <= j < |before| ==> histories[j] == before[j]
      {
        histories := histories[i := histories[i].(proposed := plans[i])];
      }
    }

    /** `run_accept`: all the proposed states that passed their checks become current, or, if one did not, none. */
    method RunAccept(verified: seq<bool>) returns (ok: bool)
      requires |verified| == |histories|
      modifies this
      ensures ok <==> forall i :: 0 <= i < |verified| && old(histories)[i].proposed.Some? ==> verified[i]
      ensures |histories| == |old(histories)|
      ensures forall i :: 0 <= i < |histories| ==>
              histories[i] == if ok then Accept(old(histories)[i]) else old(histories)[i]
      ensures forall i :: 0 <= i < |histories| ==>
                if ok then Accepts(old(histories)[i], histories[i]) else histories[i] == old(histories)[i]
    {
      ghost var before := histories;
      ok := true;
      var pending: seq<nat> := [];
      for i := 0 to |histories|
        invariant ok <==> forall j :: 0 <= j < i && histories[j].proposed.Some? ==> verified[j]
        invariant ok ==> forall j: nat :: j in pending <==> j < i && histories[j].proposed.Some?
        invariant forall k, l :: 0 <= k < l < |pending| ==> pending[k] < pending[l] < i
        invariant forall k :: 0 <= k < |pending| ==> pending[k] < i
      {
        if histories[i].proposed.Some? {
          if verified[i] {
            pending := pending + [i];
          } else {
            ok := false;
          }
        }
      }
      if !ok {
        return;
      }
      for k := 0 to |pending|
        invariant |histories| == |before|
        invariant forall j :: 0 <= j < |before| ==>
                histories[j] == if j in pending[..k] then Accept(before[j]) else before[j]
      {
        var i := pending[k];
        assert i in pending && i !in pending[..k];
        assert pending[..k + 1] == pending[..k] + [i];
        var h := histories[i];
        var retired := if h.current.None? then map[] else Retired(h.current, h.proposed.value);
        histories := histories[i := History(h.proposed, None, h.archive + retired)];
      }
      assert pending[..|pending|] == pending;
      forall i | 0 <= i < |before|
        ensures Accepts(before[i], Accept(before[i]))
      {
        AcceptMeans(before[i]);
      }
      hide Accept, Accepts;
    }
  }

  // ---------------------------------------------------------------------- whole runs

  /** What happens to a proxy's history: `deploy` stages a state or finds nothing pending, or `accept` commits. */
  datatype Event = Plan(proposal: Option<State>) | Commit

  function Next(h: History, e: Event): History {
    match e
    case Plan(proposal) => h.(proposed := proposal)
    case Commit => Accept(h)
  }

  function Run(h: History, events: seq<Event>): History {
    if events == [] then h else Next(Run(h, events[..|events| - 1]), events[|events| - 1])
  }

  function Now(h: History): seq<State> {
    if h.current.None? then [] else [h.current.value]
  }

  /** Every state that was current, in order, up to now. */
  function Past(h: History, events: seq<Event>): seq<State> {
    if events == [] then Now(h) else Past(h, events[..|events| - 1]) + Now(Run(h, events))
  }

  predicate EverInstalled(past: seq<State>, a: Address) {
    exists i :: 0 <= i < |past| && Installs(past[i], a)
  }

  /** The last state that installed the delegate. */
  function LastInstalling(past: seq<State>, a: Address): (s: State)
    requires EverInstalled(past, a)
    ensures s in past && Installs(s, a)
  {
    var n := |past| - 1;
    if Installs(past[n], a) then past[n] else
    assert forall i :: 0 <= i < n ==> past[..n][i] == past[i];
    LastInstalling(past[..n], a)
  }

  lemma LastOfConcat(past: seq<State>, more: seq<State>, a: Address)
    requires |more| <= 1 && EverInstalled(past + more, a)
    requires more != [] ==> !Installs(more[0], a)
    ensures EverInstalled(past, a) && LastInstalling(past + more, a) == LastInstalling(past, a)
  {
    if more == [] {
      assert past + more == past;
    } else {
      var all := past + more;
      assert all[..|all| - 1] == past;
      var i :| 0 <= i < |all| && Installs(all[i], a);
      assert i < |past| && past[i] == all[i];
    }
  }

  lemma {:induction false} PastEnds(h: History, events: seq<Event>)
    ensures var now := Run(h, events);
      now.current.Some? ==> Past(h, events) != [] && Past(h, events)[|Past(h, events)| - 1] == now.current.value
  {
  }

  /** Event `j` accepts a state: a commit of what was planned just before it, or proposed at the start. */
  predicate AcceptsAt(h: History, events: seq<Event>, j: nat) {
    && j < |events| && events[j].Commit?
    && (if j == 0 then h.proposed.Some? else events[j - 1].Plan? && events[j - 1].proposal.Some?)
  }

  /** The state that it accepts. */
  function AcceptedAt(h: History, events: seq<Event>, j: nat): State
    requires AcceptsAt(h, events, j)
  {
    if j == 0 then h.proposed.value else events[j - 1].proposal.value
  }

  /** What is proposed is what the last event left so. */
  lemma ProposedLast(h: History, events: seq<Event>)
    ensures Run(h, events).proposed ==
      if events == [] then h.proposed
      else if events[|events| - 1].Plan? then events[|events| - 1].proposal else None
  {
    if events != [] && events[|events| - 1].Commit? {
      AcceptMeans(Run(h, events[..|events| - 1]));
    }
  }

  lemma CurrentStep(h: History, events: seq<Event>, n: nat)
    requires |events| == n + 1
    ensures Run(h, events).current ==
      if AcceptsAt(h, events, n) then Some(AcceptedAt(h, events, n)) else Run(h, events[..n]).current
  {
    ProposedLast(h, events[..n]);
    AcceptMeans(Run(h, events[..n]));
    hide HistoryEntries, Installs, Archives;
  }

  lemma AcceptsFront(h: History, events: seq<Event>, j: nat)
    requires j + 1 < |events|
    ensures AcceptsAt(h, events, j) <==> AcceptsAt(h, events[..|events| - 1], j)
    ensures AcceptsAt(h, events, j) ==> AcceptedAt(h, events, j) == AcceptedAt(h, events[..|events| - 1], j)
  {
  }

  /** No event after the first `n` accepts a state. */
  ghost predicate NoneAccepted(h: History, events: seq<Event>, n: nat) {
    forall k: nat :: k >= n ==> !AcceptsAt(h, events, k)
  }

  lemma NoneAcceptedFront(h: History, events: seq<Event>, front: seq<Event>, n: nat)
    requires n < |events| && front == events[..|events| - 1] && NoneAccepted(h, events, n)
    ensures NoneAccepted(h, front, n)
  {
    forall k: nat | k >= n
      ensures !AcceptsAt(h, front, k)
    {
      if k + 1 < |events| {
        AcceptsFront(h, events, k);
      }
    }
  }

  /** Over any run, the current state is the last one accepted. */
  lemma {:induction false} CurrentIsLastAccepted(h: History, events: seq<Event>, j: nat)
    requires AcceptsAt(h, events, j) && NoneAccepted(h, events, j + 1)
    ensures Run(h, events).current == Some(AcceptedAt(h, events, j))
    decreases |events|
  {
    var n := |events| - 1;
    CurrentStep(h, events, n);
    hide Run, AcceptedAt;
    if j < n {
      NoneAcceptedFront(h, events, events[..n], j + 1);
      AcceptsFront(h, events, j);
      CurrentIsLastAccepted(h, events[..n], j);
    }
  }

  /** It is the one at the start if none was. */
  lemma {:induction false} CurrentStays(h: History, events: seq<Event>)
    requires NoneAccepted(h, events, 0)
    ensures Run(h, events).current == h.current
    decreases |events|
  {
    if events != [] {
      var n := |events| - 1;
      CurrentStep(h, events, n);
      NoneAcceptedFront(h, events, events[..n], 0);
      hide Run, AcceptedAt;
      CurrentStays(h, events[..n]);
    }
  }

  /** Where a delegate is recorded, if not only in the proposed state. */
  predicate Recorded(h: History, a: Address) {
    (h.current.Some? && Installs(h.current.value, a)) || a in h.archive
  }

  /**
   Over any run of deploys and accepts, every delegate that some current state installed is still in
   `current`, or archived with the entry of the last state that installed it.
   */
  lemma {:induction false} Conservation(h: History, events: seq<Event>, a: Address)
    requires EverInstalled(Past(h, events), a)
    ensures var now := Run(h, events);
      || (now.current.Some? && Installs(now.current.value, a))
      || (a in now.archive && a in HistoryEntries(LastInstalling(Past(h, events), a))
          && now.archive[a] == HistoryEntries(LastInstalling(Past(h, events), a))[a])
    decreases |events|
  {
    var now := Run(h, events);
    if events != [] && !(now.current.Some? && Installs(now.current.value, a)) {
      var front := events[..|events| - 1];
      var before := Run(h, front);
      LastOfConcat(Past(h, front), Now(now), a);
      Conservation(h, front, a);
      PastEnds(h, front);
      Retirement(before, events[|events| - 1], a);
    }
  }

  /** One event: a delegate no longer current was archived then, or before. */
  lemma Retirement(h: History, e: Event, a: Address)
    requires var now := Next(h, e); !(now.current.Some? && Installs(now.current.value, a))
    ensures var now := Next(h, e);
      if h.current.Some? && Installs(h.current.value, a)
      then
        && a in HistoryEntries(h.current.value) && a in now.archive
        && now.archive[a] == HistoryEntries(h.current.value)[a]
      else (a in now.archive <==> a in h.archive) && (a in h.archive ==> now.archive[a] == h.archive[a])
  {
    hide HistoryEntries, Installs;
    if h.current.Some? {
      HistoryEntriesMean(h.current.value, a);
    }
    if e.Commit? && h.proposed.Some? {
      HistoryEntriesMean(h.proposed.value, a);
    }
  }

  // ---------------------------------------------------------------------- what an audit reads

  datatype Label = InProposed(place: Entry) | InHistory(place: Entry) | InCurrent(place: Entry)

  function Labelled(entries: map<Address, Entry>, tag: Entry -> Label): map<Address, Label> {
    map a | a in entries :: tag(entries[a])
  }

  function StateEntries(state: Option<State>): map<Address, Entry> {
    if state.None? then map[] else HistoryEntries(state.value)
  }

  /** `recorded_delegates`: later maps win, so `current` over the archive over `proposed`. */
  function RecordedDelegates(h: History): map<Address, Label> {
    Labelled(StateEntries(h.proposed), e => InProposed(e))
    + Labelled(h.archive, e => InHistory(e))
    + Labelled(StateEntries(h.current), e => InCurrent(e))
  }

  /** The label of a delegate, with its entry there: current if installed, else archived, else only proposed. */
  ghost predicate LabelledRight(h: History, a: Address, found: Label) {
    match found
    case InCurrent(place) =>
      && h.current.Some? && Installs(h.current.value, a)
      && a in HistoryEntries(h.current.value) && HistoryEntries(h.current.value)[a] == place
    case InHistory(place) =>
      && !(h.current.Some? && Installs(h.current.value, a))
      && a in h.archive && h.archive[a] == place
    case InProposed(place) =>
      && !Recorded(h, a)
      && h.proposed.Some? && Installs(h.proposed.value, a)
      && a in HistoryEntries(h.proposed.value) && HistoryEntries(h.proposed.value)[a] == place
  }

  /** Every recorded delegate, and only those, is labelled; as proposed exactly if it is recorded nowhere else. */
  lemma {:induction false} LabelsPrefer(h: History, a: Address)
    ensures a in RecordedDelegates(h) <==> Recorded(h, a) || (h.proposed.Some? && Installs(h.proposed.value, a))
    ensures a in RecordedDelegates(h) ==> (RecordedDelegates(h)[a].InProposed? <==> !Recorded(h, a))
    ensures a in RecordedDelegates(h) ==> LabelledRight(h, a, RecordedDelegates(h)[a])
  {
    if h.proposed.Some? {
      HistoryEntriesMean(h.proposed.value, a);
    }
    if h.current.Some? {
      HistoryEntriesMean(h.current.value, a);
    }
    hide HistoryEntries, Installs;
  }

  /** So a delegate that was ever current is recorded, and never as only proposed. */
  lemma {:induction false} NeverOnlyProposed(h: History, events: seq<Event>, a: Address)
    requires EverInstalled(Past(h, events), a)
    ensures a in RecordedDelegates(Run(h, events)) && !RecordedDelegates(Run(h, events))[a].InProposed?
  {
    Conservation(h, events, a);
    LabelsPrefer(Run(h, events), a);
    hide HistoryEntries, Installs, RecordedDelegates;
  }

  // ---------------------------------------------------------------------- rebuilding selectors()

  function Exported(sources: seq<SourceId>, exports: SourceId -> seq<Selector>): seq<seq<Selector>> {
    seq(|sources|, i requires 0 <= i < |sources| => exports(sources[i]))
  }

  lemma {:induction false} ExportedPermutes(a: seq<SourceId>, b: seq<SourceId>, exports: SourceId -> seq<Selector>)
    requires multiset(a) == multiset(b)
    ensures multiset(Exported(a, exports)) == multiset(Exported(b, exports))
    decreases |a|
  {
    assert |multiset(a)| == |a| && |multiset(b)| == |b|;
    if a != [] {
      assert a[0] in multiset(b);
      var i :| 0 <= i < |b| && b[i] == a[0];
      Without(a, 0, exports);
      Without(b, i, exports);
      hide Exported;
      ExportedPermutes(a[..0] + a[1..], b[..i] + b[i + 1..], exports);
    } else {
      assert b == [];
    }
  }

  /** One source taken out. */
  lemma Without(a: seq<SourceId>, i: nat, exports: SourceId -> seq<Selector>)
    requires i < |a|
    ensures var rest := a[..i] + a[i + 1..];
      && multiset(rest) == multiset(a) - multiset{a[i]}
      && multiset(Exported(a, exports)) == multiset(Exported(rest, exports)) + multiset{exports(a[i])}
  {
    var rest := a[..i] + a[i + 1..];
    assert a == a[..i] + ([a[i]] + a[i + 1..]);
    var x, y := Exported(a[..i], exports), Exported(a[i + 1..], exports);
    assert Exported(a, exports) == x + ([exports(a[i])] + y);
    assert Exported(rest, exports) == x + y;
  }

  /** An archived `selectors()` is rebuilt from its sorted sources as the bytecode generated in their order. */
  lemma {:induction false} ArchivedSelectorsRebuild(state: State, a: Address, exports: SourceId -> seq<Selector>)
    requires state.selectors == Some(a)
    ensures a in HistoryEntries(state) && HistoryEntries(state)[a].SelectorsEntry?
    ensures FacetsRuntime(Exported(HistoryEntries(state)[a].selectorsFor, exports))
            == FacetsRuntime(Exported(Sources(state.facets), exports))
  {
    HistoryEntriesMean(state, a);
    var sources := Sources(state.facets);
    SortProperties(sources, SourceKey);
    ExportedPermutes(Sort(sources, SourceKey), sources, exports);
    OrderIndependent(Exported(Sort(sources, SourceKey), exports), Exported(sources, exports));
    hide FacetsRuntime, Sort;
  }
}
