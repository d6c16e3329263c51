/**
 Planning facet deployments (src/josuke/deploy.py, `existing_deployment` and the planning loop of
 `run_deploy`), and how `check` predicts it offline (src/josuke/check.py, `_check_proxy`): `check`
 gives every new deployment a placeholder where `deploy` gets a fresh address.
 */
module DeployPlan {
  import opened Bytes
  import opened Wrappers
  import Upgrade

  /** A recorded deployment: the hash of its creation code, and its address. */
  datatype Rec<A> = Rec(hash: Option<int>, address: Option<A>)

  /** Records by source. */
  type Records<A> = map<string, Rec<A>>

  /** A run's records, by the hash of the creation code. */
  type Run<A> = map<int, Rec<A>>

  /** A facet at HEAD: its source, the hash of its creation code, and the selectors it exports. */
  datatype Facet = Facet(source: string, hash: int, exports: seq<Selector>)

  /** A proxy's facets, and the records of what is installed and of what is staged, by source. */
  datatype Proxy<A> = Proxy(facets: seq<Facet>, current: Records<A>, proposed: Records<A>)

  /** `run_deployed.setdefault` */
  function Default<A>(run: Run<A>, hash: int, rec: Rec<A>): Run<A> {
    if hash in run then run else run[hash := rec]
  }

  /** `existing_deployment`: the record to reuse, if any, and the run's records after. */
  function ExistingDeployment<A>(f: Facet, p: Proxy<A>, run: Run<A>): (Option<Rec<A>>, Run<A>) {
    if f.source in p.current && p.current[f.source].hash == Some(f.hash) then
      (Some(p.current[f.source]), Default(run, f.hash, p.current[f.source]))
    else if f.source in p.proposed && p.proposed[f.source].hash == Some(f.hash)
        && p.proposed[f.source].address.Some? then
      (Some(p.proposed[f.source]), Default(run, f.hash, p.proposed[f.source]))
    else if f.hash in run && run[f.hash].address.Some? then (Some(run[f.hash]), run)
    else (None, run)
  }

  /** How far a run has come: its records by hash, and how many addresses it was given. */
  datatype Progress<A> = Progress(run: Run<A>, made: nat)

  /** How a run records a new deployment: of which code, and as which of the run's. */
  type Maker<!A> = (int, nat) -> Rec<A>

  /** One facet: the record it has in the proposed state. */
  function PlanFacet<A>(f: Facet, p: Proxy<A>, at: Progress<A>, make: Maker<A>): (Rec<A>, Progress<A>) {
    var (existing, run) := ExistingDeployment(f, p, at.run);
    if existing.Some? then (existing.value, Progress(run, at.made))
    else (make(f.hash, at.made), Progress(Default(run, f.hash, make(f.hash, at.made)), at.made + 1))
  }

  /** The first `n` facets of a proxy. */
  function PlanTo<A>(p: Proxy<A>, at: Progress<A>, make: Maker<A>, n: nat): (r: (seq<Rec<A>>, Progress<A>))
    requires n <= |p.facets|
    ensures |r.0| == n
  {
    if n == 0 then ([], at) else
    var (recs, mid) := PlanTo(p, at, make, n - 1);
    var (rec, end) := PlanFacet(p.facets[n - 1], p, mid, make);
    (recs + [rec], end)
  }

  function PlanProxy<A>(p: Proxy<A>, at: Progress<A>, make: Maker<A>): (r: (seq<Rec<A>>, Progress<A>))
    ensures |r.0| == |p.facets|
  {
    PlanTo(p, at, make, |p.facets|)
  }

  /** What the run has come to before proxy `k`. */
  function Before<A>(proxies: seq<Proxy<A>>, make: Maker<A>, k: nat): Progress<A>
    requires k <= |proxies|
  {
    if k == 0 then Progress(map[], 0) else PlanProxy(proxies[k - 1], Before(proxies, make, k - 1), make).1
  }

  function RecordsOf<A>(proxies: seq<Proxy<A>>, make: Maker<A>, k: nat): (recs: seq<Rec<A>>)
    requires k < |proxies|
    ensures |recs| == |proxies[k].facets|
  {
    PlanProxy(proxies[k], Before(proxies, make, k), make).0
  }

  // ---------------------------------------------------------------------- which record a facet gets

  /** A new deployment gets the next address its sender creates. */
  function DeployMaker(addresses: nat -> Address): Maker<Address> {
    (hash: int, n: nat) => Rec(Some(hash), Some(addresses(n)))
  }

  /** The installed record is of the facet's code. */
  predicate Installed<A>(p: Proxy<A>, f: Facet) {
    f.source in p.current && p.current[f.source].hash == Some(f.hash)
  }

  /** The staged record is of the facet's code, and has an address. */
  predicate Staged<A>(p: Proxy<A>, f: Facet) {
    && f.source in p.proposed && p.proposed[f.source].hash == Some(f.hash)
    && p.proposed[f.source].address.Some?
  }

  /** The position of the first record of the code; past the end if there is none. */
  function FirstOf<A>(recs: seq<Rec<A>>, hash: int): (k: nat)
    ensures k <= |recs|
    ensures k < |recs| ==> recs[k].hash == Some(hash)
    ensures forall j :: 0 <= j < k ==> recs[j].hash != Some(hash)
  {
    if recs == [] || recs[0].hash == Some(hash) then 0 else 1 + FirstOf(recs[1..], hash)
  }

  /** The first record of the code among those the run gave out before has an address. */
  predicate Shared<A>(earlier: seq<Rec<A>>, hash: int) {
    var k := FirstOf(earlier, hash);
    k < |earlier| && earlier[k].address.Some?
  }

  /** Nothing there is to reuse: the facet needs a deployment of its own. */
  predicate NeedsNew<A>(p: Proxy<A>, f: Facet, earlier: seq<Rec<A>>) {
    !Installed(p, f) && !Staged(p, f) && !Shared(earlier, f.hash)
  }

  /**
   The record that a facet gets is of its own code: the installed one if that is, else the staged one, else
   the first the run gave out for that code, and only then a new one, at the `next` address.
   */
  predicate Chosen<A(==)>(p: Proxy<A>, f: Facet, earlier: seq<Rec<A>>, next: A, rec: Rec<A>) {
    && rec.hash == Some(f.hash)
    && (Installed(p, f) ==> rec == p.current[f.source])
    && (!Installed(p, f) && Staged(p, f) ==> rec == p.proposed[f.source])
    && (!Installed(p, f) && !Staged(p, f) && Shared(earlier, f.hash) ==> rec == earlier[FirstOf(earlier, f.hash)])
    && (NeedsNew(p, f, earlier) ==> rec.address == Some(next))
  }

  /** How many of the first `n` facets need a deployment. */
  function NewTo<A>(p: Proxy<A>, earlier: seq<Rec<A>>, recs: seq<Rec<A>>, n: nat): nat
    requires n <= |recs| <= |p.facets|
  {
    if n == 0 then 0 else
    NewTo(p, earlier, recs, n - 1) + if NeedsNew(p, p.facets[n - 1], earlier + recs[..n - 1]) then 1 else 0
  }

  /** Each of a proxy's facets gets the record it should, after `earlier` ones and `made` deployments. */
  ghost predicate AllChosen(p: Proxy<Address>, earlier: seq<Rec<Address>>, made: nat, addresses: nat -> Address,
                            recs: seq<Rec<Address>>) {
    && |recs| <= |p.facets|
    && forall i :: 0 <= i < |recs| ==> ChosenAt(p, earlier, made, addresses, recs, i)
  }

  ghost predicate ChosenAt(p: Proxy<Address>, earlier: seq<Rec<Address>>, made: nat, addresses: nat -> Address,
                           recs: seq<Rec<Address>>, i: nat)
    requires i < |recs| <= |p.facets|
  {
    Chosen(p, p.facets[i], earlier + recs[..i], addresses(made + NewTo(p, earlier, recs, i)), recs[i])
  }

  /** The run's records are the first of each code among those it gave out. */
  ghost predicate Registers<A>(run: Run<A>, earlier: seq<Rec<A>>) {
    forall h :: RegistersAt(run, earlier, h)
  }

  ghost predicate RegistersAt<A>(run: Run<A>, earlier: seq<Rec<A>>, h: int) {
    && (h in run <==> FirstOf(earlier, h) < |earlier|)
    && (h in run ==> run[h] == earlier[FirstOf(earlier, h)])
  }

  lemma {:induction false} FirstOfSnoc<A>(earlier: seq<Rec<A>>, rec: Rec<A>, hash: int)
    ensures FirstOf(earlier + [rec], hash) ==
      if FirstOf(earlier, hash) < |earlier| || rec.hash == Some(hash) then FirstOf(earlier, hash) else |earlier| + 1
    decreases |earlier|
  {
    if earlier == [] {
      assert [] + [rec] == [rec] && [rec][1..] == [];
    } else if earlier[0].hash != Some(hash) {
      FirstOfSnoc(earlier[1..], rec, hash);
      assert (earlier + [rec])[1..] == earlier[1..] + [rec];
    }
  }

  lemma RegisterSnoc<A>(run: Run<A>, earlier: seq<Rec<A>>, hash: int, rec: Rec<A>)
    requires Registers(run, earlier) && rec.hash == Some(hash)
    ensures Registers(Default(run, hash, rec), earlier + [rec])
  {
    forall h
      ensures RegistersAt(Default(run, hash, rec), earlier + [rec], h)
    {
      assert RegistersAt(run, earlier, h);
      FirstOfSnoc(earlier, rec, h);
    }
  }

  lemma FacetChosen(f: Facet, p: Proxy<Address>, at: Progress<Address>, addresses: nat -> Address,
                    earlier: seq<Rec<Address>>)
    requires Registers(at.run, earlier)
    ensures var (rec, next) := PlanFacet(f, p, at, DeployMaker(addresses));
      && Chosen(p, f, earlier, addresses(at.made), rec) && Registers(next.run, earlier + [rec])
      && next.made == at.made + if NeedsNew(p, f, earlier) then 1 else 0
  {
    assert RegistersAt(at.run, earlier, f.hash);
    var (rec, next) := PlanFacet(f, p, at, DeployMaker(addresses));
    assert rec.hash == Some(f.hash);
    RegisterSnoc(at.run, earlier, f.hash, rec);
    hide Registers, FirstOf;
  }

  lemma {:induction false} FacetsChosen(p: Proxy<Address>, at: Progress<Address>, addresses: nat -> Address,
                                        earlier: seq<Rec<Address>>, n: nat)
    requires n <= |p.facets| && Registers(at.run, earlier)
    ensures var (recs, end) := PlanTo(p, at, DeployMaker(addresses), n);
      && AllChosen(p, earlier, at.made, addresses, recs) && Registers(end.run, earlier + recs)
      && end.made == at.made + NewTo(p, earlier, recs, n)
    decreases n
  {
    hide PlanFacet, Registers, Chosen, NeedsNew, DeployMaker;
    if n == 0 {
      assert earlier + [] == earlier;
    } else {
      FacetsChosen(p, at, addresses, earlier, n - 1);
      var (front, mid) := PlanTo(p, at, DeployMaker(addresses), n - 1);
      FacetChosen(p.facets[n - 1], p, mid, addresses, earlier + front);
      var (rec, end) := PlanFacet(p.facets[n - 1], p, mid, DeployMaker(addresses));
      assert earlier + (front + [rec]) == (earlier + front) + [rec];
      ChosenSnoc(p, earlier, at.made, addresses, front, rec);
    }
  }

  lemma ChosenSnoc(p: Proxy<Address>, earlier: seq<Rec<Address>>, made: nat, addresses: nat -> Address,
                   front: seq<Rec<Address>>, rec: Rec<Address>)
    requires AllChosen(p, earlier, made, addresses, front) && |front| < |p.facets|
    requires Chosen(p, p.facets[|front|], earlier + front,
                    addresses(made + NewTo(p, earlier, front, |front|)), rec)
    ensures AllChosen(p, earlier, made, addresses, front + [rec])
    ensures NewTo(p, earlier, front + [rec], |front| + 1) == NewTo(p, earlier, front, |front|)
            + if NeedsNew(p, p.facets[|front|], earlier + front) then 1 else 0
  {
    hide Chosen, NeedsNew;
    var recs := front + [rec];
    assert recs[..|front|] == front;
    NewToFront(p, earlier, front, rec, |front|);
    forall i | 0 <= i < |recs|
      ensures ChosenAt(p, earlier, made, addresses, recs, i)
    {
      NewToFront(p, earlier, front, rec, i);
      assert recs[..i] == front[..i];
      assert i < |front| ==> ChosenAt(p, earlier, made, addresses, front, i);
    }
  }

  lemma {:induction false} NewToFront<A>(p: Proxy<A>, earlier: seq<Rec<A>>, front: seq<Rec<A>>, rec: Rec<A>, n: nat)
    requires n <= |front| < |p.facets|
    ensures NewTo(p, earlier, front + [rec], n) == NewTo(p, earlier, front, n)
    decreases n
  {
    if n > 0 {
      NewToFront(p, earlier, front, rec, n - 1);
      assert (front + [rec])[..n - 1] == front[..n - 1];
    }
  }

  /** All the records of the proxies before `k`. */
  function Earlier(proxies: seq<Proxy<Address>>, addresses: nat -> Address, k: nat): seq<Rec<Address>>
    requires k <= |proxies|
  {
    if k == 0 then [] else
    Earlier(proxies, addresses, k - 1) + RecordsOf(proxies, DeployMaker(addresses), k - 1)
  }

  /** How many deployments they needed. */
  function NewBefore(proxies: seq<Proxy<Address>>, addresses: nat -> Address, k: nat): nat
    requires k <= |proxies|
  {
    if k == 0 then 0 else
    var recs := RecordsOf(proxies, DeployMaker(addresses), k - 1);
    NewBefore(proxies, addresses, k - 1)
    + NewTo(proxies[k - 1], Earlier(proxies, addresses, k - 1), recs, |recs|)
  }

  lemma {:induction false} RunChosen(proxies: seq<Proxy<Address>>, addresses: nat -> Address, k: nat)
    requires k <= |proxies|
    ensures var at := Before(proxies, DeployMaker(addresses), k);
      && Registers(at.run, Earlier(proxies, addresses, k)) && at.made == NewBefore(proxies, addresses, k)
    decreases k
  {
    if k > 0 {
      RunChosen(proxies, addresses, k - 1);
      hide PlanTo, NewTo, Registers, AllChosen;
      var at := Before(proxies, DeployMaker(addresses), k - 1);
      FacetsChosen(proxies[k - 1], at, addresses, Earlier(proxies, addresses, k - 1), |proxies[k - 1].facets|);
    } else {
      RegistersNone();
    }
  }

  lemma RegistersNone()
    ensures Registers<Address>(map[], [])
  {
  }

  /** Every facet of a run gets the record it should, of its own code, sharing the run's deployments. */
  lemma {:induction false} RecordsChosen(proxies: seq<Proxy<Address>>, addresses: nat -> Address, k: nat)
    requires k < |proxies|
    ensures AllChosen(proxies[k], Earlier(proxies, addresses, k), NewBefore(proxies, addresses, k), addresses,
                      RecordsOf(proxies, DeployMaker(addresses), k))
  {
    RunChosen(proxies, addresses, k);
    hide PlanTo, NewTo, Registers, AllChosen;
    var at := Before(proxies, DeployMaker(addresses), k);
    FacetsChosen(proxies[k], at, addresses, Earlier(proxies, addresses, k), |proxies[k].facets|);
  }

  // ---------------------------------------------------------------------- clashes

  /** Two facets at different addresses export one selector. */
  ghost predicate ClashAt<A>(facets: seq<Facet>, recs: seq<Rec<A>>, i: nat, j: nat, s: Selector)
    requires |recs| == |facets|
  {
    i < j < |facets| && s in facets[i].exports && s in facets[j].exports && recs[i].address != recs[j].address
  }

  ghost predicate Clashes<A>(facets: seq<Facet>, recs: seq<Rec<A>>)
    requires |recs| == |facets|
  {
    exists i: nat, j: nat, s :: ClashAt(facets, recs, i, j, s)
  }

  /** The owners after the first `n` facets: each selector's last exporter. */
  ghost predicate OwnersTo<A(!new)>(facets: seq<Facet>, recs: seq<Rec<A>>, n: nat, owners: map<Selector, Option<A>>)
    requires |recs| == |facets| && n <= |facets|
  {
    && (forall i :: 0 <= i < n ==> AllOwned(facets[i], owners))
    && (forall s :: s in owners ==> Owned(facets, recs, n, owners, s))
  }

  ghost predicate AllOwned<A>(f: Facet, owners: map<Selector, Option<A>>) {
    forall s :: s in f.exports ==> s in owners
  }

  ghost predicate Owned<A>(facets: seq<Facet>, recs: seq<Rec<A>>, n: nat, owners: map<Selector, Option<A>>, s: Selector)
    requires |recs| == |facets| && n <= |facets|
  {
    exists i: nat :: OwnedBy(facets, recs, n, owners, s, i)
  }

  ghost predicate OwnedBy<A>(facets: seq<Facet>, recs: seq<Rec<A>>, n: nat, owners: map<Selector, Option<A>>,
                             s: Selector, i: nat)
    requires |recs| == |facets| && n <= |facets|
  {
    && i < n && s in facets[i].exports && s in owners && owners[s] == recs[i].address
    && forall j :: i < j < n ==> s !in facets[j].exports
  }

  /** A selector of the facet is owned at another address. */
  ghost predicate Claimed<A>(f: Facet, address: Option<A>, owners: map<Selector, Option<A>>) {
    exists s :: s in f.exports && s in owners && owners[s] != address
  }

  /** The owners once these selectors are owned at the address. */
  function Own<A>(exports: seq<Selector>, address: Option<A>, owners: map<Selector, Option<A>>)
    : map<Selector, Option<A>>
  {
    if exports == [] then owners
    else Own(exports[..|exports| - 1], address, owners)[exports[|exports| - 1] := address]
  }

  lemma {:induction false} OwnMeans<A>(exports: seq<Selector>, address: Option<A>, owners: map<Selector, Option<A>>,
                                       s: Selector)
    ensures s in Own(exports, address, owners) <==> s in exports || s in owners
    ensures s in exports ==> Own(exports, address, owners)[s] == address
    ensures s !in exports && s in owners ==> Own(exports, address, owners)[s] == owners[s]
    decreases |exports|
  {
    if exports != [] {
      var n := |exports| - 1;
      OwnMeans(exports[..n], address, owners, s);
      assert exports == exports[..n] + [exports[n]];
    }
  }

  ghost predicate ClashTo<A>(facets: seq<Facet>, recs: seq<Rec<A>>, n: nat)
    requires |recs| == |facets|
  {
    exists i: nat, j: nat, s :: ClashBefore(facets, recs, n, i, j, s)
  }

  ghost predicate ClashBefore<A>(facets: seq<Facet>, recs: seq<Rec<A>>, n: nat, i: nat, j: nat, s: Selector)
    requires |recs| == |facets|
  {
    j < n && ClashAt(facets, recs, i, j, s)
  }

  /** A facet clashes with an earlier one exactly if a selector of its is owned at another address. */
  lemma {:induction false} ClaimStep<A(!new)>(facets: seq<Facet>, recs: seq<Rec<A>>, n: nat,
                                              owners: map<Selector, Option<A>>)
    requires |recs| == |facets| && n < |facets| && OwnersTo(facets, recs, n, owners)
    ensures ClashTo(facets, recs, n + 1) <==> ClashTo(facets, recs, n) || Claimed(facets[n], recs[n].address, owners)
  {
    if Claimed(facets[n], recs[n].address, owners) {
      var s :| s in facets[n].exports && s in owners && owners[s] != recs[n].address;
      assert Owned(facets, recs, n, owners, s);
      var i: nat :| OwnedBy(facets, recs, n, owners, s, i);
      assert ClashBefore(facets, recs, n + 1, i, n, s);
    }
    if ClashTo(facets, recs, n) {
      var i: nat, j: nat, s :| ClashBefore(facets, recs, n, i, j, s);
      assert ClashBefore(facets, recs, n + 1, i, j, s);
    }
    if ClashTo(facets, recs, n + 1) {
      var i: nat, j: nat, s :| ClashBefore(facets, recs, n + 1, i, j, s);
      if j < n {
        assert ClashBefore(facets, recs, n, i, j, s);
      } else {
        ClashOwned(facets, recs, n, owners, i, s);
      }
    }
  }

  lemma ClashOwned<A(!new)>(facets: seq<Facet>, recs: seq<Rec<A>>, n: nat, owners: map<Selector, Option<A>>,
                            i: nat, s: Selector)
    requires |recs| == |facets| && n < |facets| && OwnersTo(facets, recs, n, owners) && ClashAt(facets, recs, i, n, s)
    ensures ClashTo(facets, recs, n) || Claimed(facets[n], recs[n].address, owners)
  {
    assert AllOwned(facets[i], owners) && Owned(facets, recs, n, owners, s);
    var k: nat :| OwnedBy(facets, recs, n, owners, s, k);
    if recs[k].address != recs[i].address {
      assert ClashBefore(facets, recs, n, i, k, s);
    }
  }

  lemma OwnersNext<A(!new)>(facets: seq<Facet>, recs: seq<Rec<A>>, n: nat, owners: map<Selector, Option<A>>)
    requires |recs| == |facets| && n < |facets| && OwnersTo(facets, recs, n, owners)
    ensures OwnersTo(facets, recs, n + 1, Own(facets[n].exports, recs[n].address, owners))
  {
    var next := Own(facets[n].exports, recs[n].address, owners);
    forall s | s in next
      ensures Owned(facets, recs, n + 1, next, s)
    {
      OwnMeans(facets[n].exports, recs[n].address, owners, s);
      if s in facets[n].exports {
        assert OwnedBy(facets, recs, n + 1, next, s, n);
      } else {
        assert Owned(facets, recs, n, owners, s);
        var i: nat :| OwnedBy(facets, recs, n, owners, s, i);
        assert OwnedBy(facets, recs, n + 1, next, s, i);
      }
    }
    forall i | 0 <= i < n + 1
      ensures AllOwned(facets[i], next)
    {
      forall s | s in facets[i].exports
        ensures s in next
      {
        OwnMeans(facets[n].exports, recs[n].address, owners, s);
      }
    }
  }

  ghost predicate ClashesIn<A>(proxies: seq<Proxy<A>>, make: Maker<A>, k: nat)
    requires k < |proxies|
  {
    Clashes(proxies[k].facets, RecordsOf(proxies, make, k))
  }

  /** A selector clash on some proxy of the run. */
  ghost predicate AnyClash<A>(proxies: seq<Proxy<A>>, make: Maker<A>) {
    exists k: nat :: k < |proxies| && ClashesIn(proxies, make, k)
  }

  // ---------------------------------------------------------------------- deploy

  /** A proxy's facets as `build_migration` claims their selectors, each at its record's address. */
  function Proposed(facets: seq<Facet>, recs: seq<Rec<Address>>): (claims: seq<Upgrade.Facet>)
    requires |recs| == |facets|
    ensures |claims| == |facets|
  {
    seq(|facets|, i requires 0 <= i < |facets| => Claimant(facets[i], recs[i]))
  }

  function Claimant(f: Facet, rec: Rec<Address>): Upgrade.Facet {
    Upgrade.Facet(f.source, rec.address, Some(f.exports))
  }

  function ProposedBy(proxies: seq<Proxy<Address>>, addresses: nat -> Address, k: nat): seq<Upgrade.Facet>
    requires k < |proxies|
  {
    Proposed(proxies[k].facets, RecordsOf(proxies, DeployMaker(addresses), k))
  }

  /** A facet whose record has no address cannot be routed to, and the plan crashes. */
  datatype Outcome = Planned | Refused | Crashed

  /** A proxy's claims are planned exactly if every facet has an address and no selector is contested. */
  ghost predicate Accepts(claims: seq<Upgrade.Facet>) {
    Upgrade.AllRecorded(claims) && !Upgrade.Contested(claims)
  }

  /** The first `k` proxies are planned. */
  ghost predicate AllAccept(proxies: seq<Proxy<Address>>, addresses: nat -> Address, k: nat)
    requires k <= |proxies|
  {
    forall l: nat :: l < k ==> Accepts(ProposedBy(proxies, addresses, l))
  }

  /** The run reaches proxy `k`, where a contest among facets with addresses refuses it. */
  ghost predicate RefusedAt(proxies: seq<Proxy<Address>>, addresses: nat -> Address, k: nat) {
    && k < |proxies| && AllAccept(proxies, addresses, k)
    && Upgrade.ContestedFirst(ProposedBy(proxies, addresses, k))
  }

  ghost predicate DeployRefused(proxies: seq<Proxy<Address>>, addresses: nat -> Address) {
    exists k: nat :: RefusedAt(proxies, addresses, k)
  }

  /** The run reaches proxy `k`, where it meets a facet without an address before any contest. */
  ghost predicate CrashesAt(proxies: seq<Proxy<Address>>, addresses: nat -> Address, k: nat) {
    && k < |proxies| && AllAccept(proxies, addresses, k)
    && !Upgrade.AllRecorded(ProposedBy(proxies, addresses, k))
    && !Upgrade.ContestedFirst(ProposedBy(proxies, addresses, k))
  }

  ghost predicate DeployCrashes(proxies: seq<Proxy<Address>>, addresses: nat -> Address) {
    exists k: nat :: CrashesAt(proxies, addresses, k)
  }

  /**
   The planning loop of `run_deploy` over the proxies, which ends at the first one not planned: the records
   of those planned, each facet's its own.
   */
  method PlanDeploy(proxies: seq<Proxy<Address>>, addresses: nat -> Address)
    returns (outcome: Outcome, plans: seq<seq<Rec<Address>>>)
    ensures outcome.Planned? <==> AllAccept(proxies, addresses, |proxies|)
    ensures outcome.Refused? <==> DeployRefused(proxies, addresses)
    ensures outcome.Crashed? <==> DeployCrashes(proxies, addresses)
    ensures |plans| <= |proxies| && (outcome.Planned? ==> |plans| == |proxies|)
    ensures forall k :: 0 <= k < |plans| ==> GetsRecords(proxies, addresses, k, plans[k])
  {
    hide *;
    PlanStart(proxies, addresses);
    var run: Run<Address>, made: nat := map[], 0;
    plans := [];
    for k := 0 to |proxies|
      invariant Before(proxies, DeployMaker(addresses), k) == Progress(run, made)
      invariant AllAccept(proxies, addresses, k) && |plans| == k
      invariant forall l :: 0 <= l < k ==> GetsRecords(proxies, addresses, l, plans[l])
    {
      var recs;
      RunChosen(proxies, addresses, k);
      recs, run, made := DeployFacets(proxies[k], run, made, addresses, Earlier(proxies, addresses, k));
      PlanStep(proxies, addresses, k);
      outcome := PlanClaims(proxies[k].facets, recs);
      if !outcome.Planned? {
        return;
      }
      plans := plans + [recs];
    }
    AllPlanned(proxies, addresses);
    outcome := Planned;
  }

  /** A proxy's facets get these records, each facet its own. */
  ghost predicate GetsRecords(proxies: seq<Proxy<Address>>, addresses: nat -> Address, k: nat,
                              recs: seq<Rec<Address>>) {
    && k < |proxies| && recs == RecordsOf(proxies, DeployMaker(addresses), k)
    && AllChosen(proxies[k], Earlier(proxies, addresses, k), NewBefore(proxies, addresses, k), addresses, recs)
  }

  lemma PlanStart(proxies: seq<Proxy<Address>>, addresses: nat -> Address)
    ensures Before(proxies, DeployMaker(addresses), 0) == Progress(map[], 0) && AllAccept(proxies, addresses, 0)
  {
  }

  /** What planning one more proxy comes to. */
  lemma PlanStep(proxies: seq<Proxy<Address>>, addresses: nat -> Address, k: nat)
    requires k < |proxies| && AllAccept(proxies, addresses, k)
    ensures var at := Before(proxies, DeployMaker(addresses), k);
      var (recs, next) := PlanProxy(proxies[k], at, DeployMaker(addresses));
      && next == Before(proxies, DeployMaker(addresses), k + 1) && GetsRecords(proxies, addresses, k, recs)
      && (Accepts(Proposed(proxies[k].facets, recs)) ==> AllAccept(proxies, addresses, k + 1))
      && (!Accepts(Proposed(proxies[k].facets, recs)) ==>
            && !AllAccept(proxies, addresses, |proxies|)
            && (DeployRefused(proxies, addresses) <==> Upgrade.ContestedFirst(Proposed(proxies[k].facets, recs)))
            && (DeployCrashes(proxies, addresses) <==> !Upgrade.ContestedFirst(Proposed(proxies[k].facets, recs))))
  {
    RecordsChosen(proxies, addresses, k);
    var recs := RecordsOf(proxies, DeployMaker(addresses), k);
    assert Proposed(proxies[k].facets, recs) == ProposedBy(proxies, addresses, k);
    hide Accepts, PlanProxy, AllChosen, Earlier, NewBefore, Upgrade.ContestedFirst;
    EndsNotPlanned(proxies, addresses, k);
    if EndsAt(proxies, addresses, k) {
      EndsOnce(proxies, addresses, k);
    }
  }

  lemma AllPlanned(proxies: seq<Proxy<Address>>, addresses: nat -> Address)
    requires AllAccept(proxies, addresses, |proxies|)
    ensures !DeployRefused(proxies, addresses) && !DeployCrashes(proxies, addresses)
  {
    hide RefusedAt, CrashesAt;
    forall k: nat
      ensures !RefusedAt(proxies, addresses, k) && !CrashesAt(proxies, addresses, k)
    {
      EndsNotPlanned(proxies, addresses, k);
    }
  }

  /** The claims of one proxy, as `build_migration` makes them. */
  method PlanClaims(facets: seq<Facet>, recs: seq<Rec<Address>>) returns (outcome: Outcome)
    requires |recs| == |facets|
    ensures outcome.Planned? <==> Accepts(Proposed(facets, recs))
    ensures outcome.Refused? <==> Upgrade.ContestedFirst(Proposed(facets, recs))
    ensures outcome.Crashed? ==> !Upgrade.AllRecorded(Proposed(facets, recs))
  {
    hide Upgrade.Contested, Upgrade.ContestedFirst, Upgrade.AllRecorded, Upgrade.FacetOwners;
    var claimed := Upgrade.ClaimSelectors(Proposed(facets, recs));
    outcome := if claimed.Success? then Planned else if claimed.error.SelectorClash? then Refused else Crashed;
  }

  lemma ContestedRefused(claims: seq<Upgrade.Facet>)
    ensures Upgrade.ContestedFirst(claims) ==> !Accepts(claims)
    ensures Upgrade.AllRecorded(claims) && Upgrade.Readable(claims) && Upgrade.Contested(claims)
            ==> Upgrade.ContestedFirst(claims)
  {
    assert claims[..|claims|] == claims;
    assert Upgrade.ContestedBy(claims, |claims|) ==> Upgrade.ContestedFirst(claims);
    if Upgrade.ContestedFirst(claims) && Accepts(claims) {
      var n :| 0 <= n <= |claims| && Upgrade.ContestedBy(claims, n);
      Upgrade.LessContested(claims, n, |claims|);
    }
  }

  /** The run reaches proxy `k`, and does not plan it. */
  ghost predicate EndsAt(proxies: seq<Proxy<Address>>, addresses: nat -> Address, k: nat) {
    k < |proxies| && AllAccept(proxies, addresses, k) && !Accepts(ProposedBy(proxies, addresses, k))
  }

  lemma EndsNotPlanned(proxies: seq<Proxy<Address>>, addresses: nat -> Address, k: nat)
    ensures RefusedAt(proxies, addresses, k) || CrashesAt(proxies, addresses, k) <==> EndsAt(proxies, addresses, k)
    ensures !(RefusedAt(proxies, addresses, k) && CrashesAt(proxies, addresses, k))
    ensures EndsAt(proxies, addresses, k) ==> !AllAccept(proxies, addresses, |proxies|)
  {
    if k < |proxies| {
      var claims := ProposedBy(proxies, addresses, k);
      assert Upgrade.Readable(claims);
      hide ProposedBy, Upgrade.Contested, Upgrade.ContestedFirst, Upgrade.AllRecorded;
      ContestedRefused(claims);
    }
  }

  /** A run that ends at proxy `k` ends there alone. */
  lemma EndsOnce(proxies: seq<Proxy<Address>>, addresses: nat -> Address, k: nat)
    requires EndsAt(proxies, addresses, k)
    ensures DeployRefused(proxies, addresses) <==> RefusedAt(proxies, addresses, k)
    ensures DeployCrashes(proxies, addresses) <==> CrashesAt(proxies, addresses, k)
  {
    if DeployRefused(proxies, addresses) {
      var l: nat :| RefusedAt(proxies, addresses, l);
      EndsNotPlanned(proxies, addresses, l);
      OnlyOneEnd(proxies, addresses, k, l);
    }
    if DeployCrashes(proxies, addresses) {
      var l: nat :| CrashesAt(proxies, addresses, l);
      EndsNotPlanned(proxies, addresses, l);
      OnlyOneEnd(proxies, addresses, k, l);
    }
  }

  lemma OnlyOneEnd(proxies: seq<Proxy<Address>>, addresses: nat -> Address, k: nat, l: nat)
    requires EndsAt(proxies, addresses, k) && EndsAt(proxies, addresses, l)
    ensures k == l
  {
    hide ProposedBy, Accepts;
  }

  /** The facets of one proxy: each reused, or deployed at the next address. */
  method DeployFacets(p: Proxy<Address>, run: Run<Address>, made: nat, addresses: nat -> Address,
                      ghost earlier: seq<Rec<Address>>)
    returns (recs: seq<Rec<Address>>, next: Run<Address>, count: nat)
    requires Registers(run, earlier)
    ensures (recs, Progress(next, count)) == PlanProxy(p, Progress(run, made), DeployMaker(addresses))
    ensures |recs| == |p.facets| && AllChosen(p, earlier, made, addresses, recs)
    ensures count == made + NewTo(p, earlier, recs, |recs|) && Registers(next, earlier + recs)
  {
    hide ExistingDeployment, Registers, AllChosen, NewTo;
    recs, next, count := [], run, made;
    for i := 0 to |p.facets|
      invariant (recs, Progress(next, count)) == PlanTo(p, Progress(run, made), DeployMaker(addresses), i)
    {
      var f := p.facets[i];
      var (existing, registered) := ExistingDeployment(f, p, next);
      next := registered;
      if existing.Some? {
        recs := recs + [existing.value];
      } else {
        var rec := Rec(Some(f.hash), Some(addresses(count)));
        recs, next, count := recs + [rec], Default(next, f.hash, rec), count + 1;
      }
    }
    FacetsChosen(p, Progress(run, made), addresses, earlier, |p.facets|);
  }

  // ---------------------------------------------------------------------- check

  /** An address as `check` knows it: recorded, or the one a hash's new deployment would get. */
  datatype Symbol = Recorded(address: Address) | New(hash: int)

  function CheckMaker(): Maker<Symbol> {
    (hash: int, n: nat) => Rec(None, Some(New(hash)))
  }

  lemma NoneClaimed<A(!new)>(facets: seq<Facet>, recs: seq<Rec<A>>)
    requires |recs| == |facets|
    ensures OwnersTo(facets, recs, 0, map[]) && !ClashTo(facets, recs, 0)
  {
  }

  lemma AllClashes<A>(facets: seq<Facet>, recs: seq<Rec<A>>, n: nat)
    requires |recs| == |facets| && n <= |facets|
    ensures ClashTo(facets, recs, n) ==> Clashes(facets, recs)
    ensures n == |facets| && Clashes(facets, recs) ==> ClashTo(facets, recs, n)
  {
    if ClashTo(facets, recs, n) {
      var i: nat, j: nat, s :| ClashBefore(facets, recs, n, i, j, s);
      assert ClashAt(facets, recs, i, j, s);
    }
    if n == |facets| && Clashes(facets, recs) {
      var i: nat, j: nat, s :| ClashAt(facets, recs, i, j, s);
      assert ClashBefore(facets, recs, n, i, j, s);
    }
  }

  /** The selector plan of `_check_proxy` over the proxies, which goes on after a clash. */
  method PlanCheck(proxies: seq<Proxy<Symbol>>) returns (failures: seq<(string, Selector)>)
    ensures failures != [] <==> AnyClash(proxies, CheckMaker())
  {
    hide Clashes, PlanProxy;
    var run: Run<Symbol>, made: nat := map[], 0;
    failures := [];
    for k := 0 to |proxies|
      invariant Before(proxies, CheckMaker(), k) == Progress(run, made)
      invariant failures != [] <==> exists l: nat :: l < k && ClashesIn(proxies, CheckMaker(), l)
    {
      var found;
      run, made, found := CheckFacets(proxies[k], run, made);
      assert ClashesIn(proxies, CheckMaker(), k) <==> found != [];
      failures := failures + found;
    }
  }

  /** The facets of one proxy: each one's place, and its selectors against those before. */
  method CheckFacets(p: Proxy<Symbol>, run: Run<Symbol>, made: nat)
    returns (next: Run<Symbol>, count: nat, failures: seq<(string, Selector)>)
    ensures Progress(next, count) == PlanProxy(p, Progress(run, made), CheckMaker()).1
    ensures failures != [] <==> Clashes(p.facets, PlanProxy(p, Progress(run, made), CheckMaker()).0)
  {
    hide ExistingDeployment, OwnersTo, ClashTo, Clashes, Claimed, Own;
    ghost var recs := PlanProxy(p, Progress(run, made), CheckMaker()).0;
    next, count, failures := run, made, [];
    var owners: map<Selector, Option<Symbol>> := map[];
    NoneClaimed(p.facets, recs);
    for i := 0 to |p.facets|
      invariant (recs[..i], Progress(next, count)) == PlanTo(p, Progress(run, made), CheckMaker(), i)
      invariant OwnersTo(p.facets, recs, i, owners) && (failures != [] <==> ClashTo(p.facets, recs, i))
    {
      var f := p.facets[i];
      PlanPrefix(p, Progress(run, made), CheckMaker(), i + 1);
      var (existing, registered) := ExistingDeployment(f, p, next);
      next := registered;
      var rec := existing.GetOr(Rec(None, Some(New(f.hash))));
      if existing.None? {
        next, count := Default(next, f.hash, rec), count + 1;
      }
      assert recs[i] == rec && recs[..i + 1] == recs[..i] + [rec];
      ClaimStep(p.facets, recs, i, owners);
      OwnersNext(p.facets, recs, i, owners);
      var found;
      found, owners := CheckClaims(f, rec.address, owners);
      failures := failures + found;
    }
    AllClashes(p.facets, recs, |p.facets|);
    assert recs[..|p.facets|] == recs;
  }

  /** One facet's selectors: each one owned at another address is a failure, and all of them change hands. */
  method CheckClaims<A(==)>(f: Facet, address: Option<A>, owners: map<Selector, Option<A>>)
    returns (found: seq<(string, Selector)>, next: map<Selector, Option<A>>)
    ensures found != [] <==> Claimed(f, address, owners)
    ensures next == Own(f.exports, address, owners)
  {
    next, found := owners, [];
    for m := 0 to |f.exports|
      invariant next == Own(f.exports[..m], address, owners)
      invariant found != [] <==> exists k :: 0 <= k < m && f.exports[k] in owners && owners[f.exports[k]] != address
    {
      var s := f.exports[m];
      OwnMeans(f.exports[..m], address, owners, s);
      assert f.exports[..m + 1][..m] == f.exports[..m];
      if s in next && next[s] != address {
        found := found + [(f.source, s)];
      }
      next := next[s := address];
    }
    assert f.exports[..|f.exports|] == f.exports;
  }

  /** The plan of the first facets is the start of the whole plan. */
  lemma {:induction false} PlanPrefix<A>(p: Proxy<A>, at: Progress<A>, make: Maker<A>, n: nat)
    requires n <= |p.facets|
    ensures PlanTo(p, at, make, n).0 == PlanProxy(p, at, make).0[..n]
    decreases |p.facets| - n
  {
    if n < |p.facets| {
      PlanPrefix(p, at, make, n + 1);
      hide PlanFacet;
      assert PlanTo(p, at, make, n) == (PlanTo(p, at, make, n).0, PlanTo(p, at, make, n).1);
      assert PlanTo(p, at, make, n).0 == PlanTo(p, at, make, n + 1).0[..n];
    }
  }

  // ---------------------------------------------------------------------- the prediction

  function LiftRec(r: Rec<Address>): Rec<Symbol> {
    Rec(r.hash, if r.address.None? then None else Some(Recorded(r.address.value)))
  }

  function LiftRecs(recs: Records<Address>): Records<Symbol> {
    map s | s in recs :: LiftRec(recs[s])
  }

  /** The ledger as `check` reads it. */
  function LiftProxy(p: Proxy<Address>): Proxy<Symbol> {
    Proxy(p.facets, LiftRecs(p.current), LiftRecs(p.proposed))
  }

  function LiftAll(proxies: seq<Proxy<Address>>): (lifted: seq<Proxy<Symbol>>)
    ensures |lifted| == |proxies|
  {
    seq(|proxies|, k requires 0 <= k < |proxies| => LiftProxy(proxies[k]))
  }

  /** A facet whose installed record matches its code but has no address: it is reused all the same. */
  ghost predicate Unbacked<A>(p: Proxy<A>, f: Facet) {
    Installed(p, f) && p.current[f.source].address.None?
  }

  /** None of the first `n` facets is unbacked. */
  ghost predicate Backed<A>(p: Proxy<A>, n: nat)
    requires n <= |p.facets|
  {
    forall i :: 0 <= i < n ==> !Unbacked(p, p.facets[i])
  }

  /** None of the facets of the first `k` proxies is. */
  ghost predicate AllBacked<A>(proxies: seq<Proxy<A>>, k: nat)
    requires k <= |proxies|
  {
    forall l :: 0 <= l < k ==> Backed(proxies[l], |proxies[l].facets|)
  }

  /** No facet up to the `n`th of proxy `k` is. */
  ghost predicate BackedTo<A>(proxies: seq<Proxy<A>>, k: nat, n: nat) {
    k < |proxies| && n <= |proxies[k].facets| && AllBacked(proxies, k) && Backed(proxies[k], n)
  }

  /** All addresses recorded are known. */
  ghost predicate Known(p: Proxy<Address>, known: set<Address>) {
    KnownRecords(p.current, known) && KnownRecords(p.proposed, known)
  }

  ghost predicate KnownRecords(recs: Records<Address>, known: set<Address>) {
    forall s :: s in recs && recs[s].address.Some? ==> recs[s].address.value in known
  }

  /** A facet's record has no address exactly if the facet is unbacked. */
  lemma RecordUnaddressed<A>(f: Facet, p: Proxy<A>, at: Progress<A>, make: Maker<A>)
    requires make(f.hash, at.made).address.Some?
    ensures PlanFacet(f, p, at, make).0.address.None? <==> Unbacked(p, f)
  {
  }

  lemma {:induction false} RecordsUnaddressed(p: Proxy<Address>, at: Progress<Address>, addresses: nat -> Address,
                                              n: nat)
    requires n <= |p.facets|
    ensures forall i :: 0 <= i < n ==>
      (PlanTo(p, at, DeployMaker(addresses), n).0[i].address.None? <==> Unbacked(p, p.facets[i]))
    decreases n
  {
    if n > 0 {
      RecordsUnaddressed(p, at, addresses, n - 1);
      hide PlanFacet, Unbacked;
      var mid := PlanTo(p, at, DeployMaker(addresses), n - 1).1;
      RecordUnaddressed(p.facets[n - 1], p, mid, DeployMaker(addresses));
    }
  }

  /** A contest among a proxy's first facets is a clash of their records. */
  lemma ContestedClash(facets: seq<Facet>, recs: seq<Rec<Address>>, n: nat)
    requires n <= |facets| == |recs|
    ensures Upgrade.Contested(Proposed(facets, recs)[..n]) <==> ClashTo(facets, recs, n)
  {
    var claims := Proposed(facets, recs)[..n];
    forall i: nat, j: nat, s
      ensures ClashBefore(facets, recs, n, i, j, s) <==> i < j < n && Upgrade.ClashOn(claims[i], claims[j], s)
    {
    }
    if Upgrade.Contested(claims) {
      var i, j, s :| 0 <= i < j < |claims| && Upgrade.ClashOn(claims[i], claims[j], s);
      assert ClashBefore(facets, recs, n, i, j, s);
    }
    if ClashTo(facets, recs, n) {
      var i: nat, j: nat, s :| ClashBefore(facets, recs, n, i, j, s);
      assert Upgrade.ClashOn(claims[i], claims[j], s);
    }
  }

  /** The first `n` claims of proxy `k` are recorded exactly if their facets are backed. */
  lemma RecordedBacked(proxies: seq<Proxy<Address>>, addresses: nat -> Address, k: nat, n: nat)
    requires k < |proxies| && n <= |proxies[k].facets|
    ensures Upgrade.AllRecorded(ProposedBy(proxies, addresses, k)[..n]) <==> Backed(proxies[k], n)
  {
    var p := proxies[k];
    RecordsUnaddressed(p, Before(proxies, DeployMaker(addresses), k), addresses, |p.facets|);
    var recs := RecordsOf(proxies, DeployMaker(addresses), k);
    hide Before, PlanTo, Unbacked;
    assert forall i :: 0 <= i < n ==> ProposedBy(proxies, addresses, k)[..n][i].address == recs[i].address;
    assert Upgrade.AllRecorded(ProposedBy(proxies, addresses, k)[..n])
           <==> forall i :: 0 <= i < n ==> recs[i].address.Some?;
  }

  /** The first `limit` addresses a run creates are new, and all different. */
  ghost predicate AllNew(addresses: nat -> Address, known: set<Address>, limit: nat) {
    && (forall n :: 0 <= n < limit ==> addresses(n) !in known)
    && (forall m, n :: 0 <= m < n < limit ==> addresses(m) != addresses(n))
  }

  /** As many deployments as the first `k` proxies have facets. */
  function Facets<A>(proxies: seq<Proxy<A>>, k: nat): nat
    requires k <= |proxies|
  {
    if k == 0 then 0 else Facets(proxies, k - 1) + |proxies[k - 1].facets|
  }

  lemma {:induction false} FacetsGrow<A>(proxies: seq<Proxy<A>>, k: nat, n: nat)
    requires k <= n <= |proxies|
    ensures Facets(proxies, k) <= Facets(proxies, n)
    decreases n
  {
    if k < n {
      FacetsGrow(proxies, k, n - 1);
    }
  }

  /** `check`'s record stands for `deploy`'s. */
  ghost predicate Stands(x: Rec<Symbol>, r: Rec<Address>, d: Run<Address>, known: set<Address>) {
    && x.address.Some? && r.address.Some?
    && match x.address.value
       case Recorded(a) => a == r.address.value && a in known
       case New(h) => h in d && r.address == d[h].address && r.address.value !in known
  }

  /** The two plans have come to the same point. */
  ghost predicate Level(c: Progress<Symbol>, d: Progress<Address>, addresses: nat -> Address, known: set<Address>) {
    && c.made == d.made && c.run.Keys == d.run.Keys
    && (forall h :: h in c.run ==> Stands(c.run[h], d.run[h], d.run, known))
    && (forall h :: h in c.run && c.run[h].address.value.New? ==> c.run[h].address.value.hash == h)
    && (forall h :: h in d.run && d.run[h].address.value !in known ==> c.run[h].address.value.New?)
    && (forall h :: h in d.run && d.run[h].address.value !in known ==>
          exists n: nat :: n < d.made && d.run[h].address.value == addresses(n))
    && (forall g, h ::
          g in d.run && h in d.run && d.run[g].address == d.run[h].address && d.run[g].address.value !in known
          ==> g == h)
  }

  /** Records stay what they are while a run goes on. */
  ghost predicate Later(d: Run<Address>, e: Run<Address>) {
    forall h :: h in d ==> h in e && e[h] == d[h]
  }

  lemma StandsLater(x: Rec<Symbol>, r: Rec<Address>, d: Run<Address>, e: Run<Address>, known: set<Address>)
    requires Stands(x, r, d, known) && Later(d, e)
    ensures Stands(x, r, e, known)
  {
  }

  /** Records that stand for each other are at the same addresses in both plans or in neither. */
  lemma SameAddresses(x: Rec<Symbol>, y: Rec<Symbol>, r: Rec<Address>, q: Rec<Address>, c: Progress<Symbol>,
                      d: Progress<Address>, addresses: nat -> Address, known: set<Address>)
    requires Level(c, d, addresses, known) && Stands(x, r, d.run, known) && Stands(y, q, d.run, known)
    ensures x.address == y.address <==> r.address == q.address
  {
  }

  /** A recorded deployment, registered in both runs. */
  lemma DefaultLevel(hash: int, x: Rec<Symbol>, r: Rec<Address>, c: Progress<Symbol>, d: Progress<Address>,
                     addresses: nat -> Address, known: set<Address>)
    requires Level(c, d, addresses, known) && Stands(x, r, d.run, known) && x.address.value.Recorded?
    ensures var d1 := Progress(Default(d.run, hash, r), d.made);
      && Level(Progress(Default(c.run, hash, x), c.made), d1, addresses, known)
      && Later(d.run, d1.run) && Stands(x, r, d1.run, known)
  {
  }

  /** A new deployment: the placeholder stands for the address it gets. */
  lemma NewLevel(hash: int, c: Progress<Symbol>, d: Progress<Address>, addresses: nat -> Address, known: set<Address>)
    requires AllNew(addresses, known, d.made + 1) && Level(c, d, addresses, known) && hash !in d.run
    ensures var x, r := CheckMaker()(hash, c.made), DeployMaker(addresses)(hash, d.made);
      var d1 := Progress(Default(d.run, hash, r), d.made + 1);
      && Level(Progress(Default(c.run, hash, x), c.made + 1), d1, addresses, known)
      && Later(d.run, d1.run) && Stands(x, r, d1.run, known)
  {
  }

  lemma PlanFacetLevel(f: Facet, p: Proxy<Address>, c: Progress<Symbol>, d: Progress<Address>,
                       addresses: nat -> Address, known: set<Address>)
    requires !Unbacked(p, f) && Known(p, known)
    requires AllNew(addresses, known, d.made + 1) && Level(c, d, addresses, known)
    ensures var (x, c1) := PlanFacet(f, LiftProxy(p), c, CheckMaker());
      var (r, d1) := PlanFacet(f, p, d, DeployMaker(addresses));
      && Level(c1, d1, addresses, known) && Stands(x, r, d1.run, known) && Later(d.run, d1.run)
      && d1.made <= d.made + 1
  {
    assert f.source in p.current ==> LiftRecs(p.current)[f.source] == LiftRec(p.current[f.source]);
    assert f.source in p.proposed ==> LiftRecs(p.proposed)[f.source] == LiftRec(p.proposed[f.source]);
    assert f.hash in d.run ==> Stands(c.run[f.hash], d.run[f.hash], d.run, known);
    hide Default, Level, AllNew, CheckMaker, DeployMaker;
    var (x, _) := ExistingDeployment(f, LiftProxy(p), c.run);
    var (r, _) := ExistingDeployment(f, p, d.run);
    if r.None? {
      SameKeys(c, d, addresses, known);
      NewLevel(f.hash, c, d, addresses, known);
    } else if f.source in p.current && p.current[f.source].hash == Some(f.hash) {
      DefaultLevel(f.hash, x.value, r.value, c, d, addresses, known);
    } else if f.source in p.proposed && p.proposed[f.source].hash == Some(f.hash)
        && p.proposed[f.source].address.Some? {
      DefaultLevel(f.hash, x.value, r.value, c, d, addresses, known);
    }
  }

  lemma SameKeys(c: Progress<Symbol>, d: Progress<Address>, addresses: nat -> Address, known: set<Address>)
    requires Level(c, d, addresses, known)
    ensures c.made == d.made && c.run.Keys == d.run.Keys
    ensures forall h :: h in d.run ==> c.run[h].address.Some? && d.run[h].address.Some?
  {
  }

  lemma FewerNew(addresses: nat -> Address, known: set<Address>, few: nat, many: nat)
    requires AllNew(addresses, known, many) && few <= many
    ensures AllNew(addresses, known, few)
  {
  }

  lemma {:induction false} PlanToLevel(p: Proxy<Address>, c: Progress<Symbol>, d: Progress<Address>,
                                       addresses: nat -> Address, known: set<Address>, n: nat)
    requires n <= |p.facets| && Backed(p, n) && Known(p, known)
    requires AllNew(addresses, known, d.made + n) && Level(c, d, addresses, known)
    ensures var (xs, c1) := PlanTo(LiftProxy(p), c, CheckMaker(), n);
      var (rs, d1) := PlanTo(p, d, DeployMaker(addresses), n);
      && Level(c1, d1, addresses, known) && Later(d.run, d1.run) && d1.made <= d.made + n
      && forall i :: 0 <= i < n ==> Stands(xs[i], rs[i], d1.run, known)
    decreases n
  {
    if n > 0 {
      FewerNew(addresses, known, d.made + n - 1, d.made + n);
      PlanToLevel(p, c, d, addresses, known, n - 1);
      var (xs, c1) := PlanTo(LiftProxy(p), c, CheckMaker(), n - 1);
      var (rs, d1) := PlanTo(p, d, DeployMaker(addresses), n - 1);
      FewerNew(addresses, known, d1.made + 1, d.made + n);
      PlanFacetLevel(p.facets[n - 1], p, c1, d1, addresses, known);
      hide Level, Stands, PlanFacet, Known, AllNew, CheckMaker, DeployMaker, LiftRecs;
      var (r, d2) := PlanFacet(p.facets[n - 1], p, d1, DeployMaker(addresses));
      forall i | 0 <= i < n - 1
        ensures Stands(xs[i], rs[i], d2.run, known)
      {
        StandsLater(xs[i], rs[i], d1.run, d2.run, known);
      }
    }
  }

  lemma {:induction false} BeforeLevel(proxies: seq<Proxy<Address>>, addresses: nat -> Address, known: set<Address>,
                                       k: nat)
    requires k <= |proxies| && AllBacked(proxies, k) && AllNew(addresses, known, Facets(proxies, k))
    requires forall i :: 0 <= i < |proxies| ==> Known(proxies[i], known)
    ensures Level(Before(LiftAll(proxies), CheckMaker(), k), Before(proxies, DeployMaker(addresses), k),
                  addresses, known)
    ensures Before(proxies, DeployMaker(addresses), k).made <= Facets(proxies, k)
    decreases k
  {
    if k > 0 {
      var p, d := proxies[k - 1], Before(proxies, DeployMaker(addresses), k - 1);
      FewerNew(addresses, known, Facets(proxies, k - 1), Facets(proxies, k));
      BeforeLevel(proxies, addresses, known, k - 1);
      FewerNew(addresses, known, d.made + |p.facets|, Facets(proxies, k));
      PlanToLevel(p, Before(LiftAll(proxies), CheckMaker(), k - 1), d, addresses, known, |p.facets|);
    }
  }

  lemma ClashesAlike(facets: seq<Facet>, xs: seq<Rec<Symbol>>, rs: seq<Rec<Address>>, c: Progress<Symbol>,
                     d: Progress<Address>, addresses: nat -> Address, known: set<Address>, n: nat)
    requires |xs| == |rs| == |facets| && n <= |facets| && Level(c, d, addresses, known)
    requires forall i :: 0 <= i < n ==> Stands(xs[i], rs[i], d.run, known)
    ensures ClashTo(facets, xs, n) <==> ClashTo(facets, rs, n)
  {
    hide Level, Stands;
    forall i: nat, j: nat, s
      ensures ClashBefore(facets, xs, n, i, j, s) <==> ClashBefore(facets, rs, n, i, j, s)
    {
      if i < j < n {
        SameAddresses(xs[i], xs[j], rs[i], rs[j], c, d, addresses, known);
      }
    }
  }

  /** As long as no facet is unbacked, the two plans come to the same point. */
  lemma StartLevel(proxies: seq<Proxy<Address>>, addresses: nat -> Address, known: set<Address>, k: nat, n: nat)
    requires BackedTo(proxies, k, n) && AllNew(addresses, known, Facets(proxies, |proxies|))
    requires forall i :: 0 <= i < |proxies| ==> Known(proxies[i], known)
    ensures var c := Before(LiftAll(proxies), CheckMaker(), k);
      var d := Before(proxies, DeployMaker(addresses), k);
      Level(c, d, addresses, known) && AllNew(addresses, known, d.made + n)
  {
    hide Level, Known, AllNew, PlanTo, CheckMaker, DeployMaker, LiftRecs, LiftAll, Backed;
    FacetsGrow(proxies, k + 1, |proxies|);
    FewerNew(addresses, known, Facets(proxies, k), Facets(proxies, |proxies|));
    BeforeLevel(proxies, addresses, known, k);
    FewerNew(addresses, known, Before(proxies, DeployMaker(addresses), k).made + n, Facets(proxies, |proxies|));
  }

  /** From such a point, the first facets of a proxy clash in both plans or in neither. */
  lemma ClashesPredicted(p: Proxy<Address>, c: Progress<Symbol>, d: Progress<Address>, addresses: nat -> Address,
                         known: set<Address>, n: nat)
    requires n <= |p.facets| && Backed(p, n) && Known(p, known)
    requires AllNew(addresses, known, d.made + n) && Level(c, d, addresses, known)
    ensures ClashTo(p.facets, PlanProxy(LiftProxy(p), c, CheckMaker()).0, n)
            <==> ClashTo(p.facets, PlanProxy(p, d, DeployMaker(addresses)).0, n)
  {
    hide Level, Known, AllNew, PlanTo, Stands, CheckMaker, DeployMaker, LiftRecs, ClashTo, Backed;
    PlanToLevel(p, c, d, addresses, known, n);
    PlanPrefix(p, d, DeployMaker(addresses), n);
    PlanPrefix(LiftProxy(p), c, CheckMaker(), n);
    var xs, rs := PlanProxy(LiftProxy(p), c, CheckMaker()).0, PlanProxy(p, d, DeployMaker(addresses)).0;
    var (ys, c1) := PlanTo(LiftProxy(p), c, CheckMaker(), n);
    var (qs, d1) := PlanTo(p, d, DeployMaker(addresses), n);
    assert forall i :: 0 <= i < n ==> xs[i] == ys[i] && rs[i] == qs[i];
    ClashesAlike(p.facets, xs, rs, c1, d1, addresses, known, n);
  }

  lemma ProxyPredicted(proxies: seq<Proxy<Address>>, addresses: nat -> Address, known: set<Address>, k: nat, n: nat)
    requires BackedTo(proxies, k, n) && AllNew(addresses, known, Facets(proxies, |proxies|))
    requires forall i :: 0 <= i < |proxies| ==> Known(proxies[i], known)
    ensures ClashTo(proxies[k].facets, RecordsOf(LiftAll(proxies), CheckMaker(), k), n)
            <==> Upgrade.Contested(ProposedBy(proxies, addresses, k)[..n])
  {
    hide Level, Known, AllNew, PlanProxy, Before, CheckMaker, DeployMaker, ClashTo, Backed, LiftProxy, Facets,
         AllBacked, Upgrade.Contested, Proposed;
    StartLevel(proxies, addresses, known, k, n);
    ClashesPredicted(proxies[k], Before(LiftAll(proxies), CheckMaker(), k), Before(proxies, DeployMaker(addresses), k),
                     addresses, known, n);
    ContestedClash(proxies[k].facets, RecordsOf(proxies, DeployMaker(addresses), k), n);
  }

  /** On placeholders, the first `n` facets of proxy `k` clash, and no facet up to there is unbacked. */
  ghost predicate ClashInTime(proxies: seq<Proxy<Address>>, k: nat, n: nat) {
    BackedTo(proxies, k, n) && ClashTo(proxies[k].facets, RecordsOf(LiftAll(proxies), CheckMaker(), k), n)
  }

  ghost predicate AnyInTime(proxies: seq<Proxy<Address>>) {
    exists k: nat, n: nat :: ClashInTime(proxies, k, n)
  }

  /** A run over proxies that are all backed plans them, up to one that it refuses. */
  lemma {:induction false} PlannedUpTo(proxies: seq<Proxy<Address>>, addresses: nat -> Address, k: nat)
    requires k <= |proxies| && AllBacked(proxies, k)
    ensures AllAccept(proxies, addresses, k) || DeployRefused(proxies, addresses)
    decreases k
  {
    if k > 0 {
      PlannedUpTo(proxies, addresses, k - 1);
      var p, claims := proxies[k - 1], ProposedBy(proxies, addresses, k - 1);
      RecordedBacked(proxies, addresses, k - 1, |p.facets|);
      assert claims[..|p.facets|] == claims && Upgrade.Readable(claims);
      hide ProposedBy, Upgrade.Contested, Upgrade.ContestedFirst, Upgrade.AllRecorded, Backed;
      ContestedRefused(claims);
      if AllAccept(proxies, addresses, k - 1) && !Accepts(claims) {
        assert RefusedAt(proxies, addresses, k - 1);
      }
    }
  }

  /** What happens at the first facets of a proxy, if no facet up to there is unbacked. */
  lemma RefusedThere(proxies: seq<Proxy<Address>>, addresses: nat -> Address, known: set<Address>, k: nat, n: nat)
    requires ClashInTime(proxies, k, n) && AllNew(addresses, known, Facets(proxies, |proxies|))
    requires forall i :: 0 <= i < |proxies| ==> Known(proxies[i], known)
    ensures DeployRefused(proxies, addresses)
  {
    hide AllAccept, AllNew, Known, Backed, Upgrade.AllRecorded, Upgrade.Contested, RecordsOf, ClashTo, Facets;
    ProxyPredicted(proxies, addresses, known, k, n);
    RecordedBacked(proxies, addresses, k, n);
    PlannedUpTo(proxies, addresses, k);
    if AllAccept(proxies, addresses, k) {
      ReadableClaims(proxies, addresses, k, n);
      assert Upgrade.ContestedBy(ProposedBy(proxies, addresses, k), n);
      assert RefusedAt(proxies, addresses, k);
    }
  }

  lemma ReadableClaims(proxies: seq<Proxy<Address>>, addresses: nat -> Address, k: nat, n: nat)
    requires k < |proxies| && n <= |proxies[k].facets|
    ensures Upgrade.Readable(ProposedBy(proxies, addresses, k)[..n])
  {
  }

  /** Proxies that were planned are all backed. */
  lemma AcceptedBacked(proxies: seq<Proxy<Address>>, addresses: nat -> Address, k: nat)
    requires k <= |proxies| && AllAccept(proxies, addresses, k)
    ensures AllBacked(proxies, k)
  {
    forall l: nat | l < k
      ensures Backed(proxies[l], |proxies[l].facets|)
    {
      var claims := ProposedBy(proxies, addresses, l);
      assert Accepts(claims);
      assert claims[..|proxies[l].facets|] == claims;
      RecordedBacked(proxies, addresses, l, |proxies[l].facets|);
    }
  }

  lemma ClashedInTime(proxies: seq<Proxy<Address>>, addresses: nat -> Address, known: set<Address>, k: nat)
    requires RefusedAt(proxies, addresses, k) && AllNew(addresses, known, Facets(proxies, |proxies|))
    requires forall i :: 0 <= i < |proxies| ==> Known(proxies[i], known)
    ensures AnyInTime(proxies)
  {
    AcceptedBacked(proxies, addresses, k);
    hide AllAccept, AllNew, Known, Backed, Upgrade.AllRecorded, Upgrade.Contested, RecordsOf;
    var claims := ProposedBy(proxies, addresses, k);
    var n: nat :| n <= |claims| && Upgrade.ContestedBy(claims, n);
    RecordedBacked(proxies, addresses, k, n);
    ProxyPredicted(proxies, addresses, known, k, n);
    assert ClashInTime(proxies, k, n);
  }

  /**
   `check` predicts `deploy`, when the addresses a run creates are new: the plan is refused exactly if
   the one on placeholders clashes before any facet recorded without an address is reused, and completes
   exactly if no facet is and the one on placeholders does not clash.
   */
  lemma CheckPredictsDeploy(proxies: seq<Proxy<Address>>, addresses: nat -> Address, known: set<Address>)
    requires AllNew(addresses, known, Facets(proxies, |proxies|))
    requires forall i :: 0 <= i < |proxies| ==> Known(proxies[i], known)
    ensures DeployRefused(proxies, addresses) <==> AnyInTime(proxies)
    ensures AllAccept(proxies, addresses, |proxies|)
            <==> AllBacked(proxies, |proxies|) && !AnyClash(LiftAll(proxies), CheckMaker())
  {
    hide AllNew, Known, ClashInTime, RefusedAt;
    if DeployRefused(proxies, addresses) {
      var k: nat :| RefusedAt(proxies, addresses, k);
      ClashedInTime(proxies, addresses, known, k);
    }
    if AnyInTime(proxies) {
      var k: nat, n: nat :| ClashInTime(proxies, k, n);
      RefusedThere(proxies, addresses, known, k, n);
    }
    hide AllAccept, AllBacked, AnyClash;
    if AllAccept(proxies, addresses, |proxies|) {
      AcceptedBacked(proxies, addresses, |proxies|);
    }
    if AllBacked(proxies, |proxies|) {
      BackedPredicted(proxies, addresses, known);
    }
  }

  /** Where no facet is unbacked, a clash in the plan on placeholders is one in time. */
  lemma BackedInTime(proxies: seq<Proxy<Address>>)
    requires AllBacked(proxies, |proxies|)
    ensures AnyClash(LiftAll(proxies), CheckMaker()) ==> AnyInTime(proxies)
  {
    hide RecordsOf, Backed, CheckMaker;
    if AnyClash(LiftAll(proxies), CheckMaker()) {
      var k: nat :| k < |proxies| && ClashesIn(LiftAll(proxies), CheckMaker(), k);
      AllClashes(proxies[k].facets, RecordsOf(LiftAll(proxies), CheckMaker(), k), |proxies[k].facets|);
      assert ClashInTime(proxies, k, |proxies[k].facets|);
    }
  }

  lemma BackedPredicted(proxies: seq<Proxy<Address>>, addresses: nat -> Address, known: set<Address>)
    requires AllBacked(proxies, |proxies|) && AllNew(addresses, known, Facets(proxies, |proxies|))
    requires forall i :: 0 <= i < |proxies| ==> Known(proxies[i], known)
    ensures AllAccept(proxies, addresses, |proxies|) <==> !AnyClash(LiftAll(proxies), CheckMaker())
  {
    hide AllNew, Known, Backed, RecordsOf, CheckMaker, Upgrade.Contested, Upgrade.AllRecorded, ProposedBy, Clashes,
        ClashTo;
    forall k: nat | k < |proxies|
      ensures Accepts(ProposedBy(proxies, addresses, k)) <==> !ClashesIn(LiftAll(proxies), CheckMaker(), k)
    {
      BackedThere(proxies, addresses, known, k);
    }
  }

  lemma BackedThere(proxies: seq<Proxy<Address>>, addresses: nat -> Address, known: set<Address>, k: nat)
    requires k < |proxies| && AllBacked(proxies, |proxies|) && AllNew(addresses, known, Facets(proxies, |proxies|))
    requires forall i :: 0 <= i < |proxies| ==> Known(proxies[i], known)
    ensures Accepts(ProposedBy(proxies, addresses, k)) <==> !ClashesIn(LiftAll(proxies), CheckMaker(), k)
  {
    hide AllNew, Known, Backed, RecordsOf, CheckMaker, Upgrade.Contested, Upgrade.AllRecorded, Clashes, ClashTo;
    var n, claims := |proxies[k].facets|, ProposedBy(proxies, addresses, k);
    assert claims[..n] == claims;
    RecordedBacked(proxies, addresses, k, n);
    ProxyPredicted(proxies, addresses, known, k, n);
    AllClashes(proxies[k].facets, RecordsOf(LiftAll(proxies), CheckMaker(), k), n);
  }

  /**
   Both, run on one ledger. If `check` reports no clash, `deploy` crashes exactly if some facet is reused
   whose record has no address, and is not refused; if there is no such facet, it is refused exactly if
   `check` reports a clash.
   */
  method PredictAndDeploy(proxies: seq<Proxy<Address>>, addresses: nat -> Address, ghost known: set<Address>)
    returns (failures: seq<(string, Selector)>, outcome: Outcome)
    requires AllNew(addresses, known, Facets(proxies, |proxies|))
    requires forall i :: 0 <= i < |proxies| ==> Known(proxies[i], known)
    ensures outcome.Refused? <==> AnyInTime(proxies)
    ensures failures == [] ==> outcome == if AllBacked(proxies, |proxies|) then Planned else Crashed
    ensures AllBacked(proxies, |proxies|) ==> outcome == if failures == [] then Planned else Refused
  {
    hide AllBacked, AnyClash, AllAccept, DeployRefused, DeployCrashes, AnyInTime, Known, AllNew, LiftAll, CheckMaker;
    CheckPredictsDeploy(proxies, addresses, known);
    failures := PlanCheck(LiftAll(proxies));
    var plans;
    outcome, plans := PlanDeploy(proxies, addresses);
    if AllBacked(proxies, |proxies|) {
      BackedInTime(proxies);
    }
    InTimeClashes(proxies);
  }

  /** A clash in time is one that `check` reports. */
  lemma InTimeClashes(proxies: seq<Proxy<Address>>)
    ensures AnyInTime(proxies) ==> AnyClash(LiftAll(proxies), CheckMaker())
  {
    hide RecordsOf, Backed, CheckMaker, Clashes;
    if AnyInTime(proxies) {
      var k: nat, n: nat :| ClashInTime(proxies, k, n);
      AllClashes(proxies[k].facets, RecordsOf(LiftAll(proxies), CheckMaker(), k), n);
      assert ClashesIn(LiftAll(proxies), CheckMaker(), k);
    }
  }

  const UNADDRESSED: Proxy<Address> :=
    Proxy([Facet("a.sol:A", 7, [0x01020304])], map["a.sol:A" := Rec(Some(7), None)], map[])

  /** `check` passes a ledger with such a facet, and `deploy` crashes on it. */
  lemma {:induction false} UnaddressedCrashes(addresses: nat -> Address)
    ensures !AnyClash(LiftAll([UNADDRESSED]), CheckMaker())
    ensures DeployCrashes([UNADDRESSED], addresses)
  {
    var proxies := [UNADDRESSED];
    assert !ClashesIn(LiftAll(proxies), CheckMaker(), 0);
    RecordedBacked(proxies, addresses, 0, 1);
    var claims := ProposedBy(proxies, addresses, 0);
    assert Unbacked(proxies[0], proxies[0].facets[0]) && claims[..1] == claims;
    assert !Upgrade.AllRecorded(claims[..1]);
    forall n | 0 <= n <= |claims|
      ensures !Upgrade.ContestedBy(claims, n)
    {
      assert |claims[..n]| <= 1;
    }
    assert CrashesAt(proxies, addresses, 0);
  }
}
