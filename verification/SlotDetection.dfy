/**
 Slot detection (src/josuke/storage.py, `ProxyStorage.fetch`): a worklist that points each slot a
 dispatch reads at a stub delegate, learning the proxy's storage only as far as it must.

 The proxy is a program per selector, and the node answers with its real storage.
 */
module SlotDetection {
  import opened Bytes
  import opened Dispatch
  import opened Evm
  import opened Sorting
  import opened Wrappers

  /** How the proxy dispatches, what it really stores, and the gas of one call (a fixed amount in the source). */
  datatype Proxy = Proxy(dispatch: Selector -> Program, storage: map<Word, Word>, gas: nat)

  function Test(proxy: Proxy, s: Selector, known: map<Word, Word>, key: Word): Trail {
    Traced(proxy.dispatch(s), [], known[key := ROUTED], proxy.gas)
  }

  function RealTrail(proxy: Proxy, s: Selector): Trail {
    Traced(proxy.dispatch(s), [], proxy.storage, proxy.gas)
  }

  /** The real dispatch reads `key`, and with the stub there it hands off to the stub. */
  ghost predicate Routes(proxy: Proxy, s: Selector, key: Word) {
    Mentions(RealTrail(proxy, s).events, key) && Reaches(Test(proxy, s, proxy.storage, key))
  }

  /** Some part of the real storage on which the test of `key` runs out of gas. */
  ghost predicate RanOut(proxy: Proxy, s: Selector, key: Word) {
    exists known :: Real(proxy, known) && Test(proxy, s, known, key).exhausted
  }

  ghost predicate Real(proxy: Proxy, known: map<Word, Word>) {
    PartOf(known, proxy.storage)
  }

  /** The selector's dispatch on the real storage is over once it hands off to the stub. */
  ghost predicate HandoffsEnd(proxy: Proxy, s: Selector) {
    Terminal(proxy.dispatch(s), proxy.storage, proxy.gas)
  }

  /** Why a slot was given up for a selector. */
  ghost predicate Refuted(proxy: Proxy, s: Selector, key: Word) {
    !Reaches(Test(proxy, s, proxy.storage, key)) || RanOut(proxy, s, key)
  }

  /** Why a slot was given up for every selector. */
  ghost predicate RoutesTwo(proxy: Proxy, probed: seq<Selector>, key: Word) {
    exists s, t :: s in probed && t in probed && s != t && Routes(proxy, s, key) && Routes(proxy, t, key)
  }

  /** No slot the real dispatch reads is known to route the selector alone. */
  ghost predicate NoRoute(proxy: Proxy, probed: seq<Selector>, s: Selector) {
    forall key :: Mentions(RealTrail(proxy, s).events, key) ==> RoutesTwo(proxy, probed, key) || Refuted(proxy, s, key)
  }

  // --------------------------------------------------- a test under partial knowledge

  ghost predicate KnownBefore(slots: seq<Word>, j: nat, known: map<Word, Word>)
    requires j <= |slots|
  {
    forall i :: 0 <= i < j ==> slots[i] in known
  }

  /**
   A test of a slot, on partly known storage, is the test on the real storage: everything read
   before the slot is known, and so is everything that steers the dispatch after it.
   */
  lemma {:induction false} TestIsReal(proxy: Proxy, s: Selector, known: map<Word, Word>, j: nat)
    requires HandoffsEnd(proxy, s) && Real(proxy, known)
    requires var slots := SlotsRead(Traced(proxy.dispatch(s), [], known, proxy.gas).events);
      && j < |slots| && KnownBefore(slots, j, known)
      && Steering(Test(proxy, s, known, slots[j]).events, slots[j]) <= known.Keys + {slots[j]}
    ensures var key := SlotsRead(Traced(proxy.dispatch(s), [], known, proxy.gas).events)[j];
      && SameEnd(Test(proxy, s, known, key), Test(proxy, s, proxy.storage, key))
      && Mentions(RealTrail(proxy, s).events, key)
  {
    var p := proxy.dispatch(s);
    var events := Traced(p, [], known, proxy.gas).events;
    var slots := SlotsRead(events);
    var key := slots[j];
    hide Traced, SlotsRead, Steering, Before, Mentions;
    BeforeInList(events, j);
    assert Before(events, key) <= known.Keys;
    SlotsReadMembers(events, key);
    AgreeBefore(p, [], key, known, proxy.storage, proxy.gas);
    BeforeNotKey(events, key);
    AgreeBefore(p, [], key, known, known[key := ROUTED], proxy.gas);
    assert SettledTest(p, key, known, proxy.gas);
    SettledTellsTruth(p, key, known, proxy.storage, proxy.gas);
  }

  lemma {:induction false} BeforeNotKey(events: seq<Event>, key: Word)
    ensures key !in Before(events, key)
    decreases |events|
  {
    if events != [] {
      BeforeNotKey(events[1..], key);
    }
  }

  /** A walk past every slot, all of them known, was of the real dispatch. */
  lemma {:induction false} WalkIsReal(proxy: Proxy, s: Selector, known: map<Word, Word>)
    requires Real(proxy, known)
    requires var slots := SlotsRead(Traced(proxy.dispatch(s), [], known, proxy.gas).events);
      KnownBefore(slots, |slots|, known)
    ensures Traced(proxy.dispatch(s), [], known, proxy.gas) == RealTrail(proxy, s)
  {
    var p := proxy.dispatch(s);
    var events := Traced(p, [], known, proxy.gas).events;
    forall x: Word | Mentions(events, x)
      ensures Sload(known, x) == Sload(proxy.storage, x)
    {
      SlotsReadMembers(events, x);
      var i :| 0 <= i < |SlotsRead(events)| && SlotsRead(events)[i] == x;
    }
    SameTrail(p, [], known, proxy.storage, proxy.gas);
  }

  // ------------------------------------------------------------------- the search

  predicate Distinct<T(==)>(xs: seq<T>) {
    forall i, j :: 0 <= i < j < |xs| ==> xs[i] != xs[j]
  }

  /** What `fetch` keeps while it searches. */
  class Search {
    const proxy: Proxy
    const probed: seq<Selector>
    var known: map<Word, Word>              // words of the real storage
    var shared: set<Word>                   // ruled out for all selectors
    var claims: map<Word, Selector>         // the inverse of `found`
    var found: map<Selector, Word>
    var failed: set<(Selector, Word)>       // ruled out for one selector
    var queue: seq<Selector>                // still to be walked in this round
    var waiting: seq<Selector>              // to be walked again once `needs` is known
    var needs: set<Word>

    constructor (proxy: Proxy, probed: seq<Selector>)
      requires Distinct(probed)
      ensures this.proxy == proxy && this.probed == probed && known == map[] && shared == {}
      ensures queue == probed && waiting == [] && needs == {}
      ensures Valid({})
    {
      this.proxy, this.probed := proxy, probed;
      known, shared, claims, found, failed := map[], {}, map[], map[], {};
      queue, waiting, needs := probed, [], {};
    }

    /** `claims` and `found` are inverse, so found slots are distinct. */
    ghost predicate Inverse()
      reads this
    {
      && (forall s :: s in found ==> found[s] in claims && claims[found[s]] == s)
      && (forall k :: k in claims ==> claims[k] in found && found[claims[k]] == k)
    }

    /** Nothing is queued or waiting twice, or already found. */
    ghost predicate Queued(hand: set<Selector>)
      reads this
    {
      && Distinct(queue + waiting)
      && (forall s :: s in queue + waiting ==> s in probed && s !in found && s !in hand)
      && (forall s :: s in hand ==> s in probed && s !in found)
      && (forall s :: s in found ==> s in probed)
    }

    /** What the sets mean for the real storage. */
    ghost predicate Justified()
      reads this
    {
      && Real(proxy, known)
      && (forall s :: s in found ==> Routes(proxy, s, found[s]))
      && (forall k :: k in shared ==> RoutesTwo(proxy, probed, k))
      && (forall s, k :: (s, k) in failed ==> Refuted(proxy, s, k))
    }

    /** Every probed selector is accounted for: found, still to be walked, or without a route. */
    ghost predicate Accounted(hand: set<Selector>)
      reads this
    {
      forall s :: s in probed ==>
        s in found || s in queue || s in waiting || s in hand || NoRoute(proxy, probed, s)
    }

    /** The invariant, with the selectors of `hand` taken off the queue. */
    ghost predicate Valid(hand: set<Selector>)
      reads this
    {
      && Inverse() && Queued(hand) && Justified() && Accounted(hand)
      && shared !! claims.Keys
      && needs !! known.Keys
      && (waiting != [] ==> needs != {})
    }

    ghost predicate Terminates()
    {
      forall s :: s in probed ==> HandoffsEnd(proxy, s)
    }

    /** The slots of the proxy's storage the selector's dispatch reads, on what is known. */
    function Slots(s: Selector): seq<Word>
      reads this
    {
      SlotsRead(Traced(proxy.dispatch(s), [], known, proxy.gas).events)
    }

    /** Each slot so far is known, and routes two selectors or was refuted for this one. */
    ghost predicate Passed(selector: Selector, slots: seq<Word>, i: nat)
      requires i <= |slots|
      reads this
    {
      && KnownBefore(slots, i, known)
      && forall j :: 0 <= j < i ==> GivenUp(selector, slots[j])
    }

    predicate GivenUp(selector: Selector, key: Word)
      reads this
    {
      key in shared || (selector, key) in failed
    }

    /** One selector's walk of its slots, taking the first that routes it, and leaving `known` as it is. */
    method Walk(selector: Selector)
      requires Valid({selector}) && Terminates() && selector in probed
      modifies this`shared, this`claims, this`found, this`failed, this`queue, this`waiting, this`needs
      ensures Valid({})
      ensures old(shared) <= shared
      ensures shared == old(shared) ==> queue == old(queue)
    {
      hide Inverse, Queued, Justified, Accounted, SlotsRead, Traced;
      var slots := Slots(selector);
      var i := 0;
      while i < |slots|
        invariant 0 <= i <= |slots|
        invariant Valid({selector}) && Passed(selector, slots, i)
        invariant old(shared) <= shared
        invariant shared == old(shared) ==> queue == old(queue)
      {
        var key := slots[i];
        if !GivenUp(selector, key) {
          var stop := Try(selector, i);
          if stop {
            return;
          }
        }
        if key !in known {
          Wait(selector, {key});
          return;
        }
        i := i + 1;
      }
      GiveUp(selector);
    }

    /** Point the `i`th slot at the stub: the walk stops if that routes the selector, or cannot be told yet. */
    method Try(selector: Selector, i: nat) returns (stop: bool)
      requires Valid({selector}) && Terminates() && selector in probed
      requires i < |Slots(selector)| && Passed(selector, Slots(selector), i)
      requires !GivenUp(selector, Slots(selector)[i])
      modifies this`shared, this`claims, this`found, this`failed, this`queue, this`waiting, this`needs
      ensures Valid(if stop then {} else {selector})
      ensures !stop ==> GivenUp(selector, Slots(selector)[i])
      ensures old(shared) <= shared && old(failed) <= failed
      ensures shared == old(shared) ==> queue == old(queue)
    {
      hide Inverse, Queued, Accounted, SlotsRead, Traced, Routes, Refuted, Steering;
      var key := Slots(selector)[i];
      var test := Test(proxy, selector, known, key);
      var steering := SteeredBy(test.events, key);
      var unknown := if test.exhausted then {} else steering - known.Keys - {key};
      if unknown != {} {
        Wait(selector, unknown);
        return true;
      }
      Judge(selector, i);
      if Reaches(test) {
        if key !in claims {
          Claim(selector, key);
          return true;
        }
        Revoke(selector, key);
      } else {
        Fail(selector, key);
      }
      return false;
    }

    /** What a test with nothing unknown says of the real storage. */
    lemma Judge(selector: Selector, i: nat)
      requires Real(proxy, known) && HandoffsEnd(proxy, selector)
      requires i < |Slots(selector)| && KnownBefore(Slots(selector), i, known)
      requires var key := Slots(selector)[i];
        var test := Test(proxy, selector, known, key);
        test.exhausted || Steering(test.events, key) - known.Keys - {key} == {}
      ensures var key := Slots(selector)[i];
        if Reaches(Test(proxy, selector, known, key)) then Routes(proxy, selector, key)
        else Refuted(proxy, selector, key)
    {
      var key := Slots(selector)[i];
      var test := Test(proxy, selector, known, key);
      hide SlotsRead, Traced, Steering;
      if !test.exhausted {
        var steering := Steering(test.events, key);
        assert steering <= known.Keys + {key} by {
          forall x | x in steering
            ensures x in known.Keys + {key}
          {
            assert x !in steering - known.Keys - {key};
          }
        }
        TestIsReal(proxy, selector, known, i);
      }
    }

    /** The walk stops until `slots` are fetched. */
    method Wait(selector: Selector, slots: set<Word>)
      requires Valid({selector}) && selector in probed && slots != {} && slots !! known.Keys
      modifies this`waiting, this`needs
      ensures Valid({})
    {
      needs := needs + slots;
      waiting := waiting + [selector];
      assert Distinct(queue + waiting) by {
        assert queue + waiting == (queue + old(waiting)) + [selector];
      }
      assert forall s :: s in queue + waiting <==> s in queue + old(waiting) || s == selector;
    }

    method Claim(selector: Selector, key: Word)
      requires Valid({selector}) && selector in probed && key !in claims && key !in shared
      requires Routes(proxy, selector, key)
      modifies this`claims, this`found
      ensures Valid({})
      ensures claims == old(claims)[key := selector] && found == old(found)[selector := key]
    {
      claims := claims[key := selector];
      found := found[selector := key];
    }

    /** A slot that routes two selectors is no one's, and its claimant is walked again. */
    method Revoke(selector: Selector, key: Word)
      requires Valid({selector}) && selector in probed && key in claims
      requires Routes(proxy, selector, key)
      modifies this`claims, this`shared, this`found, this`queue
      ensures Valid({selector})
      ensures shared == old(shared) + {key} && key !in old(shared)
      ensures claims == old(claims) - {key} && found == old(found) - {old(claims)[key]}
      ensures queue == old(queue) + [old(claims)[key]]
    {
      var other := claims[key];
      claims := claims - {key};
      shared := shared + {key};
      found := found - {other};
      queue := queue + [other];
      assert RoutesTwo(proxy, probed, key) by {
        assert Routes(proxy, other, key);
      }
      assert Distinct(queue + waiting) by {
        DistinctInsert(old(queue), waiting, other);
      }
      assert forall s :: s in queue + waiting <==> s in old(queue) + waiting || s == other;
    }

    method Fail(selector: Selector, key: Word)
      requires Valid({selector}) && Refuted(proxy, selector, key)
      modifies this`failed
      ensures Valid({selector})
      ensures failed == old(failed) + {(selector, key)}
    {
      failed := failed + {(selector, key)};
    }

    /** Every slot was known and none routed: the selector is dropped. */
    ghost method GiveUp(selector: Selector)
      requires Valid({selector})
      requires var slots := Slots(selector);
        Passed(selector, slots, |slots|)
      ensures Valid({})
    {
      WalkIsReal(proxy, selector, known);
      var events := RealTrail(proxy, selector).events;
      forall key | Mentions(events, key)
        ensures RoutesTwo(proxy, probed, key) || Refuted(proxy, selector, key)
      {
        SlotsReadMembers(events, key);
      }
    }

    /** The inner loop: walk queued selectors, last first, until none is left. */
    method Drain()
      requires Valid({}) && Terminates()
      modifies this`shared, this`claims, this`found, this`failed, this`queue, this`waiting, this`needs
      ensures Valid({}) && queue == []
    {
      hide Valid, Terminates;
      SubsetSize(shared, WORD_LIMIT);
      while queue != []
        invariant Valid({}) && |shared| <= WORD_LIMIT
        decreases WORD_LIMIT - |shared|, |queue|
      {
        ghost var routed := shared;
        WalkNext();
        SubsetSize(shared, WORD_LIMIT);
        if shared != routed {
          GrowsSize(routed, shared);
        }
      }
    }

    /** Either another slot turns out to be shared, or the queue is one shorter. */
    method WalkNext()
      requires Valid({}) && Terminates() && queue != []
      modifies this`shared, this`claims, this`found, this`failed, this`queue, this`waiting, this`needs
      ensures Valid({}) && old(shared) <= shared
      ensures shared == old(shared) ==> |queue| == |old(queue)| - 1
    {
      hide Terminates, RoutesTwo, NoRoute, Routes, Refuted;
      var selector := queue[|queue| - 1];
      queue := queue[..|queue| - 1];
      assert old(queue) == queue + [selector];
      DistinctTake(queue, waiting, selector);
      assert forall s :: s in old(queue) + waiting <==> s in queue + waiting || s == selector;
      assert Queued({selector});
      Walk(selector);
    }

    /** The outer loop: fetch what the waiting selectors need, and walk them again, until none waits. */
    method Detect()
      requires Valid({}) && Terminates() && waiting == [] && needs == {}
      modifies this
      ensures Valid({}) && queue == [] && waiting == []
    {
      hide Valid, Terminates;
      SubsetSize(known.Keys, WORD_LIMIT);
      while queue != []
        invariant Valid({}) && waiting == [] && needs == {} && |known.Keys| <= WORD_LIMIT
        decreases WORD_LIMIT - |known.Keys|, |queue|
      {
        ghost var before := known.Keys;
        Round();
        SubsetSize(known.Keys, WORD_LIMIT);
        if known.Keys != before {
          GrowsSize(before, known.Keys);
        }
      }
    }

    /** Walk every pending selector; those left waiting are pending next, with more of the storage known. */
    method Round()
      requires Valid({}) && Terminates() && waiting == [] && needs == {}
      modifies this
      ensures Valid({}) && waiting == [] && needs == {}
      ensures old(known.Keys) <= known.Keys && (known.Keys == old(known.Keys) ==> queue == [])
    {
      hide Inverse, Justified, NoRoute, Accounted, Terminates;
      Drain();
      var pending := Unfound(Dedup(waiting), found);
      PendingIsWaiting();
      assert waiting != [] ==> exists k :: k in needs && k !in known.Keys;
      Learn(needs);
      Requeue(pending);
    }

    /** Every waiting selector is pending: none waits twice, or was found after all. */
    lemma PendingIsWaiting()
      requires Queued({}) && queue == []
      ensures Unfound(Dedup(waiting), found) == waiting
    {
      assert queue + waiting == waiting;
      DedupDistinct(waiting);
      AllUnfound(waiting, found);
    }

    /** `known.update(relay.storage_at(proxy, slots))` */
    method Learn(slots: set<Word>)
      requires Valid({})
      modifies this`known, this`needs
      ensures known.Keys == old(known.Keys) + slots
      ensures Inverse() && Queued({}) && Justified() && Accounted({}) && shared !! claims.Keys
      ensures needs == {}
    {
      known := known + map k | k in slots :: Sload(proxy.storage, k);
      needs := {};
    }

    method Requeue(pending: seq<Selector>)
      requires Inverse() && Queued({}) && Justified() && Accounted({}) && shared !! claims.Keys
      requires queue == [] && pending == waiting && needs == {}
      modifies this`queue, this`waiting
      ensures Valid({}) && queue == pending && waiting == []
    {
      assert queue + waiting == waiting == pending + [];
      queue, waiting := pending, [];
    }
  }

  lemma DistinctTake<T>(a: seq<T>, b: seq<T>, x: T)
    requires Distinct(a + [x] + b)
    ensures Distinct(a + b) && x !in a + b
  {
    var old', new' := a + [x] + b, a + b;
    assert old'[|a|] == x;
    forall i | 0 <= i < |new'|
      ensures new'[i] == old'[if i < |a| then i else i + 1]
    {
    }
  }

  lemma GrowsSize<T>(a: set<T>, b: set<T>)
    requires a < b
    ensures |a| < |b|
  {
    var x :| x in b && x !in a;
    assert |b| == |b - a| + |a| by {
      assert b == (b - a) + a;
    }
    assert x in b - a;
  }

  // ------------------------------------------------------------ lists without repeats

  /** `list(dict.fromkeys(xs))` */
  function Dedup<T(==)>(xs: seq<T>): seq<T> {
    if xs == [] then [] else
    var front := Dedup(xs[..|xs| - 1]);
    if xs[|xs| - 1] in front then front else front + [xs[|xs| - 1]]
  }

  lemma {:induction false} DedupProperties<T>(xs: seq<T>)
    ensures Distinct(Dedup(xs))
    ensures forall x :: x in Dedup(xs) <==> x in xs
    decreases |xs|
  {
    if xs != [] {
      DedupProperties(xs[..|xs| - 1]);
    }
  }

  lemma {:induction false} DedupDistinct<T>(xs: seq<T>)
    requires Distinct(xs)
    ensures Dedup(xs) == xs
    decreases |xs|
  {
    if xs != [] {
      DedupDistinct(xs[..|xs| - 1]);
    }
  }

  function Unfound(xs: seq<Selector>, found: map<Selector, Word>): seq<Selector> {
    if xs == [] then [] else (if xs[0] in found then [] else [xs[0]]) + Unfound(xs[1..], found)
  }

  lemma {:induction false} AllUnfound(xs: seq<Selector>, found: map<Selector, Word>)
    requires forall x :: x in xs ==> x !in found
    ensures Unfound(xs, found) == xs
    decreases |xs|
  {
    if xs != [] {
      assert xs[0] in xs;
      AllUnfound(xs[1..], found);
    }
  }

  const DUMMIES: seq<Selector> := [0xffffffff, 0xfffffffe]

  function NotIn(xs: seq<Selector>, wanted: seq<Selector>): seq<Selector> {
    if xs == [] then [] else (if xs[0] in wanted then [] else [xs[0]]) + NotIn(xs[1..], wanted)
  }

  /** What is tested: the wanted selectors, and as many of the dummies as it takes to make two. */
  function Probed(selectors: seq<Selector>): seq<Selector> {
    var wanted := Dedup(selectors);
    var dummies := NotIn(DUMMIES, wanted);
    var n := if |wanted| >= 2 then 0 else 2 - |wanted|;
    wanted + dummies[..if n <= |dummies| then n else |dummies|]
  }

  lemma {:induction false} ProbedProperties(selectors: seq<Selector>)
    ensures Distinct(Probed(selectors)) && |Probed(selectors)| >= 2
    ensures forall s :: s in selectors ==> s in Probed(selectors)
  {
    var wanted := Dedup(selectors);
    DedupProperties(selectors);
    assert DUMMIES[1..] == [0xfffffffe] && DUMMIES[1..][1..] == [];
    assert NotIn(DUMMIES[1..], wanted) == if 0xfffffffe in wanted then [] else [0xfffffffe];
    assert forall s :: s in wanted ==> s in Probed(selectors);
    if |wanted| == 1 && DUMMIES[0] in wanted {
      assert wanted == [DUMMIES[0]];
    }
  }

  lemma DistinctInsert<T>(a: seq<T>, b: seq<T>, x: T)
    requires Distinct(a + b) && x !in a + b
    ensures Distinct(a + [x] + b)
  {
    var old', new' := a + b, a + [x] + b;
    forall i, j | 0 <= i < j < |new'|
      ensures new'[i] != new'[j]
    {
      var i', j' := if i < |a| then i else i - 1, if j < |a| then j else j - 1;
      assert i != |a| ==> new'[i] == old'[i'] && new'[i] in old';
      assert j != |a| ==> new'[j] == old'[j'] && new'[j] in old';
    }
  }

  // -------------------------------------------------------------- the proxy's storage

  class ProxyStorage {
    var storageKeys: map<Selector, Word>
    var storageValues: map<Selector, Word>

    constructor ()
      ensures storageKeys == map[] && storageValues == map[]
    {
      storageKeys, storageValues := map[], map[];
    }

    /**
     Find the slot routing each selector. On success each slot is one the selector's real dispatch
     reads, and pointing it at a stub in the real storage hands the call off to the stub; no two
     selectors share one, and the values recorded are the real ones. On failure, every slot the
     named selector's real dispatch reads either routes two of the probed selectors, or does not
     route it, or ran out of gas when tried. Other selectors' records stay as they were.
     */
    method Fetch(selectors: seq<Selector>, proxy: Proxy) returns (r: Result<(), Selector>)
      requires forall s :: s in Probed(selectors) ==> HandoffsEnd(proxy, s)
      modifies this
      ensures r.Success? ==> Detected(proxy, selectors, storageKeys, storageValues)
      ensures r.Failure? ==> r.error in selectors && NoRoute(proxy, Probed(selectors), r.error)
      ensures r.Failure? ==> StopsAt(proxy, Dedup(selectors), r.error)
      ensures SameOutside(storageKeys, old(storageKeys), selectors)
      ensures SameOutside(storageValues, old(storageValues), selectors)
    {
      var wanted := Dedup(selectors);
      DedupProperties(selectors);
      ProbedProperties(selectors);
      var search := new Search(proxy, Probed(selectors));
      search.Detect();
      var values := (set s | s in wanted && s in search.found :: search.found[s]) - search.known.Keys;
      search.Learn(values);
      r := Record(wanted, search);
    }

    /** Copy the found slots and their values, up to the first selector without one. */
    method Record(wanted: seq<Selector>, search: Search) returns (r: Result<(), Selector>)
      requires search.Inverse() && search.Justified() && search.Accounted({}) && search.queue == []
      requires search.waiting == []
      requires forall s :: s in wanted ==> s in search.probed
      requires forall s :: s in wanted && s in search.found ==> search.found[s] in search.known
      modifies this
      ensures r.Success? ==> Detected(search.proxy, wanted, storageKeys, storageValues)
      ensures r.Failure? ==> r.error in wanted && NoRoute(search.proxy, search.probed, r.error)
      ensures r.Failure? ==> StopsAt(search.proxy, wanted, r.error)
      ensures SameOutside(storageKeys, old(storageKeys), wanted)
      ensures SameOutside(storageValues, old(storageValues), wanted)
    {
      hide Routes, NoRoute, RoutesTwo, Refuted, SameOutside;
      var found, known := search.found, search.known;
      SameOutsideItself(storageKeys, wanted);
      SameOutsideItself(storageValues, wanted);
      for i := 0 to |wanted|
        invariant forall j :: 0 <= j < i ==> Copied(wanted[j], found, known)
        invariant SameOutside(storageKeys, old(storageKeys), wanted)
        invariant SameOutside(storageValues, old(storageValues), wanted)
      {
        var s := wanted[i];
        assert s in wanted;
        if s !in found {
          CopiedDetected(search, wanted[..i]);
          assert wanted[i] == s;
          return Failure(s);
        }
        SameOutsideUpdate(storageKeys, old(storageKeys), wanted, s, found[s]);
        SameOutsideUpdate(storageValues, old(storageValues), wanted, s, known[found[s]]);
        storageKeys := storageKeys[s := found[s]];
        storageValues := storageValues[s := known[found[s]]];
      }
      assert forall s :: s in wanted ==> Copied(s, found, known);
      return Success(());
    }

    /** The selectors before the one named, in order, are recorded. */
    ghost predicate StopsAt(proxy: Proxy, wanted: seq<Selector>, failed: Selector)
      reads this
    {
      exists i :: 0 <= i < |wanted| && wanted[i] == failed && Detected(proxy, wanted[..i], storageKeys, storageValues)
    }

    lemma CopiedDetected(search: Search, done: seq<Selector>)
      requires search.Inverse() && search.Justified()
      requires forall j :: 0 <= j < |done| ==> Copied(done[j], search.found, search.known)
      ensures Detected(search.proxy, done, storageKeys, storageValues)
    {
      hide Routes;
      assert forall s :: s in done ==> Copied(s, search.found, search.known);
    }

    ghost predicate Copied(s: Selector, found: map<Selector, Word>, known: map<Word, Word>)
      reads this
    {
      && s in found && found[s] in known
      && s in storageKeys && storageKeys[s] == found[s]
      && s in storageValues && storageValues[s] == known[found[s]]
    }
  }

  lemma SameOutsideItself(a: map<Selector, Word>, selectors: seq<Selector>)
    ensures SameOutside(a, a, selectors)
  {
  }

  lemma SameOutsideUpdate(a: map<Selector, Word>, b: map<Selector, Word>, selectors: seq<Selector>, s: Selector,
                          w: Word)
    requires SameOutside(a, b, selectors) && s in selectors
    ensures SameOutside(a[s := w], b, selectors)
  {
  }

  /** Each selector has a slot of its own that routes it, with its real value. */
  ghost predicate Detected(proxy: Proxy, selectors: seq<Selector>, keys: map<Selector, Word>,
                           values: map<Selector, Word>) {
    && (forall s :: s in selectors ==>
          && s in keys && Routes(proxy, s, keys[s])
          && s in values && values[s] == Sload(proxy.storage, keys[s]))
    && (forall s, t :: s in selectors && t in selectors && s != t ==> keys[s] != keys[t])
  }

  ghost predicate SameOutside(a: map<Selector, Word>, b: map<Selector, Word>, selectors: seq<Selector>) {
    forall s :: s !in selectors ==> (s in a <==> s in b) && (s in a ==> a[s] == b[s])
  }
}
