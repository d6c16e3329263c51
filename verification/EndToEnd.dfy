/**
 From slot detection to a landed upgrade (src/josuke/deploy.py, `build_migration`; src/josuke/storage.py,
 `fetch`): what detection finds is what planning relies on, and what detection itself relies on.
 */
module EndToEnd {
  import opened Bytes
  import opened Dispatch
  import opened Evm
  import opened Migration
  import opened MigrationRun
  import opened Upgrade
  import opened Wrappers
  import SlotDetection
  import UpgradeProofs

  /** Each detected slot routes one selector, so the slots the planner writes are apart and their values real. */
  lemma {:induction false} DetectionFeedsPlanning(proxy: SlotDetection.Proxy, selectors: seq<Selector>, slots: Slots,
                                                  wanted: set<Selector>)
    requires SlotDetection.Detected(proxy, selectors, slots.keys, slots.values)
    requires forall s :: s in wanted ==> s in selectors
    ensures UpgradeProofs.Detected(slots, proxy.storage, wanted)
  {
    hide Sload;
  }

  /**
   An upgrade planned on what `fetch` found for every selector either state routes: the slot each
   proposed selector's real dispatch reads ends up holding its facet's address.
   */
  lemma {:induction false} FetchedUpgradeLands(proxy: SlotDetection.Proxy, selectors: seq<Selector>, slots: Slots,
                            current: Deployment, proposed: Deployment, limit: nat, s: Selector)
    requires SlotDetection.Detected(proxy, selectors, slots.keys, slots.values)
    requires forall t :: t in Owners(proposed) || t in Owners(current) ==> t in selectors
    requires limit >= 8 && UpgradeProofs.ServedOnce(proposed) && UpgradeProofs.Deployable(proposed)
    requires s in Owners(proposed)
    ensures Resolved(proposed, Installed(current), slots)
    ensures var routes := Assignments(proposed, Installed(current), slots);
      var o := Run(Encoded(routes), Fresh(proxy.storage), limit);
      && o.Stopped?
      && SlotDetection.Routes(proxy, s, slots.keys[s])
      && SlotAddress(Sload(o.machine.storage, slots.keys[s])) == Owners(proposed)[s]
  {
    hide Run, Encoded, Owners, Installed, Written, Sload, SlotAddress, SlotDetection.Routes;
    var wanted := Owners(proposed).Keys + Owners(current).Keys;
    DetectionFeedsPlanning(proxy, selectors, slots, wanted);
    UpgradeProofs.UpgradeLands(current, proposed, slots, proxy.storage, limit);
  }

  // ------------------------------------------------------------------ what a handoff must be

  /** A dispatcher that reads the selector's slot and hands off to the delegate there. */
  function Direct(key: Word): Program {
    h => if |h| == 0 then Read(0, key) else if |h| == 1 then Call(0) else End(h[0] == ROUTED, false)
  }

  /** Its handoffs are terminal, whatever the storage. */
  lemma {:induction false} DirectIsTerminal(key: Word, actual: map<Word, Word>, gas: nat)
    ensures Terminal(Direct(key), actual, gas)
  {
    var p := Direct(key);
    forall known, h, k | BothHandOff(p, h, k, known, actual) && |h| <= gas
      ensures EndAlike(p, h, k, known, actual, gas - |h|)
    {
      DirectShort(key, h, actual[k := ROUTED]);
      assert |h| == 2 && p(h).End?;
    }
  }

  lemma DirectShort(key: Word, h: seq<Word>, storage: map<Word, Word>)
    requires Produces(Direct(key), h, storage)
    ensures |h| <= 2
  {
    if h != [] {
      DirectStep(key, h, |h| - 1, storage);
    }
  }

  lemma DirectStep(key: Word, h: seq<Word>, j: nat, storage: map<Word, Word>)
    requires j < |h| && Produces(Direct(key), h, storage)
    ensures j < 2
  {
    assert Gives(Direct(key)(h[..j]), h[j], storage);
  }

  /**
   A dispatcher that reads the selector's slot, calls a guard that reads another slot of the proxy,
   and hands off to the delegate only if that slot is clear.
   */
  function Guarded(key: Word, other: Word): Program {
    h => if |h| == 0 then Read(0, key) else if |h| == 1 then Call(0) else if |h| == 2 then Read(1, other)
         else if |h| == 3 then (if h[2] == 0 then Call(0) else End(false, false))
         else End(h[0] == ROUTED, false)
  }

  const GUARDED := SlotDetection.Proxy(s => Guarded(0, 1), map[1 := 1], 9)

  /**
   The first call after the slot is read is taken for the handoff, so what the guard reads is not
   chased: the test is settled with nothing known and reaches the stub, and the real dispatch would not.
   */
  lemma {:induction false} GuardReadsMislead(s: Selector)
    ensures SettledTest(GUARDED.dispatch(s), 0, map[], GUARDED.gas)
    ensures Reaches(SlotDetection.Test(GUARDED, s, map[], 0))
    ensures !SlotDetection.Routes(GUARDED, s, 0) && !SlotDetection.HandoffsEnd(GUARDED, s)
  {
    var p := Guarded(0, 1);
    var partly, fully := map[][0 := ROUTED], GUARDED.storage[0 := ROUTED];
    assert Sload(partly, 0) == Sload(fully, 0) == ROUTED && Sload(partly, 1) == 0 && Sload(fully, 1) == 1;
    GuardClear(p, partly, 5);
    GuardSet(p, fully, 6);
    GuardEvents();
    assert PartOf(map[], GUARDED.storage);
    hide Traced, Before, Steering, Mentions, Terminal, Guarded;
    assert Traced(p, [], partly, 9).events == GuardTrail();
    TerminalExactly(p, GUARDED.storage, 9);
    assert SettledTest(p, 0, map[], 9) && !EndAlike(p, [], 0, map[], GUARDED.storage, 9);
  }

  function GuardTrail(): seq<Event> {
    [Event(0, Some(0)), Event(0, None), Event(1, Some(1)), Event(0, None)]
  }

  lemma GuardEvents()
    ensures Mentions(GuardTrail(), 0) && Before(GuardTrail(), 0) == {} && Steering(GuardTrail(), 0) == {}
  {
    assert GuardTrail()[0].slot == Some(0);
  }

  /** The call with the guard's slot clear. */
  lemma GuardClear(p: Program, storage: map<Word, Word>, gas: nat)
    requires p == Guarded(0, 1) && gas > 0 && Sload(storage, 1) == 0
    ensures Traced(p, [], storage, gas + 4)
         == Trail(GuardTrail(), Sload(storage, 0) == ROUTED, false)
  {
    var x := Sload(storage, 0);
    assert [] + [x] == [x] && [x] + [0] == [x, 0] && [x, 0] + [0] == [x, 0, 0] && [x, 0, 0] + [0] == [x, 0, 0, 0];
    assert Traced(p, [x, 0, 0, 0], storage, gas) == Trail([], x == ROUTED, false);
    assert Traced(p, [x, 0, 0], storage, gas + 1) == Then(Event(0, None), Traced(p, [x, 0, 0, 0], storage, gas));
    assert Traced(p, [x, 0], storage, gas + 2) == Then(Event(1, Some(1)), Traced(p, [x, 0, 0], storage, gas + 1));
    assert Traced(p, [x], storage, gas + 3) == Then(Event(0, None), Traced(p, [x, 0], storage, gas + 2));
  }

  /** The call with the guard's slot set. */
  lemma GuardSet(p: Program, storage: map<Word, Word>, gas: nat)
    requires p == Guarded(0, 1) && gas > 0 && Sload(storage, 1) != 0
    ensures !Traced(p, [], storage, gas + 3).reached
  {
    var x, y := Sload(storage, 0), Sload(storage, 1);
    assert [] + [x] == [x] && [x] + [0] == [x, 0] && [x, 0] + [y] == [x, 0, y];
    assert Traced(p, [x, 0, y], storage, gas) == Trail([], false, false);
    assert Traced(p, [x, 0], storage, gas + 1) == Then(Event(1, Some(1)), Traced(p, [x, 0, y], storage, gas));
    assert Traced(p, [x], storage, gas + 2) == Then(Event(0, None), Traced(p, [x, 0], storage, gas + 1));
  }
}
