/**
 A proxy's dispatch as slot detection sees it (src/josuke/storage.py): an adaptive program that
 reads storage and makes calls, traced as events, and run on storage that is only partly known.
 */
module Dispatch {
  import opened Bytes
  import opened Evm
  import opened Wrappers

  /** The stub delegate's address, as a storage word. */
  const ROUTED: Word := 0x5b5b5b5b5b5b5b5b5b5b5b5b5b5b5b5b5b5b5b5b

  /** What a call frame at some depth does next, or how the whole call ended. */
  datatype Action =
    | Read(depth: nat, slot: Word)
    | Call(depth: nat)
    | End(reached: bool, exhausted: bool)

  /** The next action, given the values read so far (a call adds a zero). */
  type Program = seq<Word> -> Action

  /** A read of the proxy's storage, or a call (no slot). */
  datatype Event = Event(depth: nat, slot: Option<Word>)

  datatype Trail = Trail(events: seq<Event>, reached: bool, exhausted: bool)

  /** One call of the proxy, from the history `h` on. Out of gas, it reaches nothing. */
  function Traced(p: Program, h: seq<Word>, storage: map<Word, Word>, gas: nat): Trail
    decreases gas
  {
    if gas == 0 then Trail([], false, true) else
    match p(h)
    case End(reached, exhausted) => Trail([], reached, exhausted)
    case Read(depth, slot) =>
      Then(Event(depth, Some(slot)), Traced(p, h + [Sload(storage, slot)], storage, gas - 1))
    case Call(depth) =>
      Then(Event(depth, None), Traced(p, h + [0], storage, gas - 1))
  }

  function Then(e: Event, t: Trail): Trail {
    t.(events := [e] + t.events)
  }

  /** The call reached the stub, within its gas. */
  predicate Reaches(t: Trail) {
    t.reached && !t.exhausted
  }

  // ----------------------------------------------------------------- reading events

  /** The slots read, in order, without repeats. */
  function SlotsRead(events: seq<Event>): seq<Word> {
    if events == [] then [] else
    var rest := SlotsRead(events[1..]);
    match events[0].slot
    case None => rest
    case Some(slot) => [slot] + Without(rest, slot)
  }

  function Without(slots: seq<Word>, slot: Word): seq<Word> {
    if slots == [] then [] else
    (if slots[0] == slot then [] else [slots[0]]) + Without(slots[1..], slot)
  }

  predicate Mentions(events: seq<Event>, key: Word) {
    exists i :: 0 <= i < |events| && events[i].slot == Some(key)
  }

  /** The slots read before the first read of `key`. */
  function Before(events: seq<Event>, key: Word): set<Word> {
    if events == [] || events[0].slot == Some(key) then {} else
    (if events[0].slot.Some? then {events[0].slot.value} else {}) + Before(events[1..], key)
  }

  /** The slots read until a call at depth `at` or shallower. */
  function Until(events: seq<Event>, at: nat): set<Word> {
    if events == [] || (events[0].slot.None? && events[0].depth <= at) then {} else
    (if events[0].slot.Some? then {events[0].slot.value} else {}) + Until(events[1..], at)
  }

  /** The reads that could still change where the dispatch goes, once `key` is read. */
  function Steering(events: seq<Event>, key: Word): set<Word> {
    if events == [] then {}
    else if events[0].slot == Some(key) then Until(events[1..], events[0].depth)
    else Steering(events[1..], key)
  }

  /** `_steered_by`. */
  method SteeredBy(events: seq<Event>, key: Word) returns (slots: set<Word>)
    ensures slots == Steering(events, key)
  {
    slots := {};
    var at: Option<nat> := None;
    var i := 0;
    while i < |events|
      invariant 0 <= i <= |events|
      invariant at.None? ==> slots == {} && Steering(events[i..], key) == Steering(events, key)
      invariant at.Some? ==> slots + Until(events[i..], at.value) == Steering(events, key)
    {
      var e := events[i];
      assert events[i..][1..] == events[i + 1..];
      if at.None? {
        if e.slot == Some(key) {
          at := Some(e.depth);
        }
      } else if e.slot.None? {
        if e.depth <= at.value {
          break;
        }
      } else {
        slots := slots + {e.slot.value};
      }
      i := i + 1;
    }
  }

  // -------------------------------------------------------------- when a test is settled

  /** `h` first reads `key` at depth `at`, finding the stub, and makes no call at that depth or shallower since. */
  ghost predicate Holding(p: Program, h: seq<Word>, key: Word, at: nat) {
    exists i :: 0 <= i < |h| && HoldingSince(p, h, key, at, i)
  }

  ghost predicate HoldingSince(p: Program, h: seq<Word>, key: Word, at: nat, i: nat)
    requires i < |h|
  {
    && NotYet(p, h[..i], key)
    && p(h[..i]) == Read(at, key) && h[i] == ROUTED
    && forall j :: i < j < |h| ==> !IsCallFrom(p(h[..j]), at)
  }

  ghost predicate NotYet(p: Program, h: seq<Word>, key: Word) {
    forall j :: 0 <= j < |h| ==> !ReadsKey(p(h[..j]), key)
  }

  predicate ReadsKey(a: Action, key: Word) {
    a.Read? && a.slot == key
  }

  predicate IsCallFrom(a: Action, at: nat) {
    a.Call? && a.depth <= at
  }

  /** The call after which the frame that read the stub's address has handed off. */
  ghost predicate HandedOff(p: Program, h: seq<Word>, key: Word) {
    h != [] && HandsOffAt(p, h[..|h| - 1], key)
  }

  ghost predicate HandsOffAt(p: Program, h: seq<Word>, key: Word) {
    exists at :: Holding(p, h, key, at) && IsCallFrom(p(h), at)
  }

  predicate SameEnd(a: Trail, b: Trail) {
    a.reached == b.reached && a.exhausted == b.exhausted
  }

  /** A run on this storage reads these values. */
  ghost predicate Produces(p: Program, h: seq<Word>, storage: map<Word, Word>) {
    forall j :: 0 <= j < |h| ==> Gives(p(h[..j]), h[j], storage)
  }

  predicate Gives(a: Action, v: Word, storage: map<Word, Word>) {
    match a
    case Read(_, slot) => v == Sload(storage, slot)
    case Call(_) => v == 0
    case End(_, _) => false
  }

  /** What is known of some storage. */
  ghost predicate PartOf(known: map<Word, Word>, storage: map<Word, Word>) {
    forall k :: k in known ==> known[k] == Sload(storage, k)
  }

  /** A run on what is known and one on the real storage, both with the stub at `key`, hand off after the same reads. */
  ghost predicate BothHandOff(p: Program, h: seq<Word>, key: Word, known: map<Word, Word>, actual: map<Word, Word>) {
    && PartOf(known, actual) && HandedOff(p, h, key)
    && Produces(p, h, known[key := ROUTED]) && Produces(p, h, actual[key := ROUTED])
  }

  /** A handoff to the stub is terminal: what is not known after it does not change how the call ends. */
  ghost predicate Terminal(p: Program, actual: map<Word, Word>, gas: nat) {
    forall known, h, key :: BothHandOff(p, h, key, known, actual) && |h| <= gas ==>
      EndAlike(p, h, key, known, actual, gas - |h|)
  }

  ghost predicate EndAlike(p: Program, h: seq<Word>, key: Word, known: map<Word, Word>, actual: map<Word, Word>,
                           gas: nat) {
    SameEnd(Traced(p, h, known[key := ROUTED], gas), Traced(p, h, actual[key := ROUTED], gas))
  }

  ghost predicate Agree(a: map<Word, Word>, b: map<Word, Word>, slots: set<Word>) {
    forall s :: s in slots ==> Sload(a, s) == Sload(b, s)
  }

  // ------------------------------------------------- partial knowledge and real storage

  lemma ExtendNotYet(p: Program, h: seq<Word>, v: Word, key: Word)
    requires NotYet(p, h, key) && !ReadsKey(p(h), key)
    ensures NotYet(p, h + [v], key)
  {
    var g := h + [v];
    forall j | 0 <= j < |g|
      ensures !ReadsKey(p(g[..j]), key)
    {
      assert g[..j] == if j == |h| then h else h[..j];
    }
  }

  lemma StartHolding(p: Program, h: seq<Word>, key: Word, at: nat)
    requires NotYet(p, h, key) && p(h) == Read(at, key)
    ensures Holding(p, h + [ROUTED], key, at)
  {
    var g := h + [ROUTED];
    assert g[..|h|] == h;
    assert HoldingSince(p, g, key, at, |h|);
  }

  lemma ExtendHolding(p: Program, h: seq<Word>, v: Word, key: Word, at: nat)
    requires Holding(p, h, key, at)
    ensures IsCallFrom(p(h), at) ==> HandedOff(p, h + [v], key)
    ensures !IsCallFrom(p(h), at) ==> Holding(p, h + [v], key, at)
  {
    var g := h + [v];
    assert g[..|g| - 1] == h;
    if !IsCallFrom(p(h), at) {
      var i :| 0 <= i < |h| && HoldingSince(p, h, key, at, i);
      assert g[..i] == h[..i];
      forall j | i < j < |g|
        ensures !IsCallFrom(p(g[..j]), at)
      {
        assert g[..j] == if j == |h| then h else h[..j];
      }
      assert HoldingSince(p, g, key, at, i);
    }
  }

  lemma ExtendProduces(p: Program, h: seq<Word>, v: Word, storage: map<Word, Word>)
    requires Produces(p, h, storage) && Gives(p(h), v, storage)
    ensures Produces(p, h + [v], storage)
  {
    var g := h + [v];
    forall j | 0 <= j < |g|
      ensures Gives(p(g[..j]), g[j], storage)
    {
      assert g[..j] == if j == |h| then h else h[..j];
    }
  }

  /** Past the read of the stub's address, agreement on the steering reads settles the end. */
  lemma {:induction false} AgreeHolding(
    p: Program, h: seq<Word>, key: Word, at: nat, known: map<Word, Word>, actual: map<Word, Word>, gas: nat)
    requires Terminal(p, actual, |h| + gas) && PartOf(known, actual) && Holding(p, h, key, at)
    requires Produces(p, h, known[key := ROUTED]) && Produces(p, h, actual[key := ROUTED])
    requires Agree(known[key := ROUTED], actual[key := ROUTED],
            Until(Traced(p, h, known[key := ROUTED], gas).events, at))
    ensures EndAlike(p, h, key, known, actual, gas)
    decreases gas
  {
    if gas > 0 && !p(h).End? {
      var a, b := known[key := ROUTED], actual[key := ROUTED];
      var v := if p(h).Read? then Sload(a, p(h).slot) else 0;
      ExtendHolding(p, h, v, key, at);
      var rest := Traced(p, h + [v], a, gas - 1);
      assert Traced(p, h, a, gas).events[1..] == rest.events;
      hide Terminal, Holding, Produces;
      ExtendProduces(p, h, v, a);
      ExtendProduces(p, h, v, b);
      if IsCallFrom(p(h), at) {
        TerminalAt(p, h + [v], key, known, actual, gas - 1);
      } else {
        AgreeHolding(p, h + [v], key, at, known, actual, gas - 1);
      }
    }
  }

  lemma TerminalAt(p: Program, h: seq<Word>, key: Word, known: map<Word, Word>, actual: map<Word, Word>, gas: nat)
    requires Terminal(p, actual, |h| + gas) && BothHandOff(p, h, key, known, actual)
    ensures EndAlike(p, h, key, known, actual, gas)
  {
    hide BothHandOff;
    assert |h| + gas - |h| == gas;
  }

  /** What is known agrees with the real storage before `key` is read, and on the reads that steer after it. */
  lemma {:induction false} AgreeSteered(
    p: Program, h: seq<Word>, key: Word, known: map<Word, Word>, actual: map<Word, Word>, gas: nat)
    requires Terminal(p, actual, |h| + gas) && PartOf(known, actual) && NotYet(p, h, key)
    requires Produces(p, h, known[key := ROUTED]) && Produces(p, h, actual[key := ROUTED])
    requires Agree(known[key := ROUTED], actual[key := ROUTED],
            Before(Traced(p, h, known[key := ROUTED], gas).events, key))
    requires Agree(known[key := ROUTED], actual[key := ROUTED],
            Steering(Traced(p, h, known[key := ROUTED], gas).events, key))
    ensures EndAlike(p, h, key, known, actual, gas)
    decreases gas
  {
    if gas > 0 && !p(h).End? {
      var a, b := known[key := ROUTED], actual[key := ROUTED];
      var v := if p(h).Read? then Sload(a, p(h).slot) else 0;
      var rest := Traced(p, h + [v], a, gas - 1);
      assert Traced(p, h, a, gas).events[1..] == rest.events;
      hide Terminal, NotYet, Produces;
      ExtendProduces(p, h, v, a);
      ExtendProduces(p, h, v, b);
      if ReadsKey(p(h), key) {
        StartHolding(p, h, key, p(h).depth);
        AgreeHolding(p, h + [v], key, p(h).depth, known, actual, gas - 1);
      } else {
        ExtendNotYet(p, h, v, key);
        AgreeSteered(p, h + [v], key, known, actual, gas - 1);
      }
    }
  }

  /** Runs that agree on what they read before `key` read the same slots up to it. */
  lemma {:induction false} AgreeBefore(
    p: Program, h: seq<Word>, key: Word, a: map<Word, Word>, b: map<Word, Word>, gas: nat)
    requires Agree(a, b, Before(Traced(p, h, a, gas).events, key))
    ensures Before(Traced(p, h, a, gas).events, key) == Before(Traced(p, h, b, gas).events, key)
    ensures Mentions(Traced(p, h, a, gas).events, key) <==> Mentions(Traced(p, h, b, gas).events, key)
    decreases gas
  {
    if gas > 0 && !p(h).End? {
      var v := if p(h).Read? then Sload(a, p(h).slot) else 0;
      var ea, eb := Traced(p, h, a, gas).events, Traced(p, h, b, gas).events;
      assert ea[1..] == Traced(p, h + [v], a, gas - 1).events;
      if ReadsKey(p(h), key) {
        assert ea[0].slot == eb[0].slot == Some(key);
      } else {
        AgreeBefore(p, h + [v], key, a, b, gas - 1);
        assert eb[1..] == Traced(p, h + [v], b, gas - 1).events;
        MentionsTail(ea, key);
        MentionsTail(eb, key);
      }
    }
  }

  lemma MentionsTail(events: seq<Event>, key: Word)
    requires events != [] && events[0].slot != Some(key)
    ensures Mentions(events, key) <==> Mentions(events[1..], key)
  {
    if i :| 0 <= i < |events| && events[i].slot == Some(key) {
      assert events[1..][i - 1].slot == Some(key);
    }
    if i :| 0 <= i < |events[1..]| && events[1..][i].slot == Some(key) {
      assert events[i + 1].slot == Some(key);
    }
  }

  /** Storage known for every slot a run reads gives the real run. */
  lemma {:induction false} SameTrail(p: Program, h: seq<Word>, a: map<Word, Word>, b: map<Word, Word>, gas: nat)
    requires forall s: Word :: Mentions(Traced(p, h, a, gas).events, s) ==> Sload(a, s) == Sload(b, s)
    ensures Traced(p, h, a, gas) == Traced(p, h, b, gas)
    decreases gas
  {
    if gas > 0 && !p(h).End? {
      var events := Traced(p, h, a, gas).events;
      if p(h).Read? {
        assert events[0].slot == Some(p(h).slot);
        assert Mentions(events, p(h).slot);
      }
      var v := if p(h).Read? then Sload(a, p(h).slot) else 0;
      assert events[1..] == Traced(p, h + [v], a, gas - 1).events;
      forall s: Word | Mentions(events[1..], s)
        ensures Sload(a, s) == Sload(b, s)
      {
        var i :| 0 <= i < |events[1..]| && events[1..][i].slot == Some(s);
        assert events[i + 1].slot == Some(s);
      }
      SameTrail(p, h + [v], a, b, gas - 1);
    }
  }

  // ------------------------------------------------------- the list of slots to walk

  lemma {:induction false} WithoutMembers(slots: seq<Word>, slot: Word, x: Word)
    ensures x in Without(slots, slot) <==> x in slots && x != slot
    decreases |slots|
  {
    if slots != [] {
      WithoutMembers(slots[1..], slot, x);
      assert x in slots <==> x == slots[0] || x in slots[1..];
    }
  }

  lemma {:induction false} SlotsReadMembers(events: seq<Event>, x: Word)
    ensures x in SlotsRead(events) <==> Mentions(events, x)
    decreases |events|
  {
    if events != [] {
      SlotsReadMembers(events[1..], x);
      if events[0].slot == Some(x) {
        assert Mentions(events, x);
      } else {
        MentionsTail(events, x);
        if events[0].slot.Some? {
          WithoutMembers(SlotsRead(events[1..]), events[0].slot.value, x);
        }
      }
    }
  }

  /** Where the `j`th slot of a shortened list was in the list. */
  lemma {:induction false} WithoutPrefix(slots: seq<Word>, slot: Word, j: nat) returns (i: nat)
    requires j < |Without(slots, slot)|
    ensures i < |slots| && slots[i] == Without(slots, slot)[j]
    ensures forall x :: x in slots[..i] ==> x == slot || x in Without(slots, slot)[..j]
    decreases |slots|
  {
    var head := if slots[0] == slot then [] else [slots[0]];
    var rest := Without(slots[1..], slot);
    if j < |head| {
      i := 0;
    } else {
      var k := WithoutPrefix(slots[1..], slot, j - |head|);
      i := k + 1;
      assert Without(slots, slot)[..j] == head + rest[..j - |head|];
      assert slots[..k + 1] == [slots[0]] + slots[1..][..k];
    }
  }

  /** Everything read before the `j`th slot of the list comes earlier in the list. */
  lemma {:induction false} BeforeInList(events: seq<Event>, j: nat)
    requires j < |SlotsRead(events)|
    ensures forall x :: x in Before(events, SlotsRead(events)[j]) ==> x in SlotsRead(events)[..j]
    decreases |events|
  {
    var rest := SlotsRead(events[1..]);
    var key := SlotsRead(events)[j];
    match events[0].slot
    case None =>
      BeforeInList(events[1..], j);
    case Some(slot) =>
      if j > 0 {
        var tail := Without(rest, slot);
        var i := WithoutPrefix(rest, slot, j - 1);
        WithoutMembers(rest, slot, key);
        BeforeInList(events[1..], i);
        assert SlotsRead(events)[..j] == [slot] + tail[..j - 1];
        assert key == tail[j - 1] && tail[j - 1] in tail;
      }
  }

  // ------------------------------------------------------- what a settled test relies on

  /** On what is known, all that was read before `key` is known, and all that steers after it. */
  ghost predicate SettledTest(p: Program, key: Word, known: map<Word, Word>, gas: nat) {
    var events := Traced(p, [], known[key := ROUTED], gas).events;
    && Mentions(events, key) && Before(events, key) <= known.Keys
    && Steering(events, key) <= known.Keys + {key}
  }

  /** Every settled test ends as on the real storage. */
  ghost predicate TestsTellTruth(p: Program, actual: map<Word, Word>, gas: nat) {
    forall key, known :: PartOf(known, actual) && SettledTest(p, key, known, gas) ==>
      EndAlike(p, [], key, known, actual, gas)
  }

  lemma KnownAgree(known: map<Word, Word>, actual: map<Word, Word>, key: Word, slots: set<Word>)
    requires PartOf(known, actual) && slots <= known.Keys + {key}
    ensures Agree(known[key := ROUTED], actual[key := ROUTED], slots)
  {
  }

  lemma SettledTellsTruth(p: Program, key: Word, known: map<Word, Word>, actual: map<Word, Word>, gas: nat)
    requires Terminal(p, actual, gas) && PartOf(known, actual) && SettledTest(p, key, known, gas)
    ensures EndAlike(p, [], key, known, actual, gas)
  {
    var events := Traced(p, [], known[key := ROUTED], gas).events;
    KnownAgree(known, actual, key, Before(events, key));
    KnownAgree(known, actual, key, Steering(events, key));
    hide Traced, Terminal, Steering, Before, Agree, PartOf;
    AgreeSteered(p, [], key, known, actual, gas);
  }

  function EventOf(a: Action): Event {
    Event(if a.End? then 0 else a.depth, if a.Read? then Some(a.slot) else None)
  }

  /** The events of a run up to a history. */
  function HistoryEvents(p: Program, h: seq<Word>): (events: seq<Event>)
    ensures |events| == |h|
  {
    seq(|h|, j requires 0 <= j < |h| => EventOf(p(h[..j])))
  }

  /** A run from the start is the events up to a history it produces, and the run from there. */
  lemma {:induction false} TracedFrom(p: Program, h: seq<Word>, storage: map<Word, Word>, gas: nat)
    requires Produces(p, h, storage) && |h| <= gas
    ensures Traced(p, [], storage, gas).events == HistoryEvents(p, h) + Traced(p, h, storage, gas - |h|).events
    ensures SameEnd(Traced(p, [], storage, gas), Traced(p, h, storage, gas - |h|))
    decreases |h|
  {
    if h == [] {
      assert HistoryEvents(p, h) == [];
    } else {
      var n := |h| - 1;
      var front := h[..n];
      assert Gives(p(h[..n]), h[n], storage) && h == front + [h[n]];
      forall j | 0 <= j < n
        ensures Gives(p(front[..j]), front[j], storage)
      {
        assert front[..j] == h[..j];
        assert Gives(p(h[..j]), h[j], storage);
      }
      TracedStep(p, front, h[n], storage, gas - n);
      hide Traced, HistoryEvents, Produces, Gives;
      TracedFrom(p, front, storage, gas);
      HistorySnoc(p, front, h[n]);
      var rest := Traced(p, h, storage, gas - |h|);
      assert HistoryEvents(p, front) + ([EventOf(p(front))] + rest.events)
          == HistoryEvents(p, front) + [EventOf(p(front))] + rest.events;
    }
  }

  lemma TracedStep(p: Program, h: seq<Word>, v: Word, storage: map<Word, Word>, gas: nat)
    requires Gives(p(h), v, storage) && gas > 0
    ensures Traced(p, h, storage, gas) == Then(EventOf(p(h)), Traced(p, h + [v], storage, gas - 1))
  {
  }

  lemma HistorySnoc(p: Program, h: seq<Word>, v: Word)
    ensures HistoryEvents(p, h + [v]) == HistoryEvents(p, h) + [EventOf(p(h))]
  {
    assert (h + [v])[..|h|] == h;
    assert forall j :: 0 <= j < |h| ==> (h + [v])[..j] == h[..j];
  }

  function SlotsIn(events: seq<Event>): set<Word> {
    set e | e in events && e.slot.Some? :: e.slot.value
  }

  lemma {:induction false} UntilWithin(events: seq<Event>, rest: seq<Event>, at: nat)
    requires events != [] && events[|events| - 1].slot == None && events[|events| - 1].depth <= at
    ensures Until(events + rest, at) <= SlotsIn(events)
    decreases |events|
  {
    assert (events + rest)[1..] == events[1..] + rest;
    if !(events[0].slot.None? && events[0].depth <= at) {
      UntilWithin(events[1..], rest, at);
      assert SlotsIn(events[1..]) <= SlotsIn(events);
      assert events[0] in events;
    }
  }

  /** Events that end with a call by the frame that read `key`, or one that called it. */
  ghost predicate HandsOff(events: seq<Event>, key: Word, i: nat) {
    && i < |events| - 1 && events[i].slot == Some(key)
    && events[|events| - 1].slot == None && events[|events| - 1].depth <= events[i].depth
    && forall j :: 0 <= j < i ==> events[j].slot != Some(key)
  }

  /** Whatever follows, such events decide what was read before the key and what steers after it. */
  lemma {:induction false} HandoffDecides(events: seq<Event>, rest: seq<Event>, key: Word, i: nat)
    requires HandsOff(events, key, i)
    ensures Mentions(events + rest, key)
    ensures Before(events + rest, key) <= SlotsIn(events) && Steering(events + rest, key) <= SlotsIn(events)
    decreases |events|
  {
    var all := events + rest;
    assert all[i].slot == Some(key);
    assert all[1..] == events[1..] + rest;
    assert SlotsIn(events[1..]) <= SlotsIn(events) && events[0] in events;
    if i == 0 {
      UntilWithin(events[1..], rest, events[0].depth);
    } else {
      HandoffDecides(events[1..], rest, key, i - 1);
    }
  }

  lemma HandedOffEvents(p: Program, h: seq<Word>, key: Word) returns (i: nat)
    requires HandedOff(p, h, key)
    ensures HandsOff(HistoryEvents(p, h), key, i)
  {
    var n := |h| - 1;
    var front := h[..n];
    var at :| Holding(p, front, key, at) && IsCallFrom(p(front), at);
    i :| 0 <= i < n && HoldingSince(p, front, key, at, i);
    assert front[..i] == h[..i];
    forall j | 0 <= j < i
      ensures HistoryEvents(p, h)[j].slot != Some(key)
    {
      assert front[..i][..j] == h[..j];
      assert !ReadsKey(p(front[..i][..j]), key);
    }
  }

  lemma SlotsProduced(p: Program, h: seq<Word>, a: map<Word, Word>, b: map<Word, Word>)
    requires Produces(p, h, a) && Produces(p, h, b)
    ensures forall x :: x in SlotsIn(HistoryEvents(p, h)) ==> Sload(a, x) == Sload(b, x)
  {
    var events := HistoryEvents(p, h);
    forall x | x in SlotsIn(events)
      ensures Sload(a, x) == Sload(b, x)
    {
      var j :| 0 <= j < |events| && events[j].slot == Some(x);
      assert Gives(p(h[..j]), h[j], a) && Gives(p(h[..j]), h[j], b);
    }
  }

  /** What is known, and the slots of these events besides. */
  function Learned(known: map<Word, Word>, actual: map<Word, Word>, slots: set<Word>): map<Word, Word> {
    known + map x | x in slots :: Sload(actual, x)
  }

  /** Two storages hold the same words. */
  ghost predicate SameWords(a: map<Word, Word>, b: map<Word, Word>) {
    forall x: Word :: Sload(a, x) == Sload(b, x)
  }

  lemma SameWordsRun(p: Program, h: seq<Word>, a: map<Word, Word>, b: map<Word, Word>, gas: nat)
    requires SameWords(a, b)
    ensures Traced(p, h, a, gas) == Traced(p, h, b, gas)
    ensures Produces(p, h, a) <==> Produces(p, h, b)
  {
    hide Traced;
    SameTrail(p, h, a, b, gas);
  }

  lemma LearnedAlike(p: Program, h: seq<Word>, key: Word, known: map<Word, Word>, actual: map<Word, Word>)
    requires BothHandOff(p, h, key, known, actual)
    ensures var more := Learned(known, actual, SlotsIn(HistoryEvents(p, h)));
      PartOf(more, actual) && SameWords(more[key := ROUTED], known[key := ROUTED])
  {
    var slots := SlotsIn(HistoryEvents(p, h));
    SlotsProduced(p, h, known[key := ROUTED], actual[key := ROUTED]);
    hide HandedOff, HistoryEvents, Produces;
    var a, b := Learned(known, actual, slots)[key := ROUTED], known[key := ROUTED];
    forall x: Word
      ensures Sload(a, x) == Sload(b, x)
    {
      if x in slots && x != key {
        assert Sload(b, x) == Sload(actual[key := ROUTED], x);
      }
    }
  }

  /** With every slot read up to a handoff known, the test is settled. */
  lemma SettledAtHandoff(p: Program, h: seq<Word>, key: Word, known: map<Word, Word>, gas: nat)
    requires HandedOff(p, h, key) && Produces(p, h, known[key := ROUTED]) && |h| <= gas
    requires SlotsIn(HistoryEvents(p, h)) <= known.Keys
    ensures SettledTest(p, key, known, gas)
  {
    var i := HandedOffEvents(p, h, key);
    hide HistoryEvents, Traced, HandedOff, Produces, SlotsIn, Before, Steering, Mentions, HandsOff;
    TracedFrom(p, h, known[key := ROUTED], gas);
    HandoffDecides(HistoryEvents(p, h), Traced(p, h, known[key := ROUTED], gas - |h|).events, key, i);
  }

  /** Where tests tell the truth a handoff is terminal: what it depends on could be known and the test settled. */
  lemma TruthNeedsTerminal(p: Program, h: seq<Word>, key: Word, known: map<Word, Word>, actual: map<Word, Word>,
                           gas: nat)
    requires TestsTellTruth(p, actual, gas) && BothHandOff(p, h, key, known, actual) && |h| <= gas
    ensures EndAlike(p, h, key, known, actual, gas - |h|)
  {
    var slots := SlotsIn(HistoryEvents(p, h));
    var more := Learned(known, actual, slots);
    LearnedAlike(p, h, key, known, actual);
    LearnedKeys(known, actual, slots);
    hide HistoryEvents, Traced, HandedOff, Produces, PartOf, Learned, SlotsIn, SettledTest, SameWords;
    SameWordsRun(p, h, more[key := ROUTED], known[key := ROUTED], gas - |h|);
    SettledAtHandoff(p, h, key, more, gas);
    assert EndAlike(p, [], key, more, actual, gas);
    TracedFrom(p, h, more[key := ROUTED], gas);
    TracedFrom(p, h, actual[key := ROUTED], gas);
  }

  lemma LearnedKeys(known: map<Word, Word>, actual: map<Word, Word>, slots: set<Word>)
    ensures slots <= Learned(known, actual, slots).Keys
  {
  }

  /** Settled tests tell the truth about the real storage exactly when its handoffs are terminal. */
  lemma TerminalExactly(p: Program, actual: map<Word, Word>, gas: nat)
    ensures Terminal(p, actual, gas) <==> TestsTellTruth(p, actual, gas)
  {
    hide EndAlike, SettledTest, PartOf, HandedOff, Produces;
    if Terminal(p, actual, gas) {
      forall key, known | PartOf(known, actual) && SettledTest(p, key, known, gas)
        ensures EndAlike(p, [], key, known, actual, gas)
      {
        SettledTellsTruth(p, key, known, actual, gas);
      }
    }
    if TestsTellTruth(p, actual, gas) {
      forall known, h, key | BothHandOff(p, h, key, known, actual) && |h| <= gas
        ensures EndAlike(p, h, key, known, actual, gas - |h|)
      {
        TruthNeedsTerminal(p, h, key, known, actual, gas);
      }
    }
  }
}
