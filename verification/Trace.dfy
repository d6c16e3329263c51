/**
 Reading a traced call (src/josuke/storage.py, `_proxy_events`): from the flat list of SLOAD and
 call steps, which reads were of the proxy's own storage. The meaning is given by the tree of
 call frames that the steps come from.
 */
module Trace {
  import opened Bytes
  import opened Dispatch
  import opened Wrappers

  datatype CallKind = CallTo | StaticCall | DelegateCall | CallCode | Create | Create2

  datatype Op = Sload | Invoke(kind: CallKind)

  /** One traced step, with the stack it ran on; the top is last. */
  datatype Step = Step(depth: nat, op: Op, stack: seq<Word>)

  /** Whose storage a frame runs in; None for a contract being created. */
  type Owner = Option<Address>

  /** CALL and STATICCALL run in their target's storage, DELEGATECALL and CALLCODE in their caller's. */
  function CalleeOwner(kind: CallKind, target: Word, caller: Owner): Owner {
    match kind
    case CallTo => Some(target % ADDRESS_LIMIT)
    case StaticCall => Some(target % ADDRESS_LIMIT)
    case DelegateCall => caller
    case CallCode => caller
    case Create => None
    case Create2 => None
  }

  // ------------------------------------------------------------- frames and their steps

  /** What a call frame does, in order. A frame that neither reads nor calls leaves no step. */
  datatype Frame =
    | Done
    | Reads(below: seq<Word>, slot: Word, rest: Frame)
    | Calls(kind: CallKind, below: seq<Word>, target: Word, gas: Word, callee: Frame, rest: Frame)

  /** The steps of a frame at `depth`, with its callees' in place. */
  function Steps(f: Frame, depth: nat): seq<Step> {
    match f
    case Done => []
    case Reads(below, slot, rest) => [Step(depth, Sload, below + [slot])] + Steps(rest, depth)
    case Calls(kind, below, target, gas, callee, rest) =>
      [Step(depth, Invoke(kind), below + [target, gas])] + (Steps(callee, depth + 1) + Steps(rest, depth))
  }

  /** The reads of `proxy`'s storage in a frame running in `owner`'s, and every call, with their depths. */
  function OwnEvents(f: Frame, owner: Owner, proxy: Address, depth: nat): seq<Event> {
    match f
    case Done => []
    case Reads(below, slot, rest) =>
      (if owner == Some(proxy) then [Event(depth, Some(slot))] else []) + OwnEvents(rest, owner, proxy, depth)
    case Calls(kind, below, target, gas, callee, rest) =>
      [Event(depth, None)]
      + (OwnEvents(callee, CalleeOwner(kind, target, owner), proxy, depth + 1) + OwnEvents(rest, owner, proxy, depth))
  }

  // ------------------------------------------------------------------ the interpreter

  /** A step of a running frame has the operands its instruction takes. */
  predicate WellFormed(step: Step) {
    step.depth >= 1 && |step.stack| >= if step.op.Sload? then 1 else 2
  }

  predicate AllWellFormed(steps: seq<Step>) {
    forall i :: 0 <= i < |steps| ==> WellFormed(steps[i])
  }

  /** Whose storage each depth uses, and whose the next deeper frame would. */
  datatype State = State(frames: seq<Owner>, callee: Owner)

  /** The frames once a step at `depth` runs: one deeper, or back to `depth`. */
  function Entered(st: State, depth: nat): (frames: seq<Owner>)
    requires depth >= 1 && st.frames != []
    ensures frames != []
  {
    if depth > |st.frames| then st.frames + [st.callee] else st.frames[..depth]
  }

  function Advance(st: State, step: Step): (next: State)
    requires WellFormed(step) && st.frames != []
    ensures next.frames != []
  {
    var frames := Entered(st, step.depth);
    if step.op.Sload? then State(frames, st.callee)
    else State(frames, CalleeOwner(step.op.kind, step.stack[|step.stack| - 2], frames[|frames| - 1]))
  }

  function Emitted(st: State, step: Step, proxy: Address): seq<Event>
    requires WellFormed(step) && st.frames != []
  {
    var frames := Entered(st, step.depth);
    if step.op.Invoke? then [Event(step.depth, None)]
    else if frames[|frames| - 1] == Some(proxy) then [Event(step.depth, Some(step.stack[|step.stack| - 1]))]
    else []
  }

  function Final(st: State, steps: seq<Step>): (final: State)
    requires AllWellFormed(steps) && st.frames != []
    ensures final.frames != []
    decreases |steps|
  {
    if steps == [] then st else Final(Advance(st, steps[0]), steps[1..])
  }

  function Events(st: State, steps: seq<Step>, proxy: Address): seq<Event>
    requires AllWellFormed(steps) && st.frames != []
    decreases |steps|
  {
    if steps == [] then [] else Emitted(st, steps[0], proxy) + Events(Advance(st, steps[0]), steps[1..], proxy)
  }

  /** `_proxy_events` */
  method ProxyEvents(steps: seq<Step>, proxy: Address) returns (events: seq<Event>)
    requires AllWellFormed(steps)
    ensures events == Events(State([Some(proxy)], None), steps, proxy)
  {
    events := [];
    var frames: seq<Owner> := [Some(proxy)];
    var callee: Owner := None;
    hide Advance, Emitted;
    for i := 0 to |steps|
      invariant frames != []
      invariant events + Events(State(frames, callee), steps[i..], proxy)
             == Events(State([Some(proxy)], None), steps, proxy)
    {
      ghost var before := State(frames, callee);
      assert steps[i..] == [steps[i]] + steps[i + 1..];
      EventsStep(before, steps[i], steps[i + 1..], proxy);
      var event;
      frames, callee, event := TakeStep(frames, callee, steps[i], proxy);
      hide Events;
      if event.Some? {
        events := events + [event.value];
      } else {
        assert events + [] == events;
      }
    }
  }

  /** The next step at `depth` will be seen as running in `owner`'s storage. */
  predicate Ready(st: State, depth: nat, owner: Owner)
    requires depth >= 1
  {
    && st.frames != [] && |st.frames| >= depth - 1
    && owner == if |st.frames| >= depth then st.frames[depth - 1] else st.callee
  }

  /** Shallower frames keep their owners. */
  predicate KeepsBelow(before: State, after: State, depth: nat)
    requires depth >= 1
  {
    && |before.frames| >= depth - 1 && |after.frames| >= depth - 1
    && after.frames[..depth - 1] == before.frames[..depth - 1]
  }

  /** The step is read as one of a frame in `owner`'s storage, and its callee's first step will be as well. */
  ghost predicate ReadAs(before: State, after: State, step: Step, owner: Owner, proxy: Address, event: Option<Event>)
    requires WellFormed(step)
  {
    && Ready(after, step.depth, owner) && KeepsBelow(before, after, step.depth)
    && (step.op.Invoke? ==>
          Ready(after, step.depth + 1, CalleeOwner(step.op.kind, step.stack[|step.stack| - 2], owner)))
    && event ==
       if step.op.Invoke? then Some(Event(step.depth, None))
       else if owner == Some(proxy) then Some(Event(step.depth, Some(step.stack[|step.stack| - 1]))) else None
  }

  /**
   One turn of the loop: the frames and the callee after a step, and the event it adds, if any. A step of
   a frame that is ready to run is read as that frame's.
   */
  method TakeStep(frames: seq<Owner>, callee: Owner, step: Step, proxy: Address)
    returns (newFrames: seq<Owner>, newCallee: Owner, event: Option<Event>)
    requires WellFormed(step) && frames != []
    ensures newFrames != [] && State(newFrames, newCallee) == Advance(State(frames, callee), step)
    ensures Emitted(State(frames, callee), step, proxy) == if event.Some? then [event.value] else []
    ensures forall owner :: Ready(State(frames, callee), step.depth, owner) ==>
              ReadAs(State(frames, callee), State(newFrames, newCallee), step, owner, proxy, event)
  {
    newFrames := if step.depth > |frames| then frames + [callee] else frames[..step.depth];
    newCallee := callee;
    var top := |step.stack| - 1;
    if step.op.Sload? {
      event :=
        if newFrames[|newFrames| - 1] == Some(proxy) then Some(Event(step.depth, Some(step.stack[top]))) else None;
      return;
    }
    event := Some(Event(step.depth, None));
    match step.op.kind {
      case CallTo => newCallee := Some(step.stack[top - 1] % ADDRESS_LIMIT);
      case StaticCall => newCallee := Some(step.stack[top - 1] % ADDRESS_LIMIT);
      case DelegateCall => newCallee := newFrames[|newFrames| - 1];
      case CallCode => newCallee := newFrames[|newFrames| - 1];
      case Create => newCallee := None;
      case Create2 => newCallee := None;
    }
  }

  // --------------------------------------------------------------------- refinement

  lemma {:induction false} EventsConcat(st: State, a: seq<Step>, b: seq<Step>, proxy: Address)
    requires AllWellFormed(a) && AllWellFormed(b) && st.frames != []
    ensures AllWellFormed(a + b)
    ensures Events(st, a + b, proxy) == Events(st, a, proxy) + Events(Final(st, a), b, proxy)
    ensures Final(st, a + b) == Final(Final(st, a), b)
    decreases |a|
  {
    hide Advance, Emitted, WellFormed;
    if a == [] {
      assert a + b == b;
    } else {
      EventsConcat(Advance(st, a[0]), a[1..], b, proxy);
      assert (a + b)[1..] == a[1..] + b;
    }
  }

  lemma {:induction false} StepsWellFormed(f: Frame, depth: nat)
    requires depth >= 1
    ensures AllWellFormed(Steps(f, depth))
  {
    match f
    case Done =>
    case Reads(_, _, rest) => StepsWellFormed(rest, depth);
    case Calls(_, _, _, _, callee, rest) =>
      StepsWellFormed(callee, depth + 1);
      StepsWellFormed(rest, depth);
  }

  /** A step of a frame that is ready to run is read as that frame's, and readies its callee. */
  lemma EnterReady(st: State, step: Step, owner: Owner, proxy: Address)
    requires WellFormed(step) && Ready(st, step.depth, owner)
    ensures var next := Advance(st, step);
      && Ready(next, step.depth, owner) && KeepsBelow(st, next, step.depth)
      && (step.op.Invoke? ==>
            Ready(next, step.depth + 1, CalleeOwner(step.op.kind, step.stack[|step.stack| - 2], owner)))
    ensures Emitted(st, step, proxy) ==
      if step.op.Invoke? then [Event(step.depth, None)]
      else if owner == Some(proxy) then [Event(step.depth, Some(step.stack[|step.stack| - 1]))] else []
  {
  }

  /** Back from a callee, the caller is still where it was. */
  lemma ReturnReady(before: State, after: State, depth: nat, owner: Owner)
    requires depth >= 1 && Ready(before, depth, owner) && |before.frames| >= depth
    requires KeepsBelow(before, after, depth + 1) && after.frames != []
    ensures Ready(after, depth, owner) && KeepsBelow(before, after, depth)
  {
    assert after.frames[depth - 1] == after.frames[..depth][depth - 1] == before.frames[..depth][depth - 1];
    assert after.frames[..depth - 1] == after.frames[..depth][..depth - 1];
    assert before.frames[..depth - 1] == before.frames[..depth][..depth - 1];
  }

  lemma EnterLength(st: State, step: Step, owner: Owner)
    requires WellFormed(step) && Ready(st, step.depth, owner)
    ensures |Advance(st, step).frames| == step.depth
  {
  }

  lemma KeepsTransitive(a: State, b: State, c: State, depth: nat)
    requires depth >= 1 && KeepsBelow(a, b, depth) && KeepsBelow(b, c, depth)
    ensures KeepsBelow(a, c, depth)
  {
  }

  /** From a state ready for a frame, its steps are read as its events, and leave it ready to go on. */
  ghost predicate Faithful(f: Frame, depth: nat, owner: Owner, proxy: Address, st: State)
    requires depth >= 1
  {
    && AllWellFormed(Steps(f, depth)) && st.frames != []
    && Events(st, Steps(f, depth), proxy) == OwnEvents(f, owner, proxy, depth)
    && Ready(Final(st, Steps(f, depth)), depth, owner)
    && KeepsBelow(st, Final(st, Steps(f, depth)), depth)
  }

  lemma {:induction false} FrameEvents(f: Frame, depth: nat, owner: Owner, proxy: Address, st: State)
    requires depth >= 1 && Ready(st, depth, owner)
    ensures Faithful(f, depth, owner, proxy, st)
    decreases f
  {
    hide Advance, Emitted, Events, Final, OwnEvents, Steps, CalleeOwner;
    match f
    case Done =>
      DoneFaithful(depth, owner, proxy, st);
    case Reads(below, slot, rest) =>
      var step := Step(depth, Sload, below + [slot]);
      EnterReady(st, step, owner, proxy);
      FrameEvents(rest, depth, owner, proxy, Advance(st, step));
      ReadFaithful(f, depth, owner, proxy, st);
    case Calls(kind, below, target, gas, callee, rest) =>
      var step := Step(depth, Invoke(kind), below + [target, gas]);
      var st1 := Advance(st, step);
      EnterReady(st, step, owner, proxy);
      EnterLength(st, step, owner);
      FrameEvents(callee, depth + 1, CalleeOwner(kind, target, owner), proxy, st1);
      var st2 := Final(st1, Steps(callee, depth + 1));
      ReturnReady(st1, st2, depth, owner);
      FrameEvents(rest, depth, owner, proxy, st2);
      CallFaithful(f, depth, owner, proxy, st);
  }

  lemma DoneFaithful(depth: nat, owner: Owner, proxy: Address, st: State)
    requires depth >= 1 && Ready(st, depth, owner)
    ensures Faithful(Done, depth, owner, proxy, st)
  {
  }

  lemma ReadFaithful(f: Frame, depth: nat, owner: Owner, proxy: Address, st: State)
    requires depth >= 1 && Ready(st, depth, owner) && f.Reads?
    requires Faithful(f.rest, depth, owner, proxy, Advance(st, Step(depth, Sload, f.below + [f.slot])))
    ensures Faithful(f, depth, owner, proxy, st)
  {
    hide Advance, Emitted, Events, Final;
    var step := Step(depth, Sload, f.below + [f.slot]);
    EnterReady(st, step, owner, proxy);
    EventsStep(st, step, Steps(f.rest, depth), proxy);
    KeepsTransitive(st, Advance(st, step), Final(Advance(st, step), Steps(f.rest, depth)), depth);
  }

  lemma CallFaithful(f: Frame, depth: nat, owner: Owner, proxy: Address, st: State)
    requires depth >= 1 && Ready(st, depth, owner) && f.Calls?
    requires var st1 := Advance(st, Step(depth, Invoke(f.kind), f.below + [f.target, f.gas]));
      && |st1.frames| == depth
      && Faithful(f.callee, depth + 1, CalleeOwner(f.kind, f.target, owner), proxy, st1)
      && Faithful(f.rest, depth, owner, proxy, Final(st1, Steps(f.callee, depth + 1)))
    ensures Faithful(f, depth, owner, proxy, st)
  {
    hide Advance, Emitted, Events, Final, CalleeOwner;
    var step := Step(depth, Invoke(f.kind), f.below + [f.target, f.gas]);
    var inner, outer := Steps(f.callee, depth + 1), Steps(f.rest, depth);
    var st1 := Advance(st, step);
    var st2 := Final(st1, inner);
    EnterReady(st, step, owner, proxy);
    EventsConcat(st1, inner, outer, proxy);
    EventsStep(st, step, inner + outer, proxy);
    ReturnReady(st1, st2, depth, owner);
    KeepsTransitive(st, st1, st2, depth);
    KeepsTransitive(st, st2, Final(st2, outer), depth);
  }

  lemma EventsStep(st: State, step: Step, rest: seq<Step>, proxy: Address)
    requires WellFormed(step) && AllWellFormed(rest) && st.frames != []
    ensures AllWellFormed([step] + rest)
    ensures Events(st, [step] + rest, proxy) == Emitted(st, step, proxy) + Events(Advance(st, step), rest, proxy)
    ensures Final(st, [step] + rest) == Final(Advance(st, step), rest)
  {
    hide Advance, Emitted;
    assert ([step] + rest)[1..] == rest;
  }

  /**
   For every tree of call frames, however deep and with whatever frames that leave no step, the
   interpreter reports exactly the reads of the proxy's own storage and the calls, in order.
   */
  lemma {:induction false} TraceIsFaithful(f: Frame, proxy: Address)
    ensures AllWellFormed(Steps(f, 1))
    ensures Events(State([Some(proxy)], None), Steps(f, 1), proxy) == OwnEvents(f, Some(proxy), proxy, 1)
  {
    FrameEvents(f, 1, Some(proxy), proxy, State([Some(proxy)], None));
  }
}
