/**
 A log scan that starts after the block it ends at (src/josuke/audit.py, `get_logs`), as one from
 beyond the latest block is: there is nothing to scan, and no rejection cuts it down. What such a scan
 asks for and returns, exactly when it goes on forever, and, at the end, what holds of scans of any range.
 */
module LogScanEmpty {
  import opened LogScan
  import opened LogScanEnds
  import opened LogScanExact
  import opened LogScanProofs
  import opened LogScanRounds
  import opened LogWindows
  import opened Sorting
  import opened Wrappers

  // ---------------------------------------------------------------------- one window

  /** A window such a scan asks for: of no blocks, or of one block between its end and its start. */
  predicate Slack(w: Window, from: int, to: int) {
    Reversed(w, from, to) || to <= w.lo == w.hi < from
  }

  ghost predicate AllReversed(ws: seq<Window>, from: int, to: int) {
    forall i :: 0 <= i < |ws| ==> Reversed(ws[i], from, to)
  }

  ghost predicate AllSlack(ws: seq<Window>, from: int, to: int) {
    forall i :: 0 <= i < |ws| ==> Slack(ws[i], from, to)
  }

  lemma FateSlack(reply: Reply, i: nat, w: Window, from: int, to: int)
    requires Slack(w, from, to)
    ensures FateOf(reply, i, w).None? <==> Refuses(reply, i, w)
    ensures FateOf(reply, i, w).Some? ==> (FateOf(reply, i, w).value.Retry? <==> !Taken(reply, i))
    ensures FateOf(reply, i, w).Some? && FateOf(reply, i, w).value.Retry? ==>
              var ws := FateOf(reply, i, w).value.windows;
              ws != [] && AllSlack(ws, from, to) && (Reversed(w, from, to) ==> AllReversed(ws, from, to))
  {
    if i in reply.answers && reply.answers[i].Rejected? && !reply.answers[i].error.missing {
      var e := reply.answers[i].error;
      if Reversed(w, from, to) {
        EmptyWindowDoubles(e, w, from, to);
        assert forall k :: 0 <= k < 2 ==> Narrow(e, w).value[k] in Narrow(e, w).value;
      } else {
        NoCap(e.caps, w.hi - w.lo);
      }
    }
  }

  // ---------------------------------------------------------------------- one round

  lemma {:induction false} SiftSlack(queue: seq<Window>, reply: Reply, firstHeld: Option<int>, n: nat,
                                     from: int, to: int)
    requires n <= |queue| && AllSlack(queue, from, to)
    ensures SiftTo(queue, reply, firstHeld, n).None? <==> exists i: nat :: i < n && Refuses(reply, i, queue[i])
    ensures SiftTo(queue, reply, firstHeld, n).Some? ==>
              var retry := SiftTo(queue, reply, firstHeld, n).value.retry;
              && AllSlack(retry, from, to) && (AllReversed(queue, from, to) ==> AllReversed(retry, from, to))
              && (retry == [] <==> forall i: nat :: i < n ==> Taken(reply, i))
    decreases n
  {
    if n > 0 {
      SiftSlack(queue, reply, firstHeld, n - 1, from, to);
      FateSlack(reply, n - 1, queue[n - 1], from, to);
      hide FateOf, Taken, Refuses, Slack, Reversed;
    }
  }

  /** Where history starts in such a window: its end, if a probe of it succeeds. */
  lemma SlackStart(probe: int -> Probe, e: NodeError, w: Window)
    requires w.hi <= w.lo
    ensures HistoryStart(probe, e, w) ==
            if e.historyFrom.Some? then Some(w.hi + 1) else
            match probe(w.hi)
            case Fails => None
            case Lacks => Some(w.hi + 1)
            case Holds => Some(w.hi)
  {
  }

  /** What the node says to a probe of the highest missing window's end, unless it named its first block. */
  function TopProbe(starts: seq<Lack>, probe: int -> Probe): Option<Probe>
    requires starts != []
  {
    var top := starts[Highest(starts)];
    if top.error.historyFrom.Some? then None else Some(probe(top.w.hi))
  }

  /** Dealing with the missing start raises. */
  predicate StartFails(starts: seq<Lack>, probe: int -> Probe) {
    starts != [] && (!Comparable(starts) || TopProbe(starts, probe) == Some(Fails))
  }

  /** The highest missing window's end is served to a probe, and asked for again. */
  predicate StartServed(starts: seq<Lack>, probe: int -> Probe) {
    starts != [] && TopProbe(starts, probe) == Some(Holds)
  }

  ghost predicate LackSlack(lacking: seq<Lack>, from: int, to: int) {
    forall l :: l in lacking ==> Slack(l.w, from, to)
  }

  lemma LocateSlack(scan: Scan, s: Sift, probe: int -> Probe, from: int, to: int)
    requires LackSlack(s.lacking, from, to)
    ensures var starts := Starts(s.lacking, s.firstHeld);
      && (Locate(scan, s, probe).None? <==> StartFails(starts, probe))
      && (Locate(scan, s, probe).Some? ==> exists rest ::
            Locate(scan, s, probe).value.queue == s.retry + rest && RestOf(rest, starts, probe, from, to))
  {
    var starts := Starts(s.lacking, s.firstHeld);
    StartsMembers(s.lacking, s.firstHeld);
    hide Starts, Highest, Lowest, Comparable, HistoryStart;
    if starts == [] {
      assert s.retry + [] == s.retry;
      assert RestOf([], starts, probe, from, to);
    } else {
      var top := starts[Highest(starts)];
      assert top in starts;
      SlackStart(probe, top.error, top.w);
      if Locate(scan, s, probe).Some? {
        var start := HistoryStart(probe, top.error, top.w).value;
        assert RestOf(Rest(start, top.w.hi), starts, probe, from, to);
      }
    }
  }

  /** What is asked for again of the missing start: one block at most. */
  ghost predicate RestOf(rest: seq<Window>, starts: seq<Lack>, probe: int -> Probe, from: int, to: int) {
    && (rest == [] <==> !StartServed(starts, probe))
    && (rest != [] ==> var b := starts[Highest(starts)].w.hi; rest == [Window(b, b)] && to <= b < from)
  }

  /** The blocks of missing windows, and those reported, lie between the scan's end and its start. */
  ghost predicate MissingSlack(ws: seq<Window>, from: int, to: int) {
    forall x :: Covered(ws, x) ==> to <= x < from
  }

  lemma {:induction false} GapsSlack(lacking: seq<Lack>, firstHeld: Option<int>, from: int, to: int)
    requires LackSlack(lacking, from, to)
    ensures MissingSlack(Gaps(lacking, firstHeld), from, to)
    decreases |lacking|
  {
    if lacking != [] {
      var rest := lacking[1..];
      assert lacking == [lacking[0]] + rest;
      GapsSlack(rest, firstHeld, from, to);
      assert lacking[0] in lacking;
      assert [] + Gaps(rest, firstHeld) == Gaps(rest, firstHeld);
      forall x
        ensures Covered([lacking[0].w] + Gaps(rest, firstHeld), x) ==> to <= x < from
      {
        hide Covered, Gaps;
        CoveredCons(lacking[0].w, Gaps(rest, firstHeld), x);
      }
    }
  }

  lemma CoveredCons(w: Window, ws: seq<Window>, x: int)
    ensures Covered([w] + ws, x) <==> w.lo <= x <= w.hi || Covered(ws, x)
  {
    if Covered(ws, x) {
      var i :| 0 <= i < |ws| && ws[i].lo <= x <= ws[i].hi;
      assert ([w] + ws)[i + 1] == ws[i];
    }
    assert ([w] + ws)[0] == w;
  }

  lemma MissingConcat(a: seq<Window>, b: seq<Window>, from: int, to: int)
    requires MissingSlack(a, from, to) && MissingSlack(b, from, to)
    ensures MissingSlack(a + b, from, to)
  {
    hide Covered;
    forall x
      ensures Covered(a + b, x) ==> to <= x < from
    {
      CoveredConcat(a, b, x);
    }
  }

  lemma StartsSlack(lacking: seq<Lack>, firstHeld: Option<int>, from: int, to: int)
    requires LackSlack(lacking, from, to)
    ensures LackSlack(Starts(lacking, firstHeld), from, to)
  {
    hide Starts, Slack;
    StartsMembers(lacking, firstHeld);
  }

  lemma LocateMissing(scan: Scan, s: Sift, probe: int -> Probe, from: int, to: int)
    requires LackSlack(s.lacking, from, to) && MissingSlack(scan.missing, from, to)
    requires Locate(scan, s, probe).Some?
    ensures MissingSlack(Locate(scan, s, probe).value.missing, from, to)
  {
    var starts, gaps := Starts(s.lacking, s.firstHeld), Gaps(s.lacking, s.firstHeld);
    hide *;
    LocateReports(scan, s, probe);
    GapsSlack(s.lacking, s.firstHeld, from, to);
    StartsSlack(s.lacking, s.firstHeld, from, to);
    MissingConcat(scan.missing, gaps, from, to);
    if starts != [] {
      StartMissing(starts, probe, from, to);
      var top := starts[Highest(starts)];
      var range := Window(Lowest(starts), HistoryStart(probe, top.error, top.w).value - 1);
      MissingConcat(scan.missing + gaps, [range], from, to);
    }
  }

  /** The range reported of the missing start. */
  lemma StartMissing(starts: seq<Lack>, probe: int -> Probe, from: int, to: int)
    requires starts != [] && LackSlack(starts, from, to)
    ensures var top := starts[Highest(starts)];
      var start := HistoryStart(probe, top.error, top.w);
      start.Some? ==> MissingSlack([Window(Lowest(starts), start.value - 1)], from, to)
  {
    hide Highest, Lowest, HistoryStart;
    var top := starts[Highest(starts)];
    assert top in starts;
    SlackStart(probe, top.error, top.w);
    LowestSlack(starts, from, to);
  }

  lemma LowestSlack(starts: seq<Lack>, from: int, to: int)
    requires starts != [] && LackSlack(starts, from, to)
    ensures to <= Lowest(starts)
  {
    var i :| 0 <= i < |starts| && Lowest(starts) == starts[i].w.lo;
    assert starts[i] in starts;
  }

  /** What every round of such a scan keeps. */
  ghost predicate EmptyKept(scan: Scan, from: int, to: int) {
    && AllSlack(scan.queue, from, to) && AllSlack(Spans(scan.held), from, to)
    && MissingSlack(scan.missing, from, to)
  }

  lemma SourcedSlack(queue: seq<Window>, reply: Reply, s: Sift, from: int, to: int)
    requires AllSlack(queue, from, to) && Sourced(queue, reply, s)
    ensures LackSlack(s.lacking, from, to) && AllSlack(Spans(s.held), from, to)
  {
    hide Slack;
    forall l | l in s.lacking
      ensures Slack(l.w, from, to)
    {
      var i: nat :| LackedBy(queue, reply, l, i);
    }
    forall j | 0 <= j < |s.held|
      ensures Slack(Spans(s.held)[j], from, to)
    {
      assert s.held[j] in s.held;
      var i: nat :| HeldBy(queue, reply, s.held[j], i);
    }
  }

  /** The round raises: its batch does, an answer, or the missing start. */
  ghost predicate Raises(scan: Scan, reply: Reply, probe: int -> Probe) {
    || BatchRaises(scan.queue, reply)
    || (exists i: nat :: i < |scan.queue| && Refuses(reply, i, scan.queue[i]))
    || StartFails(StartsOf(scan, reply), probe)
  }

  /** The round ends the scan: every window is answered, and no block is asked for again. */
  ghost predicate Settles(scan: Scan, reply: Reply, probe: int -> Probe) {
    (forall i: nat :: i < |scan.queue| ==> Taken(reply, i)) && !StartServed(StartsOf(scan, reply), probe)
  }

  /** Exactly when a round raises, and exactly when it leaves nothing to ask for. */
  lemma {:induction false} EmptyRound(scan: Scan, reply: Reply, probe: int -> Probe, from: int, to: int)
    requires EmptyKept(scan, from, to)
    ensures Round(scan, reply, probe).None? <==> Raises(scan, reply, probe)
    ensures Round(scan, reply, probe).Some? ==>
              var next := Round(scan, reply, probe).value;
              EmptyKept(next, from, to) && (next.queue == [] <==> Settles(scan, reply, probe))
  {
    hide *;
    var n := |scan.queue|;
    RoundParts(scan, reply, probe);
    FatalMeans(scan.queue, reply);
    KeptQueue(scan, from, to);
    SiftSlack(scan.queue, reply, scan.firstHeld, n, from, to);
    StartsParts(scan, reply, probe);
    var sifted := SiftTo(scan.queue, reply, scan.firstHeld, n);
    if sifted.Some? {
      SiftSourced(scan.queue, reply, scan.firstHeld, n);
      SourcedSlack(scan.queue, reply, sifted.value, from, to);
      EmptyLocate(scan, sifted.value, probe, from, to);
    }
  }

  lemma KeptQueue(scan: Scan, from: int, to: int)
    requires EmptyKept(scan, from, to)
    ensures AllSlack(scan.queue, from, to)
  {
  }

  lemma FatalMeans(queue: seq<Window>, reply: Reply)
    ensures Fatal(queue, reply) <==> BatchRaises(queue, reply)
  {
  }

  /** What raising and settling come to, once the windows are sorted out. */
  lemma StartsParts(scan: Scan, reply: Reply, probe: int -> Probe)
    ensures var sifted := SiftTo(scan.queue, reply, scan.firstHeld, |scan.queue|);
      var starts := if sifted.None? then [] else Starts(sifted.value.lacking, sifted.value.firstHeld);
      && (Raises(scan, reply, probe) <==>
            || BatchRaises(scan.queue, reply)
            || (exists i: nat :: i < |scan.queue| && Refuses(reply, i, scan.queue[i]))
            || (sifted.Some? && StartFails(starts, probe)))
      && (Settles(scan, reply, probe) <==>
            (forall i: nat :: i < |scan.queue| ==> Taken(reply, i)) && !StartServed(starts, probe))
  {
    hide SiftTo, Starts, BatchRaises, Refuses, Taken, TopProbe;
  }

  lemma EmptyLocate(scan: Scan, s: Sift, probe: int -> Probe, from: int, to: int)
    requires EmptyKept(scan, from, to) && LackSlack(s.lacking, from, to)
    requires AllSlack(s.retry, from, to) && AllSlack(Spans(s.held), from, to)
    ensures var starts := Starts(s.lacking, s.firstHeld);
      && (Locate(scan, s, probe).None? <==> StartFails(starts, probe))
      && (Locate(scan, s, probe).Some? ==>
            var next := Locate(scan, s, probe).value;
            EmptyKept(next, from, to) && (next.queue == [] <==> s.retry == [] && !StartServed(starts, probe)))
  {
    var starts := Starts(s.lacking, s.firstHeld);
    LocateSlack(scan, s, probe, from, to);
    hide Locate, Starts, Slack, StartFails, StartServed, LackSlack, MissingSlack;
    if Locate(scan, s, probe).Some? {
      var next := Locate(scan, s, probe).value;
      LocateMissing(scan, s, probe, from, to);
      LocateHeld(scan, s, probe);
      SpansConcat(scan.held, s.held);
      var rest :| next.queue == s.retry + rest && RestOf(rest, starts, probe, from, to);
      RestSlack(rest, starts, probe, from, to);
      assert next.queue == [] <==> s.retry == [] && rest == [];
    }
  }

  lemma RestSlack(rest: seq<Window>, starts: seq<Lack>, probe: int -> Probe, from: int, to: int)
    requires RestOf(rest, starts, probe, from, to)
    ensures AllSlack(rest, from, to) && (rest == [] <==> !StartServed(starts, probe))
  {
  }

  lemma LocateHeld(scan: Scan, s: Sift, probe: int -> Probe)
    requires Locate(scan, s, probe).Some?
    ensures Locate(scan, s, probe).value.held == scan.held + s.held
    ensures Locate(scan, s, probe).value.firstHeld == s.firstHeld
  {
  }

  // ---------------------------------------------------------------------- whole runs

  lemma EmptyFirst(from: int, to: int)
    requires from > to
    ensures EmptyKept(Scan([Window(from, to)], [], [], None), from, to)
  {
  }

  /** Whatever the node does, such a scan asks for no block but between its end and its start. */
  lemma {:induction false} EmptyStateKept(node: Node, from: int, to: int, n: nat)
    requires from > to && State(node, from, to, n).Going?
    ensures EmptyKept(State(node, from, to, n).scan, from, to)
    decreases n
  {
    if n == 0 {
      EmptyFirst(from, to);
    } else {
      var before := State(node, from, to, n - 1);
      EmptyStateKept(node, from, to, n - 1);
      hide EmptyKept, Round;
      if Live(before) {
        EmptyRound(before.scan, node.reply(n - 1, before.scan.queue), node.probe(n - 1), from, to);
      }
    }
  }

  /** In round `n` the node neither makes the scan raise nor settles it. */
  ghost predicate GoesOnAt(node: Node, from: int, to: int, n: nat) {
    var status := State(node, from, to, n);
    && status.Going?
    && !Raises(status.scan, node.reply(n, status.scan.queue), node.probe(n))
    && !Settles(status.scan, node.reply(n, status.scan.queue), node.probe(n))
  }

  /** A scan that got to a round goes on to the next exactly if the round neither raises nor settles it. */
  lemma EmptyStep(node: Node, from: int, to: int, n: nat)
    requires from > to && Live(State(node, from, to, n))
    ensures Live(State(node, from, to, n + 1)) <==> GoesOnAt(node, from, to, n)
  {
    var scan := State(node, from, to, n).scan;
    StateStep(node, from, to, n);
    EmptyStateKept(node, from, to, n);
    hide State, Round, Raises, Settles, EmptyKept;
    EmptyRound(scan, node.reply(n, scan.queue), node.probe(n), from, to);
  }

  /** Such a scan never ends exactly when no round makes it raise or settles it. */
  lemma {:induction false} EmptyDivergesExactly(node: Node, from: int, to: int)
    requires from > to
    ensures Diverges(node, from, to) <==> forall n: nat :: GoesOnAt(node, from, to, n)
  {
    hide State, GoesOnAt;
    if Diverges(node, from, to) {
      forall n: nat
        ensures GoesOnAt(node, from, to, n)
      {
        assert Live(State(node, from, to, n)) && Live(State(node, from, to, n + 1));
        EmptyStep(node, from, to, n);
      }
    }
    if forall n: nat :: GoesOnAt(node, from, to, n) {
      forall n: nat
        ensures Live(State(node, from, to, n))
      {
        GoesOn(node, from, to, n);
      }
    }
  }

  lemma {:induction false} GoesOn(node: Node, from: int, to: int, n: nat)
    requires from > to && forall m: nat :: GoesOnAt(node, from, to, m)
    ensures Live(State(node, from, to, n))
    decreases n
  {
    StateFirst(node, from, to);
    hide State, GoesOnAt;
    if n > 0 {
      GoesOn(node, from, to, n - 1);
      EmptyStep(node, from, to, n - 1);
    }
  }

  // ---------------------------------------------------------------------- scans that go on forever

  /** A node that answers every window, and rejects each for another reason than that it is missing. */
  ghost predicate Rejecting(node: Node) {
    forall round, queue, i: nat :: i < |queue| ==> RejectsAt(node.reply(round, queue), i)
  }

  predicate RejectsAt(reply: Reply, i: nat) {
    && reply.broken.None? && i in reply.answers
    && reply.answers[i].Rejected? && !reply.answers[i].error.missing
  }

  function PowerOfTwo(n: nat): (p: nat)
    ensures p > 0
  {
    if n == 0 then 1 else 2 * PowerOfTwo(n - 1)
  }

  lemma {:induction false} SiftDoubles(queue: seq<Window>, reply: Reply, firstHeld: Option<int>, n: nat,
                                       from: int, to: int)
    requires n <= |queue| && AllReversed(queue, from, to)
    requires forall i: nat :: i < n ==> RejectsAt(reply, i)
    ensures var s := SiftTo(queue, reply, firstHeld, n);
      && s.Some? && |s.value.retry| == 2 * n && AllReversed(s.value.retry, from, to)
      && s.value.lacking == [] && s.value.held == [] && s.value.firstHeld == firstHeld
    decreases n
  {
    if n > 0 {
      SiftDoubles(queue, reply, firstHeld, n - 1, from, to);
      var w := queue[n - 1];
      assert RejectsAt(reply, n - 1) && Reversed(w, from, to);
      var e := reply.answers[n - 1].error;
      EmptyWindowDoubles(e, w, from, to);
      hide Narrow, Reversed;
      var ws := Narrow(e, w).value;
      assert ws[0] in ws && ws[1] in ws;
    }
  }

  lemma RoundDoubles(scan: Scan, reply: Reply, probe: int -> Probe, from: int, to: int)
    requires AllReversed(scan.queue, from, to) && scan.queue != []
    requires forall i: nat :: i < |scan.queue| ==> RejectsAt(reply, i)
    requires scan.held == [] && scan.missing == [] && scan.firstHeld.None?
    ensures var next := Round(scan, reply, probe);
      && next.Some? && |next.value.queue| == 2 * |scan.queue| && AllReversed(next.value.queue, from, to)
      && next.value.held == [] && next.value.missing == [] && next.value.firstHeld.None?
  {
    RoundParts(scan, reply, probe);
    assert RejectsAt(reply, 0);
    SiftDoubles(scan.queue, reply, scan.firstHeld, |scan.queue|, from, to);
    hide Round, AllReversed, SiftTo, RejectsAt, Locate;
    NothingLacking(scan, SiftTo(scan.queue, reply, scan.firstHeld, |scan.queue|).value, probe);
  }

  lemma PowerStep(n: nat)
    requires n > 0
    ensures PowerOfTwo(n) == 2 * PowerOfTwo(n - 1) > 0
  {
  }

  lemma LiveNow(status: Status)
    ensures status.Going? && status.scan.queue != [] ==> Live(status)
  {
  }

  lemma RejectsAll(node: Node, round: nat, queue: seq<Window>)
    requires Rejecting(node)
    ensures forall i: nat :: i < |queue| ==> RejectsAt(node.reply(round, queue), i)
  {
  }

  /** With such a node the scan asks for twice as many windows each round. */
  lemma {:induction false} RejectingDoubles(node: Node, from: int, to: int, n: nat)
    requires from > to && Rejecting(node)
    ensures var status := State(node, from, to, n);
      && status.Going? && |status.scan.queue| == PowerOfTwo(n) && AllReversed(status.scan.queue, from, to)
      && status.scan.held == [] && status.scan.missing == [] && status.scan.firstHeld.None?
    decreases n
  {
    if n == 0 {
      StateFirst(node, from, to);
    } else {
      hide *;
      RejectingDoubles(node, from, to, n - 1);
      var scan := State(node, from, to, n - 1).scan;
      PowerStep(n);
      LiveNow(State(node, from, to, n - 1));
      StateStep(node, from, to, n - 1);
      RejectsAll(node, n - 1, scan.queue);
      RoundDoubles(scan, node.reply(n - 1, scan.queue), node.probe(n - 1), from, to);
    }
  }

  lemma NothingLacking(scan: Scan, s: Sift, probe: int -> Probe)
    requires s.lacking == [] && s.held == [] && scan.held == [] && scan.missing == []
    ensures Locate(scan, s, probe) == Some(Scan(s.retry, [], [], s.firstHeld))
  {
    assert Gaps([], s.firstHeld) == [] && scan.missing + [] == [];
  }

  /** So it never ends. */
  lemma {:induction false} RejectingDiverges(node: Node, from: int, to: int)
    requires from > to && Rejecting(node)
    ensures Diverges(node, from, to)
  {
    forall n: nat
      ensures Live(State(node, from, to, n))
    {
      RejectingDoubles(node, from, to, n);
    }
  }

  /** A node that never answers in time: of each batch nothing is answered, and narrower windows may do. */
  ghost predicate Silent(node: Node) {
    forall round, queue :: SilentReply(node.reply(round, queue))
  }

  predicate SilentReply(reply: Reply) {
    reply.answers == map[] && reply.broken.Some? && reply.broken.value.narrowable && 0 in reply.broken.value.failed
  }

  lemma SilentRound(w: Window, reply: Reply, probe: int -> Probe)
    requires w.lo != w.hi && !(w.lo < w.hi) && SilentReply(reply)
    ensures Round(Scan([w], [], [], None), reply, probe) == Some(Scan([w], [], [], None))
  {
    var scan := Scan([w], [], [], None);
    assert SiftTo([w], reply, None, 0) == Some(Sift([], [], [], None));
    assert [] + [w] == [w];
    assert SiftTo([w], reply, None, 1) == Some(Sift([w], [], [], None));
    hide SiftTo, Locate;
    NothingLacking(scan, Sift([w], [], [], None), probe);
  }

  /** With such a node the scan asks for its one window of no blocks forever. */
  lemma {:induction false} SilentStays(node: Node, from: int, to: int, n: nat)
    requires from > to && Silent(node)
    ensures State(node, from, to, n) == Going(Scan([Window(from, to)], [], [], None))
    decreases n
  {
    hide State, Round, SilentReply;
    StateFirst(node, from, to);
    if n > 0 {
      SilentStays(node, from, to, n - 1);
      var queue := [Window(from, to)];
      StateStep(node, from, to, n - 1);
      assert SilentReply(node.reply(n - 1, queue));
      SilentRound(queue[0], node.reply(n - 1, queue), node.probe(n - 1));
    }
  }

  lemma {:induction false} SilentDiverges(node: Node, from: int, to: int)
    requires from > to && Silent(node)
    ensures Diverges(node, from, to)
  {
    forall n: nat
      ensures Live(State(node, from, to, n))
    {
      SilentStays(node, from, to, n);
    }
  }

  // ---------------------------------------------------------------------- scans that end

  /** The node answers the scan's window at once, with a list of logs or as missing. */
  ghost predicate TakenAtOnce(node: Node, from: int, to: int) {
    Taken(node.reply(0, [Window(from, to)]), 0)
  }

  /** It says the window is missing, names no first block, and serves the scan's last block to a probe. */
  ghost predicate ServedAtOnce(node: Node, from: int, to: int) {
    var reply := node.reply(0, [Window(from, to)]);
    && 0 in reply.answers && reply.answers[0].Rejected?
    && reply.answers[0].error.missing && reply.answers[0].error.historyFrom.None?
    && node.probe(0)(to) == Holds
  }

  /** The scan's one window, answered at once. */
  lemma FirstTaken(node: Node, from: int, to: int)
    requires from > to && Serves(node) && TakenAtOnce(node, from, to)
    ensures Live(State(node, from, to, 1)) <==> ServedAtOnce(node, from, to)
    ensures ServedAtOnce(node, from, to) ==> LoneBlock(State(node, from, to, 1), to)
  {
    var first := Scan([Window(from, to)], [], [], None);
    var reply, probe := node.reply(0, first.queue), node.probe(0);
    StateFirst(node, from, to);
    StateStep(node, from, to, 0);
    assert ReplyOk(reply, 1);
    hide State, Serves;
    if reply.broken.Some? {
      NonemptyHolds(reply.broken.value.failed);
      assert false;
    }
    assert SiftTo(first.queue, reply, None, 0) == Some(Sift([], [], [], None));
    if reply.answers[0].Rejected? {
      var e := reply.answers[0].error;
      SiftLone(first, reply, e);
      SlackStart(probe, e, Window(from, to));
      hide SiftTo, HistoryStart;
      LocateLone(first, Sift([], [Lack(Window(from, to), e)], [], None), probe);
    }
  }

  /** All that is asked for is one block, and nothing is held. */
  ghost predicate LoneBlock(status: Status, b: int) {
    status.Going? && status.scan.queue == [Window(b, b)] && status.scan.firstHeld.None?
  }

  /** A scan of one block stays that while the node contradicts itself on it, and ends when it does not. */
  lemma LoneStep(node: Node, from: int, to: int, n: nat, b: int)
    requires from > to && Serves(node) && LoneBlock(State(node, from, to, n), b)
    ensures Flaps(node, n, b) ==> LoneBlock(State(node, from, to, n + 1), b)
    ensures !Flaps(node, n, b) ==> !Live(State(node, from, to, n + 1))
  {
    var scan := State(node, from, to, n).scan;
    var reply, probe := node.reply(n, scan.queue), node.probe(n);
    assert ReplyOk(reply, 1);
    hide State, Serves, Round, Raises, Settles, EmptyKept, ReplyOk, Diverges;
    if Flaps(node, n, b) {
      StuckStays(scan, reply, probe);
      StateStep(node, from, to, n);
    } else {
      EmptyStateKept(node, from, to, n);
      LoneEnds(scan, reply, probe, b, from, to);
      EmptyStep(node, from, to, n);
    }
  }

  lemma LoneEnds(scan: Scan, reply: Reply, probe: int -> Probe, b: int, from: int, to: int)
    requires EmptyKept(scan, from, to) && ReplyOk(reply, 1)
    requires scan.queue == [Window(b, b)] && scan.firstHeld.None?
    requires 0 in reply.answers && reply.answers[0].Rejected? && reply.answers[0].error.missing ==>
               reply.answers[0].error.historyFrom.Some? || probe(b) != Holds
    ensures Raises(scan, reply, probe) || Settles(scan, reply, probe)
  {
    if 0 !in reply.answers {
      assert Fatal(scan.queue, reply);
    } else if Refuses(reply, 0, scan.queue[0]) {
    } else if reply.answers[0].Rejected? {
      var e := reply.answers[0].error;
      SiftLone(scan, reply, e);
      LoneStarts(Lack(scan.queue[0], e));
      assert StartsOf(scan, reply) == [Lack(scan.queue[0], e)];
    } else {
      assert SiftTo(scan.queue, reply, None, 0) == Some(Sift([], [], [], None));
      assert SiftTo(scan.queue, reply, None, 1).value.lacking == [];
      assert StartsOf(scan, reply) == [];
    }
  }

  lemma LoneStarts(l: Lack)
    ensures Starts([l], None) == [l] && Comparable([l])
  {
    assert [l][1..] == [] && Starts([], None) == [];
    assert [l] + [] == [l];
  }

  lemma {:induction false} LoneStays(node: Node, from: int, to: int, n: nat)
    requires from > to && Serves(node) && n >= 1 && LoneBlock(State(node, from, to, 1), to)
    requires forall m: nat :: 1 <= m < n ==> Flaps(node, m, to)
    ensures LoneBlock(State(node, from, to, n), to)
    decreases n
  {
    hide State, Serves, Flaps, LoneBlock;
    if n > 1 {
      LoneStays(node, from, to, n - 1);
      LoneStep(node, from, to, n - 1, to);
    }
  }

  /**
   When the node answers the window of no blocks at once, the scan never ends exactly if the node calls
   it missing, serves the scan's last block to a probe, and contradicts itself on that block ever after.
   */
  lemma {:induction false} TakenDivergesExactly(node: Node, from: int, to: int)
    requires from > to && Serves(node) && TakenAtOnce(node, from, to)
    ensures Diverges(node, from, to) <==> ServedAtOnce(node, from, to) && FlapsFrom(node, 1, to)
  {
    hide State, Serves, Flaps, TakenAtOnce;
    FirstTaken(node, from, to);
    hide ServedAtOnce, LoneBlock;
    if Diverges(node, from, to) {
      assert Live(State(node, from, to, 1));
      forall n | n >= 1
        ensures Flaps(node, n, to)
      {
        FlapsUpTo(node, from, to, n);
      }
    }
    if ServedAtOnce(node, from, to) && FlapsFrom(node, 1, to) {
      forall n: nat
        ensures Live(State(node, from, to, n))
      {
        LoneLive(node, from, to, n);
      }
    }
  }

  lemma {:induction false} FlapsUpTo(node: Node, from: int, to: int, n: nat)
    requires from > to && Serves(node) && Diverges(node, from, to) && LoneBlock(State(node, from, to, 1), to) && n >= 1
    ensures forall m: nat :: 1 <= m <= n ==> Flaps(node, m, to)
    decreases n
  {
    hide State, Serves, Flaps, LoneBlock;
    if n > 1 {
      FlapsUpTo(node, from, to, n - 1);
    }
    LoneStays(node, from, to, n);
    LoneStep(node, from, to, n, to);
    assert Live(State(node, from, to, n + 1));
  }

  lemma LoneLive(node: Node, from: int, to: int, n: nat)
    requires from > to && Serves(node) && LoneBlock(State(node, from, to, 1), to) && FlapsFrom(node, 1, to)
    ensures Live(State(node, from, to, n))
  {
    StateFirst(node, from, to);
    hide State, Serves, Flaps;
    if n > 0 {
      LoneStays(node, from, to, n);
    }
  }

  // ---------------------------------------------------------------------- what such a scan returns

  /**
   The account of a scan of no blocks: windows the node answered, each of no blocks or of one before the
   scan's start, with exactly their logs in order; and reported ranges that hold no other blocks.
   */
  ghost predicate EmptyAccounts(node: Node, from: int, to: int, held: seq<Held>, logs: seq<Log>,
                                missing: seq<Window>) {
    && (forall h :: h in held ==> Given(node, h))
    && AllSlack(Spans(held), from, to) && MissingSlack(missing, from, to) && Separated(missing)
    && multiset(logs) == multiset(Flat(held)) && Ordered(logs, LogKey)
  }

  lemma {:induction false} EmptyReturnsAccounts(node: Node, from: int, to: int, n: nat, logs: seq<Log>,
                                                missing: seq<Window>)
    requires from > to && Returns(node, from, to, n, logs, missing)
    ensures EmptyAccounts(node, from, to, State(node, from, to, n).scan.held, logs, missing)
  {
    var scan := State(node, from, to, n).scan;
    EmptyStateKept(node, from, to, n);
    StateGiven(node, from, to, n);
    SortProperties(Flat(scan.held), LogKey);
    hide State, Sort, Covered, Given, Flat, AllSlack;
  }

  // ---------------------------------------------------------------------- a node that lacks only old blocks

  /** What every round of such a scan keeps when the node lacks exactly the blocks before `cutoff`. */
  ghost predicate Hollow(scan: Scan, from: int, to: int, cutoff: int) {
    && AllReversed(scan.queue, from, to)
    && (forall h :: h in scan.held ==> h.logs == [])
    && Outside(scan.missing, from, to, cutoff)
  }

  /** The ranges hold no blocks but those past the scan's end, before its start and before the cutoff. */
  ghost predicate Outside(ws: seq<Window>, from: int, to: int, cutoff: int) {
    forall x :: Covered(ws, x) ==> to < x < from && x < cutoff
  }

  /** Windows missing on such a node. */
  ghost predicate LackOld(lacking: seq<Lack>, from: int, to: int, cutoff: int) {
    forall l :: l in lacking ==> Reversed(l.w, from, to) && l.w.lo < cutoff
  }

  lemma SourcedHollow(queue: seq<Window>, reply: Reply, s: Sift, from: int, to: int, cutoff: int, chain: Chain)
    requires AllReversed(queue, from, to) && Sourced(queue, reply, s) && HonestReply(reply, queue, cutoff, chain)
    ensures LackOld(s.lacking, from, to, cutoff) && forall h :: h in s.held ==> h.logs == []
  {
    forall l | l in s.lacking
      ensures Reversed(l.w, from, to) && l.w.lo < cutoff
    {
      var i: nat :| LackedBy(queue, reply, l, i);
      assert Honest(reply.answers[i], queue[i], cutoff, chain);
    }
    forall h | h in s.held
      ensures h.logs == []
    {
      var i: nat :| HeldBy(queue, reply, h, i);
      assert Honest(reply.answers[i], queue[i], cutoff, chain) && Reversed(queue[i], from, to);
      assert multiset(h.logs) == multiset(LogsOf(chain, queue[i].lo, queue[i].hi)) == multiset{};
      assert |multiset(h.logs)| == |h.logs|;
    }
  }

  lemma {:induction false} GapsOutside(lacking: seq<Lack>, firstHeld: Option<int>, from: int, to: int, cutoff: int)
    requires LackOld(lacking, from, to, cutoff)
    ensures Outside(Gaps(lacking, firstHeld), from, to, cutoff)
    decreases |lacking|
  {
    if lacking != [] {
      var rest := lacking[1..];
      assert lacking == [lacking[0]] + rest && lacking[0] in lacking;
      GapsOutside(rest, firstHeld, from, to, cutoff);
      assert [] + Gaps(rest, firstHeld) == Gaps(rest, firstHeld);
      hide Covered, Gaps;
      forall x
        ensures Covered([lacking[0].w] + Gaps(rest, firstHeld), x) ==> to < x < from && x < cutoff
      {
        CoveredCons(lacking[0].w, Gaps(rest, firstHeld), x);
      }
    }
  }

  lemma OutsideConcat(a: seq<Window>, b: seq<Window>, from: int, to: int, cutoff: int)
    requires Outside(a, from, to, cutoff) && Outside(b, from, to, cutoff)
    ensures Outside(a + b, from, to, cutoff)
  {
    hide Covered;
    forall x
      ensures Covered(a + b, x) ==> to < x < from && x < cutoff
    {
      CoveredConcat(a, b, x);
    }
  }

  /** No block is asked for again: the node holds none before the cutoff. */
  lemma StartHollow(starts: seq<Lack>, probe: int -> Probe, from: int, to: int, cutoff: int)
    requires starts != [] && LackOld(starts, from, to, cutoff) && HoldsFrom(probe, cutoff)
    ensures !StartServed(starts, probe)
    ensures var top := starts[Highest(starts)];
      var start := HistoryStart(probe, top.error, top.w);
      start.Some? ==> Outside([Window(Lowest(starts), start.value - 1)], from, to, cutoff)
  {
    hide Highest, HistoryStart, Lowest;
    var top := starts[Highest(starts)];
    assert top in starts;
    SlackStart(probe, top.error, top.w);
    var i :| 0 <= i < |starts| && Lowest(starts) == starts[i].w.lo;
    assert starts[i] in starts;
  }

  lemma StartsOld(lacking: seq<Lack>, firstHeld: Option<int>, from: int, to: int, cutoff: int)
    requires LackOld(lacking, from, to, cutoff)
    ensures LackOld(Starts(lacking, firstHeld), from, to, cutoff) && LackSlack(lacking, from, to)
  {
    hide Starts, Reversed;
    StartsMembers(lacking, firstHeld);
  }

  lemma LocateHollow(scan: Scan, s: Sift, probe: int -> Probe, from: int, to: int, cutoff: int)
    requires LackOld(s.lacking, from, to, cutoff) && HoldsFrom(probe, cutoff)
    requires Outside(scan.missing, from, to, cutoff) && Locate(scan, s, probe).Some?
    ensures Outside(Locate(scan, s, probe).value.missing, from, to, cutoff)
  {
    hide *;
    var starts, gaps := Starts(s.lacking, s.firstHeld), Gaps(s.lacking, s.firstHeld);
    LocateReports(scan, s, probe);
    GapsOutside(s.lacking, s.firstHeld, from, to, cutoff);
    StartsOld(s.lacking, s.firstHeld, from, to, cutoff);
    OutsideConcat(scan.missing, gaps, from, to, cutoff);
    if starts != [] {
      StartHollow(starts, probe, from, to, cutoff);
      var top := starts[Highest(starts)];
      var range := Window(Lowest(starts), HistoryStart(probe, top.error, top.w).value - 1);
      OutsideConcat(scan.missing + gaps, [range], from, to, cutoff);
    }
  }

  lemma LocateNoMore(scan: Scan, s: Sift, probe: int -> Probe, from: int, to: int, cutoff: int)
    requires LackOld(s.lacking, from, to, cutoff) && HoldsFrom(probe, cutoff) && Locate(scan, s, probe).Some?
    ensures Locate(scan, s, probe).value.queue == s.retry
  {
    hide *;
    var starts := Starts(s.lacking, s.firstHeld);
    StartsOld(s.lacking, s.firstHeld, from, to, cutoff);
    LocateSlack(scan, s, probe, from, to);
    var rest :| Locate(scan, s, probe).value.queue == s.retry + rest && RestOf(rest, starts, probe, from, to);
    RestSlack(rest, starts, probe, from, to);
    if starts != [] {
      StartHollow(starts, probe, from, to, cutoff);
    } else {
      NoneServed(starts, probe);
    }
    assert rest == [] && s.retry + [] == s.retry;
  }

  lemma NoneServed(starts: seq<Lack>, probe: int -> Probe)
    requires starts == []
    ensures !StartServed(starts, probe)
  {
  }

  lemma RoundHollow(scan: Scan, reply: Reply, probe: int -> Probe, from: int, to: int, cutoff: int, chain: Chain)
    requires Hollow(scan, from, to, cutoff) && Round(scan, reply, probe).Some?
    requires HonestReply(reply, scan.queue, cutoff, chain) && HoldsFrom(probe, cutoff)
    ensures Hollow(Round(scan, reply, probe).value, from, to, cutoff)
  {
    var n := |scan.queue|;
    RoundParts(scan, reply, probe);
    var s := SiftTo(scan.queue, reply, scan.firstHeld, n).value;
    SiftSlack(scan.queue, reply, scan.firstHeld, n, from, to);
    SiftSourced(scan.queue, reply, scan.firstHeld, n);
    hide Round, SiftTo, Sourced, HonestReply, HoldsFrom, Outside, LackOld, Locate, Reversed;
    SourcedHollow(scan.queue, reply, s, from, to, cutoff, chain);
    LocateHollow(scan, s, probe, from, to, cutoff);
    LocateNoMore(scan, s, probe, from, to, cutoff);
    LocateHeld(scan, s, probe);
  }

  lemma {:induction false} StateHollow(node: Node, from: int, to: int, n: nat, cutoff: int, chain: Chain)
    requires from > to && Archive(node, cutoff, chain) && State(node, from, to, n).Going?
    ensures Hollow(State(node, from, to, n).scan, from, to, cutoff)
    decreases n
  {
    if n == 0 {
      StateFirst(node, from, to);
    } else {
      var before := State(node, from, to, n - 1);
      StateHollow(node, from, to, n - 1, cutoff, chain);
      hide Archive, Hollow, Round;
      if Live(before) {
        ArchiveRound(node, cutoff, chain, n - 1, before.scan.queue);
        RoundHollow(before.scan, node.reply(n - 1, before.scan.queue), node.probe(n - 1), from, to, cutoff, chain);
      }
    }
  }

  lemma {:induction false} FlatEmpty(held: seq<Held>)
    requires forall h :: h in held ==> h.logs == []
    ensures Flat(held) == []
    decreases |held|
  {
    if held != [] {
      FlatEmpty(held[..|held| - 1]);
    }
  }

  /** On such a node the scan returns no logs, and reports no block that the node holds. */
  lemma {:induction false} EmptyReturnsExactly(node: Node, from: int, to: int, n: nat, logs: seq<Log>,
                                               missing: seq<Window>, cutoff: int, chain: Chain)
    requires from > to && Archive(node, cutoff, chain) && Returns(node, from, to, n, logs, missing)
    ensures logs == [] && Outside(missing, from, to, cutoff)
  {
    var scan := State(node, from, to, n).scan;
    StateHollow(node, from, to, n, cutoff, chain);
    FlatEmpty(scan.held);
    SortProperties(Flat(scan.held), LogKey);
    hide State, Sort, Covered, Flat;
    assert multiset(logs) == multiset{};
    assert |multiset(logs)| == |logs|;
  }

  /** Answered at once by such a node, the scan ends. */
  lemma {:induction false} EmptyArchiveEnds(node: Node, from: int, to: int, cutoff: int, chain: Chain)
    requires from > to && Archive(node, cutoff, chain) && TakenAtOnce(node, from, to)
    ensures !Diverges(node, from, to)
  {
    var queue := [Window(from, to)];
    ArchiveRound(node, cutoff, chain, 0, queue);
    var answers := node.reply(0, queue).answers;
    assert 0 in answers ==> Honest(answers[0], queue[0], cutoff, chain);
    hide State, TakenAtOnce;
    TakenDivergesExactly(node, from, to);
  }

  const TOO_WIDE := NodeError(false, None, [], None, 0)

  function AllTooWide(n: nat): (answers: map<nat, Answer>)
    ensures forall i: nat :: i in answers <==> i < n
    ensures forall i :: i in answers ==> answers[i] == Rejected(TOO_WIDE)
  {
    if n == 0 then map[] else AllTooWide(n - 1)[n - 1 := Rejected(TOO_WIDE)]
  }

  /** A node that lacks exactly the blocks before `cutoff`, and rejects every window. */
  function Refuser(cutoff: int): Node {
    Node((round, queue) => Reply(AllTooWide(|queue|), None),
         round => block => if block >= cutoff then Holds else Lacks)
  }

  /** But one that rejects it is never done with, though it lacks only old blocks. */
  lemma {:induction false} RefuserDiverges(from: int, to: int, cutoff: int, chain: Chain)
    requires from > to && ChainOk(chain)
    ensures Archive(Refuser(cutoff), cutoff, chain) && Diverges(Refuser(cutoff), from, to)
  {
    var node := Refuser(cutoff);
    forall round: nat, queue: seq<Window>
      ensures HonestReply(node.reply(round, queue), queue, cutoff, chain)
      ensures ReplyOk(node.reply(round, queue), |queue|)
      ensures forall i: nat :: i < |queue| ==> RejectsAt(node.reply(round, queue), i)
    {
    }
    assert Rejecting(node);
    hide State, ChainOk;
    RejectingDiverges(node, from, to);
  }
}
