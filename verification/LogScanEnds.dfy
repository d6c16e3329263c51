/**
 When a log scan ends (src/josuke/audit.py, `get_logs`): every round shrinks the queue, except one
 in which the node rejects a single block as missing and then serves that very block to a probe.
 A scan of at least one block goes on forever exactly when the node does so in every round from some
 point on.
 */
module LogScanEnds {
  import opened LogScan
  import opened LogScanProofs
  import opened LogWindows
  import opened Wrappers

  /** The window is rejected and cut up, or cut up with its batch. */
  predicate Narrowed(reply: Reply, i: nat, w: Window) {
    if i in reply.answers then reply.answers[i].Rejected? && !reply.answers[i].error.missing
    else reply.broken.Some? && i in reply.broken.value.failed && w.lo < w.hi
  }

  function NarrowedTo(queue: seq<Window>, reply: Reply, n: nat): nat
    requires n <= |queue|
  {
    if n == 0 then 0 else NarrowedTo(queue, reply, n - 1) + if Narrowed(reply, n - 1, queue[n - 1]) then 1 else 0
  }

  lemma FateMeasure(reply: Reply, i: nat, w: Window)
    requires w.lo <= w.hi && FateOf(reply, i, w).Some?
    ensures var fate := FateOf(reply, i, w).value;
      && (fate.Retry? ==> Measure(fate.windows) + (if Narrowed(reply, i, w) then 1 else 0) <= Measure([w]))
      && (!fate.Retry? ==> !Narrowed(reply, i, w))
  {
    if i in reply.answers && reply.answers[i].Rejected? && !reply.answers[i].error.missing {
      NarrowTiles(reply.answers[i].error, w, 0);
    } else if i !in reply.answers && Narrowed(reply, i, w) {
      NarrowTiles(reply.broken.value.message, w, 0);
    }
  }

  /** The measure of everything sorted out so far. */
  function SiftedMeasure(s: Sift): int {
    Measure(s.retry) + Measure(Lacked(s.lacking)) + Measure(Spans(s.held))
  }

  lemma AddMeasure(s: Sift, w: Window, fate: Fate)
    ensures SiftedMeasure(Add(s, w, fate))
            == SiftedMeasure(s) + if fate.Retry? then Measure(fate.windows) else Measure([w])
  {
    hide Measure, Lower;
    match fate
    case Retry(windows) =>
      MeasureConcat(s.retry, windows);
    case Lacking(e) =>
      LackedSnoc(s.lacking, Lack(w, e));
      MeasureConcat(Lacked(s.lacking), [w]);
    case Holding(logs) =>
      SpansConcat(s.held, [Held(w, logs)]);
      assert Spans([Held(w, logs)]) == [w];
      MeasureConcat(Spans(s.held), [w]);
  }

  lemma MeasureNothing(none: seq<Window>, firstHeld: Option<int>)
    requires none == []
    ensures Measure(none) == 0 && SiftedMeasure(Sift([], [], [], firstHeld)) == 0
  {
  }

  lemma {:induction false} SiftMeasure(queue: seq<Window>, reply: Reply, firstHeld: Option<int>, n: nat)
    requires n <= |queue| && AllValid(queue) && SiftTo(queue, reply, firstHeld, n).Some?
    ensures SiftedMeasure(SiftTo(queue, reply, firstHeld, n).value) + NarrowedTo(queue, reply, n) <= Measure(queue[..n])
    decreases n
  {
    if n > 0 {
      var w := queue[n - 1];
      assert queue[..n] == queue[..n - 1] + [w] && w.lo <= w.hi;
      hide Measure, SiftedMeasure, Narrowed, FateOf, Add, AllValid;
      SiftMeasure(queue, reply, firstHeld, n - 1);
      FateMeasure(reply, n - 1, w);
      AddMeasure(SiftTo(queue, reply, firstHeld, n - 1).value, w, FateOf(reply, n - 1, w).value);
      MeasureConcat(queue[..n - 1], [w]);
    } else {
      MeasureNothing(queue[..0], firstHeld);
    }
  }

  /** When every window is answered, each is cut up, missing or held. */
  lemma {:induction false} SiftAll(queue: seq<Window>, reply: Reply, firstHeld: Option<int>, n: nat)
    requires n <= |queue| && SiftTo(queue, reply, firstHeld, n).Some?
    requires forall i :: 0 <= i < n ==> i in reply.answers
    ensures var s := SiftTo(queue, reply, firstHeld, n).value;
      NarrowedTo(queue, reply, n) + |s.lacking| + |s.held| == n
    decreases n
  {
    if n > 0 {
      SiftAll(queue, reply, firstHeld, n - 1);
    }
  }

  /** A batch that broke off narrows a window, or the scan raises. */
  lemma {:induction false} BrokenNarrows(queue: seq<Window>, reply: Reply, n: nat, i: nat)
    requires i < n <= |queue| && Narrowed(reply, i, queue[i])
    ensures NarrowedTo(queue, reply, n) >= 1
    decreases n
  {
    if i < n - 1 {
      BrokenNarrows(queue, reply, n - 1, i);
    }
  }

  /** The measure of windows, one of them set apart. */
  lemma MeasureApart(ws: seq<Window>, k: nat)
    requires k < |ws| && AllValid(ws)
    ensures Measure(ws) >= Measure([ws[k]]) + |ws| - 1
  {
    assert ws == ws[..k] + ([ws[k]] + ws[k + 1..]);
    hide Measure;
    MeasureConcat(ws[..k], [ws[k]] + ws[k + 1..]);
    MeasureConcat([ws[k]], ws[k + 1..]);
    MeasurePositive(ws[..k]);
    MeasurePositive(ws[k + 1..]);
  }

  lemma {:induction false} StartsMeasure(lacking: seq<Lack>, firstHeld: Option<int>)
    requires AllValid(Lacked(lacking))
    ensures AllValid(Lacked(Starts(lacking, firstHeld)))
    ensures Measure(Lacked(lacking)) >=
            Measure(Lacked(Starts(lacking, firstHeld))) + |lacking| - |Starts(lacking, firstHeld)|
    ensures |Starts(lacking, firstHeld)| == |lacking| ==> Starts(lacking, firstHeld) == lacking
    ensures |Starts(lacking, firstHeld)| <= |lacking|
    decreases |lacking|
  {
    if lacking != [] {
      var l, rest := lacking[0], lacking[1..];
      assert lacking == [l] + rest;
      LackedCons(l, rest);
      LackedCons(l, Starts(rest, firstHeld));
      AllValidConcat([l.w], Lacked(rest));
      assert Lacked(lacking)[0] == l.w;
      StartsMeasure(rest, firstHeld);
      AllValidConcat([l.w], Lacked(Starts(rest, firstHeld)));
      assert [] + Starts(rest, firstHeld) == Starts(rest, firstHeld);
      MeasurePositive([l.w]);
      hide Measure, AllValid, Lacked;
      MeasureConcat([l.w], Lacked(rest));
      MeasureConcat([l.w], Lacked(Starts(rest, firstHeld)));
    }
  }

  /** A scan of at least one block never compares two missing windows by their errors. */
  lemma {:induction false} NeverTied(scan: Scan, reply: Reply, s: Sift, from: int, to: int)
    requires Kept(scan, from, to) && SiftTo(scan.queue, reply, scan.firstHeld, |scan.queue|) == Some(s)
    ensures Comparable(Starts(s.lacking, s.firstHeld))
  {
    WithinValid(scan.queue, from, to);
    SiftSorted(scan.queue, reply, scan.firstHeld, |scan.queue|);
    SiftedWithin(scan.queue, reply, s, from, to);
    WithinValid(Lacked(s.lacking), from, to);
    hide SiftTo, Count, Lacked, AllValid, Comparable, Starts, Within, Sorted, RangesWithin, LowestHeld;
    StartsMeasure(s.lacking, s.firstHeld);
    forall y
      ensures Count(Lacked(Starts(s.lacking, s.firstHeld)), y) <= 1
    {
      StartsAndGaps(s.lacking, s.firstHeld, y);
      RoundCounts(scan, reply, s, y);
      assert Places(scan, y) <= 1;
    }
    ApartComparable(Starts(s.lacking, s.firstHeld));
  }

  /** The measure of the rest of a window: less, unless the node contradicts itself. */
  lemma RestMeasure(probe: int -> Probe, e: NodeError, w: Window)
    requires w.lo <= w.hi && HistoryStart(probe, e, w).Some?
    ensures var rest := Rest(HistoryStart(probe, e, w).value, w.hi);
      && Measure(rest) <= Measure([w])
      && (!Contradicts(probe, e, w) ==> Measure(rest) < Measure([w]))
  {
    HistoryStartBounds(probe, e, w);
    CountOne(w, 0);
    CountOne(Window(HistoryStart(probe, e, w).value, w.hi), 0);
    hide HistoryStart, Contradicts;
  }

  /** Missing windows leave the queue, but for the rest of one of them. */
  lemma LocateMeasure(scan: Scan, s: Sift, probe: int -> Probe)
    requires AllValid(Lacked(s.lacking)) && Locate(scan, s, probe).Some?
    ensures var next := Locate(scan, s, probe).value;
      var gone := Measure(s.retry) + Measure(Lacked(s.lacking)) - Measure(next.queue);
      && gone >= |s.lacking| - (if s.lacking == [] then 0 else 1)
      && (|s.lacking| == 1 && gone == 0 ==>
            BelowHeld(s.firstHeld, s.lacking[0].w) && Contradicts(probe, s.lacking[0].error, s.lacking[0].w))
  {
    var starts := Starts(s.lacking, s.firstHeld);
    StartsMeasure(s.lacking, s.firstHeld);
    if starts != [] {
      var k := Highest(starts);
      var top := starts[k];
      assert Lacked(starts)[k] == top.w;
      TopStarts(s, probe);
      hide Measure, AllValid, Lacked, Starts, HistoryStart, Contradicts, Highest, Lowest, BelowHeld;
      MeasureApart(Lacked(starts), k);
      LackedLength(starts);
      var start := HistoryStart(probe, top.error, top.w).value;
      RestMeasure(probe, top.error, top.w);
      MeasureConcat(s.retry, Rest(start, top.w.hi));
      StartsMembers(s.lacking, s.firstHeld);
      assert starts[k] in starts;
    } else if s.lacking != [] {
      MeasureNone();
    } else {
      MeasureNone();
    }
  }

  lemma LackedLength(lacking: seq<Lack>)
    ensures |Lacked(lacking)| == |lacking|
  {
  }

  lemma MeasureNone()
    ensures Measure(Lacked([])) == 0
  {
  }

  /** The queue is a single block, which the node rejects as missing but serves to the probe. */
  predicate Stuck(scan: Scan, reply: Reply, probe: int -> Probe) {
    && |scan.queue| == 1 && BelowHeld(scan.firstHeld, scan.queue[0])
    && 0 in reply.answers && reply.answers[0].Rejected? && reply.answers[0].error.missing
    && Contradicts(probe, reply.answers[0].error, scan.queue[0])
  }

  /** A round shrinks the queue, unless it is stuck. */
  lemma {:induction false} RoundShrinks(scan: Scan, reply: Reply, probe: int -> Probe)
    requires AllValid(scan.queue) && scan.queue != [] && ReplyOk(reply, |scan.queue|)
    requires Round(scan, reply, probe).Some?
    ensures var next := Round(scan, reply, probe).value;
      && Measure(next.queue) <= Measure(scan.queue)
      && (Stuck(scan, reply, probe) || Measure(next.queue) < Measure(scan.queue))
  {
    var n := |scan.queue|;
    var next := Round(scan, reply, probe).value;
    var s := SiftTo(scan.queue, reply, scan.firstHeld, n).value;
    SiftSorted(scan.queue, reply, scan.firstHeld, n);
    SiftMeasure(scan.queue, reply, scan.firstHeld, n);
    assert scan.queue[..n] == scan.queue;
    LackedValid(scan.queue, reply, s);
    HeldMeasure(scan.queue, reply, s);
    LocateMeasure(scan, s, probe);
    if reply.broken.Some? {
      var i :| i in reply.broken.value.failed && i < n && scan.queue[i].lo != scan.queue[i].hi;
      BrokenNarrows(scan.queue, reply, n, i);
    } else {
      SiftAll(scan.queue, reply, scan.firstHeld, n);
      if n == 1 && |s.lacking| == 1 {
        SiftSingle(scan, reply, s);
      }
    }
  }

  lemma LackedValid(queue: seq<Window>, reply: Reply, s: Sift)
    requires AllValid(queue) && Sorted(queue, reply, s)
    ensures AllValid(Lacked(s.lacking))
  {
    forall j | 0 <= j < |s.lacking|
      ensures s.lacking[j].w.lo <= s.lacking[j].w.hi
    {
      assert s.lacking[j] in s.lacking;
      var i :| LackedBy(queue, reply, s.lacking[j], i);
    }
  }

  lemma HeldMeasure(queue: seq<Window>, reply: Reply, s: Sift)
    requires AllValid(queue) && Sorted(queue, reply, s)
    ensures Measure(Spans(s.held)) >= |s.held|
  {
    forall j | 0 <= j < |s.held|
      ensures s.held[j].w.lo <= s.held[j].w.hi
    {
      assert s.held[j] in s.held;
      var i :| HeldBy(queue, reply, s.held[j], i);
    }
    MeasurePositive(Spans(s.held));
  }

  lemma SiftSingle(scan: Scan, reply: Reply, s: Sift)
    requires |scan.queue| == 1 && SiftTo(scan.queue, reply, scan.firstHeld, 1) == Some(s) && |s.lacking| == 1
    ensures 0 in reply.answers && reply.answers[0].Rejected? && reply.answers[0].error.missing
    ensures s.lacking == [Lack(scan.queue[0], reply.answers[0].error)] && s.firstHeld == scan.firstHeld
  {
    assert SiftTo(scan.queue, reply, scan.firstHeld, 0) == Some(Sift([], [], [], scan.firstHeld));
  }

  /** A stuck round leaves the scan as it was, but for a missing range of no blocks. */
  lemma {:induction false} StuckStays(scan: Scan, reply: Reply, probe: int -> Probe)
    requires Stuck(scan, reply, probe) && ReplyOk(reply, 1)
    ensures var b := scan.queue[0].lo;
      Round(scan, reply, probe) == Some(scan.(missing := scan.missing + [Window(b, b - 1)]))
  {
    hide SiftTo, Locate, HistoryStart, Contradicts;
    var w, e := scan.queue[0], reply.answers[0].error;
    if reply.broken.Some? {
      NonemptyHolds(reply.broken.value.failed);
    }
    SiftLone(scan, reply, e);
    ContradictsStart(probe, e, w);
    LocateLone(scan, Sift([], [Lack(w, e)], [], scan.firstHeld), probe);
    assert scan.queue == [w];
  }

  lemma ContradictsStart(probe: int -> Probe, e: NodeError, w: Window)
    requires Contradicts(probe, e, w)
    ensures HistoryStart(probe, e, w) == Some(w.hi) && w == Window(w.hi, w.hi)
  {
  }

  lemma NonemptyHolds(xs: seq<nat>)
    requires xs != []
    ensures exists x :: x in xs
  {
    assert xs[0] in xs;
  }

  lemma SiftLone(scan: Scan, reply: Reply, e: NodeError)
    requires |scan.queue| == 1 && 0 in reply.answers && reply.answers[0] == Rejected(e) && e.missing
    ensures SiftTo(scan.queue, reply, scan.firstHeld, 1) == Some(Sift([], [Lack(scan.queue[0], e)], [], scan.firstHeld))
  {
    assert SiftTo(scan.queue, reply, scan.firstHeld, 0) == Some(Sift([], [], [], scan.firstHeld));
    assert [] + [Lack(scan.queue[0], e)] == [Lack(scan.queue[0], e)];
  }

  /** A lone missing window below every window held. */
  lemma LocateLone(scan: Scan, s: Sift, probe: int -> Probe)
    requires s.retry == [] && s.held == [] && |s.lacking| == 1
    requires BelowHeld(s.firstHeld, s.lacking[0].w)
    ensures var l := s.lacking[0];
      var start := HistoryStart(probe, l.error, l.w);
      Locate(scan, s, probe) == if start.None? then None else
        Some(Scan(Rest(start.value, l.w.hi), scan.held, scan.missing + [Window(l.w.lo, start.value - 1)], s.firstHeld))
  {
    assert Starts(s.lacking[1..], s.firstHeld) == [] && Gaps(s.lacking[1..], s.firstHeld) == [];
    assert s.lacking == [s.lacking[0]];
    assert Starts(s.lacking, s.firstHeld) == s.lacking && Gaps(s.lacking, s.firstHeld) == [];
    assert scan.held + [] == scan.held && scan.missing + [] == scan.missing;
    assert forall start, hi :: [] + Rest(start, hi) == Rest(start, hi);
    hide HistoryStart;
  }

  // ---------------------------------------------------------------------- whole runs

  ghost predicate StuckAt(node: Node, from: int, to: int, n: nat) {
    var status := State(node, from, to, n);
    status.Going? && Stuck(status.scan, node.reply(n, status.scan.queue), node.probe(n))
  }

  ghost predicate StuckFrom(node: Node, from: int, to: int, n: nat) {
    forall m :: m >= n ==> StuckAt(node, from, to, m)
  }

  lemma StateShrinks(node: Node, from: int, to: int, n: nat)
    requires from <= to && Serves(node) && Live(State(node, from, to, n)) && Live(State(node, from, to, n + 1))
    ensures
      var before := Measure(State(node, from, to, n).scan.queue);
      var after := Measure(State(node, from, to, n + 1).scan.queue);
      0 <= after <= before && (StuckAt(node, from, to, n) || after < before)
  {
    var before := State(node, from, to, n);
    StateStep(node, from, to, n);
    hide State, Round, Measure;
    StateKept(node, from, to, n);
    StateKept(node, from, to, n + 1);
    WithinValid(before.scan.queue, from, to);
    WithinValid(State(node, from, to, n + 1).scan.queue, from, to);
    MeasurePositive(State(node, from, to, n + 1).scan.queue);
    RoundShrinks(before.scan, node.reply(n, before.scan.queue), node.probe(n));
  }

  lemma {:induction false} MeasureFalls(node: Node, from: int, to: int, n: nat, m: nat)
    requires from <= to && Serves(node) && Diverges(node, from, to) && n <= m
    ensures Measure(State(node, from, to, m).scan.queue) <= Measure(State(node, from, to, n).scan.queue)
    decreases m
  {
    hide State, Measure, Serves;
    assert Live(State(node, from, to, n)) && Live(State(node, from, to, m));
    if n < m {
      assert Live(State(node, from, to, m - 1));
      MeasureFalls(node, from, to, n, m - 1);
      StateShrinks(node, from, to, m - 1);
    }
  }

  lemma {:induction false} FindsStuck(node: Node, from: int, to: int, n: nat)
    requires from <= to && Serves(node) && Diverges(node, from, to)
    ensures exists m :: StuckFrom(node, from, to, m)
    decreases Measure(State(node, from, to, n).scan.queue)
  {
    hide State, Measure, Serves, StuckAt;
    assert Live(State(node, from, to, n));
    if !StuckFrom(node, from, to, n) {
      var m :| m >= n && !StuckAt(node, from, to, m);
      assert Live(State(node, from, to, m)) && Live(State(node, from, to, m + 1));
      MeasureFalls(node, from, to, n, m);
      StateShrinks(node, from, to, m);
      FindsStuck(node, from, to, m + 1);
    }
  }

  /** A scan never ends exactly when it is stuck in every round from some point on. */
  lemma {:induction false} RangeDivergesExactly(node: Node, from: int, to: int)
    requires from <= to && Serves(node)
    ensures Diverges(node, from, to) <==> exists n :: StuckFrom(node, from, to, n)
  {
    if Diverges(node, from, to) {
      FindsStuck(node, from, to, 0);
    }
    if n :| StuckFrom(node, from, to, n) {
      forall m: nat
        ensures Live(State(node, from, to, m))
      {
        var later := if m > n then m else n;
        assert StuckAt(node, from, to, later);
        if !Live(State(node, from, to, m)) {
          EndedStays(node, from, to, m, later);
        }
      }
    }
  }

  /** In round `n` the node rejects block `b` alone as missing, naming no first block, and serves it to a probe. */
  predicate Flaps(node: Node, n: nat, b: int) {
    var reply := node.reply(n, [Window(b, b)]);
    && 0 in reply.answers && reply.answers[0].Rejected?
    && reply.answers[0].error.missing && reply.answers[0].error.historyFrom.None?
    && node.probe(n)(b) == Holds
  }

  ghost predicate FlapsForever(node: Node, b: int) {
    exists n :: FlapsFrom(node, n, b)
  }

  ghost predicate FlapsFrom(node: Node, n: nat, b: int) {
    forall m :: m >= n ==> Flaps(node, m, b)
  }

  lemma StuckFlaps(node: Node, from: int, to: int, n: nat)
    requires from <= to && Serves(node) && StuckFrom(node, from, to, n)
    ensures exists b :: from <= b <= to && FlapsForever(node, b)
  {
    hide State, Serves, Flaps;
    StuckSame(node, from, to, n, n);
    var b := State(node, from, to, n).scan.queue[0].lo;
    forall m | m >= n
      ensures Flaps(node, m, b)
    {
      StuckSame(node, from, to, n, m);
    }
    assert FlapsFrom(node, n, b);
    StateKept(node, from, to, n);
    assert from <= b <= to && FlapsForever(node, b);
  }

  /** So a scan ends if there is no block on which the node contradicts itself forever. */
  lemma {:induction false} RangeEndsUnlessFlapping(node: Node, from: int, to: int)
    requires from <= to && Serves(node)
    requires forall b :: from <= b <= to ==> !FlapsForever(node, b)
    ensures !Diverges(node, from, to)
  {
    RangeDivergesExactly(node, from, to);
    if n :| StuckFrom(node, from, to, n) {
      StuckFlaps(node, from, to, n);
    }
    hide State;
  }

  lemma {:induction false} StuckSame(node: Node, from: int, to: int, n: nat, m: nat)
    requires from <= to && Serves(node) && StuckFrom(node, from, to, n) && m >= n
    ensures StuckAt(node, from, to, n) && StuckAt(node, from, to, m)
    ensures State(node, from, to, m).scan.queue == State(node, from, to, n).scan.queue
    ensures Flaps(node, m, State(node, from, to, n).scan.queue[0].lo)
    decreases m
  {
    hide State, Round;
    assert StuckAt(node, from, to, n) && StuckAt(node, from, to, m);
    if m > n {
      StuckSame(node, from, to, n, m - 1);
      StateStep(node, from, to, m - 1);
      var before := State(node, from, to, m - 1).scan;
      StuckStays(before, node.reply(m - 1, before.queue), node.probe(m - 1));
    }
    var queue := State(node, from, to, m).scan.queue;
    assert queue == [Window(queue[0].lo, queue[0].lo)];
  }

  const LACKING := NodeError(true, None, [], None, 0)

  function AllRejected(n: nat): (answers: map<nat, Answer>)
    ensures forall i: nat :: i in answers <==> i < n
    ensures forall i :: i in answers ==> answers[i] == Rejected(LACKING)
  {
    if n == 0 then map[] else AllRejected(n - 1)[n - 1 := Rejected(LACKING)]
  }

  /** A node that rejects every window as missing and serves every probe. */
  function Flapping(): Node {
    Node((round, queue) => Reply(AllRejected(|queue|), None), round => block => Holds)
  }

  /** No scan with such a node ends. */
  lemma {:induction false} FlappingDiverges(from: int, to: int)
    requires from <= to
    ensures Serves(Flapping()) && Diverges(Flapping(), from, to)
  {
    forall n: nat
      ensures Live(State(Flapping(), from, to, n))
    {
      FlappingRound(from, to, n);
    }
  }

  lemma FlappingStep(scan: Scan, n: nat)
    requires |scan.queue| == 1 && scan.firstHeld.None? && scan.queue[0].lo <= scan.queue[0].hi
    ensures var next := Round(scan, Flapping().reply(n, scan.queue), Flapping().probe(n));
      && next.Some? && |next.value.queue| == 1 && next.value.firstHeld.None?
      && next.value.queue[0].lo <= next.value.queue[0].hi
  {
    var w := scan.queue[0];
    var reply, probe := Flapping().reply(n, scan.queue), Flapping().probe(n);
    assert probe == (block => Holds);
    RoundParts(scan, reply, probe);
    hide SiftTo, HistoryStart, Locate, Bisect, Round, Flapping;
    SiftLone(scan, reply, LACKING);
    FlappingStart(probe, w);
    LocateLone(scan, Sift([], [Lack(w, LACKING)], [], None), probe);
  }

  lemma {:induction false} FlappingRound(from: int, to: int, n: nat)
    requires from <= to
    ensures var status := State(Flapping(), from, to, n);
      && status.Going? && |status.scan.queue| == 1 && status.scan.firstHeld.None?
      && status.scan.queue[0].lo <= status.scan.queue[0].hi
    decreases n
  {
    hide Flapping, Round;
    if n > 0 {
      FlappingRound(from, to, n - 1);
      StateStep(Flapping(), from, to, n - 1);
      hide State;
      FlappingStep(State(Flapping(), from, to, n - 1).scan, n - 1);
    }
  }

  lemma FlappingStart(probe: int -> Probe, w: Window)
    requires w.lo <= w.hi && forall b :: probe(b) == Holds
    ensures HistoryStart(probe, LACKING, w).Some? && HistoryStart(probe, LACKING, w).value <= w.hi
  {
    FlappingBisect(probe, w.lo, w.hi);
  }

  lemma {:induction false} FlappingBisect(probe: int -> Probe, missing: int, held: int)
    requires missing <= held && forall b :: probe(b) == Holds
    ensures Bisect(probe, missing, held).Some? && Bisect(probe, missing, held).value <= held
    decreases held - missing
  {
    if held - missing > 1 {
      FlappingBisect(probe, missing, (missing + held) / 2);
    }
  }
}
