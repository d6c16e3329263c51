/**
 Rounds of a log scan of at least one block (src/josuke/audit.py, `get_logs`): what becomes of each window,
 exactly when a round raises, and so which nodes a scan always succeeds on.
 */
module LogScanRounds {
  import opened LogScan
  import opened LogScanEnds
  import opened LogScanProofs
  import opened LogWindows
  import opened Wrappers

  // ---------------------------------------------------------------------- one window

  /** The window is answered, with logs or as missing: it leaves the queue. */
  predicate Taken(reply: Reply, i: nat) {
    && i in reply.answers
    && (reply.answers[i].Logs? || (reply.answers[i].Rejected? && reply.answers[i].error.missing))
  }

  /** The answer to the window raises: it is no list, or a single block is rejected though not missing. */
  predicate Refuses(reply: Reply, i: nat, w: Window) {
    && i in reply.answers
    && (reply.answers[i].BadResponse?
        || (reply.answers[i].Rejected? && !reply.answers[i].error.missing && w.lo == w.hi))
  }

  /** What becomes of a window whose answer does not raise. */
  ghost predicate FateRight(reply: Reply, i: nat, w: Window, fate: Fate) {
    if i !in reply.answers then
      && fate.Retry?
      && (if reply.broken.Some? && i in reply.broken.value.failed && w.lo < w.hi
          then CutAs(reply.broken.value.message, w, fate.windows) else fate.windows == [w])
    else
      match reply.answers[i]
      case Logs(logs) => fate == Holding(logs)
      case BadResponse => false
      case Rejected(e) =>
        if e.missing then fate == Lacking(e) else w.lo < w.hi && fate.Retry? && CutAs(e, w, fate.windows)
  }

  /** A window is held, missing, cut up or sent again, unless its answer raises. */
  lemma {:induction false} FateMeans(reply: Reply, i: nat, w: Window)
    requires w.lo <= w.hi
    ensures FateOf(reply, i, w).None? <==> Refuses(reply, i, w)
    ensures FateOf(reply, i, w).Some? ==> FateRight(reply, i, w, FateOf(reply, i, w).value)
  {
    if i in reply.answers && reply.answers[i].Rejected? {
      NarrowCuts(reply.answers[i].error, w);
    } else if reply.broken.Some? {
      NarrowCuts(reply.broken.value.message, w);
    }
    hide Narrow, CutAs;
  }

  // ---------------------------------------------------------------------- one round

  /** The batch broke, and narrower windows would not help, or all those that failed are single blocks. */
  predicate BatchRaises(queue: seq<Window>, reply: Reply) {
    && reply.broken.Some?
    && (reply.broken.value.narrowable ==>
          forall i :: i in reply.broken.value.failed && i < |queue| ==> queue[i].lo == queue[i].hi)
  }

  /** The windows of a round in the missing start, unless the round raises before it is dealt with. */
  function StartsOf(scan: Scan, reply: Reply): seq<Lack> {
    match SiftTo(scan.queue, reply, scan.firstHeld, |scan.queue|)
    case None => []
    case Some(s) => Starts(s.lacking, s.firstHeld)
  }

  /** Two windows of the missing start do not compare, or a probe of its highest one fails. */
  predicate StartLost(starts: seq<Lack>, probe: int -> Probe) {
    && starts != []
    && (!Comparable(starts)
        || var top := starts[Highest(starts)]; top.error.historyFrom.None? && LastsNot(probe, top.w))
  }

  /** A probe that the bisection makes fails. */
  predicate LastsNot(probe: int -> Probe, w: Window) {
    probe(w.hi) == Fails || (probe(w.hi) == Holds && BisectFails(probe, w.lo, w.hi))
  }

  /** Halving the blocks between one missing and one held comes to a probe that fails. */
  predicate BisectFails(probe: int -> Probe, missing: int, held: int)
    decreases held - missing
  {
    && held - missing > 1
    && var mid := (missing + held) / 2;
       match probe(mid)
       case Fails => true
       case Holds => BisectFails(probe, missing, mid)
       case Lacks => BisectFails(probe, mid, held)
  }

  /** The round raises: its batch does, an answer, or the missing start. */
  ghost predicate RangeRaises(scan: Scan, reply: Reply, probe: int -> Probe) {
    || BatchRaises(scan.queue, reply)
    || (exists i: nat :: i < |scan.queue| && Refuses(reply, i, scan.queue[i]))
    || StartLost(StartsOf(scan, reply), probe)
  }

  lemma {:induction false} SiftRefused(queue: seq<Window>, reply: Reply, firstHeld: Option<int>, n: nat)
    requires n <= |queue| && AllValid(queue)
    ensures SiftTo(queue, reply, firstHeld, n).None? <==> exists i: nat :: i < n && Refuses(reply, i, queue[i])
    decreases n
  {
    if n > 0 {
      SiftRefused(queue, reply, firstHeld, n - 1);
      FateMeans(reply, n - 1, queue[n - 1]);
      hide FateOf, FateRight, Refuses, Add;
    }
  }

  lemma {:induction false} BisectNone(probe: int -> Probe, missing: int, held: int)
    ensures Bisect(probe, missing, held).None? <==> BisectFails(probe, missing, held)
    decreases held - missing
  {
    if held - missing > 1 {
      var mid := (missing + held) / 2;
      BisectNone(probe, missing, mid);
      BisectNone(probe, mid, held);
    }
  }

  lemma LocateLost(scan: Scan, s: Sift, probe: int -> Probe)
    ensures Locate(scan, s, probe).None? <==> StartLost(Starts(s.lacking, s.firstHeld), probe)
  {
    var starts := Starts(s.lacking, s.firstHeld);
    if starts != [] {
      var top := starts[Highest(starts)];
      BisectNone(probe, top.w.lo, top.w.hi);
    }
    hide Starts, Gaps, Highest, Lowest, Comparable, Bisect, BisectFails;
  }

  /** Exactly when a round raises. */
  lemma {:induction false} RangeRound(scan: Scan, reply: Reply, probe: int -> Probe)
    requires AllValid(scan.queue)
    ensures Round(scan, reply, probe).None? <==> RangeRaises(scan, reply, probe)
  {
    var n := |scan.queue|;
    RoundParts(scan, reply, probe);
    SiftRefused(scan.queue, reply, scan.firstHeld, n);
    var sifted := SiftTo(scan.queue, reply, scan.firstHeld, n);
    if sifted.Some? {
      LocateLost(scan, sifted.value, probe);
    }
    hide Round, SiftTo, Locate, Refuses, Starts, StartLost, AllValid;
  }

  // ---------------------------------------------------------------------- nodes that let no scan raise

  /** A probe that fails is needed for a missing start to be lost. */
  lemma {:induction false} BisectHolds(probe: int -> Probe, missing: int, held: int)
    requires forall b :: probe(b) != Fails
    ensures !BisectFails(probe, missing, held)
    decreases held - missing
  {
    if held - missing > 1 {
      var mid := (missing + held) / 2;
      BisectHolds(probe, missing, mid);
      BisectHolds(probe, mid, held);
    }
  }

  /**
   A node that always answers one block with a list or as missing, and a probe with one or the other; whose
   batches break, if at all, on a window that could be narrower.
   */
  ghost predicate Willing(node: Node) {
    && (forall round, queue :: WillingReply(node.reply(round, queue), queue))
    && (forall round, b :: node.probe(round)(b) != Fails)
  }

  ghost predicate WillingReply(reply: Reply, queue: seq<Window>) {
    && !BatchRaises(queue, reply)
    && forall i: nat :: i < |queue| ==> !Refuses(reply, i, queue[i])
  }

  lemma WillingRound(node: Node, from: int, to: int, n: nat, scan: Scan)
    requires Willing(node) && Kept(scan, from, to)
    ensures !RangeRaises(scan, node.reply(n, scan.queue), node.probe(n))
  {
    var reply, probe := node.reply(n, scan.queue), node.probe(n);
    assert WillingReply(reply, scan.queue);
    assert forall b :: probe(b) != Fails;
    var starts := StartsOf(scan, reply);
    hide Kept, BatchRaises, Refuses, Willing;
    var sifted := SiftTo(scan.queue, reply, scan.firstHeld, |scan.queue|);
    if starts != [] {
      NeverTied(scan, reply, sifted.value, from, to);
      var top := starts[Highest(starts)];
      BisectHolds(probe, top.w.lo, top.w.hi);
    }
  }

  lemma WillingStep(node: Node, from: int, to: int, n: nat)
    requires Willing(node) && Live(State(node, from, to, n)) && Kept(State(node, from, to, n).scan, from, to)
    ensures State(node, from, to, n + 1).Going?
  {
    var scan := State(node, from, to, n).scan;
    StateStep(node, from, to, n);
    WithinValid(scan.queue, from, to);
    hide *;
    WillingRound(node, from, to, n, scan);
    RangeRound(scan, node.reply(n, scan.queue), node.probe(n));
  }

  /** No scan of at least one block raises on such a node. */
  lemma {:induction false} WillingGoes(node: Node, from: int, to: int, n: nat)
    requires from <= to && Willing(node)
    ensures State(node, from, to, n).Going?
    decreases n
  {
    hide Round, Willing, Kept;
    if n > 0 {
      WillingGoes(node, from, to, n - 1);
      if Live(State(node, from, to, n - 1)) {
        StateKept(node, from, to, n - 1);
        WillingStep(node, from, to, n - 1);
      }
    }
  }
}
