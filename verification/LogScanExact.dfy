/**
 A log scan of a node that lacks exactly the blocks before some cutoff (src/josuke/audit.py,
 `get_logs`): under any limits and timeouts it reports exactly the blocks before the cutoff, and
 returns exactly the logs from it on.
 */
module LogScanExact {
  import opened LogScan
  import opened LogScanEnds
  import opened LogScanProofs
  import opened LogWindows
  import opened Sorting
  import opened Wrappers

  /** The logs of each block. */
  type Chain = int -> seq<Log>

  ghost predicate ChainOk(chain: Chain) {
    && (forall x, log :: log in chain(x) ==> log.block == x)
    && (forall x, i, j :: 0 <= i < j < |chain(x)| ==> chain(x)[i].index < chain(x)[j].index)
  }

  function LogsOf(chain: Chain, lo: int, hi: int): seq<Log>
    decreases hi - lo + 1
  {
    if lo > hi then [] else chain(lo) + LogsOf(chain, lo + 1, hi)
  }

  /** An answer of the node: all the logs of a window it holds whole, missing only for one it does not. */
  ghost predicate Honest(answer: Answer, w: Window, cutoff: int, chain: Chain) {
    match answer
    case Logs(logs) => w.lo >= cutoff && multiset(logs) == multiset(LogsOf(chain, w.lo, w.hi))
    case BadResponse => true
    case Rejected(e) => e.missing ==> w.lo < cutoff && (e.historyFrom.Some? ==> e.historyFrom.value == cutoff)
  }

  ghost predicate HonestReply(reply: Reply, queue: seq<Window>, cutoff: int, chain: Chain) {
    forall i :: 0 <= i < |queue| && i in reply.answers ==> Honest(reply.answers[i], queue[i], cutoff, chain)
  }

  /** A node that lacks exactly the blocks before `cutoff`; it may reject any window for its size, or time out. */
  ghost predicate Archive(node: Node, cutoff: int, chain: Chain) {
    && Serves(node) && ChainOk(chain)
    && (forall round, queue :: HonestReply(node.reply(round, queue), queue, cutoff, chain))
    && (forall round :: HoldsFrom(node.probe(round), cutoff))
  }

  /** Nothing held is before the cutoff and nothing reported is from it on. */
  ghost predicate Exact(scan: Scan, cutoff: int, chain: Chain) {
    && (forall h :: h in scan.held ==> Honest(Logs(h.logs), h.w, cutoff, chain))
    && AllValid(scan.missing) && (forall x :: Covered(scan.missing, x) ==> x < cutoff)
  }

  /** The windows sorted out of an honest reply. */
  ghost predicate HonestSift(s: Sift, cutoff: int, chain: Chain) {
    && (forall l :: l in s.lacking ==> l.error.missing && Honest(Rejected(l.error), l.w, cutoff, chain))
    && (forall h :: h in s.held ==> Honest(Logs(h.logs), h.w, cutoff, chain))
  }

  lemma SiftHonest(queue: seq<Window>, reply: Reply, s: Sift, cutoff: int, chain: Chain)
    requires HonestReply(reply, queue, cutoff, chain) && Sorted(queue, reply, s)
    ensures HonestSift(s, cutoff, chain)
  {
    hide Honest;
    forall l | l in s.lacking
      ensures l.error.missing && Honest(Rejected(l.error), l.w, cutoff, chain)
    {
      var i :| LackedBy(queue, reply, l, i);
    }
    forall h | h in s.held
      ensures Honest(Logs(h.logs), h.w, cutoff, chain)
    {
      var i :| HeldBy(queue, reply, h, i);
    }
  }

  /** No missing window reaches a block that starts one held. */
  lemma LackedApart(scan: Scan, reply: Reply, s: Sift, j: nat, i: nat)
    requires AllValid(scan.queue) && SiftTo(scan.queue, reply, scan.firstHeld, |scan.queue|) == Some(s)
    requires j < |s.lacking| && i < |scan.held + s.held| && (scan.held + s.held)[i].w.lo <= (scan.held + s.held)[i].w.hi
    requires Places(scan, (scan.held + s.held)[i].w.lo) <= 1
    ensures var f := (scan.held + s.held)[i].w.lo; !(s.lacking[j].w.lo <= f <= s.lacking[j].w.hi)
  {
    hide SiftTo, Count;
    var all, l := scan.held + s.held, s.lacking[j];
    var f := all[i].w.lo;
    assert Lacked(s.lacking)[j] == l.w && Spans(all)[i] == all[i].w;
    if l.w.lo <= f <= l.w.hi {
      CountMember(Lacked(s.lacking), j, f);
    }
    CountMember(Spans(all), i, f);
    SpansConcat(scan.held, s.held);
    CountConcat(Spans(scan.held), Spans(s.held), f);
    RoundCounts(scan, reply, s, f);
  }

  /** There are no gaps: a missing window lies wholly below every window held. */
  lemma {:induction false} NoGaps(scan: Scan, reply: Reply, s: Sift, cutoff: int, chain: Chain)
    requires AllValid(scan.queue) && SiftTo(scan.queue, reply, scan.firstHeld, |scan.queue|) == Some(s)
    requires LowestHeld(s.firstHeld, scan.held + s.held) && HonestSift(s, cutoff, chain)
    requires forall x :: Places(scan, x) <= 1
    requires forall h :: h in scan.held + s.held ==> h.w.lo <= h.w.hi && Honest(Logs(h.logs), h.w, cutoff, chain)
    ensures Gaps(s.lacking, s.firstHeld) == []
  {
    hide SiftTo, Gaps, LogsOf, Places, HistoryStart;
    StartsMembers(s.lacking, s.firstHeld);
    var all := scan.held + s.held;
    forall l | l in s.lacking
      ensures BelowHeld(s.firstHeld, l.w)
    {
      if s.firstHeld.Some? {
        var j :| 0 <= j < |s.lacking| && s.lacking[j] == l;
        var i :| 0 <= i < |all| && all[i].w.lo == s.firstHeld.value;
        assert all[i] in all;
        assert Honest(Rejected(l.error), l.w, cutoff, chain);
        LackedApart(scan, reply, s, j, i);
      }
    }
  }

  /** The range reported of the missing start of an honest node. */
  lemma StartExact(s: Sift, probe: int -> Probe, cutoff: int, chain: Chain)
    requires AllValid(Lacked(s.lacking)) && HonestSift(s, cutoff, chain) && HoldsFrom(probe, cutoff)
    requires Starts(s.lacking, s.firstHeld) != []
    ensures var starts := Starts(s.lacking, s.firstHeld);
      var top := starts[Highest(starts)];
      var start := HistoryStart(probe, top.error, top.w);
      start.Some? ==> Lowest(starts) <= start.value - 1 < cutoff
  {
    var starts := Starts(s.lacking, s.firstHeld);
    var top := starts[Highest(starts)];
    TopStarts(s, probe);
    hide HistoryStart, Starts, Lacked, LogsOf, HoldsFrom, Highest, Lowest;
    assert Honest(Rejected(top.error), top.w, cutoff, chain);
    if HistoryStart(probe, top.error, top.w).Some? {
      HistoryStartExact(probe, top.error, top.w, cutoff);
      assert Lowest(starts) <= top.w.lo;
    }
  }

  /** What is reported in a round of an honest node lies before the cutoff. */
  lemma LocateExact(scan: Scan, s: Sift, probe: int -> Probe, cutoff: int, chain: Chain)
    requires AllValid(Lacked(s.lacking)) && HonestSift(s, cutoff, chain) && HoldsFrom(probe, cutoff)
    requires Gaps(s.lacking, s.firstHeld) == [] && Locate(scan, s, probe).Some?
    requires AllValid(scan.missing) && forall x :: Covered(scan.missing, x) ==> x < cutoff
    ensures var next := Locate(scan, s, probe).value;
      AllValid(next.missing) && forall x :: Covered(next.missing, x) ==> x < cutoff
  {
    hide *;
    var starts := Starts(s.lacking, s.firstHeld);
    LocateReports(scan, s, probe);
    assert scan.missing + [] == scan.missing;
    if starts != [] {
      var top := starts[Highest(starts)];
      var range := Window(Lowest(starts), HistoryStart(probe, top.error, top.w).value - 1);
      StartExact(s, probe, cutoff, chain);
      CoveredSnoc(scan.missing, range);
      ValidSnoc(scan.missing, range);
    }
  }

  lemma ValidSnoc(ws: seq<Window>, w: Window)
    requires AllValid(ws) && w.lo <= w.hi
    ensures AllValid(ws + [w])
  {
  }

  lemma HeldExact(held: seq<Held>, more: seq<Held>, cutoff: int, chain: Chain)
    requires forall h :: h in held ==> Honest(Logs(h.logs), h.w, cutoff, chain)
    requires forall h :: h in more ==> Honest(Logs(h.logs), h.w, cutoff, chain)
    ensures forall h :: h in held + more ==> Honest(Logs(h.logs), h.w, cutoff, chain)
  {
    hide Honest;
  }

  lemma SpansMembers(held: seq<Held>)
    requires AllValid(Spans(held))
    ensures forall h :: h in held ==> h.w.lo <= h.w.hi
  {
    forall h | h in held
      ensures h.w.lo <= h.w.hi
    {
      var i :| 0 <= i < |held| && held[i] == h;
      assert Spans(held)[i] == h.w;
    }
  }

  lemma RoundExact(scan: Scan, reply: Reply, probe: int -> Probe, cutoff: int, chain: Chain, from: int, to: int)
    requires Kept(scan, from, to) && Exact(scan, cutoff, chain)
    requires HonestReply(reply, scan.queue, cutoff, chain) && HoldsFrom(probe, cutoff)
    requires Round(scan, reply, probe).Some?
    ensures Exact(Round(scan, reply, probe).value, cutoff, chain)
  {
    var next := Round(scan, reply, probe).value;
    var n := |scan.queue|;
    var s := SiftTo(scan.queue, reply, scan.firstHeld, n).value;
    assert next == Locate(scan, s, probe).value && next.held == scan.held + s.held;
    RoundKeeps(scan, reply, probe, from, to);
    WithinValid(scan.queue, from, to);
    WithinValid(Spans(next.held), from, to);
    SpansMembers(next.held);
    SiftSorted(scan.queue, reply, scan.firstHeld, n);
    SiftLowest(scan.queue, reply, scan.firstHeld, n, scan.held);
    LackedValid(scan.queue, reply, s);
    hide SiftTo, Round, Locate, Sorted, HonestReply, Honest, Covered, LowestHeld, HoldsFrom, LogsOf, Within, Spans,
        RangesWithin, Places;
    SiftHonest(scan.queue, reply, s, cutoff, chain);
    HeldExact(scan.held, s.held, cutoff, chain);
    NoGaps(scan, reply, s, cutoff, chain);
    LocateExact(scan, s, probe, cutoff, chain);
  }

  lemma ArchiveRound(node: Node, cutoff: int, chain: Chain, n: nat, queue: seq<Window>)
    requires Archive(node, cutoff, chain)
    ensures HonestReply(node.reply(n, queue), queue, cutoff, chain) && HoldsFrom(node.probe(n), cutoff)
  {
  }

  lemma ExactFirst(from: int, to: int, cutoff: int, chain: Chain)
    ensures Exact(Scan([Window(from, to)], [], [], None), cutoff, chain)
  {
  }

  lemma {:induction false} StateExact(node: Node, from: int, to: int, n: nat, cutoff: int, chain: Chain)
    requires from <= to && Archive(node, cutoff, chain) && State(node, from, to, n).Going?
    ensures Exact(State(node, from, to, n).scan, cutoff, chain)
    decreases n
  {
    hide Archive, Exact, Kept, Round;
    if n == 0 {
      ExactFirst(from, to, cutoff, chain);
    } else {
      StateExact(node, from, to, n - 1, cutoff, chain);
      StateKept(node, from, to, n - 1);
      var before := State(node, from, to, n - 1);
      if Live(before) {
        ArchiveRound(node, cutoff, chain, n - 1, before.scan.queue);
        RoundExact(before.scan, node.reply(n - 1, before.scan.queue), node.probe(n - 1), cutoff, chain, from, to);
      }
    }
  }

  // ---------------------------------------------------------------------- the logs

  predicate Before(a: Log, b: Log) {
    a.block < b.block || (a.block == b.block && a.index < b.index)
  }

  ghost predicate InOrder(logs: seq<Log>) {
    forall i, j :: 0 <= i < j < |logs| ==> Before(logs[i], logs[j])
  }

  lemma {:induction false} LogsOfOrder(chain: Chain, lo: int, hi: int)
    requires ChainOk(chain)
    ensures InOrder(LogsOf(chain, lo, hi))
    ensures forall log :: log in LogsOf(chain, lo, hi) ==> lo <= log.block <= hi
    decreases hi - lo + 1
  {
    if lo <= hi {
      LogsOfOrder(chain, lo + 1, hi);
      var first, rest := chain(lo), LogsOf(chain, lo + 1, hi);
      forall i, j | 0 <= i < j < |first + rest|
        ensures Before((first + rest)[i], (first + rest)[j])
      {
        if i < |first| {
          assert first[i] in chain(lo);
        }
        if j < |first| {
          assert first[j] in chain(lo);
        } else {
          assert rest[j - |first|] in rest;
        }
      }
    }
  }

  lemma {:induction false} LogsOfCount(chain: Chain, lo: int, hi: int, log: Log)
    requires ChainOk(chain)
    ensures multiset(LogsOf(chain, lo, hi))[log] == if lo <= log.block <= hi then multiset(chain(log.block))[log] else 0
    decreases hi - lo + 1
  {
    if lo <= hi {
      LogsOfCount(chain, lo + 1, hi, log);
      assert multiset(LogsOf(chain, lo, hi)) == multiset(chain(lo)) + multiset(LogsOf(chain, lo + 1, hi));
      if log.block != lo {
        assert log !in chain(lo);
      }
    }
  }

  lemma FlatSnoc(front: seq<Held>, h: Held, log: Log)
    ensures multiset(Flat(front + [h]))[log] == multiset(Flat(front))[log] + multiset(h.logs)[log]
  {
    assert (front + [h])[..|front|] == front;
    assert Flat(front + [h]) == Flat(front) + h.logs;
  }

  /** One more answered window: its logs, if it covers the block. */
  lemma SpansCount(front: seq<Held>, h: Held, x: int)
    ensures Count(Spans(front + [h]), x) == Count(Spans(front), x) + if h.w.lo <= x <= h.w.hi then 1 else 0
  {
    SpansConcat(front, [h]);
    assert Spans([h]) == [h.w];
    hide Spans;
    CountConcat(Spans(front), [h.w], x);
    CountOne(h.w, x);
  }

  lemma HonestCount(h: Held, cutoff: int, chain: Chain, log: Log)
    requires ChainOk(chain) && Honest(Logs(h.logs), h.w, cutoff, chain)
    ensures multiset(h.logs)[log] == if h.w.lo <= log.block <= h.w.hi then multiset(chain(log.block))[log] else 0
  {
    hide ChainOk;
    LogsOfCount(chain, h.w.lo, h.w.hi, log);
  }

  function Times(a: int, c: int): int {
    a * c
  }

  /** The answered logs, each as often as its block was answered. */
  lemma {:induction false} FlatCount(held: seq<Held>, cutoff: int, chain: Chain, log: Log)
    requires ChainOk(chain) && forall h :: h in held ==> Honest(Logs(h.logs), h.w, cutoff, chain)
    ensures multiset(Flat(held))[log] == Times(Count(Spans(held), log.block), multiset(chain(log.block))[log])
    decreases |held|
  {
    if held == [] {
      FlatNone(log);
    } else {
      var n := |held| - 1;
      var front, h := held[..n], held[n];
      assert held == front + [h] && h in held;
      hide *;
      FlatCount(front, cutoff, chain, log);
      FlatSnoc(front, h, log);
      HonestCount(h, cutoff, chain, log);
      SpansCount(front, h, log.block);
      Distribute(Count(Spans(held), log.block), Count(Spans(front), log.block), h, log.block,
          multiset(chain(log.block))[log]);
    }
  }

  lemma FlatNone(log: Log)
    ensures multiset(Flat([]))[log] == 0 && Count(Spans([]), log.block) == 0
  {
  }

  lemma Distribute(total: int, before: int, h: Held, x: int, c: int)
    requires total == before + if h.w.lo <= x <= h.w.hi then 1 else 0
    ensures Times(total, c) == Times(before, c) + if h.w.lo <= x <= h.w.hi then c else 0
  {
  }

  lemma SameFirst(a: seq<Log>, b: seq<Log>)
    requires a != [] && b != [] && Ordered(a, LogKey) && InOrder(b) && multiset(a) == multiset(b)
    ensures a[0] == b[0]
  {
    assert a[0] in multiset(b) && b[0] in multiset(a);
    var i :| 0 <= i < |b| && b[i] == a[0];
    var j :| 0 <= j < |a| && a[j] == b[0];
    assert j > 0 ==> Leq(LogKey(a[0]), LogKey(a[j]));
    assert i > 0 ==> Before(b[0], b[i]);
  }

  lemma TailMultiset(a: seq<Log>)
    requires a != []
    ensures multiset(a[1..]) == multiset(a) - multiset{a[0]}
  {
    assert a == [a[0]] + a[1..];
  }

  /** Logs in strict order are the only ordering of their multiset. */
  lemma {:induction false} OrderUnique(a: seq<Log>, b: seq<Log>)
    requires Ordered(a, LogKey) && InOrder(b) && multiset(a) == multiset(b)
    ensures a == b
    decreases |a|
  {
    assert |multiset(a)| == |a| && |multiset(b)| == |b|;
    if a != [] {
      SameFirst(a, b);
      TailMultiset(a);
      TailMultiset(b);
      OrderedTail(a, b);
      OrderUnique(a[1..], b[1..]);
      assert a == [a[0]] + a[1..] && b == [b[0]] + b[1..];
    }
  }

  lemma OrderedTail(a: seq<Log>, b: seq<Log>)
    requires a != [] && b != [] && Ordered(a, LogKey) && InOrder(b)
    ensures Ordered(a[1..], LogKey) && InOrder(b[1..])
  {
  }

  /**
   A scan of a node that lacks exactly the blocks before `cutoff`: if it returns, the missing ranges
   are none, or the one before the cutoff, and the logs are exactly the chain's from there on.
   */
  lemma {:induction false} RangeReturnsExactly(node: Node, from: int, to: int, n: nat, logs: seq<Log>,
                                               missing: seq<Window>, cutoff: int, chain: Chain)
    requires from <= to && Archive(node, cutoff, chain) && Returns(node, from, to, n, logs, missing)
    ensures var last := if cutoff - 1 < to then cutoff - 1 else to;
      missing == if from <= last then [Window(from, last)] else []
    ensures logs == LogsOf(chain, if cutoff > from then cutoff else from, to)
  {
    var scan := State(node, from, to, n).scan;
    StateKept(node, from, to, n);
    StateExact(node, from, to, n, cutoff, chain);
    hide State, Flat, LogsOf, Sort, Honest, Separated, Ranges, AllValid;
    forall x
      ensures Covered(missing, x) <==> from <= x <= to && x < cutoff
      ensures Count(Spans(scan.held), x) == if from <= x <= to && x >= cutoff then 1 else 0
    {
      BlockSettled(scan, x, from, to, cutoff, chain);
    }
    SeparatedInterval(missing, from, if cutoff - 1 < to then cutoff - 1 else to);
    LogsExact(scan.held, from, to, cutoff, chain);
  }

  /** When the queue is empty, a block in range is held once from the cutoff on, and reported before it. */
  lemma BlockSettled(scan: Scan, x: int, from: int, to: int, cutoff: int, chain: Chain)
    requires Kept(scan, from, to) && Exact(scan, cutoff, chain) && scan.queue == []
    ensures Covered(scan.missing, x) <==> from <= x <= to && x < cutoff
    ensures Count(Spans(scan.held), x) == if from <= x <= to && x >= cutoff then 1 else 0
  {
    assert Places(scan, x) == Count(Spans(scan.held), x);
    assert Places(scan, x) <= 1;
    CountFinds(Spans(scan.held), x);
    if Count(Spans(scan.held), x) == 1 {
      var i :| 0 <= i < |Spans(scan.held)| && Spans(scan.held)[i].lo <= x <= Spans(scan.held)[i].hi;
      assert scan.held[i] in scan.held;
      assert Honest(Logs(scan.held[i].logs), scan.held[i].w, cutoff, chain);
    }
  }

  lemma LogsExact(held: seq<Held>, from: int, to: int, cutoff: int, chain: Chain)
    requires ChainOk(chain) && forall h :: h in held ==> Honest(Logs(h.logs), h.w, cutoff, chain)
    requires forall x :: Count(Spans(held), x) == if from <= x <= to && x >= cutoff then 1 else 0
    ensures Sort(Flat(held), LogKey) == LogsOf(chain, if cutoff > from then cutoff else from, to)
  {
    var lo := if cutoff > from then cutoff else from;
    hide ChainOk, Honest, Count, Spans, LogsOf, Flat;
    forall log
      ensures multiset(Flat(held))[log] == multiset(LogsOf(chain, lo, to))[log]
    {
      FlatCount(held, cutoff, chain, log);
      LogsOfCount(chain, lo, to, log);
    }
    assert multiset(Flat(held)) == multiset(LogsOf(chain, lo, to));
    SortProperties(Flat(held), LogKey);
    LogsOfOrder(chain, lo, to);
    OrderUnique(Sort(Flat(held), LogKey), LogsOf(chain, lo, to));
  }

  /** Such a scan ends: the node never contradicts itself. */
  lemma {:induction false} RangeArchiveEnds(node: Node, from: int, to: int, cutoff: int, chain: Chain)
    requires from <= to && Archive(node, cutoff, chain)
    ensures !Diverges(node, from, to)
  {
    forall b | from <= b <= to
      ensures !FlapsForever(node, b)
    {
      if n :| FlapsFrom(node, n, b) {
        NeverFlaps(node, n, b, cutoff, chain);
      }
    }
    RangeEndsUnlessFlapping(node, from, to);
  }

  lemma NeverFlaps(node: Node, n: nat, b: int, cutoff: int, chain: Chain)
    requires Archive(node, cutoff, chain)
    ensures !Flaps(node, n, b)
    ensures !FlapsFrom(node, n, b)
  {
    var queue := [Window(b, b)];
    assert HonestReply(node.reply(n, queue), queue, cutoff, chain);
    assert HoldsFrom(node.probe(n), cutoff);
    if 0 in node.reply(n, queue).answers {
      assert Honest(node.reply(n, queue).answers[0], queue[0], cutoff, chain);
    }
  }
}
