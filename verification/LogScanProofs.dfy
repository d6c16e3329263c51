/**
 What a log scan keeps (src/josuke/audit.py, `get_logs`): whatever the node does, every block is asked
 for, held or reported, and a scan that returns accounts for all of them.
 */
module LogScanProofs {
  import opened LogScan
  import opened LogWindows
  import opened Sorting
  import opened Wrappers

  // ---------------------------------------------------------------------- what a round keeps

  ghost predicate Within(ws: seq<Window>, from: int, to: int) {
    forall i :: 0 <= i < |ws| ==> from <= ws[i].lo <= ws[i].hi <= to
  }

  ghost predicate RangesWithin(ws: seq<Window>, from: int, to: int) {
    Ranges(ws) && Inside(ws, from, to)
  }

  ghost predicate LowestHeld(firstHeld: Option<int>, held: seq<Held>) {
    match firstHeld
    case None => held == []
    case Some(f) =>
      && (exists i :: 0 <= i < |held| && held[i].w.lo == f)
      && forall i :: 0 <= i < |held| ==> f <= held[i].w.lo
  }

  /** Whether the block is still to be asked for or held, and how often. */
  ghost function Places(scan: Scan, x: int): nat {
    Count(scan.queue, x) + Count(Spans(scan.held), x)
  }

  /** No block is asked for twice, and none in range is lost without being reported. */
  ghost predicate Kept(scan: Scan, from: int, to: int) {
    && Within(scan.queue, from, to) && Within(Spans(scan.held), from, to)
    && (forall x :: Places(scan, x) <= 1)
    && (forall x :: from <= x <= to ==> Places(scan, x) == 1 || Covered(scan.missing, x))
    && RangesWithin(scan.missing, from, to)
    && LowestHeld(scan.firstHeld, scan.held)
  }

  lemma WithinValid(ws: seq<Window>, from: int, to: int)
    requires Within(ws, from, to)
    ensures AllValid(ws)
  {
  }

  /** Windows that count no block more often lie in the same range. */
  lemma WithinFewer(ws: seq<Window>, all: seq<Window>, from: int, to: int)
    requires AllValid(ws) && Within(all, from, to)
    requires forall x :: Count(ws, x) <= Count(all, x)
    ensures Within(ws, from, to)
  {
    forall i | 0 <= i < |ws|
      ensures from <= ws[i].lo <= ws[i].hi <= to
    {
      CountMember(ws, i, ws[i].lo);
      CountFinds(all, ws[i].lo);
      CountMember(ws, i, ws[i].hi);
      CountFinds(all, ws[i].hi);
    }
  }

  ghost predicate Sorted(queue: seq<Window>, reply: Reply, s: Sift) {
    AllValid(s.retry) && Sourced(queue, reply, s)
  }

  /** Where the windows sorted out of a queue came from. */
  ghost predicate Sourced(queue: seq<Window>, reply: Reply, s: Sift) {
    && (forall l :: l in s.lacking ==> exists i :: LackedBy(queue, reply, l, i))
    && (forall h :: h in s.held ==> exists i :: HeldBy(queue, reply, h, i))
  }

  ghost predicate LackedBy(queue: seq<Window>, reply: Reply, l: Lack, i: nat) {
    && i < |queue| && queue[i] == l.w
    && i in reply.answers && reply.answers[i] == Rejected(l.error) && l.error.missing
  }

  ghost predicate HeldBy(queue: seq<Window>, reply: Reply, h: Held, i: nat) {
    && i < |queue| && queue[i] == h.w
    && i in reply.answers && reply.answers[i] == Logs(h.logs)
  }

  lemma {:induction false} SiftSourced(queue: seq<Window>, reply: Reply, firstHeld: Option<int>, n: nat)
    requires n <= |queue| && SiftTo(queue, reply, firstHeld, n).Some?
    ensures Sourced(queue, reply, SiftTo(queue, reply, firstHeld, n).value)
    decreases n
  {
    if n > 0 {
      SiftSourced(queue, reply, firstHeld, n - 1);
      var s := SiftTo(queue, reply, firstHeld, n - 1).value;
      var w := queue[n - 1];
      var fate := FateOf(reply, n - 1, w).value;
      if fate.Lacking? {
        assert LackedBy(queue, reply, Lack(w, fate.error), n - 1);
      } else if fate.Holding? {
        assert HeldBy(queue, reply, Held(w, fate.logs), n - 1);
      }
    }
  }

  lemma {:induction false} SiftSorted(queue: seq<Window>, reply: Reply, firstHeld: Option<int>, n: nat)
    requires n <= |queue| && AllValid(queue) && SiftTo(queue, reply, firstHeld, n).Some?
    ensures Sorted(queue, reply, SiftTo(queue, reply, firstHeld, n).value)
    decreases n
  {
    SiftSourced(queue, reply, firstHeld, n);
    hide Sourced;
    if n > 0 {
      SiftSorted(queue, reply, firstHeld, n - 1);
      var s := SiftTo(queue, reply, firstHeld, n - 1).value;
      var fate := FateOf(reply, n - 1, queue[n - 1]).value;
      if fate.Retry? {
        FateConserves(reply, n - 1, queue[n - 1], 0);
        AllValidConcat(s.retry, fate.windows);
      }
    }
  }

  lemma {:induction false} SiftLowest(queue: seq<Window>, reply: Reply, firstHeld: Option<int>, n: nat,
                                      before: seq<Held>)
    requires n <= |queue| && SiftTo(queue, reply, firstHeld, n).Some? && LowestHeld(firstHeld, before)
    ensures var s := SiftTo(queue, reply, firstHeld, n).value; LowestHeld(s.firstHeld, before + s.held)
    decreases n
  {
    if n == 0 {
      assert before + [] == before;
    } else {
      SiftLowest(queue, reply, firstHeld, n - 1, before);
      var s := SiftTo(queue, reply, firstHeld, n - 1).value;
      var fate := FateOf(reply, n - 1, queue[n - 1]).value;
      if fate.Holding? {
        LowestAdd(s.firstHeld, before + s.held, Held(queue[n - 1], fate.logs));
        assert before + s.held + [Held(queue[n - 1], fate.logs)] == before + (s.held + [Held(queue[n - 1], fate.logs)]);
      }
    }
  }

  lemma LowestAdd(firstHeld: Option<int>, held: seq<Held>, h: Held)
    requires LowestHeld(firstHeld, held)
    ensures LowestHeld(Lower(firstHeld, h.w.lo), held + [h])
  {
    var all := held + [h];
    assert all[|held|] == h;
    if firstHeld.Some? {
      var i :| 0 <= i < |held| && held[i].w.lo == firstHeld.value;
      assert all[i].w.lo == firstHeld.value;
    }
  }

  lemma {:induction false} StartsAndGaps(lacking: seq<Lack>, firstHeld: Option<int>, x: int)
    ensures Count(Lacked(lacking), x)
            == Count(Lacked(Starts(lacking, firstHeld)), x) + Count(Gaps(lacking, firstHeld), x)
    decreases |lacking|
  {
    if lacking != [] {
      var l, rest := lacking[0], lacking[1..];
      StartsAndGaps(rest, firstHeld, x);
      hide Count, Lacked;
      LackedCons(l, rest);
      LackedCons(l, Starts(rest, firstHeld));
      assert lacking == [l] + rest;
      CountCons(l.w, Lacked(Starts(rest, firstHeld)), x);
      CountCons(l.w, Gaps(rest, firstHeld), x);
      CountCons(l.w, Lacked(rest), x);
      assert [] + Starts(rest, firstHeld) == Starts(rest, firstHeld);
      assert [] + Gaps(rest, firstHeld) == Gaps(rest, firstHeld);
    } else {
      assert Lacked([]) == [];
    }
  }

  lemma {:induction false} StartsMembers(lacking: seq<Lack>, firstHeld: Option<int>)
    ensures forall l :: l in Starts(lacking, firstHeld) ==> l in lacking && BelowHeld(firstHeld, l.w)
    ensures (forall l :: l in lacking ==> BelowHeld(firstHeld, l.w)) ==> Gaps(lacking, firstHeld) == []
    decreases |lacking|
  {
    if lacking != [] {
      StartsMembers(lacking[1..], firstHeld);
      assert lacking == [lacking[0]] + lacking[1..];
    }
  }

  lemma LackedCons(l: Lack, rest: seq<Lack>)
    ensures Lacked([l] + rest) == [l.w] + Lacked(rest)
  {
  }

  lemma CountCons(w: Window, rest: seq<Window>, x: int)
    ensures Count([w] + rest, x) == (if w.lo <= x <= w.hi then 1 else 0) + Count(rest, x)
  {
    assert ([w] + rest)[1..] == rest;
  }

  /** The blocks of the missing start: reported up to `start`, asked for again from there. */
  lemma StartsReported(starts: seq<Lack>, start: int, x: int)
    requires starts != []
    requires var w := starts[Highest(starts)].w; w.lo <= w.hi && w.lo <= start && Count(Lacked(starts), w.lo) <= 1
    requires Count(Lacked(starts), x) >= 1
    ensures Lowest(starts) <= x <= start - 1 || start <= x <= starts[Highest(starts)].w.hi
  {
    var k := Highest(starts);
    var ws := Lacked(starts);
    CountFinds(ws, x);
    var i :| 0 <= i < |ws| && ws[i].lo <= x <= ws[i].hi;
    assert ws[i] == starts[i].w && ws[k] == starts[k].w;
    assert starts[i].w.lo <= starts[k].w.lo;
    if i != k && x >= ws[k].lo {
      CountTwo(ws, if i < k then i else k, if i < k then k else i, ws[k].lo);
      assert false;
    }
  }

  /** The rest of the highest window, asked for again from the start found. */
  function Rest(start: int, hi: int): seq<Window> {
    if start <= hi then [Window(start, hi)] else []
  }

  lemma RestCount(start: int, hi: int, x: int)
    ensures AllValid(Rest(start, hi))
    ensures Count(Rest(start, hi), x) == if start <= x <= hi then 1 else 0
  {
    CountOne(Window(start, hi), x);
  }

  /** The highest window of the missing start, and where history starts in it. */
  lemma TopStarts(s: Sift, probe: int -> Probe)
    requires AllValid(Lacked(s.lacking)) && Starts(s.lacking, s.firstHeld) != []
    ensures var starts := Starts(s.lacking, s.firstHeld);
      var top := starts[Highest(starts)];
      && top in s.lacking && top.w.lo <= top.w.hi
      && (HistoryStart(probe, top.error, top.w).Some? ==>
          top.w.lo <= HistoryStart(probe, top.error, top.w).value <= top.w.hi + 1)
  {
    var starts := Starts(s.lacking, s.firstHeld);
    var top := starts[Highest(starts)];
    StartsMembers(s.lacking, s.firstHeld);
    ValidMember(s.lacking, top);
    if HistoryStart(probe, top.error, top.w).Some? {
      HistoryStartBounds(probe, top.error, top.w);
    }
  }

  /** The blocks of the missing start go into the reported range or the rest of the highest window. */
  lemma StartsSplit(starts: seq<Lack>, start: int, x: int)
    requires starts != []
    requires var w := starts[Highest(starts)].w; w.lo <= w.hi && w.lo <= start && Count(Lacked(starts), w.lo) <= 1
    ensures var top := starts[Highest(starts)].w;
      && Count(Rest(start, top.hi), x) <= Count(Lacked(starts), x)
      && (Count(Lacked(starts), x) >= 1 ==> Count(Rest(start, top.hi), x) == 1 || Lowest(starts) <= x <= start - 1)
  {
    var k := Highest(starts);
    RestCount(start, starts[k].w.hi, x);
    if Count(Lacked(starts), x) >= 1 {
      StartsReported(starts, start, x);
    }
    if start <= x <= starts[k].w.hi {
      assert Lacked(starts)[k] == starts[k].w;
      CountMember(Lacked(starts), k, x);
    }
  }

  /** Windows that share no block are all different, so comparing them never comes to their errors. */
  lemma {:induction false} ApartComparable(lacks: seq<Lack>)
    requires AllValid(Lacked(lacks)) && forall y :: Count(Lacked(lacks), y) <= 1
    ensures Comparable(lacks)
    decreases |lacks|
  {
    if |lacks| > 1 {
      var n := |lacks| - 1;
      var front, last, ws := lacks[..n], lacks[n], Lacked(lacks);
      assert ws == Lacked(front) + [last.w] && ws[n] == last.w;
      AllValidConcat(Lacked(front), [last.w]);
      forall y
        ensures Count(Lacked(front), y) <= 1
      {
        CountConcat(Lacked(front), [last.w], y);
      }
      hide Count, Lacked;
      ApartComparable(front);
      var k := Highest(front);
      if last.w == front[k].w {
        SameTwice(lacks, k, n);
      }
    }
  }

  lemma SameTwice(lacks: seq<Lack>, i: nat, j: nat)
    requires i < j < |lacks| && lacks[i].w == lacks[j].w && AllValid(Lacked(lacks))
    ensures Count(Lacked(lacks), lacks[i].w.lo) >= 2
  {
    assert Lacked(lacks)[i] == lacks[i].w && Lacked(lacks)[j] == lacks[j].w;
    CountTwo(Lacked(lacks), i, j, lacks[i].w.lo);
  }

  /** What a round reports. */
  lemma LocateReports(scan: Scan, s: Sift, probe: int -> Probe)
    requires Locate(scan, s, probe).Some?
    ensures var starts := Starts(s.lacking, s.firstHeld);
      var gaps := scan.missing + Gaps(s.lacking, s.firstHeld);
      if starts == [] then Locate(scan, s, probe).value.missing == gaps else
      var top := starts[Highest(starts)];
      var start := HistoryStart(probe, top.error, top.w);
      start.Some? && Locate(scan, s, probe).value.missing == gaps + [Window(Lowest(starts), start.value - 1)]
  {
    hide Starts, Gaps, Highest, Lowest, Comparable, HistoryStart;
  }

  /** The window lies wholly below every window held: it is part of the missing start. */
  predicate InStart(firstHeld: Option<int>, w: Window) {
    firstHeld.Some? ==> w.hi < firstHeld.value
  }

  lemma {:induction false} StartsExactly(lacking: seq<Lack>, firstHeld: Option<int>, l: Lack)
    ensures l in Starts(lacking, firstHeld) <==> l in lacking && InStart(firstHeld, l.w)
    ensures l in lacking && !InStart(firstHeld, l.w) ==> l.w in Gaps(lacking, firstHeld)
    decreases |lacking|
  {
    if lacking != [] {
      StartsExactly(lacking[1..], firstHeld, l);
      assert lacking == [lacking[0]] + lacking[1..];
    }
  }

  lemma {:induction false} GapsOnly(lacking: seq<Lack>, firstHeld: Option<int>, w: Window)
    requires w in Gaps(lacking, firstHeld)
    ensures exists l :: l in lacking && l.w == w && !InStart(firstHeld, w)
    decreases |lacking|
  {
    if !BelowHeld(firstHeld, lacking[0].w) && w == lacking[0].w {
      assert lacking[0] in lacking;
    } else {
      GapsOnly(lacking[1..], firstHeld, w);
      var l :| l in lacking[1..] && l.w == w && !InStart(firstHeld, w);
      assert l in lacking;
    }
  }

  /** The highest window of the missing start. */
  ghost predicate TopOf(s: Sift, top: Lack) {
    && top in s.lacking && InStart(s.firstHeld, top.w)
    && forall l :: l in s.lacking && InStart(s.firstHeld, l.w) ==> !Higher(l.w, top.w)
  }

  /** The lowest block of the missing start. */
  ghost predicate BottomOf(s: Sift, lo: int) {
    && (exists l :: l in s.lacking && InStart(s.firstHeld, l.w) && l.w.lo == lo)
    && forall l :: l in s.lacking && InStart(s.firstHeld, l.w) ==> lo <= l.w.lo
  }

  /** The missing start is reported up to where history starts in its highest window, the rest of which is sought. */
  ghost predicate StartDealt(scan: Scan, s: Sift, probe: int -> Probe, next: Scan, gaps: seq<Window>) {
    if exists l :: l in s.lacking && InStart(s.firstHeld, l.w) then
      exists top, lo :: StartDealtBy(scan, s, probe, next, gaps, top, lo)
    else
      next.queue == s.retry && next.missing == scan.missing + gaps
  }

  ghost predicate StartDealtBy(scan: Scan, s: Sift, probe: int -> Probe, next: Scan, gaps: seq<Window>, top: Lack,
                               lo: int) {
    && TopOf(s, top) && BottomOf(s, lo)
    && var start := HistoryStart(probe, top.error, top.w);
       && start.Some?
       && next.queue == s.retry + Rest(start.value, top.w.hi)
       && next.missing == scan.missing + gaps + [Window(lo, start.value - 1)]
  }

  /** The missing windows that are not in the missing start. */
  ghost predicate GapsOf(s: Sift, gaps: seq<Window>) {
    forall w :: w in gaps <==> exists l :: l in s.lacking && l.w == w && !InStart(s.firstHeld, w)
  }

  lemma GapsExactly(s: Sift)
    ensures GapsOf(s, Gaps(s.lacking, s.firstHeld))
  {
    var gaps := Gaps(s.lacking, s.firstHeld);
    forall l | l in s.lacking && !InStart(s.firstHeld, l.w)
      ensures l.w in gaps
    {
      StartsExactly(s.lacking, s.firstHeld, l);
    }
    forall w | w in gaps
      ensures exists l :: l in s.lacking && l.w == w && !InStart(s.firstHeld, w)
    {
      GapsOnly(s.lacking, s.firstHeld, w);
    }
  }

  /**
   What a round does with its missing windows: those not wholly below every window held are reported
   whole, as they are, and of the others only the highest is sought for where its history starts.
   */
  lemma {:induction false} LocateMeans(scan: Scan, s: Sift, probe: int -> Probe)
    requires Locate(scan, s, probe).Some?
    ensures var next := Locate(scan, s, probe).value;
      && next.held == scan.held + s.held && next.firstHeld == s.firstHeld
      && exists gaps :: GapsOf(s, gaps) && StartDealt(scan, s, probe, next, gaps)
  {
    hide *;
    var starts, gaps := Starts(s.lacking, s.firstHeld), Gaps(s.lacking, s.firstHeld);
    LocateReports(scan, s, probe);
    LocateQueue(scan, s, probe);
    GapsExactly(s);
    forall l
      ensures l in starts <==> l in s.lacking && InStart(s.firstHeld, l.w)
    {
      StartsExactly(s.lacking, s.firstHeld, l);
    }
    if starts != [] {
      TopAndBottom(s, starts);
    }
    StartDealtFrom(scan, s, probe, Locate(scan, s, probe).value, gaps, starts);
  }

  lemma StartDealtFrom(scan: Scan, s: Sift, probe: int -> Probe, next: Scan, gaps: seq<Window>, starts: seq<Lack>)
    requires forall l :: l in starts <==> l in s.lacking && InStart(s.firstHeld, l.w)
    requires starts == [] ==> next.queue == s.retry && next.missing == scan.missing + gaps
    requires starts != [] ==>
      var top := starts[Highest(starts)];
      var start := HistoryStart(probe, top.error, top.w);
      && TopOf(s, top) && BottomOf(s, Lowest(starts)) && start.Some?
      && next.queue == s.retry + Rest(start.value, top.w.hi)
      && next.missing == scan.missing + gaps + [Window(Lowest(starts), start.value - 1)]
    ensures StartDealt(scan, s, probe, next, gaps)
  {
    hide Highest, Lowest, HistoryStart, InStart, TopOf, BottomOf;
    if starts != [] {
      assert starts[0] in starts;
      assert StartDealtBy(scan, s, probe, next, gaps, starts[Highest(starts)], Lowest(starts));
    }
  }

  lemma LocateQueue(scan: Scan, s: Sift, probe: int -> Probe)
    requires Locate(scan, s, probe).Some?
    ensures var next := Locate(scan, s, probe).value;
      var starts := Starts(s.lacking, s.firstHeld);
      && next.held == scan.held + s.held && next.firstHeld == s.firstHeld
      && if starts == [] then next.queue == s.retry else
         var top := starts[Highest(starts)];
         var start := HistoryStart(probe, top.error, top.w);
         start.Some? && next.queue == s.retry + Rest(start.value, top.w.hi)
  {
    hide Starts, Gaps, Highest, Lowest, Comparable, HistoryStart;
  }

  lemma TopAndBottom(s: Sift, starts: seq<Lack>)
    requires starts != [] && forall l :: l in starts <==> l in s.lacking && InStart(s.firstHeld, l.w)
    ensures TopOf(s, starts[Highest(starts)]) && BottomOf(s, Lowest(starts))
  {
    hide Highest, Lowest, InStart, Higher;
    assert starts[Highest(starts)] in starts;
    var i :| 0 <= i < |starts| && Lowest(starts) == starts[i].w.lo;
    assert starts[i] in starts;
  }

  /** What `Locate` does with the blocks of the missing windows. */
  lemma {:induction false} LocateConserves(scan: Scan, s: Sift, probe: int -> Probe, x: int)
    requires AllValid(s.retry) && AllValid(Lacked(s.lacking)) && Locate(scan, s, probe).Some?
    requires forall y :: Count(Lacked(s.lacking), y) <= 1
    ensures var next := Locate(scan, s, probe).value;
      && AllValid(next.queue)
      && Count(s.retry, x) <= Count(next.queue, x) <= Count(s.retry, x) + Count(Lacked(s.lacking), x)
      && (Count(Lacked(s.lacking), x) >= 1 ==>
            Count(next.queue, x) == Count(s.retry, x) + 1 || Covered(next.missing, x))
      && (Covered(scan.missing, x) ==> Covered(next.missing, x))
  {
    hide Count, Covered, AllValid, Lacked, Starts, Gaps, HistoryStart, Lowest, Highest;
    var starts, gaps := Starts(s.lacking, s.firstHeld), Gaps(s.lacking, s.firstHeld);
    StartsAndGaps(s.lacking, s.firstHeld, x);
    CoveredConcat(scan.missing, gaps, x);
    CountFinds(gaps, x);
    if starts != [] {
      var top := starts[Highest(starts)];
      TopStarts(s, probe);
      var start := HistoryStart(probe, top.error, top.w).value;
      StartsAndGaps(s.lacking, s.firstHeld, top.w.lo);
      StartsSplit(starts, start, x);
      RestCount(start, top.w.hi, x);
      CoveredSnoc(scan.missing + gaps, Window(Lowest(starts), start - 1));
      CountConcat(s.retry, Rest(start, top.w.hi), x);
      AllValidConcat(s.retry, Rest(start, top.w.hi));
    } else {
      LackedNone(x);
    }
  }

  lemma LackedNone(x: int)
    ensures Count(Lacked([]), x) == 0
  {
  }

  lemma ValidMember(lacking: seq<Lack>, l: Lack)
    requires AllValid(Lacked(lacking)) && l in lacking
    ensures l.w.lo <= l.w.hi
  {
    var i :| 0 <= i < |lacking| && lacking[i] == l;
    assert Lacked(lacking)[i] == l.w;
  }

  lemma CoveredConcat(a: seq<Window>, b: seq<Window>, x: int)
    ensures Covered(a + b, x) <==> Covered(a, x) || Covered(b, x)
  {
    CountConcat(a, b, x);
    CountFinds(a, x);
    CountFinds(b, x);
    CountFinds(a + b, x);
  }

  lemma SiftedWithin(queue: seq<Window>, reply: Reply, s: Sift, from: int, to: int)
    requires Within(queue, from, to) && Sorted(queue, reply, s)
    ensures Within(Lacked(s.lacking), from, to) && Within(Spans(s.held), from, to)
  {
    forall j | 0 <= j < |s.lacking|
      ensures from <= s.lacking[j].w.lo <= s.lacking[j].w.hi <= to
    {
      assert s.lacking[j] in s.lacking;
      var i :| LackedBy(queue, reply, s.lacking[j], i);
    }
    forall j | 0 <= j < |s.held|
      ensures from <= s.held[j].w.lo <= s.held[j].w.hi <= to
    {
      assert s.held[j] in s.held;
      var i :| HeldBy(queue, reply, s.held[j], i);
    }
  }

  /** The ranges reported in a round lie in the scanned range. */
  lemma LocateWithin(scan: Scan, s: Sift, probe: int -> Probe, from: int, to: int)
    requires RangesWithin(scan.missing, from, to) && Within(Lacked(s.lacking), from, to)
    requires Locate(scan, s, probe).Some?
    ensures RangesWithin(Locate(scan, s, probe).value.missing, from, to)
  {
    LackedWithin(s.lacking, from, to);
    hide *;
    var starts, gaps := Starts(s.lacking, s.firstHeld), Gaps(s.lacking, s.firstHeld);
    GapsWithin(s.lacking, s.firstHeld, from, to);
    LocateReports(scan, s, probe);
    RangesConcat(scan.missing, gaps, from, to);
    if starts != [] {
      StartWithin(s, probe, from, to);
      var top := starts[Highest(starts)];
      var start := HistoryStart(probe, top.error, top.w).value;
      RangesConcat(scan.missing + gaps, [Window(Lowest(starts), start - 1)], from, to);
    }
  }

  lemma StartWithin(s: Sift, probe: int -> Probe, from: int, to: int)
    requires Within(Lacked(s.lacking), from, to) && Starts(s.lacking, s.firstHeld) != []
    requires var starts := Starts(s.lacking, s.firstHeld);
      var top := starts[Highest(starts)];
      HistoryStart(probe, top.error, top.w).Some?
    ensures var starts := Starts(s.lacking, s.firstHeld);
      var top := starts[Highest(starts)];
      RangesWithin([Window(Lowest(starts), HistoryStart(probe, top.error, top.w).value - 1)], from, to)
  {
    var starts := Starts(s.lacking, s.firstHeld);
    var top := starts[Highest(starts)];
    WithinValid(Lacked(s.lacking), from, to);
    LackedWithin(s.lacking, from, to);
    StartsMembers(s.lacking, s.firstHeld);
    TopStarts(s, probe);
    hide Starts, HistoryStart, Lacked, BelowHeld, Within, RangesWithin, Lowest, Highest;
    var start := HistoryStart(probe, top.error, top.w).value;
    var i :| 0 <= i < |starts| && Lowest(starts) == starts[i].w.lo;
    assert starts[i] in starts;
    RangeOne(Window(Lowest(starts), start - 1), from, to);
  }

  lemma RangeOne(w: Window, from: int, to: int)
    requires from <= w.lo <= w.hi + 1 && w.hi <= to
    ensures RangesWithin([w], from, to)
  {
  }

  lemma LackedWithin(lacking: seq<Lack>, from: int, to: int)
    requires Within(Lacked(lacking), from, to)
    ensures forall l :: l in lacking ==> from <= l.w.lo <= l.w.hi <= to
  {
    forall l | l in lacking
      ensures from <= l.w.lo <= l.w.hi <= to
    {
      var i :| 0 <= i < |lacking| && lacking[i] == l;
      assert Lacked(lacking)[i] == l.w;
    }
  }

  lemma {:induction false} GapsWithin(lacking: seq<Lack>, firstHeld: Option<int>, from: int, to: int)
    requires forall l :: l in lacking ==> from <= l.w.lo <= l.w.hi <= to
    ensures RangesWithin(Gaps(lacking, firstHeld), from, to)
    decreases |lacking|
  {
    if lacking != [] {
      GapsWithin(lacking[1..], firstHeld, from, to);
      RangeOne(lacking[0].w, from, to);
      RangesConcat([lacking[0].w], Gaps(lacking[1..], firstHeld), from, to);
      assert [] + Gaps(lacking[1..], firstHeld) == Gaps(lacking[1..], firstHeld);
    }
  }

  lemma RangesConcat(a: seq<Window>, b: seq<Window>, from: int, to: int)
    requires RangesWithin(a, from, to) && RangesWithin(b, from, to)
    ensures RangesWithin(a + b, from, to)
  {
  }

  /** What a round does with the places of a block. */
  lemma RoundPlaces(scan: Scan, reply: Reply, s: Sift, probe: int -> Probe, x: int)
    requires AllValid(scan.queue) && SiftTo(scan.queue, reply, scan.firstHeld, |scan.queue|) == Some(s)
    requires AllValid(s.retry) && AllValid(Lacked(s.lacking)) && Locate(scan, s, probe).Some?
    requires forall y :: Places(scan, y) <= 1
    ensures var next := Locate(scan, s, probe).value;
      && AllValid(next.queue) && Count(next.queue, x) <= Count(scan.queue, x)
      && Places(next, x) <= Places(scan, x)
      && (Places(scan, x) == 1 ==> Places(next, x) == 1 || Covered(next.missing, x))
      && (Covered(scan.missing, x) ==> Covered(next.missing, x))
  {
    var next := Locate(scan, s, probe).value;
    forall y
      ensures Count(Lacked(s.lacking), y) <= 1
    {
      RoundCounts(scan, reply, s, y);
      assert Places(scan, y) <= 1;
    }
    assert next.held == scan.held + s.held;
    hide Count, Covered, AllValid, Lacked, Spans, SiftTo, Locate;
    RoundCounts(scan, reply, s, x);
    LocateConserves(scan, s, probe, x);
    SpansConcat(scan.held, s.held);
    CountConcat(Spans(scan.held), Spans(s.held), x);
  }

  /** A round keeps what is kept. */
  lemma {:induction false} RoundKeeps(scan: Scan, reply: Reply, probe: int -> Probe, from: int, to: int)
    requires Kept(scan, from, to) && Round(scan, reply, probe).Some?
    ensures Kept(Round(scan, reply, probe).value, from, to)
  {
    var next := Round(scan, reply, probe).value;
    var s := SiftTo(scan.queue, reply, scan.firstHeld, |scan.queue|).value;
    WithinValid(scan.queue, from, to);
    SiftSorted(scan.queue, reply, scan.firstHeld, |scan.queue|);
    SiftLowest(scan.queue, reply, scan.firstHeld, |scan.queue|, scan.held);
    SiftedWithin(scan.queue, reply, s, from, to);
    LocateWithin(scan, s, probe, from, to);
    WithinValid(Lacked(s.lacking), from, to);
    SpansConcat(scan.held, s.held);
    WithinConcat(Spans(scan.held), Spans(s.held), from, to);
    assert next.held == scan.held + s.held && next.firstHeld == s.firstHeld;
    hide Count, Covered, AllValid, Lacked, Spans, Locate, SiftTo, LowestHeld, RangesWithin, Within, Places;
    forall x
      ensures AllValid(next.queue) && Count(next.queue, x) <= Count(scan.queue, x)
      ensures Places(next, x) <= 1
      ensures from <= x <= to ==> Places(next, x) == 1 || Covered(next.missing, x)
    {
      RoundPlaces(scan, reply, s, probe, x);
    }
    WithinFewer(next.queue, scan.queue, from, to);
  }

  lemma RoundCounts(scan: Scan, reply: Reply, s: Sift, x: int)
    requires AllValid(scan.queue) && SiftTo(scan.queue, reply, scan.firstHeld, |scan.queue|) == Some(s)
    ensures Count(scan.queue, x) == Count(s.retry, x) + Count(Lacked(s.lacking), x) + Count(Spans(s.held), x)
  {
    SiftConserves(scan.queue, reply, scan.firstHeld, |scan.queue|, x);
    assert scan.queue[..|scan.queue|] == scan.queue;
  }

  lemma WithinConcat(a: seq<Window>, b: seq<Window>, from: int, to: int)
    requires Within(a, from, to) && Within(b, from, to)
    ensures Within(a + b, from, to)
  {
  }

  /** Whatever the node does, every round of a scan keeps each block in one place or reported. */
  lemma {:induction false} StateKept(node: Node, from: int, to: int, n: nat)
    requires from <= to && State(node, from, to, n).Going?
    ensures Kept(State(node, from, to, n).scan, from, to)
    decreases n
  {
    if n == 0 {
      KeptFirst(from, to);
    } else {
      var before := State(node, from, to, n - 1);
      StateKept(node, from, to, n - 1);
      if Live(before) {
        RoundKeeps(before.scan, node.reply(n - 1, before.scan.queue), node.probe(n - 1), from, to);
      }
    }
  }

  lemma KeptFirst(from: int, to: int)
    requires from <= to
    ensures Kept(Scan([Window(from, to)], [], [], None), from, to)
  {
    forall x
      ensures Count([Window(from, to)], x) == if from <= x <= to then 1 else 0
    {
      CountOne(Window(from, to), x);
    }
    assert Spans([]) == [];
  }

  // ---------------------------------------------------------------------- what it returns

  /** The node answered this window with these logs. */
  ghost predicate Given(node: Node, h: Held) {
    exists round, queue, i :: HeldBy(queue, node.reply(round, queue), h, i)
  }

  /**
   The account of a scan: windows the node answered, none sharing a block, that with the missing
   ranges make up the whole range; and exactly their logs, each as often as it was answered, in order.
   */
  ghost predicate Accounts(node: Node, from: int, to: int, held: seq<Held>, logs: seq<Log>, missing: seq<Window>) {
    && (forall h :: h in held ==> Given(node, h))
    && Within(Spans(held), from, to) && (forall x :: Count(Spans(held), x) <= 1)
    && (forall x :: from <= x <= to ==> Covered(Spans(held), x) || Covered(missing, x))
    && Separated(missing) && RangesWithin(missing, from, to)
    && multiset(logs) == multiset(Flat(held)) && Ordered(logs, LogKey)
  }

  lemma {:induction false} StateGiven(node: Node, from: int, to: int, n: nat)
    requires State(node, from, to, n).Going?
    ensures forall h :: h in State(node, from, to, n).scan.held ==> Given(node, h)
    decreases n
  {
    if n > 0 {
      var before := State(node, from, to, n - 1);
      StateGiven(node, from, to, n - 1);
      if Live(before) {
        var scan := before.scan;
        var reply := node.reply(n - 1, scan.queue);
        SiftSourced(scan.queue, reply, scan.firstHeld, |scan.queue|);
        var s := SiftTo(scan.queue, reply, scan.firstHeld, |scan.queue|).value;
        forall h | h in s.held
          ensures Given(node, h)
        {
          var i :| HeldBy(scan.queue, reply, h, i);
        }
      }
    }
  }

  /** A scan that returns accounts for every block and every log, whatever the node did. */
  lemma {:induction false} RangeAccounts(node: Node, from: int, to: int, n: nat, logs: seq<Log>, missing: seq<Window>)
    requires from <= to && Returns(node, from, to, n, logs, missing)
    ensures Accounts(node, from, to, State(node, from, to, n).scan.held, logs, missing)
  {
    var scan := State(node, from, to, n).scan;
    StateKept(node, from, to, n);
    StateGiven(node, from, to, n);
    SortProperties(Flat(scan.held), LogKey);
    hide State, Sort, Covered, Given, Flat;
    forall x | from <= x <= to
      ensures Covered(Spans(scan.held), x) || Covered(missing, x)
    {
      assert Places(scan, x) == 1 || Covered(scan.missing, x);
      CountFinds(Spans(scan.held), x);
    }
    assert forall x :: Count(Spans(scan.held), x) <= Places(scan, x);
  }
}
