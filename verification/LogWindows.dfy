/**
 Block windows of a log scan (src/josuke/audit.py, `_windows`, `_narrow`, `_history_start`,
 `_merged`): how a rejected window is cut up, where a node's history starts, and how missing
 ranges are joined.
 */
module LogWindows {
  import opened Sorting
  import opened Wrappers

  /** The inclusive blocks `lo`..`hi`. */
  datatype Window = Window(lo: int, hi: int)

  /**
   What a node says when it rejects a window: whether it lacks the history and from which block
   it has it, the range caps it states, the range it asks to retry, and its words.
   */
  datatype NodeError =
    NodeError(missing: bool, historyFrom: Option<int>, caps: seq<nat>, retry: Option<(int, int)>, text: int)

  /** A window's blocks, counted with the windows they lie in. */
  function Count(ws: seq<Window>, x: int): nat {
    if ws == [] then 0 else (if ws[0].lo <= x <= ws[0].hi then 1 else 0) + Count(ws[1..], x)
  }

  predicate AllValid(ws: seq<Window>) {
    forall i :: 0 <= i < |ws| ==> ws[i].lo <= ws[i].hi
  }

  function Width(w: Window): int {
    w.hi - w.lo + 1
  }

  /** What each round of a scan makes smaller: two for each block, less one for each window. */
  function Measure(ws: seq<Window>): int {
    if ws == [] then 0 else 2 * Width(ws[0]) - 1 + Measure(ws[1..])
  }

  lemma {:induction false} CountConcat(a: seq<Window>, b: seq<Window>, x: int)
    ensures Count(a + b, x) == Count(a, x) + Count(b, x)
    decreases |a|
  {
    if a == [] {
      assert a + b == b;
    } else {
      CountConcat(a[1..], b, x);
      assert (a + b)[1..] == a[1..] + b;
    }
  }

  lemma {:induction false} MeasureConcat(a: seq<Window>, b: seq<Window>)
    ensures Measure(a + b) == Measure(a) + Measure(b)
    decreases |a|
  {
    if a == [] {
      assert a + b == b;
    } else {
      MeasureConcat(a[1..], b);
      assert (a + b)[1..] == a[1..] + b;
    }
  }

  lemma {:induction false} MeasurePositive(ws: seq<Window>)
    requires AllValid(ws)
    ensures Measure(ws) >= |ws|
    decreases |ws|
  {
    if ws != [] {
      assert ws[0].lo <= ws[0].hi;
      assert AllValid(ws[1..]) by {
        assert forall i :: 0 <= i < |ws[1..]| ==> ws[1..][i] == ws[i + 1];
      }
      MeasurePositive(ws[1..]);
    }
  }

  // ------------------------------------------------------------------------ cutting up

  /** Windows of at most `span` blocks. */
  function Windows(lo: int, hi: int, span: nat): seq<Window>
    requires span >= 1
    decreases hi - lo + 1
  {
    if lo > hi then [] else
    [Window(lo, if lo + span - 1 <= hi then lo + span - 1 else hi)] + Windows(lo + span, hi, span)
  }

  /** The first stated cap that is narrower than the window. */
  function Cap(caps: seq<nat>, extent: int): Option<nat> {
    if caps == [] then None else if caps[0] < extent then Some(caps[0]) else Cap(caps[1..], extent)
  }

  predicate Retries(e: NodeError, w: Window) {
    e.retry.Some? && e.retry.value.0 == w.lo && w.lo <= e.retry.value.1 < w.hi
  }

  /** `_narrow`; None for a single block, whose error propagates. */
  function Narrow(e: NodeError, w: Window): Option<seq<Window>> {
    var cap := Cap(e.caps, w.hi - w.lo);
    if cap.Some? then Some(Windows(w.lo, w.hi, cap.value + 1))
    else if Retries(e, w) then
      var to := e.retry.value.1;
      Some([Window(w.lo, to)] + Windows(to + 1, w.hi, to - w.lo + 1))
    else if w.lo == w.hi then None
    else
      var half := (w.hi - w.lo + 1) / 2;
      Some([Window(w.lo, w.lo + half - 1), Window(w.lo + half, w.hi)])
  }

  lemma {:induction false} WindowsTile(lo: int, hi: int, span: nat, x: int)
    requires span >= 1
    ensures AllValid(Windows(lo, hi, span))
    ensures Count(Windows(lo, hi, span), x) == if lo <= x <= hi then 1 else 0
    ensures lo <= hi + 1 ==> Measure(Windows(lo, hi, span)) == 2 * (hi - lo + 1) - |Windows(lo, hi, span)|
    decreases hi - lo + 1
  {
    if lo <= hi {
      var w, rest := Window(lo, if lo + span - 1 <= hi then lo + span - 1 else hi), Windows(lo + span, hi, span);
      WindowsTile(lo + span, hi, span, x);
      assert Windows(lo, hi, span) == [w] + rest && ([w] + rest)[1..] == rest;
      assert lo + span > hi + 1 ==> rest == [];
      hide Windows;
    }
  }

  /** The windows cover `w` in order, one after another, each of `span` blocks but for a last one of no more. */
  ghost predicate Evenly(ws: seq<Window>, w: Window, span: int) {
    && ws != [] && ws[0].lo == w.lo && ws[|ws| - 1].hi == w.hi
    && (forall k :: 0 <= k < |ws| - 1 ==> WidthAt(ws, k, span))
    && 1 <= Width(ws[|ws| - 1]) <= span
  }

  predicate WidthAt(ws: seq<Window>, k: nat, span: int)
    requires k + 1 < |ws|
  {
    Width(ws[k]) == span && ws[k + 1].lo == ws[k].hi + 1
  }

  /** The first cap stated that is narrower than the window is the `i`th. */
  predicate FirstCap(caps: seq<nat>, extent: int, i: nat) {
    i < |caps| && caps[i] < extent && forall j :: 0 <= j < i ==> caps[j] >= extent
  }

  predicate CappedBy(e: NodeError, w: Window, i: nat) {
    FirstCap(e.caps, w.hi - w.lo, i)
  }

  /**
   How a rejected window is cut: to the width of the first stated cap that is narrower, a cap of N allowing
   N + 1 blocks; else to the width of the range the node says to retry; else in halves, the lower no wider.
   */
  ghost predicate CutAs(e: NodeError, w: Window, ws: seq<Window>) {
    if exists i: nat :: CappedBy(e, w, i) then
      exists i: nat :: CappedBy(e, w, i) && Evenly(ws, w, e.caps[i] + 1)
    else if Retries(e, w) then
      Evenly(ws, w, e.retry.value.1 - w.lo + 1)
    else
      && |ws| == 2 && ws[0].lo == w.lo && ws[1].hi == w.hi && ws[1].lo == ws[0].hi + 1
      && Width(ws[0]) <= Width(ws[1]) <= Width(ws[0]) + 1
  }

  lemma {:induction false} CapFirst(caps: seq<nat>, extent: int)
    ensures Cap(caps, extent).None? ==> forall i: nat :: !FirstCap(caps, extent, i)
    ensures Cap(caps, extent).Some? ==>
              exists i: nat :: FirstCap(caps, extent, i) && caps[i] == Cap(caps, extent).value
    decreases |caps|
  {
    if caps != [] {
      var rest := caps[1..];
      CapFirst(rest, extent);
      if caps[0] < extent {
        assert FirstCap(caps, extent, 0);
      } else {
        forall i: nat
          ensures FirstCap(caps, extent, i) <==> i > 0 && FirstCap(rest, extent, i - 1)
        {
          CapNext(caps, extent, i);
        }
        if Cap(rest, extent).Some? {
          var i: nat :| FirstCap(rest, extent, i) && rest[i] == Cap(rest, extent).value;
          assert FirstCap(caps, extent, i + 1);
        }
      }
    }
  }

  lemma CapNext(caps: seq<nat>, extent: int, i: nat)
    requires caps != [] && caps[0] >= extent
    ensures FirstCap(caps, extent, i) <==> i > 0 && FirstCap(caps[1..], extent, i - 1)
  {
    if i > 0 && FirstCap(caps[1..], extent, i - 1) {
      forall j | 0 <= j < i
        ensures caps[j] >= extent
      {
        assert j > 0 ==> caps[j] == caps[1..][j - 1];
      }
    }
  }

  lemma {:induction false} WindowsEven(lo: int, hi: int, span: nat)
    requires span >= 1 && lo <= hi
    ensures Evenly(Windows(lo, hi, span), Window(lo, hi), span)
    decreases hi - lo
  {
    var rest := Windows(lo + span, hi, span);
    var w := Window(lo, if lo + span - 1 <= hi then lo + span - 1 else hi);
    assert Windows(lo, hi, span) == [w] + rest;
    if lo + span <= hi {
      WindowsEven(lo + span, hi, span);
      EvenlyCons(w, rest, Window(lo + span, hi), span);
    } else {
      assert rest == [];
    }
  }

  lemma EvenlyCons(first: Window, rest: seq<Window>, w: Window, span: int)
    requires Evenly(rest, w, span) && first.hi + 1 == w.lo && Width(first) == span
    ensures Evenly([first] + rest, Window(first.lo, w.hi), span)
  {
    var all := [first] + rest;
    forall k | 0 <= k < |all| - 1
      ensures WidthAt(all, k, span)
    {
      if k > 0 {
        assert WidthAt(rest, k - 1, span);
      }
    }
  }

  /** `_narrow` cuts a window as the error says, and does not only if it is a single block. */
  lemma {:induction false} NarrowCuts(e: NodeError, w: Window)
    requires w.lo <= w.hi
    ensures Narrow(e, w).None? <==> w.lo == w.hi
    ensures Narrow(e, w).Some? ==> CutAs(e, w, Narrow(e, w).value)
  {
    var cap := Cap(e.caps, w.hi - w.lo);
    CapFirst(e.caps, w.hi - w.lo);
    CapNarrower(e.caps, w.hi - w.lo);
    assert cap.None? ==> forall i: nat :: !CappedBy(e, w, i);
    hide Cap, Evenly, Windows;
    if cap.Some? {
      var i: nat :| FirstCap(e.caps, w.hi - w.lo, i) && e.caps[i] == cap.value;
      assert CappedBy(e, w, i);
      WindowsEven(w.lo, w.hi, cap.value + 1);
    } else if Retries(e, w) {
      var to := e.retry.value.1;
      WindowsEven(to + 1, w.hi, to - w.lo + 1);
      EvenlyCons(Window(w.lo, to), Windows(to + 1, w.hi, to - w.lo + 1), Window(to + 1, w.hi), to - w.lo + 1);
    }
  }

  lemma CapNarrower(caps: seq<nat>, extent: int)
    ensures Cap(caps, extent).Some? ==> Cap(caps, extent).value < extent
  {
  }

  /** A rejected window is cut into at least two that tile it, so its measure drops. */
  lemma {:induction false} NarrowTiles(e: NodeError, w: Window, x: int)
    requires w.lo <= w.hi && Narrow(e, w).Some?
    ensures var ws := Narrow(e, w).value;
      && AllValid(ws) && Count(ws, x) == Count([w], x)
      && Measure(ws) < Measure([w])
  {
    var ws := Narrow(e, w).value;
    var cap := Cap(e.caps, w.hi - w.lo);
    CapNarrower(e.caps, w.hi - w.lo);
    if cap.Some? {
      WindowsTile(w.lo, w.hi, cap.value + 1, x);
      assert Windows(w.lo + (cap.value + 1), w.hi, cap.value + 1) != [];
      assert |ws| >= 2;
    } else if Retries(e, w) {
      var to := e.retry.value.1;
      WindowsTile(to + 1, w.hi, to - w.lo + 1, x);
      assert ws[1..] == Windows(to + 1, w.hi, to - w.lo + 1);
      assert |ws| >= 2;
    } else {
      assert ws[1..] == [ws[1]] && ws[1..][1..] == [];
    }
    assert [w][1..] == [];
  }

  /** A window of no blocks, between the end and the start of a scan that starts after it ends. */
  predicate Reversed(w: Window, from: int, to: int) {
    to <= w.hi < w.lo <= from
  }

  /**
   A window of no blocks is not cut down but makes two of its kind, twice itself if it ends just
   before it starts (a scan from the block after the last).
   */
  lemma {:induction false} EmptyWindowDoubles(e: NodeError, w: Window, from: int, to: int)
    requires Reversed(w, from, to)
    ensures Narrow(e, w).Some? && |Narrow(e, w).value| == 2
    ensures forall v :: v in Narrow(e, w).value ==> Reversed(v, from, to)
    ensures w.hi == w.lo - 1 ==> Narrow(e, w).value == [w, w]
  {
    CapNarrower(e.caps, w.hi - w.lo);
    NoCap(e.caps, w.hi - w.lo);
  }

  lemma {:induction false} NoCap(caps: seq<nat>, extent: int)
    requires extent <= 0
    ensures Cap(caps, extent) == None
    decreases |caps|
  {
    if caps != [] {
      NoCap(caps[1..], extent);
    }
  }

  // ------------------------------------------------------------------ where history starts

  datatype Probe = Holds | Lacks | Fails

  /** The bisection: `missing` is not held and `held` is. */
  function Bisect(probe: int -> Probe, missing: int, held: int): Option<int>
    decreases held - missing
  {
    if held - missing <= 1 then Some(held) else
    var mid := (missing + held) / 2;
    match probe(mid)
    case Fails => None
    case Holds => Bisect(probe, missing, mid)
    case Lacks => Bisect(probe, mid, held)
  }

  /** The first block of the window the node holds, or the one after it if none; None if a probe fails. */
  function HistoryStart(probe: int -> Probe, e: NodeError, w: Window): Option<int> {
    if e.historyFrom.Some? then
      var first := if e.historyFrom.value > w.lo + 1 then e.historyFrom.value else w.lo + 1;
      Some(if first < w.hi + 1 then first else w.hi + 1)
    else
      match probe(w.hi)
      case Fails => None
      case Lacks => Some(w.hi + 1)
      case Holds => Bisect(probe, w.lo, w.hi)
  }

  /** `_history_start` */
  method FindHistoryStart(probe: int -> Probe, e: NodeError, w: Window) returns (start: Option<int>)
    ensures start == HistoryStart(probe, e, w)
  {
    if e.historyFrom.Some? {
      var first := if e.historyFrom.value > w.lo + 1 then e.historyFrom.value else w.lo + 1;
      return Some(if first < w.hi + 1 then first else w.hi + 1);
    }
    var last := probe(w.hi);
    if last == Fails {
      return None;
    }
    if last == Lacks {
      return Some(w.hi + 1);
    }
    var missing, held := w.lo, w.hi;
    while held - missing > 1
      invariant Bisect(probe, missing, held) == Bisect(probe, w.lo, w.hi)
    {
      var mid := (missing + held) / 2;
      match probe(mid) {
        case Fails => return None;
        case Holds => held := mid;
        case Lacks => missing := mid;
      }
    }
    return Some(held);
  }

  /** The node serves in a probe the single block it has just rejected as missing. */
  predicate Contradicts(probe: int -> Probe, e: NodeError, w: Window) {
    w.lo == w.hi && e.historyFrom.None? && probe(w.lo) == Holds
  }

  lemma {:induction false} BisectBounds(probe: int -> Probe, missing: int, held: int)
    requires Bisect(probe, missing, held).Some?
    ensures missing < held ==> missing < Bisect(probe, missing, held).value <= held
    ensures missing == held ==> Bisect(probe, missing, held).value == held
    decreases held - missing
  {
    if held - missing > 1 {
      var mid := (missing + held) / 2;
      match probe(mid)
      case Holds => BisectBounds(probe, missing, mid);
      case Lacks => BisectBounds(probe, mid, held);
      case Fails =>
    }
  }

  /** The start found lies past the window's first block, unless the node contradicts itself. */
  lemma {:induction false} HistoryStartBounds(probe: int -> Probe, e: NodeError, w: Window)
    requires w.lo <= w.hi && HistoryStart(probe, e, w).Some?
    ensures w.lo <= HistoryStart(probe, e, w).value <= w.hi + 1
    ensures HistoryStart(probe, e, w).value == w.lo <==> Contradicts(probe, e, w)
  {
    if e.historyFrom.None? && probe(w.hi) == Holds {
      BisectBounds(probe, w.lo, w.hi);
    }
  }

  /** A node that lacks exactly the blocks before `cutoff`. */
  ghost predicate HoldsFrom(probe: int -> Probe, cutoff: int) {
    forall x :: probe(x) != Fails ==> (probe(x) == Holds <==> x >= cutoff)
  }

  lemma {:induction false} BisectFinds(probe: int -> Probe, cutoff: int, missing: int, held: int)
    requires HoldsFrom(probe, cutoff) && missing < cutoff <= held && Bisect(probe, missing, held).Some?
    ensures Bisect(probe, missing, held) == Some(cutoff)
    decreases held - missing
  {
    if held - missing > 1 {
      var mid := (missing + held) / 2;
      match probe(mid)
      case Holds => BisectFinds(probe, cutoff, missing, mid);
      case Lacks => BisectFinds(probe, cutoff, mid, held);
      case Fails =>
    }
  }

  /** On such a node the start of a window it lacks the first block of is the cutoff, clipped to the window. */
  lemma {:induction false} HistoryStartExact(probe: int -> Probe, e: NodeError, w: Window, cutoff: int)
    requires w.lo <= w.hi && w.lo < cutoff && HoldsFrom(probe, cutoff)
    requires e.historyFrom.Some? ==> e.historyFrom.value == cutoff
    requires HistoryStart(probe, e, w).Some?
    ensures HistoryStart(probe, e, w).value == if cutoff <= w.hi then cutoff else w.hi + 1
  {
    if e.historyFrom.None? && probe(w.hi) == Holds {
      BisectFinds(probe, cutoff, w.lo, w.hi);
    }
  }

  // ------------------------------------------------------------------ where a proxy starts

  /** What the node says of the proxy's code at a block. */
  datatype CodeProbe = Code | NoCode | Unserved

  type CodeAt = int -> CodeProbe

  ghost predicate FailsWithin(code: CodeAt, latest: int) {
    exists b :: 0 <= b <= latest && code(b) == Unserved
  }

  /** Code stays once it is there, wherever the node serves it. */
  ghost predicate Stays(code: CodeAt) {
    forall x, y :: x <= y && code(x) == Code ==> code(y) != NoCode
  }

  /**
   `find_deploy_block`: a block with code, and none at the block before it, so the first one for code
   that stays; None if the latest block has none, or the node fails on the way.
   */
  method FindDeployBlock(code: CodeAt, latest: nat) returns (block: Option<int>)
    ensures block.Some? ==> 0 <= block.value <= latest && code(block.value) == Code
    ensures block.Some? && block.value > 0 ==> code(block.value - 1) == NoCode
    ensures block.Some? && Stays(code) ==> forall b :: 0 <= b < block.value ==> code(b) != Code
    ensures block.None? ==> code(latest) == NoCode || FailsWithin(code, latest)
  {
    if code(latest) != Code {
      return None;
    }
    var lo, hi := 0, latest;
    while lo < hi
      invariant 0 <= lo <= hi <= latest && code(hi) == Code
      invariant lo > 0 ==> code(lo - 1) == NoCode
    {
      var mid := (lo + hi) / 2;
      match code(mid) {
        case Unserved => return None;
        case Code => hi := mid;
        case NoCode => lo := mid + 1;
      }
    }
    return Some(lo);
  }

  // ------------------------------------------------------------------------ joining ranges

  function WindowKey(w: Window): Key {
    (w.lo, w.hi, 0)
  }

  ghost predicate Covered(ws: seq<Window>, x: int) {
    exists i :: 0 <= i < |ws| && ws[i].lo <= x <= ws[i].hi
  }

  /** Each range starts past the block after the one before. */
  ghost predicate Separated(ws: seq<Window>) {
    forall i, j :: 0 <= i < j < |ws| ==> ws[i].lo <= ws[j].lo && ws[i].hi + 1 < ws[j].lo
  }

  /** No range is further reversed than the empty one. */
  predicate Ranges(ws: seq<Window>) {
    forall i :: 0 <= i < |ws| ==> ws[i].lo <= ws[i].hi + 1
  }

  /** The last range grown to take in `w`. */
  function Grown(ws: seq<Window>, w: Window): seq<Window>
    requires ws != []
  {
    var last := ws[|ws| - 1];
    ws[|ws| - 1 := Window(last.lo, if last.hi >= w.hi then last.hi else w.hi)]
  }

  /** The ranges with `w` joined to the last one, or after it. */
  function Take(ws: seq<Window>, w: Window): seq<Window> {
    if ws != [] && w.lo <= ws[|ws| - 1].hi + 1 then Grown(ws, w) else ws + [w]
  }

  /** Every range starts at `from` or later and ends at `to` or earlier. */
  ghost predicate Inside(ws: seq<Window>, from: int, to: int) {
    forall i :: 0 <= i < |ws| ==> from <= ws[i].lo && ws[i].hi <= to
  }

  /** Ranges in order of where they start. */
  ghost predicate Rising(sorted: seq<Window>) {
    forall i, j :: 0 <= i < j < |sorted| ==> sorted[i].lo <= sorted[j].lo
  }

  /** What the joined ranges keep once the first `n` of `sorted` are in. */
  ghost predicate Joined(merged: seq<Window>, sorted: seq<Window>, n: nat)
    requires n <= |sorted|
  {
    && Separated(merged)
    && (Ranges(sorted) ==> Ranges(merged))
    && (merged != [] ==> forall j :: n <= j < |sorted| ==> merged[|merged| - 1].lo <= sorted[j].lo)
    && (forall x :: Covered(merged, x) <==> Covered(sorted[..n], x))
    && (AllValid(sorted) ==> AllValid(merged))
    && (forall from, to :: Inside(sorted, from, to) ==> Inside(merged, from, to))
  }

  /** `_merged`: the same blocks, in separate ranges in order. */
  method Merged(ranges: seq<Window>) returns (merged: seq<Window>)
    ensures Separated(merged)
    ensures forall x :: Covered(merged, x) <==> Covered(ranges, x)
    ensures Ranges(ranges) ==> Ranges(merged)
    ensures AllValid(ranges) ==> AllValid(merged)
    ensures forall from, to :: Inside(ranges, from, to) ==> Inside(merged, from, to)
  {
    var sorted := Sort(ranges, WindowKey);
    SortedRanges(ranges, sorted);
    hide Covered, Separated, Ranges, Rising, Joined, AllValid, Inside, Sort;
    merged := [];
    JoinedEmpty(sorted);
    for i := 0 to |sorted|
      invariant Joined(merged, sorted, i)
    {
      JoinedStep(merged, sorted, i);
      var w := sorted[i];
      if merged != [] && w.lo <= merged[|merged| - 1].hi + 1 {
        merged := Grown(merged, w);
      } else {
        merged := merged + [w];
      }
    }
    JoinedMeans(merged, sorted);
  }

  lemma JoinedEmpty(sorted: seq<Window>)
    ensures Joined([], sorted, 0)
  {
  }

  lemma JoinedMeans(merged: seq<Window>, sorted: seq<Window>)
    requires Joined(merged, sorted, |sorted|)
    ensures Separated(merged)
    ensures forall x :: Covered(merged, x) <==> Covered(sorted, x)
    ensures Ranges(sorted) ==> Ranges(merged)
    ensures AllValid(sorted) ==> AllValid(merged)
    ensures forall from, to :: Inside(sorted, from, to) ==> Inside(merged, from, to)
  {
    hide Covered, Separated, Ranges, AllValid, Inside;
    assert sorted[..|sorted|] == sorted;
  }

  lemma JoinedStep(merged: seq<Window>, sorted: seq<Window>, n: nat)
    requires Rising(sorted) && n < |sorted| && Joined(merged, sorted, n)
    ensures Joined(Take(merged, sorted[n]), sorted, n + 1)
  {
    var w := sorted[n];
    assert sorted[..n + 1] == sorted[..n] + [w];
    CoveredSnoc(sorted[..n], w);
    TakeSeparated(merged, w);
    TakeCovers(merged, w);
    forall from, to | Inside(sorted, from, to)
      ensures Inside(Take(merged, w), from, to)
    {
      TakeInside(merged, w, from, to);
    }
    hide Covered, Separated, Take, Inside;
  }

  lemma TakeSeparated(merged: seq<Window>, w: Window)
    requires Separated(merged) && (merged != [] ==> merged[|merged| - 1].lo <= w.lo)
    ensures Separated(Take(merged, w))
    ensures Take(merged, w) != [] && Take(merged, w)[|Take(merged, w)| - 1].lo <= w.lo
    ensures Ranges(merged) && w.lo <= w.hi + 1 ==> Ranges(Take(merged, w))
    ensures AllValid(merged) && w.lo <= w.hi ==> AllValid(Take(merged, w))
  {
  }

  lemma TakeInside(merged: seq<Window>, w: Window, from: int, to: int)
    requires Inside(merged, from, to) && from <= w.lo && w.hi <= to
    ensures Inside(Take(merged, w), from, to)
  {
  }

  lemma TakeCovers(merged: seq<Window>, w: Window)
    requires merged != [] ==> merged[|merged| - 1].lo <= w.lo
    ensures forall x :: Covered(Take(merged, w), x) <==> Covered(merged, x) || w.lo <= x <= w.hi
  {
    if merged != [] && w.lo <= merged[|merged| - 1].hi + 1 {
      CoveredJoin(merged, w);
    } else {
      CoveredSnoc(merged, w);
    }
    hide Covered;
  }

  lemma SortedRanges(ranges: seq<Window>, sorted: seq<Window>)
    requires sorted == Sort(ranges, WindowKey)
    ensures Rising(sorted)
    ensures forall x :: Covered(sorted, x) <==> Covered(ranges, x)
    ensures Ranges(ranges) ==> Ranges(sorted)
    ensures AllValid(ranges) ==> AllValid(sorted)
    ensures forall from, to :: Inside(ranges, from, to) ==> Inside(sorted, from, to)
  {
    SortProperties(ranges, WindowKey);
    SortCovered(ranges);
    forall i | 0 <= i < |sorted|
      ensures sorted[i] in ranges
    {
      assert sorted[i] in multiset(sorted);
    }
    forall i, j | 0 <= i < j < |sorted|
      ensures sorted[i].lo <= sorted[j].lo
    {
      assert Leq(WindowKey(sorted[i]), WindowKey(sorted[j]));
    }
    hide Covered;
  }

  lemma CoveredSnoc(ws: seq<Window>, w: Window)
    ensures forall x :: Covered(ws + [w], x) <==> Covered(ws, x) || w.lo <= x <= w.hi
  {
    forall x
      ensures Covered(ws + [w], x) <==> Covered(ws, x) || w.lo <= x <= w.hi
    {
      if i :| 0 <= i < |ws| && ws[i].lo <= x <= ws[i].hi {
        assert (ws + [w])[i].lo <= x;
      }
      if w.lo <= x <= w.hi {
        assert (ws + [w])[|ws|].lo <= x;
      }
    }
  }

  lemma CoveredJoin(ws: seq<Window>, w: Window)
    requires ws != [] && ws[|ws| - 1].lo <= w.lo <= ws[|ws| - 1].hi + 1
    ensures forall x :: Covered(Grown(ws, w), x) <==> Covered(ws, x) || w.lo <= x <= w.hi
  {
    var n := |ws| - 1;
    var front := ws[..n];
    assert ws == front + [ws[n]] && Grown(ws, w) == front + [Grown(ws, w)[n]];
    CoveredSnoc(front, ws[n]);
    CoveredSnoc(front, Grown(ws, w)[n]);
  }

  lemma CoveredMember(ws: seq<Window>, x: int)
    ensures Covered(ws, x) <==> exists w :: w in ws && w.lo <= x <= w.hi
  {
  }

  lemma SortCovered(ranges: seq<Window>)
    ensures forall x :: Covered(Sort(ranges, WindowKey), x) <==> Covered(ranges, x)
  {
    var sorted := Sort(ranges, WindowKey);
    SortProperties(ranges, WindowKey);
    assert forall w :: w in sorted <==> w in multiset(sorted);
    assert forall w :: w in ranges <==> w in multiset(ranges);
    forall x
      ensures Covered(sorted, x) <==> Covered(ranges, x)
    {
      hide Covered, Sort;
      CoveredMember(sorted, x);
      CoveredMember(ranges, x);
    }
  }

  /** Between two separate ranges there is a block that no range covers. */
  lemma SeparatedGap(ws: seq<Window>)
    requires Separated(ws) && AllValid(ws)
    ensures |ws| > 1 ==> Covered(ws, ws[0].hi) && !Covered(ws, ws[0].hi + 1)
    ensures |ws| > 1 ==> Covered(ws, ws[1].lo) && ws[0].hi + 1 < ws[1].lo
  {
    if |ws| > 1 {
      assert ws[0].lo <= ws[0].hi && ws[1].lo <= ws[1].hi;
    }
  }

  /** Separate nonempty ranges that cover an interval are that interval. */
  lemma SeparatedInterval(ws: seq<Window>, lo: int, hi: int)
    requires Separated(ws) && AllValid(ws)
    requires forall x :: Covered(ws, x) <==> lo <= x <= hi
    ensures ws == if lo <= hi then [Window(lo, hi)] else []
  {
    SeparatedGap(ws);
    if ws != [] {
      assert |ws| == 1;
      assert Covered(ws, ws[0].lo) && Covered(ws, ws[0].hi);
      assert Covered(ws, lo) && Covered(ws, hi);
    } else {
      assert !Covered(ws, lo);
    }
  }
}
