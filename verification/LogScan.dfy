/**
 The adaptive log scan (src/josuke/audit.py, `get_logs`): a queue of block windows goes out in a
 batch each round, and each window is held, missing, cut up or sent again as the node answers.

 The node is arbitrary: what it answers may depend on the round and on everything asked in it.
 */
module LogScan {
  import opened LogWindows
  import opened Sorting
  import opened Wrappers
  import Rpc

  datatype Log = Log(block: int, index: int, data: int)

  /** The node's answer for one window; a result that is not a list is bad. */
  datatype Answer = Logs(logs: seq<Log>) | BadResponse | Rejected(error: NodeError)

  /** Why a batch stopped: the windows in the batch that failed, and whether narrower ones may do. */
  datatype Break = Break(narrowable: bool, failed: seq<nat>, message: NodeError)

  /** What came of sending the queue: answers by position, and the break if there was one. */
  datatype Reply = Reply(answers: map<nat, Answer>, broken: Option<Break>)

  datatype Node = Node(reply: (nat, seq<Window>) -> Reply, probe: nat -> int -> Probe)

  /** Every window of a queue of `n` is answered, or in the batch that failed, or not yet sent. */
  predicate ReplyOk(reply: Reply, n: nat) {
    && (forall i :: i in reply.answers ==> i < n)
    && match reply.broken
       case None => forall i :: 0 <= i < n ==> i in reply.answers
       case Some(b) => b.failed != [] && forall i :: i in b.failed ==> i < n && i !in reply.answers
  }

  ghost predicate Serves(node: Node) {
    forall round, queue :: ReplyOk(node.reply(round, queue), |queue|)
  }

  /** The outcome of `post_batch` on the queue's requests, as the scan takes it. */
  function BatchReply<B>(r: Result<map<nat, Rpc.Item<B>>, Rpc.RpcError<B>>, answer: Rpc.Item<B> -> Answer,
                         message: NodeError): Reply {
    match r
    case Success(items) => Reply(map i | i in items :: answer(items[i]), None)
    case Failure(e) =>
      Reply(map i | i in e.answers :: answer(e.answers[i]),
          Some(Break(e.timeout || e.status == Some(504), e.failed, message)))
  }

  /** The requests of a queue of `n`, by position. */
  function UpTo(n: nat): (ids: seq<nat>)
    ensures |ids| == n && forall i :: 0 <= i < n ==> ids[i] == i
  {
    seq(n, i => i)
  }

  lemma UpToMembers(n: nat)
    ensures forall i: nat :: i in Rpc.Ids(UpTo(n)) <==> i < n
    ensures forall i :: i in UpTo(n) ==> i < n
  {
    forall i: nat | i < n
      ensures i in UpTo(n)
    {
      assert UpTo(n)[i] == i;
    }
  }

  /** What `PostBatch` promises is what the scan relies on. */
  lemma BatchServes<B>(n: nat, r: Result<map<nat, Rpc.Item<B>>, Rpc.RpcError<B>>, answer: Rpc.Item<B> -> Answer,
                       message: NodeError)
    requires if r.Success? then r.value.Keys == Rpc.Ids(UpTo(n)) else Rpc.Split(UpTo(n), r.error)
    ensures ReplyOk(BatchReply(r, answer, message), n)
  {
    UpToMembers(n);
    if r.Failure? {
      assert forall i :: i in r.error.failed ==> i in Rpc.Ids(r.error.failed);
    }
    hide Rpc.Ids, UpTo;
  }

  // ---------------------------------------------------------------------- one round

  datatype Lack = Lack(w: Window, error: NodeError)
  datatype Held = Held(w: Window, logs: seq<Log>)

  /** What becomes of one window. */
  datatype Fate = Retry(windows: seq<Window>) | Lacking(error: NodeError) | Holding(logs: seq<Log>)

  /** None when the scan raises: a bad response, or a single block rejected. */
  function FateOf(reply: Reply, i: nat, w: Window): Option<Fate> {
    if i !in reply.answers then
      if reply.broken.Some? && i in reply.broken.value.failed && w.lo < w.hi then
        Some(Retry(Narrow(reply.broken.value.message, w).value))
      else Some(Retry([w]))
    else
      match reply.answers[i]
      case Logs(logs) => Some(Holding(logs))
      case BadResponse => None
      case Rejected(e) =>
        if e.missing then Some(Lacking(e))
        else if Narrow(e, w).Some? then Some(Retry(Narrow(e, w).value)) else None
  }

  /** The windows of a round sorted out, and the lowest block a query succeeded from. */
  datatype Sift = Sift(retry: seq<Window>, lacking: seq<Lack>, held: seq<Held>, firstHeld: Option<int>)

  function Lower(firstHeld: Option<int>, lo: int): Option<int> {
    Some(if firstHeld.None? || lo < firstHeld.value then lo else firstHeld.value)
  }

  function Add(s: Sift, w: Window, fate: Fate): Sift {
    match fate
    case Retry(windows) => s.(retry := s.retry + windows)
    case Lacking(e) => s.(lacking := s.lacking + [Lack(w, e)])
    case Holding(logs) => s.(held := s.held + [Held(w, logs)], firstHeld := Lower(s.firstHeld, w.lo))
  }

  function SiftTo(queue: seq<Window>, reply: Reply, firstHeld: Option<int>, n: nat): Option<Sift>
    requires n <= |queue|
  {
    if n == 0 then Some(Sift([], [], [], firstHeld)) else
    var s := SiftTo(queue, reply, firstHeld, n - 1);
    var fate := FateOf(reply, n - 1, queue[n - 1]);
    if s.None? || fate.None? then None else Some(Add(s.value, queue[n - 1], fate.value))
  }

  /** `held` are the windows answered so far, with their logs. */
  datatype Scan = Scan(queue: seq<Window>, held: seq<Held>, missing: seq<Window>, firstHeld: Option<int>)

  predicate BelowHeld(firstHeld: Option<int>, w: Window) {
    firstHeld.None? || w.hi < firstHeld.value
  }

  /** The missing windows in the missing start, below every window held. */
  function Starts(lacking: seq<Lack>, firstHeld: Option<int>): seq<Lack> {
    if lacking == [] then []
    else (if BelowHeld(firstHeld, lacking[0].w) then [lacking[0]] else []) + Starts(lacking[1..], firstHeld)
  }

  /** The missing windows above one that is held. */
  function Gaps(lacking: seq<Lack>, firstHeld: Option<int>): seq<Window> {
    if lacking == [] then []
    else (if BelowHeld(firstHeld, lacking[0].w) then [] else [lacking[0].w]) + Gaps(lacking[1..], firstHeld)
  }

  predicate Higher(a: Window, b: Window) {
    a.lo > b.lo || (a.lo == b.lo && a.hi > b.hi)
  }

  /** `max` over the windows: the position of the first that none is higher than. */
  function Highest(lacks: seq<Lack>): (k: nat)
    requires lacks != []
    ensures k < |lacks|
    ensures forall i :: 0 <= i < |lacks| ==> lacks[i].w.lo <= lacks[k].w.lo && !Higher(lacks[i].w, lacks[k].w)
  {
    if |lacks| == 1 then 0 else
    var k := Highest(lacks[..|lacks| - 1]);
    if Higher(lacks[|lacks| - 1].w, lacks[k].w) then |lacks| - 1 else k
  }

  /** `max` compares the errors of equal windows: of different ones, which have no order, it raises. */
  predicate Comparable(lacks: seq<Lack>) {
    |lacks| <= 1 ||
    var front, last := lacks[..|lacks| - 1], lacks[|lacks| - 1];
    Comparable(front) && (last.w == front[Highest(front)].w ==> last.error == front[Highest(front)].error)
  }

  function Lowest(lacks: seq<Lack>): (lo: int)
    requires lacks != []
    ensures forall i :: 0 <= i < |lacks| ==> lo <= lacks[i].w.lo
    ensures exists i :: 0 <= i < |lacks| && lo == lacks[i].w.lo
  {
    if |lacks| == 1 then lacks[0].w.lo else
    var lo := Lowest(lacks[..|lacks| - 1]);
    var last := lacks[|lacks| - 1].w.lo;
    if last < lo then last else lo
  }

  /** The batch failed and no narrower one may do. */
  predicate Fatal(queue: seq<Window>, reply: Reply) {
    && reply.broken.Some?
    && (!reply.broken.value.narrowable
        || forall i :: i in reply.broken.value.failed && i < |queue| ==> queue[i].lo == queue[i].hi)
  }

  /** The scan after the missing windows of a round are dealt with: None if a probe fails or two do not compare. */
  function Locate(scan: Scan, s: Sift, probe: int -> Probe): Option<Scan> {
    var starts := Starts(s.lacking, s.firstHeld);
    var missing := scan.missing + Gaps(s.lacking, s.firstHeld);
    if starts == [] then Some(Scan(s.retry, scan.held + s.held, missing, s.firstHeld))
    else if !Comparable(starts) then None else
    var top := starts[Highest(starts)];
    match HistoryStart(probe, top.error, top.w)
    case None => None
    case Some(start) =>
      var rest := if start <= top.w.hi then [Window(start, top.w.hi)] else [];
      Some(Scan(s.retry + rest, scan.held + s.held, missing + [Window(Lowest(starts), start - 1)], s.firstHeld))
  }

  /** One round of the loop: None when it raises. */
  function Round(scan: Scan, reply: Reply, probe: int -> Probe): Option<Scan> {
    if Fatal(scan.queue, reply) then None else
    var s := SiftTo(scan.queue, reply, scan.firstHeld, |scan.queue|);
    if s.None? then None else Locate(scan, s.value, probe)
  }

  function Spans(held: seq<Held>): seq<Window> {
    seq(|held|, i requires 0 <= i < |held| => held[i].w)
  }

  function Lacked(lacking: seq<Lack>): seq<Window> {
    seq(|lacking|, i requires 0 <= i < |lacking| => lacking[i].w)
  }

  // ---------------------------------------------------------------------- counting blocks

  lemma CountOne(w: Window, x: int)
    ensures Count([w], x) == if w.lo <= x <= w.hi then 1 else 0
    ensures Measure([w]) == 2 * Width(w) - 1
  {
    assert [w][1..] == [];
  }

  lemma AllValidConcat(a: seq<Window>, b: seq<Window>)
    ensures AllValid(a + b) <==> AllValid(a) && AllValid(b)
  {
    if AllValid(a + b) {
      assert forall i :: 0 <= i < |a| ==> (a + b)[i] == a[i];
      assert forall i :: 0 <= i < |b| ==> (a + b)[|a| + i] == b[i];
    }
  }

  lemma {:induction false} CountMember(ws: seq<Window>, i: nat, x: int)
    requires i < |ws| && ws[i].lo <= x <= ws[i].hi
    ensures Count(ws, x) >= 1
    decreases i
  {
    if i > 0 {
      CountMember(ws[1..], i - 1, x);
    }
  }

  lemma {:induction false} CountFinds(ws: seq<Window>, x: int)
    ensures Count(ws, x) >= 1 <==> Covered(ws, x)
    decreases |ws|
  {
    if Count(ws, x) >= 1 {
      if ws[0].lo <= x <= ws[0].hi {
        assert Covered(ws, x);
      } else {
        CountFinds(ws[1..], x);
        var i :| 0 <= i < |ws[1..]| && ws[1..][i].lo <= x <= ws[1..][i].hi;
        assert ws[i + 1].lo <= x <= ws[i + 1].hi;
      }
    }
    if i :| 0 <= i < |ws| && ws[i].lo <= x <= ws[i].hi {
      CountMember(ws, i, x);
    }
  }

  /** Two windows that share a block count twice. */
  lemma CountTwo(ws: seq<Window>, i: nat, j: nat, x: int)
    requires i < j < |ws| && ws[i].lo <= x <= ws[i].hi && ws[j].lo <= x <= ws[j].hi
    ensures Count(ws, x) >= 2
  {
    assert ws == ws[..j] + ws[j..];
    CountConcat(ws[..j], ws[j..], x);
    CountMember(ws[..j], i, x);
    CountMember(ws[j..], 0, x);
  }

  lemma LackedSnoc(lacking: seq<Lack>, l: Lack)
    ensures Lacked(lacking + [l]) == Lacked(lacking) + [l.w]
  {
  }

  lemma SpansConcat(a: seq<Held>, b: seq<Held>)
    ensures Spans(a + b) == Spans(a) + Spans(b)
  {
  }

  /** Every block of the queue goes where its window goes, and no window is lost or doubled. */
  ghost predicate Conserves(ws: seq<Window>, s: Sift, x: int) {
    Count(ws, x) == Count(s.retry, x) + Count(Lacked(s.lacking), x) + Count(Spans(s.held), x)
  }

  lemma FateConserves(reply: Reply, i: nat, w: Window, x: int)
    requires w.lo <= w.hi && FateOf(reply, i, w).Some? && FateOf(reply, i, w).value.Retry?
    ensures var ws := FateOf(reply, i, w).value.windows;
      AllValid(ws) && Count(ws, x) == Count([w], x)
  {
    if i in reply.answers && reply.answers[i].Rejected? {
      NarrowTiles(reply.answers[i].error, w, x);
    } else if reply.broken.Some? && i in reply.broken.value.failed && w.lo < w.hi {
      NarrowTiles(reply.broken.value.message, w, x);
    }
  }

  lemma AddConserves(ws: seq<Window>, s: Sift, w: Window, fate: Fate, x: int)
    requires Conserves(ws, s, x)
    requires fate.Retry? ==> Count(fate.windows, x) == Count([w], x)
    ensures Conserves(ws + [w], Add(s, w, fate), x)
  {
    hide Count, Lower;
    CountConcat(ws, [w], x);
    match fate
    case Retry(windows) =>
      CountConcat(s.retry, windows, x);
    case Lacking(e) =>
      LackedSnoc(s.lacking, Lack(w, e));
      CountConcat(Lacked(s.lacking), [w], x);
    case Holding(logs) =>
      SpansConcat(s.held, [Held(w, logs)]);
      assert Spans([Held(w, logs)]) == [w];
      CountConcat(Spans(s.held), [w], x);
  }

  lemma {:induction false} SiftConserves(queue: seq<Window>, reply: Reply, firstHeld: Option<int>, n: nat, x: int)
    requires n <= |queue| && AllValid(queue) && SiftTo(queue, reply, firstHeld, n).Some?
    ensures Conserves(queue[..n], SiftTo(queue, reply, firstHeld, n).value, x)
    decreases n
  {
    if n > 0 {
      SiftConserves(queue, reply, firstHeld, n - 1, x);
      var fate := FateOf(reply, n - 1, queue[n - 1]).value;
      if fate.Retry? {
        FateConserves(reply, n - 1, queue[n - 1], x);
      }
      AddConserves(queue[..n - 1], SiftTo(queue, reply, firstHeld, n - 1).value, queue[n - 1], fate, x);
      assert queue[..n] == queue[..n - 1] + [queue[n - 1]];
    }
  }

  // ---------------------------------------------------------------------- the whole scan

  /** A scan that raised, or one that goes on until its queue is empty. */
  datatype Status = Raised | Going(scan: Scan)

  predicate Live(status: Status) {
    status.Going? && status.scan.queue != []
  }

  /** The scan of `from`..`to` after `n` rounds. */
  function State(node: Node, from: int, to: int, n: nat): Status {
    if n == 0 then Going(Scan([Window(from, to)], [], [], None)) else
    var before := State(node, from, to, n - 1);
    if !Live(before) then before else
    match Round(before.scan, node.reply(n - 1, before.scan.queue), node.probe(n - 1))
    case None => Raised
    case Some(scan) => Going(scan)
  }

  ghost predicate Diverges(node: Node, from: int, to: int) {
    forall n :: Live(State(node, from, to, n))
  }

  lemma {:induction false} EndedStays(node: Node, from: int, to: int, n: nat, m: nat)
    requires n <= m && !Live(State(node, from, to, n))
    ensures State(node, from, to, m) == State(node, from, to, n)
    decreases m
  {
    if n < m {
      EndedStays(node, from, to, n, m - 1);
    }
  }

  function Flat(held: seq<Held>): seq<Log> {
    if held == [] then [] else Flat(held[..|held| - 1]) + held[|held| - 1].logs
  }

  lemma {:induction false} FlatConcat(a: seq<Held>, b: seq<Held>)
    ensures Flat(a + b) == Flat(a) + Flat(b)
    decreases |b|
  {
    if b == [] {
      assert a + b == a;
    } else {
      var n := |b| - 1;
      FlatConcat(a, b[..n]);
      assert (a + b)[..|a + b| - 1] == a + b[..n];
      assert Flat(a) + (Flat(b[..n]) + b[n].logs) == Flat(a) + Flat(b[..n]) + b[n].logs;
    }
  }

  function LogKey(log: Log): Key {
    (log.block, log.index, 0)
  }

  /** `logs` and `missing` are what the scan that ended after `n` rounds found. */
  ghost predicate Returns(node: Node, from: int, to: int, n: nat, logs: seq<Log>, missing: seq<Window>) {
    var status := State(node, from, to, n);
    && status.Going? && status.scan.queue == []
    && logs == Sort(Flat(status.scan.held), LogKey)
    && Separated(missing)
    && (forall x :: Covered(missing, x) <==> Covered(status.scan.missing, x))
    && (Ranges(status.scan.missing) ==> Ranges(missing))
    && (Inside(status.scan.missing, from, to) ==> Inside(missing, from, to))
    && (AllValid(status.scan.missing) ==> AllValid(missing))
  }

  datatype Outcome = Outcome(logs: seq<Log>, missing: seq<Window>)

  lemma EndedSame(node: Node, from: int, to: int, n: nat, m: nat)
    requires !Live(State(node, from, to, n)) && !Live(State(node, from, to, m))
    ensures State(node, from, to, n) == State(node, from, to, m)
  {
    if n <= m {
      EndedStays(node, from, to, n, m);
    } else {
      EndedStays(node, from, to, m, n);
    }
  }

  lemma StateStep(node: Node, from: int, to: int, n: nat)
    requires Live(State(node, from, to, n))
    ensures var scan := State(node, from, to, n).scan;
      var next := Round(scan, node.reply(n, scan.queue), node.probe(n));
      State(node, from, to, n + 1) == if next.None? then Raised else Going(next.value)
  {
  }

  lemma {:induction false} SiftRaises(queue: seq<Window>, reply: Reply, firstHeld: Option<int>, i: nat, n: nat)
    requires i <= n <= |queue| && SiftTo(queue, reply, firstHeld, i).None?
    ensures SiftTo(queue, reply, firstHeld, n).None?
    decreases n
  {
    if i < n {
      SiftRaises(queue, reply, firstHeld, i, n - 1);
    }
  }

  /** Sorts out the windows of a queue, as the loop over them does; None when one raises. */
  method SortOut(queue: seq<Window>, reply: Reply, firstHeld: Option<int>) returns (s: Option<Sift>)
    ensures s == SiftTo(queue, reply, firstHeld, |queue|)
  {
    var retry: seq<Window>, lacking: seq<Lack>, held: seq<Held>, lowest := [], [], [], firstHeld;
    for i := 0 to |queue|
      invariant SiftTo(queue, reply, firstHeld, i) == Some(Sift(retry, lacking, held, lowest))
    {
      var w := queue[i];
      var fate := FateOf(reply, i, w);
      if fate.None? {
        SiftRaises(queue, reply, firstHeld, i + 1, |queue|);
        return None;
      }
      match fate.value {
        case Retry(windows) => retry := retry + windows;
        case Lacking(e) => lacking := lacking + [Lack(w, e)];
        case Holding(logs) => held, lowest := held + [Held(w, logs)], Lower(lowest, w.lo);
      }
    }
    return Some(Sift(retry, lacking, held, lowest));
  }

  /**
   `get_logs`: the logs found, sorted, and the missing ranges; None when the scan raises. It
   returns unless the scan goes on forever.
   */
  method GetLogs(node: Node, from: int, to: int) returns (r: Option<Outcome>)
    requires !Diverges(node, from, to)
    ensures r.None? <==> exists n :: State(node, from, to, n).Raised?
    ensures r.Some? ==> exists n :: Returns(node, from, to, n, r.value.logs, r.value.missing)
  {
    hide State, Round, Flat, SiftTo, HistoryStart, Fatal, Comparable, Covered, Separated, Ranges, AllValid, Inside;
    ghost var bound: nat :| !Live(State(node, from, to, bound));
    StateFirst(node, from, to);
    var queue, logs, missing, round := [Window(from, to)], [], [], 0;
    var firstHeld: Option<int> := None;
    ghost var held := [];
    while queue != []
      invariant State(node, from, to, round) == Going(Scan(queue, held, missing, firstHeld))
      invariant logs == Flat(held) && round <= bound
      decreases bound - round
    {
      StateStep(node, from, to, round);
      var reply := node.reply(round, queue);
      RoundParts(Scan(queue, held, missing, firstHeld), reply, node.probe(round));
      if Fatal(queue, reply) {
        return None;
      }
      var s := SortOut(queue, reply, firstHeld);
      if s.None? {
        return None;
      }
      var starts := Starts(s.value.lacking, s.value.firstHeld);
      missing := missing + Gaps(s.value.lacking, s.value.firstHeld);
      queue := s.value.retry;
      if starts != [] {
        if !Comparable(starts) {
          return None;
        }
        var top := starts[Highest(starts)];
        var start := FindHistoryStart(node.probe(round), top.error, top.w);
        if start.None? {
          return None;
        }
        missing := missing + [Window(Lowest(starts), start.value - 1)];
        queue := queue + if start.value <= top.w.hi then [Window(start.value, top.w.hi)] else [];
      } else {
        queue := queue + [];
      }
      FlatConcat(held, s.value.held);
      logs := logs + Flat(s.value.held);
      firstHeld, held, round := s.value.firstHeld, held + s.value.held, round + 1;
    }
    forall n | State(node, from, to, n).Raised?
      ensures State(node, from, to, n) == State(node, from, to, round)
    {
      EndedSame(node, from, to, n, round);
    }
    var merged := Merged(missing);
    assert Returns(node, from, to, round, Sort(logs, LogKey), merged);
    return Some(Outcome(Sort(logs, LogKey), merged));
  }

  lemma StateFirst(node: Node, from: int, to: int)
    ensures State(node, from, to, 0) == Going(Scan([Window(from, to)], [], [], None))
    ensures Flat([]) == []
  {
  }

  /** A round, unfolded. */
  lemma RoundParts(scan: Scan, reply: Reply, probe: int -> Probe)
    ensures Round(scan, reply, probe) ==
      if Fatal(scan.queue, reply) then None else
      var s := SiftTo(scan.queue, reply, scan.firstHeld, |scan.queue|);
      if s.None? then None else Locate(scan, s.value, probe)
  {
  }
}
