/**
 What holds of a log scan of any range (src/josuke/audit.py, `get_logs`), whether it starts before or
 after the block it ends at.
 */
module LogScanTheorems {
  import opened LogScan
  import opened LogScanEmpty
  import opened LogScanEnds
  import opened LogScanExact
  import opened LogScanProofs
  import opened LogScanRounds
  import opened LogWindows
  import opened Wrappers

  /** A scan that returns accounts for every block and every log, whatever the node did. */
  lemma {:induction false} ReturnsAccounts(node: Node, from: int, to: int, n: nat, logs: seq<Log>, missing: seq<Window>)
    requires Returns(node, from, to, n, logs, missing)
    ensures var held := State(node, from, to, n).scan.held;
      if from <= to then Accounts(node, from, to, held, logs, missing)
      else EmptyAccounts(node, from, to, held, logs, missing)
  {
    hide *;
    if from <= to {
      RangeAccounts(node, from, to, n, logs, missing);
    } else {
      EmptyReturnsAccounts(node, from, to, n, logs, missing);
    }
  }

  /**
   A scan never ends exactly when, from some round on, it is stuck on one block; or, with no blocks to
   scan, when no round makes it raise or settles it.
   */
  lemma {:induction false} DivergesExactly(node: Node, from: int, to: int)
    requires Serves(node)
    ensures Diverges(node, from, to) <==>
            if from <= to then exists n :: StuckFrom(node, from, to, n)
            else forall n: nat :: GoesOnAt(node, from, to, n)
  {
    hide *;
    if from <= to {
      RangeDivergesExactly(node, from, to);
    } else {
      EmptyDivergesExactly(node, from, to);
    }
  }

  /**
   A scan ends if there is no block on which the node contradicts itself forever, and the node answers
   the whole range at once if there are no blocks in it.
   */
  lemma {:induction false} EndsUnlessFlapping(node: Node, from: int, to: int)
    requires Serves(node) && (from <= to || TakenAtOnce(node, from, to))
    requires forall b :: from <= b <= to || b == to ==> !FlapsForever(node, b)
    ensures !Diverges(node, from, to)
  {
    hide State, Diverges, Serves, TakenAtOnce, FlapsFrom;
    if from <= to {
      RangeEndsUnlessFlapping(node, from, to);
    } else {
      TakenDivergesExactly(node, from, to);
      assert !FlapsForever(node, to);
    }
  }

  /**
   A scan of a node that lacks exactly the blocks before `cutoff`: if it returns, the logs are exactly
   the chain's from there on; the missing ranges are none or the one before the cutoff, and with no
   blocks to scan they hold only blocks past the scan's end that it lacks.
   */
  lemma {:induction false} ReturnsExactly(node: Node, from: int, to: int, n: nat, logs: seq<Log>,
                                          missing: seq<Window>, cutoff: int, chain: Chain)
    requires Archive(node, cutoff, chain) && Returns(node, from, to, n, logs, missing)
    ensures logs == LogsOf(chain, if cutoff > from then cutoff else from, to)
    ensures var last := if cutoff - 1 < to then cutoff - 1 else to;
      if from <= to then missing == if from <= last then [Window(from, last)] else []
      else Outside(missing, from, to, cutoff)
  {
    hide Archive, Returns, Outside;
    if from <= to {
      RangeReturnsExactly(node, from, to, n, logs, missing, cutoff, chain);
    } else {
      EmptyReturnsExactly(node, from, to, n, logs, missing, cutoff, chain);
    }
  }

  /** Such a scan ends, if the node answers the whole range at once when there are no blocks in it. */
  lemma {:induction false} ArchiveEnds(node: Node, from: int, to: int, cutoff: int, chain: Chain)
    requires Archive(node, cutoff, chain) && (from <= to || TakenAtOnce(node, from, to))
    ensures !Diverges(node, from, to)
  {
    hide *;
    if from <= to {
      RangeArchiveEnds(node, from, to, cutoff, chain);
    } else {
      EmptyArchiveEnds(node, from, to, cutoff, chain);
    }
  }

  /** Round `n` raises: what it takes differs a little with whether there are blocks to scan. */
  ghost predicate RaisesAt(node: Node, from: int, to: int, n: nat) {
    var status := State(node, from, to, n);
    && Live(status)
    && var reply, probe := node.reply(n, status.scan.queue), node.probe(n);
       if from <= to then RangeRaises(status.scan, reply, probe) else Raises(status.scan, reply, probe)
  }

  lemma RaisesStep(node: Node, from: int, to: int, n: nat)
    ensures State(node, from, to, n + 1).Raised? <==> State(node, from, to, n).Raised? || RaisesAt(node, from, to, n)
  {
    var status := State(node, from, to, n);
    if Live(status) {
      StateStep(node, from, to, n);
      var reply, probe := node.reply(n, status.scan.queue), node.probe(n);
      if from <= to {
        StateKept(node, from, to, n);
        WithinValid(status.scan.queue, from, to);
        hide State, Round, RangeRaises;
        RangeRound(status.scan, reply, probe);
      } else {
        EmptyStateKept(node, from, to, n);
        hide State, Round, Raises;
        EmptyRound(status.scan, reply, probe, from, to);
      }
    } else {
      EndedStays(node, from, to, n, n + 1);
    }
  }

  /** A scan raises exactly if one of its rounds does. */
  lemma {:induction false} RaisesExactly(node: Node, from: int, to: int)
    ensures (exists n :: State(node, from, to, n).Raised?) <==> exists n: nat :: RaisesAt(node, from, to, n)
  {
    hide RaisesAt, Round;
    if n :| State(node, from, to, n).Raised? {
      FindRaise(node, from, to, n);
    }
    if n: nat :| RaisesAt(node, from, to, n) {
      RaisesStep(node, from, to, n);
      assert State(node, from, to, n + 1).Raised?;
    }
  }

  lemma {:induction false} FindRaise(node: Node, from: int, to: int, n: nat)
    requires State(node, from, to, n).Raised?
    ensures exists m: nat :: RaisesAt(node, from, to, m)
    decreases n
  {
    StateFirst(node, from, to);
    hide State, RaisesAt;
    if n > 0 {
      RaisesStep(node, from, to, n - 1);
      if State(node, from, to, n - 1).Raised? {
        FindRaise(node, from, to, n - 1);
      }
    }
  }

  /**
   A scan of a node that lacks exactly its oldest blocks, and never refuses a single block or a probe,
   ends without raising, if the node answers the whole range at once when there are no blocks in it.
   */
  lemma {:induction false} ArchiveSucceeds(node: Node, from: int, to: int, cutoff: int, chain: Chain, n: nat)
    requires Archive(node, cutoff, chain) && Willing(node) && (from <= to || TakenAtOnce(node, from, to))
    ensures !Diverges(node, from, to) && State(node, from, to, n).Going?
  {
    hide *;
    ArchiveEnds(node, from, to, cutoff, chain);
    if from <= to {
      WillingGoes(node, from, to, n);
    } else {
      EmptyArchiveGoes(node, from, to, cutoff, chain, n);
    }
  }

  lemma EmptyArchiveGoes(node: Node, from: int, to: int, cutoff: int, chain: Chain, n: nat)
    requires from > to && Archive(node, cutoff, chain) && Willing(node) && TakenAtOnce(node, from, to)
    ensures State(node, from, to, n).Going?
  {
    StateFirst(node, from, to);
    hide State, Archive, Willing, TakenAtOnce, Raises, ServedAtOnce;
    if n > 0 {
      EmptyArchiveServed(node, from, to, cutoff, chain);
      FirstTaken(node, from, to);
      EmptyFirst(from, to);
      var first := Scan([Window(from, to)], [], [], None);
      StateStep(node, from, to, 0);
      hide Round;
      EmptyRound(first, node.reply(0, first.queue), node.probe(0), from, to);
      LoneFirst(node, from, to);
      EndedStays(node, from, to, 1, n);
    }
  }

  lemma EmptyArchiveServed(node: Node, from: int, to: int, cutoff: int, chain: Chain)
    requires from > to && Archive(node, cutoff, chain)
    ensures Serves(node) && !ServedAtOnce(node, from, to)
  {
    var queue := [Window(from, to)];
    ArchiveRound(node, cutoff, chain, 0, queue);
    var answers := node.reply(0, queue).answers;
    assert 0 in answers ==> Honest(answers[0], queue[0], cutoff, chain);
  }

  lemma LoneFirst(node: Node, from: int, to: int)
    requires from > to && Willing(node) && Serves(node) && TakenAtOnce(node, from, to)
    ensures var first := Scan([Window(from, to)], [], [], None);
      !Raises(first, node.reply(0, first.queue), node.probe(0))
  {
    var first := Scan([Window(from, to)], [], [], None);
    var reply, probe := node.reply(0, first.queue), node.probe(0);
    assert WillingReply(reply, first.queue) && forall b :: probe(b) != Fails;
    if reply.answers[0].Rejected? {
      var e := reply.answers[0].error;
      SiftLone(first, reply, e);
      LoneStarts(Lack(first.queue[0], e));
      assert StartsOf(first, reply) == [Lack(first.queue[0], e)];
    } else {
      assert SiftTo(first.queue, reply, None, 0) == Some(Sift([], [], [], None));
      assert SiftTo(first.queue, reply, None, 1).value.lacking == [];
      assert StartsOf(first, reply) == [];
    }
  }

  /**
   `get_logs` on such a node: it returns exactly the logs from the cutoff on, and reports exactly the
   blocks before it.
   */
  method ScanArchive(node: Node, from: int, to: int, ghost cutoff: int, ghost chain: Chain) returns (found: Outcome)
    requires Archive(node, cutoff, chain) && Willing(node) && (from <= to || TakenAtOnce(node, from, to))
    ensures found.logs == LogsOf(chain, if cutoff > from then cutoff else from, to)
    ensures var last := if cutoff - 1 < to then cutoff - 1 else to;
      if from <= to then found.missing == if from <= last then [Window(from, last)] else []
      else Outside(found.missing, from, to, cutoff)
  {
    hide *;
    ArchiveSucceeds(node, from, to, cutoff, chain, 0);
    forall n: nat
      ensures State(node, from, to, n).Going?
    {
      ArchiveSucceeds(node, from, to, cutoff, chain, n);
    }
    var r := GetLogs(node, from, to);
    assert r.Some?;
    found := r.value;
    ghost var n: nat :| Returns(node, from, to, n, found.logs, found.missing);
    ReturnsExactly(node, from, to, n, found.logs, found.missing, cutoff, chain);
  }
}
