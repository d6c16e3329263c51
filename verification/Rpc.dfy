/**
 Batched JSON-RPC (src/josuke/ethjsonrpc.py, `post_batch`): requests go out in batches the node
 may reject as too large, answer in part, or fail to serve.

 The node is an arbitrary function of how many batches were sent before and of the batch.
 */
module Rpc {
  import opened Wrappers

  /** An answer's error object: its code, and whether its message names the batch. */
  datatype Fault = Fault(code: Option<int>, namesBatch: bool)

  /** One element of a response body; `Junk` is anything but an object. */
  datatype Item<B> = Item(id: Option<nat>, error: Option<Fault>, body: B) | Junk

  /** What came of sending one batch. A body that is not a list is one element. */
  datatype Reply<B> =
    | NoAnswer(timeout: bool)                    // not reached, dropped, or no answer in time
    | NotJson                                    // status 200 with another body
    | Http(status: int, fetched: seq<Item<B>>)

  type Server<!B> = (nat, seq<nat>) -> Reply<B>

  /** The error raised, with the answers to the batches before and the requests of the one that failed. */
  datatype RpcError<B> = RpcError(timeout: bool, status: Option<int>, answers: map<nat, Item<B>>, failed: seq<nat>)

  const BATCH_LIMIT := 100
  const BATCH_TOO_LARGE: set<int> := {-32600, -32007, -32010, -32011}
  const RESPONSE_TOO_LARGE: set<int> := {-32003}
  const NAMED_LIMIT := -32005

  /** How many times a batch answered with this status is sent in all; statuses not listed fail at once. */
  function Tries(status: int): nat {
    if status == 429 || status == 502 || status == 503 then 5 else if status == 504 then 2 else 0
  }

  predicate TooLarge<B>(item: Item<B>, codes: set<int>) {
    && item.Item? && item.error.Some?
    && if item.error.value.code == Some(NAMED_LIMIT) then item.error.value.namesBatch
       else item.error.value.code.Some? && item.error.value.code.value in codes
  }

  /** `{answer["id"]: answer ...}`: the last answer of each id. */
  function ById<B>(fetched: seq<Item<B>>): (m: map<nat, Item<B>>)
    ensures forall k :: k in m ==> m[k].Item? && m[k].id == Some(k) && m[k] in fetched
  {
    if fetched == [] then map[] else
    var last := fetched[|fetched| - 1];
    var front := ById(fetched[..|fetched| - 1]);
    if last.Item? && last.id.Some? then front[last.id.value := last] else front
  }

  /** The last element that answers the request. */
  predicate LastWith<B>(fetched: seq<Item<B>>, id: nat, i: nat) {
    && i < |fetched| && fetched[i].Item? && fetched[i].id == Some(id)
    && forall j :: i < j < |fetched| ==> !(fetched[j].Item? && fetched[j].id == Some(id))
  }

  lemma {:induction false} ByIdLast<B>(fetched: seq<Item<B>>, id: nat)
    ensures id in ById(fetched) <==> exists i: nat :: LastWith(fetched, id, i)
    ensures forall i: nat :: LastWith(fetched, id, i) ==> id in ById(fetched) && ById(fetched)[id] == fetched[i]
    decreases |fetched|
  {
    if fetched != [] {
      var n := |fetched| - 1;
      ByIdLast(fetched[..n], id);
      if fetched[n].Item? && fetched[n].id == Some(id) {
        assert LastWith(fetched, id, n);
      } else {
        forall i: nat
          ensures LastWith(fetched, id, i) <==> LastWith(fetched[..n], id, i)
        {
          assert i < n ==> fetched[..n][i] == fetched[i];
        }
      }
    }
  }

  ghost predicate Distinct(ids: seq<nat>) {
    forall i, j :: 0 <= i < j < |ids| ==> ids[i] != ids[j]
  }

  function Ids(ids: seq<nat>): set<nat> {
    set id | id in ids
  }

  /** On failure each request of the batch is answered, or went out in the batch that failed, or was not sent. */
  ghost predicate Split<B>(batch: seq<nat>, error: RpcError<B>) {
    && error.failed != []
    && (forall id :: id in error.failed ==> id in batch)
    && error.answers.Keys <= Ids(batch)
    && error.answers.Keys !! Ids(error.failed)
  }

  /** The node gave this answer to the request, in a batch it did not cut the request off from. */
  ghost predicate Given<B>(server: Server<B>, id: nat, answer: Item<B>) {
    exists round, chunk :: id in chunk && GivenIn(server, round, chunk, id, answer)
  }

  ghost predicate GivenIn<B>(server: Server<B>, round: nat, chunk: seq<nat>, id: nat, answer: Item<B>) {
    var reply := server(round, chunk);
    && reply.Http? && reply.status == 200
    && id in ById(reply.fetched) && ById(reply.fetched)[id] == answer
    && (|chunk| > 1 ==> !TooLarge(answer, RESPONSE_TOO_LARGE))
  }

  function Having(ids: seq<nat>, wanted: nat -> bool): (r: seq<nat>)
    ensures |r| <= |ids|
    ensures forall id :: id in r <==> id in ids && wanted(id)
  {
    if ids == [] then [] else (if wanted(ids[0]) then [ids[0]] else []) + Having(ids[1..], wanted)
  }

  lemma {:induction false} HavingDistinct(ids: seq<nat>, wanted: nat -> bool)
    requires Distinct(ids)
    ensures Distinct(Having(ids, wanted))
    ensures |Having(ids, wanted)| == |ids| ==> Having(ids, wanted) == ids
    decreases |ids|
  {
    if ids != [] {
      HavingDistinct(ids[1..], wanted);
      var rest := Having(ids[1..], wanted);
      forall j | 0 <= j < |rest|
        ensures rest[j] != ids[0]
      {
        assert rest[j] in ids[1..];
      }
    }
  }

  lemma {:induction false} HavingInOrder(ids: seq<nat>, wanted: nat -> bool)
    ensures InOrderOf(Having(ids, wanted), ids)
    decreases |ids|
  {
    if ids != [] {
      var rest := Having(ids[1..], wanted);
      HavingInOrder(ids[1..], wanted);
      var all := Having(ids, wanted);
      forall a, b | 0 <= a < b < |all|
        ensures Precedes(ids, all[a], all[b])
      {
        if wanted(ids[0]) && a == 0 {
          assert all[b] == rest[b - 1] && rest[b - 1] in rest;
          var j :| 0 <= j < |ids[1..]| && ids[1..][j] == all[b];
          assert ids[0] == all[a] && ids[j + 1] == all[b];
        } else {
          var off := if wanted(ids[0]) then 1 else 0;
          assert all[a] == rest[a - off] && all[b] == rest[b - off];
          assert Precedes(ids[1..], rest[a - off], rest[b - off]);
          var i, j :| 0 <= i < j < |ids[1..]| && ids[1..][i] == all[a] && ids[1..][j] == all[b];
          assert ids[i + 1] == all[a] && ids[j + 1] == all[b];
        }
      }
    }
  }

  // ---------------------------------------------------------------------- one reply

  /** A status the node is sent the batch again for, or answers a batch with. */
  ghost predicate Listed(status: int) {
    status == 200 || status == 413 || Tries(status) > 0
  }

  ghost predicate AllAnswered<B>(fetched: seq<Item<B>>, chunk: seq<nat>) {
    forall id :: id in chunk ==> id in ById(fetched)
  }

  /** The node answered the batch with one error, not each request. */
  ghost predicate Oversized<B>(status: int, fetched: seq<Item<B>>, chunk: seq<nat>) {
    status == 413 || (!AllAnswered(fetched, chunk) && exists item :: item in fetched && TooLarge(item, BATCH_TOO_LARGE))
  }

  /** Cut off by too large a response. */
  ghost predicate CutOff<B>(fetched: seq<Item<B>>, chunk: seq<nat>, id: nat) {
    |chunk| > 1 && id in ById(fetched) && TooLarge(ById(fetched)[id], RESPONSE_TOO_LARGE)
  }

  /** What to do about the reply to a batch. */
  datatype Verdict<B> =
    | GiveUp(timeout: bool, status: Option<int>)
    | Shrink(limit: nat)                                         // too large a batch
    | Resend                                                     // not served now
    | Take(settled: map<nat, Item<B>>, cut: seq<nat>)            // answered, except for those cut off

  /** The replies a batch fails on, sent `attempt` times before, and the error each raises. */
  ghost predicate Fails<B>(reply: Reply<B>, chunk: seq<nat>, attempt: nat, timeout: bool, status: Option<int>) {
    match reply
    case NoAnswer(t) => timeout == t && status == None
    case NotJson => !timeout && status == None
    case Http(code, fetched) =>
      && !timeout
      && if !Listed(code) then status == Some(code)
         else if Oversized(code, fetched, chunk) then |chunk| == 1 && status == None
         else if code != 200 then attempt + 1 >= Tries(code) && status == Some(code)
         else !AllAnswered(fetched, chunk) && status == None
  }

  /** The verdict each reply calls for. */
  ghost predicate Sound<B>(reply: Reply<B>, chunk: seq<nat>, attempt: nat, v: Verdict<B>) {
    match v
    case GiveUp(timeout, status) => Fails(reply, chunk, attempt, timeout, status)
    case Shrink(limit) =>
      && reply.Http? && Listed(reply.status) && Oversized(reply.status, reply.fetched, chunk) && |chunk| > 1
      && limit == |chunk| / 2
    case Resend =>
      Overloaded(reply) && !Oversized(reply.status, reply.fetched, chunk) && attempt + 1 < Tries(reply.status)
    case Take(settled, cut) =>
      && reply.Http? && reply.status == 200 && AllAnswered(reply.fetched, chunk)
      && Distinct(cut) && |cut| <= |chunk| && InOrderOf(cut, chunk)
      && (forall id :: id in cut <==> id in chunk && CutOff(reply.fetched, chunk, id))
      && settled.Keys == Ids(chunk) - Ids(cut)
      && forall id :: id in settled ==> settled[id] == ById(reply.fetched)[id]
  }

  /** The requests come in the order they have in the batch. */
  ghost predicate InOrderOf(cut: seq<nat>, chunk: seq<nat>) {
    forall a, b :: 0 <= a < b < |cut| ==> Precedes(chunk, cut[a], cut[b])
  }

  ghost predicate Precedes(chunk: seq<nat>, x: nat, y: nat) {
    exists i, j :: 0 <= i < j < |chunk| && chunk[i] == x && chunk[j] == y
  }

  ghost predicate Overloaded<B>(reply: Reply<B>) {
    reply.Http? && reply.status != 200 && Tries(reply.status) > 0
  }

  method Judge<B(==)>(reply: Reply<B>, chunk: seq<nat>, attempt: nat) returns (v: Verdict<B>)
    requires chunk != [] && Distinct(chunk)
    ensures Sound(reply, chunk, attempt, v)
  {
    hide TooLarge, ById, Ids;
    if reply.NoAnswer? {
      return GiveUp(reply.timeout, None);
    }
    if reply.NotJson? {
      return GiveUp(false, None);
    }
    if reply.status !in {200, 413} && Tries(reply.status) == 0 {
      return GiveUp(false, Some(reply.status));
    }
    var byId := ById(reply.fetched);
    var missing := Having(chunk, id => id !in byId);
    MissingMeans(reply.fetched, chunk, missing);
    if reply.status == 413
        || (missing != [] && exists item :: item in reply.fetched && TooLarge(item, BATCH_TOO_LARGE)) {
      return if |chunk| == 1 then GiveUp(false, None) else Shrink(|chunk| / 2);
    }
    if reply.status != 200 {
      return if attempt + 1 < Tries(reply.status) then Resend else GiveUp(false, Some(reply.status));
    }
    if missing != [] {
      return GiveUp(false, None);
    }
    v := Settled(reply, chunk, attempt);
  }

  lemma MissingMeans<B>(fetched: seq<Item<B>>, chunk: seq<nat>, missing: seq<nat>)
    requires forall id :: id in missing <==> id in chunk && id !in ById(fetched)
    ensures missing == [] <==> AllAnswered(fetched, chunk)
  {
    if missing != [] {
      assert missing[0] in missing;
    }
  }

  /** A batch with an answer to each request: those cut off go out again. */
  method Settled<B(==)>(reply: Reply<B>, chunk: seq<nat>, attempt: nat) returns (v: Verdict<B>)
    requires Distinct(chunk) && reply.Http? && reply.status == 200 && AllAnswered(reply.fetched, chunk)
    ensures v.Take? && Sound(reply, chunk, attempt, v)
  {
    hide TooLarge, ById;
    var byId := ById(reply.fetched);
    var isCut := id => id in byId && TooLarge(byId[id], RESPONSE_TOO_LARGE);
    var cut := if |chunk| > 1 then Having(chunk, isCut) else [];
    HavingDistinct(chunk, isCut);
    HavingInOrder(chunk, isCut);
    var settled := map id: nat | id in chunk && id !in cut :: byId[id];
    hide AllAnswered, Having, Distinct, Sound, InOrderOf;
    NoneInOrder(chunk);
    CutMeans(reply.fetched, chunk, cut);
    hide CutOff;
    TakeSound(reply, chunk, attempt, settled, cut);
    return Take(settled, cut);
  }

  lemma NoneInOrder(chunk: seq<nat>)
    ensures InOrderOf([], chunk) && Distinct([])
  {
  }

  lemma CutMeans<B>(fetched: seq<Item<B>>, chunk: seq<nat>, cut: seq<nat>)
    requires |chunk| <= 1 ==> cut == []
    requires |chunk| > 1 ==>
      forall id :: id in cut <==> id in chunk && id in ById(fetched) && TooLarge(ById(fetched)[id], RESPONSE_TOO_LARGE)
    ensures forall id :: id in cut <==> id in chunk && CutOff(fetched, chunk, id)
  {
    hide ById, TooLarge;
  }

  lemma TakeSound<B>(reply: Reply<B>, chunk: seq<nat>, attempt: nat, settled: map<nat, Item<B>>, cut: seq<nat>)
    requires reply.Http? && reply.status == 200 && AllAnswered(reply.fetched, chunk)
    requires Distinct(cut) && |cut| <= |chunk| && InOrderOf(cut, chunk)
    requires forall id :: id in cut <==> id in chunk && CutOff(reply.fetched, chunk, id)
    requires forall id :: id in settled <==> id in chunk && id !in cut
    requires forall id :: id in settled ==> id in ById(reply.fetched) && settled[id] == ById(reply.fetched)[id]
    ensures Sound(reply, chunk, attempt, Take(settled, cut))
  {
    hide ById, AllAnswered, Distinct, CutOff;
    assert settled.Keys == Ids(chunk) - Ids(cut);
  }

  // ---------------------------------------------------------------------- what the verdicts come to

  /** A 200 whose one element is an error without an id: only an error that says so is of too large a batch. */
  lemma {:induction false} LoneErrorVerdict<B>(fault: Fault, body: B, chunk: seq<nat>, attempt: nat, v: Verdict<B>)
    requires chunk != [] && Sound(Http(200, [Item(None, Some(fault), body)]), chunk, attempt, v)
    ensures fault.code == Some(-32005) ==>
              v == if fault.namesBatch && |chunk| > 1 then Shrink(|chunk| / 2) else GiveUp(false, None)
    ensures fault.code in {Some(-32600), Some(-32007), Some(-32010), Some(-32011)} ==>
              v == if |chunk| > 1 then Shrink(|chunk| / 2) else GiveUp(false, None)
    ensures fault.code !in {Some(-32005), Some(-32600), Some(-32007), Some(-32010), Some(-32011)} ==>
              v == GiveUp(false, None)
  {
    var item := Item(None, Some(fault), body);
    assert ById([item][..0]) == map[];
    assert chunk[0] in chunk && chunk[0] !in ById([item]);
    assert item in [item];
  }

  /** An answered request goes out again exactly if its last answer says the response grew too large. */
  lemma {:induction false} CutExactly<B>(reply: Reply<B>, chunk: seq<nat>, attempt: nat, settled: map<nat, Item<B>>,
                                         cut: seq<nat>, id: nat, i: nat)
    requires reply.Http? && Sound(reply, chunk, attempt, Take(settled, cut))
    requires id in chunk && LastWith(reply.fetched, id, i)
    ensures id in cut <==>
            && |chunk| > 1 && reply.fetched[i].error.Some?
            && var fault := reply.fetched[i].error.value;
               fault.code == Some(-32003) || (fault.code == Some(-32005) && fault.namesBatch)
    ensures id !in cut ==> id in settled && settled[id] == reply.fetched[i]
  {
    ByIdLast(reply.fetched, id);
    hide ById;
    assert id in Ids(chunk);
  }

  /** What a status alone decides. */
  lemma {:induction false} StatusVerdict<B>(status: int, fetched: seq<Item<B>>, chunk: seq<nat>, attempt: nat,
                                            v: Verdict<B>)
    requires chunk != [] && Sound(Http(status, fetched), chunk, attempt, v)
    ensures status !in {200, 413, 429, 502, 503, 504} ==> v == GiveUp(false, Some(status))
    ensures status == 413 ==> v == if |chunk| > 1 then Shrink(|chunk| / 2) else GiveUp(false, None)
    ensures status in {429, 502, 503} && !v.Shrink? ==>
              || v == (if attempt < 4 then Resend else GiveUp(false, Some(status)))
              || (|chunk| == 1 && v == GiveUp(false, None))
    ensures status == 504 && !v.Shrink? ==>
              || v == (if attempt < 1 then Resend else GiveUp(false, Some(504)))
              || (|chunk| == 1 && v == GiveUp(false, None))
    ensures status != 200 ==> !v.Take?
  {
    hide ById, TooLarge, AllAnswered;
  }

  // ---------------------------------------------------------------------- the whole batch

  /** How far `post_batch` is: what is not answered yet, the most to send at once, and the resends so far. */
  datatype Turn<B> = Turn(pending: seq<nat>, limit: nat, attempt: nat, answers: map<nat, Item<B>>)

  /** The batch sent next: as much of what is pending as the limit allows. */
  function Chunk(pending: seq<nat>, limit: nat): (chunk: seq<nat>)
    ensures |chunk| == (if limit <= |pending| then limit else |pending|) && chunk == pending[..|chunk|]
  {
    pending[..if limit <= |pending| then limit else |pending|]
  }

  /** What a verdict on a batch makes of it: a smaller limit, one more resend, or answers. */
  ghost predicate After<B>(t: Turn<B>, chunk: seq<nat>, v: Verdict<B>, u: Turn<B>)
    requires |chunk| <= |t.pending|
  {
    match v
    case GiveUp(_, _) => false
    case Shrink(limit) => u == t.(limit := limit)
    case Resend => u == t.(attempt := t.attempt + 1)
    case Take(settled, cut) =>
      && u.pending == cut + t.pending[|chunk|..] && u.answers == t.answers + settled && u.attempt == 0
      && u.limit == (if cut == [] then t.limit else if |cut| < |chunk| then |chunk| - |cut| else 1)
  }

  ghost predicate Goes<B(!new)>(server: Server<B>, round: nat, t: Turn<B>, u: Turn<B>) {
    exists v :: GoesBy(server, round, t, u, v)
  }

  ghost predicate GoesBy<B>(server: Server<B>, round: nat, t: Turn<B>, u: Turn<B>, v: Verdict<B>) {
    var chunk := Chunk(t.pending, t.limit);
    Sound(server(round, chunk), chunk, t.attempt, v) && After(t, chunk, v, u)
  }

  /** Each turn follows from the one before by what the node answers to the batch sent next. */
  ghost predicate Run<B(!new)>(server: Server<B>, start: nat, turns: seq<Turn<B>>) {
    forall k :: 0 <= k < |turns| - 1 ==> RunAt(server, start, turns, k)
  }

  ghost predicate RunAt<B(!new)>(server: Server<B>, start: nat, turns: seq<Turn<B>>, k: nat)
    requires k + 1 < |turns|
  {
    Goes(server, start + k, turns[k], turns[k + 1])
  }

  lemma RunOn<B(!new)>(server: Server<B>, start: nat, turns: seq<Turn<B>>, u: Turn<B>, v: Verdict<B>)
    requires turns != [] && Run(server, start, turns)
    requires GoesBy(server, start + |turns| - 1, turns[|turns| - 1], u, v)
    ensures Run(server, start, turns + [u])
  {
    var all := turns + [u];
    hide GoesBy;
    assert Goes(server, start + |turns| - 1, turns[|turns| - 1], u);
    forall k | 0 <= k < |all| - 1
      ensures RunAt(server, start, all, k)
    {
      if k < |turns| - 1 {
        assert RunAt(server, start, turns, k);
      }
    }
  }

  /** Earlier sends, before `round`, to which the node answered that it could not serve them now. */
  ghost predicate Overloads<B>(server: Server<B>, round: nat, sends: seq<(nat, seq<nat>)>) {
    && (forall k :: 0 <= k < |sends| ==> sends[k].0 < round && Overloaded(server(sends[k].0, sends[k].1)))
    && (forall k, l :: 0 <= k < l < |sends| ==> sends[k].0 < sends[l].0)
  }

  /** The batch that failed did fail, after as many resends as its status allows. */
  ghost predicate Justified<B>(server: Server<B>, error: RpcError<B>) {
    exists round: nat, sends :: JustifiedBy(server, error, round, sends)
  }

  ghost predicate JustifiedBy<B>(server: Server<B>, error: RpcError<B>, round: nat, sends: seq<(nat, seq<nat>)>) {
    && Overloads(server, round, sends)
    && Fails(server(round, error.failed), error.failed, |sends|, error.timeout, error.status)
  }

  class Client<!B(==,!new)> {
    const server: Server<B>
    var limit: nat    // the most requests the node has taken in one batch
    var sent: nat     // batches sent so far

    constructor (server: Server<B>)
      ensures this.server == server && limit == BATCH_LIMIT && sent == 0
    {
      this.server, limit, sent := server, BATCH_LIMIT, 0;
    }

    /**
     `post_batch`: on success every request has an answer the node gave it; on failure the requests
     split as `Split` says, and the node gave cause. It ends however the node answers.
     */
    method PostBatch(batch: seq<nat>) returns (r: Result<map<nat, Item<B>>, RpcError<B>>, ghost turns: seq<Turn<B>>)
      requires Distinct(batch) && limit >= 1
      modifies this
      ensures 1 <= limit <= old(limit)
      ensures r.Success? ==> r.value.Keys == Ids(batch)
      ensures r.Failure? ==> Split(batch, r.error) && Justified(server, r.error)
      ensures var answers := if r.Success? then r.value else r.error.answers;
        forall id :: id in answers ==> Given(server, id, answers[id])
      ensures turns != [] && turns[0] == Turn(batch, old(limit), 0, map[]) && Run(server, old(sent), turns)
      ensures Ends(server, old(sent), turns, r) && limit == turns[|turns| - 1].limit
      ensures sent == old(sent) + |turns| - if r.Success? then 1 else 0
    {
      var answers: map<nat, Item<B>> := map[];
      var pending := batch;
      var attempt := 0;
      ghost var sends: seq<(nat, seq<nat>)> := [];
      hide Given, Distinct, Sound, Overloads, JustifiedBy, Run;
      NoOverloads(server, sent);
      turns := [Turn(batch, limit, 0, map[])];
      RunNone(server, sent, turns);
      while pending != []
        invariant 1 <= limit <= old(limit)
        invariant Distinct(pending)
        invariant answers.Keys !! Ids(pending) && answers.Keys + Ids(pending) == Ids(batch)
        invariant forall id :: id in answers ==> Given(server, id, answers[id])
        invariant 0 <= attempt < 5 && |sends| == attempt && Overloads(server, sent, sends)
        invariant turns != [] && turns[0] == Turn(batch, old(limit), 0, map[]) && Run(server, old(sent), turns)
        invariant turns[|turns| - 1] == Turn(pending, limit, attempt, answers) && sent == old(sent) + |turns| - 1
        decreases |pending|, limit, 5 - attempt
      {
        var chunk := Chunk(pending, limit);
        ghost var before := turns[|turns| - 1];
        ChunkWithin(batch, answers.Keys, pending, |chunk|);
        var verdict := Judge(server(sent, chunk), chunk, attempt);
        VerdictMeans(server, sent, chunk, sends, verdict);
        sent := sent + 1;
        match verdict {
          case GiveUp(timeout, status) =>
            var error := RpcError(timeout, status, answers, chunk);
            GivesUp(server, sent - 1, sends, error, verdict);
            r := Failure(error);
            return;
          case Shrink(smaller) =>
            limit := smaller;
          case Resend =>
            attempt := attempt + 1;
            sends := sends + [(sent - 1, chunk)];
          case Take(settled, cut) =>
            attempt, sends := 0, [];
            if cut != [] {
              limit := if |cut| < |chunk| then |chunk| - |cut| else 1;
            }
            Settle(pending, chunk, cut);
            answers := answers + settled;
            pending := cut + pending[|chunk|..];
        }
        ghost var now := Turn(pending, limit, attempt, answers);
        assert After(before, chunk, verdict, now);
        RunOn(server, old(sent), turns, now, verdict);
        turns := turns + [now];
      }
      r := Success(answers);
    }
  }

  lemma RunNone<B(!new)>(server: Server<B>, start: nat, turns: seq<Turn<B>>)
    requires |turns| == 1
    ensures Run(server, start, turns)
  {
  }

  /** A run ends with nothing pending, or on a batch that fails, with the answers to the batches before it. */
  ghost predicate Ends<B>(server: Server<B>, start: nat, turns: seq<Turn<B>>, r: Result<map<nat, Item<B>>, RpcError<B>>)
    requires turns != []
  {
    var last := turns[|turns| - 1];
    match r
    case Success(answers) => last.pending == [] && answers == last.answers
    case Failure(e) =>
      && e.failed == Chunk(last.pending, last.limit) && e.answers == last.answers
      && Fails(server(start + |turns| - 1, e.failed), e.failed, last.attempt, e.timeout, e.status)
  }

  lemma NoOverloads<B>(server: Server<B>, round: nat)
    ensures Overloads(server, round, [])
  {
  }

  lemma GivesUp<B>(server: Server<B>, round: nat, sends: seq<(nat, seq<nat>)>, error: RpcError<B>, v: Verdict<B>)
    requires Overloads(server, round, sends) && v == GiveUp(error.timeout, error.status)
    requires Sound(server(round, error.failed), error.failed, |sends|, v)
    ensures JustifiedBy(server, error, round, sends)
    ensures Fails(server(round, error.failed), error.failed, |sends|, error.timeout, error.status)
  {
  }

  /** What a verdict means for the loop. */
  lemma VerdictMeans<B>(server: Server<B>, round: nat, chunk: seq<nat>, sends: seq<(nat, seq<nat>)>, v: Verdict<B>)
    requires chunk != [] && Overloads(server, round, sends) && Sound(server(round, chunk), chunk, |sends|, v)
    ensures Overloads(server, round + 1, sends) && Overloads(server, round + 1, [])
    ensures v.Shrink? ==> 1 <= v.limit < |chunk|
    ensures v.Resend? ==> |sends| + 1 < 5 && Overloads(server, round + 1, sends + [(round, chunk)])
    ensures v.Take? ==>
      && Distinct(v.cut) && (forall id :: id in v.cut ==> id in chunk) && |v.cut| <= |chunk|
      && (v.cut != [] ==> |chunk| > 1)
      && v.settled.Keys == Ids(chunk) - Ids(v.cut)
      && forall id :: id in v.settled ==> Given(server, id, v.settled[id])
  {
    if v.Take? {
      hide ById, TooLarge;
      if v.cut != [] {
        assert v.cut[0] in v.cut;
      }
      forall id | id in v.settled
        ensures Given(server, id, v.settled[id])
      {
        assert id in Ids(chunk) && id !in Ids(v.cut);
        assert GivenIn(server, round, chunk, id, v.settled[id]);
      }
    }
  }

  /** What is pending after a batch is answered, except for the requests cut off. */
  lemma {:induction false} Settle(pending: seq<nat>, chunk: seq<nat>, cut: seq<nat>)
    requires Distinct(pending) && |chunk| <= |pending| && chunk == pending[..|chunk|]
    requires (forall id :: id in cut ==> id in chunk) && Distinct(cut)
    ensures var next := cut + pending[|chunk|..];
      && Distinct(next) && Ids(next) == Ids(pending) - (Ids(chunk) - Ids(cut))
  {
    var rest := pending[|chunk|..];
    forall id | id in chunk
      ensures id !in rest
    {
      var i :| 0 <= i < |chunk| && chunk[i] == id;
      assert pending[i] == id;
    }
    forall i, j | 0 <= i < j < |cut + rest|
      ensures (cut + rest)[i] != (cut + rest)[j]
    {
      if i < |cut| <= j {
        assert cut[i] in cut && rest[j - |cut|] in rest;
      }
    }
    assert pending == chunk + rest;
  }

  lemma ChunkWithin(batch: seq<nat>, answered: set<nat>, pending: seq<nat>, n: nat)
    requires Distinct(pending) && n <= |pending|
    requires answered !! Ids(pending) && answered + Ids(pending) == Ids(batch)
    ensures Distinct(pending[..n]) && Ids(pending[..n]) <= Ids(pending)
    ensures forall id :: id in pending[..n] ==> id in batch
    ensures answered !! Ids(pending[..n])
  {
    forall id | id in pending[..n]
      ensures id in Ids(pending) && id in batch
    {
      assert id in pending;
      assert id in Ids(batch);
    }
  }
}
