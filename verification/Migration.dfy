/**
 Migration scripts (src/josuke/migration.py): a list of route writes, its straight-line
 bytecode, and the parser that reads the bytecode back.

 Addresses, selectors and slots are numbers here. In the source they are fixed-width
 lower-case hex, whose text order is the numeric order.
 */
module Migration {
  import opened Bytes
  import opened Sorting
  import opened Wrappers

  /** event SelectorDelegated(bytes4 indexed selector, address indexed delegate) */
  const SELECTOR_DELEGATED_SIG: Word := 0x7c86091fe23e473af4b780c37525ce8cfa74ec05a4a4e7d4d3e7f0551d86a7ce

  /** One `SetDelegate`: point `selector`, which dispatches through `slot`, at `delegate`. */
  datatype Route = Route(selector: Selector, slot: Word, delegate: Address)

  datatype Entry = Entry(selector: Selector, slot: Word)

  /** The routes of one run of the same delegate, whose address is pushed once. */
  datatype Group = Group(delegate: Address, entries: seq<Entry>)

  function RouteKey(r: Route): Key {
    (r.delegate, r.selector, 0)
  }

  /** The order in which a `Migration` holds its routes. */
  function Plan(routes: seq<Route>): seq<Route> {
    Sort(routes, RouteKey)
  }

  // ------------------------------------------------------------------ bytecode

  const NORMAL_HEAD: seq<Byte> := [0x80, 0x80, 0x63]
  const NORMAL_MID: seq<Byte> := [0x60, 0xe0, 0x1b, 0x84, 0x5f, 0x5f, 0xa3, 0x7f]
  const FINAL_HEAD: seq<Byte> := [0x80, 0x63]
  const FINAL_MID: seq<Byte> := [0x60, 0xe0, 0x1b, 0x83, 0x5f, 0x5f, 0xa3, 0x7f]
  const TAIL: seq<Byte> := [0x55]
  const PUSH20: Byte := 0x73
  const PUSH32: Byte := 0x7f
  const NORMAL_BLOCK_SIZE := 48
  const FINAL_BLOCK_SIZE := 47

  function Head(last: bool): seq<Byte> {
    if last then FINAL_HEAD else NORMAL_HEAD
  }

  function Mid(last: bool): seq<Byte> {
    if last then FINAL_MID else NORMAL_MID
  }

  /** The last block of a group consumes the delegate, so it dups it one time fewer. */
  function Block(e: Entry, last: bool): (bs: seq<Byte>)
    ensures |bs| == if last then FINAL_BLOCK_SIZE else NORMAL_BLOCK_SIZE
  {
    Head(last) + ToBytes(4, e.selector) + Mid(last) + ToBytes(32, e.slot) + TAIL
  }

  function Blocks(entries: seq<Entry>): seq<Byte> {
    if entries == [] then [] else Block(entries[0], |entries| == 1) + Blocks(entries[1..])
  }

  function GroupCode(g: Group): seq<Byte> {
    [PUSH20] + ToBytes(20, g.delegate) + Blocks(g.entries)
  }

  function GroupsCode(gs: seq<Group>): seq<Byte> {
    if gs == [] then [] else GroupCode(gs[0]) + GroupsCode(gs[1..])
  }

  const HEADER: seq<Byte> := [PUSH32] + ToBytes(32, SELECTOR_DELEGATED_SIG)

  function Script(gs: seq<Group>): seq<Byte> {
    HEADER + GroupsCode(gs)
  }

  predicate Nonempty(gs: seq<Group>) {
    forall i :: 0 <= i < |gs| ==> gs[i].entries != []
  }

  // ------------------------------------------------------------------ grouping

  /** How many routes at the start share the first one's delegate. */
  function RunLength(routes: seq<Route>): (n: nat)
    ensures n <= |routes|
    ensures routes != [] ==> n >= 1
    ensures forall i :: 0 <= i < n ==> routes[i].delegate == routes[0].delegate
    ensures n < |routes| ==> routes[n].delegate != routes[0].delegate
  {
    if routes == [] then 0
    else if |routes| == 1 || routes[1].delegate != routes[0].delegate then 1
    else 1 + RunLength(routes[1..])
  }

  function Entries(routes: seq<Route>): (es: seq<Entry>)
    ensures |es| == |routes|
  {
    seq(|routes|, i requires 0 <= i < |routes| => Entry(routes[i].selector, routes[i].slot))
  }

  function FirstGroup(routes: seq<Route>): (g: Group)
    requires routes != []
    ensures g.entries != []
  {
    Group(routes[0].delegate, Entries(routes[..RunLength(routes)]))
  }

  /** Runs of equal delegates, as itertools.groupby makes them. */
  function GroupBy(routes: seq<Route>): seq<Group> {
    if routes == [] then [] else [FirstGroup(routes)] + GroupBy(routes[RunLength(routes)..])
  }

  function GroupRoutes(g: Group): (rs: seq<Route>)
    ensures |rs| == |g.entries|
  {
    seq(|g.entries|, i requires 0 <= i < |g.entries| => Route(g.entries[i].selector, g.entries[i].slot, g.delegate))
  }

  function Flatten(gs: seq<Group>): seq<Route> {
    if gs == [] then [] else GroupRoutes(gs[0]) + Flatten(gs[1..])
  }

  lemma FirstGroupRoutes(routes: seq<Route>)
    requires routes != []
    ensures GroupRoutes(FirstGroup(routes)) == routes[..RunLength(routes)]
  {
  }

  lemma FlattenCons(g: Group, gs: seq<Group>)
    ensures Flatten([g] + gs) == GroupRoutes(g) + Flatten(gs)
    ensures Nonempty([g] + gs) <==> g.entries != [] && Nonempty(gs)
  {
    assert ([g] + gs)[1..] == gs;
    assert forall i :: 0 <= i < |gs| ==> ([g] + gs)[i + 1] == gs[i];
  }

  lemma {:induction false} FlattenGroupBy(routes: seq<Route>)
    ensures Flatten(GroupBy(routes)) == routes
    ensures Nonempty(GroupBy(routes))
    decreases |routes|
  {
    if routes != [] {
      var g, rest := FirstGroup(routes), routes[RunLength(routes)..];
      FirstGroupRoutes(routes);
      FlattenGroupBy(rest);
      FlattenCons(g, GroupBy(rest));
      assert GroupBy(routes) == [g] + GroupBy(rest);
      hide *;
      assert routes == routes[..|routes| - |rest|] + rest;
    }
  }

  /** `Migration(routes).encode()`. */
  function Encoded(routes: seq<Route>): seq<Byte> {
    Script(GroupBy(Plan(routes)))
  }

  /** The encoding loop, over the sorted routes. */
  method Encode(plan: seq<Route>) returns (out: seq<Byte>)
    ensures out == Script(GroupBy(plan))
  {
    hide GroupsCode, GroupCode, GroupBy, RunLength, Entries;
    out := HEADER;
    var i := 0;
    assert plan[0..] == plan;
    while i < |plan|
      invariant 0 <= i <= |plan|
      invariant out + GroupsCode(GroupBy(plan[i..])) == Script(GroupBy(plan))
    {
      var n := RunLength(plan[i..]);
      GroupsCodeStep(plan, i, out);
      var code := EncodeGroup(plan[i..i + n]);
      out := out + code;
      i := i + n;
    }
    GroupsCodeNil(plan[i..]);
  }

  lemma GroupsCodeNil(routes: seq<Route>)
    requires routes == []
    ensures GroupsCode(GroupBy(routes)) == []
  {
  }

  lemma GroupsCodeStep(plan: seq<Route>, i: nat, out: seq<Byte>)
    requires i < |plan|
    ensures var n := RunLength(plan[i..]);
      && 1 <= n && i + n <= |plan|
      && out + GroupsCode(GroupBy(plan[i..])) ==
         out + GroupCode(Group(plan[i].delegate, Entries(plan[i..i + n]))) + GroupsCode(GroupBy(plan[i + n..]))
  {
    var routes, n := plan[i..], RunLength(plan[i..]);
    var rest := GroupBy(routes[n..]);
    assert ([FirstGroup(routes)] + rest)[1..] == rest;
    assert routes[..n] == plan[i..i + n] && routes[n..] == plan[i + n..];
    Associative(out, GroupCode(FirstGroup(routes)), GroupsCode(rest));
  }

  lemma Associative<T>(a: seq<T>, b: seq<T>, c: seq<T>)
    ensures a + b + c == a + (b + c)
  {
  }

  method EncodeGroup(group: seq<Route>) returns (out: seq<Byte>)
    requires group != []
    ensures out == GroupCode(Group(group[0].delegate, Entries(group)))
  {
    out := [PUSH20] + ToBytes(20, group[0].delegate);
    var n := |group|;
    ghost var entries := Entries(group);
    ghost var whole := out + Blocks(entries);
    hide Block, ToBytes;
    for k := 0 to n - 1
      invariant out + Blocks(entries[k..]) == whole
    {
      var block := Block(Entry(group[k].selector, group[k].slot), false);
      assert entries[k..][1..] == entries[k + 1..];
      Associative(out, block, Blocks(entries[k + 1..]));
      out := out + block;
    }
    assert entries[n - 1..][1..] == [];
    out := out + Block(Entry(group[n - 1].selector, group[n - 1].slot), true);
  }

  // ------------------------------------------------------------------- parsing

  datatype DecodeError =
    | InvalidMigration   // not a script
    | MalformedAddress   // the code ends inside a pushed address
    | UnknownDelegate    // an address with no recorded delegate

  /** A slice, cut off at the end of the code. */
  function Slice(code: seq<Byte>, lo: nat, hi: nat): (s: seq<Byte>)
    requires lo <= hi
  {
    if hi <= |code| then code[lo..hi] else if lo <= |code| then code[lo..] else []
  }

  datatype BlocksResult = BlocksOk(entries: seq<Entry>, end: nat) | BlocksBad

  function BlockSize(last: bool): nat {
    if last then FINAL_BLOCK_SIZE else NORMAL_BLOCK_SIZE
  }

  /** Whether `block` is a block of the given kind, whatever its selector and slot. */
  predicate IsBlock(block: seq<Byte>, last: bool)
    ensures IsBlock(block, last) ==> |block| == BlockSize(last)
  {
    var h := |Head(last)|;
    && |block| == BlockSize(last)
    && block[..h] == Head(last)
    && block[h + 4..h + 12] == Mid(last)
    && block[h + 44..] == TAIL
  }

  function ReadBlock(block: seq<Byte>, last: bool): Entry
    requires |block| == BlockSize(last)
  {
    PowerValues();
    var h := |Head(last)|;
    Entry(FromBytes(block[h..h + 4]), FromBytes(block[h + 12..h + 44]))
  }

  function Prepend(done: seq<Group>, r: Result<seq<Group>, DecodeError>): Result<seq<Group>, DecodeError> {
    if r.Failure? then r else Success(done + r.value)
  }

  function PrependBlocks(done: seq<Entry>, r: BlocksResult): BlocksResult {
    if r.BlocksBad? then r else BlocksOk(done + r.entries, r.end)
  }

  lemma PrependStep(done: seq<Group>, g: Group, r: Result<seq<Group>, DecodeError>)
    ensures Prepend([], r) == r
    ensures Prepend(done, Prepend([g], r)) == Prepend(done + [g], r)
  {
    if r.Success? {
      assert [] + r.value == r.value;
      Associative(done, [g], r.value);
    }
  }

  lemma PrependBlocksStep(done: seq<Entry>, e: Entry, r: BlocksResult, end: nat)
    ensures PrependBlocks([], r) == r
    ensures PrependBlocks(done, BlocksBad) == BlocksBad
    ensures PrependBlocks(done, BlocksOk([e], end)) == BlocksOk(done + [e], end)
    ensures PrependBlocks(done, PrependBlocks([e], r)) == PrependBlocks(done + [e], r)
  {
    if r.BlocksOk? {
      assert [] + r.entries == r.entries;
      Associative(done, [e], r.entries);
    }
  }

  lemma GroupRoutesSnoc(delegate: Address, done: seq<Entry>, e: Entry)
    ensures GroupRoutes(Group(delegate, [])) == []
    ensures GroupRoutes(Group(delegate, done + [e]))
         == GroupRoutes(Group(delegate, done)) + [Route(e.selector, e.slot, delegate)]
  {
  }

  /** The blocks of one group, through its final block. */
  function ParseBlocks(code: seq<Byte>, at: nat): (r: BlocksResult)
    ensures r.BlocksOk? ==> at < r.end <= |code| && r.entries != []
    decreases |code| - at
  {
    if Slice(code, at, at + 2) == NORMAL_HEAD[..2] then
      var block := Slice(code, at, at + NORMAL_BLOCK_SIZE);
      if !IsBlock(block, false) then BlocksBad else
      PrependBlocks([ReadBlock(block, false)], ParseBlocks(code, at + NORMAL_BLOCK_SIZE))
    else if Slice(code, at, at + 2) == FINAL_HEAD then
      var block := Slice(code, at, at + FINAL_BLOCK_SIZE);
      if !IsBlock(block, true) then BlocksBad else
      BlocksOk([ReadBlock(block, true)], at + FINAL_BLOCK_SIZE)
    else BlocksBad
  }

  function ParseGroups(code: seq<Byte>, at: nat, known: set<Address>): (r: Result<seq<Group>, DecodeError>)
    ensures r.Success? ==> Nonempty(r.value)
    decreases |code| - at
  {
    if at >= |code| then Success([])
    else if code[at] != PUSH20 then Failure(InvalidMigration)
    else if at + 21 > |code| then Failure(MalformedAddress)
    else
      PowerValues();
      var delegate: Address := FromBytes(code[at + 1..at + 21]);
      if delegate !in known then Failure(UnknownDelegate) else
      var blocks := ParseBlocks(code, at + 21);
      if blocks.BlocksBad? then Failure(InvalidMigration) else
      Prepend([Group(delegate, blocks.entries)], ParseGroups(code, blocks.end, known))
  }

  function Parse(code: seq<Byte>, known: set<Address>): (r: Result<seq<Group>, DecodeError>)
    ensures r.Success? ==> Nonempty(r.value)
  {
    if Slice(code, 0, 33) != HEADER then Failure(InvalidMigration) else ParseGroups(code, 33, known)
  }

  lemma SliceSplit(code: seq<Byte>)
    ensures Slice(code, 0, 33) == HEADER
      <==> Slice(code, 0, 1) == [PUSH32] && Slice(code, 1, 33) == ToBytes(32, SELECTOR_DELEGATED_SIG)
  {
    hide ToBytes;
    assert Slice(code, 0, 33) == Slice(code, 0, 1) + Slice(code, 1, 33);
    if Slice(code, 0, 33) == HEADER {
      assert Slice(code, 0, 1) == HEADER[..1] && Slice(code, 1, 33) == HEADER[1..];
    }
  }

  /**
   The decoding loops. `known` holds the addresses with a recorded delegate. `Parse` gives the
   groups in the order of the bytes; the result is sorted again.
   */
  method Decode(code: seq<Byte>, known: set<Address>) returns (r: Result<seq<Route>, DecodeError>)
    ensures Parse(code, known).Failure? ==> r == Failure(Parse(code, known).error)
    ensures Parse(code, known).Success? ==> r == Success(Plan(Flatten(Parse(code, known).value)))
  {
    hide FromBytes, ToBytes, Plan, ParseBlocks, GroupRoutes, Flatten, Pow256, Nonempty;
    PowerValues();
    SliceSplit(code);
    if Slice(code, 0, 1) != [PUSH32] || Slice(code, 1, 33) != ToBytes(32, SELECTOR_DELEGATED_SIG) {
      return Failure(InvalidMigration);
    }
    var routes: seq<Route> := [];
    ghost var done: seq<Group> := [];
    FlattenSnoc(done, Group(0, []));
    PrependStep([], Group(0, []), Parse(code, known));
    var i: nat := 33;
    while i < |code|
      invariant i <= |code|
      invariant routes == Flatten(done)
      invariant Prepend(done, ParseGroups(code, i, known)) == Parse(code, known)
    {
      if code[i] != PUSH20 {
        return Failure(InvalidMigration);
      }
      var pushed := Slice(code, i + 1, i + 21);
      if |pushed| != 20 {
        return Failure(MalformedAddress);
      }
      var delegate: Address := FromBytes(pushed);
      if delegate !in known {
        return Failure(UnknownDelegate);
      }
      ghost var blocks := ParseBlocks(code, i + 21);
      var end, added := DecodeBlocks(code, i + 21, delegate);
      if end == None {
        return Failure(InvalidMigration);
      }
      i := end.value;
      routes := routes + added;
      FlattenSnoc(done, Group(delegate, blocks.entries));
      PrependStep(done, Group(delegate, blocks.entries), ParseGroups(code, i, known));
      done := done + [Group(delegate, blocks.entries)];
    }
    assert done + [] == done;
    return Success(Plan(routes));
  }

  /** The inner loop: one group's routes and where it ends, or None if it is malformed. */
  method DecodeBlocks(code: seq<Byte>, at: nat, delegate: Address) returns (end: Option<nat>, routes: seq<Route>)
    requires at <= |code|
    ensures var r := ParseBlocks(code, at);
      if r.BlocksBad? then end == None else end == Some(r.end) && routes == GroupRoutes(Group(delegate, r.entries))
  {
    hide IsBlock, ReadBlock, PrependBlocks, GroupRoutes;
    routes := [];
    var i: nat := at;
    ghost var entries: seq<Entry> := [];
    var sawFinal := false;
    PrependBlocksStep([], Entry(0, 0), ParseBlocks(code, at), 0);
    GroupRoutesSnoc(delegate, [], Entry(0, 0));
    while !sawFinal
      invariant i <= |code|
      invariant routes == GroupRoutes(Group(delegate, entries))
      invariant !sawFinal ==> PrependBlocks(entries, ParseBlocks(code, i)) == ParseBlocks(code, at)
      invariant sawFinal ==> ParseBlocks(code, at) == BlocksOk(entries, i)
      decreases !sawFinal, |code| - i
    {
      var entry;
      PrependBlocksStep(entries, Entry(0, 0), BlocksBad, 0);
      if Slice(code, i, i + 2) == NORMAL_HEAD[..2] {
        var block := Slice(code, i, i + NORMAL_BLOCK_SIZE);
        if !IsBlock(block, false) {
          return None, [];
        }
        entry := ReadBlock(block, false);
        i := i + NORMAL_BLOCK_SIZE;
      } else if Slice(code, i, i + 2) == FINAL_HEAD {
        var block := Slice(code, i, i + FINAL_BLOCK_SIZE);
        if !IsBlock(block, true) {
          return None, [];
        }
        entry := ReadBlock(block, true);
        i := i + FINAL_BLOCK_SIZE;
        sawFinal := true;
      } else {
        return None, [];
      }
      routes := routes + [Route(entry.selector, entry.slot, delegate)];
      PrependBlocksStep(entries, entry, ParseBlocks(code, i), i);
      GroupRoutesSnoc(delegate, entries, entry);
      entries := entries + [entry];
    }
    end := Some(i);
  }

  lemma FlattenSnoc(gs: seq<Group>, g: Group)
    ensures Flatten([]) == []
    ensures Flatten(gs + [g]) == Flatten(gs) + GroupRoutes(g)
  {
    FlattenConcat(gs, [g]);
    assert Flatten([g]) == GroupRoutes(g) + Flatten([g][1..]);
  }

  lemma {:induction false} FlattenConcat(a: seq<Group>, b: seq<Group>)
    ensures Flatten(a + b) == Flatten(a) + Flatten(b)
    decreases |a|
  {
    if a == [] {
      assert a + b == b;
    } else {
      FlattenConcat(a[1..], b);
      assert (a + b)[1..] == a[1..] + b;
    }
  }
}
