/** `Migration.encode` and `Migration.decode` are inverse, and what the bytes depend on. */
module MigrationCodec {
  import opened Bytes
  import opened Evm
  import opened Sorting
  import opened Wrappers
  import opened Migration

  predicate AllKnown(gs: seq<Group>, known: set<Address>) {
    forall i :: 0 <= i < |gs| ==> gs[i].delegate in known
  }

  // ------------------------------------------------------------------- one block

  lemma FiveParts<T>(s: seq<T>, a: nat, b: nat, c: nat, d: nat)
    requires a <= b <= c <= d <= |s|
    ensures s == s[..a] + s[a..b] + s[b..c] + s[c..d] + s[d..]
  {
    assert s[..d] == s[..c] + s[c..d];
    assert s[..c] == s[..b] + s[b..c];
    assert s[..b] == s[..a] + s[a..b];
    assert s == s[..d] + s[d..];
  }

  lemma PartsOfFive<T>(p: seq<T>, q: seq<T>, r: seq<T>, s: seq<T>, t: seq<T>)
    ensures var whole, a, b, c, d :=
      p + q + r + s + t, |p|, |p| + |q|, |p| + |q| + |r|, |p| + |q| + |r| + |s|;
      && whole[..a] == p && whole[a..b] == q && whole[b..c] == r && whole[c..d] == s && whole[d..] == t
  {
  }

  lemma ReadBlockWrites(block: seq<Byte>, last: bool)
    requires IsBlock(block, last)
    ensures Block(ReadBlock(block, last), last) == block
  {
    hide ToBytes, FromBytes, Mid;
    var h := |Head(last)|;
    ToFromBytes(block[h..h + 4]);
    ToFromBytes(block[h + 12..h + 44]);
    FiveParts(block, h, h + 4, h + 12, h + 44);
  }

  lemma WriteBlockReads(e: Entry, last: bool)
    ensures IsBlock(Block(e, last), last) && ReadBlock(Block(e, last), last) == e
    ensures Block(e, last)[..2] == if last then FINAL_HEAD else NORMAL_HEAD[..2]
  {
    hide ToBytes, FromBytes, Pow256, Mid;
    PowerValues();
    FromToBytes(4, e.selector);
    FromToBytes(32, e.slot);
    PartsOfFive(Head(last), ToBytes(4, e.selector), Mid(last), ToBytes(32, e.slot), TAIL);
    assert Block(e, last)[..2] == Head(last)[..2];
  }

  // ------------------------------------------------------------------- one group

  lemma SlicePrefix(code: seq<Byte>, at: nat, n: nat, m: nat)
    requires m <= n && |Slice(code, at, at + n)| == n
    ensures Slice(code, at, at + m) == Slice(code, at, at + n)[..m]
  {
    if n > 0 {
      assert at + n <= |code|;
      assert code[at..at + n][..m] == code[at..at + m];
    }
  }

  lemma ParseNormal(code: seq<Byte>, at: nat, e: Entry)
    requires Slice(code, at, at + NORMAL_BLOCK_SIZE) == Block(e, false)
    ensures ParseBlocks(code, at) == PrependBlocks([e], ParseBlocks(code, at + NORMAL_BLOCK_SIZE))
  {
    WriteBlockReads(e, false);
    assert |Block(e, false)| == NORMAL_BLOCK_SIZE;
    SlicePrefix(code, at, NORMAL_BLOCK_SIZE, 2);
    hide Block, IsBlock, ReadBlock;
  }

  lemma ParseFinal(code: seq<Byte>, at: nat, e: Entry)
    requires Slice(code, at, at + FINAL_BLOCK_SIZE) == Block(e, true)
    ensures ParseBlocks(code, at) == BlocksOk([e], at + FINAL_BLOCK_SIZE)
  {
    WriteBlockReads(e, true);
    assert |Block(e, true)| == FINAL_BLOCK_SIZE;
    SlicePrefix(code, at, FINAL_BLOCK_SIZE, 2);
    assert FINAL_HEAD[1] != NORMAL_HEAD[..2][1];
    hide Block, IsBlock, ReadBlock;
  }

  lemma BlocksParts(entries: seq<Entry>)
    requires entries != []
    ensures Blocks(entries) == Block(entries[0], |entries| == 1) + Blocks(entries[1..])
    ensures |entries| == 1 ==> Blocks(entries[1..]) == []
    ensures |Block(entries[0], false)| == NORMAL_BLOCK_SIZE && |Block(entries[0], true)| == FINAL_BLOCK_SIZE
  {
    hide Block;
  }

  lemma {:induction false} ParseBlocksOf(code: seq<Byte>, at: nat, entries: seq<Entry>)
    requires entries != [] && Holds(code, at, Blocks(entries))
    ensures ParseBlocks(code, at) == BlocksOk(entries, at + |Blocks(entries)|)
    decreases |entries|
  {
    hide Block, Blocks, ParseBlocks;
    var last := |entries| == 1;
    var block := Block(entries[0], last);
    BlocksParts(entries);
    HoldsSplit(code, at, block, Blocks(entries[1..]));
    assert Slice(code, at, at + |block|) == block;
    if last {
      ParseFinal(code, at, entries[0]);
      assert entries == [entries[0]];
    } else {
      ParseNormal(code, at, entries[0]);
      ParseBlocksOf(code, at + NORMAL_BLOCK_SIZE, entries[1..]);
      assert [entries[0]] + entries[1..] == entries;
    }
  }

  lemma {:induction false} ParsedBlocksHold(code: seq<Byte>, at: nat)
    requires ParseBlocks(code, at).BlocksOk?
    ensures var r := ParseBlocks(code, at);
      Holds(code, at, Blocks(r.entries)) && r.end == at + |Blocks(r.entries)|
    decreases |code| - at
  {
    hide Block, IsBlock, ReadBlock;
    var entries := ParseBlocks(code, at).entries;
    if Slice(code, at, at + 2) == NORMAL_HEAD[..2] {
      ReadBlockWrites(Slice(code, at, at + NORMAL_BLOCK_SIZE), false);
      ParsedBlocksHold(code, at + NORMAL_BLOCK_SIZE);
      var rest := ParseBlocks(code, at + NORMAL_BLOCK_SIZE).entries;
      assert entries[1..] == rest;
      HoldsJoin(code, at, Block(entries[0], false), Blocks(rest));
    } else {
      ReadBlockWrites(Slice(code, at, at + FINAL_BLOCK_SIZE), true);
      assert entries[1..] == [];
      HoldsJoin(code, at, Block(entries[0], true), Blocks([]));
    }
  }

  lemma HoldsJoin(code: seq<Byte>, at: nat, a: seq<Byte>, b: seq<Byte>)
    requires Holds(code, at, a) && Holds(code, at + |a|, b)
    ensures Holds(code, at, a + b)
  {
    assert code[at..at + |a + b|] == code[at..at + |a|] + code[at + |a|..at + |a| + |b|];
  }

  // ------------------------------------------------------------------ all groups

  lemma GroupParts(code: seq<Byte>, at: nat, g: Group, rest: seq<Byte>)
    requires at <= |code| && code[at..] == GroupCode(g) + rest
    ensures at + 21 + |Blocks(g.entries)| <= |code|
    ensures code[at] == PUSH20 && code[at + 1..at + 21] == ToBytes(20, g.delegate)
    ensures Holds(code, at + 21, Blocks(g.entries))
    ensures code[at + 21 + |Blocks(g.entries)|..] == rest
  {
    hide Blocks, ToBytes;
    var tail := code[at..];
    assert tail[0] == PUSH20 && tail[1..21] == ToBytes(20, g.delegate);
    assert tail[21..21 + |Blocks(g.entries)|] == Blocks(g.entries);
    assert tail[21 + |Blocks(g.entries)|..] == rest;
  }

  /** Reading one group, and then the rest. */
  lemma ParseGroupsCons(code: seq<Byte>, at: nat, g: Group, end: nat, rest: seq<Group>, known: set<Address>)
    requires at + 21 <= |code| && code[at] == PUSH20 && code[at + 1..at + 21] == ToBytes(20, g.delegate)
    requires g.delegate in known
    requires ParseBlocks(code, at + 21) == BlocksOk(g.entries, end) && ParseGroups(code, end, known) == Success(rest)
    ensures ParseGroups(code, at, known) == Success([g] + rest)
  {
    hide ParseBlocks, ToBytes, FromBytes, Pow256;
    PowerValues();
    FromToBytes(20, g.delegate);
  }

  lemma ParseGroupsNone(code: seq<Byte>, at: nat, known: set<Address>)
    requires at <= |code| && code[at..] == GroupsCode([])
    ensures ParseGroups(code, at, known) == Success([])
  {
    assert |code[at..]| == 0;
  }

  lemma TailGroups(gs: seq<Group>, known: set<Address>)
    requires gs != [] && Nonempty(gs) && AllKnown(gs, known)
    ensures GroupsCode(gs) == GroupCode(gs[0]) + GroupsCode(gs[1..])
    ensures gs[0].entries != [] && gs[0].delegate in known && Nonempty(gs[1..]) && AllKnown(gs[1..], known)
  {
    hide GroupCode;
  }

  lemma {:induction false} ParseGroupsOf(code: seq<Byte>, at: nat, gs: seq<Group>, known: set<Address>)
    requires at <= |code| && code[at..] == GroupsCode(gs) && Nonempty(gs) && AllKnown(gs, known)
    ensures ParseGroups(code, at, known) == Success(gs)
    decreases |gs|
  {
    hide *;
    if gs == [] {
      ParseGroupsNone(code, at, known);
    } else {
      TailGroups(gs, known);
      var g := gs[0];
      var end := at + 21 + |Blocks(g.entries)|;
      GroupParts(code, at, g, GroupsCode(gs[1..]));
      ParseBlocksOf(code, at + 21, g.entries);
      ParseGroupsOf(code, end, gs[1..], known);
      ParseGroupsCons(code, at, g, end, gs[1..], known);
      assert [g] + gs[1..] == gs;
    }
  }

  lemma GroupWhole(code: seq<Byte>, at: nat, g: Group, end: nat)
    requires at + 21 <= end <= |code| && code[at] == PUSH20
    requires code[at + 1..at + 21] == ToBytes(20, g.delegate) && code[at + 21..end] == Blocks(g.entries)
    ensures code[at..] == GroupCode(g) + code[end..]
  {
    hide Blocks, ToBytes;
    assert code[at..] == [PUSH20] + code[at + 1..at + 21] + code[at + 21..end] + code[end..];
  }

  lemma ParseGroupsStep(code: seq<Byte>, at: nat, known: set<Address>) returns (g: Group, end: nat)
    requires at < |code| && ParseGroups(code, at, known).Success?
    ensures at + 21 <= |code| && code[at] == PUSH20
    ensures g.delegate in known && ToBytes(20, g.delegate) == code[at + 1..at + 21]
    ensures ParseBlocks(code, at + 21) == BlocksOk(g.entries, end)
    ensures at < end <= |code| && ParseGroups(code, end, known).Success?
    ensures ParseGroups(code, at, known).value == [g] + ParseGroups(code, end, known).value
  {
    hide ParseBlocks, ToBytes, FromBytes, Pow256;
    PowerValues();
    ToFromBytes(code[at + 1..at + 21]);
    g := Group(FromBytes(code[at + 1..at + 21]), ParseBlocks(code, at + 21).entries);
    end := ParseBlocks(code, at + 21).end;
  }

  lemma GroupsCodeCons(g: Group, gs: seq<Group>)
    ensures GroupsCode([g] + gs) == GroupCode(g) + GroupsCode(gs)
  {
    assert ([g] + gs)[1..] == gs;
  }

  lemma KnownCons(g: Group, gs: seq<Group>, known: set<Address>)
    requires g.delegate in known && AllKnown(gs, known)
    ensures AllKnown([g] + gs, known)
  {
  }

  lemma {:induction false} ParsedGroupsHold(code: seq<Byte>, at: nat, known: set<Address>)
    requires at <= |code| && ParseGroups(code, at, known).Success?
    ensures code[at..] == GroupsCode(ParseGroups(code, at, known).value)
    ensures AllKnown(ParseGroups(code, at, known).value, known)
    decreases |code| - at
  {
    if at == |code| {
      assert ParseGroups(code, at, known) == Success([]) && code[at..] == [];
    } else {
      hide *;
      var g, end := ParseGroupsStep(code, at, known);
      ParsedBlocksHold(code, at + 21);
      ParsedGroupsHold(code, end, known);
      var rest := ParseGroups(code, end, known).value;
      BlocksHeld(code, at + 21, g, end);
      GroupWhole(code, at, g, end);
      GroupsCodeCons(g, rest);
      KnownCons(g, rest, known);
    }
  }

  lemma BlocksHeld(code: seq<Byte>, at: nat, g: Group, end: nat)
    requires Holds(code, at, Blocks(g.entries)) && end == at + |Blocks(g.entries)|
    ensures at <= end <= |code| && code[at..end] == Blocks(g.entries)
  {
  }

  /** Decoding accepts exactly the scripts of nonempty groups of known delegates, and recovers the groups. */
  lemma {:induction false} ParseIsInverse(code: seq<Byte>, known: set<Address>, gs: seq<Group>)
    ensures Parse(code, known) == Success(gs) <==> code == Script(gs) && Nonempty(gs) && AllKnown(gs, known)
  {
    if code == Script(gs) && Nonempty(gs) && AllKnown(gs, known) {
      assert Slice(code, 0, 33) == HEADER;
      assert code[33..] == GroupsCode(gs);
      ParseGroupsOf(code, 33, gs, known);
    }
    if Parse(code, known) == Success(gs) {
      assert |Slice(code, 0, 33)| == 33;
      ParsedGroupsHold(code, 33, known);
      assert code == code[..33] + code[33..];
    }
  }

  // ------------------------------------------------------------------ faults after whole groups

  /** What is left of the code after whole groups has a pushed address that is cut short, or not known. */
  ghost predicate Faulty(rest: seq<Byte>, known: set<Address>, fault: DecodeError) {
    && rest != [] && rest[0] == PUSH20
    && match fault
       case InvalidMigration => false
       case MalformedAddress => |rest| < 21
       case UnknownDelegate => |rest| >= 21 && forall a :: a in known ==> rest[1..21] != ToBytes(20, a)
  }

  /** From `at` on the code is whole groups of known delegates, and then such a rest. */
  ghost predicate FaultAt(code: seq<Byte>, at: nat, gs: seq<Group>, rest: seq<Byte>, known: set<Address>,
                          fault: DecodeError) {
    && at <= |code| && code[at..] == GroupsCode(gs) + rest && Faulty(rest, known, fault)
    && Nonempty(gs) && AllKnown(gs, known)
  }

  /** The script of some groups, and then a pushed address cut short. */
  ghost predicate CutShort(code: seq<Byte>, known: set<Address>) {
    exists gs, tail :: CutShortBy(code, gs, tail, known)
  }

  ghost predicate CutShortBy(code: seq<Byte>, gs: seq<Group>, tail: seq<Byte>, known: set<Address>) {
    && code == Script(gs) + ([PUSH20] + tail) && |tail| < 20
    && Nonempty(gs) && AllKnown(gs, known)
  }

  /** The script of some groups, and then a pushed address that is not known, whatever comes after it. */
  ghost predicate NamesUnknown(code: seq<Byte>, known: set<Address>) {
    exists gs, a, tail :: NamesUnknownBy(code, gs, a, tail, known)
  }

  ghost predicate NamesUnknownBy(code: seq<Byte>, gs: seq<Group>, a: Address, tail: seq<Byte>, known: set<Address>) {
    && code == Script(gs) + ([PUSH20] + ToBytes(20, a) + tail) && a !in known
    && Nonempty(gs) && AllKnown(gs, known)
  }

  lemma SameAddress(a: Address, b: Address)
    ensures ToBytes(20, a) == ToBytes(20, b) <==> a == b
  {
    PowerValues();
    FromToBytes(20, a);
    FromToBytes(20, b);
    hide ToBytes, FromBytes, Pow256;
  }

  /** Whether the address at `at` is faulty, as the parser sees it. */
  lemma AddressFault(code: seq<Byte>, at: nat, known: set<Address>, fault: DecodeError)
    requires at < |code| && code[at] == PUSH20
    ensures Faulty(code[at..], known, fault) <==>
      if at + 21 > |code| then fault == MalformedAddress
      else fault == UnknownDelegate && FromBytes(code[at + 1..at + 21]) !in known
  {
    var rest := code[at..];
    if at + 21 <= |code| {
      var bs := code[at + 1..at + 21];
      assert rest[1..21] == bs;
      PowerValues();
      ToFromBytes(bs);
      hide ToBytes, FromBytes, Pow256;
      var a: Address := FromBytes(bs);
      forall b | b in known
        ensures bs != ToBytes(20, b) <==> b != a
      {
        SameAddress(a, b);
      }
    }
  }

  /** A fault is met at once, or after a group. */
  lemma GroupsFault(code: seq<Byte>, at: nat, known: set<Address>, fault: DecodeError)
    requires at <= |code| && fault != InvalidMigration
    ensures ParseGroups(code, at, known) == Failure(fault) <==>
      && at < |code| && code[at] == PUSH20
      && if at + 21 > |code| then fault == MalformedAddress
         else if FromBytes(code[at + 1..at + 21]) !in known then fault == UnknownDelegate
         else var blocks := ParseBlocks(code, at + 21);
           blocks.BlocksOk? && ParseGroups(code, blocks.end, known) == Failure(fault)
  {
    hide ParseBlocks, FromBytes;
  }

  lemma {:induction false} FaultFound(code: seq<Byte>, at: nat, known: set<Address>, fault: DecodeError)
    returns (gs: seq<Group>, rest: seq<Byte>)
    requires at <= |code| && fault != InvalidMigration && ParseGroups(code, at, known) == Failure(fault)
    ensures FaultAt(code, at, gs, rest, known, fault)
    decreases |code| - at
  {
    hide *;
    GroupsFault(code, at, known, fault);
    AddressFault(code, at, known, fault);
    if Faulty(code[at..], known, fault) {
      gs, rest := [], code[at..];
      FaultFold(code, at, known, fault);
    } else {
      var blocks := ParseBlocks(code, at + 21);
      var g := KnownGroup(code, at, known, blocks.entries);
      ParsedBlocksHold(code, at + 21);
      BlocksHeld(code, at + 21, g, blocks.end);
      GroupWhole(code, at, g, blocks.end);
      gs, rest := FaultFound(code, blocks.end, known, fault);
      FaultCons(code, at, g, blocks.end, gs, rest, known, fault);
      gs := [g] + gs;
    }
  }

  lemma FaultFold(code: seq<Byte>, at: nat, known: set<Address>, fault: DecodeError)
    requires at <= |code| && Faulty(code[at..], known, fault)
    ensures FaultAt(code, at, [], code[at..], known, fault)
  {
    hide Faulty;
    assert GroupsCode([]) + code[at..] == code[at..];
  }

  /** The group of a pushed address that is known. */
  lemma KnownGroup(code: seq<Byte>, at: nat, known: set<Address>, entries: seq<Entry>) returns (g: Group)
    requires at + 21 <= |code| && FromBytes(code[at + 1..at + 21]) in known
    ensures g.delegate in known && g.entries == entries && ToBytes(20, g.delegate) == code[at + 1..at + 21]
    ensures g.delegate == FromBytes(code[at + 1..at + 21])
  {
    PowerValues();
    ToFromBytes(code[at + 1..at + 21]);
    hide ToBytes, FromBytes, Pow256;
    g := Group(FromBytes(code[at + 1..at + 21]), entries);
  }

  lemma FaultCons(code: seq<Byte>, at: nat, g: Group, end: nat, gs: seq<Group>, rest: seq<Byte>, known: set<Address>,
                  fault: DecodeError)
    requires at <= end <= |code| && code[at..] == GroupCode(g) + code[end..]
    requires FaultAt(code, end, gs, rest, known, fault) && g.entries != [] && g.delegate in known
    ensures FaultAt(code, at, [g] + gs, rest, known, fault)
  {
    hide GroupCode, GroupsCode, Faulty;
    GroupsCodeCons(g, gs);
    Associative(GroupCode(g), GroupsCode(gs), rest);
  }

  lemma {:induction false} FaultMet(code: seq<Byte>, at: nat, gs: seq<Group>, rest: seq<Byte>, known: set<Address>,
                                    fault: DecodeError)
    requires FaultAt(code, at, gs, rest, known, fault)
    ensures ParseGroups(code, at, known) == Failure(fault)
    decreases |gs|
  {
    hide *;
    if gs == [] {
      FaultHere(code, at, rest, known, fault);
      GroupsFault(code, at, known, fault);
      AddressFault(code, at, known, fault);
    } else {
      FaultParts(code, at, gs, rest, known, fault);
      var end := at + 21 + |Blocks(gs[0].entries)|;
      ParseBlocksOf(code, at + 21, gs[0].entries);
      KnownDelegate(code, at, gs[0], known);
      FaultMet(code, end, gs[1..], rest, known, fault);
      GroupsFault(code, at, known, fault);
    }
  }

  lemma FaultHere(code: seq<Byte>, at: nat, rest: seq<Byte>, known: set<Address>, fault: DecodeError)
    requires FaultAt(code, at, [], rest, known, fault)
    ensures at < |code| && code[at] == PUSH20 && Faulty(code[at..], known, fault) && fault != InvalidMigration
  {
    assert GroupsCode([]) + rest == rest;
    assert code[at] == code[at..][0];
  }

  lemma KnownDelegate(code: seq<Byte>, at: nat, g: Group, known: set<Address>)
    requires at + 21 <= |code| && code[at + 1..at + 21] == ToBytes(20, g.delegate) && g.delegate in known
    ensures FromBytes(code[at + 1..at + 21]) in known
  {
    PowerValues();
    FromToBytes(20, g.delegate);
    hide ToBytes, FromBytes, Pow256;
  }

  lemma FaultParts(code: seq<Byte>, at: nat, gs: seq<Group>, rest: seq<Byte>, known: set<Address>, fault: DecodeError)
    requires FaultAt(code, at, gs, rest, known, fault) && gs != []
    ensures var g := gs[0];
      var end := at + 21 + |Blocks(g.entries)|;
      && end <= |code| && code[at] == PUSH20 && code[at + 1..at + 21] == ToBytes(20, g.delegate) && g.delegate in known
      && g.entries != [] && Holds(code, at + 21, Blocks(g.entries))
      && FaultAt(code, end, gs[1..], rest, known, fault) && fault != InvalidMigration
  {
    hide *;
    FaultUnfold(code, at, gs, rest, known, fault);
    GroupParts(code, at, gs[0], GroupsCode(gs[1..]) + rest);
    FaultRest(code, at + 21 + |Blocks(gs[0].entries)|, gs[1..], rest, known, fault);
  }

  lemma FaultUnfold(code: seq<Byte>, at: nat, gs: seq<Group>, rest: seq<Byte>, known: set<Address>, fault: DecodeError)
    requires FaultAt(code, at, gs, rest, known, fault) && gs != []
    ensures at <= |code| && code[at..] == GroupCode(gs[0]) + (GroupsCode(gs[1..]) + rest)
    ensures Faulty(rest, known, fault) && fault != InvalidMigration
    ensures gs[0].entries != [] && gs[0].delegate in known && Nonempty(gs[1..]) && AllKnown(gs[1..], known)
  {
    TailGroups(gs, known);
    hide GroupCode, GroupsCode, Nonempty, AllKnown;
    Associative(GroupCode(gs[0]), GroupsCode(gs[1..]), rest);
  }

  lemma FaultRest(code: seq<Byte>, at: nat, gs: seq<Group>, rest: seq<Byte>, known: set<Address>, fault: DecodeError)
    requires at <= |code| && code[at..] == GroupsCode(gs) + rest && Faulty(rest, known, fault)
    requires Nonempty(gs) && AllKnown(gs, known)
    ensures FaultAt(code, at, gs, rest, known, fault)
  {
  }

  /** The script of some groups of known delegates, and then such a rest. */
  ghost predicate FaultsBy(code: seq<Byte>, gs: seq<Group>, rest: seq<Byte>, known: set<Address>, fault: DecodeError) {
    code == Script(gs) + rest && Faulty(rest, known, fault) && Nonempty(gs) && AllKnown(gs, known)
  }

  /** Decoding raises an error about an address exactly if that fault comes after whole groups. */
  lemma {:induction false} FaultExactly(code: seq<Byte>, known: set<Address>, fault: DecodeError)
    requires fault != InvalidMigration
    ensures Parse(code, known) == Failure(fault) <==> exists gs, rest :: FaultsBy(code, gs, rest, known, fault)
  {
    hide ParseGroups, GroupsCode, Nonempty, AllKnown, Faulty;
    if Parse(code, known) == Failure(fault) {
      assert |Slice(code, 0, 33)| == 33;
      var gs, rest := FaultFound(code, 33, known, fault);
      assert code == code[..33] + code[33..];
      Associative(HEADER, GroupsCode(gs), rest);
      assert FaultsBy(code, gs, rest, known, fault);
    }
    if gs, rest :| FaultsBy(code, gs, rest, known, fault) {
      Associative(HEADER, GroupsCode(gs), rest);
      assert |HEADER| == 33;
      assert code[..33] == HEADER && code[33..] == GroupsCode(gs) + rest;
      FaultMet(code, 33, gs, rest, known, fault);
    }
  }

  /** Decoding meets a malformed address exactly in code that ends inside a pushed address. */
  lemma {:induction false} MalformedExactly(code: seq<Byte>, known: set<Address>)
    ensures Parse(code, known) == Failure(MalformedAddress) <==> CutShort(code, known)
  {
    FaultExactly(code, known, MalformedAddress);
    hide Parse, Script, Nonempty, AllKnown;
    if gs, rest :| FaultsBy(code, gs, rest, known, MalformedAddress) {
      assert rest == [PUSH20] + rest[1..];
      assert CutShortBy(code, gs, rest[1..], known);
    }
    if gs, tail :| CutShortBy(code, gs, tail, known) {
      assert FaultsBy(code, gs, [PUSH20] + tail, known, MalformedAddress);
    }
  }

  /** It meets a delegate it does not know exactly in code that pushes one after groups of known ones. */
  lemma {:induction false} UnknownExactly(code: seq<Byte>, known: set<Address>)
    ensures Parse(code, known) == Failure(UnknownDelegate) <==> NamesUnknown(code, known)
  {
    UnknownMeans(code, known);
    FaultExactly(code, known, UnknownDelegate);
    hide *;
    if gs, rest :| FaultsBy(code, gs, rest, known, UnknownDelegate) {
      FaultNamesUnknown(code, gs, rest, known);
    }
    if gs, a, tail :| NamesUnknownBy(code, gs, a, tail, known) {
      UnknownFaults(code, gs, a, tail, known);
    }
  }

  lemma UnknownMeans(code: seq<Byte>, known: set<Address>)
    ensures NamesUnknown(code, known) <==> exists gs, a, tail :: NamesUnknownBy(code, gs, a, tail, known)
  {
    hide NamesUnknownBy;
  }

  lemma FaultNamesUnknown(code: seq<Byte>, gs: seq<Group>, rest: seq<Byte>, known: set<Address>)
    requires FaultsBy(code, gs, rest, known, UnknownDelegate)
    ensures NamesUnknown(code, known)
  {
    hide Script, Nonempty, AllKnown, ToBytes;
    var a := UnknownAddress(rest, known);
    hide Faulty;
    assert NamesUnknownBy(code, gs, a, rest[21..], known);
  }

  lemma UnknownFaults(code: seq<Byte>, gs: seq<Group>, a: Address, tail: seq<Byte>, known: set<Address>)
    requires NamesUnknownBy(code, gs, a, tail, known)
    ensures FaultsBy(code, gs, [PUSH20] + ToBytes(20, a) + tail, known, UnknownDelegate)
  {
    hide Script, Nonempty, AllKnown, ToBytes, Faulty;
    UnknownFaulty(a, tail, known);
  }

  lemma UnknownAddress(rest: seq<Byte>, known: set<Address>) returns (a: Address)
    requires Faulty(rest, known, UnknownDelegate)
    ensures a !in known && rest == [PUSH20] + ToBytes(20, a) + rest[21..]
  {
    PowerValues();
    ToFromBytes(rest[1..21]);
    hide ToBytes, FromBytes, Pow256;
    a := FromBytes(rest[1..21]);
    assert rest == [rest[0]] + rest[1..21] + rest[21..];
  }

  lemma UnknownFaulty(a: Address, tail: seq<Byte>, known: set<Address>)
    requires a !in known
    ensures Faulty([PUSH20] + ToBytes(20, a) + tail, known, UnknownDelegate)
  {
    var rest := [PUSH20] + ToBytes(20, a) + tail;
    hide ToBytes;
    assert rest[1..21] == ToBytes(20, a);
    forall b | b in known
      ensures rest[1..21] != ToBytes(20, b)
    {
      SameAddress(a, b);
    }
  }

  /** The shortest such code: the header, and a push without its address. */
  lemma {:induction false} BarePushMalformed(known: set<Address>)
    ensures Parse(Script([]) + [PUSH20], known) == Failure(MalformedAddress)
  {
    hide Parse, Script;
    assert [PUSH20] + [] == [PUSH20];
    assert CutShortBy(Script([]) + [PUSH20], [], [], known);
    MalformedExactly(Script([]) + [PUSH20], known);
  }

  ghost predicate DelegatesKnown(routes: seq<Route>, known: set<Address>) {
    forall i :: 0 <= i < |routes| ==> routes[i].delegate in known
  }

  lemma {:induction false} GroupByKnown(routes: seq<Route>, known: set<Address>)
    requires DelegatesKnown(routes, known)
    ensures AllKnown(GroupBy(routes), known)
    decreases |routes|
  {
    if routes != [] {
      GroupByKnown(routes[RunLength(routes)..], known);
    }
  }

  lemma PlanKnown(routes: seq<Route>, known: set<Address>)
    requires DelegatesKnown(routes, known)
    ensures DelegatesKnown(Plan(routes), known)
  {
    var plan := Plan(routes);
    SortProperties(routes, RouteKey);
    forall i | 0 <= i < |plan|
      ensures plan[i].delegate in known
    {
      assert plan[i] in multiset(routes);
    }
  }

  /** `decode(encode(m))` is `m`, sorted. */
  lemma {:induction false} RoundTrip(routes: seq<Route>, known: set<Address>)
    requires DelegatesKnown(routes, known)
    ensures Parse(Encoded(routes), known) == Success(GroupBy(Plan(routes)))
    ensures Plan(Flatten(GroupBy(Plan(routes)))) == Plan(routes)
  {
    PlanKnown(routes, known);
    GroupByKnown(Plan(routes), known);
    FlattenGroupBy(Plan(routes));
    ParseIsInverse(Encoded(routes), known, GroupBy(Plan(routes)));
    SortProperties(routes, RouteKey);
    SortOrdered(Plan(routes), RouteKey);
  }

  // --------------------------------------------------------------------- canonical

  /** Two routes of one selector to one delegate, through different slots. */
  ghost predicate Ambiguous(routes: seq<Route>) {
    exists i, j :: 0 <= i < j < |routes| && RouteKey(routes[i]) == RouteKey(routes[j]) && routes[i] != routes[j]
  }

  /** Sorting keeps two routes with one key as they come. */
  lemma PlanOfTwo(r: Route, q: Route)
    requires RouteKey(r) == RouteKey(q)
    ensures Plan([r, q]) == [r, q]
  {
    assert [r, q][1..] == [q] && [q][1..] == [];
    assert Insert(q, [], RouteKey) == [q] == Sort([q], RouteKey);
    assert Insert(r, [q], RouteKey) == [r] + [q];
  }

  /** One delegate and one selector at two slots: the bytes depend on the order. */
  lemma {:induction false} AmbiguousOrder(s: Selector, d: Address)
    ensures var r, q := Route(s, 0, d), Route(s, 1, d);
      multiset([r, q]) == multiset([q, r]) && Encoded([r, q]) != Encoded([q, r])
  {
    var r, q := Route(s, 0, d), Route(s, 1, d);
    PlanOfTwo(r, q);
    PlanOfTwo(q, r);
    assert [r, q][0] != [q, r][0];
    hide Encoded, Plan;
    EncodedInjective([r, q], [q, r]);
  }

  lemma {:induction false} EncodedInjective(a: seq<Route>, b: seq<Route>)
    ensures Encoded(a) == Encoded(b) <==> Plan(a) == Plan(b)
  {
    if Encoded(a) == Encoded(b) {
      var known := (set i | 0 <= i < |a| :: a[i].delegate) + (set i | 0 <= i < |b| :: b[i].delegate);
      RoundTrip(a, known);
      RoundTrip(b, known);
      FlattenGroupBy(Plan(a));
      FlattenGroupBy(Plan(b));
    }
  }

  /** The bytes depend on the routes but not on their order, exactly when no two routes are ambiguous. */
  lemma {:induction false} Canonical(routes: seq<Route>)
    ensures (forall other: seq<Route> | multiset(other) == multiset(routes) :: Encoded(other) == Encoded(routes))
      <==> !Ambiguous(routes)
  {
    if Ambiguous(routes) {
      var i, j :| 0 <= i < j < |routes| && RouteKey(routes[i]) == RouteKey(routes[j]) && routes[i] != routes[j];
      var a, b := ToFront(routes, i), ToFront(routes, j);
      ToFrontPermutes(routes, i);
      ToFrontPermutes(routes, j);
      var k := RouteKey(routes[i]);
      assert Select(a, RouteKey, k)[0] == routes[i];
      assert Select(b, RouteKey, k)[0] == routes[j];
      SortEqual(a, b, RouteKey);
      assert Plan(a) != Plan(b);
      EncodedInjective(a, b);
      assert Encoded(a) != Encoded(b);
    } else {
      forall other: seq<Route> | multiset(other) == multiset(routes)
        ensures Encoded(other) == Encoded(routes)
      {
        SameMultisetSamePlan(routes, other);
      }
    }
  }

  function ToFront<T>(xs: seq<T>, i: nat): seq<T>
    requires i < |xs|
  {
    [xs[i]] + (xs[..i] + xs[i + 1..])
  }

  lemma ToFrontPermutes<T>(xs: seq<T>, i: nat)
    requires i < |xs|
    ensures multiset(ToFront(xs, i)) == multiset(xs)
  {
    assert xs == xs[..i] + [xs[i]] + xs[i + 1..];
  }

  lemma SameSelection(a: seq<Route>, b: seq<Route>, k: Key)
    requires multiset(a) == multiset(b) && !Ambiguous(a)
    ensures Select(a, RouteKey, k) == Select(b, RouteKey, k)
  {
    var p, q := Select(a, RouteKey, k), Select(b, RouteKey, k);
    forall x
      ensures multiset(p)[x] == multiset(q)[x]
    {
      SelectMultiset(a, RouteKey, k, x);
      SelectMultiset(b, RouteKey, k, x);
    }
    assert multiset(p) == multiset(q);
    forall x, y | x in p && y in p
      ensures x == y
    {
      SelectMultiset(a, RouteKey, k, x);
      SelectMultiset(a, RouteKey, k, y);
      assert x in multiset(p) && y in multiset(p);
      assert x in a && y in a;
    }
    ConstantEqual(p, q);
  }

  lemma SameMultisetSamePlan(a: seq<Route>, b: seq<Route>)
    requires multiset(a) == multiset(b) && !Ambiguous(a)
    ensures Plan(a) == Plan(b)
  {
    forall k
      ensures Select(a, RouteKey, k) == Select(b, RouteKey, k)
    {
      SameSelection(a, b, k);
    }
    SortEqual(a, b, RouteKey);
  }

  lemma ConstantEqual<T>(p: seq<T>, q: seq<T>)
    requires multiset(p) == multiset(q)
    requires forall x, y :: x in p && y in p ==> x == y
    ensures p == q
  {
    assert |p| == |multiset(p)| == |multiset(q)| == |q|;
    forall i | 0 <= i < |p|
      ensures p[i] == q[i]
    {
      assert q[i] in multiset(q);
      assert q[i] in p && p[i] in p;
    }
  }

  // ------------------------------------------------------------------------ length

  function Delegates(routes: seq<Route>): set<Address> {
    set i | 0 <= i < |routes| :: routes[i].delegate
  }

  lemma LaterDelegates(plan: seq<Route>)
    requires Ordered(plan, RouteKey) && plan != []
    ensures var rest := plan[RunLength(plan)..];
      && Ordered(rest, RouteKey)
      && Delegates(plan) == {plan[0].delegate} + Delegates(rest)
      && forall d :: d in Delegates(rest) ==> plan[0].delegate < d
  {
    var n := RunLength(plan);
    var rest := plan[n..];
    forall i | 0 <= i < |rest|
      ensures plan[0].delegate < rest[i].delegate && rest[i].delegate in Delegates(plan)
    {
      assert rest[i] == plan[n + i];
      assert Leq(RouteKey(plan[0]), RouteKey(plan[n]));
      assert i > 0 ==> Leq(RouteKey(plan[n]), RouteKey(plan[n + i]));
    }
    forall i | 0 <= i < |plan|
      ensures plan[i].delegate in {plan[0].delegate} + Delegates(rest)
    {
      assert i >= n ==> plan[i] == rest[i - n];
    }
  }

  /** Each delegate is pushed once: the groups of a sorted plan are its delegates, in increasing order. */
  lemma {:induction false} OneGroupPerDelegate(plan: seq<Route>)
    requires Ordered(plan, RouteKey)
    ensures |GroupBy(plan)| == |Delegates(plan)|
    ensures IncreasingDelegates(GroupBy(plan))
    ensures forall d :: d in Delegates(plan) <==> Groups(GroupBy(plan), d)
    decreases |plan|
  {
    if plan != [] {
      var rest := plan[RunLength(plan)..];
      LaterDelegates(plan);
      OneGroupPerDelegate(rest);
      assert GroupBy(plan) == [FirstGroup(plan)] + GroupBy(rest) && FirstGroup(plan).delegate == plan[0].delegate;
      IncreasingCons(FirstGroup(plan), GroupBy(rest), Delegates(rest));
    }
  }

  ghost predicate IncreasingDelegates(gs: seq<Group>) {
    forall i, j :: 0 <= i < j < |gs| ==> gs[i].delegate < gs[j].delegate
  }

  /** Some group is this delegate's. */
  ghost predicate Groups(gs: seq<Group>, d: Address) {
    exists i :: 0 <= i < |gs| && gs[i].delegate == d
  }

  lemma GroupsCons(g: Group, gs: seq<Group>, d: Address)
    ensures Groups([g] + gs, d) <==> d == g.delegate || Groups(gs, d)
  {
    var all := [g] + gs;
    assert all[0] == g;
    if i :| 0 <= i < |gs| && gs[i].delegate == d {
      assert all[i + 1].delegate == d;
    }
  }

  lemma IncreasingCons(g: Group, gs: seq<Group>, delegates: set<Address>)
    requires IncreasingDelegates(gs)
    requires forall d :: d in delegates <==> Groups(gs, d)
    requires forall d :: d in delegates ==> g.delegate < d
    ensures IncreasingDelegates([g] + gs)
    ensures |{g.delegate} + delegates| == 1 + |delegates|
    ensures forall d :: d in {g.delegate} + delegates <==> Groups([g] + gs, d)
  {
    assert forall i :: 0 <= i < |gs| ==> Groups(gs, gs[i].delegate);
    hide Groups;
    forall d
      ensures d in {g.delegate} + delegates <==> Groups([g] + gs, d)
    {
      GroupsCons(g, gs, d);
    }
  }

  lemma {:induction false} BlocksLength(entries: seq<Entry>)
    ensures |Blocks(entries)| == if entries == [] then 0 else 48 * |entries| - 1
    decreases |entries|
  {
    if entries != [] {
      BlocksLength(entries[1..]);
    }
  }

  lemma {:induction false} GroupsCodeLength(gs: seq<Group>)
    requires Nonempty(gs)
    ensures |GroupsCode(gs)| == 20 * |gs| + 48 * |Flatten(gs)|
    decreases |gs|
  {
    if gs != [] {
      assert Nonempty(gs[1..]);
      GroupsCodeLength(gs[1..]);
      BlocksLength(gs[0].entries);
    }
  }

  /** The size of the script: 33 bytes, 20 for each delegate and 48 for each route. */
  lemma {:induction false} EncodedLength(routes: seq<Route>)
    ensures |Encoded(routes)| == 33 + 20 * |Delegates(routes)| + 48 * |routes|
  {
    var plan := Plan(routes);
    SortProperties(routes, RouteKey);
    OneGroupPerDelegate(plan);
    FlattenGroupBy(plan);
    GroupsCodeLength(GroupBy(plan));
    SameDelegates(routes, plan);
  }

  lemma SameDelegates(a: seq<Route>, b: seq<Route>)
    requires multiset(a) == multiset(b)
    ensures Delegates(a) == Delegates(b)
  {
    forall i | 0 <= i < |a|
      ensures a[i].delegate in Delegates(b)
    {
      assert a[i] in multiset(b);
      assert a[i] in b;
    }
    forall i | 0 <= i < |b|
      ensures b[i].delegate in Delegates(a)
    {
      assert b[i] in multiset(a);
      assert b[i] in a;
    }
  }
}
