/** What a migration script does when the EVM runs it. */
module MigrationRun {
  import opened Bytes
  import opened Evm
  import opened Migration

  /** The storage after writing `routes` in order. */
  function Written(storage: map<Word, Word>, routes: seq<Route>): map<Word, Word>
    decreases |routes|
  {
    if routes == [] then storage else
    Written(storage[routes[0].slot := routes[0].delegate], routes[1..])
  }

  /** SelectorDelegated(selector, delegate): a bytes4 topic is left-aligned in its word. */
  function Delegated(r: Route): Log
    ensures r.selector * Pow256(28) < WORD_LIMIT
  {
    SelectorWord(r.selector);
    Log([SELECTOR_DELEGATED_SIG, r.selector * Pow256(28), r.delegate], [])
  }

  function Announced(routes: seq<Route>): seq<Log> {
    seq(|routes|, i requires 0 <= i < |routes| => Delegated(routes[i]))
  }

  lemma SelectorWord(selector: Selector)
    ensures selector * Pow256(28) < WORD_LIMIT
    ensures ShiftLeft(selector, 0xe0) == selector * Pow256(28)
  {
    PowerValues();
    PowerSum(4, 28);
    Pow2Bytes(28);
    MulBound(selector, SELECTOR_LIMIT, Pow256(28));
  }

  lemma MulBound(a: int, b: int, c: int)
    requires a < b && c > 0
    ensures a * c < b * c
  {
  }

  // ------------------------------------------------------------------- one block

  function DupDelegate(last: bool): seq<Instr> {
    if last then [Dup(1)] else [Dup(1)] + [Dup(1)]
  }

  function EmitAndStore(e: Entry, last: bool): seq<Instr> {
    [Push(ToBytes(4, e.selector))] + ([Push([0xe0])] + ([Shl] + ([Dup(if last then 4 else 5)] +
    ([Push([])] + ([Push([])] + ([Log3] + ([Push(ToBytes(32, e.slot))] + [Sstore])))))))
  }

  lemma AssembleCons(i: Instr, rest: seq<Instr>)
    requires Encodable(i) && AllEncodable(rest)
    ensures AllEncodable([i] + rest)
    ensures Assemble([i] + rest) == EncodeInstr(i) + Assemble(rest)
  {
    assert ([i] + rest)[1..] == rest;
  }

  lemma AssembleOne(i: Instr)
    requires Encodable(i)
    ensures AllEncodable([i]) && Assemble([i]) == EncodeInstr(i)
  {
    assert [i][1..] == [];
  }

  lemma AssembleEmitAndStore(e: Entry, last: bool)
    ensures AllEncodable(EmitAndStore(e, last))
    ensures Assemble(EmitAndStore(e, last)) == [0x63] + ToBytes(4, e.selector) + Mid(last) + ToBytes(32, e.slot) + TAIL
  {
    hide Assemble, ToBytes, Mid;
    var slot := ToBytes(32, e.slot);
    var p7 := [Push(slot)] + [Sstore];
    var p5 := [Push([])] + ([Push([])] + ([Log3] + p7));
    AssembleOne(Sstore);
    AssembleCons(Push(slot), [Sstore]);
    AssembleCons(Log3, p7);
    AssembleCons(Push([]), [Log3] + p7);
    AssembleCons(Push([]), [Push([])] + ([Log3] + p7));
    AssembleEmit(ToBytes(4, e.selector), last, p5);
    MidBytes(last, slot, TAIL);
    Associative([0x63] + ToBytes(4, e.selector), Mid(last) + slot, TAIL);
    Associative([0x63] + ToBytes(4, e.selector), Mid(last), slot);
  }

  lemma AssembleEmit(selector: seq<Byte>, last: bool, rest: seq<Instr>)
    requires |selector| == 4 && AllEncodable(rest)
    ensures var prog := [Push(selector)] + ([Push([0xe0])] + ([Shl] + ([Dup(if last then 4 else 5)] + rest)));
      && AllEncodable(prog)
      && Assemble(prog) == [0x63] + selector
                           + ([0x60] + [0xe0] + ([0x1b] + ([if last then 0x83 else 0x84] + Assemble(rest))))
  {
    hide Assemble;
    var p3 := [Dup(if last then 4 else 5)] + rest;
    AssembleCons(Dup(if last then 4 else 5), rest);
    AssembleCons(Shl, p3);
    AssembleCons(Push([0xe0]), [Shl] + p3);
    AssembleCons(Push(selector), [Push([0xe0])] + ([Shl] + p3));
  }

  lemma MidBytes(last: bool, slot: seq<Byte>, tail: seq<Byte>)
    ensures
      [0x60] + [0xe0] + ([0x1b] + ([if last then 0x83 else 0x84]
      + ([0x5f] + [] + ([0x5f] + [] + ([0xa3] + ([0x7f] + slot + tail))))))
         == Mid(last) + slot + tail
  {
  }

  lemma AssembleBlock(e: Entry, last: bool)
    ensures AllEncodable(DupDelegate(last) + EmitAndStore(e, last))
    ensures Assemble(DupDelegate(last) + EmitAndStore(e, last)) == Block(e, last)
  {
    var rest := EmitAndStore(e, last);
    AssembleEmitAndStore(e, last);
    hide EmitAndStore, Assemble, ToBytes;
    AssembleCons(Dup(1), rest);
    AssembleCons(Dup(1), [Dup(1)] + rest);
    assert [Dup(1)] + [Dup(1)] + rest == [Dup(1)] + ([Dup(1)] + rest);
  }

  /** With copies of the delegate on top, emit the event and store the route, using up two copies. */
  lemma ExecEmitAndStore(e: Entry, last: bool, d: Address, below: seq<Word>, m: Machine, limit: nat)
    requires limit >= 8
    requires below == if last then [SELECTOR_DELEGATED_SIG] else [SELECTOR_DELEGATED_SIG, d]
    requires m.stack == below + [d, d]
    ensures Exec(EmitAndStore(e, last), m, limit)
         == Running(Machine(m.pc + |Block(e, last)| - (if last then 1 else 2), below, m.memory,
                            m.storage[e.slot := d], m.logs + [Delegated(Route(e.selector, e.slot, d))]))
  {
    hide Exec, Apply, ToBytes, FromBytes, Pow256, ShiftLeft, Block;
    PowerValues();
    SelectorWord(e.selector);
    var p8 := [Sstore] + [];
    var p7 := [Push(ToBytes(32, e.slot))] + p8;
    var p6 := [Log3] + p7;
    var p5 := [Push([])] + p6;
    var p4 := [Push([])] + p5;
    var p3 := [Dup(if last then 4 else 5)] + p4;
    var p2 := [Shl] + p3;
    var p1 := [Push([0xe0])] + p2;
    var topic := ShiftLeft(e.selector, 0xe0);
    assert [Sstore] + [] == [Sstore];

    ExecPushNumber(4, e.selector, p1, m, limit);
    var m1 := Next(m, 5, m.stack + [e.selector]);
    ExecPush1(0xe0, p2, m1, limit);
    var m2 := Next(m1, 2, m.stack + [e.selector, 0xe0]);
    assert m1.stack + [0xe0] == m2.stack;
    ExecShl(m.stack, e.selector, 0xe0, p3, m2, limit);
    var m3 := Next(m2, 1, m.stack + [topic]);
    ExecDup(if last then 4 else 5, p4, m3, limit);
    var m4 := Next(m3, 1, m.stack + [topic, SELECTOR_DELEGATED_SIG]);
    assert m3.stack + [SELECTOR_DELEGATED_SIG] == m4.stack;
    ExecPush0(p5, m4, limit);
    var m5 := Next(m4, 1, m4.stack + [0]);
    ExecPush0(p6, m5, limit);
    var m6 := Next(m5, 1, (below + [d]) + [d, topic, SELECTOR_DELEGATED_SIG, 0, 0]);
    assert m5.stack + [0] == m6.stack;
    ExecLog3(below + [d], d, topic, SELECTOR_DELEGATED_SIG, p7, m6, limit);
    var m7 := Next(m6, 1, below + [d]).(logs := m.logs + [Delegated(Route(e.selector, e.slot, d))]);
    ExecPushNumber(32, e.slot, p8, m7, limit);
    var m8 := Next(m7, 33, below + [d, e.slot]);
    assert m7.stack + [e.slot] == m8.stack;
    ExecSstore(below, d, e.slot, [], m8, limit);
    ExecNil(Next(m8, 1, below).(storage := m.storage[e.slot := d]), limit);
  }

  lemma ExecNil(m: Machine, limit: nat)
    ensures Exec([], m, limit) == Running(m)
  {
  }

  /** The state between blocks: the signature at the bottom, the delegate above it until the last block. */
  function After(m: Machine, size: nat, stack: seq<Word>, routes: seq<Route>): Machine {
    Machine(m.pc + size, stack, m.memory, Written(m.storage, routes), m.logs + Announced(routes))
  }

  lemma {:induction false} RunBlock(code: seq<Byte>, e: Entry, last: bool, d: Address, m: Machine, limit: nat)
    requires limit >= 8 && m.stack == [SELECTOR_DELEGATED_SIG, d] && Holds(code, m.pc, Block(e, last))
    ensures Run(code, m, limit)
         == Run(code, After(m, |Block(e, last)|, if last then [SELECTOR_DELEGATED_SIG] else m.stack,
                            [Route(e.selector, e.slot, d)]), limit)
  {
    hide Exec, Apply, Run, EmitAndStore, Block, Delegated;
    var dups, emit := DupDelegate(last), EmitAndStore(e, last);
    AssembleBlock(e, last);
    RunAssembled(code, dups + emit, m, limit);
    ExecConcat(dups, emit, m, limit);
    var below := if last then [SELECTOR_DELEGATED_SIG] else [SELECTOR_DELEGATED_SIG, d];
    var m1 := Next(m, 1, m.stack + [d]);
    var m2 := if last then m1 else Next(m1, 1, m1.stack + [d]);
    if last {
      assert dups == [Dup(1)] + [];
      ExecDup(1, [], m, limit);
      ExecNil(m1, limit);
    } else {
      assert dups == [Dup(1)] + [Dup(1)];
      assert [Dup(1)] == [Dup(1)] + [];
      ExecDup(1, [Dup(1)], m, limit);
      ExecDup(1, [], m1, limit);
      ExecNil(m2, limit);
    }
    assert m2.stack == below + [d, d];
    ExecEmitAndStore(e, last, d, below, m2, limit);
    var r := Route(e.selector, e.slot, d);
    assert Announced([r]) == [Delegated(r)];
    assert Written(m.storage, [r]) == m.storage[e.slot := d];
  }

  lemma AfterTwice(m: Machine, size1: nat, stack1: seq<Word>, a: seq<Route>, size2: nat, stack2: seq<Word>,
                   b: seq<Route>)
    ensures After(After(m, size1, stack1, a), size2, stack2, b) == After(m, size1 + size2, stack2, a + b)
  {
    WrittenConcat(m.storage, a, b);
    assert Announced(a + b) == Announced(a) + Announced(b);
    assert m.logs + Announced(a) + Announced(b) == m.logs + (Announced(a) + Announced(b));
  }

  lemma {:induction false} WrittenConcat(storage: map<Word, Word>, a: seq<Route>, b: seq<Route>)
    ensures Written(storage, a + b) == Written(Written(storage, a), b)
    decreases |a|
  {
    if a == [] {
      assert a + b == b;
    } else {
      WrittenConcat(storage[a[0].slot := a[0].delegate], a[1..], b);
      assert (a + b)[1..] == a[1..] + b;
    }
  }

  // ---------------------------------------------------------------- groups, scripts

  lemma {:induction false} RunBlocks(code: seq<Byte>, g: Group, m: Machine, limit: nat)
    requires limit >= 8 && g.entries != []
    requires m.stack == [SELECTOR_DELEGATED_SIG, g.delegate] && Holds(code, m.pc, Blocks(g.entries))
    ensures Run(code, m, limit)
         == Run(code, After(m, |Blocks(g.entries)|, [SELECTOR_DELEGATED_SIG], GroupRoutes(g)), limit)
    decreases |g.entries|
  {
    hide Run, Block, After, GroupRoutes;
    var e, rest := g.entries[0], Group(g.delegate, g.entries[1..]);
    var last := |g.entries| == 1;
    var r := Route(e.selector, e.slot, g.delegate);
    HoldsSplit(code, m.pc, Block(e, last), Blocks(rest.entries));
    RunBlock(code, e, last, g.delegate, m, limit);
    GroupRoutesCons(g);
    if last {
      assert rest.entries == [];
      assert Blocks(g.entries) == Block(e, last) + Blocks(rest.entries);
      assert [r] + [] == [r];
    } else {
      var m1 := After(m, |Block(e, last)|, m.stack, [r]);
      AfterFields(m, |Block(e, last)|, m.stack, [r]);
      RunBlocks(code, rest, m1, limit);
      AfterTwice(m, |Block(e, last)|, m.stack, [r], |Blocks(rest.entries)|, [SELECTOR_DELEGATED_SIG],
          GroupRoutes(rest));
    }
  }

  lemma GroupRoutesCons(g: Group)
    requires g.entries != []
    ensures GroupRoutes(g)
         == [Route(g.entries[0].selector, g.entries[0].slot, g.delegate)]
            + GroupRoutes(Group(g.delegate, g.entries[1..]))
    ensures |g.entries| == 1 ==> GroupRoutes(Group(g.delegate, g.entries[1..])) == []
  {
  }

  lemma AfterFields(m: Machine, size: nat, stack: seq<Word>, routes: seq<Route>)
    ensures After(m, size, stack, routes).pc == m.pc + size && After(m, size, stack, routes).stack == stack
  {
  }

  lemma {:induction false} RunGroup(code: seq<Byte>, g: Group, m: Machine, limit: nat)
    requires limit >= 8 && g.entries != []
    requires m.stack == [SELECTOR_DELEGATED_SIG] && Holds(code, m.pc, GroupCode(g))
    ensures Run(code, m, limit)
         == Run(code, After(m, |GroupCode(g)|, [SELECTOR_DELEGATED_SIG], GroupRoutes(g)), limit)
  {
    hide Run, Exec, Apply, Blocks, After, ToBytes, FromBytes, Pow256;
    var head := [PUSH20] + ToBytes(20, g.delegate);
    HoldsSplit(code, m.pc, head, Blocks(g.entries));
    PowerValues();
    var push := Push(ToBytes(20, g.delegate));
    AssembleOne(push);
    RunAssembled(code, [push], m, limit);
    assert [push] == [push] + [];
    ExecPushNumber(20, g.delegate, [], m, limit);
    var m1 := Next(m, 21, m.stack + [g.delegate]);
    ExecNil(m1, limit);
    RunBlocks(code, g, m1, limit);
    NextAfter(m, 21, m1.stack, |Blocks(g.entries)|, [SELECTOR_DELEGATED_SIG], GroupRoutes(g));
  }

  lemma NextAfter(m: Machine, size1: nat, stack1: seq<Word>, size2: nat, stack2: seq<Word>, routes: seq<Route>)
    ensures After(Next(m, size1, stack1), size2, stack2, routes) == After(m, size1 + size2, stack2, routes)
  {
  }

  lemma {:induction false} RunGroups(code: seq<Byte>, gs: seq<Group>, m: Machine, limit: nat)
    requires limit >= 8 && Nonempty(gs)
    requires m.stack == [SELECTOR_DELEGATED_SIG] && m.pc <= |code| && code[m.pc..] == GroupsCode(gs)
    ensures Run(code, m, limit) == Stopped(After(m, |GroupsCode(gs)|, [SELECTOR_DELEGATED_SIG], Flatten(gs)))
    decreases |gs|
  {
    if gs == [] {
      assert m.logs + Announced([]) == m.logs;
    } else {
      hide Run, After, GroupRoutes, GroupCode;
      var g, rest := gs[0], gs[1..];
      assert Holds(code, m.pc, GroupCode(g) + GroupsCode(rest));
      HoldsSplit(code, m.pc, GroupCode(g), GroupsCode(rest));
      RunGroup(code, g, m, limit);
      var m1 := After(m, |GroupCode(g)|, [SELECTOR_DELEGATED_SIG], GroupRoutes(g));
      AfterFields(m, |GroupCode(g)|, [SELECTOR_DELEGATED_SIG], GroupRoutes(g));
      assert code[m1.pc..] == GroupsCode(rest);
      RunGroups(code, rest, m1, limit);
      AfterTwice(m, |GroupCode(g)|, [SELECTOR_DELEGATED_SIG], GroupRoutes(g),
                 |GroupsCode(rest)|, [SELECTOR_DELEGATED_SIG], Flatten(rest));
    }
  }

  /**
   A script of any nonempty groups, in any order, runs to its end: it writes each route in
   turn and announces it, never needs more than 8 stack words (so it runs under every limit
   from 8 up), and leaves only the event signature on the stack.
   */
  lemma {:induction false} RunScript(gs: seq<Group>, storage: map<Word, Word>, limit: nat)
    requires limit >= 8 && Nonempty(gs)
    ensures Run(Script(gs), Fresh(storage), limit)
         == Stopped(Machine(|Script(gs)|, [SELECTOR_DELEGATED_SIG], [],
                            Written(storage, Flatten(gs)), Announced(Flatten(gs))))
  {
    hide Run, Exec, Apply, ToBytes, FromBytes, Pow256, GroupsCode;
    var code, m := Script(gs), Fresh(storage);
    var push := Push(ToBytes(32, SELECTOR_DELEGATED_SIG));
    PowerValues();
    AssembleOne(push);
    RunAssembled(code, [push], m, limit);
    assert [push] == [push] + [];
    ExecPushNumber(32, SELECTOR_DELEGATED_SIG, [], m, limit);
    var m1 := Next(m, 33, [SELECTOR_DELEGATED_SIG]);
    assert m.stack + [SELECTOR_DELEGATED_SIG] == m1.stack;
    ExecNil(m1, limit);
    assert code[33..] == GroupsCode(gs);
    RunGroups(code, gs, m1, limit);
    assert [] + Announced(Flatten(gs)) == Announced(Flatten(gs));
  }
}
