/**
 The generated `selectors()` delegate (src/josuke/erc8167.py): bytecode that returns the ABI
 encoding of a fixed `bytes4[]`, and the canonical list it is built from.
 */
module SelectorsMethod {
  import opened Bytes
  import opened Evm
  import opened Migration
  import opened MigrationRun
  import opened Sorting
  import opened Upgrade

  // ----------------------------------------------------------------- the canonical list

  /** Every facet selector, and `selectors()` itself. */
  function Enumerated(lists: seq<seq<Selector>>): set<Selector> {
    {SELECTORS_SELECTOR} + set i, s | 0 <= i < |lists| && s in lists[i] :: s
  }

  /** `generated_selectors`: the list, without duplicates, in ascending order. */
  method GeneratedSelectors(lists: seq<seq<Selector>>) returns (selectors: seq<Selector>)
    ensures selectors == Ascending(Enumerated(lists))
  {
    var bySelector: map<Selector, Selector> := map[SELECTORS_SELECTOR := SELECTORS_SELECTOR];
    for i := 0 to |lists|
      invariant bySelector.Keys == Enumerated(lists[..i])
    {
      var list := lists[i];
      EnumeratedSnoc(lists[..i], list[..0]);
      for k := 0 to |list|
        invariant bySelector.Keys == Enumerated(lists[..i] + [list[..k]])
      {
        EnumeratedMore(lists[..i], list, k);
        if list[k] !in bySelector {
          bySelector := bySelector[list[k] := list[k]];
        }
      }
      assert list[..|list|] == list;
      assert lists[..i + 1] == lists[..i] + [list];
    }
    assert lists[..|lists|] == lists;
    return Ascending(bySelector.Keys);
  }

  lemma EnumeratedMore(lists: seq<seq<Selector>>, list: seq<Selector>, k: nat)
    requires k < |list|
    ensures Enumerated(lists + [list[..k + 1]]) == Enumerated(lists + [list[..k]]) + {list[k]}
  {
    EnumeratedSnoc(lists, list[..k]);
    EnumeratedSnoc(lists, list[..k + 1]);
    hide Enumerated;
    assert forall s :: s in list[..k + 1] <==> s in list[..k] || s == list[k];
  }

  lemma EnumeratedSnoc(lists: seq<seq<Selector>>, list: seq<Selector>)
    ensures Enumerated(lists + [list]) == Enumerated(lists) + set s | s in list
  {
    forall s
      ensures s in Enumerated(lists + [list]) <==> s in Enumerated(lists) || s in list
    {
      if s in Enumerated(lists) && s != SELECTORS_SELECTOR {
        var i :| 0 <= i < |lists| && s in lists[i];
        assert s in (lists + [list])[i];
      }
      if s in list {
        assert s in (lists + [list])[|lists|];
      }
    }
  }

  // ----------------------------------------------------------------------- the bytecode

  /** The number of bytes of `n`, without leading zeros. */
  function ByteLength(n: nat): (k: nat)
    ensures n < Pow256(k)
    ensures k > 0 ==> Pow256(k - 1) <= n
  {
    if n == 0 then 0 else 1 + ByteLength(n / 256)
  }

  /** `opcodes.push`: the shortest push of `n`. */
  function PushNumber(n: nat): seq<Byte>
    requires ByteLength(n) <= 32
  {
    [0x5f + ByteLength(n)] + ToBytes(ByteLength(n), n)
  }

  /** PUSH4 selector, DUP2, MSTORE: store the selector at the running pointer. */
  function StoreSelector(s: Selector): seq<Byte> {
    [0x63] + ToBytes(4, s) + [0x81, 0x52]
  }

  /** The stores, with DUP2 ADD between them to advance the pointer by a word. */
  function Stores(selectors: seq<Selector>): seq<Byte> {
    if selectors == [] then []
    else StoreSelector(selectors[0]) + (if |selectors| == 1 then [] else [0x81, 0x01] + Stores(selectors[1..]))
  }

  /** A list whose encoding has word-sized offsets. Every list without duplicates is one. */
  predicate Addressable(selectors: seq<Selector>) {
    64 + 32 * |selectors| < WORD_LIMIT
  }

  lemma LengthFits(n: nat)
    requires n < WORD_LIMIT
    ensures ByteLength(n) <= 32
  {
    PowerValues();
    if ByteLength(n) > 32 {
      PowMonotonic(32, ByteLength(n) - 1);
    }
  }

  lemma {:induction false} PowMonotonic(a: nat, b: nat)
    requires a <= b
    ensures Pow256(a) <= Pow256(b)
    decreases b
  {
    if a < b {
      PowMonotonic(a, b - 1);
    }
  }

  /** No shorter bytes hold the number. */
  lemma LengthLeast(n: nat, data: seq<Byte>)
    requires FromBytes(data) == n
    ensures ByteLength(n) <= |data|
  {
    PowBelow(|data|, ByteLength(n));
  }

  lemma PowBelow(a: nat, b: nat)
    ensures a < b ==> Pow256(a) <= Pow256(b - 1)
  {
    if a < b {
      PowMonotonic(a, b - 1);
    }
  }

  /** Running `push` of a number, anywhere in a program, pushes it, and no shorter push does; zero is one byte. */
  lemma {:induction false} PushShortest(code: seq<Byte>, m: Machine, n: Word, limit: nat)
    requires ByteLength(n) <= 32 && Holds(code, m.pc, PushNumber(n)) && |m.stack| < limit
    ensures Run(code, m, limit) == Run(code, Next(m, |PushNumber(n)|, m.stack + [n]), limit)
    ensures forall data: seq<Byte> :: |data| <= 32 && FromBytes(data) == n ==>
              |PushNumber(n)| <= |EncodeInstr(Push(data))|
    ensures PushNumber(0) == [0x5f]
  {
    var k := ByteLength(n);
    var push := Push(ToBytes(k, n));
    assert EncodeInstr(push) == PushNumber(n);
    AssembleOne(push);
    forall data: seq<Byte> | |data| <= 32 && FromBytes(data) == n
      ensures k <= |data|
    {
      LengthLeast(n, data);
    }
    hide Exec, Run, ByteLength, Pow256, FromBytes, ToBytes;
    ExecPushNumber(k, n, [], m, limit);
    assert [push] + [] == [push];
    ExecNothing(Next(m, 1 + k, m.stack + [n]), limit);
    RunAssembled(code, [push], m, limit);
  }

  lemma ExecNothing(m: Machine, limit: nat)
    ensures Exec([], m, limit) == Running(m)
  {
  }

  /** `selectors_method`. */
  function Runtime(selectors: seq<Selector>): seq<Byte>
    requires Addressable(selectors)
  {
    LengthFits(|selectors|);
    [0x60, 0x20, 0x60, 0x24] + Stores(selectors) + PushNumber(|selectors|)
    + [0x82, 0x52] + [0x90, 0x5f, 0x52] + [0x59, 0x5f, 0xf3]
  }

  /** The runtime of a facet set, as deployed and as rebuilt for verification. */
  function FacetsRuntime(lists: seq<seq<Selector>>): seq<Byte> {
    AscendingAddressable(Enumerated(lists));
    Runtime(Ascending(Enumerated(lists)))
  }

  lemma AscendingAddressable(s: set<Selector>)
    ensures Addressable(Ascending(s))
  {
    AscendingProperties(s);
    SubsetSize(s, SELECTOR_LIMIT);
  }

  /** The list, and so the bytecode, does not depend on the order of the facets. */
  lemma {:induction false} OrderIndependent(a: seq<seq<Selector>>, b: seq<seq<Selector>>)
    requires multiset(a) == multiset(b)
    ensures Enumerated(a) == Enumerated(b)
    ensures FacetsRuntime(a) == FacetsRuntime(b)
  {
    forall s
      ensures s in Enumerated(a) <==> s in Enumerated(b)
    {
      if i :| 0 <= i < |a| && s in a[i] {
        assert a[i] in multiset(b);
        var k :| 0 <= k < |b| && b[k] == a[i];
        assert s in b[k];
      }
      if i :| 0 <= i < |b| && s in b[i] {
        assert b[i] in multiset(a);
        var k :| 0 <= k < |a| && a[k] == b[i];
        assert s in a[k];
      }
    }
  }

  /** The size of the code for a nonempty list: 9 bytes a selector, and the length's own bytes. */
  lemma {:induction false} RuntimeLength(selectors: seq<Selector>)
    requires Addressable(selectors) && selectors != []
    ensures |Runtime(selectors)| == 9 * |selectors| + 11 + ByteLength(|selectors|)
  {
    StoresLength(selectors);
    LengthFits(|selectors|);
  }

  lemma {:induction false} StoresLength(selectors: seq<Selector>)
    ensures |Stores(selectors)| == if selectors == [] then 0 else 9 * |selectors| - 2
    decreases |selectors|
  {
    if selectors != [] {
      StoresLength(selectors[1..]);
    }
  }

  // ------------------------------------------------------------------- the ABI encoding

  /** A static bytesM element: its bytes, then zeros up to a word. */
  function Element(s: Selector): (bs: seq<Byte>)
    ensures |bs| == 32
  {
    ToBytes(4, s) + Zeros(28)
  }

  function Elements(selectors: seq<Selector>): (bs: seq<Byte>)
    ensures |bs| == 32 * |selectors|
  {
    if selectors == [] then [] else Elements(selectors[..|selectors| - 1]) + Element(selectors[|selectors| - 1])
  }

  /** enc((bytes4[])): the offset of the array, its length, its elements. */
  function AbiEncoded(selectors: seq<Selector>): seq<Byte> {
    ToBytes(32, 32) + ToBytes(32, |selectors|) + Elements(selectors)
  }

  // --------------------------------------------------------------------------- memory

  /** Where the `i`th selector is stored: its last four bytes land at word `2 + i`. */
  function Pointer(i: nat): nat {
    36 + 32 * i
  }

  /** Memory once `selectors` are stored, before the two header words are. */
  function Stored(selectors: seq<Selector>): seq<Byte> {
    if selectors == [] then [] else Zeros(64) + Elements(selectors)
  }

  lemma StoreOverZeros(memory: seq<Byte>, front: seq<Byte>, bytes: seq<Byte>)
    requires |bytes| == 4 && memory == front + Zeros(28) && |memory| % 32 == 0
    ensures Store(memory, |front|, Zeros(28) + bytes) == memory + (bytes + Zeros(28))
  {
    var expanded := Expand(memory, |front|, 32);
    assert expanded == memory + Zeros(32);
    assert expanded[..|front|] == front;
    assert expanded[|front| + 32..] == Zeros(28);
    assert front + (Zeros(28) + bytes) + Zeros(28) == front + Zeros(28) + (bytes + Zeros(28));
  }

  lemma StoreFirst(bytes: seq<Byte>)
    requires |bytes| == 4
    ensures Store([], 36, Zeros(28) + bytes) == Zeros(64) + (bytes + Zeros(28))
  {
    assert Expand([], 36, 32) == Zeros(96) == Expand(Zeros(64), 36, 32);
    assert Zeros(64) == Zeros(36) + Zeros(28);
    StoreOverZeros(Zeros(64), Zeros(36), bytes);
  }

  lemma EndsInZeros(selectors: seq<Selector>) returns (front: seq<Byte>)
    requires selectors != []
    ensures Stored(selectors) == front + Zeros(28) && |front| == Pointer(|selectors|) && |Stored(selectors)| % 32 == 0
  {
    var n := |selectors| - 1;
    front := Zeros(64) + Elements(selectors[..n]) + ToBytes(4, selectors[n]);
    hide ToBytes;
    assert Elements(selectors) == Elements(selectors[..n]) + (ToBytes(4, selectors[n]) + Zeros(28));
  }

  lemma StoredSnoc(selectors: seq<Selector>, s: Selector)
    ensures Stored(selectors + [s]) == (if selectors == [] then Zeros(64) else Stored(selectors)) + Element(s)
  {
    ElementsSnoc(selectors, s);
    var elements := Elements(selectors);
    assert selectors == [] ==> elements == [];
    hide Elements, Element;
    Associative(Zeros(64), elements, Element(s));
  }

  /** Each store overwrites the zeros after the previous selector with zeros, and adds one element. */
  lemma {:induction false} StoreNext(selectors: seq<Selector>, s: Selector)
    ensures Store(Stored(selectors), Pointer(|selectors|), ToBytes(32, s)) == Stored(selectors + [s])
  {
    PowerValues();
    ToBytesWiden(28, 4, s);
    StoredSnoc(selectors, s);
    hide ToBytes, Elements, Store;
    if selectors == [] {
      StoreFirst(ToBytes(4, s));
    } else {
      var front := EndsInZeros(selectors);
      StoreOverZeros(Stored(selectors), front, ToBytes(4, s));
    }
  }

  lemma ElementsSnoc(selectors: seq<Selector>, s: Selector)
    ensures Elements(selectors + [s]) == Elements(selectors) + Element(s)
  {
    assert (selectors + [s])[..|selectors|] == selectors;
  }

  /** The length, then the offset, overwrite the two header words. */
  lemma {:induction false} StoreHeader(selectors: seq<Selector>, length: seq<Byte>, offset: seq<Byte>)
    requires |length| == 32 && |offset| == 32
    ensures Store(Store(Stored(selectors), 32, length), 0, offset) == offset + length + Elements(selectors)
  {
    hide Elements;
    var memory := Zeros(64) + Elements(selectors);
    assert Expand(Stored(selectors), 32, 32) == memory by {
      if selectors == [] {
        assert Elements(selectors) == [];
      }
    }
    assert memory[..32] == Zeros(32) && memory[64..] == Elements(selectors);
    var second := Zeros(32) + length + Elements(selectors);
    assert Store(Stored(selectors), 32, length) == second;
    assert second[..0] == [] && second[32..] == length + Elements(selectors);
    assert Store(second, 0, offset) == [] + offset + (length + Elements(selectors));
  }

  // ----------------------------------------------------------------------- execution

  lemma RunInstrs(code: seq<Byte>, prog: seq<Instr>, bytes: seq<Byte>, m: Machine, next: Machine, limit: nat)
    requires AllEncodable(prog) && Assemble(prog) == bytes && Holds(code, m.pc, bytes)
    requires Exec(prog, m, limit) == Running(next)
    ensures Run(code, m, limit) == Run(code, next, limit) && next.pc == m.pc + |bytes|
  {
    hide Exec, Run, Assemble;
    RunAssembled(code, prog, m, limit);
  }

  lemma RunStore(code: seq<Byte>, done: seq<Selector>, s: Selector, m: Machine, limit: nat)
    requires limit >= 4 && Holds(code, m.pc, StoreSelector(s)) && Pointer(|done|) < WORD_LIMIT
    requires m.stack == [0x20, Pointer(|done|)] && m.memory == Stored(done)
    ensures Run(code, m, limit) == Run(code, m.(pc := m.pc + 7, memory := Stored(done + [s])), limit)
  {
    hide Exec, Apply, Run, Assemble, ToBytes, FromBytes, Pow256, Stored, Store;
    PowerValues();
    var push := Push(ToBytes(4, s));
    var p2 := [Mstore] + [];
    var p1 := [Dup(2)] + p2;
    var prog := [push] + p1;
    AssembleCons(push, p1);
    AssembleCons(Dup(2), p2);
    assert p2 == [Mstore];
    AssembleOne(Mstore);
    assert Assemble(prog) == StoreSelector(s);
    var m1 := Next(m, 5, m.stack + [s]);
    ExecPushNumber(4, s, p1, m, limit);
    var m2 := Next(m1, 1, m.stack + [s, Pointer(|done|)]);
    ExecDup(2, p2, m1, limit);
    assert m1.stack + [Pointer(|done|)] == m2.stack;
    ExecMstore(m.stack, s, Pointer(|done|), [], m2, limit);
    StoreNext(done, s);
    var m3 := Next(m2, 1, m.stack).(memory := Stored(done + [s]));
    ExecNil(m3, limit);
    RunInstrs(code, prog, StoreSelector(s), m, m3, limit);
  }

  lemma RunAdvance(code: seq<Byte>, i: nat, m: Machine, limit: nat)
    requires limit >= 4 && Holds(code, m.pc, [0x81, 0x01]) && Pointer(i + 1) < WORD_LIMIT
    requires m.stack == [0x20, Pointer(i)]
    ensures Run(code, m, limit) == Run(code, m.(pc := m.pc + 2, stack := [0x20, Pointer(i + 1)]), limit)
  {
    hide Exec, Apply, Run, Assemble;
    var p1 := [Add] + [];
    var prog := [Dup(2)] + p1;
    assert p1 == [Add];
    AssembleCons(Dup(2), p1);
    AssembleOne(Add);
    var m1 := Next(m, 1, [0x20, Pointer(i), 0x20]);
    ExecDup(2, p1, m, limit);
    assert m.stack + [0x20] == m1.stack;
    ExecAdd([0x20], Pointer(i), 0x20, [], m1, limit);
    var m2 := Next(m1, 1, [0x20, Pointer(i + 1)]);
    assert [0x20] + [Pointer(i) + 0x20] == m2.stack;
    assert m1.stack == [0x20] + [Pointer(i), 0x20];
    ExecNil(m2, limit);
    RunInstrs(code, prog, [0x81, 0x01], m, m2, limit);
  }

  /** The state among the stores: `size` bytes further on, the pointer and the memory as given. */
  function Among(m: Machine, size: nat, pointer: Word, memory: seq<Byte>): Machine {
    m.(pc := m.pc + size, stack := [0x20, pointer], memory := memory)
  }

  lemma RunStoreAndAdvance(code: seq<Byte>, done: seq<Selector>, s: Selector, m: Machine, limit: nat)
    requires limit >= 4 && Pointer(|done| + 1) < WORD_LIMIT
    requires Holds(code, m.pc, StoreSelector(s)) && Holds(code, m.pc + 7, [0x81, 0x01])
    requires m.stack == [0x20, Pointer(|done|)] && m.memory == Stored(done)
    ensures Run(code, m, limit) == Run(code, Among(m, 9, Pointer(|done| + 1), Stored(done + [s])), limit)
  {
    hide Run, StoreSelector, Stored;
    RunStore(code, done, s, m, limit);
    RunAdvance(code, |done|, m.(pc := m.pc + 7, memory := Stored(done + [s])), limit);
  }

  lemma {:induction false} RunStores(
    code: seq<Byte>, done: seq<Selector>, selectors: seq<Selector>, m: Machine, limit: nat)
    requires limit >= 4 && selectors != [] && Addressable(done + selectors) && Holds(code, m.pc, Stores(selectors))
    requires m.stack == [0x20, Pointer(|done|)] && m.memory == Stored(done)
    ensures Run(code, m, limit)
         == Run(code, Among(m, |Stores(selectors)|, Pointer(|done + selectors| - 1), Stored(done + selectors)), limit)
    decreases |selectors|
  {
    hide Run, StoreSelector, Stored, Stores;
    var s, rest := selectors[0], selectors[1..];
    StoresParts(code, m.pc, selectors);
    if rest == [] {
      RunStore(code, done, s, m, limit);
      assert done + [s] == done + selectors;
    } else {
      RunStoreAndAdvance(code, done, s, m, limit);
      assert done + [s] + rest == done + selectors;
      RunStores(code, done + [s], rest, Among(m, 9, Pointer(|done| + 1), Stored(done + [s])), limit);
    }
  }

  lemma StoresParts(code: seq<Byte>, at: nat, selectors: seq<Selector>)
    requires selectors != [] && Holds(code, at, Stores(selectors))
    ensures Holds(code, at, StoreSelector(selectors[0]))
    ensures |selectors| == 1 ==> |Stores(selectors)| == 7
    ensures |selectors| > 1 ==>
              && Holds(code, at + 7, [0x81, 0x01]) && Holds(code, at + 9, Stores(selectors[1..]))
              && |Stores(selectors)| == 9 + |Stores(selectors[1..])|
  {
    StoreSelectorLength(selectors[0]);
    hide StoreSelector;
    if |selectors| == 1 {
      assert StoreSelector(selectors[0]) + [] == StoreSelector(selectors[0]);
    } else {
      HoldsSplit(code, at, StoreSelector(selectors[0]), [0x81, 0x01] + Stores(selectors[1..]));
      HoldsSplit(code, at + 7, [0x81, 0x01], Stores(selectors[1..]));
    }
  }

  lemma StoreSelectorLength(s: Selector)
    ensures |StoreSelector(s)| == 7
  {
  }

  lemma RunPrologue(code: seq<Byte>, m: Machine, limit: nat)
    requires limit >= 4 && m.stack == [] && Holds(code, m.pc, [0x60, 0x20, 0x60, 0x24])
    ensures Run(code, m, limit) == Run(code, m.(pc := m.pc + 4, stack := [0x20, Pointer(0)]), limit)
  {
    hide Exec, Apply, Run, Assemble, Pow256, FromBytes;
    var p1 := [Push([0x24])] + [];
    var prog := [Push([0x20])] + p1;
    assert p1 == [Push([0x24])];
    AssembleCons(Push([0x20]), p1);
    AssembleOne(Push([0x24]));
    assert [0x60] + [0x20] + ([0x60] + [0x24]) == [0x60, 0x20, 0x60, 0x24];
    ExecPush1(0x20, p1, m, limit);
    var m1 := Next(m, 2, m.stack + [0x20]);
    ExecPush1(0x24, [], m1, limit);
    var m2 := Next(m1, 2, [0x20, Pointer(0)]);
    assert m1.stack + [0x24] == m2.stack;
    ExecNil(m2, limit);
    RunInstrs(code, prog, [0x60, 0x20, 0x60, 0x24], m, m2, limit);
  }

  /** Store the length and the offset, and return all of memory. */
  function Epilogue(n: nat): seq<Byte>
    requires ByteLength(n) <= 32
  {
    PushNumber(n) + [0x82, 0x52] + [0x90, 0x5f, 0x52] + [0x59, 0x5f, 0xf3]
  }

  function ReturnAll(): seq<Instr> {
    [Swap(1)] + ([Push([])] + ([Mstore] + ([Msize] + ([Push([])] + [Return]))))
  }

  function StoreAndReturn(n: nat): seq<Instr> {
    [Push(ToBytes(ByteLength(n), n))] + ([Dup(3)] + ([Mstore] + ReturnAll()))
  }

  lemma AssembleEpilogue(n: nat)
    requires ByteLength(n) <= 32
    ensures AllEncodable(StoreAndReturn(n)) && Assemble(StoreAndReturn(n)) == Epilogue(n)
  {
    hide Assemble, ToBytes;
    var q5 := [Return];
    var q4 := [Push([])] + q5;
    var q3 := [Msize] + q4;
    var q2 := [Mstore] + q3;
    var q1 := [Push([])] + q2;
    var q0 := [Swap(1)] + q1;
    var p2 := [Mstore] + q0;
    var p1 := [Dup(3)] + p2;
    AssembleOne(Return);
    AssembleCons(Push([]), q5);
    AssembleCons(Msize, q4);
    AssembleCons(Mstore, q3);
    AssembleCons(Push([]), q2);
    AssembleCons(Swap(1), q1);
    AssembleCons(Mstore, q0);
    AssembleCons(Dup(3), p2);
    AssembleCons(Push(ToBytes(ByteLength(n), n)), p1);
    TailBytes(PushNumber(n));
  }

  lemma TailBytes(push: seq<Byte>)
    ensures push + ([0x82] + ([0x52] + ([0x90] + ([0x5f] + [] + ([0x52] + ([0x59] + ([0x5f] + [] + [0xf3])))))))
         == push + [0x82, 0x52] + [0x90, 0x5f, 0x52] + [0x59, 0x5f, 0xf3]
  {
  }

  lemma AbiEncodedLength(selectors: seq<Selector>)
    ensures |AbiEncoded(selectors)| == 64 + 32 * |selectors|
  {
  }

  /** SWAP1 PUSH0 MSTORE: write the word below the pointer at the start of memory. */
  lemma ExecStoreOffset(offset: Word, pointer: Word, rest: seq<Instr>, m: Machine, limit: nat)
    requires limit >= 4 && m.stack == [offset, pointer]
    ensures Exec([Swap(1)] + ([Push([])] + ([Mstore] + rest)), m, limit)
         == Exec(rest, Next(m, 3, [pointer]).(memory := Store(m.memory, 0, ToBytes(32, offset))), limit)
  {
    hide Exec, Apply, Pow256, ToBytes, FromBytes, Store;
    Regroup(offset, pointer, 0, 0);
    Regroup(pointer, offset, 0, 0);
    ExecSwap1([], offset, pointer, [Push([])] + ([Mstore] + rest), m, limit);
    var m1 := Next(m, 1, [pointer, offset]);
    ExecPush0([Mstore] + rest, m1, limit);
    var m2 := Next(m1, 1, [pointer] + [offset, 0]);
    ExecMstore([pointer], offset, 0, rest, m2, limit);
  }

  lemma ExecReturnAll(selectors: seq<Selector>, pointer: Word, m: Machine, limit: nat)
    requires limit >= 4 && Addressable(selectors)
    requires m.stack == [0x20, pointer]
    requires m.memory == Store(Stored(selectors), 32, ToBytes(32, |selectors|))
    ensures var o := Exec(ReturnAll(), m, limit);
      && o.Returned? && o.data == AbiEncoded(selectors)
      && o.machine.storage == m.storage && o.machine.logs == m.logs
  {
    StoreHeader(selectors, ToBytes(32, |selectors|), ToBytes(32, 0x20));
    AbiEncodedLength(selectors);
    ReturnAllParts();
    var encoded := AbiEncoded(selectors);
    assert 0 < |encoded| < WORD_LIMIT && |encoded| % 32 == 0;
    var m1 := Next(m, 3, [pointer]).(memory := encoded);
    assert m1.storage == m.storage && m1.logs == m.logs && m1.stack == [pointer] && m1.memory == encoded;
    hide *;
    ExecStoreOffset(0x20, pointer, [Msize] + ([Push([])] + [Return]), m, limit);
    ExecReturnMemory(pointer, m1, limit);
  }

  lemma ReturnAllParts()
    ensures ReturnAll() == [Swap(1)] + ([Push([])] + ([Mstore] + ([Msize] + ([Push([])] + [Return]))))
  {
  }

  lemma ExecReturnMemory(pointer: Word, m: Machine, limit: nat)
    requires limit >= 4 && m.stack == [pointer] && |m.memory| % 32 == 0 && 0 < |m.memory| < WORD_LIMIT
    ensures var o := Exec([Msize] + ([Push([])] + [Return]), m, limit);
      o.Returned? && o.data == m.memory && o.machine.storage == m.storage && o.machine.logs == m.logs
  {
    hide Exec, Apply, Pow256, FromBytes;
    ExecMsize([Push([])] + [Return], m, limit);
    var m4 := Next(m, 1, [pointer, |m.memory|]);
    assert m.stack + [|m.memory|] == m4.stack;
    ExecPush0([Return], m4, limit);
    var m5 := Next(m4, 1, [pointer] + [|m.memory|, 0]);
    Regroup(pointer, |m.memory|, 0, 0);
    ExecReturn([pointer], m5, limit);
  }

  /** RETURN of the whole memory. */
  lemma ExecReturn(below: seq<Word>, m: Machine, limit: nat)
    requires |m.memory| % 32 == 0 && 0 < |m.memory| < WORD_LIMIT && m.stack == below + [|m.memory|, 0]
    ensures Exec([Return], m, limit) == Returned(m, m.memory)
  {
    hide Exec;
    assert [Return] == [Return] + [];
    assert Expand(m.memory, 0, |m.memory|) == m.memory;
    ExecLast(Return, m, limit);
    assert m.memory[0..0 + |m.memory|] == m.memory;
  }

  lemma ExecLast(i: Instr, m: Machine, limit: nat)
    requires !Apply(i, m, limit).Running?
    ensures Exec([i], m, limit) == Apply(i, m, limit)
  {
  }

  /** push(n) DUP3 MSTORE: write the length at the word whose offset lies below the pointer. */
  lemma ExecStoreLength(n: Word, offset: Word, pointer: Word, rest: seq<Instr>, m: Machine, limit: nat)
    requires limit >= 4 && m.stack == [offset, pointer] && ByteLength(n) <= 32
    ensures Exec([Push(ToBytes(ByteLength(n), n))] + ([Dup(3)] + ([Mstore] + rest)), m, limit)
         == Exec(rest, Next(m, 3 + ByteLength(n), [offset, pointer])
                         .(memory := Store(m.memory, offset, ToBytes(32, n))), limit)
  {
    hide Exec, Apply, Pow256, ToBytes, FromBytes, ByteLength, Store;
    ExecPushNumber(ByteLength(n), n, [Dup(3)] + ([Mstore] + rest), m, limit);
    var m1 := Next(m, 1 + ByteLength(n), [offset, pointer, n]);
    Regroup(offset, pointer, n, offset);
    ExecDup(3, [Mstore] + rest, m1, limit);
    var m2 := Next(m1, 1, [offset, pointer] + [n, offset]);
    ExecMstore([offset, pointer], n, offset, rest, m2, limit);
  }

  lemma ExecStoreAndReturn(selectors: seq<Selector>, pointer: Word, m: Machine, limit: nat)
    requires limit >= 4 && Addressable(selectors) && ByteLength(|selectors|) <= 32
    requires m.stack == [0x20, pointer] && m.memory == Stored(selectors)
    ensures var o := Exec(StoreAndReturn(|selectors|), m, limit);
      && o.Returned? && o.data == AbiEncoded(selectors)
      && o.machine.storage == m.storage && o.machine.logs == m.logs
  {
    var n := |selectors|;
    hide Exec, Pow256, ToBytes, ByteLength, Store, Stored, AbiEncoded, ReturnAll;
    ExecStoreLength(n, 0x20, pointer, ReturnAll(), m, limit);
    var stored := Store(Stored(selectors), 0x20, ToBytes(32, n));
    ExecReturnAll(selectors, pointer, Next(m, 3 + ByteLength(n), [0x20, pointer]).(memory := stored), limit);
  }

  /**
   Run on fresh memory, the generated code returns exactly the ABI encoding of the list, for
   every list, without touching storage or logs and within four stack words.
   */
  lemma {:induction false} RuntimeReturnsList(selectors: seq<Selector>, storage: map<Word, Word>, limit: nat)
    requires limit >= 4 && Addressable(selectors)
    ensures var o := Run(Runtime(selectors), Fresh(storage), limit);
      && o.Returned? && o.data == AbiEncoded(selectors)
      && o.machine.storage == storage && o.machine.logs == []
  {
    hide Run, Exec, Pow256, Stores, Elements, Runtime, Epilogue, StoreAndReturn, ByteLength, AbiEncoded, Assemble;
    var code, n, m := Runtime(selectors), |selectors|, Fresh(storage);
    RuntimeParts(selectors);
    RunPrologue(code, m, limit);
    var m1 := Among(m, 4, Pointer(0), []);
    var pointer := if n == 0 then Pointer(0) else Pointer(n - 1);
    var m2 := Among(m, 4 + |Stores(selectors)|, pointer, Stored(selectors));
    if n > 0 {
      assert [] + selectors == selectors;
      RunStores(code, [], selectors, m1, limit);
    }
    AssembleEpilogue(n);
    ExecStoreAndReturn(selectors, pointer, m2, limit);
    RunAssembled(code, StoreAndReturn(n), m2, limit);
  }

  lemma RuntimeParts(selectors: seq<Selector>)
    requires Addressable(selectors)
    ensures ByteLength(|selectors|) <= 32
    ensures selectors == [] ==> Stores(selectors) == []
    ensures var code := Runtime(selectors);
      && Holds(code, 0, [0x60, 0x20, 0x60, 0x24]) && Holds(code, 4, Stores(selectors))
      && Holds(code, 4 + |Stores(selectors)|, Epilogue(|selectors|))
  {
    LengthFits(|selectors|);
    hide Stores, PushNumber, ByteLength;
    var front := [0x60, 0x20, 0x60, 0x24] + Stores(selectors);
    ConcatEpilogue(front, PushNumber(|selectors|));
    hide Runtime, Epilogue;
    HoldsWhole(front, Epilogue(|selectors|));
    HoldsSplit(front + Epilogue(|selectors|), 0, [0x60, 0x20, 0x60, 0x24], Stores(selectors));
  }

  lemma ConcatEpilogue(front: seq<Byte>, push: seq<Byte>)
    ensures front + push + [0x82, 0x52] + [0x90, 0x5f, 0x52] + [0x59, 0x5f, 0xf3]
         == front + (push + [0x82, 0x52] + [0x90, 0x5f, 0x52] + [0x59, 0x5f, 0xf3])
  {
  }

  lemma HoldsWhole(a: seq<Byte>, b: seq<Byte>)
    ensures Holds(a + b, 0, a) && Holds(a + b, |a|, b)
  {
  }
}
