/**
 The part of the EVM that the generated bytecode uses: a stack of words with a depth limit,
 byte memory that grows by whole words, storage, logs, and straight-line code (no jumps).
 Opcodes follow appendix H of the Ethereum Yellow Paper, EIP-145 (SHL) and EIP-3855 (PUSH0).
 Every other opcode fails here, and gas is not counted.
 */
module Evm {
  import opened Bytes

  datatype Instr =
    | Stop
    | Add
    | Shl
    | Mstore
    | Sstore
    | Msize
    | Push(data: seq<Byte>)
    | Dup(n: nat)
    | Swap(n: nat)
    | Log3
    | Return
    | Other(op: Byte)

  datatype Log = Log(topics: seq<Word>, data: seq<Byte>)

  /** The top of the stack is its last element. */
  datatype Machine = Machine(
    pc: nat,
    stack: seq<Word>,
    memory: seq<Byte>,
    storage: map<Word, Word>,
    logs: seq<Log>)

  datatype Outcome =
    | Running(machine: Machine)
    | Stopped(machine: Machine)
    | Returned(machine: Machine, data: seq<Byte>)
    | Failed

  function Fresh(storage: map<Word, Word>): Machine {
    Machine(0, [], [], storage, [])
  }

  /** Storage reads as zero where nothing was written. */
  function Sload(storage: map<Word, Word>, slot: Word): Word {
    if slot in storage then storage[slot] else 0
  }

  // ---------------------------------------------------------------- encoding

  predicate Encodable(i: Instr) {
    match i
    case Push(data) => |data| <= 32
    case Dup(n) => 1 <= n <= 16
    case Swap(n) => 1 <= n <= 16
    case Other(_) => false
    case _ => true
  }

  function EncodeInstr(i: Instr): (bs: seq<Byte>)
    requires Encodable(i)
    ensures |bs| >= 1
  {
    match i
    case Stop => [0x00]
    case Add => [0x01]
    case Shl => [0x1b]
    case Mstore => [0x52]
    case Sstore => [0x55]
    case Msize => [0x59]
    case Push(data) => [0x5f + |data|] + data
    case Dup(n) => [0x7f + n]
    case Swap(n) => [0x8f + n]
    case Log3 => [0xa3]
    case Return => [0xf3]
  }

  predicate AllEncodable(prog: seq<Instr>) {
    forall i :: 0 <= i < |prog| ==> Encodable(prog[i])
  }

  function Assemble(prog: seq<Instr>): seq<Byte>
    requires AllEncodable(prog)
  {
    if prog == [] then [] else EncodeInstr(prog[0]) + Assemble(prog[1..])
  }

  /** The instruction at `pc`; an immediate cut off by the end of the code is padded with zeros. */
  function Fetch(code: seq<Byte>, pc: nat): Instr
    requires pc < |code|
  {
    var op := code[pc];
    if op == 0x00 then Stop
    else if op == 0x01 then Add
    else if op == 0x1b then Shl
    else if op == 0x52 then Mstore
    else if op == 0x55 then Sstore
    else if op == 0x59 then Msize
    else if 0x5f <= op <= 0x7f then
      var end := pc + 1 + (op - 0x5f);
      if end <= |code| then Push(code[pc + 1..end]) else Push(code[pc + 1..] + Zeros(end - |code|))
    else if 0x80 <= op <= 0x8f then Dup(op - 0x7f)
    else if 0x90 <= op <= 0x9f then Swap(op - 0x8f)
    else if op == 0xa3 then Log3
    else if op == 0xf3 then Return
    else Other(op)
  }

  function Size(i: Instr): (n: nat)
    ensures n >= 1
  {
    if i.Push? then 1 + |i.data| else 1
  }

  // --------------------------------------------------------------- semantics

  function Pow2(n: nat): (p: nat)
    ensures p >= 1
  {
    if n == 0 then 1 else 2 * Pow2(n - 1)
  }

  function ShiftLeft(value: Word, shift: Word): Word {
    if shift >= 256 then 0 else (value * Pow2(shift)) % WORD_LIMIT
  }

  /** Memory once bytes [offset, offset + size) are in use: a whole number of words. */
  function Expand(memory: seq<Byte>, offset: nat, size: nat): (m: seq<Byte>)
    ensures |m| >= |memory| && m[..|memory|] == memory
    ensures size > 0 ==> |m| >= offset + size
  {
    var need := (offset + size + 31) / 32 * 32;
    if size == 0 || need <= |memory| then memory else memory + Zeros(need - |memory|)
  }

  function Store(memory: seq<Byte>, offset: nat, bs: seq<Byte>): (m: seq<Byte>)
    requires |bs| > 0
    ensures |m| >= offset + |bs|
  {
    var m := Expand(memory, offset, |bs|);
    m[..offset] + bs + m[offset + |bs|..]
  }

  /** One instruction, under a limit on the stack's depth. */
  function Apply(i: Instr, m: Machine, limit: nat): (o: Outcome)
    ensures o.Running? ==> o.machine.pc == m.pc + Size(i)
  {
    var n := |m.stack|;
    var next := m.(pc := m.pc + Size(i));
    match i
    case Stop => Stopped(m)
    case Add =>
      if n < 2 then Failed else
      Running(next.(stack := m.stack[..n - 2] + [(m.stack[n - 1] + m.stack[n - 2]) % WORD_LIMIT]))
    case Shl =>
      if n < 2 then Failed else
      Running(next.(stack := m.stack[..n - 2] + [ShiftLeft(m.stack[n - 2], m.stack[n - 1])]))
    case Mstore =>
      if n < 2 then Failed else
      Running(next.(stack := m.stack[..n - 2], memory := Store(m.memory, m.stack[n - 1], ToBytes(32, m.stack[n - 2]))))
    case Sstore =>
      if n < 2 then Failed else
      Running(next.(stack := m.stack[..n - 2], storage := m.storage[m.stack[n - 1] := m.stack[n - 2]]))
    case Msize =>
      if n >= limit || |m.memory| >= WORD_LIMIT then Failed else
      Running(next.(stack := m.stack + [|m.memory|]))
    case Push(data) =>
      if n >= limit || FromBytes(data) >= WORD_LIMIT then Failed else
      Running(next.(stack := m.stack + [FromBytes(data)]))
    case Dup(d) =>
      if d == 0 || n < d || n >= limit then Failed else
      Running(next.(stack := m.stack + [m.stack[n - d]]))
    case Swap(d) =>
      if d == 0 || n < d + 1 then Failed else
      Running(next.(stack := m.stack[n - 1 := m.stack[n - 1 - d]][n - 1 - d := m.stack[n - 1]]))
    case Log3 =>
      if n < 5 then Failed else
      var offset: nat, size: nat := m.stack[n - 1], m.stack[n - 2];
      var memory := Expand(m.memory, offset, size);
      var data := if size == 0 then [] else memory[offset..offset + size];
      var log := Log([m.stack[n - 3], m.stack[n - 4], m.stack[n - 5]], data);
      Running(next.(stack := m.stack[..n - 5], memory := memory, logs := m.logs + [log]))
    case Return =>
      if n < 2 then Failed else
      var offset: nat, size: nat := m.stack[n - 1], m.stack[n - 2];
      var memory := Expand(m.memory, offset, size);
      Returned(m.(memory := memory), if size == 0 then [] else memory[offset..offset + size])
    case Other(_) => Failed
  }

  /** The whole code from `m` on. Running off its end stops, as STOP does. */
  function Run(code: seq<Byte>, m: Machine, limit: nat): (o: Outcome)
    ensures !o.Running?
    decreases |code| - m.pc
  {
    if m.pc >= |code| then Stopped(m) else
    var o := Apply(Fetch(code, m.pc), m, limit);
    if o.Running? then Run(code, o.machine, limit) else o
  }

  /** The same for a list of instructions, without their encoding; `Running` at the end of the list. */
  function Exec(prog: seq<Instr>, m: Machine, limit: nat): Outcome {
    if prog == [] then Running(m) else
    var o := Apply(prog[0], m, limit);
    if o.Running? then Exec(prog[1..], o.machine, limit) else o
  }

  // ------------------------------------------------------ code and its meaning

  ghost predicate Holds(code: seq<Byte>, at: nat, bs: seq<Byte>) {
    at + |bs| <= |code| && code[at..at + |bs|] == bs
  }

  lemma HoldsSplit(code: seq<Byte>, at: nat, a: seq<Byte>, b: seq<Byte>)
    requires Holds(code, at, a + b)
    ensures Holds(code, at, a) && Holds(code, at + |a|, b)
  {
    assert (a + b)[..|a|] == a && (a + b)[|a|..] == b;
    assert code[at..at + |a|] == code[at..at + |a + b|][..|a|];
    assert code[at + |a|..at + |a| + |b|] == code[at..at + |a + b|][|a|..];
  }

  lemma FetchEncoded(code: seq<Byte>, at: nat, i: Instr)
    requires Encodable(i) && Holds(code, at, EncodeInstr(i))
    ensures Fetch(code, at) == i && Size(i) == |EncodeInstr(i)|
  {
    var bs := EncodeInstr(i);
    assert code[at] == code[at..at + |bs|][0];
    if i.Push? {
      assert code[at + 1..at + |bs|] == code[at..at + |bs|][1..];
      assert bs[1..] == i.data;
    }
  }

  /** Running assembled code is executing its instructions. */
  lemma {:induction false} RunAssembled(code: seq<Byte>, prog: seq<Instr>, m: Machine, limit: nat)
    requires AllEncodable(prog) && Holds(code, m.pc, Assemble(prog))
    ensures Exec(prog, m, limit).Running? ==>
              && Exec(prog, m, limit).machine.pc == m.pc + |Assemble(prog)|
              && Run(code, m, limit) == Run(code, Exec(prog, m, limit).machine, limit)
    ensures !Exec(prog, m, limit).Running? ==> Run(code, m, limit) == Exec(prog, m, limit)
    decreases |prog|
  {
    hide Apply, Fetch, EncodeInstr, Encodable, Size;
    if prog != [] {
      HoldsSplit(code, m.pc, EncodeInstr(prog[0]), Assemble(prog[1..]));
      FetchEncoded(code, m.pc, prog[0]);
      var o := Apply(prog[0], m, limit);
      if o.Running? {
        RunAssembled(code, prog[1..], o.machine, limit);
      }
    }
  }

  lemma {:induction false} ExecConcat(a: seq<Instr>, b: seq<Instr>, m: Machine, limit: nat)
    ensures Exec(a, m, limit).Running? ==>
              Exec(a + b, m, limit) == Exec(b, Exec(a, m, limit).machine, limit)
    ensures !Exec(a, m, limit).Running? ==> Exec(a + b, m, limit) == Exec(a, m, limit)
    decreases |a|
  {
    if a == [] {
      assert a + b == b;
    } else {
      assert (a + b)[1..] == a[1..] + b;
      var o := Apply(a[0], m, limit);
      if o.Running? {
        ExecConcat(a[1..], b, o.machine, limit);
      }
    }
  }

  /** Shifting by whole bytes multiplies by a power of 256. */
  lemma {:induction false} Pow2Bytes(n: nat)
    ensures Pow2(8 * n) == Pow256(n)
  {
    if n > 0 {
      Pow2Bytes(n - 1);
      assert Pow2(8 * n) == 2 * Pow2(8 * n - 1);
      assert Pow2(8 * n - 1) == 2 * Pow2(8 * n - 2);
      assert Pow2(8 * n - 2) == 2 * Pow2(8 * n - 3);
      assert Pow2(8 * n - 3) == 2 * Pow2(8 * n - 4);
      assert Pow2(8 * n - 4) == 2 * Pow2(8 * n - 5);
      assert Pow2(8 * n - 5) == 2 * Pow2(8 * n - 6);
      assert Pow2(8 * n - 6) == 2 * Pow2(8 * n - 7);
      assert Pow2(8 * n - 7) == 2 * Pow2(8 * n - 8);
    }
  }

  // -------------------------------------------- executing one instruction of a list

  function Next(m: Machine, size: nat, stack: seq<Word>): Machine {
    m.(pc := m.pc + size, stack := stack)
  }

  lemma ExecCons(i: Instr, rest: seq<Instr>, m: Machine, limit: nat)
    requires Apply(i, m, limit).Running?
    ensures Exec([i] + rest, m, limit) == Exec(rest, Apply(i, m, limit).machine, limit)
  {
    hide Apply;
    assert ([i] + rest)[1..] == rest;
  }

  lemma ExecPush(data: seq<Byte>, rest: seq<Instr>, m: Machine, limit: nat)
    requires |m.stack| < limit && FromBytes(data) < WORD_LIMIT
    ensures Exec([Push(data)] + rest, m, limit)
         == Exec(rest, Next(m, 1 + |data|, m.stack + [FromBytes(data)]), limit)
  {
    hide Exec, FromBytes, ToBytes, Pow256, ShiftLeft, Store, Expand;
    ExecCons(Push(data), rest, m, limit);
  }

  lemma ExecPush0(rest: seq<Instr>, m: Machine, limit: nat)
    requires |m.stack| < limit
    ensures Exec([Push([])] + rest, m, limit) == Exec(rest, Next(m, 1, m.stack + [0]), limit)
  {
    FromOneByte(0);
    hide FromBytes;
    ExecPush([], rest, m, limit);
  }

  lemma ExecPush1(b: Byte, rest: seq<Instr>, m: Machine, limit: nat)
    requires |m.stack| < limit
    ensures Exec([Push([b])] + rest, m, limit) == Exec(rest, Next(m, 2, m.stack + [b]), limit)
  {
    FromOneByte(b);
    hide FromBytes;
    ExecPush([b], rest, m, limit);
  }

  lemma {:induction false} ExecPushNumber(width: nat, n: Word, rest: seq<Instr>, m: Machine, limit: nat)
    requires |m.stack| < limit && n < Pow256(width)
    ensures Exec([Push(ToBytes(width, n))] + rest, m, limit) == Exec(rest, Next(m, 1 + width, m.stack + [n]), limit)
  {
    FromToBytes(width, n);
    hide FromBytes, ToBytes, Pow256;
    ExecPush(ToBytes(width, n), rest, m, limit);
  }

  lemma ExecDup(d: nat, rest: seq<Instr>, m: Machine, limit: nat)
    requires 1 <= d <= |m.stack| < limit
    ensures Exec([Dup(d)] + rest, m, limit)
         == Exec(rest, Next(m, 1, m.stack + [m.stack[|m.stack| - d]]), limit)
  {
    hide Exec, FromBytes, ToBytes, Pow256, ShiftLeft, Store, Expand;
    ExecCons(Dup(d), rest, m, limit);
  }

  lemma ExecShl(below: seq<Word>, value: Word, shift: Word, rest: seq<Instr>, m: Machine, limit: nat)
    requires m.stack == below + [value, shift]
    ensures Exec([Shl] + rest, m, limit) == Exec(rest, Next(m, 1, below + [ShiftLeft(value, shift)]), limit)
  {
    hide Exec, FromBytes, ToBytes, Pow256, ShiftLeft, Store, Expand;
    ExecCons(Shl, rest, m, limit);
  }

  lemma ExecAdd(below: seq<Word>, a: Word, b: Word, rest: seq<Instr>, m: Machine, limit: nat)
    requires m.stack == below + [a, b] && a + b < WORD_LIMIT
    ensures Exec([Add] + rest, m, limit) == Exec(rest, Next(m, 1, below + [a + b]), limit)
  {
    hide Exec, FromBytes, ToBytes, Pow256, ShiftLeft, Store, Expand;
    ExecCons(Add, rest, m, limit);
  }

  lemma ExecSwap1(below: seq<Word>, a: Word, b: Word, rest: seq<Instr>, m: Machine, limit: nat)
    requires m.stack == below + [a, b]
    ensures Exec([Swap(1)] + rest, m, limit) == Exec(rest, Next(m, 1, below + [b, a]), limit)
  {
    hide Exec, FromBytes, ToBytes, Pow256, ShiftLeft, Store, Expand;
    ExecCons(Swap(1), rest, m, limit);
    assert Apply(Swap(1), m, limit).machine.stack == below + [b, a];
  }

  lemma ExecMstore(below: seq<Word>, value: Word, offset: Word, rest: seq<Instr>, m: Machine, limit: nat)
    requires m.stack == below + [value, offset]
    ensures Exec([Mstore] + rest, m, limit)
         == Exec(rest, Next(m, 1, below).(memory := Store(m.memory, offset, ToBytes(32, value))), limit)
  {
    hide Exec, FromBytes, ToBytes, Pow256, ShiftLeft, Store, Expand;
    ExecCons(Mstore, rest, m, limit);
  }

  lemma ExecMsize(rest: seq<Instr>, m: Machine, limit: nat)
    requires |m.stack| < limit && |m.memory| < WORD_LIMIT
    ensures Exec([Msize] + rest, m, limit) == Exec(rest, Next(m, 1, m.stack + [|m.memory|]), limit)
  {
    hide Exec, FromBytes, ToBytes, Pow256, ShiftLeft, Store, Expand;
    ExecCons(Msize, rest, m, limit);
  }

  lemma ExecSstore(below: seq<Word>, value: Word, slot: Word, rest: seq<Instr>, m: Machine, limit: nat)
    requires m.stack == below + [value, slot]
    ensures Exec([Sstore] + rest, m, limit)
         == Exec(rest, Next(m, 1, below).(storage := m.storage[slot := value]), limit)
  {
    hide Exec, FromBytes, ToBytes, Pow256, ShiftLeft, Store, Expand;
    ExecCons(Sstore, rest, m, limit);
  }

  /** A log of no data. */
  lemma ExecLog3(below: seq<Word>, t2: Word, t1: Word, t0: Word, rest: seq<Instr>, m: Machine, limit: nat)
    requires m.stack == below + [t2, t1, t0, 0, 0]
    ensures Exec([Log3] + rest, m, limit)
         == Exec(rest, Next(m, 1, below).(logs := m.logs + [Log([t0, t1, t2], [])]), limit)
  {
    hide Exec, FromBytes, ToBytes, Pow256, ShiftLeft, Store;
    ExecCons(Log3, rest, m, limit);
  }

  lemma FromOneByte(b: Byte)
    ensures FromBytes([b]) == b && FromBytes([]) == 0
  {
    assert [b][..0] == [];
  }

  /** The top of a small stack, regrouped. */
  lemma Regroup<T>(a: T, b: T, c: T, d: T)
    ensures [a, b] + [c] == [a] + [b, c] == [a, b, c]
    ensures [a, b, c] + [d] == [a, b] + [c, d] == [a, b, c, d]
    ensures [] + [a, b] == [a, b]
  {
  }
}
