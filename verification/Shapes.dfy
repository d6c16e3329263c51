/**
 Comparing storage types (src/josuke/check.py, `_fit`, `_same_shape`): types are graphs, possibly
 cyclic, and an old one fits a new one when what was stored as the old reads back as the new.
 */
module Shapes {

  /** A struct member: where it sits in the struct, and its type. */
  datatype Member = Member(name: string, slot: nat, offset: nat, target: nat)

  /** A type; types it is made of are given by their index in the graph. */
  datatype Node =
    | Mapping(size: nat, key: nat, value: nat)
    | Bytes(size: nat)
    | DynamicArray(size: nat, base: nat)
    | Struct(size: nat, members: seq<Member>)
    | Array(size: nat, base: nat, length: nat)
    | Enum(size: nat, names: seq<string>)
    | Function(size: nat, internal: bool)
    | Value(size: nat, kind: string)

  type Graph = seq<Node>
  type Pair = (nat, nat)

  predicate Closed(node: Node, n: nat) {
    match node
    case Mapping(_, key, value) => key < n && value < n
    case DynamicArray(_, base) => base < n
    case Array(_, base, _) => base < n
    case Struct(_, members) => forall k :: 0 <= k < |members| ==> members[k].target < n
    case _ => true
  }

  /** The type compared is the first; every type referred to is in the graph. */
  ghost predicate WellFormed(g: Graph) {
    g != [] && forall i :: 0 <= i < |g| ==> Closed(g[i], |g|)
  }

  datatype Note = Grown | Renamed

  // ---------------------------------------------------------------------- the local rules

  /** Where `was_at` says a name was: its last occurrence. */
  function WasAt(members: seq<Member>, name: string): (k: int)
    ensures -1 <= k < |members|
    ensures k >= 0 ==> members[k].name == name
    ensures k == -1 <==> forall i :: 0 <= i < |members| ==> members[i].name != name
  {
    if members == [] then -1
    else if members[|members| - 1].name == name then |members| - 1
    else WasAt(members[..|members| - 1], name)
  }

  predicate SameKind(a: Node, b: Node) {
    match a
    case Mapping(_, _, _) => b.Mapping?
    case Bytes(_) => b.Bytes?
    case DynamicArray(_, _) => b.DynamicArray?
    case Struct(_, _) => b.Struct?
    case Array(_, _, _) => b.Array?
    case Enum(_, _) => b.Enum?
    case Function(_, _) => b.Function?
    case Value(_, _) => b.Value?
  }

  predicate SamePlace(a: Member, b: Member) {
    a.slot == b.slot && a.offset == b.offset
  }

  /** A name that was there before is now at another place. */
  predicate Moved(a: seq<Member>, b: seq<Member>) {
    exists k :: 0 <= k < |b| && WasAt(a, b[k].name) >= 0 && !SamePlace(a[WasAt(a, b[k].name)], b[k])
  }

  predicate MembersKept(a: seq<Member>, b: seq<Member>) {
    && |a| <= |b| && !Moved(a, b)
    && forall k :: 0 <= k < |a| ==> SamePlace(a[k], b[k])
  }

  /** What must hold of two types, besides that the types they are made of fit. */
  predicate Local(was: Graph, now: Graph, i: nat, j: nat)
    requires i < |was| && j < |now| && Closed(was[i], |was|) && Closed(now[j], |now|)
  {
    match (was[i], now[j])
    case (Mapping(_, _, _), Mapping(_, _, _)) => true
    case (DynamicArray(s, x), DynamicArray(t, y)) => was[x].size == now[y].size && s <= t
    case (Array(s, x, m), Array(t, y, n)) => was[x].size == now[y].size && s <= t && m <= n
    case (Enum(s, a), Enum(t, b)) => s == t && a <= b
    case (Struct(_, a), Struct(_, b)) => MembersKept(a, b)
    case (a, b) => a == b
  }

  /** The pairs of types that must fit in turn. */
  function Children(was: Graph, now: Graph, i: nat, j: nat): set<Pair>
    requires i < |was| && j < |now|
  {
    match (was[i], now[j])
    case (Mapping(_, k, v), Mapping(_, l, w)) => {(k, l), (v, w)}
    case (DynamicArray(_, x), DynamicArray(_, y)) => {(x, y)}
    case (Array(_, x, _), Array(_, y, _)) => {(x, y)}
    case (Struct(_, a), Struct(_, b)) => set k | 0 <= k < |a| && k < |b| :: (a[k].target, b[k].target)
    case _ => {}
  }

  predicate AnyRenamed(a: seq<Member>, b: seq<Member>, n: nat) {
    exists k :: 0 <= k < n && k < |a| && k < |b| && a[k].name != b[k].name
  }

  function RenamedIn(a: seq<Member>, b: seq<Member>, n: nat): set<Note> {
    if AnyRenamed(a, b, n) then {Renamed} else {}
  }

  function NotesAt(was: Graph, now: Graph, i: nat, j: nat): set<Note>
    requires i < |was| && j < |now|
  {
    match (was[i], now[j])
    case (Array(_, _, m), Array(_, _, n)) => if m < n then {Grown} else {}
    case (Enum(_, a), Enum(_, b)) => if |a| < |b| then {Grown} else {}
    case (Struct(s, a), Struct(t, b)) =>
      RenamedIn(a, b, |a|) + (if s != t || |a| < |b| then {Grown} else {})
    case _ => {}
  }

  // ---------------------------------------------------------------------- simulations

  ghost predicate InRange(was: Graph, now: Graph, pairs: set<Pair>) {
    forall p :: p in pairs ==> p.0 < |was| && p.1 < |now|
  }

  /** Each pair agrees locally, and the pairs it needs are in `all`. */
  ghost predicate Explored(was: Graph, now: Graph, pairs: set<Pair>, all: set<Pair>)
    requires WellFormed(was) && WellFormed(now) && InRange(was, now, pairs)
  {
    forall p :: p in pairs ==> Local(was, now, p.0, p.1) && Children(was, now, p.0, p.1) <= all
  }

  /** A relation closed under the local rules. */
  ghost predicate Simulation(was: Graph, now: Graph, pairs: set<Pair>) {
    && WellFormed(was) && WellFormed(now) && InRange(was, now, pairs)
    && Explored(was, now, pairs, pairs)
  }

  ghost predicate Similar(was: Graph, now: Graph, i: nat, j: nat) {
    exists pairs :: Simulation(was, now, pairs) && (i, j) in pairs
  }

  ghost predicate Noted(was: Graph, now: Graph, pairs: set<Pair>, note: Note)
    requires InRange(was, now, pairs)
  {
    exists p :: p in pairs && note in NotesAt(was, now, p.0, p.1)
  }

  function Below(n: nat): (s: set<nat>)
    ensures forall k: nat :: k in s <==> k < n
  {
    if n == 0 then {} else Below(n - 1) + {n - 1}
  }

  function AllPairs(was: Graph, now: Graph): set<Pair> {
    set i, j | i in Below(|was|) && j in Below(|now|) :: (i, j)
  }

  /** How many pairs are still to be compared. */
  ghost function Left(was: Graph, now: Graph, pairs: set<Pair>): nat {
    |AllPairs(was, now) - pairs|
  }

  lemma LeftFewer(was: Graph, now: Graph, pairs: set<Pair>, more: set<Pair>)
    requires pairs <= more
    ensures Left(was, now, more) <= Left(was, now, pairs)
    ensures (exists p :: p in more - pairs && p.0 < |was| && p.1 < |now|) ==>
            Left(was, now, more) < Left(was, now, pairs)
  {
    var a, b := AllPairs(was, now) - more, AllPairs(was, now) - pairs;
    FewerIn(a, b);
    if p :| p in more - pairs && p.0 < |was| && p.1 < |now| {
      assert (p.0, p.1) in AllPairs(was, now);
      assert p in b && p !in a;
    }
  }

  lemma FewerIn(a: set<Pair>, b: set<Pair>)
    requires a <= b
    ensures |a| <= |b| && (a != b ==> |a| < |b|)
  {
    assert b == a + (b - a);
  }

  /** One comparison: the pairs compared so far, and what was noted. */
  class Comparison {
    const was: Graph
    const now: Graph
    var compared: set<Pair>
    var notes: set<Note>

    constructor (was: Graph, now: Graph, notes: set<Note>)
      ensures this.was == was && this.now == now && this.notes == notes && compared == {}
    {
      this.was, this.now, this.notes, compared := was, now, notes, {};
    }

    /**
     `fits`: if true, the pairs newly compared hold what they need, they lie in every simulation of
     this pair, and their notes are taken; if false, no simulation holds this pair.
     */
    method Fits(i: nat, j: nat) returns (ok: bool)
      requires WellFormed(was) && WellFormed(now) && i < |was| && j < |now|
      requires InRange(was, now, compared)
      modifies this
      ensures old(compared) <= compared && InRange(was, now, compared)
      ensures Left(was, now, compared) <= old(Left(was, now, compared))
      ensures ok ==> (i, j) in compared && Explored(was, now, compared - old(compared), compared)
      ensures ok ==> forall note ::
                note in notes <==> note in old(notes) || Noted(was, now, compared - old(compared), note)
      ensures ok ==> Needed(was, now, i, j, compared - old(compared))
      ensures !ok ==> !Similar(was, now, i, j)
      decreases Left(was, now, compared), 0
    {
      hide Explored, Simulation, Noted, Needed, Acc, InRange, WellFormed, Similar, Local, Children, NotesAt, Left;
      if (i, j) in compared {
        SettledAlready(was, now, i, j, compared, notes);
        return true;
      }
      ghost var before, from := compared, notes;
      compared := compared + {(i, j)};
      PairInRange(was, now, i, j, before);
      AccStart(was, now, i, j, compared, notes);
      ok := FitsParts(i, j, compared, from);
      if ok {
        AccEnd(was, now, i, j, before, compared, from, notes);
      }
    }

    /** What the kinds of the two types ask for. */
    method FitsParts(i: nat, j: nat, ghost start: set<Pair>, ghost from: set<Note>) returns (ok: bool)
      requires WellFormed(was) && WellFormed(now) && i < |was| && j < |now|
      requires InRange(was, now, compared) && start <= compared
      requires Acc(was, now, i, j, start, compared, from, notes)
      modifies this
      ensures old(compared) <= compared && InRange(was, now, compared)
      ensures Left(was, now, compared) <= old(Left(was, now, compared))
      ensures ok ==> Local(was, now, i, j) && Children(was, now, i, j) <= compared
      ensures ok ==> Acc(was, now, i, j, start, compared, from + NotesAt(was, now, i, j), notes)
      ensures !ok ==> !Similar(was, now, i, j)
      decreases Left(was, now, compared), 3
    {
      hide Explored, Simulation, Noted, Needed, Acc, InRange, WellFormed, Similar, Local, Children, NotesAt, Left;
      var a, b := was[i], now[j];
      if !SameKind(a, b) {
        KindFails(was, now, i, j);
        return false;
      }
      if a.Mapping? {
        ok := FitsMapping(i, j, start, from);
      } else if a.Array? || a.DynamicArray? {
        ok := FitsElements(i, j, start, from);
      } else if a.Enum? {
        ok := FitsEnum(i, j, start, from);
      } else if a.Struct? {
        ok := FitsMembers(i, j, start, from);
      } else {
        ok := a == b;
        LeafRule(was, now, i, j, compared, from);
      }
    }

    method FitsMapping(i: nat, j: nat, ghost start: set<Pair>, ghost from: set<Note>) returns (ok: bool)
      requires WellFormed(was) && WellFormed(now) && i < |was| && j < |now| && was[i].Mapping? && now[j].Mapping?
      requires InRange(was, now, compared) && start <= compared
      requires Acc(was, now, i, j, start, compared, from, notes)
      modifies this
      ensures old(compared) <= compared && InRange(was, now, compared)
      ensures Left(was, now, compared) <= old(Left(was, now, compared))
      ensures ok ==> Local(was, now, i, j) && Children(was, now, i, j) <= compared
      ensures ok ==> Acc(was, now, i, j, start, compared, from + NotesAt(was, now, i, j), notes)
      ensures !ok ==> !Similar(was, now, i, j)
      decreases Left(was, now, compared), 2
    {
      hide Explored, Simulation, Noted, Needed, Acc, InRange, Similar, Left;
      ok := FitsNext(i, j, was[i].key, now[j].key, start, from);
      if ok {
        ok := FitsNext(i, j, was[i].value, now[j].value, start, from);
      }
      assert from + {} == from;
    }

    /** Elements sit one after another, so their size must not change, and there may be more of them. */
    method FitsElements(i: nat, j: nat, ghost start: set<Pair>, ghost from: set<Note>) returns (ok: bool)
      requires WellFormed(was) && WellFormed(now) && i < |was| && j < |now|
      requires (was[i].Array? && now[j].Array?) || (was[i].DynamicArray? && now[j].DynamicArray?)
      requires InRange(was, now, compared) && start <= compared
      requires Acc(was, now, i, j, start, compared, from, notes)
      modifies this
      ensures old(compared) <= compared && InRange(was, now, compared)
      ensures Left(was, now, compared) <= old(Left(was, now, compared))
      ensures ok ==> Local(was, now, i, j) && Children(was, now, i, j) <= compared
      ensures ok ==> Acc(was, now, i, j, start, compared, from + NotesAt(was, now, i, j), notes)
      ensures !ok ==> !Similar(was, now, i, j)
      decreases Left(was, now, compared), 2
    {
      hide Explored, Simulation, Noted, Needed, Acc, InRange, Similar, Left;
      var a, b := was[i], now[j];
      if was[a.base].size != now[b.base].size || b.size < a.size {
        LocalFails(was, now, i, j);
        return false;
      }
      ok := FitsNext(i, j, a.base, b.base, start, from);
      if !ok {
        return;
      }
      if a.Array? {
        if b.length < a.length {
          LocalFails(was, now, i, j);
          return false;
        }
        if b.length > a.length {
          AccNote(was, now, i, j, start, compared, from, notes, {Grown});
          notes := notes + {Grown};
        }
      }
      assert from + {} == from;
    }

    method FitsEnum(i: nat, j: nat, ghost start: set<Pair>, ghost from: set<Note>) returns (ok: bool)
      requires WellFormed(was) && WellFormed(now) && i < |was| && j < |now| && was[i].Enum? && now[j].Enum?
      requires InRange(was, now, compared) && start <= compared
      requires Acc(was, now, i, j, start, compared, from, notes)
      modifies this
      ensures old(compared) <= compared && InRange(was, now, compared)
      ensures Left(was, now, compared) <= old(Left(was, now, compared))
      ensures ok ==> Local(was, now, i, j) && Children(was, now, i, j) <= compared
      ensures ok ==> Acc(was, now, i, j, start, compared, from + NotesAt(was, now, i, j), notes)
      ensures !ok ==> !Similar(was, now, i, j)
      decreases Left(was, now, compared), 2
    {
      hide Explored, Simulation, Noted, Needed, Acc, InRange, Similar, Left;
      var a, b := was[i], now[j];
      if a.size != b.size || !(a.names <= b.names) {
        LocalFails(was, now, i, j);
        return false;
      }
      if |b.names| > |a.names| {
        AccNote(was, now, i, j, start, compared, from, notes, {Grown});
        notes := notes + {Grown};
      }
      assert from + {} == from;
      return true;
    }

    /** Members keep their places, in order; a name that is kept may not move. */
    method FitsMembers(i: nat, j: nat, ghost start: set<Pair>, ghost from: set<Note>) returns (ok: bool)
      requires WellFormed(was) && WellFormed(now) && i < |was| && j < |now| && was[i].Struct? && now[j].Struct?
      requires InRange(was, now, compared) && start <= compared
      requires Acc(was, now, i, j, start, compared, from, notes)
      modifies this
      ensures old(compared) <= compared && InRange(was, now, compared)
      ensures Left(was, now, compared) <= old(Left(was, now, compared))
      ensures ok ==> Local(was, now, i, j) && Children(was, now, i, j) <= compared
      ensures ok ==> Acc(was, now, i, j, start, compared, from + NotesAt(was, now, i, j), notes)
      ensures !ok ==> !Similar(was, now, i, j)
      decreases Left(was, now, compared), 2
    {
      var a, b := was[i].members, now[j].members;
      hide Explored, Simulation, Noted, Needed, Acc, InRange, WellFormed, Similar, Local, Children, NotesAt, Left,
          Moved, AnyRenamed, RenamedIn, KeptTo, SamePlace;
      if |b| < |a| || Moved(a, b) {
        StructFails(was, now, i, j, 0);
        return false;
      }
      RenamedNone(a, b, from);
      KeptNone(a, b, compared);
      for k := 0 to |a|
        invariant old(compared) <= compared && InRange(was, now, compared)
        invariant Left(was, now, compared) <= old(Left(was, now, compared))
        invariant Acc(was, now, i, j, start, compared, from + RenamedIn(a, b, k), notes)
        invariant KeptTo(a, b, k, compared)
      {
        ghost var before := compared;
        if !SamePlace(a[k], b[k]) {
          StructFails(was, now, i, j, k);
          return false;
        }
        MemberChild(was, now, i, j, k);
        ok := FitsNext(i, j, a[k].target, b[k].target, start, from + RenamedIn(a, b, k));
        if !ok {
          return false;
        }
        KeptNext(a, b, k, before, compared);
        RenamedNext(a, b, k, from);
        if a[k].name != b[k].name {
          AccNote(was, now, i, j, start, compared, from + RenamedIn(a, b, k), notes, {Renamed});
          notes := notes + {Renamed};
        }
      }
      MembersDone(was, now, i, j, compared, from);
      if was[i].size != now[j].size || |b| > |a| {
        AccNote(was, now, i, j, start, compared, from + RenamedIn(a, b, |a|), notes, {Grown});
        notes := notes + {Grown};
      }
      return true;
    }

    /** One of the types a type is made of, in turn. */
    method FitsNext(ghost i: nat, ghost j: nat, x: nat, y: nat, ghost start: set<Pair>,
                    ghost from: set<Note>) returns (ok: bool)
      requires WellFormed(was) && WellFormed(now) && i < |was| && j < |now| && x < |was| && y < |now|
      requires (x, y) in Children(was, now, i, j)
      requires InRange(was, now, compared) && start <= compared
      requires Acc(was, now, i, j, start, compared, from, notes)
      modifies this
      ensures old(compared) <= compared && InRange(was, now, compared)
      ensures Left(was, now, compared) <= old(Left(was, now, compared))
      ensures ok ==> (x, y) in compared && Acc(was, now, i, j, start, compared, from, notes)
      ensures !ok ==> !Similar(was, now, i, j)
      decreases Left(was, now, compared), 1
    {
      ghost var before, taken := compared, notes;
      ok := Fits(x, y);
      hide Explored, Simulation, Noted, Needed, Acc, InRange, WellFormed, Similar, Children, Left;
      if ok {
        AccNext(was, now, i, j, x, y, start, before, compared, from, taken, notes);
      } else {
        ChildFails(was, now, i, j, x, y);
      }
    }
  }

  /** Every simulation of the pair holds all of `pairs`. */
  ghost predicate Needed(was: Graph, now: Graph, i: nat, j: nat, pairs: set<Pair>) {
    forall all :: Simulation(was, now, all) && (i, j) in all ==> pairs <= all
  }

  /** What holds between the comparisons of a type's parts: the pairs since `start` are settled. */
  ghost predicate Acc(was: Graph, now: Graph, i: nat, j: nat, start: set<Pair>, pairs: set<Pair>, from: set<Note>,
                      notes: set<Note>)
    requires WellFormed(was) && WellFormed(now) && InRange(was, now, pairs)
  {
    && start <= pairs && Explored(was, now, pairs - start, pairs)
    && Needed(was, now, i, j, pairs - start)
    && forall note :: note in notes <==> note in from || Noted(was, now, pairs - start, note)
  }

  lemma SettledAlready(was: Graph, now: Graph, i: nat, j: nat, pairs: set<Pair>, notes: set<Note>)
    requires WellFormed(was) && WellFormed(now) && InRange(was, now, pairs)
    ensures Explored(was, now, pairs - pairs, pairs) && Needed(was, now, i, j, pairs - pairs)
    ensures forall note :: note in notes <==> note in notes || Noted(was, now, pairs - pairs, note)
  {
  }

  lemma PairInRange(was: Graph, now: Graph, i: nat, j: nat, pairs: set<Pair>)
    requires i < |was| && j < |now| && InRange(was, now, pairs)
    ensures InRange(was, now, pairs + {(i, j)})
    ensures (i, j) !in pairs ==> Left(was, now, pairs + {(i, j)}) < Left(was, now, pairs)
  {
    LeftFewer(was, now, pairs, pairs + {(i, j)});
    if (i, j) !in pairs {
      assert (i, j) in pairs + {(i, j)} - pairs;
    }
  }

  lemma AccStart(was: Graph, now: Graph, i: nat, j: nat, start: set<Pair>, notes: set<Note>)
    requires WellFormed(was) && WellFormed(now) && InRange(was, now, start)
    ensures Acc(was, now, i, j, start, start, notes, notes)
  {
  }

  /** A part compared: all that was settled since is settled for the whole. */
  lemma AccNext(was: Graph, now: Graph, i: nat, j: nat, x: nat, y: nat, start: set<Pair>, before: set<Pair>,
                pairs: set<Pair>, from: set<Note>, taken: set<Note>, notes: set<Note>)
    requires WellFormed(was) && WellFormed(now) && i < |was| && j < |now|
    requires (x, y) in Children(was, now, i, j)
    requires InRange(was, now, pairs) && before <= pairs && Acc(was, now, i, j, start, before, from, taken)
    requires Explored(was, now, pairs - before, pairs) && Needed(was, now, x, y, pairs - before)
    requires forall note :: note in notes <==> note in taken || Noted(was, now, pairs - before, note)
    ensures Acc(was, now, i, j, start, pairs, from, notes)
  {
    hide Local, Children, NotesAt;
    forall all | Simulation(was, now, all) && (i, j) in all
      ensures pairs - start <= all
    {
      assert (x, y) in all;
    }
    forall note
      ensures note in notes <==> note in from || Noted(was, now, pairs - start, note)
    {
      NotedUnion(was, now, before - start, pairs - before, pairs - start, note);
    }
  }

  lemma NotedUnion(was: Graph, now: Graph, a: set<Pair>, b: set<Pair>, all: set<Pair>, note: Note)
    requires InRange(was, now, all) && all == a + b
    ensures Noted(was, now, all, note) <==> Noted(was, now, a, note) || Noted(was, now, b, note)
  {
    hide NotesAt;
  }

  lemma AccNote(was: Graph, now: Graph, i: nat, j: nat, start: set<Pair>, pairs: set<Pair>, from: set<Note>,
                notes: set<Note>, more: set<Note>)
    requires WellFormed(was) && WellFormed(now) && InRange(was, now, pairs)
    requires Acc(was, now, i, j, start, pairs, from, notes)
    ensures Acc(was, now, i, j, start, pairs, from + more, notes + more)
  {
    hide Explored, Needed, Noted;
  }

  lemma ChildFails(was: Graph, now: Graph, i: nat, j: nat, x: nat, y: nat)
    requires i < |was| && j < |now| && (x, y) in Children(was, now, i, j) && !Similar(was, now, x, y)
    ensures !Similar(was, now, i, j)
  {
    hide Local, Children;
    forall all | Simulation(was, now, all) && (i, j) in all
      ensures (x, y) in all
    {
    }
  }

  lemma LocalFails(was: Graph, now: Graph, i: nat, j: nat)
    requires WellFormed(was) && WellFormed(now) && i < |was| && j < |now| && !Local(was, now, i, j)
    ensures !Similar(was, now, i, j)
  {
    hide Local, Children;
  }

  lemma StructFails(was: Graph, now: Graph, i: nat, j: nat, k: nat)
    requires WellFormed(was) && WellFormed(now) && i < |was| && j < |now| && was[i].Struct? && now[j].Struct?
    requires var a, b := was[i].members, now[j].members;
      |b| < |a| || Moved(a, b) || (k < |a| && !SamePlace(a[k], b[k]))
    ensures !Similar(was, now, i, j)
  {
    hide Moved;
    LocalFails(was, now, i, j);
  }

  lemma MemberChild(was: Graph, now: Graph, i: nat, j: nat, k: nat)
    requires WellFormed(was) && WellFormed(now) && i < |was| && j < |now| && was[i].Struct? && now[j].Struct?
    requires k < |was[i].members| && k < |now[j].members|
    ensures var x, y := was[i].members[k].target, now[j].members[k].target;
      x < |was| && y < |now| && (x, y) in Children(was, now, i, j)
  {
  }

  lemma KindFails(was: Graph, now: Graph, i: nat, j: nat)
    requires WellFormed(was) && WellFormed(now) && i < |was| && j < |now| && !SameKind(was[i], now[j])
    ensures !Similar(was, now, i, j)
  {
    LocalFails(was, now, i, j);
    hide Similar, Simulation, Explored;
  }

  lemma LeafRule(was: Graph, now: Graph, i: nat, j: nat, pairs: set<Pair>, from: set<Note>)
    requires WellFormed(was) && WellFormed(now) && i < |was| && j < |now|
    requires was[i].Bytes? || was[i].Function? || was[i].Value?
    ensures was[i] == now[j] ==> Local(was, now, i, j) && Children(was, now, i, j) <= pairs
    ensures from + NotesAt(was, now, i, j) == from
    ensures was[i] != now[j] ==> !Similar(was, now, i, j)
  {
    if was[i] != now[j] {
      LocalFails(was, now, i, j);
    }
    hide Similar, Simulation, Explored;
  }

  /** The first `n` members are where they were, and their types compared. */
  ghost predicate KeptTo(a: seq<Member>, b: seq<Member>, n: nat, pairs: set<Pair>)
    requires n <= |a| <= |b|
  {
    forall l :: 0 <= l < n ==> SamePlace(a[l], b[l]) && (a[l].target, b[l].target) in pairs
  }

  lemma KeptNone(a: seq<Member>, b: seq<Member>, pairs: set<Pair>)
    requires |a| <= |b|
    ensures KeptTo(a, b, 0, pairs)
  {
  }

  lemma KeptNext(a: seq<Member>, b: seq<Member>, k: nat, pairs: set<Pair>, more: set<Pair>)
    requires k < |a| <= |b| && KeptTo(a, b, k, pairs) && pairs <= more
    requires SamePlace(a[k], b[k]) && (a[k].target, b[k].target) in more
    ensures KeptTo(a, b, k + 1, more)
  {
  }

  lemma RenamedNone(a: seq<Member>, b: seq<Member>, from: set<Note>)
    ensures from + RenamedIn(a, b, 0) == from
  {
  }

  lemma RenamedNext(a: seq<Member>, b: seq<Member>, k: nat, from: set<Note>)
    requires k < |a| && k < |b|
    ensures a[k].name != b[k].name ==> from + RenamedIn(a, b, k + 1) == from + RenamedIn(a, b, k) + {Renamed}
    ensures a[k].name == b[k].name ==> from + RenamedIn(a, b, k + 1) == from + RenamedIn(a, b, k)
  {
  }

  lemma MembersDone(was: Graph, now: Graph, i: nat, j: nat, pairs: set<Pair>, from: set<Note>)
    requires WellFormed(was) && WellFormed(now) && i < |was| && j < |now| && was[i].Struct? && now[j].Struct?
    requires var a, b := was[i].members, now[j].members;
      |a| <= |b| && !Moved(a, b) && KeptTo(a, b, |a|, pairs)
    ensures Local(was, now, i, j) && Children(was, now, i, j) <= pairs
    ensures var a, b := was[i].members, now[j].members;
      var renamed, grown := from + RenamedIn(a, b, |a|), was[i].size != now[j].size || |b| > |a|;
      && (grown ==> from + NotesAt(was, now, i, j) == renamed + {Grown})
      && (!grown ==> from + NotesAt(was, now, i, j) == renamed)
  {
    hide Moved, AnyRenamed;
  }

  /** All the parts compared: the pair itself is settled too. */
  lemma AccEnd(was: Graph, now: Graph, i: nat, j: nat, before: set<Pair>, pairs: set<Pair>, from: set<Note>,
               notes: set<Note>)
    requires WellFormed(was) && WellFormed(now) && i < |was| && j < |now| && InRange(was, now, pairs)
    requires (i, j) !in before && before + {(i, j)} <= pairs
    requires Local(was, now, i, j) && Children(was, now, i, j) <= pairs
    requires Acc(was, now, i, j, before + {(i, j)}, pairs, from + NotesAt(was, now, i, j), notes)
    ensures Explored(was, now, pairs - before, pairs) && Needed(was, now, i, j, pairs - before)
    ensures forall note :: note in notes <==> note in from || Noted(was, now, pairs - before, note)
  {
    hide Local, Children, NotesAt;
    var start := before + {(i, j)};
    assert pairs - before == (pairs - start) + {(i, j)};
    forall note
      ensures note in notes <==> note in from || Noted(was, now, pairs - before, note)
    {
      NotedUnion(was, now, pairs - start, {(i, j)}, pairs - before, note);
      assert Noted(was, now, {(i, j)}, note) <==> note in NotesAt(was, now, i, j);
    }
  }

  // ---------------------------------------------------------------------- the comparison

  /** A note that no simulation of the two types can do without. */
  ghost predicate Noticed(was: Graph, now: Graph, note: Note) {
    forall all :: Simulation(was, now, all) && (0, 0) in all ==> Noted(was, now, all, note)
  }

  /**
   `_fit`: whether some relation holding the two types is closed under the local rules, and the
   notes that every such relation has.
   */
  method Fit(was: Graph, now: Graph, notes: set<Note>) returns (ok: bool, noted: set<Note>)
    requires WellFormed(was) && WellFormed(now)
    ensures ok <==> Similar(was, now, 0, 0)
    ensures ok ==> forall note :: note in noted <==> note in notes || Noticed(was, now, note)
  {
    var comparison := new Comparison(was, now, notes);
    ok := comparison.Fits(0, 0);
    noted := comparison.notes;
    if ok {
      var compared := comparison.compared;
      assert compared - {} == compared;
      LeastSimulation(was, now, compared);
    }
  }

  lemma LeastSimulation(was: Graph, now: Graph, compared: set<Pair>)
    requires WellFormed(was) && WellFormed(now) && InRange(was, now, compared)
    requires (0, 0) in compared && Explored(was, now, compared, compared) && Needed(was, now, 0, 0, compared)
    ensures Simulation(was, now, compared) && Similar(was, now, 0, 0)
    ensures forall note :: Noted(was, now, compared, note) <==> Noticed(was, now, note)
  {
    hide Local, Children, NotesAt;
  }

  /** A simulation of the two types with nothing to note. */
  ghost predicate Plainly(was: Graph, now: Graph) {
    exists all :: Simulation(was, now, all) && (0, 0) in all && Quiet(was, now, all)
  }

  ghost predicate Quiet(was: Graph, now: Graph, all: set<Pair>)
    requires InRange(was, now, all)
  {
    forall note :: !Noted(was, now, all, note)
  }

  ghost predicate Same(a: Graph, b: Graph) {
    Plainly(a, b) && Plainly(b, a)
  }

  /** `_same_shape` */
  method SameShape(a: Graph, b: Graph) returns (same: bool)
    requires WellFormed(a) && WellFormed(b)
    ensures same <==> Same(a, b)
  {
    hide Plainly, Noticed, Similar;
    PlainlyMeans(a, b);
    PlainlyMeans(b, a);
    var fits, notes := Fit(a, b, {});
    if !fits {
      return false;
    }
    var back, more := Fit(b, a, notes);
    if !back {
      return false;
    }
    assert more == {} <==> Grown !in more && Renamed !in more by {
      assert forall note :: note in more ==> note == Grown || note == Renamed;
    }
    return more == {};
  }

  lemma PlainlyMeans(was: Graph, now: Graph)
    requires WellFormed(was) && WellFormed(now)
    ensures Plainly(was, now) <==> Similar(was, now, 0, 0) && !Noticed(was, now, Grown) && !Noticed(was, now, Renamed)
  {
    hide Local, Children, NotesAt;
    if Similar(was, now, 0, 0) && !Noticed(was, now, Grown) && !Noticed(was, now, Renamed) {
      var a :| Simulation(was, now, a) && (0, 0) in a && !Noted(was, now, a, Grown);
      var b :| Simulation(was, now, b) && (0, 0) in b && !Noted(was, now, b, Renamed);
      BothSimulate(was, now, a, b);
      forall note
        ensures !Noted(was, now, a * b, note)
      {
        assert note == Grown || note == Renamed;
      }
    }
  }

  /** Two simulations agree on a simulation. */
  lemma BothSimulate(was: Graph, now: Graph, a: set<Pair>, b: set<Pair>)
    requires Simulation(was, now, a) && Simulation(was, now, b)
    ensures Simulation(was, now, a * b)
  {
    hide Local, Children;
  }

  // ---------------------------------------------------------------------- composition

  function Compose(ab: set<Pair>, bc: set<Pair>): set<Pair> {
    set p, q | p in ab && q in bc && p.1 == q.0 :: (p.0, q.1)
  }

  /** Where nothing is renamed, what fits what fits, fits. */
  lemma {:induction false} FitsCompose(a: Graph, b: Graph, c: Graph, ab: set<Pair>, bc: set<Pair>)
    requires Simulation(a, b, ab) && Simulation(b, c, bc)
    requires !Noted(a, b, ab, Renamed) && !Noted(b, c, bc, Renamed)
    ensures Simulation(a, c, Compose(ab, bc)) && !Noted(a, c, Compose(ab, bc), Renamed)
    ensures !Noted(a, b, ab, Grown) && !Noted(b, c, bc, Grown) ==> !Noted(a, c, Compose(ab, bc), Grown)
  {
    hide Local, Children, NotesAt;
    var ac := Compose(ab, bc);
    forall r | r in ac
      ensures Local(a, c, r.0, r.1) && Children(a, c, r.0, r.1) <= ac
      ensures Renamed !in NotesAt(a, c, r.0, r.1)
      ensures !Noted(a, b, ab, Grown) && !Noted(b, c, bc, Grown) ==> Grown !in NotesAt(a, c, r.0, r.1)
    {
      var p, q :| p in ab && q in bc && p.1 == q.0 && r == (p.0, q.1);
      RuleComposes(a, b, c, p.0, p.1, q.1, ab, bc);
    }
  }

  lemma RuleComposes(a: Graph, b: Graph, c: Graph, i: nat, j: nat, k: nat, ab: set<Pair>, bc: set<Pair>)
    requires WellFormed(a) && WellFormed(b) && WellFormed(c) && i < |a| && j < |b| && k < |c|
    requires Local(a, b, i, j) && Local(b, c, j, k)
    requires Children(a, b, i, j) <= ab && Children(b, c, j, k) <= bc
    requires Renamed !in NotesAt(a, b, i, j) && Renamed !in NotesAt(b, c, j, k)
    ensures Local(a, c, i, k) && Children(a, c, i, k) <= Compose(ab, bc)
    ensures Renamed !in NotesAt(a, c, i, k)
    ensures Grown !in NotesAt(a, b, i, j) && Grown !in NotesAt(b, c, j, k) ==> Grown !in NotesAt(a, c, i, k)
  {
    match a[i]
    case Struct(_, x) => MembersCompose(a, b, c, i, j, k, ab, bc);
    case Mapping(_, _, _) =>
      assert (a[i].key, b[j].key) in Children(a, b, i, j) && (b[j].key, c[k].key) in Children(b, c, j, k);
      assert (a[i].value, b[j].value) in Children(a, b, i, j) && (b[j].value, c[k].value) in Children(b, c, j, k);
    case DynamicArray(_, _) =>
      assert (a[i].base, b[j].base) in Children(a, b, i, j) && (b[j].base, c[k].base) in Children(b, c, j, k);
    case Array(_, _, _) =>
      assert (a[i].base, b[j].base) in Children(a, b, i, j) && (b[j].base, c[k].base) in Children(b, c, j, k);
    case _ =>
  }

  lemma MembersCompose(a: Graph, b: Graph, c: Graph, i: nat, j: nat, k: nat, ab: set<Pair>, bc: set<Pair>)
    requires WellFormed(a) && WellFormed(b) && WellFormed(c) && i < |a| && j < |b| && k < |c|
    requires a[i].Struct? && Local(a, b, i, j) && Local(b, c, j, k)
    requires Children(a, b, i, j) <= ab && Children(b, c, j, k) <= bc
    requires Renamed !in NotesAt(a, b, i, j) && Renamed !in NotesAt(b, c, j, k)
    ensures Local(a, c, i, k) && Children(a, c, i, k) <= Compose(ab, bc)
    ensures Renamed !in NotesAt(a, c, i, k)
    ensures Grown !in NotesAt(a, b, i, j) && Grown !in NotesAt(b, c, j, k) ==> Grown !in NotesAt(a, c, i, k)
  {
    var x, y, z := a[i].members, b[j].members, c[k].members;
    forall n | 0 <= n < |x|
      ensures SamePlace(x[n], z[n]) && x[n].name == y[n].name == z[n].name
      ensures (x[n].target, z[n].target) in Compose(ab, bc)
    {
      MemberChild(a, b, i, j, n);
      MemberChild(b, c, j, k, n);
      assert (x[n].target, y[n].target) in ab && (y[n].target, z[n].target) in bc;
    }
    NotMoved(x, y, z);
  }

  lemma NotMoved(x: seq<Member>, y: seq<Member>, z: seq<Member>)
    requires |x| <= |y| && !Moved(x, y) && !Moved(y, z)
    requires forall n :: 0 <= n < |x| ==> x[n].name == y[n].name
    ensures !Moved(x, z)
  {
    forall n | 0 <= n < |z| && WasAt(x, z[n].name) >= 0
      ensures SamePlace(x[WasAt(x, z[n].name)], z[n])
    {
      var w, v := WasAt(x, z[n].name), WasAt(y, z[n].name);
      assert y[w].name == z[n].name;
      assert WasAt(x, y[v].name) == w;
    }
  }

  lemma SameSymmetric(a: Graph, b: Graph)
    ensures Same(a, b) <==> Same(b, a)
  {
  }

  lemma PlainlyComposes(a: Graph, b: Graph, c: Graph)
    requires Plainly(a, b) && Plainly(b, c)
    ensures Plainly(a, c)
  {
    hide Local, Children, NotesAt;
    var ab :| Simulation(a, b, ab) && (0, 0) in ab && Quiet(a, b, ab);
    var bc :| Simulation(b, c, bc) && (0, 0) in bc && Quiet(b, c, bc);
    FitsCompose(a, b, c, ab, bc);
    assert (0, 0) in Compose(ab, bc);
    forall note
      ensures !Noted(a, c, Compose(ab, bc), note)
    {
      assert note == Grown || note == Renamed;
    }
  }

  /** The same shape, however the types share what they are made of, is one relation of equality. */
  lemma {:induction false} SameTransitive(a: Graph, b: Graph, c: Graph)
    requires Same(a, b) && Same(b, c)
    ensures Same(a, c)
  {
    PlainlyComposes(a, b, c);
    PlainlyComposes(c, b, a);
  }

  /** No struct has one name at two places, as solc makes sure. */
  ghost predicate Unambiguous(g: Graph) {
    forall i :: 0 <= i < |g| && g[i].Struct? ==> !Moved(g[i].members, g[i].members)
  }

  lemma {:induction false} SameReflexive(g: Graph)
    requires WellFormed(g) && Unambiguous(g)
    ensures Same(g, g)
  {
    var all := set i | i in Below(|g|) :: (i, i);
    forall p | p in all
      ensures Local(g, g, p.0, p.1) && Children(g, g, p.0, p.1) <= all
      ensures NotesAt(g, g, p.0, p.1) == {}
    {
      assert Closed(g[p.0], |g|);
    }
    assert (0, 0) in all;
    assert Simulation(g, g, all) && Quiet(g, g, all);
  }
}
