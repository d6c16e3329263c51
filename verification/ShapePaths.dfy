/**
 What fitting means for stored data (src/josuke/check.py, `_fit`): every way into the old type leads,
 in the new one, to the same place in storage and to a type that reads it the same. Places follow
 "Layout of State Variables in Storage" in the Solidity documentation.
 */
module ShapePaths {
  import opened Shapes
  import opened Wrappers

  /**
   A step into a type: a struct member by position or by name, an element, a mapping's entry; or to where an
   array's elements start, and to the type of a mapping's keys, which are hashed with the mapping's place.
   */
  datatype Step =
    | Field(member: nat)
    | Named(name: string)
    | At(index: nat)
    | Key(key: int)
    | Elements
    | Keys

  /** How a mapping's key is laid out before it is hashed with the mapping's slot. */
  datatype KeyForm = Raw | Word(size: nat, kind: string) | EnumWord(size: nat) | Other

  /** A place in storage, relative to the slot a hash gives; hashes are kept symbolic. */
  datatype Base = Storage | DataOf(array: Place) | EntryOf(map_: Place, form: KeyForm, key: int)
  datatype Place = Place(base: Base, slot: int, offset: nat)

  function FormOf(node: Node): KeyForm {
    match node
    case Bytes(_) => Raw
    case Value(size, kind) => Word(size, kind)
    case Enum(size, _) => EnumWord(size)
    case _ => Other
  }

  /** Element `k` of elements of `size` bytes: packed while they share a slot, else whole slots each. */
  function Element(start: Place, size: nat, k: nat): Place {
    if 1 <= size <= 32 then
      var perSlot := 32 / size;
      Place(start.base, start.slot + k / perSlot, k % perSlot * size)
    else
      Place(start.base, start.slot + k * ((size + 31) / 32), 0)
  }

  /** The first member of the name. */
  function FindName(members: seq<Member>, name: string): (k: nat)
    ensures k <= |members|
    ensures k < |members| ==> members[k].name == name
    ensures forall n :: 0 <= n < k ==> members[n].name != name
  {
    if members == [] || members[0].name == name then 0 else 1 + FindName(members[1..], name)
  }

  function Inside(m: Member, place: Place): Place {
    Place(place.base, place.slot + m.slot, m.offset)
  }

  /** Where a step leads from a type at `place`, and the type found there; None if there is no such step. */
  function Enter(g: Graph, i: nat, place: Place, step: Step): (r: Option<(Place, nat)>)
    requires i < |g| && Closed(g[i], |g|)
    ensures r.Some? ==> r.value.1 < |g|
  {
    match (g[i], step)
    case (Struct(_, members), Field(k)) =>
      if k < |members| then Some((Inside(members[k], place), members[k].target)) else None
    case (Struct(_, members), Named(name)) =>
      var k := FindName(members, name);
      if k < |members| then Some((Inside(members[k], place), members[k].target)) else None
    case (Array(_, base, length), At(k)) =>
      if k < length then Some((Element(place, g[base].size, k), base)) else None
    case (DynamicArray(_, base), At(k)) =>
      Some((Element(Place(DataOf(place), 0, 0), g[base].size, k), base))
    case (Array(_, base, _), Elements) => Some((place, base))
    case (DynamicArray(_, base), Elements) => Some((Place(DataOf(place), 0, 0), base))
    case (Mapping(_, key, value), Key(x)) =>
      Some((Place(EntryOf(place, FormOf(g[key]), x), 0, 0), value))
    case (Mapping(_, key, _), Keys) => Some((place, key))
    case _ => None
  }

  function Access(g: Graph, i: nat, place: Place, path: seq<Step>): (r: Option<(Place, nat)>)
    requires i < |g| && forall n :: 0 <= n < |g| ==> Closed(g[n], |g|)
    ensures r.Some? ==> r.value.1 < |g|
    decreases |path|
  {
    if path == [] then Some((place, i)) else
    match Enter(g, i, place, path[0])
    case None => None
    case Some(next) => Access(g, next.1, next.0, path[1..])
  }

  /** What is stored reads the same as either type. */
  predicate ReadsAlike(a: Node, b: Node) {
    match (a, b)
    case (Enum(s, x), Enum(t, y)) => s == t && |x| <= |y| && forall k :: 0 <= k < |x| ==> x[k] == y[k]
    case (Array(_, _, m), Array(_, _, n)) => m <= n
    case (Struct(_, x), Struct(_, y)) => |x| <= |y|
    case (Mapping(_, _, _), Mapping(_, _, _)) => true
    case (DynamicArray(_, _), DynamicArray(_, _)) => true
    case _ => a == b
  }

  lemma SimilarReadsAlike(was: Graph, now: Graph, all: set<Pair>, i: nat, j: nat)
    requires Simulation(was, now, all) && (i, j) in all
    ensures ReadsAlike(was[i], now[j]) && FormOf(was[i]) == FormOf(now[j])
  {
    assert Local(was, now, i, j);
    hide Children, MembersKept;
    if was[i].Struct? {
      MembersGrow(was, now, i, j);
    }
  }

  lemma MembersGrow(was: Graph, now: Graph, i: nat, j: nat)
    requires i < |was| && j < |now| && Closed(was[i], |was|) && Closed(now[j], |now|) && was[i].Struct?
    requires Local(was, now, i, j)
    ensures now[j].Struct? && |was[i].members| <= |now[j].members|
  {
  }

  /** Whether names keep their members. */
  ghost predicate NamesKept(was: Graph, now: Graph, all: set<Pair>)
    requires InRange(was, now, all)
  {
    !Noted(was, now, all, Renamed)
  }

  lemma FieldKept(was: Graph, now: Graph, all: set<Pair>, i: nat, j: nat, k: nat)
    requires Simulation(was, now, all) && (i, j) in all && was[i].Struct? && k < |was[i].members|
    ensures now[j].Struct? && k < |now[j].members| && SamePlace(was[i].members[k], now[j].members[k])
    ensures (was[i].members[k].target, now[j].members[k].target) in all
  {
    assert Local(was, now, i, j) && Children(was, now, i, j) <= all;
    MemberChild(was, now, i, j, k);
  }

  lemma NameKept(was: Graph, now: Graph, all: set<Pair>, i: nat, j: nat, name: string)
    requires Simulation(was, now, all) && NamesKept(was, now, all) && (i, j) in all && was[i].Struct?
    requires FindName(was[i].members, name) < |was[i].members|
    ensures now[j].Struct? && FindName(now[j].members, name) == FindName(was[i].members, name)
  {
    var a := was[i].members;
    var k := FindName(a, name);
    FieldKept(was, now, all, i, j, k);
    var b := now[j].members;
    assert Renamed !in NotesAt(was, now, i, j);
    assert forall n :: 0 <= n <= k ==> a[n].name == b[n].name;
    assert b[FindName(b, name)].name == name;
  }

  /** One step leads to the same place, and to types that fit in turn. */
  lemma StepKept(was: Graph, now: Graph, all: set<Pair>, i: nat, j: nat, place: Place, step: Step)
    requires Simulation(was, now, all) && (i, j) in all && (step.Named? ==> NamesKept(was, now, all))
    requires Enter(was, i, place, step).Some?
    ensures Enter(now, j, place, step).Some?
    ensures Enter(now, j, place, step).value.0 == Enter(was, i, place, step).value.0
    ensures (Enter(was, i, place, step).value.1, Enter(now, j, place, step).value.1) in all
  {
    match was[i]
    case Struct(_, members) =>
      var k := if step.Field? then step.member else FindName(members, step.name);
      FieldKept(was, now, all, i, j, k);
      if step.Named? {
        NameKept(was, now, all, i, j, step.name);
      }
    case Mapping(_, key, value) =>
      assert Local(was, now, i, j) && Children(was, now, i, j) <= all;
      assert (key, now[j].key) in all && (value, now[j].value) in all;
      SimilarReadsAlike(was, now, all, key, now[j].key);
    case Array(_, base, _) =>
      assert Local(was, now, i, j) && Children(was, now, i, j) <= all;
      assert (base, now[j].base) in all;
    case DynamicArray(_, base) =>
      assert Local(was, now, i, j) && Children(was, now, i, j) <= all;
      assert (base, now[j].base) in all;
    case _ =>
  }

  lemma {:induction false} PathKept(was: Graph, now: Graph, all: set<Pair>, i: nat, j: nat, place: Place,
                                    path: seq<Step>)
    requires Simulation(was, now, all) && (i, j) in all
    requires (NamesKept(was, now, all) || forall s :: s in path ==> !s.Named?)
    requires Access(was, i, place, path).Some?
    ensures Access(now, j, place, path).Some?
    ensures Access(now, j, place, path).value.0 == Access(was, i, place, path).value.0
    ensures (Access(was, i, place, path).value.1, Access(now, j, place, path).value.1) in all
    decreases |path|
  {
    hide Enter, NamesKept, Explored, Children, Local;
    if path != [] {
      StepKept(was, now, all, i, j, place, path[0]);
      var next := Enter(was, i, place, path[0]).value;
      PathKept(was, now, all, next.1, Enter(now, j, place, path[0]).value.1, next.0, path[1..]);
    }
  }

  /**
   If the comparison succeeds, every path valid in the old type is valid in the new one, and leads to
   the same place and to a type that reads it alike; by member position always, by name if no rename
   was noted.
   */
  lemma {:induction false} FitKeepsPaths(was: Graph, now: Graph, place: Place, path: seq<Step>)
    requires WellFormed(was) && WellFormed(now) && Similar(was, now, 0, 0)
    requires !Noticed(was, now, Renamed) || forall s :: s in path ==> !s.Named?
    requires Access(was, 0, place, path).Some?
    ensures Access(now, 0, place, path).Some?
    ensures var (p, i) := Access(was, 0, place, path).value;
      var (q, j) := Access(now, 0, place, path).value;
      p == q && ReadsAlike(was[i], now[j])
  {
    hide Access, Enter, ReadsAlike, Explored, Local, Children, NotesAt;
    var all :| Simulation(was, now, all) && (0, 0) in all && (!Noticed(was, now, Renamed) ==> NamesKept(was, now, all));
    PathKept(was, now, all, 0, 0, place, path);
    SimilarReadsAlike(was, now, all, Access(was, 0, place, path).value.1, Access(now, 0, place, path).value.1);
  }

  // ---------------------------------------------------------------------- what paths say of the types

  /** Arrays are no smaller, and their elements of one size. */
  predicate SizesKept(was: Graph, now: Graph, i: nat, j: nat)
    requires i < |was| && j < |now| && Closed(was[i], |was|) && Closed(now[j], |now|)
  {
    match (was[i], now[j])
    case (Array(s, x, _), Array(t, y, _)) => s <= t && was[x].size == now[y].size
    case (DynamicArray(s, x), DynamicArray(t, y)) => s <= t && was[x].size == now[y].size
    case _ => true
  }

  /** No member of the new struct has the name of an old one at another place, the last if there are several. */
  predicate NoneMoved(a: Node, b: Node) {
    a.Struct? && b.Struct? ==>
      forall k, l :: 0 <= k < |a.members| && 0 <= l < |b.members| && LastNamed(a.members, k)
                     && b.members[l].name == a.members[k].name ==>
        b.members[l].slot == a.members[k].slot && b.members[l].offset == a.members[k].offset
  }

  predicate LastNamed(members: seq<Member>, k: nat)
    requires k < |members|
  {
    forall n :: k < n < |members| ==> members[n].name != members[k].name
  }

  /** What is found is read alike, arrays are no smaller and their elements as far apart, and no name has moved. */
  predicate KeptAt(was: Graph, now: Graph, i: nat, j: nat)
    requires i < |was| && j < |now| && Closed(was[i], |was|) && Closed(now[j], |now|)
  {
    ReadsAlike(was[i], now[j]) && SizesKept(was, now, i, j) && NoneMoved(was[i], now[j])
  }

  predicate ByPosition(path: seq<Step>) {
    forall k :: 0 <= k < |path| ==> !path[k].Named?
  }

  /** A path into the old type by position leads, in the new one, to the same place and to what is kept there. */
  predicate PathKeeps(was: Graph, now: Graph, place: Place, path: seq<Step>)
    requires WellFormedFrom(was) && WellFormedFrom(now)
  {
    ByPosition(path) && Access(was, 0, place, path).Some? ==>
      && Access(now, 0, place, path).Some?
      && Access(now, 0, place, path).value.0 == Access(was, 0, place, path).value.0
      && KeptAt(was, now, Access(was, 0, place, path).value.1, Access(now, 0, place, path).value.1)
  }

  predicate WellFormedFrom(g: Graph) {
    g != [] && forall i :: 0 <= i < |g| ==> Closed(g[i], |g|)
  }

  lemma {:induction false} WasAtLast(members: seq<Member>, k: nat)
    requires k < |members| && LastNamed(members, k)
    ensures WasAt(members, members[k].name) == k
    decreases |members|
  {
    var n := |members| - 1;
    if k < n {
      assert members[..n][k] == members[k];
      WasAtLast(members[..n], k);
    }
  }

  lemma {:induction false} WasAtIsLast(members: seq<Member>, name: string)
    ensures WasAt(members, name) >= 0 ==> LastNamed(members, WasAt(members, name))
    decreases |members|
  {
    if members != [] && members[|members| - 1].name != name {
      WasAtIsLast(members[..|members| - 1], name);
    }
  }

  lemma MovedMeans(a: Node, b: Node)
    requires a.Struct? && b.Struct?
    ensures NoneMoved(a, b) <==> !Moved(a.members, b.members)
  {
    if NoneMoved(a, b) {
      forall l | 0 <= l < |b.members| && WasAt(a.members, b.members[l].name) >= 0
        ensures SamePlace(a.members[WasAt(a.members, b.members[l].name)], b.members[l])
      {
        WasAtIsLast(a.members, b.members[l].name);
      }
    }
    if !Moved(a.members, b.members) {
      forall k, l | 0 <= k < |a.members| && 0 <= l < |b.members| && LastNamed(a.members, k)
                    && b.members[l].name == a.members[k].name
        ensures b.members[l].slot == a.members[k].slot && b.members[l].offset == a.members[k].offset
      {
        WasAtLast(a.members, k);
        assert WasAt(a.members, b.members[l].name) == k;
      }
    }
  }

  /** The pair of types some path by position leads to. */
  ghost predicate Met(was: Graph, now: Graph, place: Place, i: nat, j: nat)
    requires WellFormedFrom(was) && WellFormedFrom(now)
  {
    exists path :: MetBy(was, now, place, i, j, path)
  }

  ghost predicate MetBy(was: Graph, now: Graph, place: Place, i: nat, j: nat, path: seq<Step>)
    requires WellFormedFrom(was) && WellFormedFrom(now)
  {
    && ByPosition(path) && Access(was, 0, place, path).Some? && Access(now, 0, place, path).Some?
    && Access(was, 0, place, path).value.1 == i && Access(now, 0, place, path).value.1 == j
  }

  ghost function AllMet(was: Graph, now: Graph, place: Place): set<Pair>
    requires WellFormedFrom(was) && WellFormedFrom(now)
  {
    set p | p in AllPairs(was, now) && Met(was, now, place, p.0, p.1)
  }

  lemma {:induction false} AccessSnoc(g: Graph, i: nat, place: Place, path: seq<Step>, step: Step)
    requires i < |g| && forall n :: 0 <= n < |g| ==> Closed(g[n], |g|)
    ensures Access(g, i, place, path + [step]) ==
      match Access(g, i, place, path)
      case None => None
      case Some(at) => Enter(g, at.1, at.0, step)
    decreases |path|
  {
    hide Enter;
    if path == [] {
      assert [] + [step] == [step] && [step][1..] == [];
    } else {
      assert (path + [step])[1..] == path[1..] + [step];
      match Enter(g, i, place, path[0])
      case None =>
      case Some(next) => AccessSnoc(g, next.1, next.0, path[1..], step);
    }
  }

  /** One step on from a pair that is met, by position, leads to a pair that is met, at one place. */
  lemma StepMet(was: Graph, now: Graph, place: Place, i: nat, j: nat, path: seq<Step>, step: Step)
    requires WellFormedFrom(was) && WellFormedFrom(now) && MetBy(was, now, place, i, j, path) && !step.Named?
    requires PathKeeps(was, now, place, path) && PathKeeps(was, now, place, path + [step])
    requires var at := Access(was, 0, place, path).value.0; Enter(was, i, at, step).Some?
    ensures var at := Access(was, 0, place, path).value.0;
      var (p, x) := Enter(was, i, at, step).value;
      && Enter(now, j, at, step).Some? && Enter(now, j, at, step).value.0 == p
      && Met(was, now, place, x, Enter(now, j, at, step).value.1)
  {
    AccessSnoc(was, 0, place, path, step);
    AccessSnoc(now, 0, place, path, step);
    hide Access, Enter, KeptAt;
    var at := Access(was, 0, place, path).value.0;
    assert MetBy(was, now, place, Enter(was, i, at, step).value.1, Enter(now, j, at, step).value.1, path + [step]);
  }

  /** A pair that is met meets the local rules, and what its types are made of is met in turn. */
  lemma MetSimilar(was: Graph, now: Graph, place: Place, i: nat, j: nat)
    requires WellFormed(was) && WellFormed(now) && i < |was| && j < |now| && Met(was, now, place, i, j)
    requires forall path :: PathKeeps(was, now, place, path)
    ensures Local(was, now, i, j)
    ensures forall p :: p in Children(was, now, i, j) ==> p.0 < |was| && p.1 < |now| && Met(was, now, place, p.0, p.1)
  {
    var path :| MetBy(was, now, place, i, j, path);
    assert PathKeeps(was, now, place, path) && KeptAt(was, now, i, j);
    var at := Access(was, 0, place, path).value.0;
    hide Access, Met, MetBy, PathKeeps, Moved, NoneMoved;
    match was[i]
    case Struct(_, a) =>
      MovedMeans(was[i], now[j]);
      forall k | 0 <= k < |a|
        ensures SamePlace(a[k], now[j].members[k])
        ensures Met(was, now, place, a[k].target, now[j].members[k].target)
      {
        StepMet(was, now, place, i, j, path, Field(k));
      }
    case Mapping(_, _, _) =>
      StepMet(was, now, place, i, j, path, Keys);
      StepMet(was, now, place, i, j, path, Key(0));
    case Array(_, _, _) =>
      StepMet(was, now, place, i, j, path, Elements);
    case DynamicArray(_, _) =>
      StepMet(was, now, place, i, j, path, Elements);
    case Enum(_, names) =>
      assert names == now[j].names[..|names|];
    case _ =>
  }

  lemma MetSimulation(was: Graph, now: Graph, place: Place)
    requires WellFormed(was) && WellFormed(now)
    requires forall path :: PathKeeps(was, now, place, path)
    ensures Simulation(was, now, AllMet(was, now, place)) && (0, 0) in AllMet(was, now, place)
  {
    var all := AllMet(was, now, place);
    assert MetBy(was, now, place, 0, 0, []);
    assert (0, 0) in AllPairs(was, now);
    hide Local, Children, Access, Met, MetBy, PathKeeps;
    forall p | p in all
      ensures Local(was, now, p.0, p.1) && Children(was, now, p.0, p.1) <= all
    {
      MetSimilar(was, now, place, p.0, p.1);
    }
  }

  /** Where a simulation holds a pair, the pair is read alike and keeps its sizes and names. */
  lemma SimilarKept(was: Graph, now: Graph, all: set<Pair>, i: nat, j: nat)
    requires Simulation(was, now, all) && (i, j) in all
    ensures KeptAt(was, now, i, j)
  {
    SimilarReadsAlike(was, now, all, i, j);
    assert Local(was, now, i, j);
    hide Moved;
    if was[i].Struct? {
      MovedMeans(was[i], now[j]);
    }
  }

  /**
   The comparison succeeds exactly if every path into the old type by position, wherever it starts, leads in
   the new one to the same place, where what is found is read alike, arrays are no smaller and their elements
   as far apart, and no name has moved.
   */
  lemma {:induction false} FitsExactly(was: Graph, now: Graph, place: Place)
    requires WellFormed(was) && WellFormed(now)
    ensures Similar(was, now, 0, 0) <==> forall path :: PathKeeps(was, now, place, path)
  {
    hide Local, Children, KeptAt, Access, NotesAt, Enter;
    if Similar(was, now, 0, 0) {
      var all :| Simulation(was, now, all) && (0, 0) in all;
      forall path
        ensures PathKeeps(was, now, place, path)
      {
        if ByPosition(path) && Access(was, 0, place, path).Some? {
          PathKept(was, now, all, 0, 0, place, path);
          SimilarKept(was, now, all, Access(was, 0, place, path).value.1, Access(now, 0, place, path).value.1);
        }
      }
    }
    if forall path :: PathKeeps(was, now, place, path) {
      MetSimulation(was, now, place);
    }
  }

  // ---------------------------------------------------------------------- notes

  /** The new type has more to it: a longer array or enum, or a struct of more members or another size. */
  predicate Grew(a: Node, b: Node) {
    match (a, b)
    case (Array(_, _, m), Array(_, _, n)) => n > m
    case (Enum(_, x), Enum(_, y)) => |y| > |x|
    case (Struct(s, x), Struct(t, y)) => s != t || |y| > |x|
    case _ => false
  }

  /** A member of the old struct has another name in the new one. */
  predicate HasRename(a: Node, b: Node) {
    a.Struct? && b.Struct?
    && exists k :: 0 <= k < |a.members| && k < |b.members| && a.members[k].name != b.members[k].name
  }

  predicate Calls(note: Note, a: Node, b: Node) {
    if note == Grown then Grew(a, b) else HasRename(a, b)
  }

  lemma NotesMean(was: Graph, now: Graph, i: nat, j: nat, note: Note)
    requires i < |was| && j < |now| && ReadsAlike(was[i], now[j])
    ensures note in NotesAt(was, now, i, j) <==> Calls(note, was[i], now[j])
  {
  }

  /** A pair met by a path at which there is something to note. */
  ghost predicate NotedOnPath(was: Graph, now: Graph, place: Place, note: Note)
    requires WellFormedFrom(was) && WellFormedFrom(now)
  {
    exists i: nat, j: nat :: i < |was| && j < |now| && Met(was, now, place, i, j) && Calls(note, was[i], now[j])
  }

  /** Growth and renames are noted exactly where some path into the old type meets them. */
  lemma {:induction false} NotesExactly(was: Graph, now: Graph, place: Place, note: Note)
    requires WellFormed(was) && WellFormed(now) && Similar(was, now, 0, 0)
    ensures Noticed(was, now, note) <==> NotedOnPath(was, now, place, note)
  {
    FitsExactly(was, now, place);
    MetSimulation(was, now, place);
    hide Local, Children, Access, NotesAt, Enter, Calls, Met, PathKeeps, ReadsAlike, KeptAt;
    var met := AllMet(was, now, place);
    if Noticed(was, now, note) {
      assert Noted(was, now, met, note);
      var p :| p in met && note in NotesAt(was, now, p.0, p.1);
      SimilarReadsAlike(was, now, met, p.0, p.1);
      NotesMean(was, now, p.0, p.1, note);
    }
    if NotedOnPath(was, now, place, note) {
      var i: nat, j: nat :| i < |was| && j < |now| && Met(was, now, place, i, j) && Calls(note, was[i], now[j]);
      forall all | Simulation(was, now, all) && (0, 0) in all
        ensures Noted(was, now, all, note)
      {
        MetInAll(was, now, place, all, i, j);
        SimilarReadsAlike(was, now, all, i, j);
        NotesMean(was, now, i, j, note);
      }
    }
  }

  lemma MetInAll(was: Graph, now: Graph, place: Place, all: set<Pair>, i: nat, j: nat)
    requires WellFormed(was) && WellFormed(now) && Simulation(was, now, all) && (0, 0) in all
    requires Met(was, now, place, i, j)
    ensures (i, j) in all
  {
    hide Local, Children, Access, NotesAt, Enter;
    var path :| MetBy(was, now, place, i, j, path);
    PathKept(was, now, all, 0, 0, place, path);
  }

  /** Types have the same shape exactly if every path keeps both ways, and meets nothing longer or renamed. */
  lemma {:induction false} SameExactly(a: Graph, b: Graph, place: Place)
    requires WellFormed(a) && WellFormed(b)
    ensures Same(a, b) <==> KeepsQuietly(a, b, place) && KeepsQuietly(b, a, place)
  {
    QuietlyMeans(a, b, place);
    QuietlyMeans(b, a, place);
    hide Plainly, KeepsQuietly;
  }

  ghost predicate KeepsQuietly(was: Graph, now: Graph, place: Place)
    requires WellFormedFrom(was) && WellFormedFrom(now)
  {
    && (forall path :: PathKeeps(was, now, place, path))
    && !NotedOnPath(was, now, place, Grown) && !NotedOnPath(was, now, place, Renamed)
  }

  lemma QuietlyMeans(was: Graph, now: Graph, place: Place)
    requires WellFormed(was) && WellFormed(now)
    ensures Plainly(was, now) <==> KeepsQuietly(was, now, place)
  {
    FitsExactly(was, now, place);
    PlainlyMeans(was, now);
    hide Similar, PathKeeps, Noticed, NotedOnPath, Plainly;
    if Similar(was, now, 0, 0) {
      NotesExactly(was, now, place, Grown);
      NotesExactly(was, now, place, Renamed);
    }
  }
}
