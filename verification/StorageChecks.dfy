/**
 Checking declared storage (src/josuke/check.py, `_check_storage`, `_compare_storage`): facets that
 share a proxy's storage must agree about it, and storage declared before must read back the same.
 */
module StorageChecks {
  import opened Shapes
  import opened ShapePaths
  import opened Sorting
  import opened Wrappers

  /** A declared variable over the bytes `start`..`end - 1`; sources are numbered in the order of their names. */
  datatype Decl = Decl(start: nat, end: nat, source: int, name: string, shape: Graph)

  ghost predicate DeclOk(d: Decl) {
    d.start <= d.end && WellFormed(d.shape)
  }

  function DeclKey(d: Decl): Key {
    (d.start, d.end, d.source)
  }

  predicate Overlap(a: Decl, b: Decl) {
    b.start < a.end && a.start < b.end
  }

  ghost predicate Identical(a: Decl, b: Decl) {
    (a.start, a.end, a.name) == (b.start, b.end, b.name) && Same(a.shape, b.shape)
  }

  /** Two sources declare different variables over the same bytes. */
  ghost predicate Conflict(a: Decl, b: Decl) {
    a.source != b.source && Overlap(a, b) && !Identical(a, b)
  }

  lemma ConflictSymmetric(a: Decl, b: Decl)
    ensures Conflict(a, b) <==> Conflict(b, a)
  {
    SameSymmetric(a.shape, b.shape);
    hide Same;
  }

  /** In sorted declarations a later one overlaps exactly when it starts before the earlier one ends. */
  lemma {:induction false} SortedOverlap(declared: seq<Decl>, i: nat, j: nat)
    requires Ordered(declared, DeclKey) && i < j < |declared|
    requires declared[i].start <= declared[i].end && declared[j].start <= declared[j].end
    ensures Overlap(declared[i], declared[j]) <==> declared[j].start < declared[i].end
    ensures forall k :: j <= k < |declared| ==> declared[j].start <= declared[k].start
  {
    assert Leq(DeclKey(declared[i]), DeclKey(declared[j]));
    forall k | j < k < |declared|
      ensures declared[j].start <= declared[k].start
    {
      assert Leq(DeclKey(declared[j]), DeclKey(declared[k]));
    }
  }

  /** Every pair reported is a conflict of two declarations, and every conflict up to `i`, `j` is reported. */
  ghost predicate ReportedTo(declared: seq<Decl>, failures: seq<(Decl, Decl)>, i: nat, j: nat)
    requires i <= |declared| && j <= |declared|
  {
    && (forall f :: f in failures ==> Conflict(f.0, f.1) && f.0 in declared && f.1 in declared)
    && (forall k, l :: 0 <= k < l < |declared| && (k < i || (k == i && l < j)) && Conflict(declared[k], declared[l])
          ==> (declared[k], declared[l]) in failures)
  }

  /**
   `_check_storage`: the sweep over sorted declarations, each compared with those after it until one
   starts past its end, reports a failure exactly when two sources conflict.
   */
  method CheckStorage(layouts: seq<Decl>) returns (failures: seq<(Decl, Decl)>)
    requires forall d :: d in layouts ==> DeclOk(d)
    ensures forall f :: f in failures ==> Conflict(f.0, f.1) && f.0 in layouts && f.1 in layouts
    ensures failures == [] <==> forall a, b :: a in layouts && b in layouts ==> !Conflict(a, b)
    ensures forall a, b :: a in layouts && b in layouts && Conflict(a, b) ==> (a, b) in failures || (b, a) in failures
  {
    var declared := Sort(layouts, DeclKey);
    SortProperties(layouts, DeclKey);
    SameMembers(layouts, declared);
    failures := [];
    hide Conflict, DeclOk, Sort;
    for i := 0 to |declared|
      invariant ReportedTo(declared, failures, i, 0)
    {
      failures := Sweep(declared, i, failures);
    }
    ReportedAll(declared, failures);
  }

  /** One declaration against those after it, until one starts past its end. */
  method Sweep(declared: seq<Decl>, i: nat, before: seq<(Decl, Decl)>) returns (failures: seq<(Decl, Decl)>)
    requires i < |declared| && Ordered(declared, DeclKey) && forall d :: d in declared ==> DeclOk(d)
    requires ReportedTo(declared, before, i, 0)
    ensures ReportedTo(declared, failures, i + 1, 0)
  {
    failures := before;
    var a := declared[i];
    var j := i + 1;
    ReportedStart(declared, failures, i);
    hide Conflict, Same, Identical, WellFormed, ReportedTo, Ordered;
    assert DeclOk(a);
    while j < |declared| && declared[j].start < a.end
      invariant i < j <= |declared| && ReportedTo(declared, failures, i, j)
    {
      var b := declared[j];
      assert DeclOk(b);
      var identical := false;
      if a.source != b.source && (a.start, a.end, a.name) == (b.start, b.end, b.name) {
        identical := SameShape(a.shape, b.shape);
      }
      SortedOverlap(declared, i, j);
      ConflictMeans(a, b);
      ReportedNext(declared, failures, i, j);
      if a.source != b.source && !identical {
        failures := failures + [(a, b)];
      }
      j := j + 1;
    }
    ReportedBreak(declared, failures, i, j);
  }

  lemma ReportedNext(declared: seq<Decl>, failures: seq<(Decl, Decl)>, i: nat, j: nat)
    requires i < j < |declared| && ReportedTo(declared, failures, i, j)
    ensures Conflict(declared[i], declared[j]) ==>
            ReportedTo(declared, failures + [(declared[i], declared[j])], i, j + 1)
    ensures !Conflict(declared[i], declared[j]) ==> ReportedTo(declared, failures, i, j + 1)
  {
    hide Conflict;
  }

  lemma SameMembers(layouts: seq<Decl>, declared: seq<Decl>)
    requires multiset(declared) == multiset(layouts)
    ensures forall d :: d in declared <==> d in layouts
  {
    assert forall d :: d in declared <==> d in multiset(declared);
    assert forall d :: d in layouts <==> d in multiset(layouts);
  }

  lemma ConflictMeans(a: Decl, b: Decl)
    ensures Conflict(a, b) <==>
      && a.source != b.source && Overlap(a, b)
      && !((a.start, a.end, a.name) == (b.start, b.end, b.name) && Same(a.shape, b.shape))
  {
  }

  lemma ReportedStart(declared: seq<Decl>, failures: seq<(Decl, Decl)>, i: nat)
    requires i < |declared| && ReportedTo(declared, failures, i, 0)
    ensures ReportedTo(declared, failures, i, i + 1)
  {
    hide Conflict;
  }

  /** Nothing past the first declaration that starts past the end of `declared[i]` overlaps it. */
  lemma ReportedBreak(declared: seq<Decl>, failures: seq<(Decl, Decl)>, i: nat, j: nat)
    requires i < j <= |declared| && Ordered(declared, DeclKey) && ReportedTo(declared, failures, i, j)
    requires forall d :: d in declared ==> d.start <= d.end
    requires j < |declared| ==> declared[j].start >= declared[i].end
    ensures ReportedTo(declared, failures, i + 1, 0)
  {
    forall l | j <= l < |declared|
      ensures !Conflict(declared[i], declared[l])
    {
      SortedOverlap(declared, i, j);
      SortedOverlap(declared, i, l);
    }
    hide Conflict;
  }

  lemma ReportedAll(declared: seq<Decl>, failures: seq<(Decl, Decl)>)
    requires ReportedTo(declared, failures, |declared|, 0)
    ensures failures == [] <==> forall a, b :: a in declared && b in declared ==> !Conflict(a, b)
    ensures forall a, b :: a in declared && b in declared && Conflict(a, b) ==> (a, b) in failures || (b, a) in failures
  {
    forall a, b | a in declared && b in declared && Conflict(a, b)
      ensures (a, b) in failures || (b, a) in failures
    {
      var k :| 0 <= k < |declared| && declared[k] == a;
      var l :| 0 <= l < |declared| && declared[l] == b;
      ConflictSymmetric(a, b);
      assert k != l;
      hide Conflict;
    }
    if failures == [] {
      forall a, b | a in declared && b in declared
        ensures !Conflict(a, b)
      {
        var k :| 0 <= k < |declared| && declared[k] == a;
        var l :| 0 <= l < |declared| && declared[l] == b;
        ConflictSymmetric(a, b);
        assert k == l ==> !Conflict(a, b);
        hide Conflict;
      }
    } else {
      assert failures[0] in failures;
    }
  }

  // ---------------------------------------------------------------------- against what was

  /** A variable as the comparison sees it: the same one declared by several sources is one. */
  datatype Var = Var(start: nat, end: nat, name: string, shape: Graph)

  predicate Touch(o: Var, n: Var) {
    n.start < o.end && o.start < n.end
  }

  /** Each variable once, where it was last. */
  function Distinct(vars: seq<Var>): (r: seq<Var>)
    ensures forall v :: v in r <==> v in vars
    ensures forall i, j :: 0 <= i < j < |r| ==> r[i] != r[j]
  {
    if vars == [] then []
    else if vars[0] in vars[1..] then Distinct(vars[1..])
    else [vars[0]] + Distinct(vars[1..])
  }

  /** `where`: the places a name is declared at. */
  function Starts(vars: seq<Var>, name: string): (r: set<nat>)
    ensures forall s :: s in r <==> exists v :: v in vars && v.name == name && v.start == s
  {
    set v | v in vars && v.name == name :: v.start
  }

  /** The name is still declared, but not where it was. */
  predicate Moves(o: Var, now: seq<Var>) {
    Starts(now, o.name) != {} && o.start !in Starts(now, o.name)
  }

  /** `n`, declared over `o`, does not read it back. */
  ghost predicate Clash(o: Var, n: Var) {
    Touch(o, n) && (n.start != o.start || !Similar(o.shape, n.shape, 0, 0))
  }

  ghost predicate RenamedAs(o: Var, n: Var, now: seq<Var>) {
    && Touch(o, n) && !Clash(o, n)
    && ((n.name != o.name && Starts(now, o.name) == {}) || Noticed(o.shape, n.shape, Renamed))
  }

  ghost predicate GrownAs(o: Var, n: Var) {
    Touch(o, n) && !Clash(o, n) && (Noticed(o.shape, n.shape, Grown) || n.end > o.end)
  }

  datatype Comparison = Comparison(
    moved: set<Var>, clashes: set<(Var, Var)>, renamed: set<(Var, Var)>, grown: set<(Var, Var)>, dropped: set<Var>)

  /** The comparison holds exactly what there is to report about `was`. */
  ghost predicate Compared(was: seq<Var>, now: seq<Var>, c: Comparison) {
    && (forall o :: o in c.moved <==> o in was && Moves(o, now))
    && (forall o :: o in c.dropped <==> o in was && forall n :: n in now ==> !Touch(o, n))
    && (forall o, n :: (o, n) in c.clashes <==> o in was && n in now && Clash(o, n))
    && (forall o, n :: (o, n) in c.renamed <==> o in was && n in now && RenamedAs(o, n, now))
    && (forall o, n :: (o, n) in c.grown <==> o in was && n in now && GrownAs(o, n))
  }

  /** One old variable against all the new ones. */
  method CompareOne(o: Var, now: seq<Var>, before: Comparison) returns (c: Comparison)
    requires WellFormed(o.shape) && forall n :: n in now ==> WellFormed(n.shape)
    ensures c.moved == before.moved + if Moves(o, now) then {o} else {}
    ensures forall v :: v in c.dropped <==> v in before.dropped || (v == o && forall n :: n in now ==> !Touch(o, n))
    ensures forall v, n :: (v, n) in c.clashes <==> (v, n) in before.clashes || (v == o && n in now && Clash(o, n))
    ensures forall v, n ::
              (v, n) in c.renamed <==> (v, n) in before.renamed || (v == o && n in now && RenamedAs(o, n, now))
    ensures forall v, n :: (v, n) in c.grown <==> (v, n) in before.grown || (v == o && n in now && GrownAs(o, n))
  {
    hide WellFormed, Noticed, Similar, Starts, Moves;
    c := before;
    if Moves(o, now) {
      c := c.(moved := c.moved + {o});
    }
    var overlapping := false;
    for i := 0 to |now|
      invariant c.moved == before.moved + (if Moves(o, now) then {o} else {}) && c.dropped == before.dropped
      invariant overlapping <==> exists k :: 0 <= k < i && Touch(o, now[k])
      invariant forall v, n ::
                  (v, n) in c.clashes <==> (v, n) in before.clashes || (v == o && n in now[..i] && Clash(o, n))
      invariant forall v, n ::
                  (v, n) in c.renamed <==> (v, n) in before.renamed || (v == o && n in now[..i] && RenamedAs(o, n, now))
      invariant forall v, n ::
                  (v, n) in c.grown <==> (v, n) in before.grown || (v == o && n in now[..i] && GrownAs(o, n))
    {
      var n := now[i];
      assert now[..i + 1] == now[..i] + [n];
      if Touch(o, n) {
        overlapping := true;
        var fits, notes := false, {};
        if n.start == o.start {
          fits, notes := Fit(o.shape, n.shape, {});
        }
        if !fits {
          c := c.(clashes := c.clashes + {(o, n)});
        } else {
          if (n.name != o.name && Starts(now, o.name) == {}) || Renamed in notes {
            c := c.(renamed := c.renamed + {(o, n)});
          }
          if Grown in notes || n.end > o.end {
            c := c.(grown := c.grown + {(o, n)});
          }
        }
      }
    }
    if !overlapping {
      c := c.(dropped := c.dropped + {o});
    }
  }

  /**
   `_compare_storage`: what moves, what is declared over something it does not read back, what is
   renamed, grown and dropped.
   */
  method CompareStorage(was: seq<Var>, now: seq<Var>) returns (c: Comparison)
    requires forall v :: v in was + now ==> WellFormed(v.shape)
    ensures Compared(was, now, c)
  {
    var olds, news := Distinct(was), Distinct(now);
    c := Comparison({}, {}, {}, {}, {});
    assert forall v :: v in was ==> v in was + now;
    assert forall v :: v in now ==> v in was + now;
    hide WellFormed, Clash, RenamedAs, GrownAs, Moves, Touch, Starts;
    for i := 0 to |olds|
      invariant Compared(olds[..i], news, c)
    {
      assert olds[..i + 1] == olds[..i] + [olds[i]];
      c := CompareOne(olds[i], news, c);
    }
    assert olds[..|olds|] == olds;
    DistinctSame(was, olds, now, news, c);
  }

  lemma DistinctSame(was: seq<Var>, olds: seq<Var>, now: seq<Var>, news: seq<Var>, c: Comparison)
    requires Compared(olds, news, c)
    requires forall v :: v in olds <==> v in was
    requires forall v :: v in news <==> v in now
    ensures Compared(was, now, c)
  {
    forall name
      ensures Starts(news, name) == Starts(now, name)
    {
      assert forall s :: s in Starts(news, name) <==> s in Starts(now, name);
    }
  }

  // ---------------------------------------------------------------------- what no failure means

  /** No variable moves or is declared over. */
  predicate NoFailure(c: Comparison) {
    c.moved == {} && c.clashes == {}
  }

  /** Two variables have a byte in common. */
  ghost predicate ShareByte(o: Var, n: Var) {
    exists b :: HasByte(o, b) && HasByte(n, b)
  }

  predicate HasByte(v: Var, b: int) {
    v.start <= b < v.end
  }

  /** Every path into the old variable leads, in the new one, to the same place and to what is kept there. */
  ghost predicate ReadBack(o: Var, n: Var)
    requires WellFormed(o.shape) && WellFormed(n.shape)
  {
    var place := Place(Storage, o.start / 32, o.start % 32);
    n.start == o.start && forall path :: PathKeeps(o.shape, n.shape, place, path)
  }

  ghost predicate DeclaredAt(now: seq<Var>, name: string, start: nat) {
    exists n :: n in now && n.name == name && n.start == start
  }

  /** The variable is where its name was, if the name is still declared. */
  ghost predicate StaysPut(o: Var, now: seq<Var>) {
    (exists n :: n in now && n.name == o.name) ==> DeclaredAt(now, o.name, o.start)
  }

  lemma ClashMeans(o: Var, n: Var)
    requires WellFormed(o.shape) && WellFormed(n.shape)
    ensures Touch(o, n) && o.start < o.end && n.start < n.end ==> ShareByte(o, n)
    ensures ShareByte(o, n) ==> Touch(o, n)
    ensures Clash(o, n) <==> Touch(o, n) && !ReadBack(o, n)
  {
    FitsExactly(o.shape, n.shape, Place(Storage, o.start / 32, o.start % 32));
    hide Similar, PathKeeps, WellFormed;
    if Touch(o, n) && o.start < o.end && n.start < n.end {
      var b := if o.start <= n.start then n.start else o.start;
      assert HasByte(o, b) && HasByte(n, b);
    }
  }

  lemma MovesMeans(o: Var, now: seq<Var>)
    ensures Moves(o, now) <==> !StaysPut(o, now)
  {
    if n :| n in now && n.name == o.name {
      assert n.start in Starts(now, o.name);
    }
  }

  /**
   Nothing fails exactly if every new variable that shares a byte with an old one reads all of it back, and
   every old name still declared is declared where it was.
   */
  lemma {:induction false} PassesExactly(was: seq<Var>, now: seq<Var>, c: Comparison)
    requires Compared(was, now, c) && forall v :: v in was + now ==> WellFormed(v.shape) && v.start < v.end
    ensures NoFailure(c) <==>
            && (forall o, n :: o in was && n in now && ShareByte(o, n) ==> ReadBack(o, n))
            && (forall o :: o in was ==> StaysPut(o, now))
  {
    hide WellFormed, Clash, Moves, Touch, ShareByte, ReadBack, StaysPut, RenamedAs, GrownAs;
    forall o, n | o in was && n in now
      ensures (o, n) in c.clashes <==> ShareByte(o, n) && !ReadBack(o, n)
    {
      assert o in was + now && n in was + now;
      ClashMeans(o, n);
    }
    forall o | o in was
      ensures o in c.moved <==> !StaysPut(o, now)
    {
      MovesMeans(o, now);
    }
    if NoFailure(c) {
      forall o, n | o in was && n in now && ShareByte(o, n)
        ensures o in was + now && n in was + now && ReadBack(o, n)
      {
        assert (o, n) !in c.clashes;
      }
      forall o | o in was
        ensures StaysPut(o, now)
      {
        assert o !in c.moved;
      }
    } else if c.moved != {} {
      var o :| o in c.moved;
      assert o in was && !StaysPut(o, now);
    } else {
      var p :| p in c.clashes;
      assert (p.0, p.1) in c.clashes;
      assert p.0 in was && p.1 in now && ShareByte(p.0, p.1) && !ReadBack(p.0, p.1);
    }
  }

  /**
   Of an old variable that a new one reads back, a rename is reported exactly if its name is declared nowhere
   any more or a path into it meets another name, and growth exactly if the new one ends later or a path meets
   something longer; it is dropped exactly if no new one shares a byte with it.
   */
  lemma {:induction false} ReportsExactly(was: seq<Var>, now: seq<Var>, c: Comparison, o: Var, n: Var)
    requires Compared(was, now, c) && forall v :: v in was + now ==> WellFormed(v.shape) && v.start < v.end
    requires o in was && n in now
    ensures WellFormed(o.shape) && WellFormed(n.shape)
    ensures var place := Place(Storage, o.start / 32, o.start % 32);
      && ((o, n) in c.renamed <==>
            && ShareByte(o, n) && ReadBack(o, n)
            && ((forall m :: m in now ==> m.name != o.name) || NotedOnPath(o.shape, n.shape, place, Renamed)))
      && ((o, n) in c.grown <==>
            && ShareByte(o, n) && ReadBack(o, n)
            && (n.end > o.end || NotedOnPath(o.shape, n.shape, place, Grown)))
    ensures o in c.dropped <==> forall m :: m in now ==> !ShareByte(o, m)
  {
    var place := Place(Storage, o.start / 32, o.start % 32);
    assert o in was + now && n in was + now;
    forall m | m in now
      ensures ShareByte(o, m) <==> Touch(o, m)
    {
      assert m in was + now;
      ClashMeans(o, m);
    }
    ClashMeans(o, n);
    NamedNowhere(o, now);
    FitsExactly(o.shape, n.shape, place);
    hide WellFormed, Touch, ShareByte, PathKeeps, Starts, Moves, NotedOnPath, Noticed;
    if Similar(o.shape, n.shape, 0, 0) {
      NotesExactly(o.shape, n.shape, place, Renamed);
      NotesExactly(o.shape, n.shape, place, Grown);
    }
  }

  lemma NamedNowhere(o: Var, now: seq<Var>)
    ensures Starts(now, o.name) == {} <==> forall m :: m in now ==> m.name != o.name
  {
    if m :| m in now && m.name == o.name {
      assert m.start in Starts(now, o.name);
    }
    if s :| s in Starts(now, o.name) {
    }
  }

  /**
   When nothing fails, every new variable over an old one starts where it starts, and every path into
   the old one leads in the new one to the same place and reads the same; by name too unless a rename
   is reported.
   */
  lemma {:induction false} VariablesReadBack(was: seq<Var>, now: seq<Var>, c: Comparison, o: Var, n: Var,
                                             path: seq<Step>)
    requires Compared(was, now, c) && NoFailure(c) && o in was && n in now && Touch(o, n)
    requires WellFormed(o.shape) && WellFormed(n.shape)
    requires (o, n) !in c.renamed || forall s :: s in path ==> !s.Named?
    ensures n.start == o.start
    ensures var place := Place(Storage, o.start / 32, o.start % 32);
      Access(o.shape, 0, place, path).Some? ==>
        && Access(n.shape, 0, place, path).Some?
        && var (p, i) := Access(o.shape, 0, place, path).value;
           var (q, j) := Access(n.shape, 0, place, path).value;
           p == q && ReadsAlike(o.shape[i], n.shape[j])
  {
    hide Similar, Noticed, Access, ReadsAlike, Starts, Moves;
    assert (o, n) !in c.clashes;
    assert RenamedAs(o, n, now) ==> (o, n) in c.renamed;
    var place := Place(Storage, o.start / 32, o.start % 32);
    if Access(o.shape, 0, place, path).Some? {
      FitKeepsPaths(o.shape, n.shape, place, path);
    }
  }

  /** A name that is still declared is declared where it was, over the variable it named. */
  lemma {:induction false} NamesStay(was: seq<Var>, now: seq<Var>, c: Comparison, o: Var)
    requires Compared(was, now, c) && NoFailure(c) && o in was && o.start < o.end
    requires (exists n :: n in now && n.name == o.name) && forall n :: n in now ==> n.start < n.end
    ensures exists n :: n in now && n.name == o.name && n.start == o.start && Similar(o.shape, n.shape, 0, 0)
    ensures o !in c.dropped
  {
    hide Similar, Noticed;
    var v :| v in now && v.name == o.name;
    assert v.start in Starts(now, o.name);
    assert o !in c.moved;
    var n :| n in now && n.name == o.name && n.start == o.start;
    assert (o, n) !in c.clashes;
    assert Touch(o, n);
  }

  /** All old variables a new one overlaps start where it does, so growth takes no byte of one starting elsewhere. */
  lemma {:induction false} GrowthIsFree(was: seq<Var>, now: seq<Var>, c: Comparison, o: Var, p: Var, n: Var)
    requires Compared(was, now, c) && NoFailure(c) && o in was && p in was && n in now && Touch(o, n) && Touch(p, n)
    ensures o.start == p.start == n.start
  {
    hide Similar, Noticed, Moves;
    assert (o, n) !in c.clashes && (p, n) !in c.clashes;
  }
}
