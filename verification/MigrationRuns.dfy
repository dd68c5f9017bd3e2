/**
 Which scripts are legal, and what becomes of the others: when the statements are
 run as they are emitted, when the client goes on after names that are taken, and
 when the adapter refuses.
 */
module MigrationRuns {
  import opened Prelude
  import opened Named
  import opened Migration
  import Uri

  // ------------------------------------------------------ constraints by name

  // A constraint that was given the empty name is found under the name by which
  // unnamed constraints are dropped; nothing else is.
  lemma EmptyNameIff(table: string, x: Constraint, d: Constraint)
    requires GivenName(d) == None
    ensures AddedName(table, x) == DroppedName(table, d) <==> GivenName(x) == Some("")
  {
    assert |DefaultName(x)| > 0;
    if GivenName(x).Some? {
      assert AddedName(table, x)[|table| + 1..] == GivenName(x).value;
      assert DroppedName(table, d)[|table| + 1..] == "";
    } else {
      assert |AddedName(table, x)| > |DroppedName(table, d)|;
    }
  }

  ghost predicate HasEmptyName(cs: seq<Constraint>) {
    exists x :: x in cs && GivenName(x) == Some("")
  }

  // The constraints there are after the adds, all of them of a real kind.
  function Present(from: Model, to: Model): seq<Constraint> {
    RealOnly(from.constraints) + MissingReal(to.constraints, from.constraints)
  }

  // Every constraint that goes is dropped by a name that is there, and no name
  // is dropped twice.
  ghost predicate DropsAreThere(from: Model, to: Model) {
    var dropped := MissingReal(from.constraints, to.constraints);
    && Distinct(Map(ConstraintDropOf(to.name), dropped))
    && (AllNamed(dropped) || HasEmptyName(Present(from, to)))
  }

  lemma NamesPresent(from: Model, to: Model, n: string)
    requires WellFormed(from) && WellFormed(to) && from.name == to.name
    ensures n in ConstraintsOf(from) + ByName(ConstraintNameOf(to.name), MissingReal(to.constraints, from.constraints))
       <==> exists x :: x in Present(from, to) && AddedName(to.name, x) == n
  {
    ConstraintDiff(from, to);
    var nameOf, added := ConstraintNameOf(to.name), MissingReal(to.constraints, from.constraints);
    ByNameIndexes(nameOf, RealOnly(from.constraints));
    ByNameIndexes(nameOf, added);
    var m := ConstraintsOf(from) + ByName(nameOf, added);
    if n in m {
      assert m[n] in Present(from, to) && nameOf(m[n]) == n;
    }
    if exists x :: x in Present(from, to) && AddedName(to.name, x) == n {
      var x :| x in Present(from, to) && AddedName(to.name, x) == n;
      assert nameOf(x) == n;
    }
  }

  lemma DropNamesPresentIff(from: Model, to: Model)
    requires WellFormed(from) && WellFormed(to) && from.name == to.name
    ensures var dropped := MissingReal(from.constraints, to.constraints);
      (forall n :: n in Map(ConstraintDropOf(to.name), dropped) ==>
         n in ConstraintsOf(from) + ByName(ConstraintNameOf(to.name), MissingReal(to.constraints, from.constraints)))
      <==> AllNamed(dropped) || HasEmptyName(Present(from, to))
  {
    var dropped := MissingReal(from.constraints, to.constraints);
    var names := Map(ConstraintDropOf(to.name), dropped);
    var m := ConstraintsOf(from) + ByName(ConstraintNameOf(to.name), MissingReal(to.constraints, from.constraints));
    forall i | 0 <= i < |names|
      ensures names[i] in m <==> GivenName(dropped[i]).Some? || HasEmptyName(Present(from, to))
    {
      var d := dropped[i];
      assert d in dropped && d in Present(from, to) && names[i] == DroppedName(to.name, d);
      NamesPresent(from, to, names[i]);
      DroppedUnderOwnNameIff(to.name, d);
      if GivenName(d) == None {
        forall x ensures AddedName(to.name, x) == names[i] <==> GivenName(x) == Some("") {
          EmptyNameIff(to.name, x, d);
        }
      }
    }
    if !AllNamed(dropped) {
      var i :| 0 <= i < |dropped| && GivenName(dropped[i]) == None;
      assert names[i] in names;
    }
  }

  // The constraint statements are legal if and only if no added name is a
  // dropped one and every drop finds a name of its own; an unnamed constraint
  // needs another one whose given name is empty.
  lemma ConstraintsLegalIff(from: Model, to: Model, t: Table)
    requires WellFormed(from) && WellFormed(to) && from.name == to.name == t.name
    requires t.constraints == ConstraintsOf(from)
    ensures Run(ConstraintPart(from, to), t).Some?
       <==> && !Clash(ConstraintNameOf(to.name), MissingReal(to.constraints, from.constraints),
                      MissingReal(from.constraints, to.constraints))
            && DropsAreThere(from, to)
  {
    var added, dropped := MissingReal(to.constraints, from.constraints), MissingReal(from.constraints, to.constraints);
    var nameOf, names := ConstraintNameOf(to.name), Map(ConstraintDropOf(to.name), dropped);
    ConstraintDiff(from, to);
    ConstraintPartRuns(from, to, t);
    AddsAreFreeIff(nameOf, RealOnly(from.constraints), RealOnly(to.constraints), added, dropped);
    AddAllIff(nameOf, added, ConstraintsOf(from));
    DropAllRemoves(names, ConstraintsOf(from) + ByName(nameOf, added));
    DropNamesPresentIff(from, to);
  }

  // When an unnamed constraint is dropped without complaint, the constraint with
  // the empty name is gone, even if it was to stay.
  lemma UnnamedDropHitsAnother(from: Model, to: Model, t: Table, d: Constraint, k: Constraint)
    requires WellFormed(from) && WellFormed(to) && from.name == to.name == t.name
    requires t.constraints == ConstraintsOf(from)
    requires d in MissingReal(from.constraints, to.constraints) && GivenName(d) == None
    requires k in RealOnly(to.constraints) && GivenName(k) == Some("")
    requires Run(ConstraintPart(from, to), t).Some?
    ensures AddedName(to.name, k) !in Run(ConstraintPart(from, to), t).value.constraints
  {
    var added, dropped := MissingReal(to.constraints, from.constraints), MissingReal(from.constraints, to.constraints);
    var nameOf, names := ConstraintNameOf(to.name), Map(ConstraintDropOf(to.name), dropped);
    ConstraintPartRuns(from, to, t);
    DropAllRemoves(names, AddAll(nameOf, added, ConstraintsOf(from)).value);
    EmptyNameIff(to.name, k, d);
    var i :| 0 <= i < |dropped| && dropped[i] == d;
    assert names[i] == DroppedName(to.name, d);
  }

  // ---------------------------------------------------------- the whole script

  ghost predicate OnlyColumns(script: seq<Stmt>) {
    forall i :: 0 <= i < |script| ==> script[i].AddColumn? || script[i].DropColumn?
  }

  lemma {:induction false} ColumnsLeaveTheRest(script: seq<Stmt>, t: Table)
    requires OnlyColumns(script) && Run(script, t).Some?
    ensures var t' := Run(script, t).value;
      t'.name == t.name && t'.constraints == t.constraints && t'.indexes == t.indexes
    decreases |script|
  {
    if script != [] {
      assert forall i :: 0 <= i < |script| - 1 ==> script[1..][i] == script[i + 1];
      ColumnsLeaveTheRest(script[1..], Exec(script[0], t).value);
    }
  }

  lemma ConstraintPartKeepsIndexes(from: Model, to: Model, t: Table)
    requires from.name == to.name == t.name && Run(ConstraintPart(from, to), t).Some?
    ensures var t' := Run(ConstraintPart(from, to), t).value; t'.name == t.name && t'.indexes == t.indexes
  {
    ConstraintPartRuns(from, to, t);
  }

  lemma IndexesLegalIff(from: Model, to: Model, t: Table)
    requires WellFormed(from) && WellFormed(to) && from.name == to.name == t.name
    requires t.indexes == IndexesOf(from)
    ensures Run(IndexPart(from, to), t).Some?
       <==> !Clash(IndexNameOf(to.name), Missing(to.indexes, from.indexes), Missing(from.indexes, to.indexes))
  {
    var added, dropped := Missing(to.indexes, from.indexes), Missing(from.indexes, to.indexes);
    IndexPartRuns(from, to, t);
    IndexDiff(from, to);
    IndexesReachedIff(from, to);
    AddsAreFreeIff(IndexNameOf(to.name), from.indexes, to.indexes, added, dropped);
  }

  lemma ColumnPartLegalIff(from: Model, to: Model)
    requires WellFormed(from) && WellFormed(to) && from.name == to.name
    ensures Run(ColumnPart(from, to), TableOf(from)).Some? <==> (to.columns == [] ==> from.columns == [])
  {
    if to.columns == [] && from.columns != [] {
      if Run(ColumnPart(from, to), TableOf(from)).Some? {
        NeverWithoutColumns(ColumnPart(from, to), TableOf(from));
        AllColumnsGone(from, to);
      }
    } else {
      ColumnsLegal(from, to, TableOf(from));
    }
  }

  // Every run of the column statements that ends has dropped what `to` lacks.
  lemma AllColumnsGone(from: Model, to: Model)
    requires from.name == to.name && DistinctColumns(from.columns) && to.columns == [] && Run(ColumnPart(from, to), TableOf(from)).Some?
    ensures Run(ColumnPart(from, to), TableOf(from)).value.columns == []
  {
    FilterNone(LacksColumn(from.columns), to.columns);
    var all := MissingColumns(from.columns, []);
    FilterAll(LacksColumn([]), from.columns);
    assert ColumnPart(from, to) == Map(ToDropColumn(from.name), all);
    DropsLeaveNone(from.columns, TableOf(from));
  }

  lemma {:induction false} DropsLeaveNone(xs: seq<Column>, t: Table)
    requires t.columns == xs && DistinctColumns(xs) && Run(Map(ToDropColumn(t.name), xs), t).Some?
    ensures Run(Map(ToDropColumn(t.name), xs), t).value.columns == []
    decreases |xs|
  {
    if xs != [] {
      MapTail(ToDropColumn(t.name), xs);
      DropFirst(xs);
      DropsLeaveNone(xs[1..], t.(columns := xs[1..]));
    }
  }

  lemma DropFirst(xs: seq<Column>)
    requires xs != [] && DistinctColumns(xs)
    ensures Filter(NotNamed(xs[0].name), xs) == xs[1..]
  {
    forall x | x in xs[1..] ensures NotNamed(xs[0].name)(x) {
      var i :| 1 <= i < |xs| && xs[i] == x;
    }
    FilterAll(NotNamed(xs[0].name), xs[1..]);
  }

  // The script of any two models that can be tables is legal, step by step, if
  // and only if no added name is a dropped one, every drop finds its name, and a
  // table that has columns keeps some.
  lemma ScriptLegalIff(from: Model, to: Model)
    requires WellFormed(from) && WellFormed(to) && from.name == to.name
    ensures Run(Plan(from, to), TableOf(from)).Some?
       <==> && (to.columns == [] ==> from.columns == [])
            && !Clash(ConstraintNameOf(to.name), MissingReal(to.constraints, from.constraints),
                      MissingReal(from.constraints, to.constraints))
            && DropsAreThere(from, to)
            && !Clash(IndexNameOf(to.name), Missing(to.indexes, from.indexes), Missing(from.indexes, to.indexes))
  {
    var t := TableOf(from);
    RunConcat(ColumnPart(from, to) + ConstraintPart(from, to), IndexPart(from, to), t);
    RunConcat(ColumnPart(from, to), ConstraintPart(from, to), t);
    ColumnPartLegalIff(from, to);
    if Run(ColumnPart(from, to), t).Some? {
      var t1 := Run(ColumnPart(from, to), t).value;
      ColumnsLeaveTheRest(ColumnPart(from, to), t);
      ConstraintsLegalIff(from, to, t1);
      if Run(ConstraintPart(from, to), t1).Some? {
        ConstraintPartKeepsIndexes(from, to, t1);
        IndexesLegalIff(from, to, Run(ConstraintPart(from, to), t1).value);
      }
    }
  }

  // Dropping an unnamed constraint makes the script illegal unless some
  // constraint has the empty name.
  lemma UnnamedDropIsIllegal(from: Model, to: Model, d: Constraint)
    requires WellFormed(from) && WellFormed(to) && from.name == to.name
    requires d in MissingReal(from.constraints, to.constraints) && GivenName(d) == None
    requires !HasEmptyName(Present(from, to))
    ensures Run(Plan(from, to), TableOf(from)) == None
  {
    ScriptLegalIff(from, to);
  }

  // Nothing is created twice and, when the dropped constraints are named, nothing
  // is dropped twice.
  lemma EachOnce(from: Model, to: Model)
    requires WellFormed(from) && WellFormed(to) && from.name == to.name
    ensures DistinctColumns(MissingColumns(to.columns, from.columns))
         && DistinctColumns(MissingColumns(from.columns, to.columns))
    ensures DistinctNames(ConstraintNameOf(to.name), MissingReal(to.constraints, from.constraints))
         && DistinctNames(IndexNameOf(to.name), Missing(to.indexes, from.indexes))
         && DistinctNames(IndexNameOf(from.name), Missing(from.indexes, to.indexes))
    ensures AllNamed(MissingReal(from.constraints, to.constraints)) ==>
              DistinctNames(ConstraintDropOf(from.name), MissingReal(from.constraints, to.constraints))
  {
    FilterDistinct(LacksColumn(from.columns), to.columns);
    FilterDistinct(LacksColumn(to.columns), from.columns);
    ConstraintDiff(from, to);
    IndexDiff(from, to);
    var dropped := MissingReal(from.constraints, to.constraints);
    if AllNamed(dropped) {
      forall i | 0 <= i < |dropped| ensures ConstraintDropOf(from.name)(dropped[i]) == ConstraintNameOf(from.name)(dropped[i]) {
        assert dropped[i] in dropped;
        DroppedUnderOwnNameIff(from.name, dropped[i]);
      }
    }
  }

  // ------------------------------------------------- the statements as emitted

  // What the adapters emit for a constraint is the clause alone, which names no
  // table and no action: as a statement of its own no database runs it.
  function ExecEmitted(s: Stmt, t: Table): Option<Table> {
    if s.AddConstraint? then None else Exec(s, t)
  }

  function RunEmitted(script: seq<Stmt>, t: Table): Option<Table>
    decreases |script|
  {
    if script == [] then Some(t)
    else
      match ExecEmitted(script[0], t)
      case None => None
      case Some(t') => RunEmitted(script[1..], t')
  }

  ghost predicate AddsConstraint(script: seq<Stmt>) {
    exists i :: 0 <= i < |script| && script[i].AddConstraint?
  }

  lemma {:induction false} RunEmittedIff(script: seq<Stmt>, t: Table)
    ensures RunEmitted(script, t) == if AddsConstraint(script) then None else Run(script, t)
    decreases |script|
  {
    if script != [] {
      assert AddsConstraint(script) <==> script[0].AddConstraint? || AddsConstraint(script[1..]) by {
        if AddsConstraint(script[1..]) {
          var i :| 0 <= i < |script[1..]| && script[1..][i].AddConstraint?;
          assert script[i + 1].AddConstraint?;
        }
        if AddsConstraint(script) && !script[0].AddConstraint? {
          var i :| 0 <= i < |script| && script[i].AddConstraint?;
          assert script[1..][i - 1].AddConstraint?;
        }
      }
      if ExecEmitted(script[0], t).Some? {
        RunEmittedIff(script[1..], ExecEmitted(script[0], t).value);
      }
    }
  }

  lemma PlanAddsConstraintIff(from: Model, to: Model)
    ensures AddsConstraint(Plan(from, to)) <==> MissingReal(to.constraints, from.constraints) != []
  {
    var columns, adds := ColumnPart(from, to), Map(ToAddConstraint(to.name), MissingReal(to.constraints, from.constraints));
    var plan := Plan(from, to);
    if adds != [] {
      assert plan[|columns|] == adds[0];
    }
    forall i | 0 <= i < |plan| && adds == [] ensures !plan[i].AddConstraint? {}
  }

  // The script as it is emitted reaches the target's constraints and indexes if
  // and only if, besides the conditions on names and columns, no constraint is
  // added at all.
  lemma EmittedReachesIff(from: Model, to: Model)
    requires WellFormed(from) && WellFormed(to) && from.name == to.name
    ensures RunEmitted(Plan(from, to), TableOf(from))
              == Some(TableOf(to).(columns := Reached(from.columns, from.columns, to.columns)))
       <==> && MissingReal(to.constraints, from.constraints) == []
            && AllNamed(MissingReal(from.constraints, to.constraints))
            && !Clash(IndexNameOf(to.name), Missing(to.indexes, from.indexes), Missing(from.indexes, to.indexes))
            && (to.columns == [] ==> from.columns == [])
  {
    RunEmittedIff(Plan(from, to), TableOf(from));
    PlanAddsConstraintIff(from, to);
    MigrationReachesIff(from, to);
  }

  // ------------------------------------- going on when a name is already there

  // An add whose name is taken fails with an error that the client ignores.
  predicate AlreadyThere(s: Stmt, t: Table) {
    && s.table == t.name
    && match s
       case AddColumn(_, c) => HasName(t.columns, c.name)
       case AddConstraint(_, c) => AddedName(t.name, c) in t.constraints
       case CreateIndex(_, i) => IndexName(t.name, i) in t.indexes
       case _ => false
  }

  // Any other error ends the migration.
  function RunOn(script: seq<Stmt>, t: Table): Option<Table>
    decreases |script|
  {
    if script == [] then Some(t)
    else
      match Exec(script[0], t)
      case Some(t') => RunOn(script[1..], t')
      case None => if AlreadyThere(script[0], t) then RunOn(script[1..], t) else None
  }

  lemma {:induction false} RunOnConcat(a: seq<Stmt>, b: seq<Stmt>, t: Table)
    ensures RunOn(a + b, t) == (match RunOn(a, t) case None => None case Some(t') => RunOn(b, t'))
    decreases |a|
  {
    if a == [] {
      assert a + b == b;
    } else {
      assert (a + b)[1..] == a[1..] + b;
      match Exec(a[0], t) {
        case Some(t') => RunOnConcat(a[1..], b, t');
        case None =>
          if AlreadyThere(a[0], t) {
            RunOnConcat(a[1..], b, t);
          }
      }
    }
  }

  lemma {:induction false} RunOnLegal(script: seq<Stmt>, t: Table)
    requires Run(script, t).Some?
    ensures RunOn(script, t) == Run(script, t)
    decreases |script|
  {
    if script != [] {
      RunOnLegal(script[1..], Exec(script[0], t).value);
    }
  }

  // Index adds never fail for good, and keep what is there.
  lemma {:induction false} IndexAddsRunOn(xs: seq<Index>, t: Table)
    ensures RunOn(Map(ToCreateIndex(t.name), xs), t).Some?
    ensures var t' := RunOn(Map(ToCreateIndex(t.name), xs), t).value;
      t'.name == t.name && (forall n :: n in t.indexes ==> n in t'.indexes)
    decreases |xs|
  {
    if xs != [] {
      MapTail(ToCreateIndex(t.name), xs);
      var n := IndexName(t.name, xs[0]);
      if n in t.indexes {
        IndexAddsRunOn(xs[1..], t);
      } else {
        IndexAddsRunOn(xs[1..], t.(indexes := t.indexes[n := xs[0]]));
      }
    }
  }

  // Index drops go through if the names are distinct and there; whatever was
  // dropped is gone.
  lemma {:induction false} IndexDropsRunOn(xs: seq<Index>, t: Table)
    ensures DistinctNames(IndexNameOf(t.name), xs) && (forall x :: x in xs ==> IndexName(t.name, x) in t.indexes)
            ==> RunOn(Map(ToDropIndex(t.name), xs), t).Some?
    ensures RunOn(Map(ToDropIndex(t.name), xs), t).Some? ==>
              var t' := RunOn(Map(ToDropIndex(t.name), xs), t).value;
              && (forall n :: n in t'.indexes ==> n in t.indexes)
              && (forall x :: x in xs ==> IndexName(t.name, x) !in t'.indexes)
    decreases |xs|
  {
    if xs != [] {
      MapTail(ToDropIndex(t.name), xs);
      var n := IndexName(t.name, xs[0]);
      if n in t.indexes {
        var t1 := t.(indexes := t.indexes - {n});
        assert Exec(ToDropIndex(t.name)(xs[0]), t) == Some(t1);
        IndexDropsRunOn(xs[1..], t1);
        assert forall x :: x in xs <==> x == xs[0] || x in xs[1..];
        if DistinctNames(IndexNameOf(t.name), xs) {
          forall x | x in xs[1..] ensures IndexName(t.name, x) != n {
            var i :| 1 <= i < |xs| && xs[i] == x;
            assert IndexNameOf(t.name)(xs[0]) != IndexNameOf(t.name)(xs[i]);
          }
          forall i, j | 0 <= i < j < |xs[1..]| ensures IndexNameOf(t.name)(xs[1..][i]) != IndexNameOf(t.name)(xs[1..][j]) {
            assert xs[1..][i] == xs[i + 1] && xs[1..][j] == xs[j + 1];
          }
        }
      } else {
        assert xs[0] in xs;
      }
    }
  }

  // Because drops come last, an index that `to` does not have is gone after every
  // script that gets to its end, on every table, even if an index of `to` has its
  // name.
  lemma DroppedIndexIsGone(from: Model, to: Model, t: Table, i: Index)
    requires from.name == to.name == t.name && i in Missing(from.indexes, to.indexes)
    ensures RunOn(Plan(from, to), t).Some? ==> IndexName(t.name, i) !in RunOn(Plan(from, to), t).value.indexes
  {
    var adds := Map(ToCreateIndex(t.name), Missing(to.indexes, from.indexes));
    var drops := Map(ToDropIndex(t.name), Missing(from.indexes, to.indexes));
    var rest := ColumnPart(from, to) + ConstraintPart(from, to);
    RunOnConcat(rest, IndexPart(from, to), t);
    if RunOn(rest, t).Some? {
      var t1 := RunOn(rest, t).value;
      RunOnKeepsName(rest, t);
      RunOnConcat(adds, drops, t1);
      IndexAddsRunOn(Missing(to.indexes, from.indexes), t1);
      IndexDropsRunOn(Missing(from.indexes, to.indexes), RunOn(adds, t1).value);
    }
  }

  lemma {:induction false} RunOnKeepsName(script: seq<Stmt>, t: Table)
    requires RunOn(script, t).Some?
    ensures RunOn(script, t).value.name == t.name
    decreases |script|
  {
    if script != [] {
      RunOnKeepsName(script[1..], if Exec(script[0], t).Some? then Exec(script[0], t).value else t);
    }
  }

  // So an index that changes but keeps its name makes the script illegal, and
  // when the client goes on it ends with neither the old index nor the new one.
  lemma ChangedIndexIsLost(from: Model, to: Model, i: Index, j: Index)
    requires WellFormed(from) && WellFormed(to) && from.name == to.name
    requires i in Missing(from.indexes, to.indexes) && j in Missing(to.indexes, from.indexes)
    requires IndexName(from.name, i) == IndexName(from.name, j)
    requires Run(ColumnPart(from, to) + ConstraintPart(from, to), TableOf(from)).Some?
    ensures Run(Plan(from, to), TableOf(from)) == None
    ensures RunOn(Plan(from, to), TableOf(from)).Some?
    ensures IndexName(from.name, i) !in RunOn(Plan(from, to), TableOf(from)).value.indexes
  {
    var t, rest := TableOf(from), ColumnPart(from, to) + ConstraintPart(from, to);
    assert IndexNameOf(to.name)(j) == IndexNameOf(to.name)(i);
    ScriptLegalIff(from, to);
    RunOnConcat(rest, IndexPart(from, to), t);
    RunOnLegal(rest, t);
    RestKeepsIndexes(from, to);
    IndexPartRunsOn(from, to, Run(rest, t).value);
    DroppedIndexIsGone(from, to, t, i);
  }

  lemma RestKeepsIndexes(from: Model, to: Model)
    requires from.name == to.name && Run(ColumnPart(from, to) + ConstraintPart(from, to), TableOf(from)).Some?
    ensures var t' := Run(ColumnPart(from, to) + ConstraintPart(from, to), TableOf(from)).value;
      t'.name == from.name && t'.indexes == IndexesOf(from)
  {
    var t := TableOf(from);
    RunConcat(ColumnPart(from, to), ConstraintPart(from, to), t);
    ColumnsLeaveTheRest(ColumnPart(from, to), t);
    ConstraintPartKeepsIndexes(from, to, Run(ColumnPart(from, to), t).value);
  }

  lemma IndexPartRunsOn(from: Model, to: Model, t: Table)
    requires WellFormed(from) && WellFormed(to) && from.name == to.name == t.name && t.indexes == IndexesOf(from)
    ensures RunOn(IndexPart(from, to), t).Some?
  {
    var added, dropped := Missing(to.indexes, from.indexes), Missing(from.indexes, to.indexes);
    var adds, drops := Map(ToCreateIndex(t.name), added), Map(ToDropIndex(t.name), dropped);
    RunOnConcat(adds, drops, t);
    IndexAddsRunOn(added, t);
    IndexDiff(from, to);
    ByNameIndexes(IndexNameOf(from.name), from.indexes);
    var t1 := RunOn(adds, t).value;
    forall x | x in dropped ensures IndexName(t.name, x) in t1.indexes {
      assert IndexNameOf(from.name)(x) in IndexesOf(from);
    }
    IndexDropsRunOn(dropped, t1);
  }

  // ------------------------------------------------------- what SQLite refuses

  predicate SqliteAdds(c: Column) {
    && !c.isPrimaryKey && !c.isUnique && (c.isNullable || c.defaultValue.Some?)
    && forall i :: 0 <= i < |c.constraints| ==> !c.constraints[i].ForeignKey?
  }

  predicate SqliteIndexes(i: Index) {
    i.indexType.Some? ==> i.indexType.value == "BTree"
  }

  lemma AcceptsParts(adapter: Adapter, a: seq<Stmt>, b: seq<Stmt>)
    ensures Accepts(adapter, a + b) <==> Accepts(adapter, a) && Accepts(adapter, b)
  {
    forall s ensures s in a + b <==> s in a || s in b {}
    if Accepts(adapter, a + b) {
      forall s | s in a ensures !adapter.refuses(s) { assert s in a + b; }
      forall s | s in b ensures !adapter.refuses(s) { assert s in a + b; }
    }
  }

  lemma AcceptsMapped<T(!new)>(adapter: Adapter, stmt: T -> Stmt, xs: seq<T>)
    ensures Accepts(adapter, Map(stmt, xs)) <==> forall x :: x in xs ==> !adapter.refuses(stmt(x))
  {
    if Accepts(adapter, Map(stmt, xs)) {
      forall x | x in xs ensures !adapter.refuses(stmt(x)) {
        MapMember(stmt, xs, x);
      }
    }
  }

  // SQLite generates the script if and only if no column and no constraint is
  // dropped, and every added column and index is of a kind it can add.
  lemma SqliteAcceptsIff(from: Model, to: Model)
    ensures Accepts(Sqlite(), Plan(from, to))
       <==> && MissingColumns(from.columns, to.columns) == []
            && MissingReal(from.constraints, to.constraints) == []
            && (forall c :: c in MissingColumns(to.columns, from.columns) ==> SqliteAdds(c))
            && (forall i :: i in Missing(to.indexes, from.indexes) ==> SqliteIndexes(i))
  {
    var a := Sqlite();
    AcceptsParts(a, ColumnPart(from, to) + ConstraintPart(from, to), IndexPart(from, to));
    AcceptsParts(a, ColumnPart(from, to), ConstraintPart(from, to));
    SqliteColumns(from, to);
    SqliteConstraints(from, to);
    SqliteIndexPart(from, to);
  }

  lemma SqliteColumns(from: Model, to: Model)
    ensures Accepts(Sqlite(), ColumnPart(from, to))
       <==> && MissingColumns(from.columns, to.columns) == []
            && (forall c :: c in MissingColumns(to.columns, from.columns) ==> SqliteAdds(c))
  {
    var a, added, dropped := Sqlite(), MissingColumns(to.columns, from.columns), MissingColumns(from.columns, to.columns);
    AcceptsParts(a, Map(ToAddColumn(to.name), added), Map(ToDropColumn(from.name), dropped));
    AcceptsMapped(a, ToAddColumn(to.name), added);
    AcceptsMapped(a, ToDropColumn(from.name), dropped);
    forall c: Column ensures a.refuses(ToAddColumn(to.name)(c)) <==> !SqliteAdds(c) {}
    if dropped != [] {
      assert dropped[0] in dropped && a.refuses(ToDropColumn(from.name)(dropped[0]));
    }
  }

  lemma SqliteConstraints(from: Model, to: Model)
    ensures Accepts(Sqlite(), ConstraintPart(from, to)) <==> MissingReal(from.constraints, to.constraints) == []
  {
    var a, added, dropped := Sqlite(), MissingReal(to.constraints, from.constraints), MissingReal(from.constraints, to.constraints);
    AcceptsParts(a, Map(ToAddConstraint(to.name), added), Map(ToDropConstraint(from.name), dropped));
    AcceptsMapped(a, ToAddConstraint(to.name), added);
    AcceptsMapped(a, ToDropConstraint(from.name), dropped);
    if dropped != [] {
      assert dropped[0] in dropped && a.refuses(ToDropConstraint(from.name)(dropped[0]));
    }
  }

  lemma SqliteIndexPart(from: Model, to: Model)
    ensures Accepts(Sqlite(), IndexPart(from, to)) <==> forall i :: i in Missing(to.indexes, from.indexes) ==> SqliteIndexes(i)
  {
    var a, added, dropped := Sqlite(), Missing(to.indexes, from.indexes), Missing(from.indexes, to.indexes);
    AcceptsParts(a, Map(ToCreateIndex(to.name), added), Map(ToDropIndex(from.name), dropped));
    AcceptsMapped(a, ToCreateIndex(to.name), added);
    AcceptsMapped(a, ToDropIndex(from.name), dropped);
    forall i: Index ensures a.refuses(ToCreateIndex(to.name)(i)) <==> !SqliteIndexes(i) {}
  }

  // ----------------------------------------------------- statements and names

  // Exactly these statements are in the script.
  lemma PlanHasIff(from: Model, to: Model, s: Stmt)
    ensures s in Plan(from, to) <==>
            match s
            case AddColumn(t, c) => t == to.name && c in to.columns && forall d :: d in from.columns ==> d.name != c.name
            case DropColumn(t, n) =>
              && t == from.name && (exists c :: c in from.columns && c.name == n)
              && forall d :: d in to.columns ==> d.name != n
            case AddConstraint(t, c) => t == to.name && c in to.constraints && c !in from.constraints && Real(c)
            case DropConstraint(t, n) =>
              && t == from.name
              && exists c :: c in from.constraints && c !in to.constraints && Real(c) && n == DroppedName(from.name, c)
            case CreateIndex(t, i) => t == to.name && i in to.indexes && i !in from.indexes
            case DropIndex(t, n) =>
              && t == from.name && exists i :: i in from.indexes && i !in to.indexes && n == IndexName(from.name, i)
  {
    InColumnPart(from, to, s);
    InConstraintPart(from, to, s);
    InIndexPart(from, to, s);
  }

  lemma InMap<T(!new)>(f: T -> Stmt, xs: seq<T>, s: Stmt)
    ensures s in Map(f, xs) <==> exists x :: x in xs && f(x) == s
  {
    if s in Map(f, xs) {
      var i :| 0 <= i < |xs| && Map(f, xs)[i] == s;
      assert xs[i] in xs;
    }
    if exists x :: x in xs && f(x) == s {
      var x :| x in xs && f(x) == s;
      MapMember(f, xs, x);
    }
  }

  lemma HasNameIff(columns: seq<Column>, n: string)
    ensures HasName(columns, n) <==> exists c :: c in columns && c.name == n
  {
    if HasName(columns, n) {
      var i :| 0 <= i < |columns| && columns[i].name == n;
      assert columns[i] in columns;
    }
  }

  lemma InColumnPart(from: Model, to: Model, s: Stmt)
    ensures s in ColumnPart(from, to) <==>
            || (s.AddColumn? && s.table == to.name && s.column in to.columns
                && forall d :: d in from.columns ==> d.name != s.column.name)
            || (s.DropColumn? && s.table == from.name && (exists c :: c in from.columns && c.name == s.columnName)
                && forall d :: d in to.columns ==> d.name != s.columnName)
  {
    var added, dropped := MissingColumns(to.columns, from.columns), MissingColumns(from.columns, to.columns);
    InMap(ToAddColumn(to.name), added, s);
    InMap(ToDropColumn(from.name), dropped, s);
    if s.AddColumn? {
      HasNameIff(from.columns, s.column.name);
    } else if s.DropColumn? {
      HasNameIff(to.columns, s.columnName);
    }
  }

  lemma InConstraintPart(from: Model, to: Model, s: Stmt)
    ensures s in ConstraintPart(from, to) <==>
            || (s.AddConstraint? && s.table == to.name && s.constraint in to.constraints
                && s.constraint !in from.constraints && Real(s.constraint))
            || (s.DropConstraint? && s.table == from.name
                && exists c :: c in from.constraints && c !in to.constraints && Real(c)
                            && s.constraintName == DroppedName(from.name, c))
  {
    InMap(ToAddConstraint(to.name), MissingReal(to.constraints, from.constraints), s);
    InMap(ToDropConstraint(from.name), MissingReal(from.constraints, to.constraints), s);
  }

  lemma InIndexPart(from: Model, to: Model, s: Stmt)
    ensures s in IndexPart(from, to) <==>
            || (s.CreateIndex? && s.table == to.name && s.index in to.indexes && s.index !in from.indexes)
            || (s.DropIndex? && s.table == from.name
                && exists i :: i in from.indexes && i !in to.indexes && s.indexName == IndexName(from.name, i))
  {
    InMap(ToCreateIndex(to.name), Missing(to.indexes, from.indexes), s);
    InMap(ToDropIndex(from.name), Missing(from.indexes, to.indexes), s);
  }

  lemma {:induction false} JoinedByUnderscores(columns: seq<string>)
    ensures JoinNames(columns) == Uri.Join(columns, '_')
  {
    if |columns| > 1 {
      JoinedByUnderscores(columns[1..]);
    }
  }

  // Column names that a '_' cannot be mistaken in.
  ghost predicate Plain(columns: seq<string>) {
    columns != [] && forall c :: c in columns ==> '_' !in c
  }

  // An unnamed index is named after its table and its columns, all of them in
  // order: the columns can be read off the name.
  lemma UnnamedIndexName(table: string, i: Index) returns (joined: string)
    requires i.name == None && Plain(i.columns)
    ensures IndexName(table, i) == table + "_" + joined + "_idx" && Uri.Split(joined, '_') == i.columns
  {
    joined := JoinNames(i.columns);
    JoinedByUnderscores(i.columns);
    Uri.SplitJoin(i.columns, '_');
  }

  // Whatever the column names are, one more column adds '_' and its name.
  lemma OneMoreColumn(table: string, columns: seq<string>, last: string, i: Index, j: Index)
    requires i.name == None && j.name == None && j.columns == columns + [last] && i.columns == columns
    ensures columns == [] ==> IndexName(table, j) == table + "_" + last + "_idx"
    ensures columns != [] ==>
              IndexName(table, j)[..|IndexName(table, j)| - 4] == IndexName(table, i)[..|IndexName(table, i)| - 4] + "_" + last
    ensures columns != [] ==> "_idx" == IndexName(table, j)[|IndexName(table, j)| - 4..]
  {
    JoinedByUnderscores(columns);
    JoinedByUnderscores(columns + [last]);
    if columns != [] {
      Uri.JoinSnoc(columns, last, '_');
      var a, b := table + "_" + JoinNames(columns), table + "_" + JoinNames(columns + [last]);
      assert IndexName(table, i)[..|IndexName(table, i)| - 4] == a && IndexName(table, j)[..|IndexName(table, j)| - 4] == b;
      assert b == a + "_" + last;
    }
  }

  lemma UnnamedIndexesDiffer(table: string, i: Index, j: Index)
    requires i.name == None && j.name == None && Plain(i.columns) && Plain(j.columns)
    ensures IndexName(table, i) == IndexName(table, j) <==> i.columns == j.columns
  {
    var a := UnnamedIndexName(table, i);
    var b := UnnamedIndexName(table, j);
    if IndexName(table, i) == IndexName(table, j) {
      assert |a| == |b|;
      assert a == IndexName(table, i)[|table| + 1..|table| + 1 + |a|];
      assert b == IndexName(table, j)[|table| + 1..|table| + 1 + |b|];
    }
  }

  // So the statements of the script create and drop an unnamed index under that
  // name, and a named one under its own.
  lemma IndexStatements(from: Model, to: Model, i: Index, t: Table) returns (joined: string)
    requires i.name == None ==> Plain(i.columns)
    ensures i.name == None ==> Uri.Split(joined, '_') == i.columns
    ensures var name := if i.name.Some? then i.name.value else t.name + "_" + joined + "_idx";
      && (from.name == t.name && i in from.indexes && i !in to.indexes ==> DropIndex(t.name, name) in Plan(from, to))
      && (to.name == t.name && i in to.indexes && i !in from.indexes ==> CreateIndex(t.name, i) in Plan(from, to))
      && (Exec(CreateIndex(t.name, i), t) == if name in t.indexes then None else Some(t.(indexes := t.indexes[name := i])))
  {
    joined := "";
    if i.name == None {
      joined := UnnamedIndexName(t.name, i);
    }
    PlanHasIff(from, to, DropIndex(t.name, IndexName(t.name, i)));
    PlanHasIff(from, to, CreateIndex(t.name, i));
  }

  // The names of constraints, kind by kind.
  lemma ConstraintNames(t: string, n: string, columns: seq<string>, e: string, r: string, a: Option<string>)
    ensures AddedName(t, PrimaryKey(None, columns)) == t + "_pk" && AddedName(t, Unique(None, columns)) == t + "_unique"
    ensures AddedName(t, Check(None, e)) == t + "_check" && AddedName(t, ForeignKey(None, columns, r, columns, a, a)) == t + "_fk"
    ensures DroppedName(t, PrimaryKey(None, columns)) == DroppedName(t, Unique(None, columns)) == t + "_"
    ensures DroppedName(t, Check(None, e)) == DroppedName(t, ForeignKey(None, columns, r, columns, a, a)) == t + "_"
    ensures AddedName(t, PrimaryKey(Some(n), columns)) == DroppedName(t, PrimaryKey(Some(n), columns)) == t + "_" + n
    ensures AddedName(t, Unique(Some(n), columns)) == DroppedName(t, Unique(Some(n), columns)) == t + "_" + n
    ensures AddedName(t, Check(Some(n), e)) == DroppedName(t, Check(Some(n), e)) == t + "_" + n
    ensures var c := ForeignKey(Some(n), columns, r, columns, a, a); AddedName(t, c) == DroppedName(t, c) == t + "_" + n
    ensures !Real(NotNull) && !Real(DefaultValue(e)) && !Real(AutoIncrement)
    ensures forall o :: Real(PrimaryKey(o, columns)) && Real(Unique(o, columns)) && Real(Check(o, e))
                     && Real(ForeignKey(o, columns, r, columns, a, a))
  {}
}
