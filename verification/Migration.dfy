/**
 The schema migration diff: six passes over two models emit statements, which
 are given a meaning as steps on a table. A step is illegal when it adds what is
 there, drops what is not, drops the last column, or names another table.
 */
module Migration {
  import opened Prelude
  import opened Named

  datatype Constraint =
    | PrimaryKey(name: Option<string>, columns: seq<string>)
    | Unique(name: Option<string>, columns: seq<string>)
    | NotNull
    | DefaultValue(value: string)
    | Check(name: Option<string>, expression: string)
    | ForeignKey(name: Option<string>, columns: seq<string>, referencesTable: string, referencesColumns: seq<string>,
                 onDelete: Option<string>, onUpdate: Option<string>)
    | AutoIncrement

  datatype Column = Column(
    name: string, dataType: string, isNullable: bool, isPrimaryKey: bool, isUnique: bool,
    defaultValue: Option<string>, autoIncrement: bool, comment: Option<string>, constraints: seq<Constraint>)

  datatype Index = Index(
    name: Option<string>, columns: seq<string>, isUnique: bool, indexType: Option<string>, condition: Option<string>)

  datatype Model = Model(
    name: string, columns: seq<Column>, indexes: seq<Index>, constraints: seq<Constraint>)

  datatype Stmt =
    | AddColumn(table: string, column: Column)
    | DropColumn(table: string, columnName: string)
    | AddConstraint(table: string, constraint: Constraint)
    | DropConstraint(table: string, constraintName: string)
    | CreateIndex(table: string, index: Index)
    | DropIndex(table: string, indexName: string)

  // A database adapter, as far as the diff sees it: which statements it refuses
  // to generate.
  datatype Adapter = Adapter(refuses: Stmt -> bool)

  // The SQLite adapter's refusals.
  function Sqlite(): Adapter {
    Adapter((s: Stmt) =>
      match s
      case DropColumn(_, _) => true
      case DropConstraint(_, _) => true
      case AddColumn(_, c) =>
        || c.isPrimaryKey || c.isUnique || (!c.isNullable && c.defaultValue == None)
        || exists i :: 0 <= i < |c.constraints| && c.constraints[i].ForeignKey?
      case CreateIndex(_, i) => i.indexType.Some? && i.indexType.value != "BTree"
      case _ => false)
  }

  // ---------------------------------------------------------------- the script

  predicate HasName(columns: seq<Column>, name: string) {
    exists i :: 0 <= i < |columns| && columns[i].name == name
  }

  // Kinds that exist as table constraints; the others are column-level only.
  predicate Real(c: Constraint) {
    !c.NotNull? && !c.DefaultValue? && !c.AutoIncrement?
  }

  function GivenName(c: Constraint): Option<string> {
    match c
    case PrimaryKey(name, _) => name
    case Unique(name, _) => name
    case Check(name, _) => name
    case ForeignKey(name, _, _, _, _, _) => name
    case _ => None
  }

  function DefaultName(c: Constraint): string {
    match c
    case PrimaryKey(_, _) => "pk"
    case Unique(_, _) => "unique"
    case Check(_, _) => "check"
    case _ => "fk"
  }

  // The name a constraint is added under ...
  function AddedName(table: string, c: Constraint): string {
    table + "_" + (if GivenName(c).Some? then GivenName(c).value else DefaultName(c))
  }

  // ... and the name it is dropped by.
  function DroppedName(table: string, c: Constraint): string {
    table + "_" + (if GivenName(c).Some? then GivenName(c).value else "")
  }

  function JoinNames(names: seq<string>): string {
    if names == [] then ""
    else if |names| == 1 then names[0]
    else names[0] + "_" + JoinNames(names[1..])
  }

  // The name an index is created and dropped by.
  function IndexName(table: string, i: Index): string {
    if i.name.Some? then i.name.value else table + "_" + JoinNames(i.columns) + "_idx"
  }

  function Filter<T(!new)>(p: T -> bool, xs: seq<T>): (ys: seq<T>)
    ensures forall y :: y in ys <==> y in xs && p(y)
  {
    if xs == [] then [] else (if p(xs[0]) then [xs[0]] else []) + Filter(p, xs[1..])
  }

  // Which elements each pass looks for: columns whose name, and elements that
  // themselves, the other side lacks; a constraint must be of a real kind too.
  function LacksColumn(other: seq<Column>): Column -> bool {
    (c: Column) => !HasName(other, c.name)
  }

  function Lacks<T(==)>(other: seq<T>): T -> bool {
    x => x !in other
  }

  function LacksReal(other: seq<Constraint>): Constraint -> bool {
    c => c !in other && Real(c)
  }

  // The statement each pass makes of an element.
  function ToAddColumn(table: string): Column -> Stmt {
    c => AddColumn(table, c)
  }

  function ToDropColumn(table: string): Column -> Stmt {
    (c: Column) => DropColumn(table, c.name)
  }

  function ToAddConstraint(table: string): Constraint -> Stmt {
    c => AddConstraint(table, c)
  }

  function ToDropConstraint(table: string): Constraint -> Stmt {
    c => DropConstraint(table, DroppedName(table, c))
  }

  function ToCreateIndex(table: string): Index -> Stmt {
    i => CreateIndex(table, i)
  }

  function ToDropIndex(table: string): Index -> Stmt {
    i => DropIndex(table, IndexName(table, i))
  }

  function MissingColumns(xs: seq<Column>, ys: seq<Column>): seq<Column> {
    Filter(LacksColumn(ys), xs)
  }

  function Missing<T(==,!new)>(xs: seq<T>, ys: seq<T>): seq<T> {
    Filter(Lacks(ys), xs)
  }

  function MissingReal(xs: seq<Constraint>, ys: seq<Constraint>): seq<Constraint> {
    Filter(LacksReal(ys), xs)
  }

  function ColumnPart(from: Model, to: Model): seq<Stmt> {
    Map(ToAddColumn(to.name), MissingColumns(to.columns, from.columns))
    + Map(ToDropColumn(from.name), MissingColumns(from.columns, to.columns))
  }

  function ConstraintPart(from: Model, to: Model): seq<Stmt> {
    Map(ToAddConstraint(to.name), MissingReal(to.constraints, from.constraints))
    + Map(ToDropConstraint(from.name), MissingReal(from.constraints, to.constraints))
  }

  function IndexPart(from: Model, to: Model): seq<Stmt> {
    Map(ToCreateIndex(to.name), Missing(to.indexes, from.indexes))
    + Map(ToDropIndex(from.name), Missing(from.indexes, to.indexes))
  }

  // The statements of the script, in order: adds before drops in each part.
  function Plan(from: Model, to: Model): seq<Stmt> {
    ColumnPart(from, to) + ConstraintPart(from, to) + IndexPart(from, to)
  }

  ghost predicate Accepts(adapter: Adapter, script: seq<Stmt>) {
    forall s :: s in script ==> !adapter.refuses(s)
  }

  // ------------------------------------------------------------- the generator

  // One pass: emits a statement for each element that needs one, unless the
  // adapter refuses.
  method Pass<T(!new)>(adapter: Adapter, xs: seq<T>, needed: T -> bool, stmt: T -> Stmt, script: seq<Stmt>)
    returns (r: Result<seq<Stmt>, Stmt>)
    requires Accepts(adapter, script)
    ensures r.Ok? ==> r.value == script + Map(stmt, Filter(needed, xs)) && Accepts(adapter, r.value)
    ensures r.Err? ==> adapter.refuses(r.error) && r.error in Map(stmt, Filter(needed, xs))
  {
    var out := script;
    for i := 0 to |xs|
      invariant out == script + Map(stmt, Filter(needed, xs[..i]))
      invariant Accepts(adapter, out)
    {
      FilterSnoc(needed, xs, i);
      if needed(xs[i]) {
        var s := stmt(xs[i]);
        if adapter.refuses(s) {
          assert xs[i] in Filter(needed, xs);
          MapMember(stmt, Filter(needed, xs), xs[i]);
          return Err(s);
        }
        MapSnoc(stmt, Filter(needed, xs[..i]), xs[i]);
        out := out + [s];
      }
    }
    assert xs[..|xs|] == xs;
    r := Ok(out);
  }

  method ColumnPasses(adapter: Adapter, from: Model, to: Model) returns (r: Result<seq<Stmt>, Stmt>)
    ensures r.Ok? ==> r.value == ColumnPart(from, to) && Accepts(adapter, r.value)
    ensures r.Err? ==> adapter.refuses(r.error) && r.error in ColumnPart(from, to)
  {
    r := Pass(adapter, to.columns, LacksColumn(from.columns), ToAddColumn(to.name), []);
    if r.Ok? {
      r := Pass(adapter, from.columns, LacksColumn(to.columns), ToDropColumn(from.name), r.value);
    }
  }

  method ConstraintPasses(adapter: Adapter, from: Model, to: Model) returns (r: Result<seq<Stmt>, Stmt>)
    ensures r.Ok? ==> r.value == ConstraintPart(from, to) && Accepts(adapter, r.value)
    ensures r.Err? ==> adapter.refuses(r.error) && r.error in ConstraintPart(from, to)
  {
    ghost var adds := Map(ToAddConstraint(to.name), MissingReal(to.constraints, from.constraints));
    r := Pass(adapter, to.constraints, LacksReal(from.constraints), ToAddConstraint(to.name), []);
    if r.Ok? {
      assert r.value == adds;
      r := Pass(adapter, from.constraints, LacksReal(to.constraints), ToDropConstraint(from.name), r.value);
    }
  }

  method IndexPasses(adapter: Adapter, from: Model, to: Model) returns (r: Result<seq<Stmt>, Stmt>)
    ensures r.Ok? ==> r.value == IndexPart(from, to) && Accepts(adapter, r.value)
    ensures r.Err? ==> adapter.refuses(r.error) && r.error in IndexPart(from, to)
  {
    r := Pass(adapter, to.indexes, Lacks(from.indexes), ToCreateIndex(to.name), []);
    if r.Ok? {
      r := Pass(adapter, from.indexes, Lacks(to.indexes), ToDropIndex(from.name), r.value);
    }
  }

  // Six passes; the first refusal ends the generation.
  method GenerateMigrationScript(adapter: Adapter, from: Model, to: Model) returns (r: Result<seq<Stmt>, Stmt>)
    ensures r.Ok? ==> r.value == Plan(from, to) && Accepts(adapter, r.value)
    ensures r.Err? ==> adapter.refuses(r.error) && r.error in Plan(from, to)
  {
    var columns := ColumnPasses(adapter, from, to);
    if columns.Err? { return columns; }
    var constraints := ConstraintPasses(adapter, from, to);
    if constraints.Err? { return constraints; }
    var indexes := IndexPasses(adapter, from, to);
    if indexes.Err? { return indexes; }
    r := Ok(columns.value + constraints.value + indexes.value);
  }

  lemma {:induction false} FilterConcat<T(!new)>(p: T -> bool, a: seq<T>, b: seq<T>)
    ensures Filter(p, a + b) == Filter(p, a) + Filter(p, b)
  {
    if a == [] {
      assert a + b == b;
    } else {
      assert (a + b)[1..] == a[1..] + b;
      FilterConcat(p, a[1..], b);
    }
  }

  lemma FilterSnoc<T(!new)>(p: T -> bool, xs: seq<T>, i: nat)
    requires i < |xs|
    ensures Filter(p, xs[..i + 1]) == Filter(p, xs[..i]) + (if p(xs[i]) then [xs[i]] else [])
  {
    assert xs[..i + 1] == xs[..i] + [xs[i]];
    FilterConcat(p, xs[..i], [xs[i]]);
    assert [xs[i]][1..] == [];
  }

  lemma MapSnoc<A, B>(f: A -> B, xs: seq<A>, x: A)
    ensures Map(f, xs + [x]) == Map(f, xs) + [f(x)]
  {}

  lemma MapMember<A, B>(f: A -> B, xs: seq<A>, x: A)
    requires x in xs
    ensures f(x) in Map(f, xs)
  {
    var i :| 0 <= i < |xs| && xs[i] == x;
    assert Map(f, xs)[i] == f(x);
  }

  // ------------------------------------------------------------------- meaning

  datatype Table = Table(
    name: string, columns: seq<Column>, constraints: map<string, Constraint>, indexes: map<string, Index>)

  function NotNamed(n: string): Column -> bool {
    (c: Column) => c.name != n
  }

  // One statement on a table; None when it is illegal.
  function Exec(s: Stmt, t: Table): Option<Table> {
    if s.table != t.name then None
    else
      match s
      case AddColumn(_, c) =>
        if HasName(t.columns, c.name) then None else Some(t.(columns := t.columns + [c]))
      case DropColumn(_, n) =>
        if !HasName(t.columns, n) || |t.columns| == 1 then None
        else Some(t.(columns := Filter(NotNamed(n), t.columns)))
      case AddConstraint(_, c) =>
        var n := AddedName(t.name, c);
        if n in t.constraints then None else Some(t.(constraints := t.constraints[n := c]))
      case DropConstraint(_, n) =>
        if n !in t.constraints then None else Some(t.(constraints := t.constraints - {n}))
      case CreateIndex(_, i) =>
        var n := IndexName(t.name, i);
        if n in t.indexes then None else Some(t.(indexes := t.indexes[n := i]))
      case DropIndex(_, n) =>
        if n !in t.indexes then None else Some(t.(indexes := t.indexes - {n}))
  }

  function Run(script: seq<Stmt>, t: Table): Option<Table>
    decreases |script|
  {
    if script == [] then Some(t)
    else
      match Exec(script[0], t)
      case None => None
      case Some(t') => Run(script[1..], t')
  }

  lemma {:induction false} RunConcat(a: seq<Stmt>, b: seq<Stmt>, t: Table)
    ensures Run(a + b, t) == (match Run(a, t) case None => None case Some(t') => Run(b, t'))
    decreases |a|
  {
    if a == [] {
      assert a + b == b;
    } else {
      assert (a + b)[1..] == a[1..] + b;
      match Exec(a[0], t) {
        case None =>
        case Some(t') => RunConcat(a[1..], b, t');
      }
    }
  }

  lemma MapTail<A, B>(f: A -> B, xs: seq<A>)
    requires xs != []
    ensures Map(f, xs)[0] == f(xs[0]) && Map(f, xs)[1..] == Map(f, xs[1..])
  {}

  // ---- columns

  ghost predicate DistinctColumns(cs: seq<Column>) {
    forall i, j :: 0 <= i < j < |cs| ==> cs[i].name != cs[j].name
  }

  ghost predicate SameNames(a: seq<Column>, b: seq<Column>) {
    forall n :: HasName(a, n) <==> HasName(b, n)
  }

  lemma HasNameConcat(a: seq<Column>, b: seq<Column>, n: string)
    ensures HasName(a + b, n) <==> HasName(a, n) || HasName(b, n)
  {
    if HasName(a, n) {
      var i :| 0 <= i < |a| && a[i].name == n;
      assert (a + b)[i].name == n;
    }
    if HasName(b, n) {
      var i :| 0 <= i < |b| && b[i].name == n;
      assert (a + b)[|a| + i].name == n;
    }
  }

  lemma HasNameFilter(p: Column -> bool, cs: seq<Column>, n: string)
    ensures HasName(Filter(p, cs), n) <==> exists c :: c in cs && p(c) && c.name == n
  {
    if HasName(Filter(p, cs), n) {
      var i :| 0 <= i < |Filter(p, cs)| && Filter(p, cs)[i].name == n;
      assert Filter(p, cs)[i] in Filter(p, cs);
    }
    if c :| c in cs && p(c) && c.name == n {
      assert c in Filter(p, cs);
    }
  }

  lemma HasNameMember(cs: seq<Column>, c: Column)
    requires c in cs
    ensures HasName(cs, c.name)
  {}

  lemma {:induction false} FilterSame<T(!new)>(p: T -> bool, q: T -> bool, xs: seq<T>)
    requires forall x :: x in xs ==> p(x) == q(x)
    ensures Filter(p, xs) == Filter(q, xs)
  {
    if xs != [] {
      assert xs[0] in xs;
      FilterSame(p, q, xs[1..]);
    }
  }

  lemma {:induction false} FilterAll<T(!new)>(p: T -> bool, xs: seq<T>)
    requires forall x :: x in xs ==> p(x)
    ensures Filter(p, xs) == xs
  {
    if xs != [] {
      assert xs[0] in xs;
      FilterAll(p, xs[1..]);
    }
  }

  lemma {:induction false} FilterTwice<T(!new)>(p: T -> bool, q: T -> bool, both: T -> bool, xs: seq<T>)
    requires forall x :: x in xs ==> both(x) == (p(x) && q(x))
    ensures Filter(q, Filter(p, xs)) == Filter(both, xs)
  {
    if xs != [] {
      assert xs[0] in xs;
      FilterTwice(p, q, both, xs[1..]);
      var head := if p(xs[0]) then [xs[0]] else [];
      FilterConcat(q, head, Filter(p, xs[1..]));
    }
  }

  lemma {:induction false} FilterDistinct(p: Column -> bool, cs: seq<Column>)
    requires DistinctColumns(cs)
    ensures DistinctColumns(Filter(p, cs))
  {
    if cs != [] {
      FilterDistinct(p, cs[1..]);
      var rest := Filter(p, cs[1..]);
      forall j | 0 <= j < |rest| ensures rest[j].name != cs[0].name {
        assert rest[j] in cs[1..];
      }
    }
  }

  // Adding columns with fresh, distinct names is legal.
  lemma {:induction false} RunAdds(xs: seq<Column>, t: Table)
    requires DistinctColumns(xs) && forall x :: x in xs ==> !HasName(t.columns, x.name)
    ensures Run(Map(ToAddColumn(t.name), xs), t) == Some(t.(columns := t.columns + xs))
    decreases |xs|
  {
    if xs == [] {
      assert t.columns + xs == t.columns;
    } else {
      MapTail(ToAddColumn(t.name), xs);
      assert xs[0] in xs;
      var t' := t.(columns := t.columns + [xs[0]]);
      forall x | x in xs[1..] ensures !HasName(t'.columns, x.name) {
        HasNameConcat(t.columns, [xs[0]], x.name);
      }
      RunAdds(xs[1..], t');
      assert t.columns + [xs[0]] + xs[1..] == t.columns + xs;
    }
  }

  lemma DropOne(n: string, t: Table, stays: Column)
    requires HasName(t.columns, n) && stays in t.columns && stays.name != n
    ensures Exec(DropColumn(t.name, n), t) == Some(t.(columns := Filter(NotNamed(n), t.columns)))
    ensures stays in Filter(NotNamed(n), t.columns)
    ensures forall m :: m != n && HasName(t.columns, m) ==> HasName(Filter(NotNamed(n), t.columns), m)
  {
    var i :| 0 <= i < |t.columns| && t.columns[i].name == n;
    var j :| 0 <= j < |t.columns| && t.columns[j] == stays;
    assert i != j;
    forall m | m != n && HasName(t.columns, m) ensures HasName(Filter(NotNamed(n), t.columns), m) {
      var k :| 0 <= k < |t.columns| && t.columns[k].name == m;
      HasNameFilter(NotNamed(n), t.columns, m);
      assert t.columns[k] in t.columns;
    }
  }

  lemma LacksTail(xs: seq<Column>, cs: seq<Column>)
    requires xs != []
    ensures Filter(LacksColumn(xs[1..]), Filter(NotNamed(xs[0].name), cs)) == Filter(LacksColumn(xs), cs)
  {
    assert xs == [xs[0]] + xs[1..];
    forall c | c in cs ensures LacksColumn(xs)(c) == (NotNamed(xs[0].name)(c) && LacksColumn(xs[1..])(c)) {
      HasNameConcat([xs[0]], xs[1..], c.name);
    }
    FilterTwice(NotNamed(xs[0].name), LacksColumn(xs[1..]), LacksColumn(xs), cs);
  }

  lemma AfterDropOne(xs: seq<Column>, t: Table, stays: Column)
    requires xs != [] && DistinctColumns(xs) && forall x :: x in xs ==> HasName(t.columns, x.name)
    requires stays in t.columns && !HasName(xs, stays.name)
    ensures Exec(DropColumn(t.name, xs[0].name), t) == Some(t.(columns := Filter(NotNamed(xs[0].name), t.columns)))
    ensures stays in Filter(NotNamed(xs[0].name), t.columns) && !HasName(xs[1..], stays.name)
    ensures forall x :: x in xs[1..] ==> HasName(Filter(NotNamed(xs[0].name), t.columns), x.name)
  {
    HasNameMember(xs, xs[0]);
    DropOne(xs[0].name, t, stays);
    assert xs == [xs[0]] + xs[1..];
    HasNameConcat([xs[0]], xs[1..], stays.name);
    forall x | x in xs[1..] ensures HasName(Filter(NotNamed(xs[0].name), t.columns), x.name) {
      assert x in xs && x.name != xs[0].name;
    }
  }

  // Dropping distinct columns that are there is legal as long as another stays.
  lemma {:induction false} RunDrops(xs: seq<Column>, t: Table, stays: Column)
    requires DistinctColumns(xs) && forall x :: x in xs ==> HasName(t.columns, x.name)
    requires stays in t.columns && !HasName(xs, stays.name)
    ensures Run(Map(ToDropColumn(t.name), xs), t) == Some(t.(columns := MissingColumns(t.columns, xs)))
    decreases |xs|
  {
    if xs == [] {
      FilterAll(LacksColumn(xs), t.columns);
    } else {
      MapTail(ToDropColumn(t.name), xs);
      AfterDropOne(xs, t, stays);
      RunDrops(xs[1..], t.(columns := Filter(NotNamed(xs[0].name), t.columns)), stays);
      LacksTail(xs, t.columns);
    }
  }

  // The columns the script leaves on a table: those shared with `to` first, as
  // they were, then the new ones.
  function Reached(columns: seq<Column>, from: seq<Column>, to: seq<Column>): seq<Column> {
    Filter(HasColumn(to), columns) + MissingColumns(to, from)
  }

  function HasColumn(other: seq<Column>): Column -> bool {
    (c: Column) => HasName(other, c.name)
  }

  // The column statements, on any table that has `from`'s column names, never
  // add a column that is there, drop one that is not, or leave the table without
  // columns; they keep the shared columns in order with their definitions.
  lemma ColumnsLegal(from: Model, to: Model, t: Table)
    requires from.name == to.name == t.name
    requires DistinctColumns(from.columns) && DistinctColumns(to.columns) && SameNames(t.columns, from.columns)
    requires to.columns == [] ==> from.columns == []
    ensures Run(ColumnPart(from, to), t) == Some(t.(columns := Reached(t.columns, from.columns, to.columns)))
  {
    var added, dropped := MissingColumns(to.columns, from.columns), MissingColumns(from.columns, to.columns);
    FilterDistinct(LacksColumn(from.columns), to.columns);
    FilterDistinct(LacksColumn(to.columns), from.columns);
    RunConcat(Map(ToAddColumn(t.name), added), Map(ToDropColumn(t.name), dropped), t);
    RunAdds(added, t);
    var t1 := t.(columns := t.columns + added);
    forall x | x in dropped ensures HasName(t1.columns, x.name) {
      HasNameMember(from.columns, x);
      HasNameConcat(t.columns, added, x.name);
    }
    DroppedNames(from, to);
    if from.columns == [] {
      assert dropped == [] && Map(ToDropColumn(t.name), dropped) == [];
      FilterAll(LacksColumn([]), t1.columns);
    } else {
      var stays := StayingColumn(from, to, t);
      RunDrops(dropped, t1, stays);
    }
    ReachedIsKept(from, to, t);
  }

  // A dropped name is one of `from` that `to` lacks.
  lemma DroppedNames(from: Model, to: Model)
    ensures forall n :: HasName(MissingColumns(from.columns, to.columns), n)
                   <==> HasName(from.columns, n) && !HasName(to.columns, n)
  {
    forall n ensures HasName(MissingColumns(from.columns, to.columns), n)
                <==> HasName(from.columns, n) && !HasName(to.columns, n)
    {
      HasNameFilter(LacksColumn(to.columns), from.columns, n);
      if HasName(from.columns, n) {
        var i :| 0 <= i < |from.columns| && from.columns[i].name == n;
        assert from.columns[i] in from.columns;
      }
      if c :| c in from.columns && LacksColumn(to.columns)(c) && c.name == n {
        HasNameMember(from.columns, c);
      }
    }
  }

  // Some column of `to` is on the table once the new ones are added.
  lemma StayingColumn(from: Model, to: Model, t: Table) returns (stays: Column)
    requires SameNames(t.columns, from.columns) && to.columns != []
    ensures stays in t.columns + MissingColumns(to.columns, from.columns)
    ensures !HasName(MissingColumns(from.columns, to.columns), stays.name)
  {
    DroppedNames(from, to);
    stays := to.columns[0];
    HasNameMember(to.columns, stays);
    if HasName(from.columns, stays.name) {
      assert HasName(t.columns, stays.name);
      var i :| 0 <= i < |t.columns| && t.columns[i].name == stays.name;
      stays := t.columns[i];
    } else {
      assert stays in MissingColumns(to.columns, from.columns);
    }
  }

  lemma ReachedIsKept(from: Model, to: Model, t: Table)
    requires SameNames(t.columns, from.columns)
    ensures var added, dropped := MissingColumns(to.columns, from.columns), MissingColumns(from.columns, to.columns);
      MissingColumns(t.columns + added, dropped) == Reached(t.columns, from.columns, to.columns)
  {
    var added, dropped := MissingColumns(to.columns, from.columns), MissingColumns(from.columns, to.columns);
    DroppedNames(from, to);
    FilterConcat(LacksColumn(dropped), t.columns, added);
    forall c | c in t.columns ensures LacksColumn(dropped)(c) == HasColumn(to.columns)(c) {
      HasNameMember(t.columns, c);
    }
    FilterSame(LacksColumn(dropped), HasColumn(to.columns), t.columns);
    forall c | c in added ensures LacksColumn(dropped)(c) {
      HasNameMember(to.columns, c);
    }
    FilterAll(LacksColumn(dropped), added);
  }

  // The names reached are exactly `to`'s.
  lemma ReachedNames(columns: seq<Column>, from: seq<Column>, to: seq<Column>)
    requires SameNames(columns, from)
    ensures SameNames(Reached(columns, from, to), to)
  {
    forall n ensures HasName(Reached(columns, from, to), n) <==> HasName(to, n) {
      HasNameConcat(Filter(HasColumn(to), columns), MissingColumns(to, from), n);
      HasNameFilter(HasColumn(to), columns, n);
      HasNameFilter(LacksColumn(from), to, n);
      if HasName(to, n) {
        var i :| 0 <= i < |to| && to[i].name == n;
        assert to[i] in to;
        if HasName(columns, n) {
          var k :| 0 <= k < |columns| && columns[k].name == n;
          assert columns[k] in columns;
        }
      }
      if c :| c in to && LacksColumn(from)(c) && c.name == n { HasNameMember(to, c); }
      if c :| c in columns && HasColumn(to)(c) && c.name == n { HasNameMember(columns, c); }
    }
  }

  // The columns reached are `to`'s, as a set, exactly when no shared column has
  // changed its definition: the diff looks at names only.
  lemma ReachedDefinitionsIff(from: seq<Column>, to: seq<Column>)
    requires DistinctColumns(from) && DistinctColumns(to)
    ensures (forall c :: c in Reached(from, from, to) <==> c in to)
       <==> (forall a, b :: a in from && b in to && a.name == b.name ==> a == b)
  {
    if forall c :: c in Reached(from, from, to) <==> c in to {
      forall a, b | a in from && b in to && a.name == b.name ensures a == b {
        HasNameMember(to, b);
        assert a in Filter(HasColumn(to), from);
        assert a in Reached(from, from, to);
      }
    }
    if forall a, b :: a in from && b in to && a.name == b.name ==> a == b {
      forall c ensures c in Reached(from, from, to) <==> c in to {
        if c in Filter(HasColumn(to), from) {
          var i :| 0 <= i < |to| && to[i].name == c.name;
          assert to[i] in to;
        }
        if c in to && c !in MissingColumns(to, from) {
          var i :| 0 <= i < |from| && from[i].name == c.name;
          assert from[i] in from;
          HasNameMember(to, c);
          assert from[i] in Filter(HasColumn(to), from);
        }
      }
    }
  }

  // Going from a to b and then from b to c is legal and ends with the same column
  // names as going from a to c.
  lemma TwoStepsSameNames(a: Model, b: Model, c: Model, t: Table)
    requires a.name == b.name == c.name == t.name && t.columns == a.columns
    requires DistinctColumns(a.columns) && DistinctColumns(b.columns) && DistinctColumns(c.columns)
    requires a.columns != [] && b.columns != [] && c.columns != []
    ensures var direct := Run(ColumnPart(a, c), t);
      var stepwise := Run(ColumnPart(a, b) + ColumnPart(b, c), t);
      && direct.Some? && stepwise.Some?
      && SameNames(direct.value.columns, c.columns) && SameNames(stepwise.value.columns, c.columns)
  {
    ColumnsLegal(a, b, t);
    ReachedNames(t.columns, a.columns, b.columns);
    var t1 := t.(columns := Reached(t.columns, a.columns, b.columns));
    ColumnsLegal(b, c, t1);
    ReachedNames(t1.columns, b.columns, c.columns);
    RunConcat(ColumnPart(a, b), ColumnPart(b, c), t);
    ColumnsLegal(a, c, t);
    ReachedNames(t.columns, a.columns, c.columns);
  }

  // ---- constraints and indexes

  function ConstraintNameOf(table: string): Constraint -> string {
    c => AddedName(table, c)
  }

  function ConstraintDropOf(table: string): Constraint -> string {
    c => DroppedName(table, c)
  }

  function IndexNameOf(table: string): Index -> string {
    i => IndexName(table, i)
  }

  function WithConstraints(t: Table, m: Option<map<string, Constraint>>): Option<Table> {
    match m case None => None case Some(cs) => Some(t.(constraints := cs))
  }

  function WithIndexes(t: Table, m: Option<map<string, Index>>): Option<Table> {
    match m case None => None case Some(xs) => Some(t.(indexes := xs))
  }

  lemma {:induction false} RunConstraintAdds(cs: seq<Constraint>, t: Table)
    ensures Run(Map(ToAddConstraint(t.name), cs), t)
         == WithConstraints(t, AddAll(ConstraintNameOf(t.name), cs, t.constraints))
    decreases |cs|
  {
    if cs != [] {
      MapTail(ToAddConstraint(t.name), cs);
      var n := AddedName(t.name, cs[0]);
      if n !in t.constraints {
        RunConstraintAdds(cs[1..], t.(constraints := t.constraints[n := cs[0]]));
      }
    }
  }

  lemma {:induction false} RunConstraintDrops(cs: seq<Constraint>, t: Table)
    ensures Run(Map(ToDropConstraint(t.name), cs), t)
         == WithConstraints(t, DropAll(Map(ConstraintDropOf(t.name), cs), t.constraints))
    decreases |cs|
  {
    if cs != [] {
      MapTail(ToDropConstraint(t.name), cs);
      MapTail(ConstraintDropOf(t.name), cs);
      var n := DroppedName(t.name, cs[0]);
      if n in t.constraints {
        RunConstraintDrops(cs[1..], t.(constraints := t.constraints - {n}));
      }
    }
  }

  lemma {:induction false} RunIndexAdds(xs: seq<Index>, t: Table)
    ensures Run(Map(ToCreateIndex(t.name), xs), t)
         == WithIndexes(t, AddAll(IndexNameOf(t.name), xs, t.indexes))
    decreases |xs|
  {
    if xs != [] {
      MapTail(ToCreateIndex(t.name), xs);
      var n := IndexName(t.name, xs[0]);
      if n !in t.indexes {
        RunIndexAdds(xs[1..], t.(indexes := t.indexes[n := xs[0]]));
      }
    }
  }

  lemma {:induction false} RunIndexDrops(xs: seq<Index>, t: Table)
    ensures Run(Map(ToDropIndex(t.name), xs), t)
         == WithIndexes(t, DropAll(Map(IndexNameOf(t.name), xs), t.indexes))
    decreases |xs|
  {
    if xs != [] {
      MapTail(ToDropIndex(t.name), xs);
      MapTail(IndexNameOf(t.name), xs);
      var n := IndexName(t.name, xs[0]);
      if n in t.indexes {
        RunIndexDrops(xs[1..], t.(indexes := t.indexes - {n}));
      }
    }
  }

  function IsReal(): Constraint -> bool {
    c => Real(c)
  }

  // The constraints of a model that exist on a table.
  function RealOnly(cs: seq<Constraint>): seq<Constraint> {
    Filter(IsReal(), cs)
  }

  // The constraints and indexes of a model, by the names they get.
  function ConstraintsOf(m: Model): map<string, Constraint> {
    ByName(ConstraintNameOf(m.name), RealOnly(m.constraints))
  }

  function IndexesOf(m: Model): map<string, Index> {
    ByName(IndexNameOf(m.name), m.indexes)
  }

  function TableOf(m: Model): Table {
    Table(m.name, m.columns, ConstraintsOf(m), IndexesOf(m))
  }

  // A model that can be a table: no two columns, constraints or indexes share a
  // name.
  ghost predicate WellFormed(m: Model) {
    && DistinctColumns(m.columns)
    && DistinctNames(ConstraintNameOf(m.name), RealOnly(m.constraints))
    && DistinctNames(IndexNameOf(m.name), m.indexes)
  }

  lemma {:induction false} FilterDistinctNames<T(!new)>(nameOf: T -> string, p: T -> bool, xs: seq<T>)
    requires DistinctNames(nameOf, xs)
    ensures DistinctNames(nameOf, Filter(p, xs))
  {
    if xs != [] {
      FilterDistinctNames(nameOf, p, xs[1..]);
      var rest := Filter(p, xs[1..]);
      forall j | 0 <= j < |rest| ensures nameOf(rest[j]) != nameOf(xs[0]) {
        assert rest[j] in xs[1..];
      }
    }
  }

  lemma MissingRealDistinct(table: string, xs: seq<Constraint>, ys: seq<Constraint>)
    requires DistinctNames(ConstraintNameOf(table), RealOnly(xs))
    ensures DistinctNames(ConstraintNameOf(table), MissingReal(xs, ys))
  {
    FilterTwice(IsReal(), Lacks(ys), LacksReal(ys), xs);
    FilterDistinctNames(ConstraintNameOf(table), Lacks(ys), RealOnly(xs));
  }

  lemma ConstraintDiff(from: Model, to: Model)
    requires WellFormed(from) && WellFormed(to) && from.name == to.name
    ensures Diff(ConstraintNameOf(to.name), RealOnly(from.constraints), RealOnly(to.constraints),
                 MissingReal(to.constraints, from.constraints), MissingReal(from.constraints, to.constraints))
  {
    MissingRealDistinct(to.name, to.constraints, from.constraints);
    MissingRealDistinct(to.name, from.constraints, to.constraints);
  }

  lemma IndexDiff(from: Model, to: Model)
    requires WellFormed(from) && WellFormed(to) && from.name == to.name
    ensures Diff(IndexNameOf(to.name), from.indexes, to.indexes,
                 Missing(to.indexes, from.indexes), Missing(from.indexes, to.indexes))
  {
    FilterDistinctNames(IndexNameOf(to.name), Lacks(from.indexes), to.indexes);
    FilterDistinctNames(IndexNameOf(to.name), Lacks(to.indexes), from.indexes);
  }

  // An unnamed constraint is dropped under a name that no constraint of its
  // kind was added under.
  lemma DroppedUnderOwnNameIff(table: string, c: Constraint)
    ensures DroppedName(table, c) == AddedName(table, c) <==> GivenName(c).Some?
  {
    assert |DefaultName(c)| > 0;
    if GivenName(c) == None {
      assert |AddedName(table, c)| > |DroppedName(table, c)|;
    }
  }

  ghost predicate AllNamed(cs: seq<Constraint>) {
    forall c :: c in cs ==> GivenName(c).Some?
  }

  lemma ConstraintsReachedIff(from: Model, to: Model)
    requires WellFormed(from) && WellFormed(to) && from.name == to.name
    ensures var added, dropped := MissingReal(to.constraints, from.constraints), MissingReal(from.constraints, to.constraints);
      Reconcile(ConstraintNameOf(to.name), ConstraintDropOf(to.name), added, dropped, ConstraintsOf(from))
        == Some(ConstraintsOf(to))
      <==> !Clash(ConstraintNameOf(to.name), added, dropped) && AllNamed(dropped)
  {
    var added, dropped := MissingReal(to.constraints, from.constraints), MissingReal(from.constraints, to.constraints);
    var nameOf, dropOf := ConstraintNameOf(to.name), ConstraintDropOf(to.name);
    ConstraintDiff(from, to);
    forall c ensures dropOf(c) == nameOf(c) <==> GivenName(c).Some? {
      DroppedUnderOwnNameIff(to.name, c);
    }
    forall d, e | GivenName(d) == None && GivenName(e) == None ensures dropOf(e) != nameOf(d) {
      assert |dropOf(e)| == |to.name| + 1 < |nameOf(d)|;
    }
    ReconcileIff(nameOf, dropOf, RealOnly(from.constraints), RealOnly(to.constraints), added, dropped);
  }

  lemma IndexesReachedIff(from: Model, to: Model)
    requires WellFormed(from) && WellFormed(to) && from.name == to.name
    ensures var added, dropped := Missing(to.indexes, from.indexes), Missing(from.indexes, to.indexes);
      Reconcile(IndexNameOf(to.name), IndexNameOf(to.name), added, dropped, IndexesOf(from)) == Some(IndexesOf(to))
      <==> !Clash(IndexNameOf(to.name), added, dropped)
  {
    IndexDiff(from, to);
    ReconcileIff(IndexNameOf(to.name), IndexNameOf(to.name), from.indexes, to.indexes,
                 Missing(to.indexes, from.indexes), Missing(from.indexes, to.indexes));
  }

  lemma ConstraintPartRuns(from: Model, to: Model, t: Table)
    requires from.name == to.name == t.name
    ensures Run(ConstraintPart(from, to), t)
         == WithConstraints(t, Reconcile(ConstraintNameOf(t.name), ConstraintDropOf(t.name),
              MissingReal(to.constraints, from.constraints), MissingReal(from.constraints, to.constraints), t.constraints))
  {
    var added, dropped := MissingReal(to.constraints, from.constraints), MissingReal(from.constraints, to.constraints);
    RunConcat(Map(ToAddConstraint(t.name), added), Map(ToDropConstraint(t.name), dropped), t);
    RunConstraintAdds(added, t);
    var m := AddAll(ConstraintNameOf(t.name), added, t.constraints);
    if m.Some? {
      RunConstraintDrops(dropped, t.(constraints := m.value));
    }
  }

  lemma IndexPartRuns(from: Model, to: Model, t: Table)
    requires from.name == to.name == t.name
    ensures Run(IndexPart(from, to), t)
         == WithIndexes(t, Reconcile(IndexNameOf(t.name), IndexNameOf(t.name),
              Missing(to.indexes, from.indexes), Missing(from.indexes, to.indexes), t.indexes))
  {
    var added, dropped := Missing(to.indexes, from.indexes), Missing(from.indexes, to.indexes);
    RunConcat(Map(ToCreateIndex(t.name), added), Map(ToDropIndex(t.name), dropped), t);
    RunIndexAdds(added, t);
    var m := AddAll(IndexNameOf(t.name), added, t.indexes);
    if m.Some? {
      RunIndexDrops(dropped, t.(indexes := m.value));
    }
  }

  // Dropping one of several distinct columns leaves one.
  lemma DropLeavesOne(columns: seq<Column>, n: string)
    requires DistinctColumns(columns) && |columns| >= 2
    ensures Filter(NotNamed(n), columns) != [] && DistinctColumns(Filter(NotNamed(n), columns))
  {
    var stays := if columns[0].name == n then columns[1] else columns[0];
    assert stays in columns && NotNamed(n)(stays);
    assert stays in Filter(NotNamed(n), columns);
    FilterDistinct(NotNamed(n), columns);
  }

  // No legal script takes a table that has columns to one that has none.
  lemma {:induction false} NeverWithoutColumns(script: seq<Stmt>, t: Table)
    requires t.columns != [] && DistinctColumns(t.columns) && Run(script, t).Some?
    ensures Run(script, t).value.columns != []
    decreases |script|
  {
    if script != [] {
      var s := script[0];
      if s.DropColumn? {
        DropLeavesOne(t.columns, s.columnName);
      } else if s.AddColumn? && !HasName(t.columns, s.column.name) {
        assert DistinctColumns(t.columns + [s.column]);
      }
      NeverWithoutColumns(script[1..], Exec(s, t).value);
    }
  }

  lemma {:induction false} FilterNone<T(!new)>(p: T -> bool, xs: seq<T>)
    requires forall x :: x in xs ==> !p(x)
    ensures Filter(p, xs) == []
  {
    if xs != [] {
      FilterNone(p, xs[1..]);
    }
  }

  lemma NothingReached(columns: seq<Column>, from: seq<Column>)
    ensures Reached(columns, from, []) == []
  {
    FilterNone(HasColumn([]), columns);
    FilterNone(LacksColumn(from), []);
  }

  // The whole script on `from`'s table. It is legal step by step and ends with
  // the shared columns as they were, then the new ones, and with exactly `to`'s
  // constraints and indexes, if and only if nothing added has the name of
  // something dropped, every dropped constraint is named, and a table that has
  // columns keeps some.
  lemma MigrationReachesIff(from: Model, to: Model)
    requires WellFormed(from) && WellFormed(to) && from.name == to.name
    ensures Run(Plan(from, to), TableOf(from))
              == Some(TableOf(to).(columns := Reached(from.columns, from.columns, to.columns)))
       <==> && !Clash(ConstraintNameOf(to.name), MissingReal(to.constraints, from.constraints),
                      MissingReal(from.constraints, to.constraints))
            && AllNamed(MissingReal(from.constraints, to.constraints))
            && !Clash(IndexNameOf(to.name), Missing(to.indexes, from.indexes), Missing(from.indexes, to.indexes))
            && (to.columns == [] ==> from.columns == [])
  {
    if to.columns == [] && from.columns != [] {
      NothingReached(from.columns, from.columns);
      if Run(Plan(from, to), TableOf(from)).Some? {
        NeverWithoutColumns(Plan(from, to), TableOf(from));
      }
    } else {
      ColumnsThenTheRest(from, to);
    }
  }

  lemma ColumnsThenTheRest(from: Model, to: Model)
    requires WellFormed(from) && WellFormed(to) && from.name == to.name
    requires to.columns == [] ==> from.columns == []
    ensures Run(Plan(from, to), TableOf(from))
              == Some(TableOf(to).(columns := Reached(from.columns, from.columns, to.columns)))
       <==> && !Clash(ConstraintNameOf(to.name), MissingReal(to.constraints, from.constraints),
                      MissingReal(from.constraints, to.constraints))
            && AllNamed(MissingReal(from.constraints, to.constraints))
            && !Clash(IndexNameOf(to.name), Missing(to.indexes, from.indexes), Missing(from.indexes, to.indexes))
  {
    var t := TableOf(from);
    RunConcat(ColumnPart(from, to) + ConstraintPart(from, to), IndexPart(from, to), t);
    RunConcat(ColumnPart(from, to), ConstraintPart(from, to), t);
    ColumnsLegal(from, to, t);
    var t1 := t.(columns := Reached(t.columns, from.columns, to.columns));
    ConstraintPartRuns(from, to, t1);
    ConstraintsReachedIff(from, to);
    var m := Run(ConstraintPart(from, to), t1);
    if m.Some? {
      IndexPartRuns(from, to, m.value);
      IndexesReachedIff(from, to);
    }
  }
}
