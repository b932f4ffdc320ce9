/** Every run of the parallel plan leaves the catalogue that the dump's own order leaves, exactly when
    the rows satisfy the foreign keys. */
module PostDataProofs {
  import opened PostData
  import opened Catalogue

  // --- Interleaving tasks of different tables -------------------------------------------------------

  /** Statements whose order does not matter. */
  ghost predicate Commute(w: World, a: Statement, b: Statement) {
    forall c :: Execute(w, a, Execute(w, b, c)) == Execute(w, b, Execute(w, a, c))
  }

  ghost predicate TablesCommute(w: World, items: seq<Item>) {
    forall i, j :: 0 <= i < |items| && 0 <= j < |items| && items[i].table != items[j].table
      ==> Commute(w, items[i].statement, items[j].statement)
  }

  /** A statement that commutes with those before it can run first. */
  lemma {:induction false} MoveFirst(w: World, before: seq<Statement>, s: Statement, c: Catalog)
    requires forall i :: 0 <= i < |before| ==> Commute(w, before[i], s)
    ensures ExecuteAll(w, before, Execute(w, s, c)) == Execute(w, s, ExecuteAll(w, before, c))
    decreases |before|
  {
    hide Execute;
    if before != [] {
      assert Commute(w, before[0], s);
      assert forall i :: 0 <= i < |before[1..]| ==> before[1..][i] == before[i + 1];
      MoveFirst(w, before[1..], s, Execute(w, before[0], c));
    }
  }

  /** First statement of a table in `items`. */
  function FirstOf(items: seq<Item>, table: string): (i: nat)
    requires OfTable(items, table) != []
    ensures i < |items| && items[i].table == table && forall j :: 0 <= j < i ==> items[j].table != table
  {
    if items[0].table == table then 0 else FirstOf(items[1..], table) + 1
  }

  function Without(items: seq<Item>, i: nat): seq<Item>
    requires i < |items|
  {
    items[..i] + items[i + 1..]
  }

  lemma {:induction false} OfTableWithout(items: seq<Item>, i: nat, t: string)
    requires i < |items| && forall j :: 0 <= j < i ==> items[j].table != items[i].table
    ensures t == items[i].table ==> OfTable(items, t) == [items[i].statement] + OfTable(Without(items, i), t)
    ensures t != items[i].table ==> OfTable(items, t) == OfTable(Without(items, i), t)
  {
    var before, after := items[..i], items[i + 1..];
    assert items == before + items[i..] && items[i..][1..] == after;
    OfTableAppend(before, items[i..], t);
    OfTableAppend(before, after, t);
    if t == items[i].table {
      NotInTable(before, t);
    }
  }

  lemma {:induction false} FirstRunsFirst(w: World, items: seq<Item>, i: nat, c: Catalog)
    requires i < |items| && forall j :: 0 <= j < i ==> Commute(w, AsWritten(items[..i])[j], items[i].statement)
    ensures ExecuteAll(w, AsWritten(items), c)
            == ExecuteAll(w, AsWritten(Without(items, i)), Execute(w, items[i].statement, c))
  {
    hide Execute, Commute, ExecuteAll;
    var before, after, s := AsWritten(items[..i]), AsWritten(items[i + 1..]), items[i].statement;
    MoveFirst(w, before, s, c);
    assert AsWritten(items) == before + [s] + after;
    assert AsWritten(Without(items, i)) == before + after;
    ExecuteAllConcat(w, before + [s], after, c);
    ExecuteAllConcat(w, before, [s], c);
    ExecuteAllConcat(w, before, after, Execute(w, s, c));
    OneStatement(w, s, ExecuteAll(w, before, c));
  }

  lemma {:induction false} OneStatement(w: World, s: Statement, c: Catalog)
    ensures ExecuteAll(w, [s], c) == Execute(w, s, c)
  {
    hide Execute;
    assert [s][1..] == [];
  }

  lemma {:induction false} SameTablesSameEffect(w: World, items: seq<Item>, run: seq<Item>, c: Catalog)
    requires TablesCommute(w, items)
    requires forall t :: OfTable(items, t) == OfTable(run, t)
    ensures ExecuteAll(w, AsWritten(run), c) == ExecuteAll(w, AsWritten(items), c)
    decreases |run|
  {
    hide Execute, Commute;
    if run == [] {
      if items != [] {
        assert OfTable(run, items[0].table) == [];
        assert false;
      }
    } else {
      hide TablesCommute;
      var first, t := run[0], run[0].table;
      assert run == [first] + run[1..];
      assert OfTable(run, t) == [first.statement] + OfTable(run[1..], t);
      var i := FirstOf(items, t);
      var rest := Without(items, i);
      hide Without, FirstOf;
      OfTableWithout(items, i, t);
      forall u ensures OfTable(rest, u) == OfTable(run[1..], u) {
        OfTableWithout(items, i, u);
        if u == t {
          assert OfTable(items, t)[1..] == OfTable(rest, t) && OfTable(run, t)[1..] == OfTable(run[1..], t);
        }
      }
      CommuteWithin(w, items, i);
      SameTablesSameEffect(w, rest, run[1..], Execute(w, first.statement, c));
      FirstRunsFirst(w, items, i, c);
      assert AsWritten(run)[1..] == AsWritten(run[1..]);
    }
  }

  lemma {:induction false} CommuteWithin(w: World, items: seq<Item>, i: nat)
    requires TablesCommute(w, items) && i < |items|
    requires forall j :: 0 <= j < i ==> items[j].table != items[i].table
    ensures TablesCommute(w, Without(items, i))
    ensures forall j :: 0 <= j < i ==> Commute(w, AsWritten(items[..i])[j], items[i].statement)
  {
    hide Commute;
    var rest := items[..i] + items[i + 1..];
    forall j, k | 0 <= j < |rest| && 0 <= k < |rest| && rest[j].table != rest[k].table
      ensures Commute(w, rest[j].statement, rest[k].statement)
    {
      var j', k' := if j < i then j else j + 1, if k < i then k else k + 1;
      assert rest[j] == items[j'] && rest[k] == items[k'];
    }
  }

  ghost predicate DistinctTables(tasks: seq<Task>) {
    forall i, j :: 0 <= i < j < |tasks| ==> tasks[i].table != tasks[j].table
  }

  /** The first statement of a run is the next one of some task. */
  lemma {:induction false} NextTask(tasks: seq<Task>, run: seq<Item>) returns (k: nat, rest: seq<Task>)
    requires DistinctTables(tasks) && Interleaved(tasks, run) && run != []
    ensures k < |tasks| && tasks[k].statements != [] && run[0] == Item(tasks[k].table, tasks[k].statements[0])
    ensures |rest| == |tasks| && rest[k] == tasks[k].(statements := tasks[k].statements[1..])
    ensures forall i :: 0 <= i < |tasks| ==> rest[i].table == tasks[i].table && (i != k ==> rest[i] == tasks[i])
    ensures Interleaved(rest, run[1..]) && DistinctTables(rest)
  {
    k :| 0 <= k < |tasks| && tasks[k].statements != []
      && run[0] == Item(tasks[k].table, tasks[k].statements[0])
      && Interleaved(tasks[k := tasks[k].(statements := tasks[k].statements[1..])], run[1..]);
    rest := tasks[k := tasks[k].(statements := tasks[k].statements[1..])];
  }

  /** A run of tasks of distinct tables keeps, table by table, the order of each task. */
  lemma {:induction false} RunKeepsTable(tasks: seq<Task>, run: seq<Item>, i: nat)
    requires DistinctTables(tasks) && Interleaved(tasks, run) && i < |tasks|
    ensures OfTable(run, tasks[i].table) == tasks[i].statements
    decreases |run|
  {
    if run != [] {
      var k, rest := NextTask(tasks, run);
      hide Interleaved, OfTable;
      RunKeepsTable(rest, run[1..], i);
      FirstOfTable(run, tasks[i].table);
      assert tasks[k].table == tasks[i].table <==> k == i;
    }
  }

  lemma {:induction false} RunAvoidsTable(tasks: seq<Task>, run: seq<Item>, table: string)
    requires DistinctTables(tasks) && Interleaved(tasks, run)
    requires forall i :: 0 <= i < |tasks| ==> tasks[i].table != table
    ensures OfTable(run, table) == []
    decreases |run|
  {
    if run != [] {
      var k, rest := NextTask(tasks, run);
      hide Interleaved, OfTable;
      RunAvoidsTable(rest, run[1..], table);
      FirstOfTable(run, table);
    }
  }

  lemma {:induction false} FirstOfTable(run: seq<Item>, table: string)
    requires run != []
    ensures OfTable(run, table) ==
      (if run[0].table == table then [run[0].statement] else []) + OfTable(run[1..], table)
  {
  }

  lemma {:induction false} SameTable(items: seq<Item>, run: seq<Item>, table: string)
    requires Interleaved(TasksByTable(items), run)
    ensures OfTable(items, table) == OfTable(run, table)
  {
    hide Interleaved, OfTable, TableOrder;
    var tasks, order := TasksByTable(items), TableOrder(items);
    assert forall i :: 0 <= i < |tasks| ==> tasks[i] == Task(OfTable(items, order[i]), order[i]);
    if table in order {
      var i :| 0 <= i < |tasks| && order[i] == table;
      RunKeepsTable(tasks, run, i);
    } else {
      RunAvoidsTable(tasks, run, table);
      assert forall i :: 0 <= i < |items| ==> items[i].table in order;
      NotInTable(items, table);
    }
  }

  /** Table by table in parallel, a group of statements has the effect of its own order. */
  lemma {:induction false} ParallelIsSequential(w: World, items: seq<Item>, run: seq<Item>, c: Catalog)
    requires TablesCommute(w, items) && Interleaved(TasksByTable(items), run)
    ensures ExecuteAll(w, AsWritten(run), c) == ExecuteAll(w, AsWritten(items), c)
  {
    hide Interleaved, TablesCommute, ExecuteAll, OfTable, TasksByTable, AsWritten;
    forall t ensures OfTable(items, t) == OfTable(run, t) {
      SameTable(items, run, t);
    }
    SameTablesSameEffect(w, items, run, c);
  }

  // --- What the plan does, statement by statement -----------------------------------------------------

  /** A foreign key as the plan treats it: declared without control, then validated where the rows
      satisfy it. Other statements are executed as they are. */
  function Deferred(w: World, s: Statement, c: Catalog): Catalog {
    if s.ForeignKey? && !s.notValid then ValidateKey(w, KeyOf(s), Execute(w, Uncontrolled(s), c))
    else Execute(w, s, c)
  }

  function DeferredAll(w: World, statements: seq<Statement>, c: Catalog): Catalog
    decreases |statements|
  {
    if statements == [] then c else DeferredAll(w, statements[1..], Deferred(w, statements[0], c))
  }

  lemma {:induction false} DeferredAllConcat(w: World, a: seq<Statement>, b: seq<Statement>, c: Catalog)
    ensures DeferredAll(w, a + b, c) == DeferredAll(w, b, DeferredAll(w, a, c))
    decreases |a|
  {
    hide Deferred;
    if a == [] {
      assert a + b == b;
    } else {
      assert (a + b)[1..] == a[1..] + b;
      DeferredAllConcat(w, a[1..], b, Deferred(w, a[0], c));
    }
  }

  // --- Groups ---------------------------------------------------------------------------------------

  predicate Keyed(s: Statement) {
    Creates(s) || Comments(s)
  }

  /** Every object belongs to one table: the one of its latest creation. */
  ghost predicate Owned(tables: Tables, item: Item) {
    Keyed(item.statement) && KeyOf(item.statement) in tables
    && tables[KeyOf(item.statement)].table == item.table
    && (Creates(item.statement) ==> item.statement.table == item.table)
  }

  ghost predicate GroupFits(kind: Kind, group: seq<Item>, tables: Tables) {
    match kind
    case NoKind => group == []
    case Build => forall i :: 0 <= i < |group| ==> Owned(tables, group[i]) && !group[i].statement.ForeignKey?
    case Reference =>
      && (forall i :: 0 <= i < |group| ==>
            Owned(tables, group[i]) && (group[i].statement.ForeignKey? || Comments(group[i].statement)))
      && (forall i, j :: 0 <= i < j < |group| && group[i].statement.ForeignKey? && group[j].statement.ForeignKey?
            ==> KeyOf(group[i].statement) != KeyOf(group[j].statement))
    case Opaque => forall i :: 0 <= i < |group| ==> !group[i].statement.ForeignKey?
  }

  /** Builds of different tables and comments on different objects. */
  ghost predicate Apart(a: Statement, b: Statement) {
    && Keyed(a) && Keyed(b) && !a.ForeignKey? && !b.ForeignKey? && KeyOf(a) != KeyOf(b)
    && (Creates(a) && Creates(b) ==> a.table != b.table)
  }

  lemma {:induction false} BuildsCommute(w: World, a: Statement, b: Statement)
    requires Apart(a, b)
    ensures Commute(w, a, b)
  {
    hide Apart;
    forall c ensures Execute(w, a, Execute(w, b, c)) == Execute(w, b, Execute(w, a, c)) {
      BuildsCommuteAt(w, a, b, c);
    }
  }

  datatype Change = Unchanged | Add(k: Key, built: Built) | Note(k: Key, text: string)

  function Apply(change: Change, c: Catalog): Catalog {
    match change
    case Unchanged => c
    case Add(k, built) => c.(built := c.built[k := built])
    case Note(k, text) => c.(comments := c.comments[k := text])
  }

  function ChangeOf(w: World, s: Statement, c: Catalog): Change
    requires Keyed(s) && !s.ForeignKey?
  {
    if Comments(s) then (if Exists(c, KeyOf(s)) then Note(KeyOf(s), s.text) else Unchanged)
    else if Exists(c, KeyOf(s)) || !w.buildable(s, OnTable(c, s.table), c.data) then Unchanged
    else Add(KeyOf(s), Built(s.table, s))
  }

  lemma {:induction false} ChangesCommute(x: Change, y: Change, c: Catalog)
    requires !x.Unchanged? && !y.Unchanged? ==> x.k != y.k
    ensures Apply(x, Apply(y, c)) == Apply(y, Apply(x, c))
  {
    if x.Add? && y.Add? {
      assert c.built[x.k := x.built][y.k := y.built] == c.built[y.k := y.built][x.k := x.built];
    } else if x.Note? && y.Note? {
      assert c.comments[x.k := x.text][y.k := y.text] == c.comments[y.k := y.text][x.k := x.text];
    }
  }

  lemma {:induction false} ExecuteApplies(w: World, s: Statement, c: Catalog)
    requires Keyed(s) && !s.ForeignKey?
    ensures Execute(w, s, c) == Apply(ChangeOf(w, s, c), c)
    ensures !ChangeOf(w, s, c).Unchanged? ==> ChangeOf(w, s, c).k == KeyOf(s)
  {
    hide KeyOf, OnTable;
  }

  lemma {:induction false} BuildsCommuteAt(w: World, a: Statement, b: Statement, c: Catalog)
    requires Apart(a, b)
    ensures Execute(w, a, Execute(w, b, c)) == Execute(w, b, Execute(w, a, c))
  {
    BuildKeepsOtherTables(w, a, b, c);
    BuildKeepsOtherTables(w, b, a, c);
    hide KeyOf, OnTable, Exists, Execute, Apply;
    ExecuteApplies(w, a, c);
    ExecuteApplies(w, b, c);
    ExecuteApplies(w, a, Execute(w, b, c));
    ExecuteApplies(w, b, Execute(w, a, c));
    ChangesCommute(ChangeOf(w, a, c), ChangeOf(w, b, c), c);
  }

  lemma {:induction false} BuildKeepsOtherTables(w: World, a: Statement, b: Statement, c: Catalog)
    requires Apart(a, b)
    ensures var c' := Execute(w, b, c);
            && (Exists(c', KeyOf(a)) <==> Exists(c, KeyOf(a))) && c'.data == c.data
            && (Creates(a) ==> OnTable(c', a.table) == OnTable(c, a.table))
  {
    hide KeyOf;
    var c' := Execute(w, b, c);
    if Creates(a) && Creates(b) && c' != c {
      assert c'.built == c.built[KeyOf(b) := Built(b.table, b)];
      forall p | p in OnTable(c', a.table) ensures p in OnTable(c, a.table) {
        assert p.0 in c.built && p == (p.0, c.built[p.0]);
      }
      forall p | p in OnTable(c, a.table) ensures p in OnTable(c', a.table) {
        assert p.0 in c'.built && p == (p.0, c'.built[p.0]);
      }
    }
  }

  lemma {:induction false} BuildGroupCommutes(w: World, group: seq<Item>, tables: Tables)
    requires GroupFits(Build, group, tables)
    ensures TablesCommute(w, group)
  {
    hide Commute;
    forall i, j | 0 <= i < |group| && 0 <= j < |group| && group[i].table != group[j].table
      ensures Commute(w, group[i].statement, group[j].statement)
    {
      assert Owned(tables, group[i]) && Owned(tables, group[j]);
      BuildsCommute(w, group[i].statement, group[j].statement);
    }
  }

  lemma {:induction false} NoForeignKeyDeferred(w: World, group: seq<Item>, c: Catalog)
    requires forall i :: 0 <= i < |group| ==> !group[i].statement.ForeignKey?
    ensures DeferredAll(w, AsWritten(group), c) == ExecuteAll(w, AsWritten(group), c)
    decreases |group|
  {
    hide Execute;
    if group != [] {
      assert AsWritten(group)[1..] == AsWritten(group[1..]);
      NoForeignKeyDeferred(w, group[1..], Execute(w, group[0].statement, c));
    }
  }

  /** Validating one foreign key commutes with what creates or comments other objects. */
  lemma {:induction false} ValidateCommutes(w: World, k: Key, s: Statement, c: Catalog)
    requires s.ForeignKey? ==> s.notValid && KeyOf(s) != k
    requires s.ForeignKey? || Comments(s)
    ensures Execute(w, s, ValidateKey(w, k, c)) == ValidateKey(w, k, Execute(w, s, c))
  {
    hide KeyOf;
    var d := ValidateKey(w, k, c);
    assert forall key :: Exists(d, key) <==> Exists(c, key);
    if s.ForeignKey? && Execute(w, s, c) != c {
      var r := Declared(Definition(s), false);
      if k in c.references && w.satisfied(c.references[k].definition, c.data) {
        assert c.references[KeyOf(s) := r][k := c.references[k].(validated := true)]
            == c.references[k := c.references[k].(validated := true)][KeyOf(s) := r];
      }
    }
  }

  lemma {:induction false} ValidateBefore(w: World, k: Key, group: seq<Item>, c: Catalog)
    requires forall i :: 0 <= i < |group| ==> group[i].statement.ForeignKey? || Comments(group[i].statement)
    requires forall i :: 0 <= i < |group| && group[i].statement.ForeignKey? ==> KeyOf(group[i].statement) != k
    ensures ExecuteAll(w, Created(group), ValidateKey(w, k, c)) == ValidateKey(w, k, ExecuteAll(w, Created(group), c))
    decreases |group|
  {
    hide ValidateKey, Execute;
    if group != [] {
      assert Created(group)[1..] == Created(group[1..]);
      var s := Uncontrolled(group[0].statement);
      ValidateCommutes(w, k, s, c);
      ValidateBefore(w, k, group[1..], Execute(w, s, c));
    }
  }

  /** Declaring the foreign keys of a group without control, then validating them in order. */
  lemma {:induction false} ReferencesDeferred(w: World, group: seq<Item>, tables: Tables, c: Catalog)
    requires GroupFits(Reference, group, tables)
    ensures DeferredAll(w, AsWritten(group), c)
            == ExecuteAll(w, AsWritten(Validations(group)), ExecuteAll(w, Created(group), c))
    decreases |group|
  {
    hide Execute, ValidateKey, Owned;
    if group != [] {
      var item, rest := group[0], group[1..];
      var s := item.statement;
      assert AsWritten(group)[1..] == AsWritten(rest) && Created(group)[1..] == Created(rest);
      var created := ExecuteAll(w, Created(group), c);
      assert created == ExecuteAll(w, Created(rest), Execute(w, Uncontrolled(s), c));
      ReferencesDeferred(w, rest, tables, Deferred(w, s, c));
      if s.ForeignKey? && !s.notValid {
        ValidateBefore(w, KeyOf(s), rest, Execute(w, Uncontrolled(s), c));
        var v := Item(item.table, Validate(s.name, s.table));
        assert AsWritten(Validations(group)) == [v.statement] + AsWritten(Validations(rest));
        ExecuteAllConcat(w, [v.statement], AsWritten(Validations(rest)), created);
        OneStatement(w, v.statement, created);
        ValidateStatement(w, s, created);
      } else {
        assert Validations(group) == Validations(rest);
      }
    }
  }

  lemma {:induction false} ValidateStatement(w: World, s: Statement, c: Catalog)
    requires s.ForeignKey?
    ensures Execute(w, Validate(s.name, s.table), c) == ValidateKey(w, KeyOf(s), c)
  {
  }

  lemma {:induction false} ValidationsCommute(w: World, group: seq<Item>, tables: Tables)
    requires GroupFits(Reference, group, tables)
    ensures TablesCommute(w, Validations(group))
  {
    hide Commute;
    var v := Validations(group);
    ValidationTables(group, tables);
    forall i, j | 0 <= i < |v| && 0 <= j < |v| && v[i].table != v[j].table
      ensures Commute(w, v[i].statement, v[j].statement)
    {
      TwoValidationsCommute(w, v[i].statement, v[j].statement);
    }
  }

  lemma {:induction false} ValidationTables(group: seq<Item>, tables: Tables)
    requires GroupFits(Reference, group, tables)
    ensures forall v :: v in Validations(group) ==> v.statement.Validate? && v.statement.table == v.table
    decreases |group|
  {
    if group != [] {
      assert Owned(tables, group[0]);
      ValidationTables(group[1..], tables);
    }
  }

  lemma {:induction false} TwoValidationsCommute(w: World, a: Statement, b: Statement)
    requires a.Validate? && b.Validate? && KeyOf(a) != KeyOf(b)
    ensures Commute(w, a, b)
  {
    hide KeyOf;
    forall c ensures Execute(w, a, Execute(w, b, c)) == Execute(w, b, Execute(w, a, c)) {
      var x, y := KeyOf(a), KeyOf(b);
      if x in c.references && y in c.references {
        var x', y' := c.references[x].(validated := true), c.references[y].(validated := true);
        assert c.references[x := x'][y := y'] == c.references[y := y'][x := x'];
      }
    }
  }

  // --- The whole plan ---------------------------------------------------------------------------------

  lemma {:induction false} OneTaskRun(task: Task, run: seq<Item>)
    requires Interleaved([task], run)
    ensures AsWritten(run) == task.statements
    decreases |run|
  {
    if run != [] {
      var rest := task.(statements := task.statements[1..]);
      assert [task][0 := rest] == [rest];
      assert Interleaved([rest], run[1..]);
      OneTaskRun(rest, run[1..]);
      assert task.statements == [task.statements[0]] + rest.statements;
      assert AsWritten(run) == [run[0].statement] + AsWritten(run[1..]);
    } else {
      assert [task][0].statements == [];
    }
  }

  lemma {:induction false} PlanRunSplit(a: seq<Step>, b: seq<Step>, run: seq<Item>) returns (k: nat)
    requires PlanRun(a + b, run)
    ensures k <= |run| && PlanRun(a, run[..k]) && PlanRun(b, run[k..])
    decreases |a|
  {
    hide Interleaved, PlanRun;
    if a == [] {
      assert a + b == b && run[0..] == run;
      NoStep(run);
      k := 0;
    } else {
      var j := FirstStep(a, b, run);
      var i := PlanRunSplit(a[1..], b, run[j..]);
      k := j + i;
      Slices(run, j, i);
      StepThenRest(a, run[..k], j);
    }
  }

  lemma {:induction false} Slices(run: seq<Item>, j: nat, i: nat)
    requires j + i <= |run|
    ensures run[..j + i][..j] == run[..j] && run[..j + i][j..] == run[j..][..i] && run[j..][i..] == run[j + i..]
  {
  }

  lemma {:induction false} NoStep(run: seq<Item>)
    ensures PlanRun([], run[..0])
  {
  }

  lemma {:induction false} FirstStep(a: seq<Step>, b: seq<Step>, run: seq<Item>) returns (j: nat)
    requires a != [] && PlanRun(a + b, run)
    ensures j <= |run| && Interleaved(a[0].tasks, run[..j]) && PlanRun(a[1..] + b, run[j..])
  {
    hide Interleaved;
    var steps := a + b;
    assert steps[1..] == a[1..] + b && steps[0] == a[0];
    j :| 0 <= j <= |run| && Interleaved(steps[0].tasks, run[..j]) && PlanRun(steps[1..], run[j..]);
  }

  lemma {:induction false} StepThenRest(steps: seq<Step>, run: seq<Item>, j: nat)
    requires steps != [] && j <= |run|
    requires Interleaved(steps[0].tasks, run[..j]) && PlanRun(steps[1..], run[j..])
    ensures PlanRun(steps, run)
  {
    hide Interleaved;
  }

  lemma {:induction false} OneStepRun(step: Step, run: seq<Item>)
    requires PlanRun([step], run)
    ensures Interleaved(step.tasks, run)
  {
    var k :| 0 <= k <= |run| && Interleaved(step.tasks, run[..k]) && PlanRun([step][1..], run[k..]);
    assert run[..k] == run;
  }

  lemma {:induction false} ReferencesRun(w: World, group: seq<Item>, tables: Tables, run: seq<Item>, c: Catalog)
    requires group != [] && GroupFits(Reference, group, tables) && PlanRun(Close(Reference, group), run)
    ensures ExecuteAll(w, AsWritten(run), c) == DeferredAll(w, AsWritten(group), c)
  {
    hide Interleaved, TasksByTable, GroupFits, ExecuteAll, DeferredAll, Validations, Created, PlanRun, AsWritten;
    var created := Step([Task(Created(group), "")], false);
    var validated := Step(TasksByTable(Validations(group)), true);
    assert Close(Reference, group) == [created] + [validated];
    var k := PlanRunSplit([created], [validated], run);
    OneStepRun(created, run[..k]);
    OneStepRun(validated, run[k..]);
    OneTaskRun(created.tasks[0], run[..k]);
    ValidationsCommute(w, group, tables);
    ParallelIsSequential(w, Validations(group), run[k..], ExecuteAll(w, Created(group), c));
    ReferencesDeferred(w, group, tables, c);
    AsWrittenSplit(run, k);
    ExecuteAllConcat(w, AsWritten(run[..k]), AsWritten(run[k..]), c);
  }

  lemma {:induction false} AsWrittenSplit(run: seq<Item>, k: nat)
    requires k <= |run|
    ensures AsWritten(run) == AsWritten(run[..k]) + AsWritten(run[k..])
  {
  }

  lemma {:induction false} CloseRuns(w: World, kind: Kind, group: seq<Item>, tables: Tables, run: seq<Item>, c: Catalog)
    requires GroupFits(kind, group, tables) && PlanRun(Close(kind, group), run)
    ensures ExecuteAll(w, AsWritten(run), c) == DeferredAll(w, AsWritten(group), c)
  {
    hide Interleaved, TasksByTable, Execute, Deferred, Owned;
    if group == [] {
      assert AsWritten(run) == [] && AsWritten(group) == [];
    } else {
      match kind
      case NoKind =>
      case Build =>
        OneStepRun(Close(kind, group)[0], run);
        BuildGroupCommutes(w, group, tables);
        ParallelIsSequential(w, group, run, c);
        NoForeignKeyDeferred(w, group, c);
      case Reference =>
        ReferencesRun(w, group, tables, run, c);
      case Opaque =>
        OneStepRun(Close(kind, group)[0], run);
        OneTaskRun(Task(AsWritten(group), ""), run);
        NoForeignKeyDeferred(w, group, c);
    }
  }

  ghost predicate TablesFit(tables: Tables) {
    forall k :: k in tables ==>
      && (tables[k].kind == Build || tables[k].kind == Reference)
      && (k.ConstraintKey? ==> tables[k].table == k.table)
      && (k.IndexKey? ==> tables[k].kind == Build)
  }

  /** No statement creates an object under a name already given. */
  ghost predicate FreshFrom(statements: seq<Statement>, tables: Tables)
    decreases |statements|
  {
    statements == []
    || ((Creates(statements[0]) ==> KeyOf(statements[0]) !in tables)
        && FreshFrom(statements[1..], Remember(tables, statements[0])))
  }

  lemma {:induction false} ItemJoins(kind: Kind, group: seq<Item>, tables: Tables, s: Statement)
    requires !s.Meta? && TablesFit(tables) && GroupFits(kind, group, tables)
    requires Creates(s) ==> KeyOf(s) !in tables
    ensures var owner := Classify(tables, s);
            var item, tables' := Item(owner.table, s), Remember(tables, s);
            && TablesFit(tables') && GroupFits(owner.kind, [item], tables')
            && (owner.kind == kind ==> GroupFits(kind, group + [item], tables'))
  {
    var owner := Classify(tables, s);
    var item, tables' := Item(owner.table, s), Remember(tables, s);
    if owner.kind != Opaque {
      assert Owned(tables', item);
      if owner.kind == kind {
        forall i | 0 <= i < |group| ensures Owned(tables', group[i]) {
          assert Owned(tables, group[i]);
        }
      }
    }
  }

  lemma {:induction false} PlanRuns(
    w: World, statements: seq<Statement>, kind: Kind, group: seq<Item>, tables: Tables, run: seq<Item>, c: Catalog)
    requires GroupFits(kind, group, tables) && TablesFit(tables) && FreshFrom(statements, tables)
    requires PlanRun(StepsFrom(statements, kind, group, tables), run)
    ensures ExecuteAll(w, AsWritten(run), c) == DeferredAll(w, AsWritten(group) + statements, c)
    decreases |statements|
  {
    hide GroupFits, TablesFit, PlanRun, Close, Classify, Remember, KeyOf, Execute;
    DeferredAllConcat(w, AsWritten(group), statements, c);
    if statements == [] {
      CloseRuns(w, kind, group, tables, run, c);
    } else {
      var s, rest := statements[0], statements[1..];
      if s.Meta? {
        MetaIsNothing(w, s, tables, DeferredAll(w, AsWritten(group), c));
        DeferredAllConcat(w, AsWritten(group), rest, c);
        PlanRuns(w, rest, kind, group, tables, run, c);
      } else {
        var owner := Classify(tables, s);
        var item, tables' := Item(owner.table, s), Remember(tables, s);
        ItemJoins(kind, group, tables, s);
        if owner.kind != kind {
          var k := PlanRunSplit(Close(kind, group), StepsFrom(rest, owner.kind, [item], tables'), run);
          var c' := DeferredAll(w, AsWritten(group), c);
          CloseRuns(w, kind, group, tables, run[..k], c);
          PlanRuns(w, rest, owner.kind, [item], tables', run[k..], c');
          assert AsWritten(run) == AsWritten(run[..k]) + AsWritten(run[k..]);
          ExecuteAllConcat(w, AsWritten(run[..k]), AsWritten(run[k..]), c);
          assert AsWritten([item]) + rest == statements;
        } else {
          PlanRuns(w, rest, kind, group + [item], tables', run, c);
          assert AsWritten(group + [item]) + rest == AsWritten(group) + statements;
        }
      }
    }
  }

  lemma {:induction false} MetaIsNothing(w: World, s: Statement, tables: Tables, c: Catalog)
    requires s.Meta?
    ensures Deferred(w, s, c) == c && Remember(tables, s) == tables
  {
  }

  // --- When the plan changes nothing -------------------------------------------------------------------

  /** Declaring this foreign key without control first makes no difference: either it is refused
      anyway, or the rows satisfy it. Other statements never make one. */
  predicate Controlled(w: World, s: Statement, c: Catalog) {
    s.ForeignKey? && !s.notValid ==>
      var k := KeyOf(s);
      if k in c.references then
        c.references[k].validated || !w.satisfied(c.references[k].definition, c.data)
      else
        k in c.built || !w.declarable(Definition(s), c.built, c.data) || w.satisfied(Definition(s), c.data)
  }

  /** Every foreign key of the dump is satisfied by the rows it meets. */
  predicate RowsSatisfy(w: World, statements: seq<Statement>, c: Catalog)
    decreases |statements|
  {
    statements == []
    || (Controlled(w, statements[0], c) && RowsSatisfy(w, statements[1..], Execute(w, statements[0], c)))
  }

  lemma {:induction false} ControlledMeans(w: World, s: Statement, c: Catalog)
    ensures Deferred(w, s, c) == Execute(w, s, c) <==> Controlled(w, s, c)
    ensures Deferred(w, s, c) != Execute(w, s, c)
            ==> s.ForeignKey? && Differ(KeyOf(s), Execute(w, s, c), Deferred(w, s, c))
  {
    if s.ForeignKey? && !s.notValid {
      var k := KeyOf(s);
      assert KeyOf(Uncontrolled(s)) == k && Definition(Uncontrolled(s)) == Definition(s);
      hide KeyOf;
      if k in c.references {
        assert c.references[k].validated ==> c.references[k := c.references[k].(validated := true)] == c.references;
      } else {
        var d := Definition(s);
        assert c.references[k := Declared(d, false)][k := Declared(d, true)] == c.references[k := Declared(d, true)];
      }
    }
  }

  lemma {:induction false} SatisfiedRows(w: World, statements: seq<Statement>, c: Catalog)
    requires RowsSatisfy(w, statements, c)
    ensures DeferredAll(w, statements, c) == ExecuteAll(w, statements, c)
    decreases |statements|
  {
    hide Execute, Deferred, Controlled;
    if statements != [] {
      ControlledMeans(w, statements[0], c);
      SatisfiedRows(w, statements[1..], Execute(w, statements[0], c));
    }
  }

  /** The two catalogues disagree on one foreign key. */
  predicate Differ(k: Key, c: Catalog, d: Catalog) {
    k in d.references && (k in c.references ==> c.references[k] != d.references[k])
  }

  ghost predicate NothingOpaque(statements: seq<Statement>) {
    forall s :: s in statements ==> !s.Other? && !s.Validate?
  }

  lemma {:induction false} DifferenceStays(w: World, s: Statement, k: Key, c: Catalog, d: Catalog)
    requires Differ(k, c, d) && !s.Other? && !s.Validate? && (s.ForeignKey? ==> KeyOf(s) != k)
    ensures Differ(k, Execute(w, s, c), Deferred(w, s, d))
  {
    hide KeyOf, OnTable;
  }

  lemma {:induction false} DifferenceStaysAll(
    w: World, statements: seq<Statement>, tables: Tables, k: Key, c: Catalog, d: Catalog)
    requires Differ(k, c, d) && NothingOpaque(statements) && FreshFrom(statements, tables) && k in tables
    ensures Differ(k, ExecuteAll(w, statements, c), DeferredAll(w, statements, d))
    decreases |statements|
  {
    hide Execute, Deferred, Differ, KeyOf, Classify;
    if statements != [] {
      var s := statements[0];
      DifferenceStays(w, s, k, c, d);
      DifferenceStaysAll(w, statements[1..], Remember(tables, s), k, Execute(w, s, c), Deferred(w, s, d));
    }
  }

  lemma {:induction false} ViolationShows(w: World, statements: seq<Statement>, tables: Tables, c: Catalog)
    requires NothingOpaque(statements) && FreshFrom(statements, tables) && !RowsSatisfy(w, statements, c)
    ensures DeferredAll(w, statements, c) != ExecuteAll(w, statements, c)
    decreases |statements|
  {
    hide Execute, Deferred, Controlled, KeyOf, Classify;
    var s, rest := statements[0], statements[1..];
    ControlledMeans(w, s, c);
    if Deferred(w, s, c) == Execute(w, s, c) {
      ViolationShows(w, rest, Remember(tables, s), Execute(w, s, c));
    } else {
      DifferenceStaysAll(w, rest, Remember(tables, s), KeyOf(s), Execute(w, s, c), Deferred(w, s, c));
    }
  }

  // --- The main results -----------------------------------------------------------------------------

  /** No two statements create an object under the same name: an index in its schema, a constraint on
      its table. */
  ghost predicate DistinctNames(statements: seq<Statement>) {
    forall i, j :: 0 <= i < j < |statements| && Creates(statements[i]) && Creates(statements[j])
      ==> KeyOf(statements[i]) != KeyOf(statements[j])
  }

  lemma {:induction false} DistinctIsFresh(statements: seq<Statement>, tables: Tables)
    requires DistinctNames(statements)
    requires forall i :: 0 <= i < |statements| && Creates(statements[i]) ==> KeyOf(statements[i]) !in tables
    ensures FreshFrom(statements, tables)
    decreases |statements|
  {
    hide KeyOf, Classify;
    if statements != [] {
      var rest := statements[1..];
      assert forall i :: 0 <= i < |rest| ==> rest[i] == statements[i + 1];
      DistinctIsFresh(rest, Remember(tables, statements[0]));
    }
  }

  /** Whatever the interleaving of its parallel steps, the plan leaves the catalogue of the dump's own
      order as soon as the rows satisfy the foreign keys. */
  lemma {:induction false} PlanPreservesMeaning(w: World, statements: seq<Statement>, run: seq<Item>, c: Catalog)
    requires DistinctNames(statements) && PlanRun(StepsFrom(statements, NoKind, [], map[]), run)
    requires RowsSatisfy(w, statements, c)
    ensures ExecuteAll(w, AsWritten(run), c) == ExecuteAll(w, statements, c)
  {
    DistinctIsFresh(statements, map[]);
    hide FreshFrom, PlanRun, StepsFrom, DistinctNames, ExecuteAll, DeferredAll, RowsSatisfy;
    PlanRuns(w, statements, NoKind, [], map[], run, c);
    assert AsWritten([]) + statements == statements;
    SatisfiedRows(w, statements, c);
  }

  /** Without opaque statements the condition is exact: a foreign key the rows violate is absent after
      a direct creation, and present but not validated after the plan. */
  lemma {:induction false} PlanPreservesMeaningIff(w: World, statements: seq<Statement>, run: seq<Item>, c: Catalog)
    requires DistinctNames(statements) && PlanRun(StepsFrom(statements, NoKind, [], map[]), run)
    requires NothingOpaque(statements)
    ensures ExecuteAll(w, AsWritten(run), c) == ExecuteAll(w, statements, c) <==> RowsSatisfy(w, statements, c)
  {
    DistinctIsFresh(statements, map[]);
    hide FreshFrom, PlanRun, StepsFrom, DistinctNames, ExecuteAll, DeferredAll, RowsSatisfy;
    PlanRuns(w, statements, NoKind, [], map[], run, c);
    assert AsWritten([]) + statements == statements;
    if RowsSatisfy(w, statements, c) {
      SatisfiedRows(w, statements, c);
    } else {
      ViolationShows(w, statements, map[], c);
    }
  }

  /** One foreign key that the rows violate is enough: after the dump's own order it does not exist,
      after the plan it does. */
  lemma {:induction false} ViolatedForeignKey(run: seq<Item>)
    requires PlanRun(StepsFrom([ForeignKey("fk", "t", false, "")], NoKind, [], map[]), run)
    ensures var w := World((_, _, _) => true, (_, _, _) => true, (_, _) => false, (_, c) => c);
            var empty := Catalog(map[], map[], map[], 0);
            ExecuteAll(w, AsWritten(run), empty) != ExecuteAll(w, [ForeignKey("fk", "t", false, "")], empty)
  {
    var w := World((_, _, _) => true, (_, _, _) => true, (_, _) => false, (_, c) => c);
    hide PlanRun;
    PlanPreservesMeaningIff(w, [ForeignKey("fk", "t", false, "")], run, Catalog(map[], map[], map[], 0));
  }

  // --- Every plan can run ------------------------------------------------------------------------------

  function Remaining(tasks: seq<Task>): nat {
    if tasks == [] then 0 else |tasks[0].statements| + Remaining(tasks[1..])
  }

  lemma {:induction false} RemainingStep(tasks: seq<Task>, i: nat)
    requires i < |tasks| && tasks[i].statements != []
    ensures Remaining(tasks[i := tasks[i].(statements := tasks[i].statements[1..])]) + 1 == Remaining(tasks)
  {
    var next := tasks[i := tasks[i].(statements := tasks[i].statements[1..])];
    if i == 0 {
      assert next[1..] == tasks[1..];
    } else {
      assert next[1..] == tasks[1..][i - 1 := tasks[i].(statements := tasks[i].statements[1..])];
      RemainingStep(tasks[1..], i - 1);
    }
  }

  lemma {:induction false} TasksRun(tasks: seq<Task>) returns (run: seq<Item>)
    ensures Interleaved(tasks, run)
    decreases Remaining(tasks)
  {
    if i :| 0 <= i < |tasks| && tasks[i].statements != [] {
      var next := tasks[i := tasks[i].(statements := tasks[i].statements[1..])];
      RemainingStep(tasks, i);
      var rest := TasksRun(next);
      run := [Item(tasks[i].table, tasks[i].statements[0])] + rest;
      assert run[1..] == rest;
    } else {
      run := [];
    }
  }

  /** No step is ever stuck: every plan has a run. */
  lemma {:induction false} PlanCanRun(steps: seq<Step>) returns (run: seq<Item>)
    ensures PlanRun(steps, run)
    decreases |steps|
  {
    hide Interleaved;
    if steps == [] {
      run := [];
    } else {
      var first := TasksRun(steps[0].tasks);
      var rest := PlanCanRun(steps[1..]);
      run := first + rest;
      assert run[..|first|] == first && run[|first|..] == rest;
    }
  }
}
