/** Whatever its interleaving, a run of the plan executes every statement of the dump once, and validates once
    each foreign key that it created without control. */
module PostDataOnce {
  import opened PostData
  import opened Catalogue

  /** How many times each statement occurs. */
  function Bag(statements: seq<Statement>): multiset<Statement> {
    multiset(statements)
  }

  lemma {:induction false} BagAppend(a: seq<Statement>, b: seq<Statement>)
    ensures Bag(a + b) == Bag(a) + Bag(b)
  {
  }

  lemma {:induction false} BagFirst(a: seq<Statement>)
    requires a != []
    ensures Bag(a) == multiset{a[0]} + Bag(a[1..])
  {
    assert a == [a[0]] + a[1..];
  }

  /** What the plan owes to a statement of the dump. */
  function Owed(s: Statement): multiset<Statement> {
    if s.Meta? then multiset{}
    else if s.ForeignKey? && !s.notValid then multiset{Uncontrolled(s), Validate(s.name, s.table)}
    else multiset{s}
  }

  function OwedAll(statements: seq<Statement>): multiset<Statement> {
    if statements == [] then multiset{} else Owed(statements[0]) + OwedAll(statements[1..])
  }

  function TasksTotal(tasks: seq<Task>): multiset<Statement> {
    if tasks == [] then multiset{} else Bag(tasks[0].statements) + TasksTotal(tasks[1..])
  }

  function StepsTotal(steps: seq<Step>): multiset<Statement> {
    if steps == [] then multiset{} else TasksTotal(steps[0].tasks) + StepsTotal(steps[1..])
  }

  // --- A run executes what its steps hold ---------------------------------------------------------------

  lemma {:induction false} TasksTotalAppend(a: seq<Task>, b: seq<Task>)
    ensures TasksTotal(a + b) == TasksTotal(a) + TasksTotal(b)
  {
    if a == [] {
      assert a + b == b;
    } else {
      assert (a + b)[1..] == a[1..] + b;
      TasksTotalAppend(a[1..], b);
    }
  }

  lemma {:induction false} TasksTotalAt(tasks: seq<Task>, k: nat, t: Task)
    requires k < |tasks|
    ensures TasksTotal(tasks) == TasksTotal(tasks[..k]) + Bag(tasks[k].statements) + TasksTotal(tasks[k + 1..])
    ensures TasksTotal(tasks[k := t]) == TasksTotal(tasks[..k]) + Bag(t.statements) + TasksTotal(tasks[k + 1..])
  {
    hide TasksTotal, Bag;
    var before, after := tasks[..k], tasks[k + 1..];
    TasksTotalAppend(before, [tasks[k]] + after);
    TasksTotalAppend(before, [t] + after);
    TasksTotalFirst(tasks[k], after);
    TasksTotalFirst(t, after);
    assert tasks == before + ([tasks[k]] + after) && tasks[k := t] == before + ([t] + after);
  }

  lemma {:induction false} TasksTotalFirst(t: Task, rest: seq<Task>)
    ensures TasksTotal([t] + rest) == Bag(t.statements) + TasksTotal(rest)
  {
    assert ([t] + rest)[1..] == rest;
  }

  lemma {:induction false} NoneLeft(tasks: seq<Task>)
    requires forall i :: 0 <= i < |tasks| ==> tasks[i].statements == []
    ensures TasksTotal(tasks) == multiset{}
  {
    if tasks != [] {
      NoneLeft(tasks[1..]);
    }
  }

  lemma {:induction false} FirstWritten(run: seq<Item>)
    requires run != []
    ensures Bag(AsWritten(run)) == multiset{run[0].statement} + Bag(AsWritten(run[1..]))
  {
    assert AsWritten(run) == [run[0].statement] + AsWritten(run[1..]);
    BagFirst(AsWritten(run));
  }

  lemma {:induction false} WrittenSplit(run: seq<Item>, k: nat)
    requires k <= |run|
    ensures Bag(AsWritten(run)) == Bag(AsWritten(run[..k])) + Bag(AsWritten(run[k..]))
  {
    assert AsWritten(run) == AsWritten(run[..k]) + AsWritten(run[k..]);
    BagAppend(AsWritten(run[..k]), AsWritten(run[k..]));
  }

  lemma {:induction false} SomeTaskAdvances(tasks: seq<Task>, run: seq<Item>) returns (k: nat, rest: Task)
    requires Interleaved(tasks, run) && run != []
    ensures k < |tasks| && tasks[k].statements != [] && tasks[k].statements[0] == run[0].statement
    ensures rest.statements == tasks[k].statements[1..] && Interleaved(tasks[k := rest], run[1..])
  {
    k :| 0 <= k < |tasks| && tasks[k].statements != []
      && run[0] == Item(tasks[k].table, tasks[k].statements[0])
      && Interleaved(tasks[k := tasks[k].(statements := tasks[k].statements[1..])], run[1..]);
    rest := tasks[k].(statements := tasks[k].statements[1..]);
  }

  lemma {:induction false} InterleavedTotal(tasks: seq<Task>, run: seq<Item>)
    requires Interleaved(tasks, run)
    ensures Bag(AsWritten(run)) == TasksTotal(tasks)
    decreases |run|
  {
    if run == [] {
      NoneLeft(tasks);
    } else {
      hide AsWritten, Bag, TasksTotal, Interleaved;
      var k, rest := SomeTaskAdvances(tasks, run);
      InterleavedTotal(tasks[k := rest], run[1..]);
      FirstWritten(run);
      TasksTotalAt(tasks, k, rest);
      BagFirst(tasks[k].statements);
    }
  }

  lemma {:induction false} RunTotal(steps: seq<Step>, run: seq<Item>)
    requires PlanRun(steps, run)
    ensures Bag(AsWritten(run)) == StepsTotal(steps)
    decreases |steps|
  {
    if steps != [] {
      hide AsWritten, Bag, TasksTotal, Interleaved;
      var k :| 0 <= k <= |run| && Interleaved(steps[0].tasks, run[..k]) && PlanRun(steps[1..], run[k..]);
      InterleavedTotal(steps[0].tasks, run[..k]);
      RunTotal(steps[1..], run[k..]);
      WrittenSplit(run, k);
    }
  }

  // --- The steps hold what is owed -----------------------------------------------------------------------

  lemma {:induction false} StepsTotalAppend(a: seq<Step>, b: seq<Step>)
    ensures StepsTotal(a + b) == StepsTotal(a) + StepsTotal(b)
  {
    if a == [] {
      assert a + b == b;
    } else {
      assert (a + b)[1..] == a[1..] + b;
      StepsTotalAppend(a[1..], b);
    }
  }

  lemma {:induction false} OwedAppend(a: seq<Statement>, b: seq<Statement>)
    ensures OwedAll(a + b) == OwedAll(a) + OwedAll(b)
  {
    if a == [] {
      assert a + b == b;
    } else {
      assert (a + b)[1..] == a[1..] + b && (a + b)[0] == a[0];
      OwedAppend(a[1..], b);
    }
  }

  /** Cutting a group into tasks by table loses and repeats nothing. */
  lemma {:induction false} ByTableTotal(items: seq<Item>)
    ensures TasksTotal(TasksByTable(items)) == Bag(AsWritten(items))
    decreases |items|
  {
    if items != [] {
      hide TasksByTable, TableOrder, OfTable, Bag, TasksTotal;
      var n := |items| - 1;
      var before, item := items[..n], items[n];
      ByTableTotal(before);
      assert items == before + [item];
      assert AsWritten(items) == AsWritten(before) + [item.statement];
      BagAppend(AsWritten(before), [item.statement]);
      OneBag(item.statement);
      ItemJoinsTasks(before, item);
    } else {
      assert TableOrder(items) == [] && TasksByTable(items) == [];
    }
  }

  lemma {:induction false} OneBag(s: Statement)
    ensures Bag([s]) == multiset{s}
  {
  }

  lemma {:induction false} ItemJoinsTasks(items: seq<Item>, item: Item)
    ensures TasksTotal(TasksByTable(items + [item])) == TasksTotal(TasksByTable(items)) + multiset{item.statement}
  {
    hide OfTable;
    var tasks, order := TasksByTable(items), TableOrder(items);
    if item.table in order {
      var k :| 0 <= k < |order| && order[k] == item.table;
      TasksAppend(items, item, k);
      var grown := tasks[k].(statements := tasks[k].statements + [item.statement]);
      TasksTotalAt(tasks, k, grown);
    } else {
      TasksAppend(items, item, |order|);
      var alone := Task([item.statement], item.table);
      TasksTotalAppend(tasks, [alone]);
      assert TasksTotal([alone]) == multiset{item.statement} by {
        assert [alone][1..] == [];
      }
    }
  }

  lemma {:induction false} OneTask(statements: seq<Statement>, table: string)
    ensures TasksTotal([Task(statements, table)]) == Bag(statements)
  {
    assert [Task(statements, table)][1..] == [];
  }

  /** Only a group of foreign keys owes more than its own statements. */
  ghost predicate GroupIs(kind: Kind, group: seq<Item>) {
    forall i :: 0 <= i < |group| ==>
      !group[i].statement.Meta? && (group[i].statement.ForeignKey? ==> kind.Reference?)
  }

  lemma {:induction false} NothingMoreOwed(group: seq<Item>)
    requires forall i :: 0 <= i < |group| ==> !group[i].statement.Meta? && !group[i].statement.ForeignKey?
    ensures OwedAll(AsWritten(group)) == Bag(AsWritten(group))
  {
    if group != [] {
      NothingMoreOwed(group[1..]);
      FirstWritten(group);
      assert AsWritten(group)[1..] == AsWritten(group[1..]);
    }
  }

  lemma {:induction false} CreatedAndValidated(group: seq<Item>)
    requires forall i :: 0 <= i < |group| ==> !group[i].statement.Meta?
    ensures OwedAll(AsWritten(group)) == Bag(Created(group)) + Bag(AsWritten(Validations(group)))
  {
    if group != [] {
      var s, rest := group[0].statement, group[1..];
      var own := if s.ForeignKey? && !s.notValid then [Validate(s.name, s.table)] else [];
      FirstOfGroup(group, own);
      hide AsWritten, Created, Validations, Bag, Owed, OwedAll;
      OwedFirst(AsWritten(group));
      CreatedAndValidated(rest);
      BagAppend([Uncontrolled(s)], Created(rest));
      BagAppend(own, AsWritten(Validations(rest)));
      OwedIs(s, own);
    }
  }

  lemma {:induction false} FirstOfGroup(group: seq<Item>, own: seq<Statement>)
    requires group != []
    requires var s := group[0].statement;
      own == if s.ForeignKey? && !s.notValid then [Validate(s.name, s.table)] else []
    ensures AsWritten(group) != [] && AsWritten(group)[0] == group[0].statement
    ensures AsWritten(group)[1..] == AsWritten(group[1..])
    ensures Created(group) == [Uncontrolled(group[0].statement)] + Created(group[1..])
    ensures AsWritten(Validations(group)) == own + AsWritten(Validations(group[1..]))
  {
  }

  lemma {:induction false} OwedIs(s: Statement, own: seq<Statement>)
    requires !s.Meta? && own == if s.ForeignKey? && !s.notValid then [Validate(s.name, s.table)] else []
    ensures Owed(s) == Bag([Uncontrolled(s)]) + Bag(own)
  {
  }

  lemma {:induction false} CloseOwes(kind: Kind, group: seq<Item>)
    requires GroupIs(kind, group)
    ensures StepsTotal(Close(kind, group)) == OwedAll(AsWritten(group))
  {
    hide TasksByTable, Created, Validations, TasksTotal, StepsTotal, OwedAll, Bag;
    if group == [] {
      assert AsWritten(group) == [];
      NothingOwed();
    } else {
      hide AsWritten;
      match kind
      case Build =>
        ByTableTotal(group);
        NothingMoreOwed(group);
        OneStep(Step(TasksByTable(group), true));
      case Reference =>
        var created, validated :=
          Step([Task(Created(group), "")], false), Step(TasksByTable(Validations(group)), true);
        ByTableTotal(Validations(group));
        OneTask(Created(group), "");
        CreatedAndValidated(group);
        TwoSteps(created, validated);
      case _ =>
        OneTask(AsWritten(group), "");
        NothingMoreOwed(group);
        OneStep(Step([Task(AsWritten(group), "")], false));
    }
  }

  lemma {:induction false} NothingOwed()
    ensures StepsTotal([]) == OwedAll([]) == multiset{}
  {
  }

  lemma {:induction false} OneStep(step: Step)
    ensures StepsTotal([step]) == TasksTotal(step.tasks)
  {
    assert [step][1..] == [];
  }

  lemma {:induction false} TwoSteps(first: Step, second: Step)
    ensures StepsTotal([first, second]) == TasksTotal(first.tasks) + TasksTotal(second.tasks)
  {
    assert [first, second] == [first] + [second];
    StepsTotalAppend([first], [second]);
    OneStep(first);
    OneStep(second);
  }

  lemma {:induction false} OwedFirst(statements: seq<Statement>)
    requires statements != []
    ensures OwedAll(statements) == Owed(statements[0]) + OwedAll(statements[1..])
    ensures statements[0].Meta? ==> Owed(statements[0]) == multiset{}
  {
  }

  lemma {:induction false} StepsOwe(statements: seq<Statement>, kind: Kind, group: seq<Item>, tables: Tables)
    requires GroupIs(kind, group)
    ensures StepsTotal(StepsFrom(statements, kind, group, tables)) == OwedAll(AsWritten(group)) + OwedAll(statements)
    decreases |statements|
  {
    hide Close, Remember, KeyOf, AsWritten, StepsTotal, Bag, Owed, OwedAll;
    if statements == [] {
      CloseOwes(kind, group);
      NothingOwed();
    } else {
      var s, rest := statements[0], statements[1..];
      OwedFirst(statements);
      if s.Meta? {
        StepsOwe(rest, kind, group, tables);
      } else {
        var owner := Classify(tables, s);
        var item, tables' := Item(owner.table, s), Remember(tables, s);
        OneOwed(item);
        if owner.kind != kind {
          CloseOwes(kind, group);
          StepsTotalAppend(Close(kind, group), StepsFrom(rest, owner.kind, [item], tables'));
          StepsOwe(rest, owner.kind, [item], tables');
        } else {
          OwedAppend(AsWritten(group), [s]);
          OneMoreWritten(group, item);
          StepsOwe(rest, kind, group + [item], tables');
        }
      }
    }
  }

  lemma {:induction false} OneMoreWritten(group: seq<Item>, item: Item)
    ensures AsWritten(group + [item]) == AsWritten(group) + [item.statement]
  {
  }

  lemma {:induction false} OneOwed(item: Item)
    ensures OwedAll([item.statement]) == Owed(item.statement) && AsWritten([item]) == [item.statement]
  {
    assert [item.statement][1..] == [];
  }

  /** For every dump and every run of its plan: each statement is executed as many times as the dump has it,
      psql's own commands excepted; a foreign key with control is declared without it, and validated once. */
  lemma {:induction false} RunsEachOnce(statements: seq<Statement>, run: seq<Item>)
    requires PlanRun(StepsFrom(statements, NoKind, [], map[]), run)
    ensures multiset(AsWritten(run)) == OwedAll(statements)
  {
    hide StepsFrom;
    RunTotal(StepsFrom(statements, NoKind, [], map[]), run);
    StepsOwe(statements, NoKind, [], map[]);
    assert AsWritten([]) == [];
  }

  predicate ControlledKey(s: Statement, name: string, table: string) {
    s.ForeignKey? && !s.notValid && s.name == name && s.table == table
  }

  lemma {:induction false} NotOwed(statements: seq<Statement>, name: string, table: string)
    requires forall s :: s in statements ==> !s.Validate? && !ControlledKey(s, name, table)
    ensures OwedAll(statements)[Validate(name, table)] == 0
  {
    if statements != [] {
      NotOwed(statements[1..], name, table);
      assert statements[0] in statements;
    }
  }

  /** With one foreign key of that name on that table, every run validates it exactly once. */
  lemma {:induction false} ValidatedOnce(statements: seq<Statement>, run: seq<Item>, i: nat)
    requires PlanRun(StepsFrom(statements, NoKind, [], map[]), run)
    requires i < |statements| && statements[i].ForeignKey? && !statements[i].notValid
    requires forall j :: 0 <= j < |statements| ==> !statements[j].Validate?
    requires forall j :: 0 <= j < |statements| && j != i ==>
      !ControlledKey(statements[j], statements[i].name, statements[i].table)
    ensures multiset(AsWritten(run))[Validate(statements[i].name, statements[i].table)] == 1
  {
    hide StepsFrom, PlanRun, AsWritten, OwedAll;
    var s := statements[i];
    RunsEachOnce(statements, run);
    assert statements == statements[..i] + ([s] + statements[i + 1..]);
    OwedAppend(statements[..i], [s] + statements[i + 1..]);
    OwedAppend([s], statements[i + 1..]);
    OneOwed(Item("", s));
    NotOwed(statements[..i], s.name, s.table);
    NotOwed(statements[i + 1..], s.name, s.table);
  }
}
