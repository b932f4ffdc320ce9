/** The parallel plan of a dump's post-data (odoo_manager_core/database_restore.py).

    Statements are given as the source's patterns read them; everything else is opaque text. */
module PostData {
  /** What a statement creates or comments on. */
  datatype Key = IndexKey(name: string) | ConstraintKey(name: string, table: string)

  datatype Statement =
    | Index(name: string, table: string, text: string)
    | Constraint(name: string, table: string, text: string)
    | ForeignKey(name: string, table: string, notValid: bool, text: string)
    | Validate(name: string, table: string)
    | ConstraintComment(name: string, table: string, text: string)
    | IndexComment(name: string, text: string)
    | Meta(text: string)
    | Other(text: string)

  datatype Kind = NoKind | Build | Reference | Opaque

  /** `table.rpartition(".")[0]` */
  function Schema(table: string): string {
    if table == "" then ""
    else if table[|table| - 1] == '.' then table[..|table| - 1]
    else Schema(table[..|table| - 1])
  }

  predicate Creates(s: Statement) {
    s.Index? || s.Constraint? || s.ForeignKey?
  }

  predicate Comments(s: Statement) {
    s.ConstraintComment? || s.IndexComment?
  }

  function KeyOf(s: Statement): Key
    requires Creates(s) || Comments(s) || s.Validate?
  {
    match s
    case Index(name, table, _) => IndexKey(if Schema(table) != "" then Schema(table) + "." + name else name)
    case Constraint(name, table, _) => ConstraintKey(name, table)
    case ForeignKey(name, table, _, _) => ConstraintKey(name, table)
    case Validate(name, table) => ConstraintKey(name, table)
    case ConstraintComment(name, table, _) => ConstraintKey(name, table)
    case IndexComment(name, _) => IndexKey(name)
  }

  datatype Owner = Owner(kind: Kind, table: string)
  type Tables = map<Key, Owner>

  datatype Item = Item(table: string, statement: Statement)

  datatype Task = Task(statements: seq<Statement>, table: string)
  datatype Step = Step(tasks: seq<Task>, parallel: bool)

  /** Kind of a statement and the table it goes with. */
  function Classify(tables: Tables, s: Statement): Owner {
    match s
    case Index(_, table, _) => Owner(Build, table)
    case Constraint(_, table, _) => Owner(Build, table)
    case ForeignKey(_, table, _, _) => Owner(Reference, table)
    case ConstraintComment(_, _, _) => if KeyOf(s) in tables then tables[KeyOf(s)] else Owner(Opaque, "")
    case IndexComment(_, _) => if KeyOf(s) in tables then tables[KeyOf(s)] else Owner(Opaque, "")
    case _ => Owner(Opaque, "")
  }

  function Remember(tables: Tables, s: Statement): Tables {
    if Creates(s) then tables[KeyOf(s) := Classify(tables, s)] else tables
  }

  // --- Tasks --------------------------------------------------------------------------------------

  /** The statements of one table, in order. */
  function OfTable(items: seq<Item>, table: string): seq<Statement> {
    if items == [] then []
    else (if items[0].table == table then [items[0].statement] else []) + OfTable(items[1..], table)
  }

  /** The tables in the order of their first statement. */
  function TableOrder(items: seq<Item>): (tables: seq<string>)
    ensures forall t :: t in tables <==> exists i :: 0 <= i < |items| && items[i].table == t
    ensures forall i, j :: 0 <= i < j < |tables| ==> tables[i] != tables[j]
  {
    if items == [] then []
    else
      var last := items[|items| - 1].table;
      var before := TableOrder(items[..|items| - 1]);
      assert items == items[..|items| - 1] + [items[|items| - 1]];
      if last in before then before else before + [last]
  }

  function TasksByTable(items: seq<Item>): seq<Task> {
    var order := TableOrder(items);
    seq(|order|, i requires 0 <= i < |order| => Task(OfTable(items, order[i]), order[i]))
  }

  function AsWritten(items: seq<Item>): seq<Statement> {
    seq(|items|, i requires 0 <= i < |items| => items[i].statement)
  }

  /** A foreign key is first created without control; one already NOT VALID stays as it is. */
  function Uncontrolled(s: Statement): Statement {
    if s.ForeignKey? then s.(notValid := true) else s
  }

  function Created(group: seq<Item>): seq<Statement> {
    seq(|group|, i requires 0 <= i < |group| => Uncontrolled(group[i].statement))
  }

  function Validations(group: seq<Item>): seq<Item> {
    if group == [] then []
    else
      var s := group[0].statement;
      (if s.ForeignKey? && !s.notValid then [Item(group[0].table, Validate(s.name, s.table))] else [])
      + Validations(group[1..])
  }

  function Close(kind: Kind, group: seq<Item>): seq<Step> {
    if group == [] then []
    else match kind
      case Build => [Step(TasksByTable(group), true)]
      case Reference =>
        [Step([Task(Created(group), "")], false), Step(TasksByTable(Validations(group)), true)]
      case _ => [Step([Task(AsWritten(group), "")], false)]
  }

  /** The plan of the remaining statements, an open group and the objects seen being given. */
  function StepsFrom(statements: seq<Statement>, kind: Kind, group: seq<Item>, tables: Tables): seq<Step>
    decreases |statements|
  {
    if statements == [] then Close(kind, group)
    else
      var s, rest := statements[0], statements[1..];
      if s.Meta? then StepsFrom(rest, kind, group, tables)
      else
        var owner := Classify(tables, s);
        var item := Item(owner.table, s);
        if owner.kind != kind then Close(kind, group) + StepsFrom(rest, owner.kind, [item], Remember(tables, s))
        else StepsFrom(rest, kind, group + [item], Remember(tables, s))
  }

  lemma {:induction false} OfTableAppend(a: seq<Item>, b: seq<Item>, table: string)
    ensures OfTable(a + b, table) == OfTable(a, table) + OfTable(b, table)
  {
    if a == [] {
      assert a + b == b;
    } else {
      assert (a + b)[1..] == a[1..] + b && (a + b)[0] == a[0];
      OfTableAppend(a[1..], b, table);
      var first := if a[0].table == table then [a[0].statement] else [];
      assert OfTable(a + b, table) == first + OfTable((a + b)[1..], table);
      assert first + (OfTable(a[1..], table) + OfTable(b, table)) == first + OfTable(a[1..], table) + OfTable(b, table);
    }
  }

  lemma {:induction false} OfTableSnoc(items: seq<Item>, item: Item, t: string)
    ensures OfTable(items + [item], t)
            == if t == item.table then OfTable(items, t) + [item.statement] else OfTable(items, t)
  {
    OfTableAppend(items, [item], t);
    assert [item][1..] == [];
    assert OfTable(items, t) + [] == OfTable(items, t);
  }

  lemma {:induction false} TasksAppend(items: seq<Item>, item: Item, k: nat)
    requires k <= |TableOrder(items)| && forall j :: 0 <= j < k ==> TableOrder(items)[j] != item.table
    requires k < |TableOrder(items)| ==> TableOrder(items)[k] == item.table
    ensures var tasks := TasksByTable(items);
            TasksByTable(items + [item])
            == if k == |tasks| then tasks + [Task([item.statement], item.table)]
               else tasks[k := tasks[k].(statements := tasks[k].statements + [item.statement])]
  {
    hide OfTable;
    var all, order := items + [item], TableOrder(items);
    assert all[..|all| - 1] == items && all[|all| - 1] == item;
    var order' := if item.table in order then order else order + [item.table];
    assert TableOrder(all) == order';
    hide TableOrder;
    var tasks := TasksByTable(items);
    var expected := if k == |tasks| then tasks + [Task([item.statement], item.table)]
                    else tasks[k := tasks[k].(statements := tasks[k].statements + [item.statement])];
    if k == |order| {
      assert item.table !in order;
      forall i | 0 <= i < |items| ensures items[i].table != item.table {
        assert items[i].table in order;
      }
      NotInTable(items, item.table);
    }
    forall j | 0 <= j < |order'| ensures TasksByTable(all)[j] == expected[j] {
      OfTableSnoc(items, item, order'[j]);
    }
    assert TasksByTable(all) == expected;
  }

  method ByTable(items: seq<Item>) returns (tasks: seq<Task>)
    ensures tasks == TasksByTable(items)
  {
    assert TableOrder([]) == [];
    hide OfTable, TableOrder;
    tasks := [];
    for n := 0 to |items|
      invariant tasks == TasksByTable(items[..n])
    {
      var item := items[n];
      ghost var order := TableOrder(items[..n]);
      assert items[..n + 1] == items[..n] + [item];
      var k := 0;
      while k < |tasks| && tasks[k].table != item.table
        invariant 0 <= k <= |tasks|
        invariant forall j :: 0 <= j < k ==> order[j] != item.table
      {
        k := k + 1;
      }
      TasksAppend(items[..n], item, k);
      if k == |tasks| {
        tasks := tasks + [Task([item.statement], item.table)];
      } else {
        tasks := tasks[k := tasks[k].(statements := tasks[k].statements + [item.statement])];
      }
    }
    assert items[..|items|] == items;
  }

  lemma {:induction false} NotInTable(items: seq<Item>, table: string)
    requires forall i :: 0 <= i < |items| ==> items[i].table != table
    ensures OfTable(items, table) == []
  {
    if items != [] {
      NotInTable(items[1..], table);
    }
  }

  method PostDataSteps(statements: seq<Statement>) returns (steps: seq<Step>)
    ensures steps == StepsFrom(statements, NoKind, [], map[])
  {
    hide Classify, Remember, Close, KeyOf;
    steps := [];
    var kind, group: seq<Item>, tables: Tables := NoKind, [], map[];
    ghost var all := StepsFrom(statements, NoKind, [], map[]);
    assert statements[0..] == statements && [] + all == all;
    for n := 0 to |statements|
      invariant steps + StepsFrom(statements[n..], kind, group, tables) == all
    {
      var s := statements[n];
      ghost var rest := statements[n..];
      assert rest[0] == s && rest[1..] == statements[n + 1..];
      if s.Meta? {
        // psql's \restrict and \unrestrict only concern the session that read the start of the dump.
        continue;
      }
      var owner := Classify(tables, s);
      if owner.kind != kind {
        var closed := CloseGroup(kind, group);
        assert steps + (closed + StepsFrom(rest[1..], owner.kind, [Item(owner.table, s)], Remember(tables, s)))
            == steps + closed + StepsFrom(rest[1..], owner.kind, [Item(owner.table, s)], Remember(tables, s));
        steps := steps + closed;
        group := [];
        kind := owner.kind;
        assert [] + [Item(owner.table, s)] == [Item(owner.table, s)];
      }
      group := group + [Item(owner.table, s)];
      tables := Remember(tables, s);
    }
    var closed := CloseGroup(kind, group);
    steps := steps + closed;
  }

  method CloseGroup(kind: Kind, group: seq<Item>) returns (steps: seq<Step>)
    ensures steps == Close(kind, group)
  {
    if group == [] {
      return [];
    }
    match kind
    case Build =>
      var tasks := ByTable(group);
      return [Step(tasks, true)];
    case Reference =>
      var tasks := ByTable(Validations(group));
      return [Step([Task(Created(group), "")], false), Step(tasks, true)];
    case _ =>
      return [Step([Task(AsWritten(group), "")], false)];
  }
}
