/** Where each statement of the dump stands in the plan, and what may run at the same time: said of the statements
    themselves, without the plan's own functions. */
module PlanShape {
  import opened PostData

  // --- What a statement is for the plan -----------------------------------------------------------------------

  ghost predicate Qualified(table: string, schema: string, name: string) {
    table == schema + "." + name && '.' !in name
  }

  /** The name by which an index is commented on: within the schema of its table. */
  ghost predicate IndexNamed(name: string, table: string, n: string) {
    || (exists schema, own :: Qualified(table, schema, own) && schema != "" && n == schema + "." + name)
    || ((forall schema, own :: Qualified(table, schema, own) ==> schema == "") && n == name)
  }

  /** The comment `c` is on what `s` creates. */
  ghost predicate CommentsOn(c: Statement, s: Statement) {
    match c
    case ConstraintComment(name, table, _) => (s.Constraint? || s.ForeignKey?) && s.name == name && s.table == table
    case IndexComment(name, _) => s.Index? && IndexNamed(s.name, s.table, name)
    case _ => false
  }

  /** The last statement before `k` that creates what the comment `k` is on. */
  ghost predicate Commented(st: seq<Statement>, k: nat, m: nat) {
    && m < k < |st| && CommentsOn(st[k], st[m])
    && forall n :: m < n < k ==> !CommentsOn(st[k], st[n])
  }

  /** Builds touch one table, foreign keys two; all else is opaque. A comment goes with its object. */
  ghost function SortOf(st: seq<Statement>, k: nat): Owner
    requires k < |st|
  {
    if st[k].Index? || st[k].Constraint? then Owner(Build, st[k].table)
    else if st[k].ForeignKey? then Owner(Reference, st[k].table)
    else if m: nat :| Commented(st, k, m) then
      Owner(if st[m].ForeignKey? then Reference else Build, st[m].table)
    else Owner(Opaque, "")
  }

  // --- The patterns' keys say the same --------------------------------------------------------------------------

  lemma {:induction false} SchemaIs(table: string)
    ensures forall schema, own :: Qualified(table, schema, own) ==> Schema(table) == schema
    ensures |Schema(table)| <= |table|
    ensures Schema(table) == ""
            || (|Schema(table)| < |table| && Qualified(table, Schema(table), table[|Schema(table)| + 1..]))
    decreases |table|
  {
    if table != "" {
      var last := |table| - 1;
      var shorter := table[..last];
      SchemaIs(shorter);
      forall schema, own | Qualified(table, schema, own) ensures Schema(table) == schema {
        if table[last] == '.' {
          assert table[last] == (schema + "." + own)[last];
          assert own == "";
          assert table == schema + ".";
        } else {
          assert own != "";
          assert shorter == schema + "." + own[..|own| - 1];
          assert Qualified(shorter, schema, own[..|own| - 1]);
        }
      }
      if table[last] == '.' {
        assert table == shorter + "." + "";
      } else if Schema(table) != "" {
        var own := shorter[|Schema(table)| + 1..];
        assert table == shorter + [table[last]];
        assert table[|Schema(table)| + 1..] == own + [table[last]];
      }
    }
  }

  lemma {:induction false} KeysAgree(c: Statement, s: Statement)
    requires Comments(c) && Creates(s)
    ensures KeyOf(c) == KeyOf(s) <==> CommentsOn(c, s)
  {
    if s.Index? {
      SchemaIs(s.table);
    }
  }

  /** The objects seen. */
  function TablesAfter(st: seq<Statement>): Tables {
    if st == [] then map[] else Remember(TablesAfter(st[..|st| - 1]), st[|st| - 1])
  }

  lemma {:induction false} LastCreated(st: seq<Statement>, n: nat, c: Statement) returns (found: bool, m: nat)
    requires n <= |st| && Comments(c)
    ensures found ==> m < n && CommentsOn(c, st[m]) && forall l :: m < l < n ==> !CommentsOn(c, st[l])
    ensures !found ==> forall l :: 0 <= l < n ==> !CommentsOn(c, st[l])
    ensures found <==> KeyOf(c) in TablesAfter(st[..n])
    ensures found ==> TablesAfter(st[..n])[KeyOf(c)]
                      == Owner(if st[m].ForeignKey? then Reference else Build, st[m].table)
    decreases n
  {
    hide KeyOf, CommentsOn;
    if n == 0 {
      found, m := false, 0;
    } else {
      var s := st[n - 1];
      assert st[..n][..n - 1] == st[..n - 1] && st[..n][n - 1] == s;
      found, m := LastCreated(st, n - 1, c);
      OnlyCreatorsCommented(c, s);
      if Creates(s) {
        KeysAgree(c, s);
        if CommentsOn(c, s) {
          found, m := true, n - 1;
        }
      }
    }
  }

  lemma {:induction false} OnlyCreatorsCommented(c: Statement, s: Statement)
    ensures CommentsOn(c, s) ==> Creates(s) && Comments(c)
  {
  }

  lemma {:induction false} CommentedOnce(st: seq<Statement>, k: nat, m: nat, n: nat)
    requires Commented(st, k, m) && Commented(st, k, n)
    ensures m == n
  {
  }

  lemma {:induction false} SortIsClass(st: seq<Statement>, k: nat)
    requires k < |st|
    ensures Classify(TablesAfter(st[..k]), st[k]) == SortOf(st, k)
  {
    hide CommentsOn, KeyOf;
    forall m | 0 <= m < |st| {
      OnlyCreatorsCommented(st[k], st[m]);
    }
    if Comments(st[k]) {
      var found, m := LastCreated(st, k, st[k]);
      if found {
        assert Commented(st, k, m);
        forall n: nat | Commented(st, k, n) ensures n == m {
          CommentedOnce(st, k, m, n);
        }
      }
    }
  }

  // --- Runs of statements of one kind -----------------------------------------------------------------------------

  /** All statements from `lo` to `hi`, psql's own commands aside, are of that kind. */
  ghost predicate Uniform(st: seq<Statement>, lo: nat, hi: nat, kind: Kind) {
    hi <= |st| && forall k :: lo <= k < hi && !st[k].Meta? ==> SortOf(st, k).kind == kind
  }

  ghost function ItemsOf(st: seq<Statement>, lo: nat, hi: nat): (items: seq<Item>)
    requires lo <= hi <= |st|
    ensures forall item :: item in items ==>
              exists k: nat :: lo <= k < hi && !st[k].Meta? && item == Item(SortOf(st, k).table, st[k])
    ensures forall k: nat :: lo <= k < hi && !st[k].Meta? ==> Item(SortOf(st, k).table, st[k]) in items
    decreases hi - lo
  {
    if lo == hi then []
    else
      var items := ItemsOf(st, lo, hi - 1);
      if st[hi - 1].Meta? then items else items + [Item(SortOf(st, hi - 1).table, st[hi - 1])]
  }

  /** The plan of what comes from `i` on, the group having been open since `start`. */
  ghost function PlanFrom(st: seq<Statement>, start: nat, i: nat, kind: Kind): seq<Step>
    requires start <= i <= |st|
  {
    StepsFrom(st[i..], kind, ItemsOf(st, start, i), TablesAfter(st[..i]))
  }

  lemma {:induction false} PlanGoesOn(st: seq<Statement>, start: nat, i: nat, kind: Kind)
    requires start <= i < |st|
    ensures st[i].Meta? || SortOf(st, i).kind == kind ==>
      PlanFrom(st, start, i, kind) == PlanFrom(st, start, i + 1, kind)
    ensures !st[i].Meta? && SortOf(st, i).kind != kind ==>
      PlanFrom(st, start, i, kind)
      == Close(kind, ItemsOf(st, start, i)) + PlanFrom(st, i, i + 1, SortOf(st, i).kind)
  {
    hide Close, SortOf, Classify;
    var s := st[i];
    assert st[i..][0] == s && st[i..][1..] == st[i + 1..];
    assert st[..i + 1][..i] == st[..i] && st[..i + 1][i] == s;
    SortIsClass(st, i);
    assert ItemsOf(st, i, i) == [];
    assert [] + [Item(SortOf(st, i).table, s)] == [Item(SortOf(st, i).table, s)];
  }

  lemma {:induction false} PlanEnds(st: seq<Statement>, start: nat, kind: Kind)
    requires start <= |st|
    ensures PlanFrom(st, start, |st|, kind) == Close(kind, ItemsOf(st, start, |st|))
  {
  }

  /** What follows a group that ends at `e`. */
  ghost function After(st: seq<Statement>, e: nat): seq<Step>
    requires e <= |st|
  {
    if e == |st| then [] else PlanFrom(st, e, e + 1, SortOf(st, e).kind)
  }

  /** A run of statements of one kind that cannot be made longer at its end. */
  ghost predicate Run(st: seq<Statement>, s: nat, e: nat, kind: Kind) {
    && s < e <= |st| && !st[s].Meta? && Uniform(st, s, e, kind)
    && (e < |st| ==> !st[e].Meta? && SortOf(st, e).kind != kind)
  }

  lemma {:induction false} GroupEnds(st: seq<Statement>, start: nat, i: nat, kind: Kind) returns (e: nat)
    requires start < i <= |st| && !st[start].Meta? && Uniform(st, start, i, kind)
    ensures i <= e && Run(st, start, e, kind)
    ensures PlanFrom(st, start, i, kind) == Close(kind, ItemsOf(st, start, e)) + After(st, e)
    decreases |st| - i
  {
    hide PlanFrom, ItemsOf, SortOf, Close;
    if i == |st| {
      e := i;
      PlanEnds(st, start, kind);
      assert Close(kind, ItemsOf(st, start, e)) + [] == Close(kind, ItemsOf(st, start, e));
    } else {
      PlanGoesOn(st, start, i, kind);
      if st[i].Meta? || SortOf(st, i).kind == kind {
        e := GroupEnds(st, start, i + 1, kind);
      } else {
        e := i;
      }
    }
  }

  lemma {:induction false} CloseIsSome(st: seq<Statement>, s: nat, e: nat, kind: Kind)
    requires Run(st, s, e, kind)
    ensures Close(kind, ItemsOf(st, s, e)) != []
  {
    hide SortOf, Created, AsWritten, TasksByTable, Validations;
    assert Item(SortOf(st, s).table, st[s]) in ItemsOf(st, s, e);
  }

  /** The run of statement `j`, and the steps before those of its group. */
  lemma {:induction false} Locate(st: seq<Statement>, s: nat, j: nat) returns (earlier: seq<Step>, s2: nat, e2: nat)
    requires s <= j < |st| && !st[s].Meta? && !st[j].Meta?
    ensures s <= s2 <= j < e2 && Run(st, s2, e2, SortOf(st, j).kind)
    ensures PlanFrom(st, s, s + 1, SortOf(st, s).kind)
            == earlier + Close(SortOf(st, j).kind, ItemsOf(st, s2, e2)) + After(st, e2)
    ensures Uniform(st, s, j + 1, SortOf(st, s).kind) <==> earlier == []
    ensures forall k :: s <= k < s2 && !st[k].Meta? ==> !Uniform(st, k, s2 + 1, SortOf(st, j).kind)
    decreases |st| - s
  {
    hide PlanFrom, ItemsOf, SortOf, Close, Run, Uniform, After;
    var kind := SortOf(st, s).kind;
    OneUniform(st, s);
    var e := GroupEnds(st, s, s + 1, kind);
    RunIs(st, s, e, kind);
    var first := Close(kind, ItemsOf(st, s, e));
    if j < e {
      earlier, s2, e2 := [], s, e;
      UniformPart(st, s, e, kind, j);
      assert [] + first == first;
    } else {
      CloseIsSome(st, s, e, kind);
      RunBreaks(st, s, e, kind, s, j, kind);
      var before;
      before, s2, e2 := Locate(st, e, j);
      RunIs(st, s2, e2, SortOf(st, j).kind);
      earlier := first + before;
      assert After(st, e) == PlanFrom(st, e, e + 1, SortOf(st, e).kind) by {
        AfterIs(st, e);
      }
      Joined(first, before, Close(SortOf(st, j).kind, ItemsOf(st, s2, e2)), After(st, e2));
      forall k | s <= k < s2 && !st[k].Meta? ensures !Uniform(st, k, s2 + 1, SortOf(st, j).kind) {
        if k < e {
          RunBreaks(st, s, e, kind, k, s2, SortOf(st, j).kind);
        }
      }
    }
  }

  lemma {:induction false} AfterIs(st: seq<Statement>, e: nat)
    requires e < |st|
    ensures After(st, e) == PlanFrom(st, e, e + 1, SortOf(st, e).kind)
  {
  }

  lemma {:induction false} Joined(a: seq<Step>, b: seq<Step>, c: seq<Step>, d: seq<Step>)
    ensures a + (b + c + d) == a + b + c + d
  {
  }

  lemma {:induction false} OneUniform(st: seq<Statement>, s: nat)
    requires s < |st|
    ensures Uniform(st, s, s + 1, SortOf(st, s).kind)
  {
  }

  lemma {:induction false} UniformPart(st: seq<Statement>, s: nat, e: nat, kind: Kind, j: nat)
    requires s <= j < e && Uniform(st, s, e, kind) && !st[j].Meta?
    ensures SortOf(st, j).kind == kind && Uniform(st, s, j + 1, kind)
  {
  }

  /** Nothing uniform goes from within a run to beyond its end. */
  lemma {:induction false} RunBreaks(
    st: seq<Statement>, s: nat, e: nat, kind: Kind, k: nat, j: nat, other: Kind)
    requires Run(st, s, e, kind) && s <= k < e <= j < |st| && !st[k].Meta?
    ensures !Uniform(st, k, j + 1, other)
  {
    hide SortOf;
    assert SortOf(st, k).kind == kind && SortOf(st, e).kind != kind;
  }

  /** The plan starts with the first statement that is not a command of psql's own. */
  lemma {:induction false} PlanStarts(st: seq<Statement>, i: nat, n: nat) returns (f: nat)
    requires i < |st| && !st[i].Meta? && n <= i && forall k :: 0 <= k < n ==> st[k].Meta?
    ensures f <= i && !st[f].Meta? && PlanFrom(st, 0, n, NoKind) == PlanFrom(st, f, f + 1, SortOf(st, f).kind)
    ensures forall k :: 0 <= k < f ==> st[k].Meta?
    decreases i - n
  {
    hide SortOf, PlanFrom, ItemsOf, Close;
    PlanGoesOn(st, 0, n, NoKind);
    if st[n].Meta? {
      f := PlanStarts(st, i, n + 1);
    } else {
      f := n;
      SortIsSome(st, n);
      NoItems(st, n);
      assert [] + PlanFrom(st, n, n + 1, SortOf(st, n).kind) == PlanFrom(st, n, n + 1, SortOf(st, n).kind);
    }
  }

  lemma {:induction false} SortIsSome(st: seq<Statement>, k: nat)
    requires k < |st|
    ensures SortOf(st, k).kind != NoKind
  {
  }

  lemma {:induction false} NoItems(st: seq<Statement>, n: nat)
    requires n <= |st| && forall k :: 0 <= k < n ==> st[k].Meta?
    ensures ItemsOf(st, 0, n) == [] && Close(NoKind, []) == []
    decreases n
  {
    hide SortOf;
    if n > 0 {
      NoItems(st, n - 1);
    }
  }

  // --- Where a statement stands -------------------------------------------------------------------------------

  /** Some task of the step is of that table and holds the statement. */
  ghost predicate Holds(step: Step, table: string, s: Statement) {
    exists t :: 0 <= t < |step.tasks| && step.tasks[t].table == table && s in step.tasks[t].statements
  }

  ghost predicate Alone(step: Step, s: Statement) {
    !step.parallel && |step.tasks| == 1 && s in step.tasks[0].statements
  }

  /** Statement `k` stands in step `p`: a build in the task of its table, in parallel; a foreign key in the only
      task, without control, then controlled in parallel in the task of its table; anything else in the only task. */
  ghost predicate Stands(st: seq<Statement>, k: nat, steps: seq<Step>, p: nat)
    requires k < |st|
  {
    var s, sort := st[k], SortOf(st, k);
    p < |steps| &&
    match sort.kind
    case Build => steps[p].parallel && Holds(steps[p], sort.table, s)
    case Reference =>
      && Alone(steps[p], if s.ForeignKey? then ForeignKey(s.name, s.table, true, s.text) else s)
      && p + 1 < |steps| && steps[p + 1].parallel
      && (s.ForeignKey? && !s.notValid ==> Holds(steps[p + 1], s.table, Validate(s.name, s.table)))
    case _ => Alone(steps[p], s)
  }

  lemma {:induction false} InOfTable(items: seq<Item>, item: Item)
    requires item in items
    ensures item.statement in OfTable(items, item.table)
  {
    if items[0] != item {
      InOfTable(items[1..], item);
    }
  }

  lemma {:induction false} InTasks(items: seq<Item>, item: Item, step: Step)
    requires item in items && step.tasks == TasksByTable(items)
    ensures Holds(step, item.table, item.statement)
  {
    hide OfTable, TableOrder;
    InOfTable(items, item);
    var i :| 0 <= i < |items| && items[i] == item;
    assert item.table in TableOrder(items);
    var t :| 0 <= t < |TableOrder(items)| && TableOrder(items)[t] == item.table;
    assert step.tasks[t] == Task(OfTable(items, item.table), item.table);
  }

  lemma {:induction false} InValidations(group: seq<Item>, item: Item)
    requires item in group && item.statement.ForeignKey? && !item.statement.notValid
    ensures Item(item.table, Validate(item.statement.name, item.statement.table)) in Validations(group)
  {
    if group[0] != item {
      InValidations(group[1..], item);
    }
  }

  lemma {:induction false} StandsInGroup(st: seq<Statement>, lo: nat, hi: nat, k: nat)
    requires lo <= k < hi <= |st| && !st[k].Meta?
    ensures Stands(st, k, Close(SortOf(st, k).kind, ItemsOf(st, lo, hi)), 0)
  {
    hide SortOf, Holds, TasksByTable, OfTable, TableOrder, Validations;
    var group, sort := ItemsOf(st, lo, hi), SortOf(st, k);
    var item := Item(sort.table, st[k]);
    assert item in group;
    var i :| 0 <= i < |group| && group[i] == item;
    match sort.kind
    case Build =>
      InTasks(group, item, Close(Build, group)[0]);
    case Reference =>
      assert Created(group)[i] == Uncontrolled(st[k]);
      if st[k].ForeignKey? && !st[k].notValid {
        KeyTable(st, k);
        InValidations(group, item);
        InTasks(Validations(group), Item(sort.table, Validate(st[k].name, st[k].table)), Close(Reference, group)[1]);
      }
    case _ =>
      assert AsWritten(group)[i] == st[k];
  }

  lemma {:induction false} KeyTable(st: seq<Statement>, k: nat)
    requires k < |st| && st[k].ForeignKey?
    ensures SortOf(st, k) == Owner(Reference, st[k].table)
  {
  }

  lemma {:induction false} StandsLater(st: seq<Statement>, k: nat, before: seq<Step>, group: seq<Step>, rest: seq<Step>)
    requires k < |st| && Stands(st, k, group, 0)
    ensures Stands(st, k, before + group + rest, |before|)
  {
    hide SortOf, Holds;
    var steps := before + group + rest;
    assert forall p :: 0 <= p < |group| ==> steps[|before| + p] == group[p];
  }

  /** Every statement stands in the plan as its kind asks; two of them stand in the same group of steps exactly when
      all those between them are of their kind, and else in the order of the dump. */
  lemma {:induction false} PlanPlaces(st: seq<Statement>, i: nat, j: nat) returns (p: nat, q: nat)
    requires i <= j < |st| && !st[i].Meta? && !st[j].Meta?
    ensures var steps := StepsFrom(st, NoKind, [], map[]); Stands(st, i, steps, p) && Stands(st, j, steps, q)
    ensures p <= q && (p == q <==> Uniform(st, i, j + 1, SortOf(st, i).kind))
  {
    hide SortOf, Stands, PlanFrom, ItemsOf, Close, StepsFrom, Run, Uniform, After;
    WholePlan(st);
    var f := PlanStarts(st, i, 0);
    var earlier, s, e := Locate(st, f, i);
    var kind := SortOf(st, i).kind;
    RunIs(st, s, e, kind);
    var group := Close(kind, ItemsOf(st, s, e));
    p := |earlier|;
    StandsInGroup(st, s, e, i);
    StandsLater(st, i, earlier, group, After(st, e));
    if j < e {
      q := p;
      UniformPart(st, s, e, kind, j);
      UniformFrom(st, s, i, j + 1, kind);
      StandsInGroup(st, s, e, j);
      StandsLater(st, j, earlier, group, After(st, e));
    } else {
      CloseIsSome(st, s, e, kind);
      RunBreaks(st, s, e, kind, i, j, kind);
      AfterIs(st, e);
      var between, s2, e2 := Locate(st, e, j);
      RunIs(st, s2, e2, SortOf(st, j).kind);
      var last := Close(SortOf(st, j).kind, ItemsOf(st, s2, e2));
      q := |earlier + group + between|;
      StandsInGroup(st, s2, e2, j);
      StandsLater(st, j, earlier + group + between, last, After(st, e2));
      Joined(earlier + group, between, last, After(st, e2));
    }
  }

  lemma {:induction false} UniformFrom(st: seq<Statement>, s: nat, i: nat, e: nat, kind: Kind)
    requires s <= i <= e && Uniform(st, s, e, kind)
    ensures Uniform(st, i, e, kind)
  {
  }

  lemma {:induction false} RunIs(st: seq<Statement>, s: nat, e: nat, kind: Kind)
    requires Run(st, s, e, kind)
    ensures s < e <= |st| && Uniform(st, s, e, kind) && (e < |st| ==> !st[e].Meta? && SortOf(st, e).kind != kind)
  {
  }

  lemma {:induction false} WholePlan(st: seq<Statement>)
    ensures PlanFrom(st, 0, 0, NoKind) == StepsFrom(st, NoKind, [], map[])
  {
    assert st[0..] == st && st[..0] == [];
  }

  /** Two builds of different tables, with only builds, their comments and psql's own commands between them, are in
      two tasks of one parallel step. */
  lemma {:induction false} BuildsSideBySide(st: seq<Statement>, i: nat, j: nat) returns (p: nat, a: nat, b: nat)
    requires i <= j < |st| && (st[i].Index? || st[i].Constraint?) && (st[j].Index? || st[j].Constraint?)
    requires st[i].table != st[j].table && Uniform(st, i, j + 1, Build)
    ensures var steps := StepsFrom(st, NoKind, [], map[]);
      && p < |steps| && steps[p].parallel && a < |steps[p].tasks| && b < |steps[p].tasks| && a != b
      && steps[p].tasks[a].table == st[i].table && st[i] in steps[p].tasks[a].statements
      && steps[p].tasks[b].table == st[j].table && st[j] in steps[p].tasks[b].statements
  {
    hide StepsFrom, Uniform;
    BuildTable(st, i);
    BuildTable(st, j);
    var q;
    p, q := PlanPlaces(st, i, j);
    var step := StepsFrom(st, NoKind, [], map[])[p];
    assert Holds(step, st[i].table, st[i]) && Holds(step, st[j].table, st[j]);
    a :| 0 <= a < |step.tasks| && step.tasks[a].table == st[i].table && st[i] in step.tasks[a].statements;
    b :| 0 <= b < |step.tasks| && step.tasks[b].table == st[j].table && st[j] in step.tasks[b].statements;
  }

  lemma {:induction false} BuildTable(st: seq<Statement>, k: nat)
    requires k < |st| && (st[k].Index? || st[k].Constraint?)
    ensures SortOf(st, k) == Owner(Build, st[k].table)
  {
  }

  // --- What may run at the same time ----------------------------------------------------------------------------

  ghost predicate BuildOf(st: seq<Statement>, k: nat, table: string, s: Statement) {
    k < |st| && st[k] == s && SortOf(st, k) == Owner(Build, table)
  }

  ghost predicate ValidationOf(st: seq<Statement>, k: nat, table: string, s: Statement) {
    && k < |st| && st[k].ForeignKey? && !st[k].notValid && st[k].table == table
    && s == Validate(st[k].name, st[k].table)
  }

  ghost predicate DeclarationOf(st: seq<Statement>, k: nat, s: Statement) {
    && k < |st| && SortOf(st, k).kind == Reference
    && s == if st[k].ForeignKey? then ForeignKey(st[k].name, st[k].table, true, st[k].text) else st[k]
  }

  ghost predicate OtherOf(st: seq<Statement>, k: nat, s: Statement) {
    k < |st| && st[k] == s && SortOf(st, k).kind == Opaque
  }

  ghost predicate OfBuilds(st: seq<Statement>, step: Step) {
    forall t, s :: 0 <= t < |step.tasks| && s in step.tasks[t].statements ==>
      exists k: nat :: BuildOf(st, k, step.tasks[t].table, s)
  }

  ghost predicate OfValidations(st: seq<Statement>, step: Step) {
    forall t, s :: 0 <= t < |step.tasks| && s in step.tasks[t].statements ==>
      exists k: nat :: ValidationOf(st, k, step.tasks[t].table, s)
  }

  ghost predicate OfDeclarations(st: seq<Statement>, task: Task) {
    forall s :: s in task.statements ==> exists k: nat :: DeclarationOf(st, k, s)
  }

  ghost predicate OfOthers(st: seq<Statement>, task: Task) {
    forall s :: s in task.statements ==> exists k: nat :: OtherOf(st, k, s)
  }

  /** In parallel, builds or validations, each in the task of its table; else one task, of foreign keys declared
      without control, or of statements that are neither. */
  ghost predicate Shape(st: seq<Statement>, step: Step) {
    && (forall a, b :: 0 <= a < b < |step.tasks| ==> step.tasks[a].table != step.tasks[b].table)
    && if step.parallel then OfBuilds(st, step) || OfValidations(st, step)
       else |step.tasks| == 1 && (OfDeclarations(st, step.tasks[0]) || OfOthers(st, step.tasks[0]))
  }

  lemma {:induction false} FromTable(items: seq<Item>, table: string)
    ensures forall s :: s in OfTable(items, table) ==> Item(table, s) in items
  {
    if items != [] {
      FromTable(items[1..], table);
    }
  }

  lemma {:induction false} TasksApart(items: seq<Item>, step: Step)
    requires step.tasks == TasksByTable(items)
    ensures forall a, b :: 0 <= a < b < |step.tasks| ==> step.tasks[a].table != step.tasks[b].table
    ensures forall t, s :: 0 <= t < |step.tasks| && s in step.tasks[t].statements ==>
              Item(step.tasks[t].table, s) in items
  {
    hide OfTable, TableOrder;
    var order := TableOrder(items);
    forall t | 0 <= t < |order|
      ensures forall s :: s in OfTable(items, order[t]) ==> Item(order[t], s) in items
    {
      FromTable(items, order[t]);
    }
  }

  lemma {:induction false} FromValidations(group: seq<Item>)
    ensures forall v :: v in Validations(group) ==>
      exists item :: item in group && item.statement.ForeignKey? && !item.statement.notValid
        && v == Item(item.table, Validate(item.statement.name, item.statement.table))
  {
    if group != [] {
      FromValidations(group[1..]);
    }
  }

  lemma {:induction false} BuildShape(st: seq<Statement>, lo: nat, hi: nat)
    requires lo <= hi <= |st| && Uniform(st, lo, hi, Build)
    ensures Shape(st, Step(TasksByTable(ItemsOf(st, lo, hi)), true))
  {
    hide SortOf, TasksByTable;
    var items := ItemsOf(st, lo, hi);
    var step := Step(TasksByTable(items), true);
    TasksApart(items, step);
    forall t, s | 0 <= t < |step.tasks| && s in step.tasks[t].statements
      ensures exists k: nat :: BuildOf(st, k, step.tasks[t].table, s)
    {
      assert Item(step.tasks[t].table, s) in items;
      var k: nat :| lo <= k < hi && !st[k].Meta? && Item(step.tasks[t].table, s) == Item(SortOf(st, k).table, st[k]);
      assert BuildOf(st, k, step.tasks[t].table, s);
    }
  }

  lemma {:induction false} ValidationShape(st: seq<Statement>, lo: nat, hi: nat)
    requires lo <= hi <= |st|
    ensures Shape(st, Step(TasksByTable(Validations(ItemsOf(st, lo, hi))), true))
  {
    hide SortOf, TasksByTable, Validations;
    var items := ItemsOf(st, lo, hi);
    var step := Step(TasksByTable(Validations(items)), true);
    TasksApart(Validations(items), step);
    FromValidations(items);
    forall t, s | 0 <= t < |step.tasks| && s in step.tasks[t].statements
      ensures exists k: nat :: ValidationOf(st, k, step.tasks[t].table, s)
    {
      var v := Item(step.tasks[t].table, s);
      assert v in Validations(items);
      var item :| item in items && item.statement.ForeignKey? && !item.statement.notValid
        && v == Item(item.table, Validate(item.statement.name, item.statement.table));
      var k: nat :| lo <= k < hi && !st[k].Meta? && item == Item(SortOf(st, k).table, st[k]);
      KeyTable(st, k);
      assert ValidationOf(st, k, step.tasks[t].table, s);
    }
  }

  lemma {:induction false} DeclarationShape(st: seq<Statement>, lo: nat, hi: nat)
    requires lo <= hi <= |st| && Uniform(st, lo, hi, Reference)
    ensures Shape(st, Step([Task(Created(ItemsOf(st, lo, hi)), "")], false))
  {
    hide SortOf;
    var items := ItemsOf(st, lo, hi);
    var task := Task(Created(items), "");
    forall s | s in task.statements ensures exists k: nat :: DeclarationOf(st, k, s) {
      var i :| 0 <= i < |items| && s == Uncontrolled(items[i].statement);
      assert items[i] in items;
      var k: nat :| lo <= k < hi && !st[k].Meta? && items[i] == Item(SortOf(st, k).table, st[k]);
      assert DeclarationOf(st, k, s);
    }
    assert OfDeclarations(st, task);
  }

  lemma {:induction false} OtherShape(st: seq<Statement>, lo: nat, hi: nat)
    requires lo <= hi <= |st| && Uniform(st, lo, hi, Opaque)
    ensures Shape(st, Step([Task(AsWritten(ItemsOf(st, lo, hi)), "")], false))
  {
    hide SortOf;
    var items := ItemsOf(st, lo, hi);
    var task := Task(AsWritten(items), "");
    forall s | s in task.statements ensures exists k: nat :: OtherOf(st, k, s) {
      var i :| 0 <= i < |items| && s == items[i].statement;
      assert items[i] in items;
      var k: nat :| lo <= k < hi && !st[k].Meta? && items[i] == Item(SortOf(st, k).table, st[k]);
      assert OtherOf(st, k, s);
    }
    assert OfOthers(st, task);
  }

  lemma {:induction false} CloseShapes(st: seq<Statement>, lo: nat, hi: nat, kind: Kind)
    requires lo <= hi <= |st| && Uniform(st, lo, hi, kind) && kind != NoKind
    ensures forall step :: step in Close(kind, ItemsOf(st, lo, hi)) ==> Shape(st, step)
  {
    hide Uniform, Shape, ItemsOf, TasksByTable, Created, AsWritten, Validations;
    match kind
    case Build => BuildShape(st, lo, hi);
    case Reference =>
      DeclarationShape(st, lo, hi);
      ValidationShape(st, lo, hi);
    case Opaque => OtherShape(st, lo, hi);
  }

  lemma {:induction false} ShapesFrom(st: seq<Statement>, s: nat)
    requires s < |st| && !st[s].Meta?
    ensures forall step :: step in PlanFrom(st, s, s + 1, SortOf(st, s).kind) ==> Shape(st, step)
    decreases |st| - s
  {
    hide PlanFrom, ItemsOf, SortOf, Close, Shape, Uniform, Run;
    OneUniform(st, s);
    SortIsSome(st, s);
    var e := GroupEnds(st, s, s + 1, SortOf(st, s).kind);
    RunIs(st, s, e, SortOf(st, s).kind);
    CloseShapes(st, s, e, SortOf(st, s).kind);
    if e < |st| {
      ShapesFrom(st, e);
    }
  }

  /** Every step of every plan. */
  lemma {:induction false} PlanShapes(st: seq<Statement>)
    ensures forall step :: step in StepsFrom(st, NoKind, [], map[]) ==> Shape(st, step)
  {
    hide StepsFrom, PlanFrom, SortOf, Shape;
    WholePlan(st);
    if i: nat :| i < |st| && !st[i].Meta? {
      var f := PlanStarts(st, i, 0);
      ShapesFrom(st, f);
    } else {
      NothingPlanned(st, 0);
    }
  }

  lemma {:induction false} NothingPlanned(st: seq<Statement>, n: nat)
    requires n <= |st| && forall k :: 0 <= k < |st| ==> st[k].Meta?
    ensures PlanFrom(st, 0, n, NoKind) == []
    decreases |st| - n
  {
    hide PlanFrom, SortOf, ItemsOf, Close;
    if n < |st| {
      PlanGoesOn(st, 0, n, NoKind);
      NothingPlanned(st, n + 1);
    } else {
      PlanEnds(st, 0, NoKind);
      NoItems(st, n);
    }
  }

  /** Statements that may run at the same time, in different tasks, never touch the same table: no foreign key, no
      opaque statement among them. */
  lemma {:induction false} SideBySideApart(st: seq<Statement>, step: Step, a: nat, b: nat, s: Statement, t: Statement)
    requires step in StepsFrom(st, NoKind, [], map[]) && a < |step.tasks| && b < |step.tasks| && a != b
    requires s in step.tasks[a].statements && t in step.tasks[b].statements
    ensures step.tasks[a].table != step.tasks[b].table && step.parallel
    ensures Comments(s) || ((s.Index? || s.Constraint? || s.Validate?) && s.table == step.tasks[a].table)
    ensures Comments(t) || ((t.Index? || t.Constraint? || t.Validate?) && t.table == step.tasks[b].table)
  {
    hide StepsFrom;
    PlanShapes(st);
    assert Shape(st, step);
    OneTable(st, step, a, s);
    OneTable(st, step, b, t);
  }

  lemma {:induction false} OneTable(st: seq<Statement>, step: Step, a: nat, s: Statement)
    requires Shape(st, step) && step.parallel && a < |step.tasks| && s in step.tasks[a].statements
    ensures Comments(s) || ((s.Index? || s.Constraint? || s.Validate?) && s.table == step.tasks[a].table)
  {
    hide SortOf;
    if OfBuilds(st, step) {
      var k: nat :| BuildOf(st, k, step.tasks[a].table, s);
      BuildSort(st, k);
    }
  }

  lemma {:induction false} BuildSort(st: seq<Statement>, k: nat)
    requires k < |st| && SortOf(st, k).kind == Build
    ensures Comments(st[k]) || ((st[k].Index? || st[k].Constraint?) && SortOf(st, k).table == st[k].table)
  {
    if m: nat :| Commented(st, k, m) {
      OnlyCreatorsCommented(st[k], st[m]);
    }
  }
}
