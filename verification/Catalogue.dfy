/** What post-data statements do to the catalogue. As in psql without ON_ERROR_STOP, a statement that
    fails changes nothing and the script goes on. */
module Catalogue {
  import opened PostData

  /** An index or a constraint other than a foreign key. */
  datatype Built = Built(table: string, definition: Statement)
  datatype Declared = Declared(definition: Statement, validated: bool)

  /** `data` is everything else: tables and rows, which only opaque statements change. */
  datatype Catalog = Catalog(
    built: map<Key, Built>,
    references: map<Key, Declared>,
    comments: map<Key, string>,
    data: int)

  /** PostgreSQL's decisions: whether an index or constraint can be built given what its table already
      carries, whether a foreign key can be declared, whether the rows satisfy it, and the effect of an
      opaque statement. */
  datatype World = World(
    buildable: (Statement, set<(Key, Built)>, int) -> bool,
    declarable: (Statement, map<Key, Built>, int) -> bool,
    satisfied: (Statement, int) -> bool,
    opaqueEffect: (Statement, Catalog) -> Catalog)

  /** The definition a foreign key keeps, however it was declared. */
  function Definition(s: Statement): Statement {
    if s.ForeignKey? then s.(notValid := false) else s
  }

  function OnTable(c: Catalog, table: string): set<(Key, Built)> {
    set k | k in c.built && c.built[k].table == table :: (k, c.built[k])
  }

  predicate Exists(c: Catalog, k: Key) {
    k in c.built || k in c.references
  }

  function Execute(w: World, s: Statement, c: Catalog): Catalog {
    match s
    case Index(_, table, _) => ExecuteBuild(w, s, table, c)
    case Constraint(_, table, _) => ExecuteBuild(w, s, table, c)
    case ForeignKey(_, _, notValid, _) =>
      if Exists(c, KeyOf(s)) || !w.declarable(Definition(s), c.built, c.data) then c
      else if !notValid && !w.satisfied(Definition(s), c.data) then c
      else c.(references := c.references[KeyOf(s) := Declared(Definition(s), !notValid)])
    case Validate(_, _) => ValidateKey(w, KeyOf(s), c)
    case ConstraintComment(_, _, text) => Comment(KeyOf(s), text, c)
    case IndexComment(_, text) => Comment(KeyOf(s), text, c)
    case Meta(_) => c
    case Other(_) => w.opaqueEffect(s, c)
  }

  function ExecuteBuild(w: World, s: Statement, table: string, c: Catalog): Catalog
    requires s.Index? || s.Constraint?
  {
    if Exists(c, KeyOf(s)) || !w.buildable(s, OnTable(c, table), c.data) then c
    else c.(built := c.built[KeyOf(s) := Built(table, s)])
  }

  function ValidateKey(w: World, k: Key, c: Catalog): Catalog {
    if k in c.references && w.satisfied(c.references[k].definition, c.data) then
      c.(references := c.references[k := c.references[k].(validated := true)])
    else c
  }

  function Comment(k: Key, text: string, c: Catalog): Catalog {
    if Exists(c, k) then c.(comments := c.comments[k := text]) else c
  }

  function ExecuteAll(w: World, statements: seq<Statement>, c: Catalog): Catalog
    decreases |statements|
  {
    if statements == [] then c else ExecuteAll(w, statements[1..], Execute(w, statements[0], c))
  }

  lemma {:induction false} ExecuteAllConcat(w: World, a: seq<Statement>, b: seq<Statement>, c: Catalog)
    ensures ExecuteAll(w, a + b, c) == ExecuteAll(w, b, ExecuteAll(w, a, c))
    decreases |a|
  {
    if a == [] {
      assert a + b == b;
    } else {
      assert (a + b)[1..] == a[1..] + b;
      ExecuteAllConcat(w, a[1..], b, Execute(w, a[0], c));
    }
  }

  // --- Runs of a plan -----------------------------------------------------------------------------

  /** One statement of some task runs at a time, each task keeping its own order. */
  ghost predicate Interleaved(tasks: seq<Task>, run: seq<Item>)
    decreases |run|
  {
    if run == [] then forall i :: 0 <= i < |tasks| ==> tasks[i].statements == []
    else
      exists i :: 0 <= i < |tasks| && tasks[i].statements != []
        && run[0] == Item(tasks[i].table, tasks[i].statements[0])
        && Interleaved(tasks[i := tasks[i].(statements := tasks[i].statements[1..])], run[1..])
  }

  /** The steps run one after the other. */
  ghost predicate PlanRun(steps: seq<Step>, run: seq<Item>)
    decreases |steps|
  {
    if steps == [] then run == []
    else exists k :: 0 <= k <= |run| && Interleaved(steps[0].tasks, run[..k]) && PlanRun(steps[1..], run[k..])
  }
}
