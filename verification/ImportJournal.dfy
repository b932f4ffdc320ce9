/** Importing modules from a repository, and undoing it when it stops half-way (odoo_manager_web.py:
    backup_existing_module, ModuleChangeJournal, the change part of repository_modules_job). */
module ImportJournal {
  /** A module's copy, its link in odoo/addons, and the versions set aside outside the project. */
  datatype Path = Storage(name: string) | Link(name: string) | Backup(n: nat)

  type Files = map<Path, string>

  type Backups = seq<(Path, Path)>

  /** What the import decided for a module; `LocalCopy` is the update of a folder put in odoo/addons by hand. */
  datatype Action = Add | Update | LocalCopy | Replace

  /** `copies` are the states of the copied folder while it is being copied, the complete one last. */
  datatype Plan = Plan(name: string, action: Action, copies: seq<string>, link: string)

  /** What deciding each action has checked. A replacement does not look at the storage. */
  predicate Planned(files: Files, plan: Plan) {
    && |plan.copies| > 0
    && match plan.action
       case Add => Storage(plan.name) !in files && Link(plan.name) !in files
       case Update => Storage(plan.name) in files && Link(plan.name) in files
       case LocalCopy => Storage(plan.name) !in files && Link(plan.name) in files
       case Replace => Link(plan.name) in files
  }

  ghost predicate AllPlanned(files: Files, plans: seq<Plan>) {
    && (forall k :: 0 <= k < |plans| ==> Planned(files, plans[k]))
    && (forall i, k :: 0 <= i < k < |plans| ==> plans[i].name != plans[k].name)
  }

  function Project(files: Files): Files {
    map p | p in files && !p.Backup? :: files[p]
  }

  lemma {:induction false} ProjectWrites(files: Files, p: Path, text: string)
    requires !p.Backup?
    ensures p in Project(files) <==> p in files
    ensures Project(files[p := text]) == Project(files)[p := text]
  {
    var before, after := Project(files), Project(files[p := text]);
    assert after.Keys == before.Keys + {p};
  }

  /** The project's files once the module is imported. */
  function Imported(files: Files, plan: Plan): Files
    requires |plan.copies| > 0
  {
    var copied := files[Storage(plan.name) := plan.copies[|plan.copies| - 1]];
    if plan.action.Update? then copied else copied[Link(plan.name) := plan.link]
  }

  ghost function ImportedAll(files: Files, plans: seq<Plan>): Files
    requires forall k :: 0 <= k < |plans| ==> |plans[k].copies| > 0
  {
    if plans == [] then files
    else Imported(ImportedAll(files, plans[..|plans| - 1]), plans[|plans| - 1])
  }

  /** All imported: each module's copy is the complete one; its link is the new one unless it was only updated; the
      rest of the files is untouched. */
  lemma {:induction false} ImportedAllIs(files: Files, plans: seq<Plan>, p: Path)
    requires forall k :: 0 <= k < |plans| ==> |plans[k].copies| > 0
    requires forall i, k :: 0 <= i < k < |plans| ==> plans[i].name != plans[k].name
    ensures forall k :: 0 <= k < |plans| && p == Storage(plans[k].name) ==>
      p in ImportedAll(files, plans) && ImportedAll(files, plans)[p] == plans[k].copies[|plans[k].copies| - 1]
    ensures forall k :: 0 <= k < |plans| && p == Link(plans[k].name) && plans[k].action != Update ==>
      p in ImportedAll(files, plans) && ImportedAll(files, plans)[p] == plans[k].link
    ensures (forall k :: 0 <= k < |plans| ==>
               p != Storage(plans[k].name) && (p == Link(plans[k].name) ==> plans[k].action == Update)) ==>
      (p in ImportedAll(files, plans) <==> p in files) && (p in files ==> ImportedAll(files, plans)[p] == files[p])
    decreases |plans|
  {
    if plans != [] {
      ImportedAllIs(files, plans[..|plans| - 1], p);
    }
  }

  // --- Rolling back -------------------------------------------------------------------------------------

  function SetAside(files: Files, target: Path, backup: Path): Files
    requires target in files
  {
    (files - {target})[backup := files[target]]
  }

  function Removed(files: Files, paths: seq<Path>): Files {
    files - set p | p in paths
  }

  /** The backups moved back, the last one first. */
  function MovedBack(files: Files, backups: Backups): Files
    decreases |backups|
  {
    if backups == [] then files
    else
      var (target, backup) := backups[|backups| - 1];
      MovedBack(if backup in files then SetAside(files, backup, target) else files, backups[..|backups| - 1])
  }

  function RolledBack(files: Files, created: seq<Path>, backups: Backups): Files {
    MovedBack(Removed(files, created), backups)
  }

  /** Noting a path that is not there yet changes nothing to what a rollback gives, and neither does writing
      to a noted path. */
  lemma {:induction false} CreationIsUndone(files: Files, created: seq<Path>, backups: Backups, p: Path, text: string)
    ensures p !in files ==> RolledBack(files, created + [p], backups) == RolledBack(files, created, backups)
    ensures p in created ==> RolledBack(files[p := text], created, backups) == RolledBack(files, created, backups)
  {
    if p !in files {
      assert Removed(files, created + [p]) == Removed(files, created);
    }
    if p in created {
      assert Removed(files[p := text], created) == Removed(files, created);
    }
  }

  lemma {:induction false} RemovedSetAside(files: Files, created: seq<Path>, target: Path, backup: Path)
    requires target in files && backup !in files && target !in created && backup !in created
    ensures target in Removed(files, created) && backup !in Removed(files, created)
    ensures Removed(SetAside(files, target, backup), created) == SetAside(Removed(files, created), target, backup)
  {
  }

  /** A version set aside and noted comes back. */
  lemma {:induction false} MoveIsUndone(files: Files, created: seq<Path>, backups: Backups, target: Path, backup: Path)
    requires target in files && backup !in files && target !in created && backup !in created
    ensures RolledBack(SetAside(files, target, backup), created, backups + [(target, backup)])
         == RolledBack(files, created, backups)
  {
    RemovedSetAside(files, created, target, backup);
    var kept := Removed(files, created);
    assert SetAside(SetAside(kept, target, backup), backup, target) == kept;
    var noted := backups + [(target, backup)];
    assert noted[..|noted| - 1] == backups;
  }

  /** Set aside but not noted: the rollback leaves the target missing and its content in the backup. */
  lemma {:induction false} UnnotedMoveStays(files: Files, backups: Backups, target: Path, backup: Path)
    requires target in files && backup !in files
    requires forall k :: 0 <= k < |backups| ==> backups[k].0 != target && backups[k].0 != backup
    requires forall k :: 0 <= k < |backups| ==> backups[k].1 != target && backups[k].1 != backup
    ensures target in MovedBack(files, backups)
    ensures MovedBack(SetAside(files, target, backup), backups) == SetAside(MovedBack(files, backups), target, backup)
    decreases |backups|
  {
    if backups != [] {
      var (t, b) := backups[|backups| - 1];
      var moved := SetAside(files, target, backup);
      if b in files {
        assert SetAside(moved, b, t) == SetAside(SetAside(files, b, t), target, backup);
        UnnotedMoveStays(SetAside(files, b, t), backups[..|backups| - 1], target, backup);
      } else {
        UnnotedMoveStays(files, backups[..|backups| - 1], target, backup);
      }
    }
  }

  // --- Where an import may stop ---------------------------------------------------------------------------

  /** A replacement whose storage already exists is refused before anything is touched. */
  predicate Refused(files: Files, plan: Plan) {
    plan.action.Replace? && Storage(plan.name) in files
  }

  /** The points where importing one module may be stopped, or may fail. */
  function Points(plan: Plan): nat {
    |plan.copies| + if plan.action.Add? then 2 else 3
  }

  /** The one between a move and its note in the journal, if the module has any. */
  function MovePoint(plan: Plan): int {
    match plan.action
    case Add => -1
    case Update => 0
    case LocalCopy => |plan.copies| + 1
    case Replace => |plan.copies| + 1
  }

  /** Whether a stop at the given point falls between a move and its note. */
  predicate StopsInMove(files: Files, plans: seq<Plan>, point: nat) {
    && plans != []
    && !Refused(files, plans[0])
    && (point == MovePoint(plans[0])
        || (point >= Points(plans[0]) && StopsInMove(files, plans[1..], point - Points(plans[0]))))
  }

  function AllPoints(plans: seq<Plan>): nat {
    if plans == [] then 0 else Points(plans[0]) + AllPoints(plans[1..])
  }

  datatype End = Completed | Failed | FailedMoving(target: Path, backup: Path)

  ghost predicate Owned(p: Path, names: set<string>) {
    !p.Backup? && p.name in names
  }

  /** The journal speaks of the modules already met only, and every version it notes is where it says. */
  ghost predicate Kept(files: Files, created: seq<Path>, backups: Backups, names: set<string>) {
    && (forall p :: p in created ==> Owned(p, names))
    && (forall k :: 0 <= k < |backups| ==> Owned(backups[k].0, names))
    && (forall k :: 0 <= k < |backups| ==> backups[k].1.Backup? && backups[k].1 in files)
  }

  class Import {
    var files: Files
    var created: seq<Path>
    var backups: Backups
    /** The points still to be passed before the stop request, or the failure, is met. */
    var left: nat

    constructor (initial: Files, stopAt: nat)
      ensures files == initial && created == [] && backups == [] && left == stopAt
    {
      files, created, backups, left := initial, [], [], stopAt;
    }

    method Interrupted() returns (stop: bool)
      modifies `left
      ensures stop == (old(left) == 0)
      ensures left == if stop then 0 else old(left) - 1
    {
      stop := left == 0;
      if !stop {
        left := left - 1;
      }
    }

    /** Moves the module to the first free backup name, and only then reports it: the report may be the stop. */
    method BackUp(target: Path) returns (backup: Path, stop: bool)
      requires target in files && !target.Backup?
      modifies `files, `left
      ensures backup.Backup? && backup !in old(files)
      ensures files == SetAside(old(files), target, backup)
      ensures stop == (old(left) == 0)
      ensures left == if stop then 0 else old(left) - 1
    {
      var n := 0;
      ghost var taken := files.Keys;
      while Backup(n) in files
        invariant taken == set p | p in files && !(p.Backup? && p.n < n)
        decreases taken
      {
        taken := taken - {Backup(n)};
        n := n + 1;
      }
      backup := Backup(n);
      files := SetAside(files, target, backup);
      stop := Interrupted();
    }

    /** Copies the module: the folder fills up little by little. */
    method CopyToStorage(plan: Plan) returns (stop: bool)
      requires |plan.copies| > 0 && Storage(plan.name) in created && Storage(plan.name) !in files
      modifies `files, `left
      ensures stop == (old(left) < |plan.copies| + 1)
      ensures !stop ==> left == old(left) - (|plan.copies| + 1)
      ensures !stop ==> files == old(files)[Storage(plan.name) := plan.copies[|plan.copies| - 1]]
      ensures RolledBack(files, created, backups) == RolledBack(old(files), created, backups)
      ensures forall p: Path :: p.Backup? ==> (p in files <==> p in old(files))
    {
      var i := 0;
      while i < |plan.copies|
        invariant 0 <= i <= |plan.copies|
        invariant left == old(left) - i
        invariant files == if i == 0 then old(files) else old(files)[Storage(plan.name) := plan.copies[i - 1]]
        invariant RolledBack(files, created, backups) == RolledBack(old(files), created, backups)
      {
        stop := Interrupted();
        if stop {
          return;
        }
        CreationIsUndone(files, created, backups, Storage(plan.name), plan.copies[i]);
        files := files[Storage(plan.name) := plan.copies[i]];
        i := i + 1;
      }
      stop := Interrupted();
    }

    /** Sets a version aside and notes it, unless the report of the move is where the import stops. */
    method BackUpAndNote(target: Path, ghost names: set<string>) returns (end: End)
      requires target in files && !target.Backup? && target !in created
      requires Kept(files, created, backups, names)
      requires forall k :: 0 <= k < |backups| ==> backups[k].0 != target
      modifies `files, `left, `backups
      ensures end.FailedMoving? <==> old(left) == 0
      ensures !end.Failed? && left == if old(left) == 0 then 0 else old(left) - 1
      ensures end.FailedMoving? ==> end.target == target && StoppedMoving(old(Undone()), end, Undone())
      ensures end.Completed? ==> Undone() == old(Undone()) && Project(files) == old(Project(files)) - {target}
      ensures end.Completed? ==> target !in files && Kept(files, created, backups, names + {target.name})
      ensures end.Completed? ==> |backups| == |old(backups)| + 1 && backups[|backups| - 1].0 == target
      ensures end.Completed? ==> backups[..|backups| - 1] == old(backups)
    {
      var backup, stop := BackUp(target);
      RemovedSetAside(old(files), created, target, backup);
      if stop {
        UnnotedMoveStays(Removed(old(files), created), backups, target, backup);
        return FailedMoving(target, backup);
      }
      MoveIsUndone(old(files), created, backups, target, backup);
      backups := backups + [(target, backup)];
      end := Completed;
    }

    /** What a rollback would give now. */
    ghost function Undone(): Files
      reads this
    {
      RolledBack(files, created, backups)
    }

    method Note(path: Path)
      requires path !in files
      modifies `created
      ensures created == old(created) + [path] && Undone() == old(Undone())
    {
      CreationIsUndone(files, created, backups, path, "");
      created := created + [path];
    }

    /** Links the module; a link already there and right is left alone. */
    method LinkModule(plan: Plan, ghost names: set<string>) returns (end: End)
      requires plan.action.Add? <==> Link(plan.name) !in files
      requires Kept(files, created, backups, names)
      requires Link(plan.name) !in created && forall k :: 0 <= k < |backups| ==> backups[k].0 != Link(plan.name)
      modifies `files, `left, `backups, `created
      ensures var needed := if plan.action.LocalCopy? || plan.action.Replace? then 2 else 1;
        && (end.Completed? <==> old(left) >= needed)
        && (end.FailedMoving? <==> needed == 2 && old(left) == 0)
        && (end.Completed? ==> left == old(left) - needed)
      ensures end.Completed? ==> Kept(files, created, backups, names + {plan.name})
      ensures end.Completed? ==>
        Project(files) == if plan.action.Update? then old(Project(files))
                          else old(Project(files))[Link(plan.name) := plan.link]
      ensures !end.FailedMoving? ==> Undone() == old(Undone())
      ensures end.FailedMoving? ==> end.target == Link(plan.name) && StoppedMoving(old(Undone()), end, Undone())
    {
      hide RolledBack, Project;
      var link := Link(plan.name);
      if plan.action.LocalCopy? || plan.action.Replace? {
        end := BackUpAndNote(link, names);
        if end.FailedMoving? {
          return;
        }
      }
      if !plan.action.Update? {
        Note(link);
        CreationIsUndone(files, created, backups, link, plan.link);
        ProjectWrites(files, link, plan.link);
        files := files[link := plan.link];
      }
      var stop := Interrupted();
      end := if stop then Failed else Completed;
    }

    method ImportModule(plan: Plan, ghost names: set<string>) returns (end: End)
      requires Planned(files, plan) && plan.name !in names
      requires Kept(files, created, backups, names)
      modifies `files, `left, `backups, `created
      ensures end.Completed? <==> !Refused(old(files), plan) && old(left) >= Points(plan)
      ensures end.FailedMoving? <==> !Refused(old(files), plan) && old(left) == MovePoint(plan)
      ensures end.Completed? ==> left == old(left) - Points(plan)
      ensures end.Completed? ==> Kept(files, created, backups, names + {plan.name})
      ensures end.Completed? ==> Project(files) == Project(Imported(old(files), plan))
      ensures !end.FailedMoving? ==> Undone() == old(Undone())
      ensures end.FailedMoving? ==> end.target in old(files) && StoppedMoving(old(Undone()), end, Undone())
    {
      hide RolledBack, Project;
      var target := Storage(plan.name);
      if plan.action.Update? {
        end := BackUpAndNote(target, names);
        if end.FailedMoving? {
          return;
        }
      }
      ProjectWrites(old(files), Link(plan.name), plan.link);
      ProjectWrites(files, Link(plan.name), plan.link);
      ghost var text := plan.copies[|plan.copies| - 1];
      ProjectWrites(old(files), target, text);
      ProjectWrites(files, target, text);
      ProjectWrites(old(files)[target := text], Link(plan.name), plan.link);
      if target !in files {
        Note(target);
      } else {
        return Failed;
      }
      var stop := CopyToStorage(plan);
      if stop {
        return Failed;
      }
      end := LinkModule(plan, names + {plan.name});
    }

    /** Removes what was created, then moves the previous versions back, each list from its end. */
    method Rollback()
      modifies `files
      ensures files == old(Undone())
    {
      var i := |created|;
      while i > 0
        invariant 0 <= i <= |created|
        invariant files == old(files) - set p | p in created[i..]
      {
        i := i - 1;
        assert created[i..] == [created[i]] + created[i + 1..];
        files := files - {created[i]};
      }
      assert created[0..] == created;
      var j := |backups|;
      assert backups[..|backups|] == backups;
      while j > 0
        invariant 0 <= j <= |backups|
        invariant MovedBack(files, backups[..j]) == old(Undone())
      {
        j := j - 1;
        var (target, backup) := backups[j];
        assert backups[..j + 1][..j] == backups[..j];
        if backup in files {
          files := SetAside(files, backup, target);
        }
      }
    }

    /** The modules one after the other. Whatever happens, a rollback would give back the files of the start,
        but for a version whose move is not noted. */
    method ImportEach(plans: seq<Plan>) returns (end: End)
      requires AllPlanned(files, plans) && created == [] && backups == []
      modifies this
      ensures end.Completed? <==>
        (forall k :: 0 <= k < |plans| ==> !Refused(old(files), plans[k])) && old(left) >= AllPoints(plans)
      ensures end.Completed? ==> Project(files) == Project(ImportedAll(old(files), plans))
      ensures !end.FailedMoving? ==> Undone() == old(files)
      ensures end.FailedMoving? <==> StopsInMove(old(files), plans, old(left))
      ensures end.FailedMoving? ==> StoppedMoving(old(files), end, Undone())
    {
      hide RolledBack, Project, ImportedAll, Points;
      end := Completed;
      ghost var names: set<string> := {};
      NothingImported(files, plans);
      var i := 0;
      while i < |plans|
        invariant 0 <= i <= |plans|
        invariant end.Completed?
        invariant forall k :: 0 <= k < i ==> !Refused(old(files), plans[k])
        invariant old(left) - AllPoints(plans) == left - AllPoints(plans[i..])
        invariant names == set k | 0 <= k < i :: plans[k].name
        invariant Kept(files, created, backups, names)
        invariant Undone() == old(files)
        invariant Project(files) == Project(ImportedAll(old(files), plans[..i]))
        invariant StopsInMove(old(files), plans, old(left)) <==> StopsInMove(old(files), plans[i..], left)
      {
        StillPlanned(old(files), plans, i);
        OneMore(old(files), files, plans, i);
        end := ImportModule(plans[i], names);
        if !end.Completed? {
          return;
        }
        names := names + {plans[i].name};
        i := i + 1;
      }
      assert plans[..|plans|] == plans;
    }

    /** Imports every module or none, unless it stops between a move and its note: then the version being
        moved stays in the backups. */
    method Run(plans: seq<Plan>) returns (end: End)
      requires AllPlanned(files, plans) && created == [] && backups == []
      modifies this
      ensures end.Completed? <==>
        (forall k :: 0 <= k < |plans| ==> !Refused(old(files), plans[k])) && old(left) >= AllPoints(plans)
      ensures end.Completed? ==> Project(files) == Project(ImportedAll(old(files), plans))
      ensures end.Completed? ==> Undone() == old(files)
      ensures end.Failed? ==> files == old(files)
      ensures end.FailedMoving? <==> StopsInMove(old(files), plans, old(left))
      ensures end.FailedMoving? ==> StoppedMoving(old(files), end, files)
    {
      end := ImportEach(plans);
      if !end.Completed? {
        Rollback();
      }
    }
  }

  lemma {:induction false} NothingImported(files: Files, plans: seq<Plan>)
    ensures RolledBack(files, [], []) == files
    ensures ImportedAll(files, plans[..0]) == files
    ensures plans[0..] == plans
  {
    assert Removed(files, []) == files;
  }

  lemma {:induction false} OneMore(initial: Files, files: Files, plans: seq<Plan>, i: nat)
    requires AllPlanned(initial, plans) && i < |plans|
    requires Project(files) == Project(ImportedAll(initial, plans[..i]))
    requires Planned(ImportedAll(initial, plans[..i]), plans[i])
    ensures Planned(files, plans[i]) && Refused(files, plans[i]) == Refused(ImportedAll(initial, plans[..i]), plans[i])
    ensures Project(Imported(files, plans[i])) == Project(ImportedAll(initial, plans[..i + 1]))
    ensures plans[i..][0] == plans[i] && plans[i..][1..] == plans[i + 1..]
  {
    SameProject(files, ImportedAll(initial, plans[..i]), plans[i]);
    assert plans[..i + 1][..i] == plans[..i];
  }

  /** What is decided about a module does not depend on the other modules of the import. */
  lemma {:induction false} StillPlanned(files: Files, plans: seq<Plan>, i: nat)
    requires AllPlanned(files, plans) && i < |plans|
    ensures Planned(ImportedAll(files, plans[..i]), plans[i])
    ensures Refused(ImportedAll(files, plans[..i]), plans[i]) == Refused(files, plans[i])
  {
    UntouchedByOthers(files, plans, i, i);
  }

  lemma {:induction false} UntouchedByOthers(files: Files, plans: seq<Plan>, n: nat, i: nat)
    requires AllPlanned(files, plans) && n <= i < |plans|
    ensures forall p: Path :: !p.Backup? && p.name == plans[i].name ==>
      (p in ImportedAll(files, plans[..n]) <==> p in files)
  {
    if n > 0 {
      UntouchedByOthers(files, plans, n - 1, i);
      assert plans[..n][..n - 1] == plans[..n - 1];
      assert plans[n - 1].name != plans[i].name;
    }
  }

  lemma {:induction false} SameProject(files: Files, other: Files, plan: Plan)
    requires Project(files) == Project(other) && |plan.copies| > 0
    ensures Planned(files, plan) == Planned(other, plan) && Refused(files, plan) == Refused(other, plan)
    ensures Project(Imported(files, plan)) == Project(Imported(other, plan))
  {
    hide Project;
    var storage, link, text := Storage(plan.name), Link(plan.name), plan.copies[|plan.copies| - 1];
    ProjectWrites(files, storage, text);
    ProjectWrites(other, storage, text);
    ProjectWrites(files, link, text);
    ProjectWrites(other, link, text);
    ProjectWrites(files[storage := text], link, plan.link);
    ProjectWrites(other[storage := text], link, plan.link);
  }

  /** The rollback gives back everything but the version that was being moved, which stays in its backup. */
  ghost predicate StoppedMoving(before: Files, end: End, after: Files)
    requires end.FailedMoving?
  {
    && end.target in before && !end.target.Backup? && end.backup.Backup?
    && after == SetAside(before, end.target, end.backup)
  }
}
