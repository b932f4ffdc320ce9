/** Finding the modules of a repository: from a recursive listing of its files (odoo_manager_core/repositories.py)
    and by walking its folders (odoo_manager_web.py: find_module_candidates). */
module RepositoryTree {
  /** A path below the repository's root, one name after the other; the root itself is []. */
  type Path = seq<string>

  datatype Tree = Tree(files: seq<string>, dirs: Dirs)
  datatype Dirs = NoDir | Dir(name: string, tree: Tree, others: Dirs)

  const MANIFEST_FILENAMES: set<string> := {"__manifest__.py", "__openerp__.py"}
  const SKIPPED_DIRS: set<string> := {".git", "__pycache__", "node_modules"}

  // --- The folders ---------------------------------------------------------------------------------------

  predicate Named(dirs: Dirs, name: string) {
    dirs.Dir? && (dirs.name == name || Named(dirs.others, name))
  }

  /** In every folder, the sub-folders have different names. */
  predicate WellFormed(t: Tree) {
    WellFormedDirs(t.dirs)
  }

  predicate WellFormedDirs(dirs: Dirs) {
    dirs.Dir? ==> WellFormed(dirs.tree) && !Named(dirs.others, dirs.name) && WellFormedDirs(dirs.others)
  }

  predicate HasManifest(t: Tree) {
    "__manifest__.py" in t.files || "__openerp__.py" in t.files
  }

  /** Whether the repository has this file. */
  predicate FileAt(t: Tree, path: Path)
    requires path != []
    decreases |path|, t
  {
    if |path| == 1 then path[0] in t.files else FileAtDirs(t.dirs, path)
  }

  predicate FileAtDirs(dirs: Dirs, path: Path)
    requires |path| > 1
    decreases |path|, dirs
  {
    && dirs.Dir?
    && ((dirs.name == path[0] && FileAt(dirs.tree, path[1..])) || FileAtDirs(dirs.others, path))
  }

  /** Whether this folder holds a manifest. */
  predicate ManifestAt(t: Tree, path: Path)
    decreases |path|, t
  {
    if path == [] then HasManifest(t) else ManifestAtDirs(t.dirs, path)
  }

  predicate ManifestAtDirs(dirs: Dirs, path: Path)
    requires path != []
    decreases |path|, dirs
  {
    && dirs.Dir?
    && ((dirs.name == path[0] && ManifestAt(dirs.tree, path[1..])) || ManifestAtDirs(dirs.others, path))
  }

  // --- Walking the folders -------------------------------------------------------------------------------

  /** The modules met walking down: a folder with a manifest is one, and is not entered; neither is a skipped
      folder, once it has been looked at. */
  function Walk(t: Tree, skipped: bool): set<Path>
    decreases t
  {
    if HasManifest(t) then {[]} else if skipped then {} else WalkDirs(t.dirs)
  }

  function WalkDirs(dirs: Dirs): set<Path>
    decreases dirs
  {
    if dirs.NoDir? then {}
    else (set p | p in Walk(dirs.tree, dirs.name in SKIPPED_DIRS) :: [dirs.name] + p) + WalkDirs(dirs.others)
  }

  function FindModuleCandidates(t: Tree): set<Path> {
    Walk(t, false)
  }

  // --- Reading the listing -------------------------------------------------------------------------------

  predicate Clean(path: Path) {
    forall k :: 0 <= k < |path| ==> path[k] !in {".git", "__pycache__", "node_modules"}
  }

  ghost predicate UnderAnother(path: Path, dirs: set<Path>) {
    exists k :: 0 <= k < |path| && path[..k] in dirs
  }

  ghost function Modules(dirs: set<Path>): set<Path> {
    set d | d in dirs && Clean(d) && !UnderAnother(d, dirs)
  }

  ghost function ManifestDirs(listing: seq<Path>): set<Path> {
    set f | f in listing && f != [] && f[|f| - 1] in {"__manifest__.py", "__openerp__.py"} :: f[..|f| - 1]
  }

  predicate IsShallowest(d: Path, dirs: set<Path>) {
    d in dirs && forall e :: e in dirs ==> |d| <= |e|
  }

  lemma {:induction false} Shallowest(dirs: set<Path>) returns (d: Path)
    requires dirs != {}
    ensures IsShallowest(d, dirs)
    decreases dirs
  {
    d :| d in dirs;
    if dirs != {d} {
      var rest := dirs - {d};
      var s := Shallowest(rest);
      if |s| < |d| {
        d := s;
      }
    }
  }

  /** The folders of the manifests listed. */
  method CollectManifestDirs(listing: seq<Path>) returns (manifestDirs: set<Path>)
    ensures manifestDirs == ManifestDirs(listing)
  {
    hide ManifestDirs;
    NothingListed(listing);
    manifestDirs := {};
    for i := 0 to |listing|
      invariant manifestDirs == ManifestDirs(listing[..i])
    {
      OneMoreListed(listing, i);
      var f := listing[i];
      if f != [] && f[|f| - 1] in MANIFEST_FILENAMES {
        manifestDirs := manifestDirs + {f[..|f| - 1]};
      }
    }
  }

  lemma {:induction false} NothingListed(listing: seq<Path>)
    ensures ManifestDirs(listing[..0]) == {}
    ensures listing[..|listing|] == listing
  {
  }

  lemma {:induction false} OneMoreListed(listing: seq<Path>, i: nat)
    requires i < |listing|
    ensures ManifestDirs(listing[..i + 1]) == ManifestDirs(listing[..i]) +
      if listing[i] != [] && listing[i][|listing[i]| - 1] in MANIFEST_FILENAMES
      then {listing[i][..|listing[i]| - 1]} else {}
  {
    assert listing[..i + 1] == listing[..i] + [listing[i]];
    assert forall f :: f in listing[..i + 1] <==> f in listing[..i] || f == listing[i];
  }

  /** The folders of the manifests listed, the shallowest first; one below a module already kept is dropped. */
  method RepositoryModulesFromTree(listing: seq<Path>) returns (modules: set<Path>)
    ensures modules == Modules(ManifestDirs(listing))
  {
    hide Modules, Clean, IsShallowest, ManifestDirs;
    var manifestDirs := CollectManifestDirs(listing);
    modules := {};
    var rest := manifestDirs;
    OnlyManifestDirs(manifestDirs);
    while rest != {}
      invariant rest <= manifestDirs
      invariant modules == Modules(manifestDirs) - rest
      decreases rest
    {
      ghost var shallowest := Shallowest(rest);
      var d :| IsShallowest(d, rest);
      IsModuleWhen(manifestDirs, rest, d);
      rest := rest - {d};
      if Clean(d) {
        if [] in modules {
          OnlyTheRoot(manifestDirs);
          return;
        }
        if !exists k :: 0 < k < |d| && d[..k] in modules {
          modules := modules + {d};
        }
      }
    }
  }

  lemma {:induction false} OnlyManifestDirs(dirs: set<Path>)
    ensures Modules(dirs) <= dirs
  {
  }

  /** Below another folder with a manifest means below a module already kept. */
  lemma {:induction false} IsModuleWhen(dirs: set<Path>, rest: set<Path>, d: Path)
    requires IsShallowest(d, rest) && rest <= dirs
    ensures d in rest
    ensures d in Modules(dirs) <==> Clean(d) && forall k :: 0 <= k < |d| ==> d[..k] !in Modules(dirs) - rest
    ensures Modules(dirs) - (rest - {d}) == Modules(dirs) - rest + if d in Modules(dirs) then {d} else {}
    ensures d != [] ==> d[..0] == []
    ensures d == [] && Clean(d) ==> d in Modules(dirs)
  {
    if Clean(d) && UnderAnother(d, dirs) {
      var k :| 0 <= k < |d| && d[..k] in dirs;
      var j := HighestModule(d, k, dirs);
      assert d[..j] in Modules(dirs) - rest;
    }
  }

  /** The topmost folder with a manifest on the way to a clean path is a module. */
  lemma {:induction false} HighestModule(d: Path, k: nat, dirs: set<Path>) returns (j: nat)
    requires k < |d| && d[..k] in dirs && Clean(d)
    ensures j <= k && d[..j] in Modules(dirs)
    decreases k
  {
    if i :| 0 <= i < k && d[..k][..i] in dirs {
      assert d[..k][..i] == d[..i];
      j := HighestModule(d, i, dirs);
    } else {
      assert !UnderAnother(d[..k], dirs);
      j := k;
    }
  }

  lemma {:induction false} OnlyTheRoot(dirs: set<Path>)
    requires [] in dirs
    ensures Modules(dirs) == {[]}
  {
    assert forall d: Path :: d[..0] == [];
    assert [] in Modules(dirs);
    assert forall d :: d in Modules(dirs) && d != [] ==> d[..0] in dirs;
  }

  // --- The two agree ---------------------------------------------------------------------------------------

  /** What the walk finds: folders with a manifest, none above them, reached without entering a skipped one. */
  ghost predicate Reached(t: Tree, skipped: bool, p: Path) {
    && ManifestAt(t, p)
    && (forall k :: 0 <= k < |p| ==> !ManifestAt(t, p[..k]))
    && (p != [] ==> !skipped && Clean(p[..|p| - 1]))
  }

  lemma {:induction false} WalkReaches(t: Tree, skipped: bool, p: Path)
    requires WellFormed(t)
    ensures p in Walk(t, skipped) <==> Reached(t, skipped, p)
    decreases t
  {
    if p == [] {
      NoRootBelow(t.dirs);
    } else if HasManifest(t) {
      assert ManifestAt(t, p[..0]);
    } else {
      WalkDirsReach(t.dirs, p);
      assert !ManifestAt(t, p[..0]);
      assert forall k :: 0 < k < |p| ==> (ManifestAt(t, p[..k]) <==> ManifestAtDirs(t.dirs, p[..k]));
    }
  }

  lemma {:induction false} NoRootBelow(dirs: Dirs)
    ensures [] !in WalkDirs(dirs)
    decreases dirs
  {
    if dirs.Dir? {
      NoRootBelow(dirs.others);
    }
  }

  ghost predicate ReachedDirs(dirs: Dirs, p: Path)
    requires p != []
  {
    && ManifestAtDirs(dirs, p)
    && (forall k :: 0 < k < |p| ==> !ManifestAtDirs(dirs, p[..k]))
    && Clean(p[..|p| - 1])
  }

  lemma {:induction false} WalkDirsReach(dirs: Dirs, p: Path)
    requires WellFormedDirs(dirs) && p != []
    ensures p in WalkDirs(dirs) <==> ReachedDirs(dirs, p)
    decreases dirs
  {
    if dirs.Dir? {
      WalkDirsReach(dirs.others, p);
      if dirs.name == p[0] {
        NotNamed(dirs.others, p);
        forall k | 0 < k < |p|
          ensures ManifestAtDirs(dirs, p[..k]) <==> ManifestAt(dirs.tree, p[1..][..k - 1])
        {
          NotNamed(dirs.others, p[..k]);
          assert p[..k][1..] == p[1..][..k - 1];
        }
        BelowReaches(dirs, p);
      } else {
        assert forall q :: q in Walk(dirs.tree, dirs.name in SKIPPED_DIRS) ==> ([dirs.name] + q)[0] != p[0];
        assert forall k :: 0 < k < |p| ==> p[..k][0] == p[0];
      }
    }
  }

  lemma {:induction false} BelowReaches(dirs: Dirs, p: Path)
    requires dirs.Dir? && WellFormed(dirs.tree) && p != [] && p[0] == dirs.name
    requires !Named(dirs.others, p[0]) && !ManifestAtDirs(dirs.others, p) && !ReachedDirs(dirs.others, p)
    requires p !in WalkDirs(dirs.others)
    requires forall k :: 0 < k < |p| ==> (ManifestAtDirs(dirs, p[..k]) <==> ManifestAt(dirs.tree, p[1..][..k - 1]))
    ensures p in WalkDirs(dirs) <==> ReachedDirs(dirs, p)
    decreases dirs, 0
  {
    var skipped := dirs.name in SKIPPED_DIRS;
    var q := p[1..];
    WalkReaches(dirs.tree, skipped, q);
    assert p == [dirs.name] + q;
    assert p in WalkDirs(dirs) <==> q in Walk(dirs.tree, skipped) by {
      if p in WalkDirs(dirs) {
        var r :| r in Walk(dirs.tree, skipped) && p == [dirs.name] + r;
        assert r == q;
      }
    }
    ShiftedPrefixes(dirs, p);
    if q == [] {
      assert Clean(p[..|p| - 1]);
    } else {
      CleanBelow(p);
    }
  }

  lemma {:induction false} ShiftedPrefixes(dirs: Dirs, p: Path)
    requires dirs.Dir? && p != []
    requires forall k :: 0 < k < |p| ==> (ManifestAtDirs(dirs, p[..k]) <==> ManifestAt(dirs.tree, p[1..][..k - 1]))
    ensures (forall k :: 0 < k < |p| ==> !ManifestAtDirs(dirs, p[..k]))
       <==> (forall k :: 0 <= k < |p[1..]| ==> !ManifestAt(dirs.tree, p[1..][..k]))
  {
    if forall k :: 0 < k < |p| ==> !ManifestAtDirs(dirs, p[..k]) {
      forall k | 0 <= k < |p[1..]| ensures !ManifestAt(dirs.tree, p[1..][..k]) {
        assert !ManifestAtDirs(dirs, p[..k + 1]);
        assert p[1..][..(k + 1) - 1] == p[1..][..k];
      }
    }
  }

  lemma {:induction false} CleanBelow(p: Path)
    requires |p| > 1
    ensures Clean(p[..|p| - 1]) <==> p[0] !in SKIPPED_DIRS && Clean(p[1..][..|p| - 2])
  {
    assert p[..|p| - 1] == [p[0]] + p[1..][..|p| - 2];
  }

  lemma {:induction false} NotNamed(dirs: Dirs, p: Path)
    requires p != [] && !Named(dirs, p[0])
    ensures !ManifestAtDirs(dirs, p)
    ensures |p| > 0 ==> p !in WalkDirs(dirs)
    decreases dirs
  {
    if dirs.Dir? {
      NotNamed(dirs.others, p);
    }
  }

  /** The listing names every file of the repository, in any order. */
  ghost predicate Lists(listing: seq<Path>, t: Tree) {
    forall f :: f in listing <==> f != [] && FileAt(t, f)
  }

  lemma {:induction false} ManifestIsAFile(t: Tree, p: Path)
    ensures ManifestAt(t, p) <==> exists f :: f in MANIFEST_FILENAMES && FileAt(t, p + [f])
    decreases |p|, t
  {
    if p == [] {
      assert forall f :: FileAt(t, p + [f]) <==> f in t.files;
    } else {
      ManifestIsAFileBelow(t.dirs, p);
    }
  }

  lemma {:induction false} ManifestIsAFileBelow(dirs: Dirs, p: Path)
    requires p != []
    ensures ManifestAtDirs(dirs, p) <==> exists f :: f in MANIFEST_FILENAMES && FileAtDirs(dirs, p + [f])
    decreases |p|, dirs
  {
    if dirs.Dir? {
      ManifestIsAFileBelow(dirs.others, p);
      if dirs.name == p[0] {
        ManifestIsAFile(dirs.tree, p[1..]);
      }
      forall f ensures FileAtDirs(dirs, p + [f]) <==>
        (dirs.name == p[0] && FileAt(dirs.tree, p[1..] + [f])) || FileAtDirs(dirs.others, p + [f])
      {
        assert (p + [f])[1..] == p[1..] + [f];
      }
    }
  }

  lemma {:induction false} ListingShowsManifests(t: Tree, listing: seq<Path>, p: Path)
    requires Lists(listing, t)
    ensures p in ManifestDirs(listing) <==> ManifestAt(t, p)
  {
    ManifestIsAFile(t, p);
    if ManifestAt(t, p) {
      var f :| f in MANIFEST_FILENAMES && FileAt(t, p + [f]);
      assert p + [f] in listing && (p + [f])[..|p|] == p;
    }
    if p in ManifestDirs(listing) {
      var file :| file in listing && file != [] && file[|file| - 1] in MANIFEST_FILENAMES && file[..|file| - 1] == p;
      assert file == p + [file[|file| - 1]];
    }
  }

  /** A manifest directly inside a skipped folder that the walk looks at. */
  ghost predicate Stray(t: Tree, p: Path) {
    && p != [] && p[|p| - 1] in {".git", "__pycache__", "node_modules"}
    && Reached(t, false, p)
  }

  /** Both ways of looking give the same modules, except that the walk also takes a skipped folder for a module
      when the manifest lies directly inside it. */
  lemma {:induction false} ListingAgreesWithWalk(t: Tree, listing: seq<Path>)
    requires WellFormed(t) && Lists(listing, t)
    ensures Modules(ManifestDirs(listing)) == set p | p in FindModuleCandidates(t) && !Stray(t, p)
    ensures Modules(ManifestDirs(listing)) == FindModuleCandidates(t) <==> forall p :: !Stray(t, p)
  {
    hide Modules, ManifestDirs, FindModuleCandidates, Stray, Lists, WellFormed;
    forall p
      ensures p in Modules(ManifestDirs(listing)) <==> p in FindModuleCandidates(t) && !Stray(t, p)
      ensures Stray(t, p) ==> p in FindModuleCandidates(t)
    {
      AgreesAt(t, listing, p);
    }
  }

  lemma {:induction false} AgreesAt(t: Tree, listing: seq<Path>, p: Path)
    requires WellFormed(t) && Lists(listing, t)
    ensures p in Modules(ManifestDirs(listing)) <==> p in FindModuleCandidates(t) && !Stray(t, p)
    ensures Stray(t, p) ==> p in FindModuleCandidates(t)
  {
    hide ManifestDirs, Walk, Lists, WellFormed, ManifestAt;
    WalkReaches(t, false, p);
    ListingShowsManifests(t, listing, p);
    assert UnderAnother(p, ManifestDirs(listing)) <==> exists k :: 0 <= k < |p| && ManifestAt(t, p[..k]) by {
      forall k | 0 <= k < |p| ensures p[..k] in ManifestDirs(listing) <==> ManifestAt(t, p[..k]) {
        ListingShowsManifests(t, listing, p[..k]);
      }
    }
    if p != [] {
      assert p == p[..|p| - 1] + [p[|p| - 1]];
    }
  }

  /** No module lies inside another; a manifest left out lies below a module or inside a skipped folder. */
  lemma {:induction false} LeftOutForAReason(dirs: set<Path>, d: Path)
    requires d in dirs
    ensures d in Modules(dirs) ==> forall k :: 0 <= k < |d| ==> d[..k] !in Modules(dirs)
    ensures d !in Modules(dirs) ==>
      || (exists k :: 0 <= k < |d| && d[k] in {".git", "__pycache__", "node_modules"})
      || (exists k :: 0 <= k < |d| && d[..k] in Modules(dirs))
  {
    if Clean(d) && UnderAnother(d, dirs) {
      var k :| 0 <= k < |d| && d[..k] in dirs;
      var j := HighestModule(d, k, dirs);
    }
  }
}
