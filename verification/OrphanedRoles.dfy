/** scripts/check_merge_base_overlap.py: docstring roles that name a module the other side of a merge deletes. */
module OrphanedRoles {
  import opened Text
  import opened Trees

  const PACKAGE_ROOT := "strands_robots"
  const ROOT_INIT := "strands_robots/__init__.py"
  const MIN_NAMED_MODULE_SEGMENTS: nat := 2

  /** `s.replace("/", ".")`. */
  function Dotted(s: string): (r: string)
    ensures |r| == |s| && forall i :: 0 <= i < |s| ==> r[i] == if s[i] == '/' then '.' else s[i]
  {
    seq(|s|, i requires 0 <= i < |s| => if s[i] == '/' then '.' else s[i])
  }

  /** A target the role pattern can produce: at least two dotted parts, the package first, no slash anywhere. */
  predicate IsTarget(target: string)
  {
    var parts := Split(target, '.');
    |parts| >= 2 && parts[0] == PACKAGE_ROOT && '/' !in target
  }

  function Stem(parts: seq<string>, depth: nat): string
    requires depth <= |parts|
  {
    Join(parts[..depth], "/")
  }

  /** The file is a prefix of at least two parts of the dotted name, in either spelling. */
  ghost predicate IsFileOf(name: string, path: string)
  {
    exists depth :: MIN_NAMED_MODULE_SEGMENTS <= depth <= |Split(name, '.')|
      && (path == Stem(Split(name, '.'), depth) + ".py" || path == Stem(Split(name, '.'), depth) + "/__init__.py")
  }

  /** The module files one dotted name needs. */
  function ModuleFiles(name: string): (files: set<string>)
    ensures forall p :: p in files <==> IsFileOf(name, p)
  {
    var parts := Split(name, '.');
    (set depth | MIN_NAMED_MODULE_SEGMENTS <= depth <= |parts| :: Stem(parts, depth) + ".py")
    + (set depth | MIN_NAMED_MODULE_SEGMENTS <= depth <= |parts| :: Stem(parts, depth) + "/__init__.py")
  }

  method NamedModulePaths(names: set<string>) returns (found: set<string>)
    ensures forall p :: p in found <==> exists name :: name in names && IsFileOf(name, p)
  {
    found := {};
    var left := names;
    while left != {}
      invariant left <= names
      invariant forall p :: p in found <==> exists name :: name in names && name !in left && IsFileOf(name, p)
      decreases |left|
    {
      var name :| name in left;
      left := left - {name};
      var parts := Split(name, '.');
      ghost var before := found;
      for depth := MIN_NAMED_MODULE_SEGMENTS to |parts| + 1
        invariant forall p :: p in found <==> p in before || exists d ::
          MIN_NAMED_MODULE_SEGMENTS <= d < depth <= |parts| + 1
            && (p == Stem(parts, d) + ".py" || p == Stem(parts, d) + "/__init__.py")
      {
        found := found + {Stem(parts, depth) + ".py", Stem(parts, depth) + "/__init__.py"};
      }
    }
  }

  /** The path of a module file without its suffix: what `dotted_module_names` renders. */
  function ModuleStem(path: string): string
    requires EndsWith(path, ".py")
  {
    if EndsWith(path, "/__init__.py") then path[..|path| - |"/__init__.py"|] else path[..|path| - |".py"|]
  }

  /** The dotted name a deleted path was imported under, if any role could name it. */
  predicate IsNamed(path: string)
  {
    && EndsWith(path, ".py") && StartsWith(path, PACKAGE_ROOT + "/")
    && |Split(Dotted(ModuleStem(path)), '.')| >= MIN_NAMED_MODULE_SEGMENTS
  }

  function DottedNames(paths: set<string>): set<string>
  {
    set p | p in paths && IsNamed(p) :: Dotted(ModuleStem(p))
  }

  /** The path is a file of the package whose dotted name, of at least two parts, is `name`: a package's own file by the
      name of its directory, any other by its own. */
  ghost predicate IsNameOf(path: string, name: string)
  {
    && StartsWith(path, PACKAGE_ROOT + "/") && |Split(name, '.')| >= MIN_NAMED_MODULE_SEGMENTS
    && exists stem :: name == Dotted(stem) &&
         (path == stem + "/__init__.py" || (path == stem + ".py" && !EndsWith(path, "/__init__.py")))
  }

  lemma NameIsOf(path: string, name: string)
    ensures IsNameOf(path, name) <==> IsNamed(path) && name == Dotted(ModuleStem(path))
  {
    if stem :| (name == Dotted(stem)
        && (path == stem + "/__init__.py" || (path == stem + ".py" && !EndsWith(path, "/__init__.py")))) {
      assert path == stem + "/__init__.py" ==> path[|path| - 12..] == "/__init__.py" && path[|path| - 3..] == ".py";
      assert path == stem + ".py" ==> path[|path| - 3..] == ".py";
      assert ModuleStem(path) == stem;
    }
    if IsNamed(path) && name == Dotted(ModuleStem(path)) {
      var stem := ModuleStem(path);
      assert path == stem + path[|stem|..];
    }
  }

  method DottedModuleNames(paths: set<string>) returns (found: set<string>)
    ensures found == DottedNames(paths)
    ensures forall name :: name in found <==> exists path :: path in paths && IsNameOf(path, name)
  {
    found := {};
    var left := paths;
    while left != {}
      invariant left <= paths
      invariant found == DottedNames(paths - left)
      decreases |left|
    {
      var path :| path in left;
      left := left - {path};
      assert paths - left == (paths - (left + {path})) + {path};
      if !EndsWith(path, ".py") || !StartsWith(path, PACKAGE_ROOT + "/") {
        continue;
      }
      var name := Dotted(ModuleStem(path));
      if |Split(name, '.')| >= MIN_NAMED_MODULE_SEGMENTS {
        found := found + {name};
      }
    }
    forall path, name ensures IsNameOf(path, name) <==> IsNamed(path) && name == Dotted(ModuleStem(path)) {
      NameIsOf(path, name);
    }
  }

  /** The text contains one of the names. */
  predicate Spells(names: set<string>, text: string)
  {
    exists n :: n in names && Occurs(n, text)
  }

  /** The files a scan reads: Python files of the tree in scope. */
  predicate IsRead(tree: Tree, scope: set<string>, path: string)
  {
    path in scope && path in tree && EndsWith(path, ".py")
  }

  predicate IsDead(deleted: set<string>, target: string)
  {
    ModuleFiles(target) * deleted != {}
  }

  /** Every dead role of every file read. */
  ghost predicate FullScan(tree: Tree, roles: string -> set<string>, deleted: set<string>, scope: set<string>,
      path: string, target: string)
  {
    IsRead(tree, scope, path) && target in roles(tree[path]) && IsDead(deleted, target)
  }

  /** The dead roles of the files that spell a deleted module's dotted name. */
  ghost predicate Narrowed(tree: Tree, roles: string -> set<string>, deleted: set<string>, scope: set<string>,
      path: string, target: string)
  {
    FullScan(tree, roles, deleted, scope, path, target) && Spells(DottedNames(deleted), tree[path])
  }

  /** `files_naming`: the files in scope whose text contains one of the names. */
  method FilesNaming(tree: Tree, names: set<string>, scope: set<string>) returns (files: set<string>)
    ensures forall path :: path in files <==> IsRead(tree, scope, path) && Spells(names, tree[path])
    ensures forall path :: path in files <==>
      path in scope && path in tree && EndsWith(path, ".py") && exists n :: n in names && Occurs(n, tree[path])
    ensures files <= tree.Keys
  {
    files := set path | path in scope && path in tree && EndsWith(path, ".py") && Spells(names, tree[path]);
  }

  method OrphanedRoles(tree: Tree, roles: string -> set<string>, deleted: set<string>, scope: set<string>)
      returns (found: set<(string, string)>)
    ensures forall path, target :: (path, target) in found <==> Narrowed(tree, roles, deleted, scope, path, target)
  {
    hide IsRead, Spells, DottedNames, ModuleFiles, IsNameOf, IsFileOf, Occurs, EndsWith;
    found := {};
    var names := DottedModuleNames(deleted);
    var files := FilesNaming(tree, names, scope);
    var left := files;
    while left != {}
      invariant left <= files && (forall path :: path in left ==> path in tree)
      invariant forall path, target :: (path, target) in found <==>
        Narrowed(tree, roles, deleted, scope, path, target) && path !in left
      decreases |left|
    {
      var path :| path in left;
      left := left - {path};
      var targets := roles(tree[path]);
      while targets != {}
        invariant targets <= roles(tree[path])
        invariant forall p, t :: (p, t) in found <==>
          Narrowed(tree, roles, deleted, scope, p, t) && p !in left && (p == path ==> t !in targets)
        decreases |targets|
      {
        var target :| target in targets;
        targets := targets - {target};
        var needed := NamedModulePaths({target});
        assert needed == ModuleFiles(target) by { assert forall p :: p in needed <==> p in ModuleFiles(target); }
        assert needed * deleted != {} <==> IsDead(deleted, target);
        if needed * deleted != {} {
          found := found + {(path, target)};
        }
      }
    }
  }

  // Why the narrowing misses nothing but a bare package `__init__`.

  lemma {:induction false} PieceChars(s: string, sep: char, i: nat, c: char)
    requires i < |Split(s, sep)| && c in Split(s, sep)[i]
    ensures c in s
  {
    if |s| > 0 {
      var rest := Split(s[1..], sep);
      if s[0] == sep {
        if i > 0 { PieceChars(s[1..], sep, i - 1, c); }
      } else if i > 0 || c in rest[0] {
        PieceChars(s[1..], sep, i, c);
      }
    }
  }

  lemma {:induction false} DottedJoin(parts: seq<string>)
    requires forall i :: 0 <= i < |parts| ==> '/' !in parts[i]
    ensures Dotted(Join(parts, "/")) == Join(parts, ".")
  {
    if |parts| == 1 {
      assert Dotted(parts[0]) == parts[0];
    } else if |parts| > 1 {
      DottedJoin(parts[1..]);
      var s := parts[0] + "/" + Join(parts[1..], "/");
      assert Dotted(s) == parts[0] + "." + Dotted(Join(parts[1..], "/"));
    }
  }

  lemma DiffersAt(s: string, suffix: string, i: nat)
    requires |suffix| <= |s| && i < |suffix| && s[|s| - |suffix| + i] != suffix[i]
    ensures !EndsWith(s, suffix)
  {
    assert s[|s| - |suffix|..][i] == s[|s| - |suffix| + i];
  }

  lemma NotInit(dir: string, leaf: string)
    requires '/' !in leaf && leaf != "__init__"
    ensures !EndsWith(dir + "/" + leaf + ".py", "/__init__.py")
  {
    var path, suffix := dir + "/" + leaf + ".py", "/__init__.py";
    if |leaf| > 8 {
      assert path[|path| - 12] == leaf[|leaf| - 9];
      DiffersAt(path, suffix, 0);
    } else if |leaf| < 8 {
      if |path| >= 12 {
        assert path[|dir|] == '/';
        DiffersAt(path, suffix, |dir| - (|path| - 12));
      }
    } else {
      var i :| 0 <= i < 8 && leaf[i] != "__init__"[i];
      assert path[|dir| + 1 + i] == leaf[i];
      DiffersAt(path, suffix, 1 + i);
    }
  }

  lemma TargetPieces(target: string)
    requires IsTarget(target)
    ensures forall i :: 0 <= i < |Split(target, '.')| ==> '/' !in Split(target, '.')[i] && '.' !in Split(target, '.')[i]
  {
    var all := Split(target, '.');
    forall i | 0 <= i < |all|
      ensures '/' !in all[i] && '.' !in all[i]
    {
      PieceIsFree(target, '.', i);
      if '/' in all[i] { PieceChars(target, '.', i, '/'); }
    }
  }

  lemma PrefixOccurs(target: string, depth: nat)
    requires 0 < depth <= |Split(target, '.')|
    ensures Occurs(Join(Split(target, '.')[..depth], "."), target)
  {
    var all := Split(target, '.');
    var name := Join(all[..depth], ".");
    JoinSplit(target, '.');
    if depth < |all| {
      var rest := Join(all[depth..], ".");
      JoinAppend(all[..depth], all[depth..], ".");
      assert all == all[..depth] + all[depth..];
      OccursIn("", name, "." + rest);
      assert "" + name + ("." + rest) == target;
    } else {
      assert all[..depth] == all;
      OccursIn("", name, "");
      assert "" + name + "" == target;
    }
  }

  /** A dotted prefix of a target is named by its own stem, and occurs in the target. */
  lemma PrefixIsNamed(target: string, depth: nat)
    requires IsTarget(target) && MIN_NAMED_MODULE_SEGMENTS <= depth <= |Split(target, '.')|
    ensures var stem := Stem(Split(target, '.'), depth);
      && StartsWith(stem, PACKAGE_ROOT + "/")
      && |Split(Dotted(stem), '.')| == depth
      && Occurs(Dotted(stem), target)
  {
    var parts := Split(target, '.')[..depth];
    TargetPieces(target);
    PrefixOccurs(target, depth);
    hide Occurs, Split;
    DottedJoin(parts);
    SplitJoin(parts, '.');
    assert Join(parts, "/") == PACKAGE_ROOT + "/" + Join(parts[1..], "/");
  }

  lemma InitFileIsNamed(target: string, depth: nat)
    requires IsTarget(target) && MIN_NAMED_MODULE_SEGMENTS <= depth <= |Split(target, '.')|
    ensures var path := Stem(Split(target, '.'), depth) + "/__init__.py";
      IsNamed(path) && Occurs(Dotted(ModuleStem(path)), target)
  {
    PrefixIsNamed(target, depth);
    var stem := Stem(Split(target, '.'), depth);
    var path := stem + "/__init__.py";
    assert path[|path| - 12..] == "/__init__.py" && path[|path| - 3..] == ".py";
    assert ModuleStem(path) == stem;
    assert path[..|PACKAGE_ROOT + "/"|] == stem[..|PACKAGE_ROOT + "/"|];
  }

  /** Every module file a role needs, except the bare package's, has its dotted name inside the role's target. */
  lemma NeededFileIsSpelled(target: string, path: string)
    requires IsTarget(target) && path in ModuleFiles(target) && path != ROOT_INIT
    ensures IsNamed(path) && Occurs(Dotted(ModuleStem(path)), target)
  {
    var parts := Split(target, '.');
    var depth :| MIN_NAMED_MODULE_SEGMENTS <= depth <= |parts|
      && (path == Stem(parts, depth) + ".py" || path == Stem(parts, depth) + "/__init__.py");
    if path == Stem(parts, depth) + "/__init__.py" {
      InitFileIsNamed(target, depth);
    } else {
      PlainFileIsNamed(target, depth);
    }
  }

  lemma PlainFileIsNamed(target: string, depth: nat)
    requires IsTarget(target) && MIN_NAMED_MODULE_SEGMENTS <= depth <= |Split(target, '.')|
    requires Stem(Split(target, '.'), depth) + ".py" != ROOT_INIT
    ensures var path := Stem(Split(target, '.'), depth) + ".py";
      IsNamed(path) && Occurs(Dotted(ModuleStem(path)), target)
  {
    var parts := Split(target, '.');
    var stem, dir, leaf := Stem(parts, depth), Stem(parts, depth - 1), parts[depth - 1];
    var path := stem + ".py";
    assert parts[..depth] == parts[..depth - 1] + [leaf];
    JoinAppend(parts[..depth - 1], [leaf], "/");
    assert stem == dir + "/" + leaf;
    hide Occurs, Split, Join;
    if leaf == "__init__" {
      assert path == dir + "/__init__.py";
      assert depth > 2 by { RootDir(parts, depth); }
      InitFileIsNamed(target, depth - 1);
    } else {
      TargetPieces(target);
      NotInit(dir, leaf);
      PrefixIsNamed(target, depth);
      assert path[|path| - 3..] == ".py";
      assert ModuleStem(path) == stem;
      assert path[..|PACKAGE_ROOT + "/"|] == stem[..|PACKAGE_ROOT + "/"|];
    }
  }

  lemma RootDir(parts: seq<string>, depth: nat)
    requires 2 <= depth <= |parts| && parts[0] == PACKAGE_ROOT && parts[depth - 1] == "__init__"
    requires Stem(parts, depth - 1) + "/__init__.py" != ROOT_INIT
    ensures depth > 2
  {
    assert parts[..1] == [PACKAGE_ROOT];
  }

  // What the narrowing loses, exactly.

  /** A role naming the bare package's own `__init__`, deleted, in a file that spells no other deleted module. */
  ghost predicate CitesBareInit(tree: Tree, roles: string -> set<string>, deleted: set<string>, scope: set<string>,
      path: string, target: string)
  {
    && IsRead(tree, scope, path) && target in roles(tree[path])
      && IsTarget(target) && Split(target, '.')[1] == "__init__"
    && ROOT_INIT in deleted && !Spells(DottedNames(deleted), tree[path])
  }

  /** Role targets are extracted from the text they appear in. */
  ghost predicate Verbatim(roles: string -> set<string>)
  {
    forall text, target :: target in roles(text) ==> IsTarget(target) && Occurs(target, text)
  }

  lemma StemPieces(target: string, depth: nat)
    requires IsTarget(target) && 0 < depth <= |Split(target, '.')|
    ensures Split(Stem(Split(target, '.'), depth), '/') == Split(target, '.')[..depth]
  {
    TargetPieces(target);
    hide Split;
    SplitJoin(Split(target, '.')[..depth], '/');
  }

  lemma RootPieces()
    ensures Split(PACKAGE_ROOT + "/" + "__init__", '/') == [PACKAGE_ROOT, "__init__"]
    ensures Split(PACKAGE_ROOT, '/') == [PACKAGE_ROOT]
    ensures Split(PACKAGE_ROOT + "." + "__init__", '.') == [PACKAGE_ROOT, "__init__"]
    ensures Split(PACKAGE_ROOT, '.') == [PACKAGE_ROOT]
  {
    hide Split;
    SplitPiece(PACKAGE_ROOT, '/');
    SplitPiece(PACKAGE_ROOT, '.');
    SplitPair(PACKAGE_ROOT, '/', "__init__");
    SplitPair(PACKAGE_ROOT, '.', "__init__");
  }

  lemma SplitPair(a: string, sep: char, b: string)
    requires sep !in a && sep !in b
    ensures Split(a + [sep] + b, sep) == [a, b]
  {
    SplitPiece(b, sep);
    SplitCons(a, sep, b);
  }

  lemma BareInitDepth(target: string, depth: nat)
    requires IsTarget(target) && 2 <= depth <= |Split(target, '.')|
    requires Stem(Split(target, '.'), depth) == PACKAGE_ROOT + "/" + "__init__"
    ensures Split(target, '.')[1] == "__init__"
  {
    hide Split, IsTarget, Stem;
    StemPieces(target, depth);
    RootPieces();
    assert Split(target, '.')[1] == Split(target, '.')[..depth][1];
  }

  lemma LongStem(target: string, depth: nat)
    requires IsTarget(target) && 2 <= depth <= |Split(target, '.')|
    ensures Stem(Split(target, '.'), depth) + "/__init__.py" != ROOT_INIT
  {
    assert |Stem(Split(target, '.'), depth)| > |PACKAGE_ROOT|;
  }

  lemma JoinPair(a: string, b: string, sep: string)
    ensures Join([a, b], sep) == a + sep + b
  {
    assert [a, b][1..] == [b];
  }

  lemma BareInitIsNeeded(target: string)
    requires IsTarget(target)
    ensures Split(target, '.')[1] == "__init__" <==> ROOT_INIT in ModuleFiles(target)
  {
    var parts := Split(target, '.');
    if parts[1] == "__init__" {
      assert parts[..2] == [PACKAGE_ROOT, "__init__"];
      JoinPair(PACKAGE_ROOT, "__init__", "/");
      assert Stem(parts, 2) + ".py" == ROOT_INIT;
    }
    if ROOT_INIT in ModuleFiles(target) {
      var depth :| 2 <= depth <= |parts|
        && (ROOT_INIT == Stem(parts, depth) + ".py" || ROOT_INIT == Stem(parts, depth) + "/__init__.py");
      var stem := Stem(parts, depth);
      LongStem(target, depth);
      assert ROOT_INIT == PACKAGE_ROOT + "/" + "__init__" + ".py";
      assert stem == ROOT_INIT[..|ROOT_INIT| - 3];
      BareInitDepth(target, depth);
    }
  }

  lemma DeadIsSpelled(target: string, text: string, deleted: set<string>, needed: string)
    requires IsTarget(target) && Occurs(target, text) && needed in ModuleFiles(target) * deleted && needed != ROOT_INIT
    ensures Spells(DottedNames(deleted), text)
  {
    NeededFileIsSpelled(target, needed);
    OccursTrans(Dotted(ModuleStem(needed)), target, text);
    assert Dotted(ModuleStem(needed)) in DottedNames(deleted);
  }

  /** A dead role whose file spells no deleted module is a role naming the deleted bare `__init__`. */
  lemma OnlyBareInitIsLost(tree: Tree, roles: string -> set<string>, deleted: set<string>, scope: set<string>,
      path: string, target: string)
    requires Verbatim(roles)
    ensures FullScan(tree, roles, deleted, scope, path, target) && !Narrowed(tree, roles, deleted, scope, path, target)
      <==> CitesBareInit(tree, roles, deleted, scope, path, target)
  {
    if FullScan(tree, roles, deleted, scope, path, target) {
      BareInitIsNeeded(target);
      var needed :| needed in ModuleFiles(target) * deleted;
      if needed != ROOT_INIT {
        DeadIsSpelled(target, tree[path], deleted, needed);
      }
    }
    if CitesBareInit(tree, roles, deleted, scope, path, target) {
      BareInitIsNeeded(target);
      assert ROOT_INIT in ModuleFiles(target) * deleted;
    }
  }

  /** The narrowed search agrees with parsing every file if and only if no read file cites the deleted bare
      `__init__` while spelling no other deleted module. */
  lemma NarrowingAgreesIff(tree: Tree, roles: string -> set<string>, deleted: set<string>, scope: set<string>)
    requires Verbatim(roles)
    ensures (forall path, target ::
        Narrowed(tree, roles, deleted, scope, path, target) <==> FullScan(tree, roles, deleted, scope, path, target))
      <==> !(exists path, target :: CitesBareInit(tree, roles, deleted, scope, path, target))
  {
    forall path, target
      ensures FullScan(tree, roles, deleted, scope, path, target)
        && !Narrowed(tree, roles, deleted, scope, path, target)
        <==> CitesBareInit(tree, roles, deleted, scope, path, target)
    {
      OnlyBareInitIsLost(tree, roles, deleted, scope, path, target);
    }
  }

  lemma BareInitHasNoName()
    ensures DottedNames({ROOT_INIT}) == {}
  {
    RootPieces();
    hide Split;
    assert ROOT_INIT[|ROOT_INIT| - 12..] == "/__init__.py";
    assert ModuleStem(ROOT_INIT) == PACKAGE_ROOT;
    assert Dotted(PACKAGE_ROOT) == PACKAGE_ROOT;
  }

  lemma CitedInitIsLost(path: string, text: string, roles: string -> set<string>)
    requires Verbatim(roles) && roles(text) == {PACKAGE_ROOT + "." + "__init__"} && EndsWith(path, ".py")
    ensures FullScan(map[path := text], roles, {ROOT_INIT}, {path}, path, PACKAGE_ROOT + "." + "__init__")
    ensures !Narrowed(map[path := text], roles, {ROOT_INIT}, {path}, path, PACKAGE_ROOT + "." + "__init__")
  {
    hide Split, ModuleFiles, DottedNames, Occurs, EndsWith;
    var target := PACKAGE_ROOT + "." + "__init__";
    RootPieces();
    BareInitHasNoName();
    assert CitesBareInit(map[path := text], roles, {ROOT_INIT}, {path}, path, target);
    OnlyBareInitIsLost(map[path := text], roles, {ROOT_INIT}, {path}, path, target);
  }

  /** The roles of docstrings that cite one target, and only in this text. */
  function CitingIn(text: string, target: string): string -> set<string>
  {
    s => if s == text then {target} else {}
  }

  lemma CitingIsVerbatim(text: string, target: string)
    requires IsTarget(target) && Occurs(target, text)
    ensures Verbatim(CitingIn(text, target)) && CitingIn(text, target)(text) == {target}
  {
    hide Occurs, IsTarget;
  }

  lemma BareInitIsTarget()
    ensures IsTarget(PACKAGE_ROOT + "." + "__init__") && EndsWith("tests/test_docs.py", ".py")
  {
    RootPieces();
    hide Split;
    assert "tests/test_docs.py"[15..] == ".py";
    assert '/' !in PACKAGE_ROOT && '/' !in "__init__";
  }

  /** A lost role: the package's `__init__` is deleted, a file cites it by name, and the search finds nothing. */
  lemma BareInitIsLost(before: string, after: string)
    ensures var path, target := "tests/test_docs.py", PACKAGE_ROOT + "." + "__init__";
      var text := before + target + after;
      var roles := CitingIn(text, target);
      && Verbatim(roles) && FullScan(map[path := text], roles, {ROOT_INIT}, {path}, path, target)
      && !Narrowed(map[path := text], roles, {ROOT_INIT}, {path}, path, target)
  {
    var path, target := "tests/test_docs.py", PACKAGE_ROOT + "." + "__init__";
    var text := before + target + after;
    BareInitIsTarget();
    OccursIn(before, target, after);
    CitingIsVerbatim(text, target);
    hide *;
    CitedInitIsLost(path, text, CitingIn(text, target));
  }

  // Both directions of the relation, against the tree the merge would leave.

  /** The merged tree, path by path: what the branch changed is the branch's, the rest is the base's. */
  function Merged(fork: Tree, base: Tree, head: Tree): Tree
  {
    var edits := Diff(fork, head);
    map p | p in base.Keys + head.Keys && (if p in edits then p in head else p in base) ::
      if p in edits then head[p] else base[p]
  }

  method OrphanedRoleOverlaps(fork: Tree, base: Tree, head: Tree, roles: string -> set<string>)
      returns (found: set<(string, string)>)
    ensures forall path, target :: (path, target) in found <==> IsOverlap(fork, base, head, roles, path, target)
  {
    var edits := Diff(fork, head);
    var inBase := OrphanedRoles(base, roles, fork.Keys - head.Keys, base.Keys);
    var inHead := OrphanedRoles(head, roles, (fork.Keys - base.Keys) - edits, edits);
    found := (set row | row in inBase && row.0 !in edits) + inHead;
  }

  /** A file of the fork that a role of `path` needs, gone from the merge because the other side removed it. */
  ghost predicate OtherSideRemoved(fork: Tree, base: Tree, head: Tree, path: string, needed: string)
  {
    var edits := Diff(fork, head);
    needed in fork && needed !in Merged(fork, base, head) && (needed in edits <==> path !in edits)
  }

  /** A role of the merged tree needing a file of the fork that the side it does not come from removed. */
  ghost predicate DeadInMerge(fork: Tree, base: Tree, head: Tree, roles: string -> set<string>, path: string,
      target: string)
  {
    var merged := Merged(fork, base, head);
    EndsWith(path, ".py") && path in merged && target in roles(merged[path])
      && exists needed :: needed in ModuleFiles(target) && OtherSideRemoved(fork, base, head, path, needed)
  }

  /** One row of either direction. */
  ghost predicate IsOverlap(fork: Tree, base: Tree, head: Tree, roles: string -> set<string>, path: string,
      target: string)
  {
    var edits := Diff(fork, head);
    (path !in edits && Narrowed(base, roles, fork.Keys - head.Keys, base.Keys, path, target))
      || Narrowed(head, roles, (fork.Keys - base.Keys) - edits, edits, path, target)
  }

  /** The role cites the bare `__init__` the other side removed, in a file that spells no other removed module. */
  ghost predicate LostInMerge(fork: Tree, base: Tree, head: Tree, roles: string -> set<string>, path: string,
      target: string)
  {
    var edits := Diff(fork, head);
    (path !in edits && CitesBareInit(base, roles, fork.Keys - head.Keys, base.Keys, path, target))
      || CitesBareInit(head, roles, (fork.Keys - base.Keys) - edits, edits, path, target)
  }

  /** For every merge: the rows are the roles the merge leaves dead, less exactly the ones the narrowing loses. */
  lemma OverlapsAreMergedDeadRoles(fork: Tree, base: Tree, head: Tree, roles: string -> set<string>, path: string,
      target: string)
    requires Verbatim(roles)
    ensures IsOverlap(fork, base, head, roles, path, target) <==>
      DeadInMerge(fork, base, head, roles, path, target) && !LostInMerge(fork, base, head, roles, path, target)
  {
    hide Occurs, ModuleFiles, DottedNames, IsTarget, Split, EndsWith;
    var edits, merged := Diff(fork, head), Merged(fork, base, head);
    OnlyBareInitIsLost(base, roles, fork.Keys - head.Keys, base.Keys, path, target);
    OnlyBareInitIsLost(head, roles, (fork.Keys - base.Keys) - edits, edits, path, target);
    var deleted := if path in edits then (fork.Keys - base.Keys) - edits else fork.Keys - head.Keys;
    assert forall p :: p in deleted <==> OtherSideRemoved(fork, base, head, path, p);
    if IsDead(deleted, target) {
      var needed :| needed in ModuleFiles(target) * deleted;
      assert OtherSideRemoved(fork, base, head, path, needed);
    }
    if needed :| needed in ModuleFiles(target) && OtherSideRemoved(fork, base, head, path, needed) {
      assert needed in ModuleFiles(target) * deleted;
    }
  }

  /** A file present in the tree a role comes from and absent from the merge was removed by the other side:
      no role the merge itself breaks goes unreported. */
  lemma BrokenByTheMerge(fork: Tree, base: Tree, head: Tree, path: string, needed: string)
    requires var edits := Diff(fork, head); needed in (if path in edits then head else base)
    requires needed !in Merged(fork, base, head)
    ensures OtherSideRemoved(fork, base, head, path, needed)
  {
    assert needed in Diff(fork, head) <==> needed !in head || needed !in fork || fork[needed] != head[needed];
  }
}
