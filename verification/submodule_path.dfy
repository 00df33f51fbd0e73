/** `setup_nlweb_submodule_path` (setup_submodule_path.py): puts the
    checked-out submodule's Python directory at the front of the import
    path, once. The directory of the file, the set of existing paths and
    the import path list are parameters. */
module SubmodulePath {
  import Text
  import PosixPath

  /** The project root: the parent when the file lies in `code`, else its
      own directory. */
  function ProjectRoot(fileDir: string): (r: string)
    ensures |r| <= |fileDir| && r == fileDir[..|r|]
  {
    if PosixPath.Basename(fileDir) == "code" then PosixPath.Dirname(fileDir) else fileDir
  }

  const Tail: string := "nlweb-submodule/code/python"

  /** `join(root, 'nlweb-submodule', 'code', 'python')`. */
  function SubmoduleDir(fileDir: string): (r: string)
    ensures var root := ProjectRoot(fileDir); |root| <= |r| && r[..|root|] == root
    ensures |Tail| <= |r| && r[|r| - |Tail|..] == Tail
  {
    UnderRoot(ProjectRoot(fileDir));
    PosixPath.Join(PosixPath.Join(PosixPath.Join(ProjectRoot(fileDir), "nlweb-submodule"), "code"), "python")
  }

  /** The submodule directory is `nlweb-submodule/code/python` under the
      root, with a slash between them unless the root is empty or already
      ends in one. */
  lemma SubmoduleDirShape(fileDir: string)
    ensures var root := ProjectRoot(fileDir);
      SubmoduleDir(fileDir) == root + (if root == "" || root[|root| - 1] == '/' then "" else "/") + Tail
  {
    UnderRoot(ProjectRoot(fileDir));
  }

  lemma UnderRoot(root: string)
    ensures PosixPath.Join(PosixPath.Join(PosixPath.Join(root, "nlweb-submodule"), "code"), "python")
         == root + (if root == "" || root[|root| - 1] == '/' then "" else "/") + Tail
  {
    var sep := if root == "" || root[|root| - 1] == '/' then "" else "/";
    JoinName(root, "nlweb-submodule");
    var a := root + sep + "nlweb-submodule";
    NameEnd(root + sep);
    JoinCodePython(a);
    TailParts();
    Regroup(root + sep, "nlweb-submodule", "/code/python");
  }

  /** A directory ending in `nlweb-submodule` does not end in a slash. */
  lemma NameEnd(prefix: string)
    ensures var a := prefix + "nlweb-submodule"; a != "" && a[|a| - 1] != '/'
  {
    var a := prefix + "nlweb-submodule";
    assert a[|a| - 1] == "nlweb-submodule"[14];
  }

  lemma TailParts()
    ensures "nlweb-submodule" + "/code/python" == Tail
  {
  }

  lemma Regroup(x: string, y: string, z: string)
    ensures x + y + z == x + (y + z)
  {
  }

  /** Joining a relative name onto any directory. */
  lemma JoinName(root: string, name: string)
    requires name != "" && name[0] != '/'
    ensures PosixPath.Join(root, name) == root + (if root == "" || root[|root| - 1] == '/' then "" else "/") + name
  {
    assert name[..1] == [name[0]];
    if root != "" {
      assert root[|root| - 1..] == [root[|root| - 1]];
    }
  }

  lemma JoinCodePython(a: string)
    requires a != "" && a[|a| - 1] != '/'
    ensures PosixPath.Join(PosixPath.Join(a, "code"), "python") == a + "/code/python"
  {
    PosixPath.JoinPlain(a, "code");
    var b := a + "/" + "code";
    assert b[|b| - 1] == 'e';
    PosixPath.JoinPlain(b, "python");
    assert b + "/" + "python" == a + "/code/python";
  }

  /** One call: the new import path and whether the directory was added.
      It is added at the front exactly when it exists and is not yet on
      the path; otherwise the path is left alone. */
  function Setup(fileDir: string, existing: set<string>, sysPath: seq<string>): (r: (seq<string>, bool))
    ensures var p := SubmoduleDir(fileDir);
      && (r.1 <==> p in existing && p !in sysPath)
      && (r.1 ==> r.0 == [p] + sysPath)
      && (!r.1 ==> r.0 == sysPath)
  {
    var p := SubmoduleDir(fileDir);
    if p in existing && p !in sysPath then ([p] + sysPath, true) else (sysPath, false)
  }

  /** Calling it again changes nothing and reports that nothing was added. */
  lemma SetupIdempotent(fileDir: string, existing: set<string>, sysPath: seq<string>)
    ensures var once := Setup(fileDir, existing, sysPath).0;
      Setup(fileDir, existing, once) == (once, false)
  {
  }

  /** The path never holds the directory twice unless it already did, and
      afterwards it holds it exactly when it exists or was already there. */
  lemma SetupNoDuplicates(fileDir: string, existing: set<string>, sysPath: seq<string>)
    ensures var p := SubmoduleDir(fileDir);
      var after := Setup(fileDir, existing, sysPath).0;
      && (p in after <==> p in existing || p in sysPath)
      && multiset(after)[p] <= 1 + (if p in sysPath then multiset(sysPath)[p] - 1 else 0)
  {
    var p := SubmoduleDir(fileDir);
    if p in sysPath {
      assert multiset(sysPath)[p] >= 1;
    }
  }

  /** A file in `<parent>/code` has `<parent>` as its root, so the
      submodule is looked for beside `code`. */
  lemma RootOfCodeDirectory(parent: string)
    requires parent != "" && parent[|parent| - 1] != '/'
    ensures ProjectRoot(parent + "/code") == parent
    ensures SubmoduleDir(parent + "/code") == parent + "/" + Tail
  {
    assert parent + "/code" == parent + "/" + "code";
    PosixPath.SplitLast(parent, "code");
    ShapeUnder(parent + "/code", parent);
  }

  /** The submodule directory of a file whose root is a plain directory. */
  lemma ShapeUnder(fileDir: string, root: string)
    requires ProjectRoot(fileDir) == root && root != "" && root[|root| - 1] != '/'
    ensures SubmoduleDir(fileDir) == root + "/" + Tail
  {
    SubmoduleDirShape(fileDir);
  }

  /** A file anywhere else has its own directory as the root. */
  lemma RootElsewhere(fileDir: string)
    requires PosixPath.Basename(fileDir) != "code"
    ensures ProjectRoot(fileDir) == fileDir
  {
  }
}
