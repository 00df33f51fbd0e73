/** The parts of Python's `posixpath` the configuration and the submodule
    setup use: `isabs`, `join`, `normpath`, `abspath`, `basename` and
    `dirname`. The working directory is a parameter. */
module PosixPath {
  import Text

  predicate IsAbs(p: string) {
    Text.StartsWith(p, "/")
  }

  /** `join(a, b)`: an absolute `b` replaces `a`; otherwise `b` is appended
      after a slash unless `a` is empty or already ends in one. */
  function Join(a: string, b: string): (r: string)
    ensures IsAbs(b) ==> r == b
    ensures !IsAbs(b) ==> r == a + (if a == "" || Text.EndsWith(a, "/") then "" else "/") + b
  {
    if IsAbs(b) then b
    else if a == "" || Text.EndsWith(a, "/") then a + b
    else a + "/" + b
  }

  function Slashes(n: nat): (r: string)
    ensures |r| == n && forall k :: 0 <= k < n ==> r[k] == '/'
  {
    if n == 0 then "" else "/" + Slashes(n - 1)
  }

  /** How many leading slashes `normpath` keeps: two exactly when the path
      starts with exactly two, as POSIX leaves `//` implementation-defined. */
  function InitialSlashes(p: string): (n: nat)
    ensures n <= 2
    ensures n > 0 <==> IsAbs(p)
  {
    if !Text.StartsWith(p, "/") then 0
    else if Text.StartsWith(p, "//") && !Text.StartsWith(p, "///") then 2
    else 1
  }

  /** One component of `normpath`'s loop: empty and `.` components vanish,
      `..` removes the previous name, and a `..` that cannot remove
      anything is kept on a relative path and dropped on a rooted one. */
  function Step(acc: seq<string>, comp: string, rooted: bool): seq<string> {
    if comp == "" || comp == "." then acc
    else if comp != ".." || (!rooted && |acc| == 0) || (|acc| > 0 && acc[|acc| - 1] == "..") then acc + [comp]
    else if |acc| > 0 then acc[..|acc| - 1]
    else acc
  }

  function Fold(comps: seq<string>, rooted: bool, acc: seq<string>): seq<string>
    decreases |comps|
  {
    if |comps| == 0 then acc else Fold(comps[1..], rooted, Step(acc, comps[0], rooted))
  }

  /** Components in normal form: no empty or `.` names, no slashes, and
      `..` only as a leading run on a relative path. */
  predicate Normal(cs: seq<string>, rooted: bool) {
    forall k :: 0 <= k < |cs| ==>
      && cs[k] != "" && cs[k] != "." && '/' !in cs[k]
      && (cs[k] == ".." ==> !rooted && forall j :: 0 <= j < k ==> cs[j] == "..")
  }

  /** The components `normpath` keeps. */
  function NormalParts(p: string): (cs: seq<string>)
    ensures Normal(cs, IsAbs(p))
  {
    var comps := Text.Split(p, '/');
    FoldNormal(comps, IsAbs(p), []);
    Fold(comps, IsAbs(p), [])
  }

  /** `normpath(p)`. */
  function Normpath(p: string): (r: string)
    ensures r != ""
    ensures p != "" ==> (IsAbs(r) <==> IsAbs(p))
  {
    if p == "" then "."
    else
      var s := Slashes(InitialSlashes(p)) + Text.Join(NormalParts(p), "/");
      if s == "" then "." else s
  }

  /** `abspath(p)` with `cwd` as the working directory. */
  function Abspath(p: string, cwd: string): (r: string)
    ensures r != ""
    ensures IsAbs(p) || IsAbs(cwd) ==> IsAbs(r)
  {
    var q := if IsAbs(p) then p else Join(cwd, p);
    assert !IsAbs(p) && IsAbs(cwd) ==> q[..1] == cwd[..1];
    Normpath(q)
  }

  /** The position just after the last slash, 0 when there is none. */
  function AfterLastSlash(p: string): (i: nat)
    ensures i <= |p|
    ensures '/' !in p[i..]
    ensures i > 0 ==> p[i - 1] == '/'
  {
    if |p| == 0 then 0
    else if p[|p| - 1] == '/' then |p|
    else
      var i := AfterLastSlash(p[..|p| - 1]);
      assert p[i..] == p[..|p| - 1][i..] + [p[|p| - 1]];
      i
  }

  /** `basename(p)`: the longest suffix of `p` without a slash. */
  function Basename(p: string): (r: string)
    ensures |r| <= |p| && r == p[|p| - |r|..]
    ensures '/' !in r
    ensures |r| < |p| ==> p[|p| - |r| - 1] == '/'
  {
    p[AfterLastSlash(p)..]
  }

  /** `s.rstrip('/')`. */
  function TrimSlashes(s: string): (r: string)
    ensures |r| <= |s| && r == s[..|r|]
    ensures r == "" || r[|r| - 1] != '/'
    ensures forall k :: |r| <= k < |s| ==> s[k] == '/'
  {
    if |s| == 0 || s[|s| - 1] != '/' then s else TrimSlashes(s[..|s| - 1])
  }

  predicate AllSlashes(s: string) {
    forall k :: 0 <= k < |s| ==> s[k] == '/'
  }

  /** `dirname(p)`: everything up to the last slash, without trailing
      slashes unless it consists of slashes only. */
  function Dirname(p: string): (r: string)
    ensures |r| <= |p| && r == p[..|r|]
    ensures r == "" <==> '/' !in p
    ensures |r| + |Basename(p)| <= |p|
  {
    var head := p[..AfterLastSlash(p)];
    assert '/' in p ==> head[|head| - 1] == '/';
    assert '/' !in p ==> head == "" by {
      if AfterLastSlash(p) > 0 { assert p[AfterLastSlash(p) - 1] in p; }
    }
    if head != "" && !AllSlashes(head) then TrimSlashes(head) else head
  }

  // ---------------------------------------------------------------- lemmas

  lemma {:induction false} FoldNormal(comps: seq<string>, rooted: bool, acc: seq<string>)
    requires Normal(acc, rooted)
    requires forall k :: 0 <= k < |comps| ==> '/' !in comps[k]
    ensures Normal(Fold(comps, rooted, acc), rooted)
    decreases |comps|
  {
    if |comps| > 0 {
      StepNormal(acc, comps[0], rooted);
      FoldNormal(comps[1..], rooted, Step(acc, comps[0], rooted));
    }
  }

  lemma StepNormal(acc: seq<string>, comp: string, rooted: bool)
    requires Normal(acc, rooted) && '/' !in comp
    ensures Normal(Step(acc, comp, rooted), rooted)
  {
    var r := Step(acc, comp, rooted);
    if comp != "" && comp != "." && comp == ".." && |acc| > 0 && acc[|acc| - 1] == ".." {
      forall k | 0 <= k < |r| && r[k] == ".." ensures !rooted && forall j :: 0 <= j < k ==> r[j] == ".." {
        if k < |acc| {
          assert r[k] == acc[k];
        } else {
          assert acc[|acc| - 1] == "..";
          forall j | 0 <= j < k ensures r[j] == ".." {
            if j < |acc| - 1 {
              assert r[j] == acc[j];
            }
          }
        }
      }
    }
  }

  /** Normal components pass through the loop unchanged. */
  lemma {:induction false} FoldOfNormal(cs: seq<string>, rooted: bool, acc: seq<string>)
    requires Normal(acc + cs, rooted)
    ensures Fold(cs, rooted, acc) == acc + cs
    decreases |cs|
  {
    if |cs| > 0 {
      var all := acc + cs;
      assert all[|acc|] == cs[0];
      var next := acc + [cs[0]];
      if cs[0] == ".." {
        assert !rooted;
        if |acc| > 0 {
          assert all[|acc| - 1] == acc[|acc| - 1];
        }
      }
      assert Step(acc, cs[0], rooted) == next;
      assert next + cs[1..] == all;
      FoldOfNormal(cs[1..], rooted, next);
    }
  }

  function Empties(n: nat): (r: seq<string>)
    ensures |r| == n
  {
    if n == 0 then [] else [""] + Empties(n - 1)
  }

  /** Leading empty components are skipped. */
  lemma {:induction false} FoldEmpties(n: nat, cs: seq<string>, rooted: bool)
    ensures Fold(Empties(n) + cs, rooted, []) == Fold(cs, rooted, [])
    decreases n
  {
    if n > 0 {
      var e := Empties(n) + cs;
      var tail := Empties(n - 1) + cs;
      assert e == [""] + tail;
      assert e[0] == "" && e[1..] == tail;
      assert Step([], "", rooted) == [];
      assert Fold(e, rooted, []) == Fold(tail, rooted, []);
      FoldEmpties(n - 1, cs, rooted);
    } else {
      assert Empties(n) + cs == cs;
    }
  }

  lemma SplitSlash(s: string)
    requires |s| > 0 && s[0] == '/'
    ensures Text.Split(s, '/') == [""] + Text.Split(s[1..], '/')
  {
    assert Text.IndexOf(s, '/') == 0;
  }

  /** Splitting `n` slashes followed by `t` gives `n` empty names first. */
  lemma {:induction false} SplitSlashes(n: nat, t: string)
    ensures Text.Split(Slashes(n) + t, '/') == Empties(n) + Text.Split(t, '/')
    decreases n
  {
    if n > 0 {
      SplitSlashes(n - 1, t);
      SplitOneMore(n, t);
    } else {
      assert Slashes(n) + t == t;
      assert Empties(n) + Text.Split(t, '/') == Text.Split(t, '/');
    }
  }

  lemma SplitOneMore(n: nat, t: string)
    requires n > 0
    requires Text.Split(Slashes(n - 1) + t, '/') == Empties(n - 1) + Text.Split(t, '/')
    ensures Text.Split(Slashes(n) + t, '/') == Empties(n) + Text.Split(t, '/')
  {
    SlashesTail(n, t);
    SplitSlash(Slashes(n) + t);
    EmptiesCons(n, Text.Split(t, '/'));
  }

  lemma SlashesTail(n: nat, t: string)
    requires n > 0
    ensures var s := Slashes(n) + t; |s| > 0 && s[0] == '/' && s[1..] == Slashes(n - 1) + t
  {
    var s := Slashes(n) + t;
    assert s[1..] == Slashes(n - 1) + t;
  }

  lemma EmptiesCons(n: nat, parts: seq<string>)
    requires n > 0
    ensures Empties(n) + parts == [""] + (Empties(n - 1) + parts)
  {
  }

  /** Splitting the joined normal components gives them back. */
  lemma SplitNormal(cs: seq<string>, rooted: bool)
    requires Normal(cs, rooted)
    ensures Fold(Text.Split(Text.Join(cs, "/"), '/'), rooted, []) == cs
  {
    if |cs| == 0 {
      assert Text.Split("", '/') == [""];
      assert Fold([""], rooted, []) == Fold([], rooted, []);
    } else {
      Text.SplitJoin(cs, '/');
      FoldOfNormal(cs, rooted, []);
      assert [] + cs == cs;
    }
  }

  /** Normalizing a normalized path changes nothing. */
  lemma NormpathIdempotent(p: string)
    ensures Normpath(Normpath(p)) == Normpath(p)
  {
    var r := Normpath(p);
    if p != "" {
      var n := InitialSlashes(p);
      var cs := NormalParts(p);
      var body := Text.Join(cs, "/");
      if Slashes(n) + body != "" {
        assert r == Slashes(n) + body;
        NormalFirstChar(cs, IsAbs(p));
        assert InitialSlashes(r) == n by {
          RestartSlashes(n, body);
        }
        SplitSlashes(n, body);
        FoldEmpties(n, Text.Split(body, '/'), n > 0);
        SplitNormal(cs, n > 0);
        assert NormalParts(r) == cs;
        return;
      }
    }
    assert r == ".";
    assert Text.Split(".", '/') == ["."] by {
      assert Text.IndexOf(".", '/') == 1;
    }
  }

  /** A joined normal path does not start with a slash. */
  lemma NormalFirstChar(cs: seq<string>, rooted: bool)
    requires Normal(cs, rooted)
    ensures Text.Join(cs, "/") == "" || Text.Join(cs, "/")[0] != '/'
  {
    if |cs| > 0 {
      assert cs[0] != "" && '/' !in cs[0];
      assert cs[0][0] in cs[0];
      if |cs| > 1 {
        assert Text.Join(cs, "/")[0] == cs[0][0];
      }
    }
  }

  lemma RestartSlashes(n: nat, body: string)
    requires n <= 2 && (body == "" || body[0] != '/')
    requires Slashes(n) + body != ""
    ensures InitialSlashes(Slashes(n) + body) == n
  {
    var s := Slashes(n) + body;
    if n == 0 {
    } else if n == 1 {
      assert s[0] == '/';
      assert |s| < 2 || s[1] != '/';
    } else {
      assert s[..2] == "//";
      assert |s| < 3 || s[2] != '/';
    }
  }

  /** `abspath` of a relative path under an absolute directory is
      absolute and already normal. */
  lemma AbspathNormal(p: string, cwd: string)
    requires IsAbs(cwd) || IsAbs(p)
    ensures IsAbs(Abspath(p, cwd))
    ensures Normpath(Abspath(p, cwd)) == Abspath(p, cwd)
  {
    var q := if IsAbs(p) then p else Join(cwd, p);
    assert IsAbs(q);
    NormpathIdempotent(q);
  }

  /** Joining onto a directory without a trailing slash inserts one. */
  lemma JoinPlain(a: string, b: string)
    requires a != "" && a[|a| - 1] != '/'
    requires b == "" || b[0] != '/'
    ensures Join(a, b) == a + "/" + b
  {
    assert !IsAbs(b) by {
      if b != "" { assert b[..1] == [b[0]]; }
    }
    assert !Text.EndsWith(a, "/") by {
      assert a[|a| - 1..] == [a[|a| - 1]];
    }
  }

  /** The last component and its directory, for `dir + "/" + name`. */
  lemma SplitLast(dir: string, name: string)
    requires '/' !in name
    requires dir != "" && dir[|dir| - 1] != '/'
    ensures Basename(dir + "/" + name) == name
    ensures Dirname(dir + "/" + name) == dir
  {
    var p := dir + "/" + name;
    LastSlashAt(dir, name);
    assert p[|dir| + 1..] == name;
    var head := p[..|dir| + 1];
    assert head == dir + "/";
    assert head[|dir| - 1] != '/';
    assert TrimSlashes(head) == dir by {
      assert head[..|head| - 1] == dir;
    }
  }

  lemma {:induction false} LastSlashAt(dir: string, name: string)
    requires '/' !in name
    ensures AfterLastSlash(dir + "/" + name) == |dir| + 1
    decreases |name|
  {
    var p := dir + "/" + name;
    if |name| > 0 {
      var shorter := name[..|name| - 1];
      assert name[|name| - 1] in name;
      assert p[..|p| - 1] == dir + "/" + shorter;
      assert forall c :: c in shorter ==> c in name;
      LastSlashAt(dir, shorter);
    }
  }
}
