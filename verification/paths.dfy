/** POSIX path strings as the upload script builds them: `os.path.join` of
    two arguments, the relative path of a file below the walked directory, and
    the local path `os.walk` hands out for it. */
module Paths {
  import opened Strings

  /** `os.path.join(a, b)` on POSIX: an absolute `b` replaces `a`; otherwise a
      single "/" is put between them unless `a` is empty or already ends in one. */
  function PathJoin(a: string, b: string): (r: string)
    ensures EndsWith(r, b)
    ensures !StartsWith(b, "/") ==> StartsWith(r, a)
    ensures !StartsWith(b, "/") ==> |r| - |b| == |a| + |Separator(a)|
    ensures !StartsWith(b, "/") ==> r[|a|..|r| - |b|] == Separator(a)
    ensures StartsWith(b, "/") ==> r == b
  {
    EndsWithConcat(a, b);
    EndsWithConcat(a + "/", b);
    StartsWithConcat(a, b);
    StartsWithConcat(a, "/" + b);
    assert a + "/" + b == a + ("/" + b);
    if StartsWith(b, "/") then b
    else if a == "" || EndsWith(a, "/") then a + b
    else a + "/" + b
  }

  /** What `os.path.join` puts between a directory and a relative name. */
  function Separator(a: string): string {
    if a == "" || EndsWith(a, "/") then "" else "/"
  }

  /** Joining a fixed directory with two different relative names gives two
      different paths. */
  lemma PathJoinInjective(a: string, b1: string, b2: string)
    requires !StartsWith(b1, "/") && !StartsWith(b2, "/")
    requires PathJoin(a, b1) == PathJoin(a, b2)
    ensures b1 == b2
  {
    var r := PathJoin(a, b1);
    assert b1 == r[|r| - |b1|..];
    assert b2 == r[|r| - |b2|..];
  }

  /** A single directory entry name: non-empty, not "." or "..", no "/".
      Every name a POSIX file system lists has this shape. */
  predicate ValidName(n: string) {
    n != "" && n != "." && n != ".." && '/' !in n
  }

  /** `os.path.relpath` of a file `name` reached through the directories
      `dirs` below the walked directory. */
  function RelPath(dirs: seq<string>, name: string): string {
    Join(dirs + [name], "/")
  }

  predicate ValidComponents(dirs: seq<string>, name: string) {
    ValidName(name) && forall i :: 0 <= i < |dirs| ==> ValidName(dirs[i])
  }

  /** A relative path is relative, ends in the file's name, and lists its
      components in order: splitting it at "/" gives them back. */
  lemma RelPathShape(dirs: seq<string>, name: string)
    requires ValidComponents(dirs, name)
    ensures !StartsWith(RelPath(dirs, name), "/")
    ensures EndsWith(RelPath(dirs, name), name)
    ensures Split(RelPath(dirs, name), '/') == dirs + [name]
  {
    var parts := dirs + [name];
    ComponentsValid(dirs, name);
    assert parts[|parts| - 1] == name;
    JoinEndsWithLast(parts, "/");
    JoinStartsWithFirst(parts, "/");
    var p := RelPath(dirs, name);
    assert p[0] == p[..|parts[0]|][0] == parts[0][0];
    SplitJoin(parts, '/');
  }

  /** Every component of a relative path is a valid name: non-empty and free of "/". */
  lemma ComponentsValid(dirs: seq<string>, name: string)
    requires ValidComponents(dirs, name)
    ensures forall i :: 0 <= i < |dirs + [name]| ==> ValidName((dirs + [name])[i])
  {
    forall i | 0 <= i < |dirs + [name]|
      ensures ValidName((dirs + [name])[i])
    {
      if i < |dirs| { assert (dirs + [name])[i] == dirs[i]; }
    }
  }

  /** Two different files below the same directory have different relative paths. */
  lemma RelPathInjective(dirs1: seq<string>, name1: string, dirs2: seq<string>, name2: string)
    requires ValidComponents(dirs1, name1) && ValidComponents(dirs2, name2)
    requires RelPath(dirs1, name1) == RelPath(dirs2, name2)
    ensures dirs1 == dirs2 && name1 == name2
  {
    RelPathShape(dirs1, name1);
    RelPathShape(dirs2, name2);
    var parts := dirs1 + [name1];
    assert parts == dirs2 + [name2];
    assert dirs1 == parts[..|parts| - 1] == dirs2;
  }

  /** A valid name is relative: it does not start with "/". */
  lemma ValidNameRelative(n: string)
    requires ValidName(n)
    ensures !StartsWith(n, "/")
  {
    assert n[0] in n;
  }

  /** The directory `os.walk` reports after descending through `dirs` from
      `root`: it lies below `root` when every component is a valid name. */
  function LocalDir(root: string, dirs: seq<string>): (r: string)
    ensures (forall i :: 0 <= i < |dirs| ==> ValidName(dirs[i])) ==> StartsWith(r, root)
    decreases |dirs|
  {
    if dirs == [] then root
    else
      var next := PathJoin(root, dirs[0]);
      var r := LocalDir(next, dirs[1..]);
      assert (forall i :: 0 <= i < |dirs| ==> ValidName(dirs[i])) ==> StartsWith(r, root) by {
        if forall i :: 0 <= i < |dirs| ==> ValidName(dirs[i]) {
          TailValid(dirs);
          ValidNameRelative(dirs[0]);
          StartsWithTransitive(r, next, root);
        }
      }
      r
  }

  lemma TailValid(dirs: seq<string>)
    requires |dirs| >= 1
    requires forall i :: 0 <= i < |dirs| ==> ValidName(dirs[i])
    ensures forall i :: 0 <= i < |dirs[1..]| ==> ValidName(dirs[1..][i])
  {
    forall i | 0 <= i < |dirs[1..]|
      ensures ValidName(dirs[1..][i])
    {
      assert dirs[1..][i] == dirs[i + 1];
    }
  }

  /** `os.path.join(dirpath, filename)` as the upload loop forms it: the file
      name at the end, below the walked directory. */
  function LocalPath(root: string, dirs: seq<string>, name: string): (r: string)
    ensures EndsWith(r, name)
    ensures ValidComponents(dirs, name) ==> StartsWith(r, root)
  {
    var d := LocalDir(root, dirs);
    var r := PathJoin(d, name);
    assert ValidComponents(dirs, name) ==> StartsWith(r, root) by {
      if ValidComponents(dirs, name) {
        ValidNameRelative(name);
        StartsWithTransitive(r, d, root);
      }
    }
    r
  }

  /** The local path of a file is the walked directory, one "/", and the
      file's relative path, so `os.path.relpath` of it gives that relative
      path back. */
  lemma {:induction false} LocalPathIsRootPlusRelPath(root: string, dirs: seq<string>, name: string)
    requires root != "" && !EndsWith(root, "/")
    requires ValidComponents(dirs, name)
    ensures LocalPath(root, dirs, name) == root + "/" + RelPath(dirs, name)
    decreases |dirs|
  {
    ValidNameRelative(name);
    if dirs == [] {
      assert dirs + [name] == [name];
      PathJoinRelative(root, name);
      assert LocalDir(root, dirs) == root;
      assert RelPath(dirs, name) == name;
    } else {
      var d0 := dirs[0];
      var rest := RelPath(dirs[1..], name);
      ValidNameRelative(d0);
      PathJoinRelative(root, d0);
      ValidNameNotSlashEnded(root + "/", d0);
      TailValid(dirs);
      calc {
        LocalPath(root, dirs, name);
        { LocalPathStep(root, dirs, name); }
        LocalPath(root + "/" + d0, dirs[1..], name);
        { LocalPathIsRootPlusRelPath(root + "/" + d0, dirs[1..], name); }
        root + "/" + d0 + "/" + rest;
        { ConcatAssoc(root + "/", d0 + "/", rest); }
        root + "/" + (d0 + "/" + rest);
        { RelPathCons(dirs, name); }
        root + "/" + RelPath(dirs, name);
      }
    }
  }

  /** Joining a relative name onto a directory not ending in "/". */
  lemma PathJoinRelative(a: string, b: string)
    requires a != "" && !EndsWith(a, "/") && !StartsWith(b, "/")
    ensures PathJoin(a, b) == a + "/" + b
  {
  }

  lemma LocalPathStep(root: string, dirs: seq<string>, name: string)
    requires |dirs| >= 1
    ensures LocalPath(root, dirs, name) == LocalPath(PathJoin(root, dirs[0]), dirs[1..], name)
  {
  }

  lemma ConcatAssoc(a: string, b: string, c: string)
    ensures a + b + c == a + (b + c)
  {
  }

  lemma ValidNameNotSlashEnded(a: string, n: string)
    requires ValidName(n)
    ensures a + n != "" && !EndsWith(a + n, "/")
  {
    assert (a + n)[|a + n| - 1] == n[|n| - 1];
    assert n[|n| - 1] in n;
  }

  lemma RelPathCons(dirs: seq<string>, name: string)
    requires |dirs| >= 1
    ensures RelPath(dirs, name) == dirs[0] + "/" + RelPath(dirs[1..], name)
  {
    var parts := dirs + [name];
    assert parts[0] == dirs[0] && parts[1..] == dirs[1..] + [name];
  }
}
