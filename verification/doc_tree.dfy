/** The directory walk of the docs upload (`os.walk` from the top, with the
    pruning and the file filter of the upload loop): which files are candidates
    for upload, in which order, and with which directory components. */
module DocTree {
  import opened Strings
  import opened Paths

  /** A directory entry as the walk sees it: a regular file with its text, or
      a sub-directory with its entries in listing order. */
  datatype Node = File(name: string, text: string) | Dir(name: string, children: seq<Node>)

  /** A file found by the walk: the directories descended through from the
      walked directory, its own name, and its text. */
  datatype SourceFile = SourceFile(dirs: seq<string>, name: string, text: string)

  function NodeSize(n: Node): nat
    decreases n
  {
    match n
    case File(_, _) => 1
    case Dir(_, cs) => 1 + ForestSize(cs)
  }

  function ForestSize(ns: seq<Node>): nat
    decreases ns
  {
    if ns == [] then 0 else NodeSize(ns[0]) + ForestSize(ns[1..])
  }

  lemma HeadTailSmaller(entries: seq<Node>)
    requires entries != []
    ensures ForestSize(entries[1..]) < ForestSize(entries)
    ensures entries[0].Dir? ==> ForestSize(entries[0].children) < ForestSize(entries)
  {
    assert NodeSize(entries[0]) >= 1;
  }

  /** Directory names starting with "." are hidden and pruned from the walk. */
  predicate IsHidden(name: string) {
    StartsWith(name, ".")
  }

  /** The upload keeps a file when its name ends in ".md" or ".py" — a
      case-sensitive test. */
  predicate IsMarkdown(name: string) {
    EndsWith(name, ".md")
  }

  predicate IsPython(name: string) {
    EndsWith(name, ".py")
  }

  predicate IsDocFile(name: string) {
    IsMarkdown(name) || IsPython(name)
  }

  /** No directory on the way down is hidden. */
  predicate Visible(dirs: seq<string>) {
    forall i :: 0 <= i < |dirs| ==> !IsHidden(dirs[i])
  }

  // ---------------------------------------------------------------------------
  // The walk
  // ---------------------------------------------------------------------------

  /** The kept files listed directly in one directory, in listing order. */
  function DocFiles(base: seq<string>, entries: seq<Node>): (r: seq<SourceFile>)
    ensures forall i :: 0 <= i < |r| ==> r[i].dirs == base && IsDocFile(r[i].name)
    decreases |entries|
  {
    if entries == [] then []
    else
      var here := if entries[0].File? && IsDocFile(entries[0].name)
        then [SourceFile(base, entries[0].name, entries[0].text)] else [];
      here + DocFiles(base, entries[1..])
  }

  /** Top-down walk of one directory reached through `base`: its own kept
      files first, then the walks of its non-hidden sub-directories, in
      listing order. Hidden files are not pruned, only hidden directories. */
  function Walk(base: seq<string>, entries: seq<Node>): (r: seq<SourceFile>)
    ensures forall i :: 0 <= i < |r| ==> IsDocFile(r[i].name)
    ensures forall i :: 0 <= i < |r| ==> base <= r[i].dirs && Visible(r[i].dirs[|base|..])
    decreases ForestSize(entries), 1
  {
    DocFiles(base, entries) + Descend(base, entries)
  }

  function Descend(base: seq<string>, entries: seq<Node>): (r: seq<SourceFile>)
    ensures forall i :: 0 <= i < |r| ==> IsDocFile(r[i].name)
    ensures forall i :: 0 <= i < |r| ==> |base| < |r[i].dirs| && base <= r[i].dirs && Visible(r[i].dirs[|base|..])
    decreases ForestSize(entries), 0
  {
    if entries == [] then []
    else
      HeadTailSmaller(entries);
      var here := if entries[0].Dir? && !IsHidden(entries[0].name)
        then Walk(base + [entries[0].name], entries[0].children) else [];
      assert forall i :: 0 <= i < |here| ==> |base| < |here[i].dirs| && base <= here[i].dirs && Visible(here[i].dirs[|base|..]) by {
        forall i | 0 <= i < |here|
          ensures |base| < |here[i].dirs| && base <= here[i].dirs && Visible(here[i].dirs[|base|..])
        {
          var d := here[i].dirs;
          var b := base + [entries[0].name];
          assert b <= d;
          assert d[|base|] == entries[0].name;
          assert d[|base|..][1..] == d[|b|..];
          assert forall k :: 1 <= k < |d[|base|..]| ==> d[|base|..][k] == d[|b|..][k - 1];
        }
      }
      here + Descend(base, entries[1..])
  }

  /** The whole walk of the directory being uploaded. */
  function WalkAll(entries: seq<Node>): seq<SourceFile> {
    Walk([], entries)
  }

  // ---------------------------------------------------------------------------
  // What the walk finds, stated independently of how it walks
  // ---------------------------------------------------------------------------

  /** The tree holds a file `name` with `text` below the directories `dirs`. */
  ghost predicate Contains(entries: seq<Node>, dirs: seq<string>, name: string, text: string)
    decreases |dirs|
  {
    if dirs == [] then File(name, text) in entries
    else exists i :: 0 <= i < |entries| && entries[i].Dir? && entries[i].name == dirs[0]
                     && Contains(entries[i].children, dirs[1..], name, text)
  }

  lemma {:induction false} ChildSmaller(entries: seq<Node>, i: int)
    requires 0 <= i < |entries| && entries[i].Dir?
    ensures ForestSize(entries[i].children) < ForestSize(entries)
    decreases i
  {
    if i > 0 {
      ChildSmaller(entries[1..], i - 1);
      assert entries[1..][i - 1] == entries[i];
    }
  }

  lemma {:induction false} DocFilesMembers(base: seq<string>, entries: seq<Node>, f: SourceFile)
    ensures f in DocFiles(base, entries) <==> f.dirs == base && IsDocFile(f.name) && File(f.name, f.text) in entries
    decreases |entries|
  {
    if entries != [] {
      DocFilesMembers(base, entries[1..], f);
      assert entries == [entries[0]] + entries[1..];
    }
  }

  lemma {:induction false} DescendMembers(base: seq<string>, entries: seq<Node>, f: SourceFile)
    ensures f in Descend(base, entries) <==>
      exists i :: 0 <= i < |entries| && entries[i].Dir? && !IsHidden(entries[i].name)
                  && f in Walk(base + [entries[i].name], entries[i].children)
    decreases |entries|
  {
    if entries != [] {
      DescendMembers(base, entries[1..], f);
      if f in Descend(base, entries[1..]) {
        var j :| 0 <= j < |entries[1..]| && entries[1..][j].Dir? && !IsHidden(entries[1..][j].name)
                 && f in Walk(base + [entries[1..][j].name], entries[1..][j].children);
        assert entries[j + 1] == entries[1..][j];
      }
      if exists i :: 0 <= i < |entries| && entries[i].Dir? && !IsHidden(entries[i].name)
                     && f in Walk(base + [entries[i].name], entries[i].children) {
        var i :| 0 <= i < |entries| && entries[i].Dir? && !IsHidden(entries[i].name)
                 && f in Walk(base + [entries[i].name], entries[i].children);
        if i > 0 {
          assert entries[1..][i - 1] == entries[i];
        }
      }
    }
  }

  /** The walk from `base` yields exactly the kept files that the tree holds
      below non-hidden directories. */
  lemma WalkMembers(base: seq<string>, entries: seq<Node>, f: SourceFile)
    ensures f in Walk(base, entries) <==>
      base <= f.dirs && Contains(entries, f.dirs[|base|..], f.name, f.text)
      && Visible(f.dirs[|base|..]) && IsDocFile(f.name)
  {
    if f in Walk(base, entries) {
      WalkSound(base, entries, f);
    }
    if base <= f.dirs && Contains(entries, f.dirs[|base|..], f.name, f.text)
       && Visible(f.dirs[|base|..]) && IsDocFile(f.name) {
      WalkComplete(base, entries, f);
    }
  }

  /** Everything the walk yields is held by the tree below `base`. */
  lemma {:induction false} WalkSound(base: seq<string>, entries: seq<Node>, f: SourceFile)
    requires f in Walk(base, entries)
    ensures base <= f.dirs && Contains(entries, f.dirs[|base|..], f.name, f.text)
    ensures Visible(f.dirs[|base|..]) && IsDocFile(f.name)
    decreases ForestSize(entries)
  {
    var k :| 0 <= k < |Walk(base, entries)| && Walk(base, entries)[k] == f;
    if f in DocFiles(base, entries) {
      DocFilesMembers(base, entries, f);
      assert f.dirs[|base|..] == [];
    } else {
      assert f in Descend(base, entries);
      DescendMembers(base, entries, f);
      var i :| 0 <= i < |entries| && entries[i].Dir? && !IsHidden(entries[i].name)
               && f in Walk(base + [entries[i].name], entries[i].children);
      var b := base + [entries[i].name];
      ChildSmaller(entries, i);
      WalkSound(b, entries[i].children, f);
      var rest := f.dirs[|base|..];
      assert rest[0] == entries[i].name;
      assert rest[1..] == f.dirs[|b|..];
      assert Contains(entries[i].children, rest[1..], f.name, f.text);
    }
  }

  /** Every kept file the tree holds below `base`, under visible directories,
      is yielded by the walk. */
  lemma {:induction false} WalkComplete(base: seq<string>, entries: seq<Node>, f: SourceFile)
    requires base <= f.dirs && Contains(entries, f.dirs[|base|..], f.name, f.text)
    requires Visible(f.dirs[|base|..]) && IsDocFile(f.name)
    ensures f in Walk(base, entries)
    decreases ForestSize(entries)
  {
    var rest := f.dirs[|base|..];
    if rest == [] {
      assert f.dirs == base;
      DocFilesMembers(base, entries, f);
    } else {
      var i :| 0 <= i < |entries| && entries[i].Dir? && entries[i].name == rest[0]
               && Contains(entries[i].children, rest[1..], f.name, f.text);
      var b := base + [rest[0]];
      assert !IsHidden(rest[0]);
      assert b <= f.dirs;
      assert f.dirs[|b|..] == rest[1..];
      assert Visible(rest[1..]) by {
        forall k | 0 <= k < |rest[1..]|
          ensures !IsHidden(rest[1..][k])
        {
          assert rest[1..][k] == rest[k + 1];
        }
      }
      ChildSmaller(entries, i);
      WalkComplete(b, entries[i].children, f);
      DescendMembers(base, entries, f);
    }
  }

  /** Pruning and filtering, as one statement about the whole walk: a file is
      a candidate for upload exactly when the tree holds it, no directory
      above it is hidden, and its name ends in ".md" or ".py". */
  lemma WalkAllMembers(entries: seq<Node>, f: SourceFile)
    ensures f in WalkAll(entries) <==>
      Contains(entries, f.dirs, f.name, f.text) && Visible(f.dirs) && IsDocFile(f.name)
  {
    WalkMembers([], entries, f);
    assert f.dirs[0..] == f.dirs;
  }

  // ---------------------------------------------------------------------------
  // Well-named trees
  // ---------------------------------------------------------------------------

  /** Every name in the tree is one a POSIX directory listing can contain. */
  ghost predicate WellNamed(entries: seq<Node>)
    decreases ForestSize(entries)
  {
    entries == [] ||
    (HeadTailSmaller(entries);
     ValidName(entries[0].name)
     && (entries[0].Dir? ==> WellNamed(entries[0].children))
     && WellNamed(entries[1..]))
  }

  lemma {:induction false} WellNamedAt(entries: seq<Node>, i: int)
    requires WellNamed(entries) && 0 <= i < |entries|
    ensures ValidName(entries[i].name)
    ensures entries[i].Dir? ==> WellNamed(entries[i].children)
    decreases i
  {
    if i > 0 {
      WellNamedAt(entries[1..], i - 1);
      assert entries[1..][i - 1] == entries[i];
    }
  }

  /** In a well-named tree every file it holds has a valid relative path. */
  lemma {:induction false} ContainedComponentsValid(entries: seq<Node>, dirs: seq<string>, name: string, text: string)
    requires WellNamed(entries)
    requires Contains(entries, dirs, name, text)
    ensures ValidComponents(dirs, name)
    decreases |dirs|
  {
    if dirs == [] {
      var i :| 0 <= i < |entries| && entries[i] == File(name, text);
      WellNamedAt(entries, i);
    } else {
      var i :| 0 <= i < |entries| && entries[i].Dir? && entries[i].name == dirs[0]
               && Contains(entries[i].children, dirs[1..], name, text);
      WellNamedAt(entries, i);
      ContainedComponentsValid(entries[i].children, dirs[1..], name, text);
      forall k | 0 <= k < |dirs|
        ensures ValidName(dirs[k])
      {
        if k > 0 { assert dirs[k] == dirs[1..][k - 1]; }
      }
    }
  }
}
