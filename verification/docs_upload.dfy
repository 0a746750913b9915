/** The docs sync of `scripts/upload_docs_to_vertex_ai_search.py`: clear the
    bucket prefix, upload the repository's Markdown (converted to HTML) and
    Python files under it, then start an import into the search data store.

    Every call into Cloud Storage, Discovery Engine or the Markdown library is
    a parameter: `toHtml` is the Markdown-to-HTML conversion, `accept` says
    whether one object upload succeeds or raises, and the cleanup and import
    outcomes are booleans. The functions here decide everything else. */
module DocsUpload {
  import opened Options
  import opened Strings
  import opened Paths
  import opened Seqs
  import opened DocTree

  const HtmlType := "text/html"
  const PlainType := "text/plain"

  /** What is sent as the object's content: converted HTML text, or the
      local file itself (`upload_from_filename`). */
  datatype Body = Html(html: string) | LocalFile(path: string)

  /** One object write: which file, to which object name, with which content type. */
  datatype Upload = Upload(source: SourceFile, dest: string, contentType: string, body: Body)

  /** What the loop does with one kept file. */
  datatype Step = Put(upload: Upload) | SkipEmpty(source: SourceFile)

  /** `upload_directory_to_gcs`'s result, with the objects written and the
      empty Markdown files skipped before it returned. */
  datatype UploadReport = UploadReport(ok: bool, uploaded: seq<Upload>, skipped: seq<SourceFile>)

  // ---------------------------------------------------------------------------
  // One file
  // ---------------------------------------------------------------------------

  /** The object name before any rename: the prefix joined with the file's
      path relative to the uploaded directory. It ends with that relative
      path, hence with the file's name, and for a well-named file it starts
      with the prefix, with at most one "/" added between them. */
  function ObjectPath(prefix: string, f: SourceFile): (r: string)
    ensures EndsWith(r, RelPath(f.dirs, f.name))
    ensures EndsWith(r, f.name)
    ensures ValidComponents(f.dirs, f.name) ==>
      && StartsWith(r, prefix)
      && |r| == |prefix| + |Separator(prefix)| + |RelPath(f.dirs, f.name)|
      && r[|prefix|..|r| - |RelPath(f.dirs, f.name)|] == Separator(prefix)
  {
    var rel := RelPath(f.dirs, f.name);
    var parts := f.dirs + [f.name];
    assert parts[|parts| - 1] == f.name;
    JoinEndsWithLast(parts, "/");
    var r := PathJoin(prefix, rel);
    EndsWithTransitive(r, rel, f.name);
    assert ValidComponents(f.dirs, f.name) ==> !StartsWith(rel, "/") by {
      if ValidComponents(f.dirs, f.name) {
        RelPathShape(f.dirs, f.name);
      }
    }
    r
  }

  /** The upload loop takes `os.path.relpath(local_path, directory)` and joins
      it onto the prefix: for a walked directory written without a trailing
      "/", that is the object path. */
  lemma ObjectPathFromLocalPath(root: string, prefix: string, f: SourceFile)
    requires root != "" && !EndsWith(root, "/")
    requires ValidComponents(f.dirs, f.name)
    ensures |root| + 1 <= |LocalPath(root, f.dirs, f.name)|
    ensures ObjectPath(prefix, f) == PathJoin(prefix, LocalPath(root, f.dirs, f.name)[|root| + 1..])
  {
    LocalPathIsRootPlusRelPath(root, f.dirs, f.name);
    var rel := RelPath(f.dirs, f.name);
    assert (root + "/" + rel)[|root| + 1..] == rel;
  }

  /** The branch test `filename.lower().endswith(".md")` agrees with the
      case-sensitive filter for every file that passed it: upper-case
      ".MD" files never reach the branch. */
  lemma MarkdownTestAgrees(name: string)
    requires IsDocFile(name)
    ensures EndsWith(Lower(name), ".md") <==> IsMarkdown(name)
  {
    if IsMarkdown(name) {
      LowerKeepsSuffix(name, ".md");
    } else {
      LowerKeepsSuffix(name, ".py");
      if EndsWith(Lower(name), ".md") {
        DifferentEndings(Lower(name), Lower(name), ".md", ".py");
      }
    }
  }

  /** The body of the upload loop for one kept file. A Markdown file is
      converted; if the HTML is empty the file is skipped, otherwise it is
      written as HTML under its path with ".md" turned into ".html". A Python
      file is written unchanged, under its path, as plain text. */
  function PlanFile(sourceDir: string, prefix: string, toHtml: string -> string, f: SourceFile): (s: Step)
    requires IsDocFile(f.name)
    ensures s.SkipEmpty? <==> IsMarkdown(f.name) && toHtml(f.text) == ""
    ensures s.SkipEmpty? ==> s.source == f
    ensures s.Put? ==> s.upload.source == f
    ensures s.Put? && IsMarkdown(f.name) ==>
      && s.upload.contentType == HtmlType
      && s.upload.body == Html(toHtml(f.text))
      && EndsWith(s.upload.dest, ".html")
      && s.upload.dest[..|s.upload.dest| - 5] + ".md" == ObjectPath(prefix, f)
    ensures IsPython(f.name) ==>
      && s.Put?
      && s.upload.contentType == PlainType
      && s.upload.body == LocalFile(LocalPath(sourceDir, f.dirs, f.name))
      && s.upload.dest == ObjectPath(prefix, f)
  {
    MarkdownTestAgrees(f.name);
    var gcsPath := ObjectPath(prefix, f);
    if EndsWith(Lower(f.name), ".md") then
      EndsWithTransitive(gcsPath, f.name, ".md");
      var html := toHtml(f.text);
      if |html| == 0 then SkipEmpty(f)
      else
        var dest := RemoveSuffix(gcsPath, ".md") + ".html";
        EndsWithConcat(RemoveSuffix(gcsPath, ".md"), ".html");
        assert dest[..|dest| - 5] == RemoveSuffix(gcsPath, ".md");
        Put(Upload(f, dest, HtmlType, Html(html)))
    else
      Put(Upload(f, gcsPath, PlainType, LocalFile(LocalPath(sourceDir, f.dirs, f.name))))
  }

  /** Different files of a well-named tree have different object paths. */
  lemma ObjectPathInjective(prefix: string, f1: SourceFile, f2: SourceFile)
    requires ValidComponents(f1.dirs, f1.name) && ValidComponents(f2.dirs, f2.name)
    requires ObjectPath(prefix, f1) == ObjectPath(prefix, f2)
    ensures f1.dirs == f2.dirs && f1.name == f2.name
  {
    RelPathShape(f1.dirs, f1.name);
    RelPathShape(f2.dirs, f2.name);
    PathJoinInjective(prefix, RelPath(f1.dirs, f1.name), RelPath(f2.dirs, f2.name));
    RelPathInjective(f1.dirs, f1.name, f2.dirs, f2.name);
  }

  /** Two different files of a well-named tree are never written to the same
      object: the rename cannot make a Markdown file collide with anything. */
  lemma PlanDestinationsDistinct(sourceDir: string, prefix: string, toHtml: string -> string,
                                 f1: SourceFile, f2: SourceFile)
    requires IsDocFile(f1.name) && IsDocFile(f2.name)
    ensures ValidComponents(f1.dirs, f1.name) && ValidComponents(f2.dirs, f2.name)
      && PlanFile(sourceDir, prefix, toHtml, f1).Put? && PlanFile(sourceDir, prefix, toHtml, f2).Put?
      && PlanFile(sourceDir, prefix, toHtml, f1).upload.dest == PlanFile(sourceDir, prefix, toHtml, f2).upload.dest
      ==> f1.dirs == f2.dirs && f1.name == f2.name
  {
    var s1 := PlanFile(sourceDir, prefix, toHtml, f1);
    var s2 := PlanFile(sourceDir, prefix, toHtml, f2);
    if ValidComponents(f1.dirs, f1.name) && ValidComponents(f2.dirs, f2.name)
       && s1.Put? && s2.Put? && s1.upload.dest == s2.upload.dest {
      if IsMarkdown(f1.name) && IsMarkdown(f2.name) {
        MarkdownDestsDistinct(sourceDir, prefix, toHtml, f1, f2);
      } else if IsMarkdown(f1.name) {
        MixedDestsDiffer(sourceDir, prefix, toHtml, f1, f2);
      } else if IsMarkdown(f2.name) {
        MixedDestsDiffer(sourceDir, prefix, toHtml, f2, f1);
      } else {
        ObjectPathInjective(prefix, f1, f2);
      }
    }
  }

  lemma MarkdownDestsDistinct(sourceDir: string, prefix: string, toHtml: string -> string,
                              f1: SourceFile, f2: SourceFile)
    requires IsMarkdown(f1.name) && IsMarkdown(f2.name)
    requires ValidComponents(f1.dirs, f1.name) && ValidComponents(f2.dirs, f2.name)
    requires PlanFile(sourceDir, prefix, toHtml, f1).Put? && PlanFile(sourceDir, prefix, toHtml, f2).Put?
    requires PlanFile(sourceDir, prefix, toHtml, f1).upload.dest == PlanFile(sourceDir, prefix, toHtml, f2).upload.dest
    ensures f1.dirs == f2.dirs && f1.name == f2.name
  {
    var d := PlanFile(sourceDir, prefix, toHtml, f1).upload.dest;
    assert ObjectPath(prefix, f1) == d[..|d| - 5] + ".md" == ObjectPath(prefix, f2);
    ObjectPathInjective(prefix, f1, f2);
  }

  lemma MixedDestsDiffer(sourceDir: string, prefix: string, toHtml: string -> string,
                         md: SourceFile, py: SourceFile)
    requires IsMarkdown(md.name) && IsDocFile(py.name) && !IsMarkdown(py.name)
    requires PlanFile(sourceDir, prefix, toHtml, md).Put?
    ensures PlanFile(sourceDir, prefix, toHtml, md).upload.dest != PlanFile(sourceDir, prefix, toHtml, py).upload.dest
  {
    PythonDestEndsWithPy(sourceDir, prefix, toHtml, py);
    DifferentEndings(PlanFile(sourceDir, prefix, toHtml, md).upload.dest,
                     PlanFile(sourceDir, prefix, toHtml, py).upload.dest, ".html", ".py");
  }

  lemma PythonDestEndsWithPy(sourceDir: string, prefix: string, toHtml: string -> string, f: SourceFile)
    requires IsDocFile(f.name) && !IsMarkdown(f.name)
    ensures PlanFile(sourceDir, prefix, toHtml, f).Put?
    ensures EndsWith(PlanFile(sourceDir, prefix, toHtml, f).upload.dest, ".py")
  {
    EndsWithTransitive(ObjectPath(prefix, f), f.name, ".py");
  }

  /** Every object name starts with the prefix, so the upload stays inside the
      location the cleanup cleared. */
  lemma PlanStaysUnderPrefix(sourceDir: string, prefix: string, toHtml: string -> string, f: SourceFile)
    requires IsDocFile(f.name)
    ensures ValidComponents(f.dirs, f.name) && PlanFile(sourceDir, prefix, toHtml, f).Put? ==>
      StartsWith(PlanFile(sourceDir, prefix, toHtml, f).upload.dest, prefix)
  {
    if ValidComponents(f.dirs, f.name) && PlanFile(sourceDir, prefix, toHtml, f).Put? {
      var rel := RelPath(f.dirs, f.name);
      RelPathShape(f.dirs, f.name);
      var p := ObjectPath(prefix, f);
      var d := PlanFile(sourceDir, prefix, toHtml, f).upload.dest;
      if IsMarkdown(f.name) {
        EndsWithTransitive(rel, f.name, ".md");
        RenameKeepsPrefix(p, d, prefix);
      }
    }
  }

  /** Turning the ".md" of an object name under `prefix` into ".html" keeps
      it under `prefix`. */
  lemma RenameKeepsPrefix(p: string, d: string, prefix: string)
    requires StartsWith(p, prefix) && |p| - 3 >= |prefix|
    requires EndsWith(d, ".html") && d[..|d| - 5] + ".md" == p
    ensures StartsWith(d, prefix)
  {
    var stem := d[..|d| - 5];
    assert p[..|p| - 3] == stem;
    StartsWithTake(p, prefix, |p| - 3);
    assert d[..|prefix|] == stem[..|prefix|];
  }

  // ---------------------------------------------------------------------------
  // The loop over all files
  // ---------------------------------------------------------------------------

  /** The plan for every kept file, in walk order. */
  function Plan(sourceDir: string, prefix: string, toHtml: string -> string, files: seq<SourceFile>): (steps: seq<Step>)
    requires forall i :: 0 <= i < |files| ==> IsDocFile(files[i].name)
    ensures |steps| == |files|
  {
    seq(|files|, i requires 0 <= i < |files| => PlanFile(sourceDir, prefix, toHtml, files[i]))
  }

  /** The objects the steps write, in order. */
  function Puts(steps: seq<Step>): seq<Upload>
    decreases |steps|
  {
    if steps == [] then []
    else (if steps[0].Put? then [steps[0].upload] else []) + Puts(steps[1..])
  }

  /** The files the steps skip, in order. */
  function Skips(steps: seq<Step>): seq<SourceFile>
    decreases |steps|
  {
    if steps == [] then []
    else (if steps[0].SkipEmpty? then [steps[0].source] else []) + Skips(steps[1..])
  }

  lemma {:induction false} PutsMembers(steps: seq<Step>, u: Upload)
    ensures u in Puts(steps) <==> Put(u) in steps
    decreases |steps|
  {
    if steps != [] {
      PutsMembers(steps[1..], u);
      assert steps == [steps[0]] + steps[1..];
    }
  }

  lemma {:induction false} SkipsMembers(steps: seq<Step>, f: SourceFile)
    ensures f in Skips(steps) <==> SkipEmpty(f) in steps
    decreases |steps|
  {
    if steps != [] {
      SkipsMembers(steps[1..], f);
      assert steps == [steps[0]] + steps[1..];
    }
  }

  /** The position of the first write that fails, or the number of steps
      when none does. */
  function FirstRejected(steps: seq<Step>, accept: Upload -> bool): (k: nat)
    ensures k <= |steps|
    ensures forall j :: 0 <= j < k && steps[j].Put? ==> accept(steps[j].upload)
    ensures k < |steps| ==> steps[k].Put? && !accept(steps[k].upload)
    decreases |steps|
  {
    if steps == [] then 0
    else if steps[0].Put? && !accept(steps[0].upload) then 0
    else 1 + FirstRejected(steps[1..], accept)
  }

  /** Running the planned steps: skips continue, a write that succeeds
      continues, and the first write that fails ends the run with `False`.
      So the run succeeds exactly when no write fails, and what was written
      is exactly the writes planned before the first failure. */
  function Execute(steps: seq<Step>, accept: Upload -> bool): (r: UploadReport)
    ensures r.ok <==> FirstRejected(steps, accept) == |steps|
    ensures r.uploaded == Puts(steps[..FirstRejected(steps, accept)])
    ensures r.skipped == Skips(steps[..FirstRejected(steps, accept)])
    decreases |steps|
  {
    if steps == [] then UploadReport(true, [], [])
    else
      var k := FirstRejected(steps, accept);
      if steps[0].Put? && !accept(steps[0].upload) then
        assert steps[..k] == [];
        UploadReport(false, [], [])
      else
        var rest := Execute(steps[1..], accept);
        assert steps[..k][0] == steps[0] && steps[..k][1..] == steps[1..][..k - 1];
        if steps[0].Put? then rest.(uploaded := [steps[0].upload] + rest.uploaded)
        else rest.(skipped := [steps[0].source] + rest.skipped)
  }

  /** `upload_directory_to_gcs`: `None` stands for a source path that is not
      a directory, which fails before anything is written. */
  function UploadDirectory(tree: Option<seq<Node>>, sourceDir: string, prefix: string,
                           toHtml: string -> string, accept: Upload -> bool): (r: UploadReport)
    ensures tree.None? ==> !r.ok && r.uploaded == [] && r.skipped == []
  {
    match tree
    case None => UploadReport(false, [], [])
    case Some(entries) => Execute(Plan(sourceDir, prefix, toHtml, WalkAll(entries)), accept)
  }

  /** Everything written is a kept file of the tree, below no hidden
      directory, written where and how its plan says, and accepted by storage. */
  lemma UploadsFollowPlan(entries: seq<Node>, sourceDir: string, prefix: string,
                          toHtml: string -> string, accept: Upload -> bool, u: Upload)
    ensures u in UploadDirectory(Some(entries), sourceDir, prefix, toHtml, accept).uploaded ==>
      && Contains(entries, u.source.dirs, u.source.name, u.source.text)
      && Visible(u.source.dirs) && IsDocFile(u.source.name)
      && PlanFile(sourceDir, prefix, toHtml, u.source) == Put(u)
      && accept(u)
  {
    if u in UploadDirectory(Some(entries), sourceDir, prefix, toHtml, accept).uploaded {
      var files := WalkAll(entries);
      var steps := Plan(sourceDir, prefix, toHtml, files);
      assert UploadDirectory(Some(entries), sourceDir, prefix, toHtml, accept) == Execute(steps, accept);
      var i := PutPosition(steps, accept, u);
      assert steps[i] == PlanFile(sourceDir, prefix, toHtml, files[i]);
      assert files[i] in files;
      WalkAllMembers(entries, files[i]);
    }
  }

  /** An object the run wrote was planned at a position before the first failing write. */
  lemma PutPosition(steps: seq<Step>, accept: Upload -> bool, u: Upload) returns (i: nat)
    requires u in Execute(steps, accept).uploaded
    ensures i < FirstRejected(steps, accept) && steps[i] == Put(u)
    ensures accept(u)
  {
    var k := FirstRejected(steps, accept);
    PutsMembers(steps[..k], u);
    i :| 0 <= i < k && steps[..k][i] == Put(u);
  }

  /** A file the run skipped was planned as a skip before the first failing write. */
  lemma SkipPosition(steps: seq<Step>, accept: Upload -> bool, f: SourceFile) returns (i: nat)
    requires f in Execute(steps, accept).skipped
    ensures i < FirstRejected(steps, accept) && steps[i] == SkipEmpty(f)
  {
    var k := FirstRejected(steps, accept);
    SkipsMembers(steps[..k], f);
    i :| 0 <= i < k && steps[..k][i] == SkipEmpty(f);
  }

  /** Every skipped file is a kept Markdown file whose conversion is empty. */
  lemma SkipsAreEmptyMarkdown(entries: seq<Node>, sourceDir: string, prefix: string,
                              toHtml: string -> string, accept: Upload -> bool, f: SourceFile)
    ensures f in UploadDirectory(Some(entries), sourceDir, prefix, toHtml, accept).skipped ==>
      && Contains(entries, f.dirs, f.name, f.text) && Visible(f.dirs)
      && IsMarkdown(f.name) && toHtml(f.text) == ""
  {
    if f in UploadDirectory(Some(entries), sourceDir, prefix, toHtml, accept).skipped {
      var files := WalkAll(entries);
      var steps := Plan(sourceDir, prefix, toHtml, files);
      assert UploadDirectory(Some(entries), sourceDir, prefix, toHtml, accept) == Execute(steps, accept);
      var i := SkipPosition(steps, accept, f);
      assert steps[i] == PlanFile(sourceDir, prefix, toHtml, files[i]);
      assert files[i] in files;
      WalkAllMembers(entries, files[i]);
    }
  }

  /** A successful upload leaves nothing out: every kept file of the tree
      below no hidden directory was written or skipped as empty. */
  lemma SuccessIsComplete(entries: seq<Node>, sourceDir: string, prefix: string,
                          toHtml: string -> string, accept: Upload -> bool, f: SourceFile)
    ensures var r := UploadDirectory(Some(entries), sourceDir, prefix, toHtml, accept);
      r.ok && Contains(entries, f.dirs, f.name, f.text) && Visible(f.dirs) && IsDocFile(f.name) ==>
        f in r.skipped || exists u :: u in r.uploaded && u.source == f
  {
    if UploadDirectory(Some(entries), sourceDir, prefix, toHtml, accept).ok
       && Contains(entries, f.dirs, f.name, f.text) && Visible(f.dirs) && IsDocFile(f.name) {
      var files := WalkAll(entries);
      var steps := Plan(sourceDir, prefix, toHtml, files);
      WalkAllMembers(entries, f);
      var i :| 0 <= i < |files| && files[i] == f;
      assert steps[..|steps|] == steps;
      if steps[i].Put? {
        PutsMembers(steps, steps[i].upload);
      } else {
        SkipsMembers(steps, f);
      }
    }
  }

  /** After the first failed write nothing else is written: the run reports
      `False`, and the objects written are exactly the ones planned before
      that write, so no later file reaches storage. */
  lemma FailureStopsUploads(entries: seq<Node>, sourceDir: string, prefix: string,
                            toHtml: string -> string, accept: Upload -> bool)
    ensures var steps := Plan(sourceDir, prefix, toHtml, WalkAll(entries));
      !UploadDirectory(Some(entries), sourceDir, prefix, toHtml, accept).ok ==>
        exists k :: 0 <= k < |steps| && steps[k].Put? && !accept(steps[k].upload)
          && (forall j :: 0 <= j < k && steps[j].Put? ==> accept(steps[j].upload))
          && UploadDirectory(Some(entries), sourceDir, prefix, toHtml, accept).uploaded == Puts(steps[..k])
  {
    var steps := Plan(sourceDir, prefix, toHtml, WalkAll(entries));
    var k := FirstRejected(steps, accept);
    if k < |steps| {
      assert steps[k].Put? && !accept(steps[k].upload);
    }
  }

  /** Written objects of a well-named tree never collide. */
  lemma UploadDestinationsDistinct(entries: seq<Node>, sourceDir: string, prefix: string,
                                   toHtml: string -> string, accept: Upload -> bool, u1: Upload, u2: Upload)
    requires WellNamed(entries)
    ensures var ups := UploadDirectory(Some(entries), sourceDir, prefix, toHtml, accept).uploaded;
      u1 in ups && u2 in ups && u1.dest == u2.dest ==>
        u1.source.dirs == u2.source.dirs && u1.source.name == u2.source.name
  {
    var ups := UploadDirectory(Some(entries), sourceDir, prefix, toHtml, accept).uploaded;
    if u1 in ups && u2 in ups {
      UploadsFollowPlan(entries, sourceDir, prefix, toHtml, accept, u1);
      UploadsFollowPlan(entries, sourceDir, prefix, toHtml, accept, u2);
      ContainedComponentsValid(entries, u1.source.dirs, u1.source.name, u1.source.text);
      ContainedComponentsValid(entries, u2.source.dirs, u2.source.name, u2.source.text);
      PlanDestinationsDistinct(sourceDir, prefix, toHtml, u1.source, u2.source);
    }
  }

  // ---------------------------------------------------------------------------
  // Cleanup
  // ---------------------------------------------------------------------------

  /** `cleanup_gcs_prefix`'s outcome: the objects deleted, or `False`. A
      failure says nothing about what a partial delete removed. */
  datatype CleanupReport = Cleaned(deleted: seq<string>) | CleanupFailed

  /** Delete every object whose name starts with `prefix` (a plain string
      prefix, as `list_blobs(prefix=…)` matches). `objects` is the bucket in
      listing order; `listOk` and `deleteOk` say whether listing and the
      batch delete succeed. */
  function Cleanup(objects: seq<string>, listOk: bool, deleteOk: bool, prefix: string): (r: CleanupReport)
    ensures !listOk ==> r == CleanupFailed
    ensures r.Cleaned? ==> listOk && IsSubsequence(r.deleted, objects)
    ensures r.Cleaned? ==> forall i :: 0 <= i < |r.deleted| ==> StartsWith(r.deleted[i], prefix)
  {
    FilterIsSubsequence(objects, o => StartsWith(o, prefix));
    if !listOk then CleanupFailed
    else
      var blobs := Filter(objects, o => StartsWith(o, prefix));
      if blobs == [] then Cleaned([])
      else if deleteOk then Cleaned(blobs)
      else CleanupFailed
  }

  /** A successful cleanup deletes exactly the objects under the prefix and
      leaves every other object alone; with nothing under the prefix it
      succeeds without deleting anything, whatever the delete would do. */
  lemma CleanupDeletesExactlyPrefixed(objects: seq<string>, listOk: bool, deleteOk: bool, prefix: string, o: string)
    ensures Cleanup(objects, listOk, deleteOk, prefix).Cleaned? ==>
      (o in Cleanup(objects, listOk, deleteOk, prefix).deleted <==> o in objects && StartsWith(o, prefix))
    ensures listOk && (forall i :: 0 <= i < |objects| ==> !StartsWith(objects[i], prefix)) ==>
      Cleanup(objects, listOk, deleteOk, prefix) == Cleaned([])
    ensures Cleanup(objects, listOk, deleteOk, prefix) == CleanupFailed <==>
      !listOk || (!deleteOk && exists i :: 0 <= i < |objects| && StartsWith(objects[i], prefix))
  {
    var p := (x: string) => StartsWith(x, prefix);
    FilterMembership(objects, p, o);
    var blobs := Filter(objects, p);
    if blobs != [] {
      FilterMembership(objects, p, blobs[0]);
    }
    if exists i :: 0 <= i < |objects| && StartsWith(objects[i], prefix) {
      var i :| 0 <= i < |objects| && StartsWith(objects[i], prefix);
      FilterMembership(objects, p, objects[i]);
    }
  }

  // ---------------------------------------------------------------------------
  // The three-stage sync of `main`
  // ---------------------------------------------------------------------------

  /** The bucket as the sync meets it, with the outcome of each storage call. */
  datatype Storage = Storage(objects: seq<string>, listOk: bool, deleteOk: bool, accept: Upload -> bool)

  /** Which stages ran and what each returned; a stage that did not run is `None`. */
  datatype SyncReport = SyncReport(cleanup: CleanupReport, upload: Option<UploadReport>, imported: Option<bool>)

  predicate Succeeded(r: SyncReport) {
    r.imported == Some(true)
  }

  /** `main`: cleanup, then upload, then import, each only after every earlier
      stage returned `True`. `importOk` is what the import trigger returns. */
  function Sync(storage: Storage, tree: Option<seq<Node>>, sourceDir: string, prefix: string,
                toHtml: string -> string, importOk: bool): (r: SyncReport)
    ensures r.cleanup == Cleanup(storage.objects, storage.listOk, storage.deleteOk, prefix)
    ensures r.upload.Some? <==> r.cleanup.Cleaned?
    ensures r.upload.Some? ==> r.upload.value == UploadDirectory(tree, sourceDir, prefix, toHtml, storage.accept)
    ensures r.imported.Some? <==> r.upload.Some? && r.upload.value.ok
    ensures Succeeded(r) <==>
      && r.cleanup.Cleaned?
      && UploadDirectory(tree, sourceDir, prefix, toHtml, storage.accept).ok
      && importOk
  {
    var cleanup := Cleanup(storage.objects, storage.listOk, storage.deleteOk, prefix);
    if cleanup.CleanupFailed? then SyncReport(cleanup, None, None)
    else
      var upload := UploadDirectory(tree, sourceDir, prefix, toHtml, storage.accept);
      if !upload.ok then SyncReport(cleanup, Some(upload), None)
      else SyncReport(cleanup, Some(upload), Some(importOk))
  }

  /** The object names each upload writes to, in order. */
  function Dests(ups: seq<Upload>): (ds: seq<string>)
    ensures |ds| == |ups|
    ensures forall i :: 0 <= i < |ups| ==> ds[i] == ups[i].dest
  {
    seq(|ups|, i requires 0 <= i < |ups| => ups[i].dest)
  }

  /** The object names after a successful sync: what the cleanup left, then
      what the upload wrote. */
  function FinalObjects(storage: Storage, r: SyncReport): seq<string>
    requires r.cleanup.Cleaned? && r.upload.Some?
  {
    Filter(storage.objects, o => o !in r.cleanup.deleted) + Dests(r.upload.value.uploaded)
  }

  lemma FinalObjectsMembers(storage: Storage, r: SyncReport, o: string)
    requires r.cleanup.Cleaned? && r.upload.Some?
    ensures o in FinalObjects(storage, r) <==>
      (o in storage.objects && o !in r.cleanup.deleted)
      || (exists u :: u in r.upload.value.uploaded && u.dest == o)
  {
    var ups := r.upload.value.uploaded;
    FilterMembership(storage.objects, x => x !in r.cleanup.deleted, o);
    if o in Dests(ups) {
      var i :| 0 <= i < |ups| && Dests(ups)[i] == o;
      assert ups[i] in ups;
    }
    if exists u :: u in ups && u.dest == o {
      var u :| u in ups && u.dest == o;
      var i :| 0 <= i < |ups| && ups[i] == u;
      assert Dests(ups)[i] == o;
    }
  }

  /** In a well-named tree every object the upload writes lies under the prefix. */
  lemma UploadedUnderPrefix(entries: seq<Node>, sourceDir: string, prefix: string,
                            toHtml: string -> string, accept: Upload -> bool, u: Upload)
    requires WellNamed(entries)
    ensures u in UploadDirectory(Some(entries), sourceDir, prefix, toHtml, accept).uploaded ==>
      StartsWith(u.dest, prefix)
  {
    if u in UploadDirectory(Some(entries), sourceDir, prefix, toHtml, accept).uploaded {
      UploadsFollowPlan(entries, sourceDir, prefix, toHtml, accept, u);
      ContainedComponentsValid(entries, u.source.dirs, u.source.name, u.source.text);
      PlanStaysUnderPrefix(sourceDir, prefix, toHtml, u.source);
    }
  }

  /** After a successful sync of a well-named tree, the objects under the
      prefix are exactly the ones this upload wrote, and every object outside
      the prefix is still there. */
  lemma SyncReplacesPrefix(storage: Storage, entries: seq<Node>, sourceDir: string, prefix: string,
                           toHtml: string -> string, importOk: bool, o: string)
    requires WellNamed(entries)
    requires Succeeded(Sync(storage, Some(entries), sourceDir, prefix, toHtml, importOk))
    ensures var r := Sync(storage, Some(entries), sourceDir, prefix, toHtml, importOk);
      StartsWith(o, prefix) ==>
        (o in FinalObjects(storage, r) <==> exists u :: u in r.upload.value.uploaded && u.dest == o)
    ensures var r := Sync(storage, Some(entries), sourceDir, prefix, toHtml, importOk);
      !StartsWith(o, prefix) ==> (o in FinalObjects(storage, r) <==> o in storage.objects)
  {
    var r := Sync(storage, Some(entries), sourceDir, prefix, toHtml, importOk);
    var ups := r.upload.value.uploaded;
    assert ups == UploadDirectory(Some(entries), sourceDir, prefix, toHtml, storage.accept).uploaded;
    FinalObjectsMembers(storage, r, o);
    CleanupDeletesExactlyPrefixed(storage.objects, storage.listOk, storage.deleteOk, prefix, o);
    if !StartsWith(o, prefix) {
      forall u | u in ups
        ensures u.dest != o
      {
        UploadedUnderPrefix(entries, sourceDir, prefix, toHtml, storage.accept, u);
      }
    }
  }
}
