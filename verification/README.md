# Docs sync and issue triage, modelled in Dafny

This project models two deterministic pieces of the ADK repository's automation.

- **The docs sync** in `scripts/upload_docs_to_vertex_ai_search.py` runs three stages:
  - it clears the bucket prefix;
  - it walks the repository and uploads every Markdown file (converted to HTML) and every Python file under that prefix;
  - it starts a full import into the search data store.

  The model covers which files the walk keeps and in what order, and the object name, content type and body of each upload. It also covers the ".md" to ".html" rename and the skip of files whose HTML is empty. Other properties modelled:
  - the first failed upload ends the run;
  - cleanup succeeds without deleting anything when no object lies under the prefix;
  - each stage runs only after the previous one returned `True`.
- **The triaging agent's tools** in `contributing/samples/adk_triaging_agent/agent.py`:
  - the ten-label allow-list;
  - the `add_label_to_issue` guard, its URL and payload, and its response;
  - the search request of `list_unlabeled_issues` and its second "unlabeled" filter;
  - the choice of the approval sentence in the agent's instructions.

Every call into Cloud Storage, Discovery Engine, GitHub or the Markdown library is a parameter:
- `toHtml` stands for `markdown.markdown`;
- `accept` says whether one object upload succeeds or raises `GoogleAPICallError`;
- `listOk`, `deleteOk` and `importOk` are the outcomes of the cleanup and import calls;
- `SearchOutcome` and `PostOutcome` are what `get_request` and `post_request` returned or raised.

Modules, in dependency order:
- `Options` and `Strings`: string prefixes and suffixes, `removesuffix`, ASCII `lower`, `join` and `split` on one character, and decimal rendering of integers.
- `Seqs`: the order-preserving filter of a list comprehension.
- `Paths`: `os.path.join`, `relpath` and the local paths of the walk.
- `DocTree`: the pruned `os.walk` and the file filter.
- `DocsUpload`: the upload loop, cleanup, `main`, and the bucket after a sync.
- `TriageAgent`: the agent's tools.

What the agent's code does not do:
- The choice of label is made by the language model from the rules in the agent's instruction text (`contributing/samples/adk_triaging_agent/agent.py:115-134`). That text is a prompt, not code, so the model takes the chosen label as an input.
- No code in `agent.py` skips closed or already-labelled issues beyond what the search query asks for. None rewrites citations, and none protects existing labels.
- `add_label_to_issue` (`agent.py:97-101`) does not read an issue's existing labels. It always POSTs the chosen label together with the bot label.

Cleanup matches object names by plain string prefix, as `list_blobs(prefix=…)` does. So a prefix "docs" also clears "docs-old/…", and the model keeps that behaviour.

## Model

| member | source | states |
|---|---|---|
| DocTree.Walk | scripts/upload_docs_to_vertex_ai_search.py:58-64 | Every file the walk yields ends in ".md" or ".py". It lies below the walked directory, and no directory between them starts with ".". |
| DocTree.WalkMembers | scripts/upload_docs_to_vertex_ai_search.py:58-64 | From any directory, a file is yielded exactly when the tree holds it below that directory, no directory on the way is hidden, and its name ends in ".md" or ".py". |
| DocTree.WalkSound | scripts/upload_docs_to_vertex_ai_search.py:58-61 | Everything the pruned walk yields is really held by the tree, under visible directories only. |
| DocTree.WalkComplete | scripts/upload_docs_to_vertex_ai_search.py:58-64 | Pruning only removes hidden directories. Every kept file under visible directories is yielded, hidden files included. |
| DocTree.WalkAllMembers | scripts/upload_docs_to_vertex_ai_search.py:58-64 | The upload candidates are exactly the ".md"/".py" files of the tree that have no hidden directory above them. |
| DocTree.ContainedComponentsValid | scripts/upload_docs_to_vertex_ai_search.py:58-69 | In a tree of real directory entries, every held file's path components are valid names, so its relative path is well formed. |
| Paths.PathJoin | scripts/upload_docs_to_vertex_ai_search.py:67-70 | `os.path.join` ends with its second argument. For a relative second argument it starts with the first, and what lies between them is exactly one "/" when the first is non-empty and does not already end in "/", and nothing otherwise. An absolute second argument is the whole result. |
| Paths.PathJoinInjective | scripts/upload_docs_to_vertex_ai_search.py:70 | Under a fixed prefix, different relative paths give different object names. |
| Paths.RelPathShape | scripts/upload_docs_to_vertex_ai_search.py:69 | The relative path is relative and ends with the file name. Splitting it at "/" gives back the directories and the name. |
| Paths.LocalDir | scripts/upload_docs_to_vertex_ai_search.py:58-67 | Each directory `os.walk` reports is its parent joined with the subdirectory's name. When every name on the way is valid, it lies below the walked directory. |
| Paths.LocalPath | scripts/upload_docs_to_vertex_ai_search.py:67 | The local path of a file ends with the file's name. For valid names it starts with the walked directory. |
| Paths.LocalPathIsRootPlusRelPath | scripts/upload_docs_to_vertex_ai_search.py:67-69 | For a walked directory that is non-empty and has no trailing "/", a file's local path is that directory, one "/", and the file's relative path. So taking the relative path of the local path gives back the file's components. |
| Paths.RelPathInjective | scripts/upload_docs_to_vertex_ai_search.py:69 | Different files below the walked directory have different relative paths. |
| Strings.RemoveSuffix | scripts/upload_docs_to_vertex_ai_search.py:86 | `removesuffix` gives a string that, with the suffix put back, is the input when the input ended in it. Otherwise the input is returned unchanged. |
| Strings.LowerKeepsSuffix | scripts/upload_docs_to_vertex_ai_search.py:74 | Lower-casing a name keeps a lower-case ending in place. |
| Strings.IntToStringRoundTrip | contributing/samples/adk_triaging_agent/agent.py:97 | The decimal rendering of an issue number reads back as the same number, negative numbers included. |
| DocsUpload.MarkdownTestAgrees | scripts/upload_docs_to_vertex_ai_search.py:64-74 | For a file that passed the case-sensitive filter, the branch test `lower().endswith(".md")` holds exactly when the name ends in ".md". So a ".MD" file never reaches the Markdown branch. |
| DocsUpload.PlanFile | scripts/upload_docs_to_vertex_ai_search.py:66-95 | A file is skipped exactly when it is Markdown and its HTML is empty. Markdown is written as "text/html" under its object path with ".md" replaced by ".html". Python is written as "text/plain" from its local path under its object path. |
| DocsUpload.ObjectPath | scripts/upload_docs_to_vertex_ai_search.py:69-70 | The object name ends with the file's relative path, and so with its name. For a well-named file it starts with the prefix, followed by exactly the separator `os.path.join` adds and then the relative path. |
| DocsUpload.ObjectPathFromLocalPath | scripts/upload_docs_to_vertex_ai_search.py:67-70 | Cutting the walked directory and its "/" off the local path, then joining the rest onto the prefix, gives the object name. |
| DocsUpload.ObjectPathInjective | scripts/upload_docs_to_vertex_ai_search.py:67-70 | Two files with the same object path are the same file. |
| DocsUpload.PlanDestinationsDistinct | scripts/upload_docs_to_vertex_ai_search.py:70-95 | Two different files are never written to the same object, even after the ".html" rename. |
| DocsUpload.PlanStaysUnderPrefix | scripts/upload_docs_to_vertex_ai_search.py:70-86 | Every object name, renamed or not, starts with the destination prefix. |
| DocsUpload.FirstRejected | scripts/upload_docs_to_vertex_ai_search.py:103-105 | The position of the first failing write: every write before it succeeds, and the step there is a write that fails. |
| DocsUpload.Execute | scripts/upload_docs_to_vertex_ai_search.py:66-108 | The loop reports success exactly when no write fails. It writes and skips exactly the steps planned before the first failing write. |
| DocsUpload.UploadDirectory | scripts/upload_docs_to_vertex_ai_search.py:52-54 | A source path that is not a directory fails before anything is written. |
| DocsUpload.UploadsFollowPlan | scripts/upload_docs_to_vertex_ai_search.py:58-102 | Every written object comes from a kept file of the tree below no hidden directory. It is written as that file's plan says and was accepted by storage. |
| DocsUpload.SkipsAreEmptyMarkdown | scripts/upload_docs_to_vertex_ai_search.py:83-85 | Every skipped file is a kept Markdown file whose HTML is empty. |
| DocsUpload.SuccessIsComplete | scripts/upload_docs_to_vertex_ai_search.py:58-108 | After a successful upload, every kept file of the tree was either written or skipped as empty. |
| DocsUpload.FailureStopsUploads | scripts/upload_docs_to_vertex_ai_search.py:103-105 | A failed upload has a first failing write, and exactly the writes planned before it reached storage. |
| DocsUpload.UploadDestinationsDistinct | scripts/upload_docs_to_vertex_ai_search.py:66-95 | Objects written for different files of a real directory tree never collide. |
| DocsUpload.Cleanup | scripts/upload_docs_to_vertex_ai_search.py:23-40 | A failed listing fails the cleanup. A successful cleanup deletes, in listing order, only objects whose names start with the prefix. |
| DocsUpload.CleanupDeletesExactlyPrefixed | scripts/upload_docs_to_vertex_ai_search.py:29-37 | A successful cleanup deletes exactly the objects under the prefix. With nothing under the prefix it succeeds without deleting. It fails exactly when the listing fails, or when the delete fails with something to delete. |
| DocsUpload.Sync | scripts/upload_docs_to_vertex_ai_search.py:155-186 | Upload runs exactly when cleanup succeeded, and import exactly when upload succeeded. The sync succeeds exactly when all three stages do. |
| DocsUpload.UploadedUnderPrefix | scripts/upload_docs_to_vertex_ai_search.py:66-95 | Every object the upload writes lies under the prefix the cleanup cleared. |
| DocsUpload.SyncReplacesPrefix | scripts/upload_docs_to_vertex_ai_search.py:155-172 | After a successful sync, the objects under the prefix are exactly those this run wrote. Every object outside the prefix is untouched. |
| TriageAgent.AllowedLabelsDistinct | contributing/samples/adk_triaging_agent/agent.py:28-39 | The allow-list holds ten labels, all different. |
| TriageAgent.ApprovalInstruction | contributing/samples/adk_triaging_agent/agent.py:41-46 | The "only label when the user approves" sentence is chosen exactly in interactive mode, and the "do not ask" sentence exactly otherwise. |
| TriageAgent.ListUnlabeledIssues | contributing/samples/adk_triaging_agent/agent.py:49-78 | The search asks for this repository's open, unlabeled issues, newest first, `issue_count` per page, page 1. A raised request gives the error response, and a body without "items" makes the tool raise. Otherwise the tool returns exactly the hits whose labels are missing or empty, in search order. |
| TriageAgent.UnlabeledFilterExact | contributing/samples/adk_triaging_agent/agent.py:74-78 | The filter keeps only unlabeled issues, in their original order, and every unlabeled hit as often as it occurs. It drops every labelled issue, and filtering again changes nothing. |
| TriageAgent.SearchQueryTerms | contributing/samples/adk_triaging_agent/agent.py:59 | The query is exactly four space-separated qualifiers: this repository, open, issues only, no label. |
| TriageAgent.AddLabelToIssue | contributing/samples/adk_triaging_agent/agent.py:81-108 | A request is made exactly when the label is allowed; otherwise the response is the "not an allowed label" error. The POST goes to the issue's labels URL with the label and the bot label. Success is reported, with the applied label and the response, exactly when the label is allowed and the POST returned. A raised POST gives the error response. |
| TriageAgent.AppliedLabelIsAllowed | contributing/samples/adk_triaging_agent/agent.py:92-107 | No label outside the allow-list is ever reported as applied. |
| TriageAgent.LabelsUrlNamesIssue | contributing/samples/adk_triaging_agent/agent.py:97 | Two issues share a labels URL exactly when they are the same issue. |

## Left out

- Cloud Storage, Discovery Engine and GitHub calls are not modelled; their outcomes are parameters. Client creation, credentials and printing are left out.
- `import_from_gcs_to_vertex_ai` is reduced to the boolean it returns. Its request (parent path, `gs://…/**` URI, FULL reconciliation) is a Discovery Engine call.
- `markdown.markdown` is an uninterpreted function. Only the emptiness of its result matters to the loop.
- Reading a file can raise errors other than `GoogleAPICallError` (missing file, bad UTF-8). Those escape the loop and are not modelled. File contents are given with the tree.
- `os.walk` errors, symbolic links and changes to the tree during the walk are not modelled. Listing order is taken as given.
- `os.path.relpath` normalisation of `..` and `.` segments is not modelled. The relative path is the components below the walked directory joined by "/".
- `str.lower` is modelled for ASCII letters only. The branch test looks only at a name's last three characters, which the filter already fixed as ASCII.
- DocsUpload.Cleanup: a failed batch delete is reported as `CleanupFailed` without saying which objects a partial delete removed.
- An unset `GCS_DESTINATION_PREFIX` is passed to `list_blobs(prefix=None)` at line 29. That lists every object, so the cleanup deletes the whole bucket and returns `True`. The upload then raises `TypeError` at line 70, when it joins `None` onto a path. The model takes the prefix as a string. With the prefix "" it reproduces the wipe, since `Cleanup` deletes every object, but it does not model the later `TypeError`. An unset bucket name is likewise taken as a string.
- The answering agent, the agents' `main.py` runners, the settings and utils modules, and the label the language model picks are not part of this model.
- TriageAgent.ListUnlabeledIssues: GitHub's cap of 100 results per page is not modelled, and `per_page` is passed through as given.
