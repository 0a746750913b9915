/** The deterministic part of the issue-triaging agent
    (`contributing/samples/adk_triaging_agent/agent.py`): the fixed label
    allow-list, the guard and payload of the label-writing tool, the search
    request and the unlabeled filter of the listing tool, and the choice of
    the approval sentence that goes into the agent's instructions.

    HTTP calls are parameters: the outcome of the search request and of the
    label POST is given, and the functions return the request they make (if
    any) together with the tool's response. */
module TriageAgent {
  import opened Options
  import opened Strings
  import opened Seqs

  /** The values the agent reads from its settings module. */
  datatype Settings = Settings(githubBaseUrl: string, owner: string, repo: string, botLabel: string, isInteractive: bool)

  /** A search hit. `labels` is `None` when the key is missing or null. */
  datatype Issue = Issue(number: int, title: string, labels: Option<seq<string>>)

  /** What a tool returns to the model: `{"status": "success", …}` with the
      issues or the applied label, or the error dictionary. `ToolRaised` is
      an exception escaping the tool instead of a returned dictionary. */
  datatype ToolResponse =
    | IssuesFound(issues: seq<Issue>)
    | LabelApplied(message: string, appliedLabel: string)
    | ErrorResponse(message: string)
    | ToolRaised

  // ---------------------------------------------------------------------------
  // Labels and the approval sentence
  // ---------------------------------------------------------------------------

  const AllowedLabels: seq<string> :=
    ["documentation", "services", "question", "tools", "eval",
     "live", "models", "tracing", "core", "web"]

  /** The allow-list holds ten labels, no two alike. */
  lemma AllowedLabelsDistinct()
    ensures |AllowedLabels| == 10
    ensures forall i, j :: 0 <= i < j < |AllowedLabels| ==> AllowedLabels[i] != AllowedLabels[j]
  {
  }

  const AutonomousApproval: string :=
    "Do not ask for user approval for labeling! If you can't find appropriate"
    + " labels for the issue, do not label it."

  const InteractiveApproval: string := "Only label them when the user approves the labeling!"

  /** `APPROVAL_INSTRUCTION`: the "ask first" sentence exactly when the agent
      runs interactively, the "label without asking" sentence otherwise. */
  function ApprovalInstruction(isInteractive: bool): (r: string)
    ensures r == InteractiveApproval <==> isInteractive
    ensures r == AutonomousApproval <==> !isInteractive
  {
    assert |AutonomousApproval| != |InteractiveApproval|;
    if isInteractive then InteractiveApproval else AutonomousApproval
  }

  // ---------------------------------------------------------------------------
  // list_unlabeled_issues
  // ---------------------------------------------------------------------------

  /** The GET request of the search: URL and query parameters. */
  datatype SearchRequest = SearchRequest(url: string, q: string, sort: string, order: string, perPage: int, page: int)

  /** What `get_request` did: returned a JSON body (whose "items" may be
      missing) or raised a request exception. */
  datatype SearchOutcome = SearchResponse(items: Option<seq<Issue>>) | SearchRaised(error: string)

  function SearchQuery(s: Settings): string {
    "repo:" + s.owner + "/" + s.repo + " is:open is:issue no:label"
  }

  /** The search qualifiers, one per space-separated term. */
  function SearchTerms(s: Settings): seq<string> {
    ["repo:" + s.owner + "/" + s.repo, "is:open", "is:issue", "no:label"]
  }

  /** `not issue.get("labels", None)`: the labels are missing, null or empty. */
  predicate IsUnlabeled(issue: Issue) {
    issue.labels.None? || issue.labels.value == []
  }

  /** The unlabeled issues of a search result, in result order. */
  function Unlabeled(items: seq<Issue>): seq<Issue> {
    Filter(items, IsUnlabeled)
  }

  /** `list_unlabeled_issues`: one search for the newest open issues without
      a label, `issueCount` per page, first page; a raised request is an
      error response; otherwise the hits are filtered again, keeping the
      ones whose labels are missing or empty, in order. The "items" of the
      response are iterated unchecked, so a response without them makes the
      tool raise. */
  method ListUnlabeledIssues(s: Settings, issueCount: int, outcome: SearchOutcome)
    returns (request: SearchRequest, response: ToolResponse)
    ensures request.url == s.githubBaseUrl + "/search/issues"
    ensures request.q == SearchQuery(s)
    ensures request.sort == "created" && request.order == "desc"
    ensures request.perPage == issueCount && request.page == 1
    ensures outcome.SearchRaised? ==> response == ErrorResponse("Error: " + outcome.error)
    ensures outcome.SearchResponse? && outcome.items.None? ==> response == ToolRaised
    ensures outcome.SearchResponse? && outcome.items.Some? ==> response == IssuesFound(Unlabeled(outcome.items.value))
  {
    request := SearchRequest(s.githubBaseUrl + "/search/issues", SearchQuery(s), "created", "desc", issueCount, 1);
    if outcome.SearchRaised? {
      return request, ErrorResponse("Error: " + outcome.error);
    }
    if outcome.items.None? {
      return request, ToolRaised;
    }
    var issues := outcome.items.value;
    var unlabeled: seq<Issue> := [];
    var i := 0;
    while i < |issues|
      invariant 0 <= i <= |issues|
      invariant unlabeled == Unlabeled(issues[..i])
    {
      FilterSnoc(issues[..i], issues[i], IsUnlabeled);
      assert issues[..i + 1] == issues[..i] + [issues[i]];
      if IsUnlabeled(issues[i]) {
        unlabeled := unlabeled + [issues[i]];
      }
      i := i + 1;
    }
    assert issues[..i] == issues;
    response := IssuesFound(unlabeled);
  }

  /** The filter of the listing tool keeps only unlabeled issues, keeps them
      in search order, keeps every unlabeled hit (as often as it occurs),
      drops every labelled one, and a second pass changes nothing. */
  lemma UnlabeledFilterExact(items: seq<Issue>, x: Issue)
    ensures forall i :: 0 <= i < |Unlabeled(items)| ==> IsUnlabeled(Unlabeled(items)[i])
    ensures IsSubsequence(Unlabeled(items), items)
    ensures IsUnlabeled(x) ==> multiset(Unlabeled(items))[x] == multiset(items)[x]
    ensures !IsUnlabeled(x) ==> x !in Unlabeled(items)
    ensures Unlabeled(Unlabeled(items)) == Unlabeled(items)
  {
    FilterIsSubsequence(items, IsUnlabeled);
    FilterMultiplicity(items, IsUnlabeled, x);
    FilterIdempotent(items, IsUnlabeled);
  }

  /** The search query is exactly four qualifiers — this repository, open,
      issues only, no label — when owner and repository names have no space
      (GitHub names never do). */
  lemma SearchQueryTerms(s: Settings)
    requires ' ' !in s.owner && ' ' !in s.repo
    ensures Split(SearchQuery(s), ' ') == SearchTerms(s)
  {
    var scope := "repo:" + s.owner + "/" + s.repo;
    var q := "is:open" + [' '] + ("is:issue" + [' '] + "no:label");
    assert ' ' !in scope;
    QueryLiterals();
    ThreePieces(' ', "is:open", "is:issue", "no:label");
    SplitAfterPiece(scope, ' ', q);
    assert SearchQuery(s) == scope + ([' '] + q);
    assert scope + ([' '] + q) == scope + [' '] + q;
  }

  lemma QueryLiterals()
    ensures " is:open is:issue no:label" == [' '] + ("is:open" + [' '] + ("is:issue" + [' '] + "no:label"))
    ensures ' ' !in "is:open" && ' ' !in "is:issue" && ' ' !in "no:label"
  {
  }

  /** Three pieces without `c`, joined by `c`, split back into the same pieces. */
  lemma ThreePieces(c: char, a: string, b: string, d: string)
    requires c !in a && c !in b && c !in d
    ensures Split(a + [c] + (b + [c] + d), c) == [a, b, d]
  {
    SplitWithoutSeparator(d, c);
    SplitAfterPiece(b, c, d);
    SplitAfterPiece(a, c, b + [c] + d);
  }

  // ---------------------------------------------------------------------------
  // add_label_to_issue
  // ---------------------------------------------------------------------------

  datatype PostRequest = PostRequest(url: string, payload: seq<string>)

  /** What `post_request` did: returned a response body or raised a request exception. */
  datatype PostOutcome = Posted(body: string) | PostRaised(error: string)

  /** A call of the label tool: the POST it made, if any, and its response. */
  datatype LabelCall = LabelCall(request: Option<PostRequest>, response: ToolResponse)

  function LabelsUrl(s: Settings, issueNumber: int): string {
    s.githubBaseUrl + "/repos/" + s.owner + "/" + s.repo + "/issues/" + IntToString(issueNumber) + "/labels"
  }

  function RejectedLabelMessage(labelName: string): string {
    "Error: Label '" + labelName + "' is not an allowed label. Will not apply."
  }

  /** `add_label_to_issue`: a label outside the allow-list is refused without
      any request; an allowed one is POSTed to the issue's labels endpoint
      together with the bot label, and the response reports the label that
      was applied, or the request's error. */
  function AddLabelToIssue(s: Settings, issueNumber: int, labelName: string, outcome: PostOutcome): (r: LabelCall)
    ensures r.request.Some? <==> labelName in AllowedLabels
    ensures labelName !in AllowedLabels ==> r.response == ErrorResponse(RejectedLabelMessage(labelName))
    ensures r.request.Some? ==>
      r.request.value.payload == [labelName, s.botLabel] && r.request.value.url == LabelsUrl(s, issueNumber)
    ensures r.response.LabelApplied? <==> labelName in AllowedLabels && outcome.Posted?
    ensures r.response.LabelApplied? ==> r.response.appliedLabel == labelName && r.response.message == outcome.body
    ensures labelName in AllowedLabels && outcome.PostRaised? ==> r.response == ErrorResponse("Error: " + outcome.error)
  {
    if labelName !in AllowedLabels then
      LabelCall(None, ErrorResponse(RejectedLabelMessage(labelName)))
    else
      var request := PostRequest(LabelsUrl(s, issueNumber), [labelName, s.botLabel]);
      match outcome
      case PostRaised(e) => LabelCall(Some(request), ErrorResponse("Error: " + e))
      case Posted(body) => LabelCall(Some(request), LabelApplied(body, labelName))
  }

  /** Every label the tool applies is one of the allowed labels. */
  lemma AppliedLabelIsAllowed(s: Settings, issueNumber: int, labelName: string, outcome: PostOutcome)
    ensures AddLabelToIssue(s, issueNumber, labelName, outcome).response.LabelApplied? ==>
      AddLabelToIssue(s, issueNumber, labelName, outcome).response.appliedLabel in AllowedLabels
  {
  }

  /** The labels request for one issue never goes to another issue's URL:
      the issue number is the last component before "/labels", and its
      decimal rendering reads back as the same number. */
  lemma LabelsUrlNamesIssue(s: Settings, i: int, j: int)
    ensures ParseInt(IntToString(i)) == i
    ensures LabelsUrl(s, i) == LabelsUrl(s, j) <==> i == j
  {
    IntToStringRoundTrip(i);
    IntToStringRoundTrip(j);
    if LabelsUrl(s, i) == LabelsUrl(s, j) {
      var x := s.githubBaseUrl + "/repos/" + s.owner + "/" + s.repo + "/issues/";
      var ni, nj := IntToString(i), IntToString(j);
      assert LabelsUrl(s, i) == x + ni + "/labels";
      assert LabelsUrl(s, j) == x + nj + "/labels";
      assert x + ni == LabelsUrl(s, i)[..|x + ni|];
      assert x + nj == LabelsUrl(s, j)[..|x + nj|];
      assert ni == (x + ni)[|x|..];
      assert nj == (x + nj)[|x|..];
    }
  }
}
