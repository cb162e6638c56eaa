/** jira.py: the JQL query builder, the paging loop over the search responses, the text
    output and the exit codes of the command-line entry point. */
module Jira {
  import opened Wrappers
  import opened Strings
  import opened TextIO

  // ---------------------------------------------------------------------------
  // JQL
  // ---------------------------------------------------------------------------

  /** One JQL clause: `field op "value"`. */
  function Clause(field: string, op: string, value: string): string {
    field + " " + op + " \"" + value + "\""
  }

  /** A join begins with its first part and ends with its last. */
  lemma {:induction false} JoinEnds(parts: seq<string>, sep: string)
    requires |parts| >= 1
    ensures StartsWith(Join(parts, sep), parts[0])
    ensures EndsWith(Join(parts, sep), parts[|parts| - 1])
    decreases |parts|
  {
    if |parts| > 1 {
      JoinEnds(parts[1..], sep);
      var rest := Join(parts[1..], sep);
      var j := Join(parts, sep);
      assert j == parts[0] + sep + rest;
      assert j[..|parts[0]|] == parts[0];
      assert j[|j| - |rest|..] == rest;
      assert rest[|rest| - |parts[|parts| - 1]|..] == j[|j| - |parts[|parts| - 1]|..];
    }
  }

  /** `summary.replace('"', '\"')`: in Python `'\"'` is the one-character string `"`. */
  function EscapeSummary(summary: string): (r: string)
    ensures r == summary
  {
    ReplaceAll(summary, "\"", "\"")
  }

  /** The clauses in their fixed order: project, reporter, summary, each only when given. */
  function JqlClauses(project: Option<string>, reporter: Option<string>, summary: Option<string>): seq<string> {
    (if Truthy(project) then [Clause("project", "=", project.value)] else [])
    + (if Truthy(reporter) then [Clause("reporter", "=", reporter.value)] else [])
    + (if Truthy(summary) then [Clause("summary", "~", EscapeSummary(summary.value))] else [])
  }

  /** `build_jql`: empty exactly when no criterion is given; otherwise the project clause comes
      first when there is one, the summary clause (holding the summary unchanged) comes last
      when there is one, and the clauses are joined by " AND ". */
  function BuildJql(project: Option<string>, reporter: Option<string>, summary: Option<string>): (jql: string)
    ensures jql == "" <==> !Truthy(project) && !Truthy(reporter) && !Truthy(summary)
    ensures Truthy(project) ==> StartsWith(jql, Clause("project", "=", project.value))
    ensures !Truthy(project) && Truthy(reporter) ==> StartsWith(jql, Clause("reporter", "=", reporter.value))
    ensures Truthy(summary) ==> EndsWith(jql, Clause("summary", "~", summary.value))
    ensures Truthy(reporter) && !Truthy(summary) ==> EndsWith(jql, Clause("reporter", "=", reporter.value))
  {
    var clauses := JqlClauses(project, reporter, summary);
    if clauses == [] then ""
    else
      JoinEnds(clauses, " AND ");
      Join(clauses, " AND ")
  }

  /** All three criteria: the three clauses in order, joined by " AND ". */
  lemma BuildJqlAllCriteria(project: string, reporter: string, summary: string)
    requires project != "" && reporter != "" && summary != ""
    ensures BuildJql(Some(project), Some(reporter), Some(summary))
            == Clause("project", "=", project) + " AND " + Clause("reporter", "=", reporter)
               + " AND " + Clause("summary", "~", summary)
  {
    var p, r, s := Clause("project", "=", project), Clause("reporter", "=", reporter), Clause("summary", "~", summary);
    assert JqlClauses(Some(project), Some(reporter), Some(summary)) == [p, r, s];
    assert [p, r, s][1..] == [r, s] && [r, s][1..] == [s];
    assert Join([r, s], " AND ") == r + " AND " + s;
  }

  /** Only a project: its clause alone. */
  lemma BuildJqlProjectOnly(project: string, reporter: Option<string>, summary: Option<string>)
    requires project != "" && !Truthy(reporter) && !Truthy(summary)
    ensures BuildJql(Some(project), reporter, summary) == Clause("project", "=", project)
  {
    var p := Clause("project", "=", project);
    assert JqlClauses(Some(project), reporter, summary) == [p];
    assert Join([p], " AND ") == p;
  }

  /** Only a reporter: its clause alone. */
  lemma BuildJqlReporterOnly(project: Option<string>, reporter: string, summary: Option<string>)
    requires !Truthy(project) && reporter != "" && !Truthy(summary)
    ensures BuildJql(project, Some(reporter), summary) == Clause("reporter", "=", reporter)
  {
    var r := Clause("reporter", "=", reporter);
    assert JqlClauses(project, Some(reporter), summary) == [r];
    assert Join([r], " AND ") == r;
  }

  /** Only a summary: its clause alone. */
  lemma BuildJqlSummaryOnly(project: Option<string>, reporter: Option<string>, summary: string)
    requires !Truthy(project) && !Truthy(reporter) && summary != ""
    ensures BuildJql(project, reporter, Some(summary)) == Clause("summary", "~", summary)
  {
    var s := Clause("summary", "~", summary);
    assert JqlClauses(project, reporter, Some(summary)) == [s];
    assert Join([s], " AND ") == s;
  }

  /** A project and a reporter: project first, joined by " AND ". */
  lemma BuildJqlProjectReporter(project: string, reporter: string, summary: Option<string>)
    requires project != "" && reporter != "" && !Truthy(summary)
    ensures BuildJql(Some(project), Some(reporter), summary)
            == Clause("project", "=", project) + " AND " + Clause("reporter", "=", reporter)
  {
    var p, r := Clause("project", "=", project), Clause("reporter", "=", reporter);
    assert JqlClauses(Some(project), Some(reporter), summary) == [p, r];
    assert [p, r][1..] == [r];
    assert Join([p, r], " AND ") == p + " AND " + r;
  }

  /** A project and a summary: project first, joined by " AND ". */
  lemma BuildJqlProjectSummary(project: string, reporter: Option<string>, summary: string)
    requires project != "" && !Truthy(reporter) && summary != ""
    ensures BuildJql(Some(project), reporter, Some(summary))
            == Clause("project", "=", project) + " AND " + Clause("summary", "~", summary)
  {
    var p, s := Clause("project", "=", project), Clause("summary", "~", summary);
    assert EscapeSummary(summary) == summary;
    assert JqlClauses(Some(project), reporter, Some(summary)) == [p, s];
    assert [p, s][1..] == [s];
    assert Join([p, s], " AND ") == p + " AND " + s;
  }

  /** A reporter and a summary: reporter first, joined by " AND ". */
  lemma BuildJqlReporterSummary(project: Option<string>, reporter: string, summary: string)
    requires !Truthy(project) && reporter != "" && summary != ""
    ensures BuildJql(project, Some(reporter), Some(summary))
            == Clause("reporter", "=", reporter) + " AND " + Clause("summary", "~", summary)
  {
    var r, s := Clause("reporter", "=", reporter), Clause("summary", "~", summary);
    assert EscapeSummary(summary) == summary;
    assert JqlClauses(project, Some(reporter), Some(summary)) == [r, s];
    assert [r, s][1..] == [s];
    assert Join([r, s], " AND ") == r + " AND " + s;
  }

  /** A summary with a double quote in it lands in the query unescaped. */
  lemma BuildJqlQuoteExample()
    ensures BuildJql(None, None, Some("a\"b")) == "summary ~ \"a\"b\""
  {
    var c := Clause("summary", "~", "a\"b");
    assert EscapeSummary("a\"b") == "a\"b";
    assert JqlClauses(None, None, Some("a\"b")) == [c];
    assert Join([c], " AND ") == c;
  }

  // ---------------------------------------------------------------------------
  // Paging
  // ---------------------------------------------------------------------------

  /** An issue as the output reads it: `key` and `fields.summary`, None when absent. */
  datatype Issue = Issue(key: Option<string>, summary: Option<string>)

  /** One search response: a page of issues with the server's `total` (None when absent),
      or a request that raised. `HttpError` carries the error status of `raise_for_status`,
      and stands equally for a timeout, a connection error or a body that is not JSON: `main`
      gives status 3 for every exception of the search. */
  datatype Response = Page(issues: seq<Issue>, total: Option<int>) | HttpError(status: int)

  /** Why a search gives no list: the JQL was empty, the server answered with an error, or
      the server's responses ran out while the loop still asked for more. */
  datatype SearchError = EmptyJql | HttpFailure(status: int) | OutOfResponses

  /** The outcome of a search and the `startAt` value of every request sent. */
  datatype Search = Search(result: Result<seq<Issue>, SearchError>, starts: seq<int>)

  /** The paging loop from response `k` on, with `acc` collected so far, `total` the total
      remembered so far and `startAt` the offset of the next request. */
  function Paginate(rs: seq<Response>, k: nat, acc: seq<Issue>, total: Option<int>, startAt: int): Search
    requires k <= |rs|
    decreases |rs| - k
  {
    if k == |rs| then Search(Failure(OutOfResponses), [startAt])
    else
      match rs[k]
      case HttpError(status) => Search(Failure(HttpFailure(status)), [startAt])
      case Page(issues, pageTotal) =>
        var collected := acc + issues;
        var known := if total.None? then pageTotal else total;
        if |issues| == 0 || (known.Some? && |collected| >= known.value) then Search(Success(collected), [startAt])
        else
          var rest := Paginate(rs, k + 1, collected, known, startAt + |issues|);
          Search(rest.result, [startAt] + rest.starts)
  }

  /** One response of the paging loop: an error ends it, a page that meets the stop condition
      ends it with the issues collected, any other page moves to the next request. */
  lemma PaginateAt(rs: seq<Response>, k: nat, acc: seq<Issue>, total: Option<int>, startAt: int)
    requires k < |rs|
    ensures rs[k].HttpError? ==> Paginate(rs, k, acc, total, startAt) == Search(Failure(HttpFailure(rs[k].status)), [startAt])
    ensures rs[k].Page? ==>
              var collected, known := acc + rs[k].issues, if total.None? then rs[k].total else total;
              var next := Paginate(rs, k + 1, collected, known, startAt + |rs[k].issues|);
              Paginate(rs, k, acc, total, startAt)
              == if |rs[k].issues| == 0 || (known.Some? && |collected| >= known.value) then Search(Success(collected), [startAt])
                 else Search(next.result, [startAt] + next.starts)
  {
  }

  /** The paging loop seen from request `k`, with the offsets `starts` already sent: each way
      response `k` ends the loop, or the state the loop moves on to. */
  lemma PagingStep(rs: seq<Response>, k: nat, acc: seq<Issue>, total: Option<int>, startAt: int,
                   starts: seq<int>, whole: Search)
    requires k < |rs|
    requires whole == Search(Paginate(rs, k, acc, total, startAt).result, starts + Paginate(rs, k, acc, total, startAt).starts)
    ensures rs[k].HttpError? ==> whole == Search(Failure(HttpFailure(rs[k].status)), starts + [startAt])
    ensures rs[k].Page? ==>
              var collected, known := acc + rs[k].issues, if total.None? then rs[k].total else total;
              var next := Paginate(rs, k + 1, collected, known, startAt + |rs[k].issues|);
              if |rs[k].issues| == 0 || (known.Some? && |collected| >= known.value) then
                whole == Search(Success(collected), starts + [startAt])
              else
                whole == Search(next.result, (starts + [startAt]) + next.starts)
  {
    PaginateAt(rs, k, acc, total, startAt);
    if rs[k].Page? {
      var collected, known := acc + rs[k].issues, if total.None? then rs[k].total else total;
      var next := Paginate(rs, k + 1, collected, known, startAt + |rs[k].issues|);
      assert starts + ([startAt] + next.starts) == (starts + [startAt]) + next.starts;
    }
  }

  /** What `search_jira` does with the responses the server gives, in order. */
  function SearchSpec(jql: string, rs: seq<Response>): Search {
    if jql == "" then Search(Failure(EmptyJql), []) else Paginate(rs, 0, [], None, 0)
  }

  /** `search_jira`: refuse an empty query; then request pages from offset 0, collect each
      page's issues, remember the first reported total, and stop on an empty page or once
      the collected count reaches that total, advancing the offset by the issues fetched. */
  method SearchJira(jql: string, rs: seq<Response>) returns (outcome: Search)
    ensures outcome == SearchSpec(jql, rs)
  {
    if jql == "" {
      return Search(Failure(EmptyJql), []);
    }
    var allIssues: seq<Issue> := [];
    var startAt := 0;
    var total: Option<int> := None;
    var sent := 0;
    var starts: seq<int> := [];
    ghost var whole := Paginate(rs, 0, [], None, 0);
    assert SearchSpec(jql, rs) == whole;
    assert whole.starts == starts + whole.starts;
    while true
      invariant sent <= |rs|
      invariant whole == Search(Paginate(rs, sent, allIssues, total, startAt).result,
                                starts + Paginate(rs, sent, allIssues, total, startAt).starts)
      decreases |rs| - sent
    {
      ghost var here := Paginate(rs, sent, allIssues, total, startAt);
      if sent == |rs| {
        assert here == Search(Failure(OutOfResponses), [startAt]);
        return Search(Failure(OutOfResponses), starts + [startAt]);
      }
      var resp := rs[sent];
      PagingStep(rs, sent, allIssues, total, startAt, starts, whole);
      if resp.HttpError? {
        return Search(Failure(HttpFailure(resp.status)), starts + [startAt]);
      }
      var issues := resp.issues;
      var fetched := |issues|;
      allIssues := allIssues + issues;
      if total.None? {
        total := resp.total;
      }
      if fetched == 0 || (total.Some? && |allIssues| >= total.value) {
        return Search(Success(allIssues), starts + [startAt]);
      }
      starts := starts + [startAt];
      startAt := startAt + fetched;
      sent := sent + 1;
    }
  }

  /** The first `n` responses are all pages. */
  ghost predicate AllPages(rs: seq<Response>, n: nat) {
    n <= |rs| && forall j :: 0 <= j < n ==> rs[j].Page?
  }

  /** The issues of the first `n` pages, in order. */
  ghost function Fetched(rs: seq<Response>, n: nat): seq<Issue>
    requires AllPages(rs, n)
  {
    if n == 0 then [] else Fetched(rs, n - 1) + rs[n - 1].issues
  }

  /** The first total reported among the first `n` pages. */
  ghost function FirstTotal(rs: seq<Response>, n: nat): Option<int>
    requires AllPages(rs, n)
  {
    if n == 0 then None
    else if FirstTotal(rs, n - 1).Some? then FirstTotal(rs, n - 1)
    else rs[n - 1].total
  }

  /** The loop stops after the `n`-th page. */
  ghost predicate StopsAfter(rs: seq<Response>, n: nat)
    requires 1 <= n && AllPages(rs, n)
  {
    |rs[n - 1].issues| == 0 || (FirstTotal(rs, n).Some? && |Fetched(rs, n)| >= FirstTotal(rs, n).value)
  }

  /** The requests of the paging loop from request `k` on: request `j` is sent at the offset
      equal to the number of issues fetched before it, and every page before the last request
      is a page after which the loop does not stop. */
  lemma {:induction false} PaginateOffsets(rs: seq<Response>, k: nat)
    requires AllPages(rs, k)
    requires forall j :: 1 <= j <= k ==> !StopsAfter(rs, j)
    ensures var s := Paginate(rs, k, Fetched(rs, k), FirstTotal(rs, k), |Fetched(rs, k)|);
            && 1 <= |s.starts| <= |rs| - k + 1
            && AllPages(rs, k + |s.starts| - 1)
            && (forall j :: 0 <= j < |s.starts| ==> s.starts[j] == |Fetched(rs, k + j)|)
            && (forall j :: 1 <= j < k + |s.starts| ==> !StopsAfter(rs, j))
    decreases |rs| - k
  {
    var s := Paginate(rs, k, Fetched(rs, k), FirstTotal(rs, k), |Fetched(rs, k)|);
    if k < |rs| && rs[k].Page? {
      assert AllPages(rs, k + 1);
      assert Fetched(rs, k + 1) == Fetched(rs, k) + rs[k].issues;
      if !StopsAfter(rs, k + 1) {
        forall j | 1 <= j <= k + 1 ensures !StopsAfter(rs, j) {
        }
        PaginateOffsets(rs, k + 1);
        var rest := Paginate(rs, k + 1, Fetched(rs, k + 1), FirstTotal(rs, k + 1), |Fetched(rs, k + 1)|);
        assert s.starts == [|Fetched(rs, k)|] + rest.starts;
        forall j | 0 <= j < |s.starts| ensures s.starts[j] == |Fetched(rs, k + j)| {
          if j > 0 {
            assert s.starts[j] == rest.starts[j - 1];
          }
        }
      }
    }
  }

  /** How the paging loop from request `k` on ends: a successful search returns exactly the
      issues of the pages up to the one it stopped after; a failure is the last response's
      HTTP error, or the responses running out after the last one. */
  lemma {:induction false} PaginateOutcome(rs: seq<Response>, k: nat)
    requires AllPages(rs, k)
    ensures var s := Paginate(rs, k, Fetched(rs, k), FirstTotal(rs, k), |Fetched(rs, k)|);
            && (s.result.Success? ==>
                  && k + |s.starts| <= |rs|
                  && AllPages(rs, k + |s.starts|)
                  && StopsAfter(rs, k + |s.starts|)
                  && s.result.value == Fetched(rs, k + |s.starts|))
            && (s.result.Failure? && s.result.error.HttpFailure? ==>
                  k + |s.starts| <= |rs| && rs[k + |s.starts| - 1] == HttpError(s.result.error.status))
            && (s.result.Failure? ==> s.result.error.HttpFailure? || s.result.error == OutOfResponses)
            && (s.result == Failure(OutOfResponses) ==> k + |s.starts| == |rs| + 1)
    decreases |rs| - k
  {
    var s := Paginate(rs, k, Fetched(rs, k), FirstTotal(rs, k), |Fetched(rs, k)|);
    if k < |rs| && rs[k].Page? {
      assert AllPages(rs, k + 1);
      assert Fetched(rs, k + 1) == Fetched(rs, k) + rs[k].issues;
      if !StopsAfter(rs, k + 1) {
        PaginateOutcome(rs, k + 1);
        var rest := Paginate(rs, k + 1, Fetched(rs, k + 1), FirstTotal(rs, k + 1), |Fetched(rs, k + 1)|);
        assert s == Search(rest.result, [|Fetched(rs, k)|] + rest.starts);
      }
    }
  }

  /** The paging loop, described without the loop: the offsets of its requests and how it
      ends, together. */
  lemma PaginateCharacterized(rs: seq<Response>, k: nat)
    requires AllPages(rs, k)
    requires forall j :: 1 <= j <= k ==> !StopsAfter(rs, j)
    ensures var s := Paginate(rs, k, Fetched(rs, k), FirstTotal(rs, k), |Fetched(rs, k)|);
            && 1 <= |s.starts| <= |rs| - k + 1
            && AllPages(rs, k + |s.starts| - 1)
            && (forall j :: 0 <= j < |s.starts| ==> s.starts[j] == |Fetched(rs, k + j)|)
            && (forall j :: 1 <= j < k + |s.starts| ==> !StopsAfter(rs, j))
            && (s.result.Success? ==>
                  && k + |s.starts| <= |rs|
                  && AllPages(rs, k + |s.starts|)
                  && StopsAfter(rs, k + |s.starts|)
                  && s.result.value == Fetched(rs, k + |s.starts|))
            && (s.result.Failure? && s.result.error.HttpFailure? ==>
                  k + |s.starts| <= |rs| && rs[k + |s.starts| - 1] == HttpError(s.result.error.status))
            && (s.result.Failure? ==> s.result.error.HttpFailure? || s.result.error == OutOfResponses)
            && (s.result == Failure(OutOfResponses) ==> k + |s.starts| == |rs| + 1)
  {
    PaginateOffsets(rs, k);
    PaginateOutcome(rs, k);
  }

  /** The search from the first request, in the terms of `PaginateCharacterized`. */
  lemma SearchCharacterized(jql: string, rs: seq<Response>)
    requires jql != ""
    ensures var s := SearchSpec(jql, rs);
            && 1 <= |s.starts| <= |rs| + 1
            && s.starts[0] == 0
            && AllPages(rs, |s.starts| - 1)
            && (forall j :: 0 <= j < |s.starts| ==> s.starts[j] == |Fetched(rs, j)|)
            && (forall j :: 1 <= j < |s.starts| ==> !StopsAfter(rs, j))
            && (s.result.Success? ==>
                  |s.starts| <= |rs| && AllPages(rs, |s.starts|) && StopsAfter(rs, |s.starts|)
                  && s.result.value == Fetched(rs, |s.starts|))
            && (s.result.Failure? && s.result.error.HttpFailure? ==>
                  |s.starts| <= |rs| && rs[|s.starts| - 1] == HttpError(s.result.error.status))
            && (s.result.Failure? ==> s.result.error.HttpFailure? || s.result.error == OutOfResponses)
  {
    assert AllPages(rs, 0);
    PaginateCharacterized(rs, 0);
  }

  /** An empty query is refused before any request is sent. */
  lemma EmptyJqlSendsNothing(rs: seq<Response>)
    ensures SearchSpec("", rs) == Search(Failure(EmptyJql), [])
  {
  }

  /** A server that reports a total of 3 and serves pages of two and one issues: two requests,
      at offsets 0 and 2, and all three issues in order. */
  lemma PaginateExample(a: Issue, b: Issue, c: Issue)
    ensures SearchSpec("project = \"P\"", [Page([a, b], Some(3)), Page([c], None), Page([], None)])
            == Search(Success([a, b, c]), [0, 2])
  {
    var rs := [Page([a, b], Some(3)), Page([c], None), Page([], None)];
    assert Paginate(rs, 1, [a, b], Some(3), 2) == Search(Success([a, b] + [c]), [2]);
    assert [a, b] + [c] == [a, b, c];
    assert [] + [a, b] == [a, b];
    assert Paginate(rs, 0, [], None, 0) == Search(Success([a, b, c]), [0] + [2]);
  }

  // ---------------------------------------------------------------------------
  // Output and main
  // ---------------------------------------------------------------------------

  /** `f"{key} — {summary}"`: a missing key prints as "None", a missing summary as "". */
  function IssueLine(issue: Issue): string {
    PyStr(issue.key) + " — " + issue.summary.GetOr("")
  }

  function IssueLines(issues: seq<Issue>): (ls: seq<string>)
    ensures |ls| == |issues|
    ensures forall i :: 0 <= i < |issues| ==> ls[i] == IssueLine(issues[i])
  {
    seq(|issues|, i requires 0 <= i < |issues| => IssueLine(issues[i]))
  }

  /** `write_text_lines`: one line per issue, in order. */
  method WriteTextLines(issues: seq<Issue>, fp: TextStream)
    modifies fp
    ensures fp.text == old(fp.text) + Lines(IssueLines(issues))
  {
    ghost var start := fp.text;
    for i := 0 to |issues|
      invariant fp.text == start + Lines(IssueLines(issues[..i]))
    {
      var issue := issues[i];
      assert IssueLines(issues[..i + 1]) == IssueLines(issues[..i]) + [IssueLine(issue)];
      LinesSnoc(IssueLines(issues[..i]), IssueLine(issue));
      fp.Write(PyStr(issue.key) + " — " + issue.summary.GetOr("") + "\n");
    }
    assert issues[..|issues|] == issues;
  }

  /** Each issue is one line of the output: cutting the text at newlines gives the issues'
      lines back, provided no key or summary holds a newline. */
  lemma IssueOutputLines(issues: seq<Issue>)
    requires forall i :: 0 <= i < |issues| ==> '\n' !in PyStr(issues[i].key) && '\n' !in issues[i].summary.GetOr("")
    ensures Split(Lines(IssueLines(issues)), '\n') == IssueLines(issues) + [""]
  {
    var ls := IssueLines(issues);
    forall i | 0 <= i < |ls| ensures '\n' !in ls[i] {
      assert ls[i] == PyStr(issues[i].key) + " — " + issues[i].summary.GetOr("");
    }
    LinesSplit(ls);
  }

  /** The `[jira]` section of the configuration, as `read_config` returns it. */
  datatype JiraConfig = JiraConfig(url: Option<string>, token: Option<string>, defaultProject: Option<string>)

  datatype JiraArgs = JiraArgs(project: Option<string>, reporter: Option<string>, summary: Option<string>)

  /** How `main` ends: an exit status with the text written in text output mode, or the
      server's responses running out. */
  datatype JiraOutcome = Exit(code: int, output: string) | ResponsesExhausted

  /** The query `main` sends: `--project`, else the configured default project. It is empty,
      so that `main` refuses to search, exactly when neither a project (given or configured),
      a reporter nor a summary is there, and a given project wins over the configured one. */
  function MainJql(args: JiraArgs, cfg: JiraConfig): (jql: string)
    ensures jql == "" <==> !Truthy(args.project) && !Truthy(cfg.defaultProject) && !Truthy(args.reporter) && !Truthy(args.summary)
    ensures Truthy(args.project) ==> StartsWith(jql, Clause("project", "=", args.project.value))
  {
    BuildJql(if Truthy(args.project) then args.project else cfg.defaultProject, args.reporter, args.summary)
  }

  /** With `--project` absent, the configured default project is the first clause. */
  lemma DefaultProjectFallback(args: JiraArgs, cfg: JiraConfig)
    requires !Truthy(args.project) && Truthy(cfg.defaultProject)
    ensures StartsWith(MainJql(args, cfg), Clause("project", "=", cfg.defaultProject.value))
  {
    var jql := BuildJql(cfg.defaultProject, args.reporter, args.summary);
    assert MainJql(args, cfg) == jql;
  }

  /** The configuration was read, has a url and a token, and the query is not empty. */
  predicate Ready(args: JiraArgs, config: Result<JiraConfig, string>) {
    && config.Success?
    && Truthy(config.value.url) && Truthy(config.value.token)
    && MainJql(args, config.value) != ""
  }

  /** `main`, text output, with the configuration read (or the read's error) and the server's
      responses as inputs: status 2 for an unreadable configuration, a missing url or token,
      or an empty query; status 3 for a failed search; otherwise status 0 with the issue
      lines of a successful search. */

  function Run(args: JiraArgs, config: Result<JiraConfig, string>, rs: seq<Response>): (r: JiraOutcome)
    ensures r.Exit? && r.code == 2 <==>
              || config.Failure?
              || !Truthy(config.value.url) || !Truthy(config.value.token)
              || MainJql(args, config.value) == ""
    ensures r.Exit? && r.code == 0 ==>
              && config.Success?
              && SearchSpec(MainJql(args, config.value), rs).result.Success?
              && r.output == Lines(IssueLines(SearchSpec(MainJql(args, config.value), rs).result.value))
    ensures r.Exit? ==> r.code in {0, 2, 3}
    ensures r.Exit? && r.code == 3 ==>
              config.Success? && SearchSpec(MainJql(args, config.value), rs).result.Failure?
    ensures r.ResponsesExhausted? <==>
              Ready(args, config) && SearchSpec(MainJql(args, config.value), rs).result == Failure(OutOfResponses)
    ensures Ready(args, config) && SearchSpec(MainJql(args, config.value), rs).result.Success? ==>
              r == Exit(0, Lines(IssueLines(SearchSpec(MainJql(args, config.value), rs).result.value)))
    ensures Ready(args, config) && SearchSpec(MainJql(args, config.value), rs).result.Failure?
            && SearchSpec(MainJql(args, config.value), rs).result != Failure(OutOfResponses) ==>
              r == Exit(3, "")
  {
    match config
    case Failure(_) => Exit(2, "")
    case Success(cfg) =>
      if !Truthy(cfg.url) || !Truthy(cfg.token) then Exit(2, "")
      else
        var jql := MainJql(args, cfg);
        if jql == "" then Exit(2, "")
        else
          var s := SearchSpec(jql, rs);
          match s.result
          case Failure(OutOfResponses) => ResponsesExhausted
          case Failure(_) => Exit(3, "")
          case Success(issues) => Exit(0, Lines(IssueLines(issues)))
  }
}
