/** The verdict engine `getJiraInfo`: parses the flags and the ticket key, loads the ticket
    and the commit list, and applies its rules in order, the first failing rule deciding
    the verdict. The two lookups are inputs: `fetchReply` and `fetchCommits` stand for the
    tracker and GitHub calls; the tracker's reply is read through `GetIssue`. */
module Verdict {
  import opened Wrappers
  import opened Text
  import opened Config
  import opened GitHub
  import opened TicketKey
  import opened PrFlags
  import opened JiraStatus
  import opened GitHubStatus

  /** The record `getJiraInfo` resolves. `jiraStatus` and `numCommits` are `None` when they
      are null or, for a title without a key, absent. */
  datatype JiraInfo = JiraInfo(
    issueKey: Option<string>,
    jiraStatus: Option<string>,
    numCommits: Option<nat>,
    isMaintMerge: bool,
    prFlags: Flags,
    pass: bool,
    description: string,
    extendedDescription: Option<string>,
    badCommit: Option<CommitInfo>)

  /** Why the evaluation fails instead of producing a verdict: a lookup rejected. */
  datatype Failure = TrackerFailure(err: TrackerError) | GitHubFailure(message: string)

  const NoKeyMessage := "Pull request title must start with a Jira ticket ID"
  const DefaultApprovedStatuses := "Accepted, Reviewing, Review Feedback"
  const TooManyCommitsMessage := "PR has more than 100 commits; please rebase and squash"
  /** The hint on a commit for another ticket, around the setting that waives the rule. */
  const WaiverSetting := "DISABLE_JIRA_ISSUE_MATCH=true"
  const MismatchHint := "Please fix your commit message to have the same ticket number as the pull request. If the inconsistency is intentional, you can disable this warning with "
    + WaiverSetting + " in the PR description."

  /** The number of commits one page of the commit list holds, and so the most it reports. */
  const PageSize: nat := 100

  /** A merge from a maintenance branch: into "master" or "main", from a branch whose name
      starts with "maint/", within one repository. */
  predicate IsMaintMerge(pr: PullRequest)
  {
    (pr.base.ref == "master" || pr.base.ref == "main")
    && StartsWith(pr.head.ref, "maint/")
    && pr.base.repo.fullName == pr.head.repo.fullName
  }

  /** How JavaScript renders a string that may be null. */
  function NullableText(v: Option<string>): string
  {
    if v.Some? then v.value else "null"
  }

  /** JIRA_APPROVED_STATUSES, or its default. */
  function ApprovedStatuses(env: Env): string
  {
    OrElse(env.jiraApprovedStatuses, DefaultApprovedStatuses)
  }

  /** The status rule fails: the check is on and the status (null reading "null") is not a
      substring of the approved-status text. */
  predicate StatusRejected(env: Env, status: Option<string>)
  {
    !Includes(ApprovedStatuses(env), NullableText(status)) && IsTrue(env.jiraStatusCheck)
  }

  function StatusMessage(issueKey: string, status: Option<string>): string
  {
    if status.None? then "Jira ticket " + issueKey + " not found"
    else "Jira ticket " + issueKey + " is not accepted; it has status " + status.value
  }

  /** A commit passes the consistency rule: its message starts with a key, and that key is
      the pull request's unless mismatches are waived. */
  predicate CommitOk(c: CommitInfo, issueKey: string, waived: bool)
  {
    ParseMessage(c.message).Some? && (ParseMessage(c.message).value == issueKey || waived)
  }

  /** The first commit from index `from` on that fails the consistency rule. */
  function FirstBadCommit(commits: seq<CommitInfo>, issueKey: string, waived: bool, from: nat): (r: Option<nat>)
    requires from <= |commits|
    ensures r.Some? ==> from <= r.value < |commits| && !CommitOk(commits[r.value], issueKey, waived)
    ensures r.Some? ==> forall i :: from <= i < r.value ==> CommitOk(commits[i], issueKey, waived)
    ensures r.None? ==> forall i :: from <= i < |commits| ==> CommitOk(commits[i], issueKey, waived)
    decreases |commits| - from
  {
    if from == |commits| then None
    else if !CommitOk(commits[from], issueKey, waived) then Some(from)
    else FirstBadCommit(commits, issueKey, waived, from + 1)
  }

  /** The verdict on a bad commit: one without a key fails validation; one with another
      key names both keys and carries the hint. */
  function CommitVerdict(info: JiraInfo, c: CommitInfo, issueKey: string): (v: JiraInfo)
    ensures v == info.(pass := false, description := v.description,
                       extendedDescription := v.extendedDescription, badCommit := Some(c))
    ensures ParseMessage(c.message).None? ==>
      v.description == "Commit message for " + Prefix(c.sha, 7) + " fails validation"
      && v.extendedDescription == info.extendedDescription
    ensures ParseMessage(c.message).Some? ==>
      v.description == "Commit " + Prefix(c.sha, 7) + " is for " + ParseMessage(c.message).value
                        + ", but the PR is for " + issueKey
      && v.extendedDescription == Some(MismatchHint)
  {
    match ParseMessage(c.message)
    case None =>
      info.(pass := false, description := "Commit message for " + Prefix(c.sha, 7) + " fails validation",
            badCommit := Some(c))
    case Some(commitKey) =>
      info.(pass := false,
            description := "Commit " + Prefix(c.sha, 7) + " is for " + commitKey + ", but the PR is for " + issueKey,
            extendedDescription := Some(MismatchHint), badCommit := Some(c))
  }

  function PassDescription(issueKey: string, summary: Option<string>): string
  {
    issueKey + " “" + NullableText(summary) + "”"
  }

  /** `jiraIssue && jiraIssue.fields.summary` */
  function Summary(issue: Option<Issue>): Option<string>
  {
    if issue.Some? then Some(issue.value.fields.summary) else None
  }

  /** Mismatched keys are waived by a truthy DISABLE_JIRA_ISSUE_MATCH flag or a maintenance merge. */
  predicate MismatchWaived(pr: PullRequest, flags: Flags)
  {
    FlagEnabled(flags, "DISABLE_JIRA_ISSUE_MATCH") || IsMaintMerge(pr)
  }

  /** The rules once the ticket and the commits are loaded: the status rule, then (when
      SEARCH_JIRA_ISSUE_IN_COMMIT is "TRUE") the first inconsistent commit, then the
      100-commit rule; a verdict that survives them passes. */
  function Evaluate(pr: PullRequest, env: Env, flags: Flags, issueKey: string, issue: Option<Issue>,
                    commits: seq<CommitInfo>): (v: JiraInfo)
    ensures v.issueKey == Some(issueKey) && v.jiraStatus == StatusName(issue)
    ensures v.numCommits == Some(|commits|) && v.isMaintMerge == IsMaintMerge(pr) && v.prFlags == flags
    ensures v.pass <==>
      && !StatusRejected(env, StatusName(issue))
      && (IsTrue(env.searchIssueInCommit) ==>
            forall i :: 0 <= i < |commits| ==> CommitOk(commits[i], issueKey, MismatchWaived(pr, flags)))
      && |commits| != PageSize
    ensures v.pass ==> v.description == PassDescription(issueKey, Summary(issue))
    ensures v.badCommit.Some? ==> v.badCommit.value in commits
  {
    var info := JiraInfo(Some(issueKey), StatusName(issue), Some(|commits|), IsMaintMerge(pr), flags,
                         false, "", None, None);
    var bad := FirstBadCommit(commits, issueKey, MismatchWaived(pr, flags), 0);
    if StatusRejected(env, StatusName(issue)) then
      info.(description := StatusMessage(issueKey, StatusName(issue)))
    else if IsTrue(env.searchIssueInCommit) && bad.Some? then
      CommitVerdict(info, commits[bad.value], issueKey)
    else if |commits| == PageSize then
      info.(description := TooManyCommitsMessage)
    else
      info.(pass := true, description := PassDescription(issueKey, Summary(issue)))
  }

  /** `getJiraInfo`. A title without a key gives the no-key verdict without loading
      anything; otherwise both lookups must succeed (the ticket's failure is reported
      first) and the rules decide. */
  function GetJiraInfo(pr: PullRequest, env: Env,
                       fetchReply: string -> Reply,
                       fetchCommits: map<string, Param> -> Result<seq<CommitInfo>, string>): (r: Result<JiraInfo, Failure>)
    ensures r.Ok? ==> r.value.prFlags == FlagsOf(pr.body)
    ensures ParseMessage(pr.title).None? ==>
      r == Ok(JiraInfo(None, None, None, false, FlagsOf(pr.body), false, NoKeyMessage, None, None))
    ensures r.Ok? && ParseMessage(pr.title).Some? ==> r.value.issueKey == ParseMessage(pr.title)
  {
    var flags := FlagsOf(pr.body);
    match ParseMessage(pr.title)
    case None => Ok(JiraInfo(None, None, None, false, flags, false, NoKeyMessage, None, None))
    case Some(issueKey) =>
      match GetIssue(fetchReply(issueKey))
      case Rejected(e) => Err(TrackerFailure(e))
      case Resolved(issue) =>
        match fetchCommits(CommitsQuery(PullRequestParams(pr)))
        case Err(e) => Err(GitHubFailure(e))
        case Ok(commits) => Ok(Evaluate(pr, env, flags, issueKey, issue, commits))
  }

  /** With a key, the verdict is the rules' verdict on what the lookups return, the
      commits being asked for in pages of 100 for the base repository; a rejected
      ticket lookup fails the evaluation whatever the commit lookup does. */
  lemma LoadedVerdict(pr: PullRequest, env: Env,
                      fetchReply: string -> Reply,
                      fetchCommits: map<string, Param> -> Result<seq<CommitInfo>, string>)
    requires ParseMessage(pr.title).Some?
    ensures var k := ParseMessage(pr.title).value;
      var q := CommitsQuery(PullRequestParams(pr));
      var r := GetJiraInfo(pr, env, fetchReply, fetchCommits);
      var t := GetIssue(fetchReply(k));
      && (t.Rejected? ==> r == Err(TrackerFailure(fetchReply(k).err)))
      && (t.Resolved? && fetchCommits(q).Err? ==> r == Err(GitHubFailure(fetchCommits(q).error)))
      && (t.Resolved? && fetchCommits(q).Ok? ==>
            r == Ok(Evaluate(pr, env, FlagsOf(pr.body), k, t.value, fetchCommits(q).value)))
  {
  }

  /** With the status rule failing, the tracker's reply reaches the verdict: a missing
      ticket is reported as not found, a found one with its status. */
  lemma {:induction false} TicketReplyReachesVerdict(pr: PullRequest, env: Env,
                                  fetchReply: string -> Reply,
                                  fetchCommits: map<string, Param> -> Result<seq<CommitInfo>, string>)
    requires ParseMessage(pr.title).Some?
    requires fetchCommits(CommitsQuery(PullRequestParams(pr))).Ok?
    ensures var k := ParseMessage(pr.title).value;
      var reply := fetchReply(k);
      var r := GetJiraInfo(pr, env, fetchReply, fetchCommits);
      && (reply.Failed? && IsNotFound(reply.err) && StatusRejected(env, None) ==>
            r.Ok? && !r.value.pass && r.value.description == "Jira ticket " + k + " not found")
      && (reply.Replied? && reply.fields.Some? && StatusRejected(env, Some(reply.fields.value.statusName)) ==>
            r.Ok? && !r.value.pass
            && r.value.description == "Jira ticket " + k + " is not accepted; it has status " + reply.fields.value.statusName)
  {
    var k := ParseMessage(pr.title).value;
    var t := GetIssue(fetchReply(k));
    var commits := fetchCommits(CommitsQuery(PullRequestParams(pr))).value;
    LoadedVerdict(pr, env, fetchReply, fetchCommits);
    if t.Resolved? && StatusRejected(env, StatusName(t.value)) {
      StatusRuleFirst(pr, env, FlagsOf(pr.body), k, t.value, commits);
    }
  }

  /** A failing status rule decides the verdict before the commits are looked at: "not
      found" for a missing ticket, the status otherwise. */
  lemma StatusRuleFirst(pr: PullRequest, env: Env, flags: Flags, issueKey: string, issue: Option<Issue>,
                        commits: seq<CommitInfo>)
    requires StatusRejected(env, StatusName(issue))
    ensures var v := Evaluate(pr, env, flags, issueKey, issue, commits);
      && !v.pass && v.badCommit.None? && v.extendedDescription.None?
      && (issue.None? ==> v.description == "Jira ticket " + issueKey + " not found")
      && (issue.Some? ==>
            v.description == "Jira ticket " + issueKey + " is not accepted; it has status " + issue.value.fields.statusName)
  {
  }

  /** Where "Accepted" and "Review" stand in the default approved statuses. */
  lemma DefaultStatusesLayout()
    ensures DefaultApprovedStatuses[0..8] == "Accepted" && DefaultApprovedStatuses[10..16] == "Review"
  {
    assert DefaultApprovedStatuses == "Accepted" + ", " + "Review" + "ing, Review Feedback";
  }

  /** The status rule is a substring test on the approved-status text, not a match against
      its comma-separated entries: with the default text, the status "Review" is accepted
      because "Reviewing" contains it. */
  lemma ReviewIsAccepted(env: Env)
    requires env.jiraApprovedStatuses.None?
    ensures !StatusRejected(env, Some("Review"))
  {
    assert ApprovedStatuses(env) == DefaultApprovedStatuses;
    DefaultStatusesLayout();
    IncludesAt(DefaultApprovedStatuses, "Review", 10);
  }

  /** With the check on, a ticket that is not found fails the default rule: the text
      "null" is not part of the default approved statuses. */
  lemma {:induction false} MissingTicketRejected(env: Env)
    requires env.jiraApprovedStatuses.None? && IsTrue(env.jiraStatusCheck)
    ensures StatusRejected(env, None)
  {
    assert ApprovedStatuses(env) == DefaultApprovedStatuses;
    NotIncluded(DefaultApprovedStatuses, "null");
  }

  /** A text in which 'n' is never followed by 'u' contains no string starting with "nu". */
  lemma {:induction false} NotIncluded(s: string, n: string)
    requires |n| > 1 && n[0] == 'n' && n[1] == 'u'
    requires forall i :: 0 <= i < |s| - 1 ==> !(s[i] == 'n' && s[i + 1] == 'u')
    ensures !Includes(s, n)
    decreases |s|
  {
    if |s| > 0 {
      NotIncluded(s[1..], n);
    }
  }

  /** With commit matching on and the status rule passing, the first inconsistent commit in
      list order decides the verdict; only a commit with another key carries the hint. */
  lemma FirstBadCommitDecides(pr: PullRequest, env: Env, flags: Flags, issueKey: string, issue: Option<Issue>,
                              commits: seq<CommitInfo>, i: nat)
    requires !StatusRejected(env, StatusName(issue)) && IsTrue(env.searchIssueInCommit)
    requires i < |commits| && !CommitOk(commits[i], issueKey, MismatchWaived(pr, flags))
    requires forall j :: 0 <= j < i ==> CommitOk(commits[j], issueKey, MismatchWaived(pr, flags))
    ensures var v := Evaluate(pr, env, flags, issueKey, issue, commits);
      && !v.pass && v.badCommit == Some(commits[i])
      && (v.extendedDescription.Some? <==> ParseMessage(commits[i].message).Some?)
      && (ParseMessage(commits[i].message).None? ==>
            v.description == "Commit message for " + Prefix(commits[i].sha, 7) + " fails validation")
      && (ParseMessage(commits[i].message).Some? ==>
            v.description == "Commit " + Prefix(commits[i].sha, 7) + " is for " + ParseMessage(commits[i].message).value
                             + ", but the PR is for " + issueKey
            && v.extendedDescription == Some(MismatchHint))
  {
    var bad := FirstBadCommit(commits, issueKey, MismatchWaived(pr, flags), 0);
    assert bad.Some?;
    assert bad.value == i;
  }

  /** The hint on a mismatched commit tells how to waive the rule: it names the
      DISABLE_JIRA_ISSUE_MATCH flag set to true. */
  lemma {:induction false} MismatchHintNamesWaiver()
    ensures Includes(MismatchHint, "DISABLE_JIRA_ISSUE_MATCH=true")
  {
    IncludesMiddle("Please fix your commit message to have the same ticket number as the pull request. If the inconsistency is intentional, you can disable this warning with ",
                   WaiverSetting, " in the PR description.");
  }

  /** When mismatches are waived, only commits without a key fail the rule. */
  lemma WaiverKeepsKeyCheck(commits: seq<CommitInfo>, issueKey: string)
    ensures forall i :: 0 <= i < |commits| ==>
      (CommitOk(commits[i], issueKey, true) <==> ParseMessage(commits[i].message).Some?)
  {
  }

  /** Exactly one full page of commits fails the verdict even when every other rule
      passes: the status is approved, and commit matching is off or every commit is
      consistent. */
  lemma FullPageFails(pr: PullRequest, env: Env, flags: Flags, issueKey: string, issue: Option<Issue>,
                      commits: seq<CommitInfo>)
    requires !StatusRejected(env, StatusName(issue))
    requires IsTrue(env.searchIssueInCommit) ==>
      forall i :: 0 <= i < |commits| ==> CommitOk(commits[i], issueKey, MismatchWaived(pr, flags))
    requires |commits| == PageSize
    ensures var v := Evaluate(pr, env, flags, issueKey, issue, commits);
      !v.pass && v.description == TooManyCommitsMessage
  {
  }

  /** The default approved-status text accepts the status "Accepted". */
  lemma AcceptedIsApproved(env: Env)
    requires env.jiraApprovedStatuses.None?
    ensures !StatusRejected(env, Some("Accepted"))
  {
    assert ApprovedStatuses(env) == DefaultApprovedStatuses;
    DefaultStatusesLayout();
    IncludesAt(DefaultApprovedStatuses, "Accepted", 0);
  }

  /** A ticket in status "Accepted" and a single commit naming the same ticket pass, with
      the ticket's summary in the description. */
  lemma {:induction false} AcceptedSingleCommitPasses(pr: PullRequest, env: Env, flags: Flags, issueKey: string,
                                    summary: string, c: CommitInfo)
    requires env.jiraApprovedStatuses.None? && ParseMessage(c.message) == Some(issueKey)
    ensures var v := Evaluate(pr, env, flags, issueKey, Some(Issue(IssueFields("Accepted", summary))), [c]);
      v.pass && v.description == issueKey + " “" + summary + "”"
  {
    AcceptedIsApproved(env);
  }

  /** A merge from a maintenance branch passes the consistency rule with a commit for
      another ticket. */
  lemma {:induction false} MaintMergeWaivesMismatch(pr: PullRequest, env: Env, flags: Flags, issueKey: string,
                                  summary: string, c: CommitInfo)
    requires env.jiraApprovedStatuses.None? && IsMaintMerge(pr)
    requires ParseMessage(c.message).Some? && ParseMessage(c.message).value != issueKey
    ensures Evaluate(pr, env, flags, issueKey, Some(Issue(IssueFields("Accepted", summary))), [c]).pass
  {
    AcceptedIsApproved(env);
  }
}
