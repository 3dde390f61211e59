/** The publishing rule `touch`: which commit statuses a verdict turns into, with what pass
    value and description. Sending them is `createStatus`, outside this module. */
module Touch {
  import opened Wrappers
  import opened Text
  import opened Config
  import opened GitHub
  import opened PrFlags
  import opened Verdict

  /** A status to publish: its context, whether it passes, its link and its description. */
  datatype StatusUpdate = StatusUpdate(context: string, pass: bool, targetUrl: Option<string>, description: string)

  const MaintMergeReminder := "Reminder: use a MERGE COMMIT and new ticket in the message."

  /** DO_NOT_TOUCH_REPOS split at its commas, read when the module loads. */
  function DoNotTouchRepos(env: Env): seq<string>
  {
    SplitComma(OrElse(env.doNotTouchRepos, ""))
  }

  /** `owner/repo` of the pull request's base is one of the listed repositories. */
  predicate Untouchable(env: Env, pr: PullRequest)
  {
    pr.base.repo.ownerLogin + "/" + pr.base.repo.name in DoNotTouchRepos(env)
  }

  /** The single-commit rule: exactly one commit passes; more than one passes for a merge
      from a maintenance branch or with the ALLOW_MANY_COMMITS flag; an unknown count fails. */
  predicate MultiCommitPass(info: JiraInfo)
  {
    || info.numCommits == Some(1)
    || (info.numCommits.Some? && info.numCommits.value > 1
        && (info.isMaintMerge || FlagEnabled(info.prFlags, "ALLOW_MANY_COMMITS")))
  }

  /** `"" + numCommits`. */
  function CountText(n: Option<nat>): string
  {
    if n.Some? then DecimalString(n.value) else "undefined"
  }

  /** The description of the single-commit status. */
  function MultiCommitMessage(info: JiraInfo): string
  {
    if info.numCommits == Some(0) then "No commits found on PR"
    else if info.numCommits == Some(1) then "This PR includes exactly 1 commit!"
    else "This PR has " + CountText(info.numCommits) + " commits" + (if MultiCommitPass(info) then "" else "; consider squashing:")
  }

  /** The statuses `touch` publishes for a verdict, `infoUrl` standing for the link to the
      verdict's page: none for a listed repository or a pull request that is not open;
      otherwise the ticket status, then the single-commit status unless ALLOW_MANY_COMMITS
      is "TRUE", then a failing reminder for a merge from a maintenance branch. */
  function Touch(pr: PullRequest, info: JiraInfo, env: Env, infoUrl: string): (updates: seq<StatusUpdate>)
    ensures Untouchable(env, pr) || pr.state != "open" ==> updates == []
    ensures !Untouchable(env, pr) && pr.state == "open" ==>
      && 1 <= |updates| <= 3
      && updates[0] == StatusUpdate("jira-ticket", info.pass, Some(infoUrl), info.description)
  {
    if Untouchable(env, pr) || pr.state != "open" then []
    else
      [StatusUpdate("jira-ticket", info.pass, Some(infoUrl), info.description)]
      + (if !IsTrue(env.allowManyCommits)
         then [StatusUpdate("single-commit", MultiCommitPass(info), None, MultiCommitMessage(info))]
         else [])
      + (if info.isMaintMerge then [StatusUpdate("maint-merge", false, None, MaintMergeReminder)] else [])
  }

  /** The contexts of the statuses published. */
  function Contexts(updates: seq<StatusUpdate>): seq<string>
  {
    seq(|updates|, k requires 0 <= k < |updates| => updates[k].context)
  }

  /** Which statuses are published, in order: the ticket status always; the single-commit
      status exactly when ALLOW_MANY_COMMITS is not "TRUE"; the reminder exactly for a merge
      from a maintenance branch. */
  lemma PublishedContexts(pr: PullRequest, info: JiraInfo, env: Env, infoUrl: string)
    requires !Untouchable(env, pr) && pr.state == "open"
    ensures Contexts(Touch(pr, info, env, infoUrl))
      == ["jira-ticket"]
         + (if IsTrue(env.allowManyCommits) then [] else ["single-commit"])
         + (if info.isMaintMerge then ["maint-merge"] else [])
  {
  }

  /** The status of the single-commit rule as published, when it is. */
  lemma SingleCommitStatus(pr: PullRequest, info: JiraInfo, env: Env, infoUrl: string)
    requires !Untouchable(env, pr) && pr.state == "open" && !IsTrue(env.allowManyCommits)
    ensures Touch(pr, info, env, infoUrl)[1]
      == StatusUpdate("single-commit", MultiCommitPass(info), None, MultiCommitMessage(info))
  {
  }

  /** The reminder is the last status published and always fails. */
  lemma MaintMergeReminderFails(pr: PullRequest, info: JiraInfo, env: Env, infoUrl: string)
    requires !Untouchable(env, pr) && pr.state == "open" && info.isMaintMerge
    ensures var updates := Touch(pr, info, env, infoUrl);
      updates[|updates| - 1] == StatusUpdate("maint-merge", false, None, MaintMergeReminder)
  {
  }

  /** A merge from a maintenance branch never has all its statuses passing. */
  lemma {:induction false} MaintMergeNeverAllGreen(pr: PullRequest, info: JiraInfo, env: Env, infoUrl: string)
    requires !Untouchable(env, pr) && pr.state == "open" && info.isMaintMerge
    ensures exists k :: 0 <= k < |Touch(pr, info, env, infoUrl)| && !Touch(pr, info, env, infoUrl)[k].pass
  {
    MaintMergeReminderFails(pr, info, env, infoUrl);
    var updates := Touch(pr, info, env, infoUrl);
    assert !updates[|updates| - 1].pass;
  }

  /** The single-commit rule fails for no commits and for an unknown count; with several
      commits it passes exactly for a maintenance merge or an enabled ALLOW_MANY_COMMITS flag. */
  lemma MultiCommitRule(info: JiraInfo)
    ensures info.numCommits == Some(0) || info.numCommits.None? ==> !MultiCommitPass(info)
    ensures info.numCommits == Some(1) ==> MultiCommitPass(info)
    ensures info.numCommits.Some? && info.numCommits.value > 1 ==>
      (MultiCommitPass(info) <==> info.isMaintMerge || FlagEnabled(info.prFlags, "ALLOW_MANY_COMMITS"))
  {
  }

  /** A failing single-commit status over several commits asks for a squash. */
  lemma {:induction false} SquashHint(info: JiraInfo)
    requires info.numCommits.Some? && info.numCommits.value > 1 && !MultiCommitPass(info)
    ensures EndsWith(MultiCommitMessage(info), "; consider squashing:")
    ensures StartsWith(MultiCommitMessage(info), "This PR has " + DecimalString(info.numCommits.value))
  {
    var n := DecimalString(info.numCommits.value);
    var m := MultiCommitMessage(info);
    assert m == "This PR has " + n + " commits" + "; consider squashing:";
    assert m[|m| - |"; consider squashing:"|..] == "; consider squashing:";
    assert m[..|"This PR has " + n|] == "This PR has " + n;
  }

  /** A repository named in DO_NOT_TOUCH_REPOS is left alone, whatever its pull requests
      and verdicts. */
  lemma ListedRepositoryUntouched(pr: PullRequest, info: JiraInfo, env: Env, infoUrl: string, listed: seq<string>)
    requires |listed| >= 1 && forall k :: 0 <= k < |listed| ==> ',' !in listed[k]
    requires env.doNotTouchRepos == Some(JoinComma(listed))
    requires pr.base.repo.ownerLogin + "/" + pr.base.repo.name in listed
    ensures Touch(pr, info, env, infoUrl) == []
  {
    SplitJoin(listed);
  }
}
