/** The deployment configuration the core reads from its environment variables,
    passed to the decision logic as an explicit value. Every field holds the raw
    variable: `None` when it is unset. */
module Config {
  import opened Wrappers

  datatype Env = Env(
    jiraApprovedStatuses: Option<string>,  // JIRA_APPROVED_STATUSES
    jiraStatusCheck: Option<string>,       // JIRA_STATUS_CHECK
    searchIssueInCommit: Option<string>,   // SEARCH_JIRA_ISSUE_IN_COMMIT
    allowManyCommits: Option<string>,      // ALLOW_MANY_COMMITS
    doNotTouchRepos: Option<string>,       // DO_NOT_TOUCH_REPOS
    jiraUrl: Option<string>,               // JIRA_URL
    githubToken: Option<string>,           // GITHUB_TOKEN
    githubAppId: Option<string>)           // GITHUB_APP_ID

  /** `process.env.X === "TRUE"` */
  predicate IsTrue(v: Option<string>)
  {
    v == Some("TRUE")
  }

  /** JavaScript truthiness of an environment variable: set and not empty. */
  predicate IsSet(v: Option<string>)
  {
    v.Some? && v.value != ""
  }

  /** `v || fallback` on an environment variable. */
  function OrElse(v: Option<string>, fallback: string): (r: string)
    ensures IsSet(v) ==> r == v.value
    ensures !IsSet(v) ==> r == fallback
  {
    if IsSet(v) then v.value else fallback
  }

  /** How JavaScript renders a possibly-undefined variable inside a string. */
  function Render(v: Option<string>): string
  {
    if v.Some? then v.value else "undefined"
  }
}
