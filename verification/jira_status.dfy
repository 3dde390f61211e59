/** The Jira adapter: `getStatus`, which turns the tracker client's callback `(err, issue)`
    into a resolved or rejected promise, and `getUrl`, the browse link of a ticket. The
    tracker call itself is outside the model: its reply is the input. */
module JiraStatus {
  import opened Wrappers
  import opened Text
  import opened Config

  /** The error object of a failed lookup; only its `errorMessages` list is read. */
  datatype TrackerError = TrackerError(errorMessages: Option<seq<string>>)

  /** The `fields` of a ticket: the name of its status and its summary. */
  datatype IssueFields = IssueFields(statusName: string, summary: string)

  /** What the tracker client hands to the callback: an error, or an issue whose
      `fields` may be missing. */
  datatype Reply = Failed(err: TrackerError) | Replied(fields: Option<IssueFields>)

  /** A settled promise. */
  datatype Settled<+T> = Resolved(value: T) | Rejected(reason: TrackerError)

  /** The error says the ticket does not exist: its first message contains "does not exist".
      An empty list tests its missing first entry, the text "undefined", which does not. */
  predicate IsNotFound(e: TrackerError)
  {
    e.errorMessages.Some? && |e.errorMessages.value| > 0
    && Includes(e.errorMessages.value[0], "does not exist")
  }

  /** `getStatus`: a missing ticket resolves to null, any other error rejects, and a reply
      resolves to the name of the ticket's status, or to null when it has no fields. */
  function GetStatus(reply: Reply): (r: Settled<Option<string>>)
    ensures r.Rejected? <==> reply.Failed? && !IsNotFound(reply.err)
    ensures r.Rejected? ==> r.reason == reply.err
    ensures r == Resolved(None) <==>
      (reply.Failed? && IsNotFound(reply.err)) || reply == Replied(None)
    ensures forall n :: r == Resolved(Some(n)) <==>
      reply.Replied? && reply.fields.Some? && reply.fields.value.statusName == n
  {
    match reply
    case Failed(e) => if IsNotFound(e) then Resolved(None) else Rejected(e)
    case Replied(fields) =>
      if fields.Some? then Resolved(Some(fields.value.statusName)) else Resolved(None)
  }

  /** A ticket as the verdict engine reads it: `jiraIssue.fields.status.name` and
      `jiraIssue.fields.summary`. */
  datatype Issue = Issue(fields: IssueFields)

  /** The lookup the verdict engine needs: it resolves the ticket itself (null when the
      ticket is missing or has no fields), with the same error handling as `GetStatus`. */
  function GetIssue(reply: Reply): (r: Settled<Option<Issue>>)
    ensures r.Rejected? <==> GetStatus(reply).Rejected?
    ensures r.Rejected? ==> r.reason == reply.err
    ensures r == Resolved(None) <==> GetStatus(reply) == Resolved(None)
    ensures forall f :: r == Resolved(Some(Issue(f))) <==> reply == Replied(Some(f))
  {
    match reply
    case Failed(e) => if IsNotFound(e) then Resolved(None) else Rejected(e)
    case Replied(fields) => if fields.Some? then Resolved(Some(Issue(fields.value))) else Resolved(None)
  }

  /** `jiraIssue && jiraIssue.fields.status.name`, on a resolved ticket. */
  function StatusName(issue: Option<Issue>): Option<string>
  {
    if issue.Some? then Some(issue.value.fields.statusName) else None
  }

  /** Reading the status name off what `GetIssue` resolves gives exactly what
      `GetStatus` resolves, so the two lookups classify every reply alike. */
  lemma IssueAgreesWithStatus(reply: Reply)
    ensures GetIssue(reply).Resolved? <==> GetStatus(reply).Resolved?
    ensures GetIssue(reply).Resolved? ==> StatusName(GetIssue(reply).value) == GetStatus(reply).value
  {
  }

  /** What `jiraIssue && jiraIssue.fields.status.name` yields when `jiraIssue` is the
      string `GetStatus` resolves: null stays null, the empty string short-circuits to
      itself, and any other string has no `fields`, so reading `.status` throws. */
  function StatusNameOfResolvedString(resolved: Option<string>): (r: Result<Option<string>, string>)
    ensures resolved.None? ==> r == Ok(None)
    ensures resolved == Some("") ==> r == Ok(Some(""))
    ensures resolved.Some? && resolved.value != "" ==> r.Err?
  {
    if resolved.None? then Ok(None)
    else if resolved.value == "" then Ok(Some(""))
    else Err("TypeError: Cannot read property 'status' of undefined")
  }

  /** Composed as written, a ticket that exists and has a status fails the evaluation
      instead of yielding its status. */
  lemma FoundTicketThrows(name: string, summary: string)
    requires name != ""
    ensures GetStatus(Replied(Some(IssueFields(name, summary)))) == Resolved(Some(name))
    ensures StatusNameOfResolvedString(GetStatus(Replied(Some(IssueFields(name, summary)))).value).Err?
  {
  }

  /** `getUrl`: "https://" + JIRA_URL + "/browse/" + key (an unset JIRA_URL reads "undefined"). */
  function GetUrl(jiraUrl: Option<string>, issueKey: string): (url: string)
    ensures StartsWith(url, "https://")
    ensures EndsWith(url, issueKey)
  {
    "https://" + Render(jiraUrl) + "/browse/" + issueKey
  }

  /** The key a browse link of the host points at: what follows the host's browse prefix. */
  function KeyOfUrl(jiraUrl: Option<string>, url: string): Option<string>
  {
    var prefix := "https://" + Render(jiraUrl) + "/browse/";
    if StartsWith(url, prefix) then Some(url[|prefix|..]) else None
  }

  /** The link names its key: reading the key back off the link gives the key. */
  lemma {:induction false} UrlNamesKey(jiraUrl: Option<string>, issueKey: string)
    ensures KeyOfUrl(jiraUrl, GetUrl(jiraUrl, issueKey)) == Some(issueKey)
  {
    var prefix := "https://" + Render(jiraUrl) + "/browse/";
    var url := GetUrl(jiraUrl, issueKey);
    assert url == prefix + issueKey;
    assert url[..|prefix|] == prefix;
    assert url[|prefix|..] == issueKey;
  }

  /** Different keys give different links on the same host. */
  lemma UrlInjective(jiraUrl: Option<string>, k1: string, k2: string)
    requires GetUrl(jiraUrl, k1) == GetUrl(jiraUrl, k2)
    ensures k1 == k2
  {
    UrlNamesKey(jiraUrl, k1);
    UrlNamesKey(jiraUrl, k2);
  }
}
