/** The parts of GitHub's pull-request and commit records that the core reads. */
module GitHub {
  /** A repository: `owner.login`, `name` and `full_name`. */
  datatype Repo = Repo(ownerLogin: string, name: string, fullName: string)

  /** One side of a pull request (`base` or `head`): branch name, commit and repository. */
  datatype Branch = Branch(ref: string, sha: string, repo: Repo)

  /** A pull request as the webhook and the API deliver it. */
  datatype PullRequest = PullRequest(
    number: nat,
    title: string,
    body: string,
    state: string,
    base: Branch,
    head: Branch)

  /** An entry of the commit list of a pull request: its sha and `commit.message`. */
  datatype CommitInfo = CommitInfo(sha: string, message: string)
}
