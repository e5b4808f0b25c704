/**
 The records the reconciliation pass reads from and writes to the repository host,
 reduced to the fields it consults. Fields that the code checks for nil are
 `Option`s; the ones it dereferences without a check are plain values.
 */
module Records {
  import opened Wrappers

  /** A host account; only its login name is consulted. */
  datatype User = User(login: string)

  /** The repository a pull request's head branch lives in (often a fork). */
  datatype Repository = Repository(name: string, defaultBranch: string, owner: Option<User>)

  /** The head side of a pull request: the branch name and the repository holding it, absent once a fork is deleted. */
  datatype Branch = Branch(ref: string, repo: Option<Repository>)

  /** A pull request as listed by the host. */
  datatype PullRequest = PullRequest(state: string, head: Branch)

  /** Values fixed at start-up: the authenticated login and the self-only flag. */
  datatype Config = Config(username: string, onlyOwnedBySelf: bool)

  /** A reference as the delete call addresses it: owner login, repository name and reference path. */
  datatype RefTarget = RefTarget(owner: string, repo: string, path: string)

  /** A Go error value, known to the pass only through its message text. */
  datatype Error = Error(message: string)
}
