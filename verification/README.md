# branchbot reconciliation pass, modelled in Dafny

branchbot is a polling bot. On every tick it lists the closed pull requests of each
configured GitHub repository, asking for the first page of 30 sorted by update time. It
issues a delete of the head branch of each one that qualifies. This project models one tick of that loop as pure functions over an
abstract host, and proves what the loop does:

- which pull requests qualify, and which reference their delete addresses (`handlePullRequest`);
- how the reference path is spelled (`heads/<branch>`, with `#` written as `%23`,
  the percent-encoding of section 2.1 of RFC 3986);
- how delete replies are classified (an error whose text contains ` 422 ` means
  "already gone" and counts as success);
- how one repository is walked (`handlePullRequests`: a failed list call is returned
  at once, and the first hard delete failure stops the walk);
- how one tick sweeps every configured repository (an error becomes a warning and the
  sweep goes on).

The host is a value, not a connection. `Reconciler.Api<H>` holds two functions over a
host state `H`: the list call and the delete call. Every property of the walk holds for
any such pair, so the host may answer anything and may change its state between calls.
`GitHubHost` gives one concrete host: a set of existing references plus a fixed listing.
Deleting a present reference succeeds. Deleting an absent one answers with the 422 text
the client library prints. The idempotence results are proved against that host.

Modules, in dependency order:

- `Wrappers`: `Option` and `Result`.
- `GoStrings`: the parts of Go's `strings` package that the code uses (`Contains`,
  `Replace` of one character, `Split` on one character), with their defining
  properties. `Join` is defined only to state that `Split` loses nothing.
- `RefPath`: the reference path of a branch.
- `Records`: pull request, head branch, repository, user, configuration, delete target,
  error.
- `Eligibility`: the per-pull-request decision.
- `Deletion`: the classification of delete replies, and a model of the host's reply to
  a delete.
- `Reconciler`: the per-record work, the walk over one repository, the list request.
- `Scheduler`: one tick over all configured repositories.
- `GitHubHost`: the concrete host and the idempotence results.

## Model

| member | source | states |
|---|---|---|
| `Eligibility.Decide` | main.go:178-198 | A delete is decided exactly when the five conditions of `Eligible` all hold: state `closed`, a head repo, a head repo owner, not (self-only set and owner is the authenticated user), and branch name not the head repo's default branch name. Each skip reason holds exactly when its rule is the first that fails. A head branch whose name equals the default branch's name is never deleted, whatever the owner or flag; the guard compares names, not paths (see `DefaultPathCollision`). The target is the head owner's login, the head repo's name and the encoded path. |
| `Eligibility.SelfOnlyFlag` | main.go:193-198 | For a pull request whose head owner is the authenticated user: with the flag set it is skipped as self-owned; with the flag cleared it goes on to the default-branch check and is deleted unless its branch is the default. |
| `Eligibility.FlagIrrelevantForOthers` | main.go:193-196 | When the head owner is not the authenticated user, the self-only flag does not change the decision. |
| `Eligibility.DefaultPathSparedWithoutPercent` | main.go:198-199 | When neither the head branch name nor the default branch name holds `%`, a decided delete never addresses the default branch's path. |
| `Eligibility.DefaultPathCollision` | main.go:198-199 | A closed pull request from branch `a%23` of a repository whose default branch is `a#` passes the name guard, and its delete addresses `Encode("a#")`, the default branch's own path. |
| `RefPath.Encode` | main.go:199 | The path starts with `heads/` and holds no `#`. Its length is 6 + branch length + 2 per `#`. It is `heads/` + branch when the branch has no `#`. It is `heads/` followed by the branch with every `#` replaced by `%23`. |
| `RefPath.UnescapeReplace` | main.go:199 | For a string without `%`, turning `%23` back into `#` undoes the escaping. |
| `RefPath.UnescapeEncode` | main.go:199 | For a branch name without `%`, the branch can be read back from its path. |
| `RefPath.EncodeInjectiveWithoutPercent` | main.go:199 | For branch names without `%`, two names get the same path exactly when they are the same name. |
| `RefPath.EncodeNotInjective` | main.go:199 | `a#` and `a%23` are different branch names with the same path, so no decoding recovers every name. |
| `RefPath.EncodeOneHash` | main.go:199 | A branch `before#after` whose parts hold no `#` (such as `feature#42`) gets the path `heads/before%23after`. |
| `GoStrings.ContainsIffOccurs` | main.go:201 | The substring test used on the error text is true exactly when the marker occurs at some offset. |
| `GoStrings.ReplaceAll` | main.go:199 | Replacing a character with a string that does not contain it leaves no occurrence of it. A string without the character is unchanged. |
| `GoStrings.ReplaceAllLength` | main.go:199 | Each replaced character adds the replacement's length minus one to the length. |
| `GoStrings.ReplaceAllConcat` | main.go:199 | Replacement distributes over concatenation, so the fixed `heads/` prefix passes through unchanged. |
| `GoStrings.Split` | main.go:84 | Splitting on a character gives one more piece than there are separators, and no piece holds the separator. |
| `GoStrings.JoinSplit` | main.go:84 | Joining the pieces with the separator gives back the original string. |
| `GoStrings.SplitJoin` | main.go:84 | Splitting a join of separator-free pieces gives back the pieces. |
| `Deletion.Classify` | main.go:200-203 | No error means Deleted. An error whose text contains ` 422 ` means AlreadyAbsent. Any other error is a failure that carries the error unchanged. |
| `Deletion.HardError` | main.go:200-203 | The error returned for a reply is present exactly when the reply is a hard failure, and it is the reply's own error. |
| `Deletion.MissingRefError` | main.go:200-201 | The host's answer to a delete of a missing reference contains ` 422 `, so the code classifies it as already gone. |
| `Deletion.DeleteOnHost` | main.go:199-201 | On the reference-set host, a delete removes the reference. The reply is Deleted if the reference was present and AlreadyAbsent if it was not. |
| `Deletion.DeleteTwice` | main.go:199-203 | Deleting an existing branch twice yields Deleted and then AlreadyAbsent, never a failure, and the second delete changes nothing. |
| `Reconciler.HandlePullRequest` | main.go:178-209 | One record issues exactly one delete when it is eligible and none otherwise. The delete targets the head repository. A skipped record leaves the host unchanged and returns no error. The error returned is the delete reply when that reply is a hard failure. |
| `Reconciler.ProcessPullRequests` | main.go:168-175 | Records are handled in list order. The deletes issued are those of the eligible records among the first `processed`. With no hard failure, every record is handled and no error is returned. With one, the walk stops right after the eligible record whose delete failed and returns that reply's error unchanged. Later records get no delete. |
| `Reconciler.ProcessIsCutRun` | main.go:168-175 | The walk equals the reference run, which issues every eligible delete in order, cut just after the first hard failure: the same deletes with the same replies. With no failure the final host state is the same too. |
| `Reconciler.IdentifierParts` | main.go:151-160 | For an identifier containing `/`, the first two `/`-pieces followed by `/` form a prefix of it. They spell the whole identifier when it has exactly one `/`. With two or more, they are followed by a further `/`. |
| `Reconciler.RequestFor` | main.go:151-160 | The list call names the identifier's owner and repository, neither containing `/`. Owner, `/` and repository are either the whole identifier or followed by a further `/`, so anything after a second `/` is ignored. The options are state `closed`, sort `updated`, the given page and page size, and no direction. |
| `Reconciler.HandlePullRequests` | main.go:150-176 | A failed list call is returned at once with no delete issued. Otherwise the listed records are walked as above. With no error, the deletes issued are exactly those of the eligible listed records. |
| `Scheduler.Visit` | main.go:116-123 | One repository's turn makes the list call for page 1 with 30 per page, closed, sorted by update, no direction. Its error is kept as a warning instead of being propagated. |
| `Scheduler.Sweep` | main.go:118-124 | Every configured repository gets exactly one log entry, whatever earlier repositories logged. |
| `Scheduler.SweepAppend` | main.go:118-124 | Sweeping `a + b` is sweeping `a`, then sweeping `b` from the host state `a` left. |
| `Scheduler.SweepEntry` | main.go:118-124 | The i-th entry is what handling the i-th repository alone produces, starting from the host state the repositories before it left. |
| `Scheduler.TickLogs` | main.go:116-124 | Entry i of a tick names repository i and the list call for its first page of 30. |
| `Scheduler.Tick` | main.go:116-124 | A tick logs one entry per comma-separated piece of the repository list. Joining the logged repositories with commas gives back the list. Each entry's list call is for page 1 of 30. |
| `GitHubHost.IssueAllOnGitHub` | main.go:199-203 | Against the reference-set host, all named references are gone afterwards and no delete fails hard. A delete succeeds exactly when its reference existed and was not already deleted earlier in the run. |
| `GitHubHost.PassOnGitHub` | main.go:168-175 | Against the reference-set host, a walk handles every record, returns no error, and removes exactly the eligible branches. |
| `GitHubHost.PassAbsent` | main.go:199-203 | When none of the branches to delete exist, a walk leaves the host unchanged, returns no error, and every delete is answered "already gone". |
| `GitHubHost.PassTwice` | main.go:199-203 | A second walk over the same records issues the same deletes. All are answered "already gone", no error is returned, and the host is unchanged. |
| `GitHubHost.VisitOnGitHub` | main.go:118-123 | One repository's turn on the reference-set host warns exactly when its list call fails. It removes that repository's eligible branches. |
| `GitHubHost.SweepOnGitHub` | main.go:118-124 | A sweep removes every branch it set out to delete, and warns only about failed list calls. If none of those branches existed, every delete is answered "already gone". |
| `GitHubHost.TickTwice` | main.go:115-124 | After one tick, the next tick leaves the host unchanged, answers every delete "already gone", and warns only about failed list calls. |
| `GitHubHost.SameBranchTwice` | main.go:168-173 | Two closed pull requests from the same head branch lead to two deletes of that branch in one walk: Deleted, then AlreadyAbsent. |

## Behaviour worth knowing

These follow the code:

- The delete is issued to the **head** repository, under the head owner's login and
  the head repository's name (main.go:199). It is not issued to the configured
  repository being walked. For a pull request from a fork, the delete is issued to the
  fork. Whether the host carries it out is the host's answer. A refusal that is not a
  422 is a hard failure, and it ends that repository's walk.
- The "already gone" test is a substring search for ` 422 ` in the error text
  (main.go:201). The status code itself is never read.
- Nothing limits deletes to one per branch per pass. Two closed pull requests with the
  same head branch each issue a delete, as `GitHubHost.SameBranchTwice` shows.
- Each tick asks only for page 1, with 30 records per page, sorted by `updated`
  (main.go:116-117, 152-159). The page is never advanced. The request sets no sort
  direction, so the host's default direction decides which 30 pull requests are on
  page 1. The ones not on page 1 are never seen. The model takes the listing as given
  and does not fix that order.
- The default-branch guard compares branch **names** (main.go:198). The delete addresses
  the **encoded path** (main.go:199). Because `a#` and `a%23` share a path, a branch
  named `a%23` passes the guard in a repository whose default branch is `a#`. Its
  delete then addresses the default branch's own path (`Eligibility.DefaultPathCollision`).
  When neither name holds `%`, this cannot happen
  (`Eligibility.DefaultPathSparedWithoutPercent`).
- With the self-only flag set, the code skips pull requests whose head owner **is** the
  authenticated user (main.go:193). The flag's help text, "Only delete branches owned by
  self" (main.go:50), and the debug message at main.go:194 describe the opposite. The
  model follows the code.

## Left out

- Flag and environment parsing, usage and version output, and the start-up exits
  (main.go:46-88): command-line plumbing. The exit on an empty repository list is
  covered by `Tick`'s precondition, because the empty string has no `/`.
- The signal-handling goroutine, the ticker and `os.Exit` (main.go:90-115):
  concurrency and wall-clock timing. A tick is one call of `Scheduler.Tick`.
- `newGitHubClient` (main.go:128-148): OAuth and HTTP client construction and the
  identity lookup. The authenticated login is the `username` field of `Records.Config`,
  passed in rather than read from a global.
- The go-github calls `PullRequests.List` and `Git.DeleteRef`: foreign library code.
  They are the two functions of `Reconciler.Api`. Their HTTP response objects and the
  `context.Context` argument are not modelled.
- All logging (logrus): it has no effect on the outcome.
- Nil-pointer panics on `State`, `Head.Ref`, `DefaultBranch`, `Name` and
  `Owner.Login`, which the code dereferences unchecked: these fields are plain strings.
  The index-out-of-range panic on an identifier without `/` (main.go:160) is excluded by
  the `Reconciler.RepoId` subset type and by `Tick`'s precondition.
- Deletion.MissingRefError: the exact wording of the host's 422 reply is an assumption
  about the client library's error format, "METHOD URL: STATUS MESSAGE DETAILS". Only
  its containing ` 422 ` matters to the code.
- Go strings are byte sequences, while `string` here is a sequence of characters.
  Every marker and separator the code looks for (`#`, `%23`, ` 422 `, `/`, `,`) is
  ASCII. Each of them is one byte in UTF-8 and never part of a multi-byte sequence, so
  splitting, searching and replacing give the same pieces either way.
- A general round trip for the `#` encoding: it does not exist, because `a#` and `a%23`
  share a path (`RefPath.EncodeNotInjective`). The round trip is stated only for branch
  names without `%`.
