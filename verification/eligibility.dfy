/**
 The per-pull-request decision of `handlePullRequest`: whether the head branch of a
 listed pull request is deleted, and if so which reference the delete call addresses.
 */
module Eligibility {
  import opened Wrappers
  import opened Records
  import RefPath

  const ClosedState := "closed"

  /** Why a pull request is left alone; the rules are tried in this order. */
  datatype SkipReason = NotClosed | NoHeadRepo | NoHeadOwner | OwnedBySelf | DefaultBranch

  datatype Decision = Skip(reason: SkipReason) | Delete(target: RefTarget)

  /** The deletion rule stated at once: all five conditions hold together. */
  predicate Eligible(pr: PullRequest, cfg: Config) {
    && pr.state == ClosedState
    && pr.head.repo.Some?
    && pr.head.repo.value.owner.Some?
    && !(cfg.onlyOwnedBySelf && pr.head.repo.value.owner.value.login == cfg.username)
    && pr.head.ref != pr.head.repo.value.defaultBranch
  }

  /** The reference a delete for `pr` addresses: in the HEAD repository, under the head owner's login. */
  function TargetOf(pr: PullRequest): RefTarget
    requires pr.head.repo.Some? && pr.head.repo.value.owner.Some?
  {
    var repo := pr.head.repo.value;
    RefTarget(repo.owner.value.login, repo.name, RefPath.Encode(pr.head.ref))
  }

  /** The early returns of `handlePullRequest`, in source order. */
  function Decide(pr: PullRequest, cfg: Config): (d: Decision)
    ensures d.Delete? <==> Eligible(pr, cfg)
    ensures d.Delete? ==> d.target == TargetOf(pr)
    ensures d == Skip(NotClosed) <==> pr.state != ClosedState
    ensures d == Skip(NoHeadRepo) <==> pr.state == ClosedState && pr.head.repo.None?
    ensures d == Skip(NoHeadOwner) <==>
      pr.state == ClosedState && pr.head.repo.Some? && pr.head.repo.value.owner.None?
    ensures d == Skip(OwnedBySelf) <==>
      && pr.state == ClosedState && pr.head.repo.Some? && pr.head.repo.value.owner.Some?
      && cfg.onlyOwnedBySelf && pr.head.repo.value.owner.value.login == cfg.username
    ensures pr.head.repo.Some? && pr.head.ref == pr.head.repo.value.defaultBranch ==> d.Skip?
  {
    if pr.state != ClosedState then Skip(NotClosed)
    else if pr.head.repo.None? then Skip(NoHeadRepo)
    else if pr.head.repo.value.owner.None? then Skip(NoHeadOwner)
    else if cfg.onlyOwnedBySelf && pr.head.repo.value.owner.value.login == cfg.username then Skip(OwnedBySelf)
    else if pr.head.ref == pr.head.repo.value.defaultBranch then Skip(DefaultBranch)
    else Delete(TargetOf(pr))
  }

  /**
   The self-only flag matters only for pull requests whose head owner is the
   authenticated user: with it set they are skipped, with it cleared they go on to
   the default-branch check.
   */
  lemma SelfOnlyFlag(pr: PullRequest, username: string)
    requires pr.state == ClosedState && pr.head.repo.Some? && pr.head.repo.value.owner.Some?
    requires pr.head.repo.value.owner.value.login == username
    ensures Decide(pr, Config(username, true)) == Skip(OwnedBySelf)
    ensures Decide(pr, Config(username, false)) ==
      if pr.head.ref == pr.head.repo.value.defaultBranch then Skip(DefaultBranch) else Delete(TargetOf(pr))
  {
  }

  /** For a pull request owned by someone else the flag makes no difference. */
  lemma FlagIrrelevantForOthers(pr: PullRequest, username: string)
    requires pr.head.repo.Some? && pr.head.repo.value.owner.Some?
    requires pr.head.repo.value.owner.value.login != username
    ensures Decide(pr, Config(username, true)) == Decide(pr, Config(username, false))
  {
  }

  /**
   The default-branch guard compares names, while the delete addresses the encoded
   path. For names without `%` the two agree: a deleted branch never has the default
   branch's path.
   */
  lemma DefaultPathSparedWithoutPercent(pr: PullRequest, cfg: Config)
    requires pr.head.repo.Some?
    requires '%' !in pr.head.ref && '%' !in pr.head.repo.value.defaultBranch
    ensures Decide(pr, cfg).Delete? ==>
      Decide(pr, cfg).target.path != RefPath.Encode(pr.head.repo.value.defaultBranch)
  {
    RefPath.EncodeInjectiveWithoutPercent(pr.head.ref, pr.head.repo.value.defaultBranch);
  }

  /**
   With `%` allowed the guard can be passed by a different name with the same path: a
   closed pull request from branch `a%23` of a repository whose default branch is `a#`
   is deleted through the default branch's own path.
   */
  lemma DefaultPathCollision()
    ensures var pr := PullRequest(ClosedState, Branch("a%23", Some(Repository("widgets", "a#", Some(User("bob"))))));
      var d := Decide(pr, Config("alice", true));
      d.Delete? && d.target.path == RefPath.Encode("a#")
  {
    RefPath.EncodeNotInjective();
    assert "bob" != "alice" by { assert "bob"[0] != "alice"[0]; }
  }
}
