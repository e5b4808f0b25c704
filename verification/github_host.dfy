/**
 A concrete host to run the pass against: a set of existing references and a fixed
 answer to every list call. A delete removes a present reference and answers 422
 for an absent one, as the comment at the delete call expects. Against this host a
 pass never fails, and running it again changes nothing: every repeated delete is
 answered "already gone".
 */
module GitHubHost {
  import opened Wrappers
  import opened GoStrings
  import opened Records
  import opened Eligibility
  import opened Deletion
  import opened Reconciler
  import opened Scheduler

  /** The host's answer to each list call; the reference set does not affect it. */
  type Listing = ListRequest -> Result<seq<PullRequest>, Error>

  function GitHubApi(listing: Listing): Api<set<RefTarget>> {
    Api((refs: set<RefTarget>, req: ListRequest) => (refs, listing(req)),
        (refs: set<RefTarget>, t: RefTarget) => DeleteOnHost(refs, t))
  }

  function Elems(ts: seq<RefTarget>): set<RefTarget> {
    set t | t in ts
  }

  /** An element after the first was met earlier exactly when it equals the first or was met earlier in the tail. */
  lemma EarlierCons(ts: seq<RefTarget>, i: nat)
    requires 0 < i < |ts|
    ensures ts[i] == ts[1..][i - 1]
    ensures ts[i] in ts[..i] <==> ts[i] == ts[0] || ts[i] in ts[1..][..i - 1]
  {
    assert ts[..i] == [ts[0]] + ts[1..][..i - 1];
  }

  /**
   Issuing deletes against this host: the references named are gone afterwards, no
   delete fails hard, and a delete succeeds exactly when its reference existed and
   was not already deleted earlier in the same run.
   */
  lemma {:induction false} IssueAllOnGitHub(listing: Listing, refs: set<RefTarget>, ts: seq<RefTarget>)
    ensures var run := IssueAll(GitHubApi(listing), refs, ts);
      && run.0 == refs - Elems(ts)
      && NoHard(run.1)
      && forall i :: 0 <= i < |run.1| ==>
           Classify(run.1[i].reply) == if ts[i] in refs && ts[i] !in ts[..i] then Deleted else AlreadyAbsent
    decreases |ts|
  {
    var api := GitHubApi(listing);
    var run := IssueAll(api, refs, ts);
    if |ts| > 0 {
      IssueAllUnfold(api, refs, ts);
      var (after, reply) := DeleteOnHost(refs, ts[0]);
      assert api.delete(refs, ts[0]) == (after, reply);
      IssueAllOnGitHub(listing, after, ts[1..]);
      var tail := IssueAll(api, after, ts[1..]);
      assert run.1 == [Exchange(ts[0], reply)] + tail.1;
      assert Elems(ts) == {ts[0]} + Elems(ts[1..]);
      forall i | 0 <= i < |run.1|
        ensures Classify(run.1[i].reply) == if ts[i] in refs && ts[i] !in ts[..i] then Deleted else AlreadyAbsent
      {
        if i > 0 {
          assert run.1[i] == tail.1[i - 1];
          EarlierCons(ts, i);
        }
      }
    }
  }

  /** Against this host the walk handles every record, fails nowhere, and removes exactly the eligible branches. */
  lemma PassOnGitHub(listing: Listing, refs: set<RefTarget>, prs: seq<PullRequest>, cfg: Config)
    ensures var p := ProcessPullRequests(GitHubApi(listing), refs, prs, cfg);
      && p.err.None?
      && p.processed == |prs|
      && Targets(p.exchanges) == DeleteTargets(prs, cfg)
      && p.host == refs - Elems(DeleteTargets(prs, cfg))
  {
    var api := GitHubApi(listing);
    ProcessIsCutRun(api, refs, prs, cfg);
    IssueAllOnGitHub(listing, refs, DeleteTargets(prs, cfg));
    var run := IssueAll(api, refs, DeleteTargets(prs, cfg));
    assert FirstHard(run.1) == |run.1|;
  }

  /** When none of the branches to delete exist, the walk leaves the host alone and every delete is answered "already gone". */
  lemma PassAbsent(listing: Listing, refs: set<RefTarget>, prs: seq<PullRequest>, cfg: Config)
    requires refs !! Elems(DeleteTargets(prs, cfg))
    ensures var p := ProcessPullRequests(GitHubApi(listing), refs, prs, cfg);
      && p.err.None?
      && p.host == refs
      && forall i :: 0 <= i < |p.exchanges| ==> Classify(p.exchanges[i].reply) == AlreadyAbsent
  {
    var api := GitHubApi(listing);
    var ts := DeleteTargets(prs, cfg);
    PassOnGitHub(listing, refs, prs, cfg);
    ProcessIsCutRun(api, refs, prs, cfg);
    IssueAllOnGitHub(listing, refs, ts);
    var run := IssueAll(api, refs, ts);
    assert FirstHard(run.1) == |run.1|;
    forall i | 0 <= i < |run.1| ensures ts[i] !in refs {
      assert ts[i] in Elems(ts);
    }
  }

  /**
   Running the walk a second time over the same records issues the same deletes,
   all answered "already gone", returns no error and leaves the host as it was.
   */
  lemma PassTwice(listing: Listing, refs: set<RefTarget>, prs: seq<PullRequest>, cfg: Config)
    ensures var api := GitHubApi(listing);
      var p1 := ProcessPullRequests(api, refs, prs, cfg);
      var p2 := ProcessPullRequests(api, p1.host, prs, cfg);
      && p2.err.None?
      && p2.host == p1.host
      && Targets(p2.exchanges) == Targets(p1.exchanges)
      && forall i :: 0 <= i < |p2.exchanges| ==> Classify(p2.exchanges[i].reply) == AlreadyAbsent
  {
    var p1 := ProcessPullRequests(GitHubApi(listing), refs, prs, cfg);
    PassOnGitHub(listing, refs, prs, cfg);
    PassOnGitHub(listing, p1.host, prs, cfg);
    PassAbsent(listing, p1.host, prs, cfg);
  }

  /** The branches one repository's turn sets out to delete, given this host's listing. */
  function RepoTargets(listing: Listing, repo: RepoId, cfg: Config): set<RefTarget> {
    var listed := listing(RequestFor(repo, FirstPage, PerPage));
    if listed.Ok? then Elems(DeleteTargets(listed.value, cfg)) else {}
  }

  /** The branches a whole sweep sets out to delete. */
  function SweepTargets(listing: Listing, repos: seq<RepoId>, cfg: Config): set<RefTarget>
    decreases |repos|
  {
    if |repos| == 0 then {} else RepoTargets(listing, repos[0], cfg) + SweepTargets(listing, repos[1..], cfg)
  }

  /** Every warning logged comes from a failed list call, never from a delete. */
  predicate WarningsFromListing(listing: Listing, logs: seq<RepoLog>) {
    forall i :: 0 <= i < |logs| ==> (logs[i].warning.Some? <==> listing(logs[i].request).Err?)
  }

  /** Every delete logged was answered "already gone". */
  predicate AllAbsent(logs: seq<RepoLog>) {
    forall i, j :: 0 <= i < |logs| && 0 <= j < |logs[i].exchanges| ==> Classify(logs[i].exchanges[j].reply) == AlreadyAbsent
  }

  /** One repository's turn against this host. */
  lemma VisitOnGitHub(listing: Listing, cfg: Config, refs: set<RefTarget>, repo: RepoId)
    ensures var v := Visit(GitHubApi(listing), cfg, refs, repo);
      && (v.1.warning.Some? <==> listing(v.1.request).Err?)
      && v.0 == refs - RepoTargets(listing, repo, cfg)
      && (refs !! RepoTargets(listing, repo, cfg) ==>
            forall j :: 0 <= j < |v.1.exchanges| ==> Classify(v.1.exchanges[j].reply) == AlreadyAbsent)
  {
    var api := GitHubApi(listing);
    var req := RequestFor(repo, FirstPage, PerPage);
    assert api.list(refs, req) == (refs, listing(req));
    var listed := listing(req);
    if listed.Ok? {
      PassOnGitHub(listing, refs, listed.value, cfg);
      if refs !! RepoTargets(listing, repo, cfg) {
        PassAbsent(listing, refs, listed.value, cfg);
      }
    }
  }

  /**
   A sweep against this host: the host ends without every branch the sweep set out to
   delete, warnings come only from failed list calls, and if none of those branches
   existed to begin with, every delete was answered "already gone".
   */
  lemma {:induction false} SweepOnGitHub(listing: Listing, cfg: Config, refs: set<RefTarget>, repos: seq<RepoId>)
    ensures var s := Sweep(Visitor(GitHubApi(listing), cfg), refs, repos);
      && s.0 == refs - SweepTargets(listing, repos, cfg)
      && WarningsFromListing(listing, s.1)
      && (refs !! SweepTargets(listing, repos, cfg) ==> AllAbsent(s.1))
    decreases |repos|
  {
    if |repos| > 0 {
      var api := GitHubApi(listing);
      var visit := Visitor(api, cfg);
      var v := Visit(api, cfg, refs, repos[0]);
      assert visit(refs, repos[0]) == v;
      VisitOnGitHub(listing, cfg, refs, repos[0]);
      SweepOnGitHub(listing, cfg, v.0, repos[1..]);
      var rest := Sweep(visit, v.0, repos[1..]);
      assert Sweep(visit, refs, repos) == (rest.0, [v.1] + rest.1);
      WarningsCons(listing, v.1, rest.1);
      var mine, others := RepoTargets(listing, repos[0], cfg), SweepTargets(listing, repos[1..], cfg);
      RemoveInTurn(refs, mine, others);
      if refs !! mine + others {
        AbsentCons(v.1, rest.1);
      }
    }
  }

  /** Removing a union is removing its parts in turn; if nothing is shared, the first removal changes nothing. */
  lemma RemoveInTurn(refs: set<RefTarget>, mine: set<RefTarget>, others: set<RefTarget>)
    ensures refs - (mine + others) == (refs - mine) - others
    ensures refs !! mine + others ==> refs - mine == refs && refs !! others
  {
  }

  /** A log whose warning comes from its list call, in front of logs whose warnings do. */
  lemma WarningsCons(listing: Listing, log: RepoLog, rest: seq<RepoLog>)
    requires log.warning.Some? <==> listing(log.request).Err?
    requires WarningsFromListing(listing, rest)
    ensures WarningsFromListing(listing, [log] + rest)
  {
    forall i | 0 < i < |rest| + 1
      ensures ([log] + rest)[i].warning.Some? <==> listing(([log] + rest)[i].request).Err?
    {
      assert ([log] + rest)[i] == rest[i - 1];
    }
  }

  /** A log of "already gone" answers in front of logs of "already gone" answers. */
  lemma AbsentCons(log: RepoLog, rest: seq<RepoLog>)
    requires forall j :: 0 <= j < |log.exchanges| ==> Classify(log.exchanges[j].reply) == AlreadyAbsent
    requires AllAbsent(rest)
    ensures AllAbsent([log] + rest)
  {
    forall i, j | 0 < i < |rest| + 1 && 0 <= j < |([log] + rest)[i].exchanges|
      ensures Classify(([log] + rest)[i].exchanges[j].reply) == AlreadyAbsent
    {
      assert ([log] + rest)[i] == rest[i - 1];
    }
  }

  /**
   Two ticks in a row against this host: the second finds nothing left to delete, so it
   leaves the host unchanged, answers every delete "already gone", and warns only
   about failed list calls.
   */
  lemma TickTwice(listing: Listing, refs: set<RefTarget>, rawRepos: string, cfg: Config)
    requires forall repo :: repo in Split(rawRepos, ',') ==> '/' in repo
    ensures var api := GitHubApi(listing);
      var first := Tick(api, refs, rawRepos, cfg);
      var second := Tick(api, first.0, rawRepos, cfg);
      && second.0 == first.0
      && AllAbsent(second.1)
      && WarningsFromListing(listing, first.1)
      && WarningsFromListing(listing, second.1)
  {
    var repos: seq<RepoId> := Split(rawRepos, ',');
    var first := Sweep(Visitor(GitHubApi(listing), cfg), refs, repos);
    SweepOnGitHub(listing, cfg, refs, repos);
    SweepOnGitHub(listing, cfg, first.0, repos);
  }

  /**
   Two closed pull requests from the same head branch both lead to a delete of that
   branch in one walk: the first removes it, the second is answered "already gone".
   Deletes are therefore not limited to one per branch within a pass.
   */
  lemma SameBranchTwice(listing: Listing, refs: set<RefTarget>, pr: PullRequest, cfg: Config)
    requires Eligible(pr, cfg) && TargetOf(pr) in refs
    ensures var p := ProcessPullRequests(GitHubApi(listing), refs, [pr, pr], cfg);
      && p.err.None?
      && Targets(p.exchanges) == [TargetOf(pr), TargetOf(pr)]
      && Classify(p.exchanges[0].reply) == Deleted
      && Classify(p.exchanges[1].reply) == AlreadyAbsent
  {
    var t := TargetOf(pr);
    PassOnGitHub(listing, refs, [pr, pr], cfg);
    ProcessIsCutRun(GitHubApi(listing), refs, [pr, pr], cfg);
    assert [pr, pr][1..] == [pr];
    assert DeleteTargets([pr, pr], cfg) == [t, t];
    IssueAllOnGitHub(listing, refs, [t, t]);
    assert [t, t][..1] == [t];
  }
}
