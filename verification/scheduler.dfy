/**
 One tick of the scheduler: every configured repository is reconciled in order with
 the fixed first page of 30 records, and a repository's error is logged as a warning
 instead of stopping the tick. The timer, the signal handler and process exit are
 not modelled: a tick is one call of `Tick`.
 */
module Scheduler {
  import opened Wrappers
  import opened Records
  import opened GoStrings
  import opened Reconciler
  import Eligibility

  const FirstPage := 1
  const PerPage := 30

  /** What one repository's turn left: its identifier, the list call, the deletes, and the warning logged. */
  datatype RepoLog = RepoLog(repo: RepoId, request: ListRequest, exchanges: seq<Exchange>, warning: Option<Error>)

  /**
   The body of the per-tick loop for one repository: reconcile it from the first page
   of 30 records and keep its error, if any, as a warning rather than propagating it.
   */
  function Visit<H>(api: Api<H>, cfg: Config, host: H, repo: RepoId): (v: (H, RepoLog))
    ensures v.1.repo == repo
    ensures v.1.request == RequestFor(repo, FirstPage, PerPage)
    ensures v.1.request.options == ListOptions(Eligibility.ClosedState, UpdatedSort, 1, 30)
    ensures var r := HandlePullRequests(api, host, repo, FirstPage, PerPage, cfg);
      v.0 == r.host && v.1.exchanges == r.exchanges && v.1.warning == r.err
  {
    var r := HandlePullRequests(api, host, repo, FirstPage, PerPage, cfg);
    (r.host, RepoLog(repo, r.request, r.exchanges, r.err))
  }

  /** `Visit` with the host and configuration fixed, as the loop calls it. */
  function Visitor<H>(api: Api<H>, cfg: Config): (H, RepoId) -> (H, RepoLog) {
    (h: H, repo: RepoId) => Visit(api, cfg, h, repo)
  }

  /**
   The loop over the configured repositories: `visit` runs once per repository, in
   order, on the host state the previous one left. Nothing a visit logs stops the loop.
   */
  function Sweep<H>(visit: (H, RepoId) -> (H, RepoLog), host: H, repos: seq<RepoId>): (s: (H, seq<RepoLog>))
    ensures |s.1| == |repos|
    decreases |repos|
  {
    if |repos| == 0 then (host, [])
    else
      var (after, log) := visit(host, repos[0]);
      var rest := Sweep(visit, after, repos[1..]);
      (rest.0, [log] + rest.1)
  }

  /** A sweep over `a + b` is a sweep over `a` followed by a sweep over `b` from where it left the host. */
  lemma {:induction false} SweepAppend<H>(visit: (H, RepoId) -> (H, RepoLog), host: H, a: seq<RepoId>, b: seq<RepoId>)
    ensures var first := Sweep(visit, host, a);
      var second := Sweep(visit, first.0, b);
      Sweep(visit, host, a + b) == (second.0, first.1 + second.1)
    decreases |a|
  {
    if |a| == 0 {
      assert a + b == b;
      var second := Sweep(visit, host, b);
      assert [] + second.1 == second.1;
    } else {
      assert (a + b)[0] == a[0];
      assert (a + b)[1..] == a[1..] + b;
      var (after, log) := visit(host, a[0]);
      SweepAppend(visit, after, a[1..], b);
      var tail := Sweep(visit, after, a[1..]);
      var second := Sweep(visit, tail.0, b);
      assert [log] + (tail.1 + second.1) == ([log] + tail.1) + second.1;
    }
  }

  /**
   Each repository's log is exactly what visiting it alone produces, from the host
   state the repositories before it left behind, whatever they logged.
   */
  lemma SweepEntry<H>(visit: (H, RepoId) -> (H, RepoLog), host: H, repos: seq<RepoId>, i: nat)
    requires i < |repos|
    ensures var before := Sweep(visit, host, repos[..i]).0;
      Sweep(visit, host, repos).1[i] == visit(before, repos[i]).1
  {
    assert repos[..i] + repos[i..] == repos;
    SweepAppend(visit, host, repos[..i], repos[i..]);
    assert repos[i..][0] == repos[i];
  }

  /**
   One tick: the raw comma-separated repository list is split as the start-up code
   does and every piece is visited. Every listed repository gets its turn, in the
   order written, each with its own list call for the first page of 30.
   */
  function Tick<H>(api: Api<H>, host: H, rawRepos: string, cfg: Config): (s: (H, seq<RepoLog>))
    requires forall repo :: repo in Split(rawRepos, ',') ==> '/' in repo
    ensures |s.1| == Count(rawRepos, ',') + 1
    ensures Join(seq(|s.1|, i requires 0 <= i < |s.1| => s.1[i].repo), ',') == rawRepos
    ensures forall i :: 0 <= i < |s.1| ==> s.1[i].request == RequestFor(s.1[i].repo, FirstPage, PerPage)
  {
    var repos: seq<RepoId> := Split(rawRepos, ',');
    var s := Sweep(Visitor(api, cfg), host, repos);
    TickLogs(api, cfg, host, repos);
    assert seq(|s.1|, i requires 0 <= i < |s.1| => s.1[i].repo) == repos;
    JoinSplit(rawRepos, ',');
    s
  }

  /** Every log of a sweep with `Visit` names its repository and the list call made for it. */
  lemma TickLogs<H>(api: Api<H>, cfg: Config, host: H, repos: seq<RepoId>)
    ensures var s := Sweep(Visitor(api, cfg), host, repos);
      forall i :: 0 <= i < |repos| ==>
        s.1[i].repo == repos[i] && s.1[i].request == RequestFor(repos[i], FirstPage, PerPage)
  {
    var visit := Visitor(api, cfg);
    forall i | 0 <= i < |repos|
      ensures Sweep(visit, host, repos).1[i].repo == repos[i]
      ensures Sweep(visit, host, repos).1[i].request == RequestFor(repos[i], FirstPage, PerPage)
    {
      SweepEntry(visit, host, repos, i);
    }
  }
}
