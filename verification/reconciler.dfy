/**
 One repository's reconciliation (`handlePullRequests` and the per-request work of
 `handlePullRequest`): list one page of closed pull requests, then walk them in order,
 issuing a delete for each eligible one and stopping at the first hard failure.

 The host is an abstract state `H` with two operations supplied by the caller: the
 list call and the delete call. Each may answer anything and may change the state, so
 every statement below holds whatever the host does.
 */
module Reconciler {
  import opened Wrappers
  import opened Records
  import opened GoStrings
  import opened Eligibility
  import opened Deletion

  /** The list call asks for the closed pull requests, sorted by their update time. */
  const UpdatedSort := "updated"

  datatype ListOptions = ListOptions(state: string, sort: string, page: int, perPage: int)

  /** A call of the list operation: which repository, and with which options. */
  datatype ListRequest = ListRequest(owner: string, repo: string, options: ListOptions)

  /** The two host operations the pass calls, each threading the host's state. */
  datatype Api<!H> = Api(
    list: (H, ListRequest) -> (H, Result<seq<PullRequest>, Error>),
    delete: (H, RefTarget) -> (H, Option<Error>))

  /** One delete call and the host's reply to it. */
  datatype Exchange = Exchange(target: RefTarget, reply: Option<Error>)

  /** The state after walking pull requests: host, deletes issued, how many records were handled, the error returned. */
  datatype Pass<H> = Pass(host: H, exchanges: seq<Exchange>, processed: nat, err: Option<Error>)

  /** The outcome of one repository: the list call made, then as `Pass` (with no count). */
  datatype Report<H> = Report(host: H, request: ListRequest, exchanges: seq<Exchange>, err: Option<Error>)

  /** A delete whose reply stops the pass. */
  predicate Hard(x: Exchange) {
    Classify(x.reply).Failed?
  }

  function Targets(xs: seq<Exchange>): (ts: seq<RefTarget>)
    ensures |ts| == |xs|
    ensures forall i :: 0 <= i < |xs| ==> ts[i] == xs[i].target
  {
    seq(|xs|, i requires 0 <= i < |xs| => xs[i].target)
  }

  /** The targets of a concatenation are the concatenated targets. */
  lemma TargetsConcat(a: seq<Exchange>, b: seq<Exchange>)
    ensures Targets(a + b) == Targets(a) + Targets(b)
  {
  }

  /** Reference definition: the targets of the eligible pull requests of `prs`, in list order. */
  function DeleteTargets(prs: seq<PullRequest>, cfg: Config): seq<RefTarget>
    decreases |prs|
  {
    if |prs| == 0 then []
    else (if Eligible(prs[0], cfg) then [TargetOf(prs[0])] else []) + DeleteTargets(prs[1..], cfg)
  }

  lemma {:induction false} DeleteTargetsConcat(a: seq<PullRequest>, b: seq<PullRequest>, cfg: Config)
    ensures DeleteTargets(a + b, cfg) == DeleteTargets(a, cfg) + DeleteTargets(b, cfg)
    decreases |a|
  {
    if |a| == 0 {
      assert a + b == b;
    } else {
      assert (a + b)[0] == a[0];
      assert (a + b)[1..] == a[1..] + b;
      DeleteTargetsConcat(a[1..], b, cfg);
    }
  }

  lemma NoHardConcat(a: seq<Exchange>, b: seq<Exchange>)
    ensures NoHard(a + b) <==> NoHard(a) && NoHard(b)
  {
    if NoHard(a + b) {
      forall i | 0 <= i < |a| ensures !Hard(a[i]) {
        assert (a + b)[i] == a[i];
      }
      forall i | 0 <= i < |b| ensures !Hard(b[i]) {
        assert (a + b)[|a| + i] == b[i];
      }
    }
    if NoHard(a) && NoHard(b) {
      forall i | 0 <= i < |a + b| ensures !Hard((a + b)[i]) {
        if i < |a| {
          assert (a + b)[i] == a[i];
        } else {
          assert (a + b)[i] == b[i - |a|];
        }
      }
    }
  }

  /** `handlePullRequest` on one record: decide, and for an eligible record issue exactly one delete. */
  function HandlePullRequest<H>(api: Api<H>, host: H, pr: PullRequest, cfg: Config): (p: Pass<H>)
    ensures p.processed == 1
    ensures Targets(p.exchanges) == DeleteTargets([pr], cfg)
    ensures !Eligible(pr, cfg) ==> p.host == host && p.err.None?
    ensures Eligible(pr, cfg) ==> p.exchanges[0].reply == api.delete(host, TargetOf(pr)).1
    ensures Eligible(pr, cfg) ==> p.host == api.delete(host, TargetOf(pr)).0
    ensures p.err.None? <==> NoHard(p.exchanges)
    ensures p.err.Some? ==> |p.exchanges| == 1 && p.err == p.exchanges[0].reply
  {
    assert [pr][1..] == [];
    match Decide(pr, cfg)
    case Skip(_) => Pass(host, [], 1, None)
    case Delete(t) =>
      var (after, reply) := api.delete(host, t);
      Pass(after, [Exchange(t, reply)], 1, HardError(reply))
  }

  /** No delete in `xs` failed hard. */
  predicate NoHard(xs: seq<Exchange>) {
    forall i :: 0 <= i < |xs| ==> !Hard(xs[i])
  }

  /**
   What walking `prs` in order with the stop-at-first-failure rule leaves behind: the
   deletes issued are those of the eligible records among the first `processed`;
   without a hard failure every record was handled; with one, the walk stopped right
   after the eligible record whose delete failed, and returns that reply's error.
   */
  predicate Walked<H>(prs: seq<PullRequest>, cfg: Config, p: Pass<H>) {
    && p.processed <= |prs|
    && Targets(p.exchanges) == DeleteTargets(prs[..p.processed], cfg)
    && (p.err.None? <==> NoHard(p.exchanges))
    && (p.err.None? ==> p.processed == |prs|)
    && (p.err.Some? ==>
          && 0 < p.processed
          && Eligible(prs[p.processed - 1], cfg)
          && 0 < |p.exchanges|
          && p.exchanges[|p.exchanges| - 1].target == TargetOf(prs[p.processed - 1])
          && p.err == p.exchanges[|p.exchanges| - 1].reply
          && Hard(p.exchanges[|p.exchanges| - 1]))
  }

  /** The deletes of a record followed by those of the first `n` of the rest are those of the first `1 + n`. */
  lemma TargetsCons(prs: seq<PullRequest>, cfg: Config, n: nat, first: seq<Exchange>, rest: seq<Exchange>)
    requires |prs| > 0 && n <= |prs| - 1
    requires Targets(first) == DeleteTargets([prs[0]], cfg)
    requires Targets(rest) == DeleteTargets(prs[1..][..n], cfg)
    ensures Targets(first + rest) == DeleteTargets(prs[..1 + n], cfg)
  {
    assert prs[..1 + n] == [prs[0]] + prs[1..][..n];
    DeleteTargetsConcat([prs[0]], prs[1..][..n], cfg);
    TargetsConcat(first, rest);
  }

  /** A record handled without a hard failure, followed by a walk of the rest, is a walk of the whole list. */
  lemma WalkedCons<H>(prs: seq<PullRequest>, cfg: Config, first: Pass<H>, rest: Pass<H>)
    requires |prs| > 0
    requires Targets(first.exchanges) == DeleteTargets([prs[0]], cfg)
    requires first.err.None? && NoHard(first.exchanges)
    requires Walked(prs[1..], cfg, rest)
    ensures Walked(prs, cfg, Pass(rest.host, first.exchanges + rest.exchanges, 1 + rest.processed, rest.err))
  {
    TargetsCons(prs, cfg, rest.processed, first.exchanges, rest.exchanges);
    NoHardConcat(first.exchanges, rest.exchanges);
    if rest.err.Some? {
      WalkedLast(prs, cfg, first.exchanges, rest);
    }
  }

  /** The failing record at the end of a walk of the rest is still the failing record after a prefix. */
  lemma WalkedLast<H>(prs: seq<PullRequest>, cfg: Config, before: seq<Exchange>, rest: Pass<H>)
    requires |prs| > 0
    requires Walked(prs[1..], cfg, rest) && rest.err.Some?
    ensures var xs := before + rest.exchanges;
      var n := 1 + rest.processed;
      && 0 < |xs|
      && Eligible(prs[n - 1], cfg)
      && xs[|xs| - 1].target == TargetOf(prs[n - 1])
      && rest.err == xs[|xs| - 1].reply
      && Hard(xs[|xs| - 1])
  {
    var xs := before + rest.exchanges;
    assert xs[|xs| - 1] == rest.exchanges[|rest.exchanges| - 1];
    assert prs[rest.processed] == prs[1..][rest.processed - 1];
  }

  /**
   The loop of `handlePullRequests`: records are handled in list order and the first
   hard failure ends the walk and is returned unchanged.
   */
  function ProcessPullRequests<H>(api: Api<H>, host: H, prs: seq<PullRequest>, cfg: Config): (p: Pass<H>)
    ensures Walked(prs, cfg, p)
    decreases |prs|
  {
    if |prs| == 0 then Pass(host, [], 0, None)
    else
      var first := HandlePullRequest(api, host, prs[0], cfg);
      if first.err.Some? then
        assert prs[..1] == [prs[0]];
        first
      else
        var rest := ProcessPullRequests(api, first.host, prs[1..], cfg);
        WalkedCons(prs, cfg, first, rest);
        Pass(rest.host, first.exchanges + rest.exchanges, 1 + rest.processed, rest.err)
  }

  /** Reference run: issue every delete in `targets` in order, threading the host, ignoring failures. */
  function IssueAll<H>(api: Api<H>, host: H, targets: seq<RefTarget>): (r: (H, seq<Exchange>))
    ensures Targets(r.1) == targets
    decreases |targets|
  {
    if |targets| == 0 then (host, [])
    else
      var step := api.delete(host, targets[0]);
      var rest := IssueAll(api, step.0, targets[1..]);
      var x := Exchange(targets[0], step.1);
      TargetsConcat([x], rest.1);
      assert [targets[0]] + targets[1..] == targets;
      (rest.0, [x] + rest.1)
  }

  /** Position of the first hard failure in `xs`, or `|xs|` when there is none. */
  function FirstHard(xs: seq<Exchange>): (k: nat)
    ensures k <= |xs|
    ensures forall i :: 0 <= i < k ==> !Hard(xs[i])
    ensures k < |xs| ==> Hard(xs[k])
    decreases |xs|
  {
    if |xs| == 0 then 0
    else if Hard(xs[0]) then 0
    else 1 + FirstHard(xs[1..])
  }

  /** One step of the walk, unfolded. */
  lemma ProcessUnfold<H>(api: Api<H>, host: H, prs: seq<PullRequest>, cfg: Config)
    requires |prs| > 0
    ensures var first := HandlePullRequest(api, host, prs[0], cfg);
      var rest := ProcessPullRequests(api, first.host, prs[1..], cfg);
      ProcessPullRequests(api, host, prs, cfg) ==
        if first.err.Some? then first
        else Pass(rest.host, first.exchanges + rest.exchanges, 1 + rest.processed, rest.err)
  {
  }

  /** One step of the reference run, unfolded. */
  lemma IssueAllUnfold<H>(api: Api<H>, host: H, targets: seq<RefTarget>)
    requires |targets| > 0
    ensures var (after, reply) := api.delete(host, targets[0]);
      var tail := IssueAll(api, after, targets[1..]);
      IssueAll(api, host, targets) == (tail.0, [Exchange(targets[0], reply)] + tail.1)
  {
  }

  /**
   `walked` and `err` are what stopping at the first hard failure of `xs` leaves: the
   exchanges up to and including that failure and its reply, or all of `xs` and no error.
   */
  predicate IsCut(xs: seq<Exchange>, walked: seq<Exchange>, err: Option<Error>) {
    var k := FirstHard(xs);
    && (k < |xs| ==> walked == xs[..k + 1] && err == xs[k].reply)
    && (k == |xs| ==> walked == xs && err.None?)
  }

  lemma CutHard(x: Exchange, xs: seq<Exchange>)
    requires Hard(x)
    ensures IsCut([x] + xs, [x], x.reply)
  {
    assert ([x] + xs)[..1] == [x];
  }

  lemma CutPass(x: Exchange, xs: seq<Exchange>, walked: seq<Exchange>, err: Option<Error>)
    requires !Hard(x) && IsCut(xs, walked, err)
    ensures IsCut([x] + xs, [x] + walked, err)
  {
    var ys := [x] + xs;
    assert ys[0] == x && ys[1..] == xs;
    var k := FirstHard(xs);
    assert FirstHard(ys) == 1 + k;
    if k < |xs| {
      assert ys[..k + 2] == [x] + xs[..k + 1];
      assert ys[k + 1] == xs[k];
    }
  }

  /** The walk from `host` over `prs` is the cut of the reference run from `host`. */
  ghost predicate WalkIsCutRun<H>(api: Api<H>, host: H, prs: seq<PullRequest>, cfg: Config) {
    var run := IssueAll(api, host, DeleteTargets(prs, cfg));
    var p := ProcessPullRequests(api, host, prs, cfg);
    && IsCut(run.1, p.exchanges, p.err)
    && (p.err.None? ==> p.host == run.0)
  }

  /** A skipped first record leaves the walk of the rest as it is. */
  lemma ProcessSkip<H>(api: Api<H>, host: H, prs: seq<PullRequest>, cfg: Config)
    requires |prs| > 0 && !Eligible(prs[0], cfg)
    ensures var p := ProcessPullRequests(api, host, prs, cfg);
      var rest := ProcessPullRequests(api, host, prs[1..], cfg);
      && p.exchanges == rest.exchanges && p.err == rest.err && p.host == rest.host
      && DeleteTargets(prs, cfg) == DeleteTargets(prs[1..], cfg)
  {
    var first := HandlePullRequest(api, host, prs[0], cfg);
    assert first.exchanges == [] && first.host == host && first.err.None?;
    var rest := ProcessPullRequests(api, host, prs[1..], cfg);
    ProcessUnfold(api, host, prs, cfg);
    assert [] + rest.exchanges == rest.exchanges;
  }

  /** Inductive step for a first record that is skipped: neither the walk nor the run changes. */
  lemma CutRunSkip<H>(api: Api<H>, host: H, prs: seq<PullRequest>, cfg: Config)
    requires |prs| > 0 && !Eligible(prs[0], cfg)
    requires WalkIsCutRun(api, host, prs[1..], cfg)
    ensures WalkIsCutRun(api, host, prs, cfg)
  {
    ProcessSkip(api, host, prs, cfg);
  }

  /** Inductive step for a first record that is deleted: both the walk and the run start with its exchange. */
  lemma CutRunDelete<H>(api: Api<H>, host: H, prs: seq<PullRequest>, cfg: Config)
    requires |prs| > 0 && Eligible(prs[0], cfg)
    requires WalkIsCutRun(api, HandlePullRequest(api, host, prs[0], cfg).host, prs[1..], cfg)
    ensures WalkIsCutRun(api, host, prs, cfg)
  {
    var targets := DeleteTargets(prs, cfg);
    var first := HandlePullRequest(api, host, prs[0], cfg);
    var rest := ProcessPullRequests(api, first.host, prs[1..], cfg);
    var tail := IssueAll(api, first.host, DeleteTargets(prs[1..], cfg));
    ProcessUnfold(api, host, prs, cfg);
    assert targets == [TargetOf(prs[0])] + DeleteTargets(prs[1..], cfg);
    assert targets[1..] == DeleteTargets(prs[1..], cfg);
    IssueAllUnfold(api, host, targets);
    var x := first.exchanges[0];
    assert first.exchanges == [x];
    assert IssueAll(api, host, targets) == (tail.0, [x] + tail.1);
    if Hard(x) {
      CutHard(x, tail.1);
    } else {
      CutPass(x, tail.1, rest.exchanges, rest.err);
    }
  }

  /**
   The walk is the reference run cut just after its first hard failure: the same deletes
   with the same replies up to and including that failure, none after it, and, when there
   is no failure, the very same final host state.
   */
  lemma {:induction false} ProcessIsCutRun<H>(api: Api<H>, host: H, prs: seq<PullRequest>, cfg: Config)
    ensures WalkIsCutRun(api, host, prs, cfg)
    decreases |prs|
  {
    if |prs| > 0 {
      var first := HandlePullRequest(api, host, prs[0], cfg);
      ProcessIsCutRun(api, first.host, prs[1..], cfg);
      if Eligible(prs[0], cfg) {
        CutRunDelete(api, host, prs, cfg);
      } else {
        assert first.host == host;
        CutRunSkip(api, host, prs, cfg);
      }
    }
  }

  /** A configured repository identifier, `owner/name`: it must hold the `/` that `handlePullRequests` indexes past. */
  type RepoId = id: string | '/' in id witness "/"

  /**
   The repository's owner and name are the first two `/`-separated parts of its
   identifier: they spell all of it, or are followed by a further `/`.
   */
  lemma IdentifierParts(id: string)
    requires '/' in id
    ensures var parts := Split(id, '/');
      && |parts| >= 2
      && HasPrefix(id, parts[0] + "/" + parts[1])
      && (Count(id, '/') == 1 ==> id == parts[0] + "/" + parts[1])
      && (Count(id, '/') >= 2 ==> HasPrefix(id, parts[0] + "/" + parts[1] + "/"))
  {
    var parts := Split(id, '/');
    JoinSplit(id, '/');
    JoinStartsWithHead(parts[1..], '/');
    var rest := Join(parts[1..], '/');
    assert id == parts[0] + "/" + rest;
    var pre := parts[0] + "/" + parts[1];
    assert rest[..|parts[1]|] == parts[1];
    assert id[..|pre|] == pre;
    if Count(id, '/') == 1 {
      assert parts[1..] == [parts[1]];
    } else {
      JoinTwoHeads(parts, '/');
    }
  }

  /** The list call of `handlePullRequests`: the identifier's first two parts and the fixed closed/updated options. */
  function RequestFor(id: RepoId, page: int, perPage: int): (req: ListRequest)
    ensures '/' !in req.owner && '/' !in req.repo
    ensures HasPrefix(id, req.owner + "/" + req.repo)
    ensures Count(id, '/') == 1 ==> id == req.owner + "/" + req.repo
    ensures id == req.owner + "/" + req.repo || HasPrefix(id, req.owner + "/" + req.repo + "/")
    ensures req.options == ListOptions(ClosedState, UpdatedSort, page, perPage)
  {
    IdentifierParts(id);
    var parts := Split(id, '/');
    ListRequest(parts[0], parts[1], ListOptions(ClosedState, UpdatedSort, page, perPage))
  }

  /**
   `handlePullRequests`: a failed list call is returned at once with no delete issued;
   otherwise the listed records are walked as `ProcessPullRequests` does.
   */
  function HandlePullRequests<H>(api: Api<H>, host: H, id: RepoId, page: int, perPage: int, cfg: Config): (r: Report<H>)
    ensures r.request == RequestFor(id, page, perPage)
    ensures var (listed, fetched) := api.list(host, r.request);
      && (fetched.Err? ==> r.exchanges == [] && r.err == Some(fetched.error) && r.host == listed)
      && (fetched.Ok? ==>
            var p := ProcessPullRequests(api, listed, fetched.value, cfg);
            r.exchanges == p.exchanges && r.err == p.err && r.host == p.host)
    ensures r.err.None? ==> api.list(host, r.request).1.Ok?
    ensures r.err.None? ==> Targets(r.exchanges) == DeleteTargets(api.list(host, r.request).1.value, cfg)
  {
    var request := RequestFor(id, page, perPage);
    var (listed, fetched) := api.list(host, request);
    match fetched
    case Err(e) => Report(listed, request, [], Some(e))
    case Ok(prs) =>
      var p := ProcessPullRequests(api, listed, prs, cfg);
      assert p.err.None? ==> prs[..p.processed] == prs;
      Report(p.host, request, p.exchanges, p.err)
  }
}
