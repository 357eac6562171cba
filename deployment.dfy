/**
  * `deployment_cycle`: for each configured repository, look up its remote
  * URL, detect a change of its compose file, run `docker compose up -d`, and
  * when that does not succeed walk the ordered exception conditions. A
  * condition whose search keywords match the current output triggers one
  * more `docker compose up -d` (its `command` is never run); the walk stops
  * at the first re-run that succeeds.
  *
  * The external commands are inputs: whether `git_path` exists and
  * `git_path/.git` is a directory,
  * the output of `git config --get remote.origin.url`, the change verdict
  * of `detect_git_changes`, and the results of the successive
  * `docker compose up -d` calls for the repository.
  */
module Deployment {
  import opened Options
  import opened Keywords
  import opened RepoUrl

  /** One `docker compose up -d`: stdout followed by stderr, and whether the exit status was 0. */
  datatype ApplyResult = ApplyResult(output: string, ok: bool)

  /** An entry of `exception_condition`; `command` is read from the configuration but never run. */
  datatype Condition = Condition(searchKeywords: seq<string>, command: string)

  /**
    * One entry of `gitrepo_path`, with the answers of the external commands:
    * `apply(n)` is the result of the n-th `docker compose up -d` (from 0)
    * for this repository during the cycle.
    */
  datatype Repository = Repository(
    name: string,
    hasGitDir: bool,
    remoteOutput: string,
    changed: bool,
    apply: nat -> ApplyResult)

  /**
    * One iteration of the loop over the exception conditions: the index of
    * the condition, the output it was tested against, whether its search
    * keywords matched, and the result of the re-run this caused.
    */
  datatype Examination = Examination(condition: nat, against: string, matched: bool, rerun: Option<ApplyResult>)

  /** The three ways an apply attempt ends (the messages at lines 87, 95 and 100). */
  datatype Outcome = UpInitially | UpAfterException(condition: nat) | AllConditionsChecked

  /** The part of an attempt spent in the loop over the exception conditions. */
  datatype Remediation = Remediation(examined: seq<Examination>, outcome: Outcome)

  /** A whole apply attempt: the first `docker compose up -d`, the loop, and how it ended. */
  datatype Attempt = Attempt(initial: ApplyResult, examined: seq<Examination>, outcome: Outcome)

  /** What the cycle did with one repository. */
  datatype RepoReport =
    | InvalidRepository                    // no truthy URL: lines 103-104
    | NoChanges(url: string)               // change detection said no: lines 101-102
    | Attempted(url: string, attempt: Attempt)

  /** Lines 86 and 94: exit status 0 and every success keyword found. */
  predicate Succeeds(r: ApplyResult, successKeywords: seq<string>) {
    r.ok && AllKeywordsMatch(r.output, successKeywords)
  }

  /** Line 92: the condition's search keywords match the current output. */
  predicate ConditionMatches(output: string, c: Condition) {
    AllKeywordsMatch(output, c.searchKeywords)
  }

  /** Whether an examination caused a re-run that succeeded (the `break` at line 96). */
  predicate RerunSucceeded(e: Examination, successKeywords: seq<string>) {
    e.rerun.Some? && Succeeds(e.rerun.value, successKeywords)
  }

  /** The value of `output` after an examination: the re-run's output if there was one. */
  function OutputAfter(e: Examination): string {
    if e.rerun.Some? then e.rerun.value.output else e.against
  }

  /** Number of `docker compose up -d` re-runs recorded in a list of examinations. */
  function Reruns(examined: seq<Examination>): (n: nat)
    ensures n <= |examined|
  {
    if examined == [] then 0
    else (if examined[0].rerun.Some? then 1 else 0) + Reruns(examined[1..])
  }

  /** Number of `docker compose up -d` calls of an attempt. */
  function Applies(a: Attempt): nat {
    1 + Reruns(a.examined)
  }

  /** Number of `docker compose up -d` calls the cycle made for a repository. */
  function AppliesMade(report: RepoReport): nat {
    if report.Attempted? then Applies(report.attempt) else 0
  }

  function Prepend(e: Examination, r: Remediation): Remediation {
    Remediation([e] + r.examined, r.outcome)
  }

  /**
    * Lines 90-100 from the condition at `index` on, with `output` the current
    * output and `calls` the number of `docker compose up -d` calls made so far.
    */
  function Remediate(successKeywords: seq<string>, conditions: seq<Condition>, apply: nat -> ApplyResult,
                     index: nat, output: string, calls: nat): (r: Remediation)
    requires index <= |conditions|
    ensures |r.examined| <= |conditions| - index
    ensures r.outcome != UpInitially
    ensures r.outcome == AllConditionsChecked ==> |r.examined| == |conditions| - index
    decreases |conditions| - index
  {
    if index == |conditions| then Remediation([], AllConditionsChecked)
    else if !ConditionMatches(output, conditions[index]) then
      Prepend(Examination(index, output, false, None),
              Remediate(successKeywords, conditions, apply, index + 1, output, calls))
    else
      var result := apply(calls);
      var e := Examination(index, output, true, Some(result));
      if Succeeds(result, successKeywords) then Remediation([e], UpAfterException(index))
      else Prepend(e, Remediate(successKeywords, conditions, apply, index + 1, result.output, calls + 1))
  }

  /** Lines 85-100: the first `docker compose up -d`, then the exception conditions if it failed. */
  function ApplyWithFallback(successKeywords: seq<string>, conditions: seq<Condition>, apply: nat -> ApplyResult): (a: Attempt)
    ensures a.initial == apply(0)
    ensures a.outcome == UpInitially <==> Succeeds(a.initial, successKeywords)
    ensures Applies(a) <= 1 + |conditions|
  {
    var first := apply(0);
    if Succeeds(first, successKeywords) then Attempt(first, [], UpInitially)
    else
      var r := Remediate(successKeywords, conditions, apply, 0, first.output, 1);
      Attempt(first, r.examined, r.outcome)
  }

  /** Lines 78-104 for one repository: the URL and change gates, then the attempt. */
  function RepositoryCycle(successKeywords: seq<string>, conditions: seq<Condition>, repo: Repository): (report: RepoReport)
    ensures report.Attempted? <==> Truthy(GetRepoUrl(repo.hasGitDir, repo.remoteOutput)) && repo.changed
  {
    var url := GetRepoUrl(repo.hasGitDir, repo.remoteOutput);
    if !Truthy(url) then InvalidRepository
    else if !repo.changed then NoChanges(url.value)
    else Attempted(url.value, ApplyWithFallback(successKeywords, conditions, repo.apply))
  }

  /**
    * Lines 90-100: the loop over the exception conditions after a failed
    * first apply whose output was `failedOutput`; one call had been made.
    */
  method RunExceptionConditions(successKeywords: seq<string>, conditions: seq<Condition>,
                                apply: nat -> ApplyResult, failedOutput: string)
    returns (r: Remediation)
    ensures r == Remediate(successKeywords, conditions, apply, 0, failedOutput, 1)
  {
    var output := failedOutput;
    var calls := 1;
    var examined: seq<Examination> := [];
    for index := 0 to |conditions|
      invariant var rest := Remediate(successKeywords, conditions, apply, index, output, calls);
                Remediate(successKeywords, conditions, apply, 0, failedOutput, 1)
                == Remediation(examined + rest.examined, rest.outcome)
    {
      ghost var rest := Remediate(successKeywords, conditions, apply, index, output, calls);
      if ConditionMatches(output, conditions[index]) {
        var result := apply(calls);
        var e := Examination(index, output, true, Some(result));
        if result.ok && AllKeywordsMatch(result.output, successKeywords) {
          assert rest == Remediation([e], UpAfterException(index));
          return Remediation(examined + [e], UpAfterException(index));
        }
        ghost var next := Remediate(successKeywords, conditions, apply, index + 1, result.output, calls + 1);
        assert rest == Prepend(e, next);
        assert examined + rest.examined == (examined + [e]) + next.examined;
        examined, output, calls := examined + [e], result.output, calls + 1;
      } else {
        var e := Examination(index, output, false, None);
        ghost var next := Remediate(successKeywords, conditions, apply, index + 1, output, calls);
        assert rest == Prepend(e, next);
        assert examined + rest.examined == (examined + [e]) + next.examined;
        examined := examined + [e];
      }
    }
    assert examined + [] == examined;
    r := Remediation(examined, AllConditionsChecked);
  }

  /** The body of the loop over `gitrepo_path` (lines 78-104). */
  method DeployRepository(successKeywords: seq<string>, conditions: seq<Condition>, repo: Repository)
    returns (report: RepoReport)
    ensures report == RepositoryCycle(successKeywords, conditions, repo)
  {
    var repoUrl := GetRepoUrl(repo.hasGitDir, repo.remoteOutput);
    if !Truthy(repoUrl) {
      return InvalidRepository;
    }
    if !repo.changed {
      return NoChanges(repoUrl.value);
    }
    var first := repo.apply(0);
    if first.ok && AllKeywordsMatch(first.output, successKeywords) {
      return Attempted(repoUrl.value, Attempt(first, [], UpInitially));
    }
    var r := RunExceptionConditions(successKeywords, conditions, repo.apply, first.output);
    report := Attempted(repoUrl.value, Attempt(first, r.examined, r.outcome));
  }

  /** `deployment_cycle`: every repository in configuration order, one report each. */
  method DeploymentCycle(successKeywords: seq<string>, conditions: seq<Condition>, repos: seq<Repository>)
    returns (reports: seq<RepoReport>)
    ensures |reports| == |repos|
    ensures forall j :: 0 <= j < |repos| ==> reports[j] == RepositoryCycle(successKeywords, conditions, repos[j])
  {
    reports := [];
    for j := 0 to |repos|
      invariant |reports| == j
      invariant forall i :: 0 <= i < j ==> reports[i] == RepositoryCycle(successKeywords, conditions, repos[i])
    {
      var report := DeployRepository(successKeywords, conditions, repos[j]);
      reports := reports + [report];
    }
  }
}
