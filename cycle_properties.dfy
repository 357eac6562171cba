/**
  * What the apply / fallback loop of `deployment_cycle` guarantees, proved
  * about the specification functions of module Deployment (which the
  * methods there are proved to compute).
  */
module CycleProperties {
  import opened Options
  import opened Strings
  import opened RepoUrl
  import opened Deployment

  /* ---------- the loop from a given condition on ---------- */

  /**
    * `e` examined condition `i`, and re-ran compose exactly when that
    * condition's search keywords matched the output it was tested against.
    */
  ghost predicate ExaminedCondition(e: Examination, conditions: seq<Condition>, i: nat) {
    && i < |conditions|
    && e.condition == i
    && e.matched == ConditionMatches(e.against, conditions[i])
    && (e.rerun.Some? <==> e.matched)
  }

  /** Examination k is of condition `index + k`. */
  ghost predicate VisitedInOrder(ex: seq<Examination>, conditions: seq<Condition>, index: nat) {
    forall k :: 0 <= k < |ex| ==> ExaminedCondition(ex[k], conditions, index + k)
  }

  /** Conditions are visited in configured order, each tested once, and re-run only on a match. */
  lemma {:induction false} RemediateInOrder(successKeywords: seq<string>, conditions: seq<Condition>,
                                            apply: nat -> ApplyResult, index: nat, output: string, calls: nat)
    requires index <= |conditions|
    ensures VisitedInOrder(Remediate(successKeywords, conditions, apply, index, output, calls).examined, conditions, index)
    decreases |conditions| - index
  {
    if index < |conditions| {
      var ex := Remediate(successKeywords, conditions, apply, index, output, calls).examined;
      var matched := ConditionMatches(output, conditions[index]);
      if !matched || !Succeeds(apply(calls), successKeywords) {
        var nextOutput := if matched then apply(calls).output else output;
        var next := if matched then calls + 1 else calls;
        var rest := Remediate(successKeywords, conditions, apply, index + 1, nextOutput, next).examined;
        assert ex == [ex[0]] + rest;
        RemediateInOrder(successKeywords, conditions, apply, index + 1, nextOutput, next);
        VisitedInOrderPrepend(Examination(index, output, matched, if matched then Some(apply(calls)) else None),
                              rest, conditions, index);
      }
    }
  }

  lemma VisitedInOrderPrepend(e: Examination, rest: seq<Examination>, conditions: seq<Condition>, index: nat)
    requires ExaminedCondition(e, conditions, index)
    requires VisitedInOrder(rest, conditions, index + 1)
    ensures VisitedInOrder([e] + rest, conditions, index)
  {
    var ex := [e] + rest;
    forall k | 0 <= k < |ex|
      ensures ExaminedCondition(ex[k], conditions, index + k)
    {
      if k > 0 {
        assert ex[k] == rest[k - 1] && index + k == index + 1 + (k - 1);
      }
    }
  }

  /** Each condition is tested against the output left by the previous step of the loop. */
  lemma {:induction false} RemediateLatestOutput(successKeywords: seq<string>, conditions: seq<Condition>,
                                                 apply: nat -> ApplyResult, index: nat, output: string, calls: nat)
    requires index <= |conditions|
    ensures var ex := Remediate(successKeywords, conditions, apply, index, output, calls).examined;
            && (|ex| > 0 ==> ex[0].against == output)
            && forall k :: 0 < k < |ex| ==> ex[k].against == OutputAfter(ex[k - 1])
    decreases |conditions| - index
  {
    if index < |conditions| {
      if !ConditionMatches(output, conditions[index]) {
        RemediateLatestOutput(successKeywords, conditions, apply, index + 1, output, calls);
      } else if !Succeeds(apply(calls), successKeywords) {
        RemediateLatestOutput(successKeywords, conditions, apply, index + 1, apply(calls).output, calls + 1);
      }
    }
  }

  /** Each re-run gets the result of the next `docker compose up -d` call, counting from `calls`. */
  ghost predicate ConsumesApplies(ex: seq<Examination>, apply: nat -> ApplyResult, calls: nat) {
    forall k :: 0 <= k < |ex| ==> RerunGot(ex[k], apply, calls + Reruns(ex[..k]))
  }

  /** A re-run recorded in `e`, if any, got the result of call `n`. */
  ghost predicate RerunGot(e: Examination, apply: nat -> ApplyResult, n: nat) {
    e.rerun.Some? ==> e.rerun.value == apply(n)
  }

  /** Re-runs consume the results of successive `docker compose up -d` calls. */
  lemma {:induction false} RemediateSuccessiveApplies(successKeywords: seq<string>, conditions: seq<Condition>,
                                                      apply: nat -> ApplyResult, index: nat, output: string, calls: nat)
    requires index <= |conditions|
    ensures ConsumesApplies(Remediate(successKeywords, conditions, apply, index, output, calls).examined, apply, calls)
    decreases |conditions| - index
  {
    if index < |conditions| {
      var ex := Remediate(successKeywords, conditions, apply, index, output, calls).examined;
      var matched := ConditionMatches(output, conditions[index]);
      if !matched || !Succeeds(apply(calls), successKeywords) {
        var nextOutput := if matched then apply(calls).output else output;
        var next := if matched then calls + 1 else calls;
        var rest := Remediate(successKeywords, conditions, apply, index + 1, nextOutput, next).examined;
        assert ex == [ex[0]] + rest;
        RemediateSuccessiveApplies(successKeywords, conditions, apply, index + 1, nextOutput, next);
        ConsumesAppliesPrepend(Examination(index, output, matched, if matched then Some(apply(calls)) else None),
                               rest, apply, calls);
      }
    }
  }

  lemma ConsumesAppliesPrepend(e: Examination, rest: seq<Examination>, apply: nat -> ApplyResult, calls: nat)
    requires RerunGot(e, apply, calls)
    requires ConsumesApplies(rest, apply, if e.rerun.Some? then calls + 1 else calls)
    ensures ConsumesApplies([e] + rest, apply, calls)
  {
    var ex := [e] + rest;
    var next := if e.rerun.Some? then calls + 1 else calls;
    forall k | 0 <= k < |ex|
      ensures RerunGot(ex[k], apply, calls + Reruns(ex[..k]))
    {
      if k == 0 {
        assert ex[..k] == [];
      } else {
        RerunsBeforePrepended(e, rest, k);
        assert ex[k] == rest[k - 1] && calls + Reruns(ex[..k]) == next + Reruns(rest[..k - 1]);
      }
    }
  }

  lemma RerunsBeforePrepended(e: Examination, rest: seq<Examination>, k: nat)
    requires 0 < k <= |rest|
    ensures Reruns(([e] + rest)[..k]) == (if e.rerun.Some? then 1 else 0) + Reruns(rest[..k - 1])
  {
    var before := ([e] + rest)[..k];
    assert before[0] == e && before[1..] == rest[..k - 1];
  }

  /**
    * A re-run succeeds exactly at the last examination of a loop that ends
    * with `break`; a loop that runs out of conditions saw no success.
    */
  lemma {:induction false} RemediateOutcome(successKeywords: seq<string>, conditions: seq<Condition>,
                                            apply: nat -> ApplyResult, index: nat, output: string, calls: nat)
    requires index <= |conditions|
    ensures var r := Remediate(successKeywords, conditions, apply, index, output, calls);
            && (r.outcome.UpAfterException? ==> |r.examined| > 0 && r.outcome.condition == index + |r.examined| - 1)
            && forall k :: 0 <= k < |r.examined| ==>
                 (RerunSucceeded(r.examined[k], successKeywords)
                  <==> r.outcome.UpAfterException? && k == |r.examined| - 1)
    decreases |conditions| - index
  {
    if index < |conditions| {
      if !ConditionMatches(output, conditions[index]) {
        RemediateOutcome(successKeywords, conditions, apply, index + 1, output, calls);
      } else if !Succeeds(apply(calls), successKeywords) {
        RemediateOutcome(successKeywords, conditions, apply, index + 1, apply(calls).output, calls + 1);
      }
    }
  }

  /** Without a matching condition the loop changes nothing and ends without success. */
  lemma {:induction false} RemediateNoMatch(successKeywords: seq<string>, conditions: seq<Condition>,
                                            apply: nat -> ApplyResult, index: nat, output: string, calls: nat)
    requires index <= |conditions|
    requires forall j :: index <= j < |conditions| ==> !ConditionMatches(output, conditions[j])
    ensures var r := Remediate(successKeywords, conditions, apply, index, output, calls);
            r.outcome == AllConditionsChecked && Reruns(r.examined) == 0
    decreases |conditions| - index
  {
    if index < |conditions| {
      RemediateNoMatch(successKeywords, conditions, apply, index + 1, output, calls);
      var r := Remediate(successKeywords, conditions, apply, index, output, calls);
      assert r.examined[1..] == Remediate(successKeywords, conditions, apply, index + 1, output, calls).examined;
    }
  }

  /** Conditions that do not match are passed over: the loop continues at the next one. */
  lemma {:induction false} RemediateSkipsTo(successKeywords: seq<string>, conditions: seq<Condition>,
                                            apply: nat -> ApplyResult, index: nat, output: string, calls: nat, j: nat)
    requires index <= j <= |conditions|
    requires forall i :: index <= i < j ==> !ConditionMatches(output, conditions[i])
    ensures var r, s := Remediate(successKeywords, conditions, apply, index, output, calls),
                       Remediate(successKeywords, conditions, apply, j, output, calls);
            r.outcome == s.outcome && |r.examined| == j - index + |s.examined|
            && Reruns(r.examined) == Reruns(s.examined)
    decreases j - index
  {
    if index < j {
      RemediateSkipsTo(successKeywords, conditions, apply, index + 1, output, calls, j);
      var r := Remediate(successKeywords, conditions, apply, index, output, calls);
      assert r.examined[1..] == Remediate(successKeywords, conditions, apply, index + 1, output, calls).examined;
    }
  }

  /* ---------- the whole attempt (lines 85-100) ---------- */

  /** A first apply that succeeds ends the attempt: one call, no condition examined. */
  lemma InitialSuccessSkipsConditions(successKeywords: seq<string>, conditions: seq<Condition>, apply: nat -> ApplyResult)
    requires Succeeds(apply(0), successKeywords)
    ensures ApplyWithFallback(successKeywords, conditions, apply) == Attempt(apply(0), [], UpInitially)
    ensures Applies(ApplyWithFallback(successKeywords, conditions, apply)) == 1
  {
  }

  /**
    * After a failed first apply the conditions are examined in configured
    * order; a condition causes a re-run exactly when its search keywords
    * match the output it is tested against.
    */
  lemma ConditionsExaminedInOrder(successKeywords: seq<string>, conditions: seq<Condition>, apply: nat -> ApplyResult)
    ensures var a := ApplyWithFallback(successKeywords, conditions, apply);
            && |a.examined| <= |conditions|
            && forall k :: 0 <= k < |a.examined| ==>
                 && a.examined[k].condition == k
                 && a.examined[k].matched == ConditionMatches(a.examined[k].against, conditions[k])
                 && (a.examined[k].rerun.Some? <==> a.examined[k].matched)
  {
    RemediateInOrder(successKeywords, conditions, apply, 0, apply(0).output, 1);
  }

  /**
    * The first condition is tested against the failed first output, every
    * later one against the output of the most recent re-run, not against
    * the original failure output.
    */
  lemma ConditionsTestedAgainstLatestOutput(successKeywords: seq<string>, conditions: seq<Condition>, apply: nat -> ApplyResult)
    ensures var a := ApplyWithFallback(successKeywords, conditions, apply);
            && (|a.examined| > 0 ==> a.examined[0].against == a.initial.output)
            && forall k :: 0 < k < |a.examined| ==> a.examined[k].against == OutputAfter(a.examined[k - 1])
  {
    RemediateLatestOutput(successKeywords, conditions, apply, 0, apply(0).output, 1);
  }

  /** The n-th `docker compose up -d` of the attempt gets result `apply(n)`. */
  lemma RerunsUseSuccessiveApplies(successKeywords: seq<string>, conditions: seq<Condition>, apply: nat -> ApplyResult)
    ensures var a := ApplyWithFallback(successKeywords, conditions, apply);
            forall k :: 0 <= k < |a.examined| && a.examined[k].rerun.Some? ==>
              a.examined[k].rerun.value == apply(1 + Reruns(a.examined[..k]))
  {
    RemediateSuccessiveApplies(successKeywords, conditions, apply, 0, apply(0).output, 1);
  }

  /**
    * The loop stops at the first re-run that succeeds (the `break`): it is
    * the last examination, and no earlier re-run succeeded.
    */
  lemma StopsAtFirstSuccessfulRerun(successKeywords: seq<string>, conditions: seq<Condition>, apply: nat -> ApplyResult)
    ensures var a := ApplyWithFallback(successKeywords, conditions, apply);
            && (a.outcome.UpAfterException? ==>
                  !Succeeds(a.initial, successKeywords) && |a.examined| > 0
                  && a.outcome.condition == |a.examined| - 1)
            && forall k :: 0 <= k < |a.examined| ==>
                 (RerunSucceeded(a.examined[k], successKeywords)
                  <==> a.outcome.UpAfterException? && k == |a.examined| - 1)
  {
    RemediateOutcome(successKeywords, conditions, apply, 0, apply(0).output, 1);
  }

  /**
    * The attempt fails (the for-`else` message at line 100) exactly when no
    * `docker compose up -d` of it succeeded; it then went through every condition.
    */
  lemma FailedIffNoApplySucceeded(successKeywords: seq<string>, conditions: seq<Condition>, apply: nat -> ApplyResult)
    ensures var a := ApplyWithFallback(successKeywords, conditions, apply);
            && (a.outcome == AllConditionsChecked
                <==> !Succeeds(a.initial, successKeywords)
                     && forall k :: 0 <= k < |a.examined| ==> !RerunSucceeded(a.examined[k], successKeywords))
            && (a.outcome == AllConditionsChecked ==> |a.examined| == |conditions|)
  {
    if !Succeeds(apply(0), successKeywords) {
      var r := Remediate(successKeywords, conditions, apply, 0, apply(0).output, 1);
      RemediateOutcome(successKeywords, conditions, apply, 0, apply(0).output, 1);
      if r.outcome.UpAfterException? {
        assert RerunSucceeded(r.examined[|r.examined| - 1], successKeywords);
      }
    }
  }

  /** If no condition matches the failed output, the attempt fails after that single apply. */
  lemma NoMatchingConditionFails(successKeywords: seq<string>, conditions: seq<Condition>, apply: nat -> ApplyResult)
    requires !Succeeds(apply(0), successKeywords)
    requires forall c :: c in conditions ==> !ConditionMatches(apply(0).output, c)
    ensures ApplyWithFallback(successKeywords, conditions, apply).outcome == AllConditionsChecked
    ensures Applies(ApplyWithFallback(successKeywords, conditions, apply)) == 1
  {
    RemediateNoMatch(successKeywords, conditions, apply, 0, apply(0).output, 1);
  }

  /**
    * If condition `j` is the first one matching the failed output and the
    * re-run it causes succeeds, the attempt is up after exactly two applies
    * and no later condition is examined.
    */
  lemma FirstMatchingConditionRecovers(successKeywords: seq<string>, conditions: seq<Condition>,
                                       apply: nat -> ApplyResult, j: nat)
    requires !Succeeds(apply(0), successKeywords)
    requires j < |conditions| && ConditionMatches(apply(0).output, conditions[j])
    requires forall i :: 0 <= i < j ==> !ConditionMatches(apply(0).output, conditions[i])
    requires Succeeds(apply(1), successKeywords)
    ensures var a := ApplyWithFallback(successKeywords, conditions, apply);
            a.outcome == UpAfterException(j) && |a.examined| == j + 1 && Applies(a) == 2
  {
    RemediateSkipsTo(successKeywords, conditions, apply, 0, apply(0).output, 1, j);
  }

  /* ---------- one repository (lines 78-104) ---------- */

  /**
    * `docker compose up -d` runs only for a repository with a truthy URL and
    * a detected change; it then runs between once and once per condition
    * more, and the report carries the URL it was deployed under.
    */
  lemma ApplyOnlyWhenUrlAndChange(successKeywords: seq<string>, conditions: seq<Condition>, repo: Repository)
    ensures AppliesMade(RepositoryCycle(successKeywords, conditions, repo)) > 0
            <==> Truthy(GetRepoUrl(repo.hasGitDir, repo.remoteOutput)) && repo.changed
    ensures var report := RepositoryCycle(successKeywords, conditions, repo);
            report.Attempted? ==>
              && report.url == GetRepoUrl(repo.hasGitDir, repo.remoteOutput).value
              && report.attempt == ApplyWithFallback(successKeywords, conditions, repo.apply)
              && 1 <= AppliesMade(report) <= 1 + |conditions|
  {
  }

  /** A remote whose text is blank or ends with `@` leaves an empty URL: the repository is skipped. */
  lemma EmptyRemoteSkipped(successKeywords: seq<string>, conditions: seq<Condition>, repo: Repository)
    requires var t := Strip(repo.remoteOutput, IsSpace); t == [] || t[|t| - 1] == '@'
    ensures RepositoryCycle(successKeywords, conditions, repo) == InvalidRepository
    ensures AppliesMade(RepositoryCycle(successKeywords, conditions, repo)) == 0
  {
    EmptyUrlWhenNothingAfterLastAt(repo.remoteOutput);
  }
}
