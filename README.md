# Deployment cycle of AutomatComposeDeploy, modelled in Dafny

`deployment_script.py` is a polling deployment agent. On every cycle it walks
the repositories listed under `gitrepo_path` in its configuration. For each
one it:

1. reads the remote URL (`get_repo_url`), keeping only the text after its last `@`;
2. pulls and checks whether the compose file changed (`detect_git_changes`);
3. runs `docker compose up -d`;
4. if that did not succeed, walks the ordered `exception_condition` list.

An apply succeeds when its exit status is 0 and its output (stdout followed by
stderr) contains, as a whole word, every success keyword not starting with `!`,
with its trailing `!` removed (`all_keywords_match`).

The model has six modules, one file each:

- `Options` (options.dfy): the `Option` datatype.
- `Strings` (strings.dfy): Python's `str.strip(chars)`, `str.split(sep)` and
  `sep.join(parts)` for a non-empty list, with lemmas on what they compute. Stripping takes the
  characters to drop as a predicate. The lemmas include the split/join round
  trip and which piece of a split comes last.
- `Keywords` (keywords.dfy): `all_keywords_match`, with the regular-expression
  word boundary `\b` written out.
- `RepoUrl` (repo_url.dfy): `get_repo_url`, that is `stdout.strip().split('@')[-1]`,
  and Python truthiness of its result.
- `Deployment` (deployment.dfy): the cycle.
  - Specification functions: `Remediate`, `ApplyWithFallback` and `RepositoryCycle`.
  - Loop methods proved to compute them: `RunExceptionConditions`,
    `DeployRepository` and `DeploymentCycle`.
- `CycleProperties` (cycle_properties.dfy): what the cycle guarantees.

The external commands are inputs to the model:

- whether `git_path` exists and `git_path/.git` is a directory (line 25);
- the stdout of `git config --get remote.origin.url`;
- the change verdict of `detect_git_changes`;
- the results of the successive `docker compose up -d` calls for a repository.
  `apply(n)` is the n-th call, counting from 0.

The model records each attempt as a trace: the first apply, then one
`Examination` per condition the loop visits, then one of three outcomes. The
three outcomes match the three messages at lines 87, 95 and 100.

Six behaviours of the code that its names do not suggest:

- **The condition's `command` is never run.** A condition whose search keywords
  match causes one more `docker compose up -d` (line 93).
- **Later conditions are tested against the latest output.** `output` is
  overwritten by each re-run, so a later condition is tested against the most
  recent re-run's output, not the original failure output.
  (`ConditionsTestedAgainstLatestOutput`)
- **Keywords starting with `!` are ignored.** They are not treated as "must not
  appear" (`BangKeywordIgnored`).
- **Matching is case-sensitive.** With success keywords `["done", "running"]`,
  an output that says `Running` does not match (`CaseSensitiveExample`).
- **The URL keeps only the text after its last `@`.** `get_repo_url` returns
  `stdout.strip().split('@')[-1]` (line 30). This removes `user:token@`
  credentials, and also the scheme (`https://u:t@host/r` gives `host/r`) and
  any text before an `@` inside the path (`UrlAfterLastAt`, `CredentialsRemoved`).
- **Only a `.git` directory counts as a repository.** Line 25 asks for
  `git_path/.git` to be a directory. A submodule or linked-worktree checkout,
  whose `.git` is a file, is reported as an invalid repository (line 104) on
  every cycle and never deployed (`GetRepoUrlSpec`, `ApplyOnlyWhenUrlAndChange`).

## Model

| member | source | states |
|---|---|---|
| Strings.TrimStartSpec | deployment_script.py:30 | left stripping keeps the suffix that starts at the first kept character; every character before it is dropped |
| Strings.TrimEndSpec | deployment_script.py:68 | right stripping keeps the prefix that ends at the last kept character; every character after it is dropped |
| Strings.StripSpec | deployment_script.py:30 | `strip` returns a slice of the input that neither starts nor ends with a dropped character, and everything around that slice is dropped |
| Strings.StripPadded | deployment_script.py:30 | text padded on both sides with dropped characters strips back to itself when its own ends are kept |
| Strings.SplitPiecesFree | deployment_script.py:30 | no piece of `split(sep)` contains the separator |
| Strings.JoinSplit | deployment_script.py:30 | joining the pieces of a split with the separator gives the input back |
| Strings.SplitJoin | deployment_script.py:30 | splitting a join of separator-free pieces gives the pieces back |
| Strings.SplitPiece | deployment_script.py:30 | a separator-free text splits into itself alone |
| Strings.SplitAfterPiece | deployment_script.py:30 | text of the form `p + sep + t` with a separator-free `p` splits into `p` followed by the pieces of `t` |
| Strings.LastPieceAfterLastSeparator | deployment_script.py:30 | the piece `[-1]` of a split is a separator-free suffix, preceded by the separator unless it is the whole text |
| Keywords.SearchFromSpec | deployment_script.py:68 | the search returns the leftmost whole-word occurrence at or after the start position, and `None` exactly when there is none |
| Keywords.KeywordHoldsIff | deployment_script.py:68 | one keyword passes the generator iff it starts with `!` or its `!`-stripped text occurs as a whole word |
| Keywords.AllKeywordsMatchIff | deployment_script.py:66-68 | the list matches iff every keyword not starting with `!` occurs, `!`-stripped, as a whole word of the output |
| Keywords.RetainedKeywordLosesTrailingBangs | deployment_script.py:68 | for a keyword kept by the filter, `strip('!')` only removes its trailing `!` characters |
| Keywords.SingleKeyword | deployment_script.py:68 | a one-keyword list matches iff the keyword without trailing `!` sits between two word boundaries somewhere in the output |
| Keywords.ConcatenatedKeywords | deployment_script.py:68 | matching a concatenation of lists is matching both |
| Keywords.BangKeywordIgnored | deployment_script.py:68 | inserting a keyword that starts with `!` anywhere in a list never changes the verdict |
| Keywords.OnlyBangKeywordsMatch | deployment_script.py:68 | an empty list, or one whose keywords all start with `!`, matches every output |
| Keywords.KeywordOrderIrrelevant | deployment_script.py:68 | two lists holding the same keywords, in any order and with any repetition, give the same verdict |
| Keywords.BoundaryBefore | deployment_script.py:68 | a word character has a word boundary at or before it |
| Keywords.EmptyKeywordMatchesIffWordChar | deployment_script.py:68 | the empty keyword (pattern `\b\b`) matches iff the output holds a word character |
| Keywords.ExampleOutputWords | deployment_script.py:68 | in the output "Running, done." the words "done" and "Running" occur and "running" does not |
| Keywords.PlainKeyword | deployment_script.py:68 | a keyword without `!` is searched for unchanged |
| Keywords.TwoKeywords | deployment_script.py:68 | a two-keyword list matches iff both keywords hold |
| Keywords.CaseSensitiveExample | deployment_script.py:86 | the output "Running, done." fails success keywords `["done", "running"]` and passes `["done", "Running"]` |
| RepoUrl.UrlAfterLastAt | deployment_script.py:30 | the URL is the text after the last `@` of the stripped output (all of it when there is none): an `@`-free suffix, preceded by `@` unless it is the whole text |
| RepoUrl.GetRepoUrlSpec | deployment_script.py:25-30 | `None` exactly when `git_path` does not exist or `git_path/.git` is not a directory (line 25); a returned URL never holds `@` |
| RepoUrl.EmptyUrlWhenNothingAfterLastAt | deployment_script.py:30 | blank output, or output ending in `@`, gives the empty URL, which is falsy |
| RepoUrl.CredentialsRemoved | deployment_script.py:30 | whitespace-padded `user@host` output gives exactly `host` when `host` holds no `@`, whatever `user` holds |
| Deployment.Remediate | deployment_script.py:90-100 | the loop examines at most the remaining conditions, never ends as "up initially", and examines all of them when it ends without success |
| Deployment.ApplyWithFallback | deployment_script.py:85-100 | the attempt starts with call 0, ends "up initially" iff that call succeeded, and makes at most one call more than there are conditions |
| Deployment.RepositoryCycle | deployment_script.py:78-104 | an apply is attempted iff the URL is truthy and a change was detected |
| Deployment.RunExceptionConditions | deployment_script.py:90-100 | the loop, with `output` overwritten and `break` on the first success, computes `Remediate` from the first condition |
| Deployment.DeployRepository | deployment_script.py:78-104 | the body of the repository loop computes `RepositoryCycle` |
| Deployment.DeploymentCycle | deployment_script.py:77-104 | one report per repository, in configuration order, each equal to `RepositoryCycle` |
| CycleProperties.RemediateInOrder | deployment_script.py:90-93 | from any condition on, examination k is of condition `index + k`, and a re-run happens exactly when that condition matched |
| CycleProperties.RemediateLatestOutput | deployment_script.py:92-93 | each examined condition is tested against the output left by the previous examination |
| CycleProperties.RemediateSuccessiveApplies | deployment_script.py:93 | each re-run gets the result of the next call, counting the earlier re-runs |
| CycleProperties.RemediateOutcome | deployment_script.py:94-100 | a re-run succeeded exactly at the last examination of a loop that ends with `break`, and that examination is of the condition the outcome names |
| CycleProperties.RemediateNoMatch | deployment_script.py:90-100 | when no remaining condition matches the current output, the loop re-runs nothing and ends without success |
| CycleProperties.RemediateSkipsTo | deployment_script.py:90-92 | conditions that do not match are passed over without changing the outcome or the number of re-runs |
| CycleProperties.InitialSuccessSkipsConditions | deployment_script.py:85-87 | a first apply that succeeds ends the attempt after one call, with no condition examined |
| CycleProperties.ConditionsExaminedInOrder | deployment_script.py:90-93 | after a failed first apply, examination k is of condition k, and a re-run happens exactly when that condition matched |
| CycleProperties.ConditionsTestedAgainstLatestOutput | deployment_script.py:92-93 | the first condition is tested against the failed first output; every later one against the most recent output |
| CycleProperties.RerunsUseSuccessiveApplies | deployment_script.py:85-93 | the k-th re-run of the attempt receives the result of call `1 + (re-runs before it)` |
| CycleProperties.StopsAtFirstSuccessfulRerun | deployment_script.py:94-96 | an attempt that is up after an exception failed its first apply; its last examination is the only successful re-run, and it is of the condition the outcome names |
| CycleProperties.FailedIffNoApplySucceeded | deployment_script.py:85-100 | the attempt ends with "all exception conditions checked" iff no apply of it succeeded, and then every condition was examined |
| CycleProperties.NoMatchingConditionFails | deployment_script.py:90-100 | if no condition matches the failed output, the attempt fails after that single apply |
| CycleProperties.FirstMatchingConditionRecovers | deployment_script.py:90-96 | if condition j is the first to match the failed output and the re-run it causes succeeds, the attempt is up after two calls with conditions 0..j examined |
| CycleProperties.ApplyOnlyWhenUrlAndChange | deployment_script.py:81-104 | `docker compose up -d` runs for a repository iff its URL is truthy and a change was detected; it then runs the whole apply-with-fallback attempt, between 1 and 1 + (number of conditions) times, and the report carries that URL |
| CycleProperties.EmptyRemoteSkipped | deployment_script.py:23-33 | a remote whose stripped text is blank or ends with `@` makes the cycle skip the repository without any apply |

## Left out

- `read_config` (lines 13-21) is not modelled: YAML loading and file lookup are I/O. The configuration is passed in already parsed. Every keyword and command is a string; a condition is its search keywords and its command.
- `detect_git_changes` (lines 35-51) is not modelled beyond its result: `cp`, `git pull`, `cmp` and the file removal are external commands. The verdict is a boolean input. Its exception path yields `False`, which the input already covers.
- `get_repo_url`: the filesystem checks (line 25) are one boolean input, and `git config` is its stdout. The `CalledProcessError` handler (lines 31-33) is not modelled: `subprocess.run` without `check=True` does not raise it. A missing `git` binary raises an uncaught error, which is not modelled either.
- `execute_docker_compose_up` (lines 53-64) is an input: `apply(n)` gives the combined stdout and stderr and whether the exit status was 0. Its `CalledProcessError` handler (lines 62-64) is not modelled: `subprocess.run` at line 57 has no `check=True`, so it never raises that error.
- Deployment.DeploymentCycle: assumes every external command starts. An `OSError` from `subprocess.run` (`docker` or `git` missing, or a compose directory that does not exist) is caught by no handler at lines 57 or 29. It passes through `deployment_cycle` and `schedule.run_pending` (lines 113-118), skips the remaining repositories and ends the process. The model has no such abort, so its promise of one report per repository does not cover that case.
- Printing, timestamps and the Asia/Kolkata time zone (lines 26, 76, 83-110) are left out: they have no effect on control flow.
- The `schedule` loop and the script entry point (lines 113-121) are left out: timing is not modelled.
- Keywords.IsWordChar: `\w` is the ASCII set `[A-Za-z0-9_]`. Python's `str` patterns use Unicode word characters, so outputs with non-ASCII letters next to a keyword can get a different verdict.
- `re.escape` is modelled by literal matching of the stripped keyword. This is its meaning, not its escaping algorithm.
