/**
  * `get_repo_url(git_path)`: only the text after the last `@` of the
  * stripped remote URL, or `None` unless `git_path` exists and
  * `git_path/.git` is a directory.
  * This removes `user:token@` credentials, but also the scheme
  * (`https://u:t@host/r` gives `host/r`) and any text before an `@` inside
  * the path. The caller skips the repository unless the result is
  * truthy, that is present and non-empty.
  */
module RepoUrl {
  import opened Options
  import opened Strings

  /** Python `str.isspace` for a single code point: the characters `str.strip()` removes. */
  predicate IsSpace(c: char) {
    var n := c as int;
    (9 <= n <= 13) || (28 <= n <= 32) || n == 0x85 || n == 0xA0 || n == 0x1680
    || (0x2000 <= n <= 0x200A) || n == 0x2028 || n == 0x2029 || n == 0x202F
    || n == 0x205F || n == 0x3000
  }

  /** `stdout.strip().split('@')[-1]` (line 30). */
  function AfterLastAt(stdout: string): string {
    var parts := Split(Strip(stdout, IsSpace), '@');
    parts[|parts| - 1]
  }

  /**
    * `get_repo_url`: `None` unless `git_path` exists and `git_path/.git`
    * is a directory (line 25), otherwise the text after the last `@` of
    * `git config --get remote.origin.url` (lines 29-30).
    */
  function GetRepoUrl(hasGitDir: bool, stdout: string): Option<string> {
    if !hasGitDir then None else Some(AfterLastAt(stdout))
  }

  /** Python truthiness of the returned URL (line 82): present and non-empty. */
  predicate Truthy(url: Option<string>) {
    url.Some? && url.value != ""
  }

  /**
    * The URL is what follows the last `@` of the whitespace-stripped
    * output, or all of it when it holds no `@`: a suffix without `@`,
    * preceded by `@` unless it is the whole stripped text.
    */
  lemma UrlAfterLastAt(stdout: string)
    ensures var t, url := Strip(stdout, IsSpace), AfterLastAt(stdout);
            && (forall j :: 0 <= j < |url| ==> url[j] != '@')
            && |url| <= |t| && t[|t| - |url|..] == url
            && (|url| < |t| ==> t[|t| - |url| - 1] == '@')
  {
    LastPieceAfterLastSeparator(Strip(stdout, IsSpace), '@');
  }

  /**
    * `get_repo_url` gives `None` exactly when `git_path/.git` is not an
    * existing directory (line 25), and never a URL with `@`.
    */
  lemma GetRepoUrlSpec(hasGitDir: bool, stdout: string)
    ensures GetRepoUrl(hasGitDir, stdout).None? <==> !hasGitDir
    ensures GetRepoUrl(hasGitDir, stdout).Some? ==> '@' !in GetRepoUrl(hasGitDir, stdout).value
  {
    UrlAfterLastAt(stdout);
  }

  /**
    * A remote whose stripped text is empty or ends with `@` yields the empty
    * string, which is falsy: the repository is then skipped.
    */
  lemma EmptyUrlWhenNothingAfterLastAt(stdout: string)
    requires var t := Strip(stdout, IsSpace); t == [] || t[|t| - 1] == '@'
    ensures AfterLastAt(stdout) == ""
    ensures !Truthy(GetRepoUrl(true, stdout))
  {
    var t, url := Strip(stdout, IsSpace), AfterLastAt(stdout);
    UrlAfterLastAt(stdout);
    assert forall j :: 0 <= j < |url| ==> url[j] == t[|t| - |url| + j];
  }

  /**
    * A remote `user@host` padded with whitespace gives `host` when `host`
    * holds no `@`: the credentials (everything up to the last `@`) and the
    * padding are removed, whatever `user` holds.
    */
  lemma CredentialsRemoved(lead: string, user: string, host: string, trail: string)
    requires forall i :: 0 <= i < |lead| ==> IsSpace(lead[i])
    requires forall i :: 0 <= i < |trail| ==> IsSpace(trail[i])
    requires user == [] || !IsSpace(user[0])
    requires host == [] || !IsSpace(host[|host| - 1])
    requires forall j :: 0 <= j < |host| ==> host[j] != '@'
    ensures AfterLastAt(lead + user + "@" + host + trail) == host
  {
    var stdout := lead + user + "@" + host + trail;
    var t := user + "@" + host;
    assert stdout == lead + t + trail;
    StripPadded(lead, t, trail, IsSpace);
    var url := AfterLastAt(stdout);
    UrlAfterLastAt(stdout);
    assert t[|t| - |host|..] == host && t[|user|] == '@';
    // neither the URL nor `host` contains the `@` in front of the other
    forall p | |t| - |url| <= p < |t| ensures t[p] != '@' {
      assert t[p] == url[p - (|t| - |url|)];
    }
    assert |url| <= |host|;
    forall p | |t| - |host| <= p < |t| ensures t[p] != '@' {
      assert t[p] == host[p - (|t| - |host|)];
    }
    assert |url| == |host|;
  }
}
