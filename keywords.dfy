/**
  * `all_keywords_match(output, keywords)`: every keyword that does not start
  * with `!`, stripped of its `!` characters, must occur literally and
  * case-sensitively in the output between two regular-expression word
  * boundaries (`\b`). Python's `\w` is Unicode-aware; this model uses the
  * ASCII word characters `[A-Za-z0-9_]` instead.
  */
module Keywords {
  import opened Options
  import opened Strings

  /** ASCII approximation of Python's `\w`. */
  predicate IsWordChar(c: char) {
    ('a' <= c <= 'z') || ('A' <= c <= 'Z') || ('0' <= c <= '9') || c == '_'
  }

  /** A word character at position `i` of `s`; positions outside `s` are not. */
  predicate WordAt(s: string, i: int) {
    0 <= i < |s| && IsWordChar(s[i])
  }

  /** `\b` at position `i`: exactly one of the characters around it is a word character. */
  predicate Boundary(s: string, i: int) {
    WordAt(s, i - 1) != WordAt(s, i)
  }

  /** `k` appears literally in `s` starting at `i`, with a word boundary on each side. */
  predicate WholeWordAt(s: string, k: string, i: int) {
    0 <= i && i + |k| <= |s| && s[i..i + |k|] == k && Boundary(s, i) && Boundary(s, i + |k|)
  }

  /** `k` occurs in `s` as a whole word. */
  ghost predicate OccursAsWord(s: string, k: string) {
    exists i :: WholeWordAt(s, k, i)
  }

  /**
    * `re.search(r'\b' + re.escape(k) + r'\b', s)` scanning from position
    * `start`: the leftmost whole-word occurrence, or `None`.
    */
  function SearchFrom(s: string, k: string, start: nat): Option<nat>
    decreases |s| - start
  {
    if start + |k| > |s| then None
    else if WholeWordAt(s, k, start) then Some(start)
    else SearchFrom(s, k, start + 1)
  }

  /** The search finds the leftmost whole-word occurrence at or after `start`, if any. */
  lemma {:induction false} SearchFromSpec(s: string, k: string, start: nat)
    ensures var r := SearchFrom(s, k, start);
            && (r.Some? ==> start <= r.value && WholeWordAt(s, k, r.value))
            && (r.Some? ==> forall j :: start <= j < r.value ==> !WholeWordAt(s, k, j))
            && (r.None? ==> forall j :: start <= j ==> !WholeWordAt(s, k, j))
    decreases |s| - start
  {
    if start + |k| <= |s| && !WholeWordAt(s, k, start) {
      SearchFromSpec(s, k, start + 1);
    }
  }

  predicate IsBang(c: char) { c == '!' }

  /** Python `keyword.startswith('!')`: such keywords are dropped. */
  predicate StartsWithBang(k: string) {
    |k| > 0 && k[0] == '!'
  }

  /** Python `keyword.strip('!')`. */
  function StripBang(k: string): string {
    Strip(k, IsBang)
  }

  /** One keyword of the generator in `all_keywords_match`: dropped or searched for. */
  function KeywordHolds(output: string, keyword: string): bool {
    StartsWithBang(keyword) || SearchFrom(output, StripBang(keyword), 0).Some?
  }

  /** A keyword holds when it is dropped or its stripped text occurs as a whole word. */
  lemma KeywordHoldsIff(output: string, keyword: string)
    ensures KeywordHolds(output, keyword)
            <==> StartsWithBang(keyword) || OccursAsWord(output, StripBang(keyword))
  {
    SearchFromSpec(output, StripBang(keyword), 0);
  }

  /** `all_keywords_match(output, keywords)`: `all(...)` over the retained keywords. */
  function AllKeywordsMatch(output: string, keywords: seq<string>): bool {
    if keywords == [] then true
    else KeywordHolds(output, keywords[0]) && AllKeywordsMatch(output, keywords[1..])
  }

  /**
    * The list matches exactly when every keyword not starting with `!`
    * occurs, `!`-stripped, as a whole word of the output.
    */
  lemma {:induction false} AllKeywordsMatchIff(output: string, keywords: seq<string>)
    ensures AllKeywordsMatch(output, keywords)
            <==> forall k :: k in keywords && !StartsWithBang(k) ==> OccursAsWord(output, StripBang(k))
    decreases |keywords|
  {
    if keywords != [] {
      KeywordHoldsIff(output, keywords[0]);
      AllKeywordsMatchIff(output, keywords[1..]);
      assert forall k :: k in keywords <==> k == keywords[0] || k in keywords[1..];
    }
  }

  /** For a retained keyword, `strip('!')` removes only its trailing `!` characters. */
  lemma RetainedKeywordLosesTrailingBangs(k: string)
    requires !StartsWithBang(k)
    ensures StripBang(k) == TrimEnd(k, IsBang)
    ensures |StripBang(k)| <= |k| && StripBang(k) == k[..|StripBang(k)|]
    ensures forall i :: |StripBang(k)| <= i < |k| ==> k[i] == '!'
  {
    assert TrimStart(k, IsBang) == k;
    TrimEndSpec(k, IsBang);
  }

  /** A retained keyword matches exactly when its `!`-less text occurs as a whole word. */
  lemma {:induction false} SingleKeyword(output: string, k: string)
    requires !StartsWithBang(k)
    ensures AllKeywordsMatch(output, [k])
            <==> exists i :: WholeWordAt(output, TrimEnd(k, IsBang), i)
  {
    RetainedKeywordLosesTrailingBangs(k);
    KeywordHoldsIff(output, k);
  }

  /** Matching a concatenation is matching both parts. */
  lemma {:induction false} ConcatenatedKeywords(output: string, k1: seq<string>, k2: seq<string>)
    ensures AllKeywordsMatch(output, k1 + k2)
            == (AllKeywordsMatch(output, k1) && AllKeywordsMatch(output, k2))
    decreases |k1|
  {
    if k1 == [] {
      assert k1 + k2 == k2;
    } else {
      assert (k1 + k2)[0] == k1[0];
      assert (k1 + k2)[1..] == k1[1..] + k2;
      ConcatenatedKeywords(output, k1[1..], k2);
    }
  }

  /** Inserting a keyword that starts with `!` anywhere changes nothing. */
  lemma {:induction false} BangKeywordIgnored(output: string, before: seq<string>, k: string, after: seq<string>)
    requires StartsWithBang(k)
    ensures AllKeywordsMatch(output, before + [k] + after) == AllKeywordsMatch(output, before + after)
  {
    ConcatenatedKeywords(output, before, [k]);
    ConcatenatedKeywords(output, before + [k], after);
    ConcatenatedKeywords(output, before, after);
    assert [k][1..] == [];
  }

  /** An empty list, or one whose keywords all start with `!`, always matches. */
  lemma {:induction false} OnlyBangKeywordsMatch(output: string, keywords: seq<string>)
    requires forall k :: k in keywords ==> StartsWithBang(k)
    ensures AllKeywordsMatch(output, keywords)
    decreases |keywords|
  {
    if keywords != [] {
      assert keywords[0] in keywords;
      assert forall k :: k in keywords[1..] ==> k in keywords;
      OnlyBangKeywordsMatch(output, keywords[1..]);
    }
  }

  /** Only which keywords a list holds matters, not their order or repetition. */
  lemma KeywordOrderIrrelevant(output: string, k1: seq<string>, k2: seq<string>)
    requires forall k :: k in k1 <==> k in k2
    ensures AllKeywordsMatch(output, k1) == AllKeywordsMatch(output, k2)
  {
    AllKeywordsMatchIff(output, k1);
    AllKeywordsMatchIff(output, k2);
  }

  /** A word character has a word boundary at or before it. */
  lemma {:induction false} BoundaryBefore(s: string, i: int)
    requires WordAt(s, i)
    ensures exists j :: 0 <= j <= i && Boundary(s, j)
    decreases i
  {
    if WordAt(s, i - 1) {
      BoundaryBefore(s, i - 1);
    } else {
      assert Boundary(s, i);
    }
  }

  /**
    * The empty keyword (the only retained keyword that strips to nothing)
    * matches exactly when the output holds a word character: the pattern
    * `\b\b` needs a single boundary.
    */
  lemma EmptyKeywordMatchesIffWordChar(output: string)
    ensures AllKeywordsMatch(output, [""]) <==> exists i :: WordAt(output, i)
  {
    assert StripBang("") == "";
    KeywordHoldsIff(output, "");
    if i :| WordAt(output, i) {
      BoundaryBefore(output, i);
      var j :| 0 <= j <= i && Boundary(output, j);
      assert WholeWordAt(output, "", j);
    }
    if AllKeywordsMatch(output, [""]) {
      var j :| WholeWordAt(output, "", j);
      assert WordAt(output, j - 1) || WordAt(output, j);
    }
  }

  /** Whole-word occurrences in the example output "Running, done.". */
  lemma ExampleOutputWords(s: string)
    requires s == "Running, done."
    ensures OccursAsWord(s, "done") && OccursAsWord(s, "Running")
    ensures !OccursAsWord(s, "running")
  {
    assert WholeWordAt(s, "Running", 0);
    assert WholeWordAt(s, "done", 9);
    forall i | WholeWordAt(s, "running", i) ensures s[i] == 'r' {
      assert s[i..i + 7][0] == s[i];
    }
    // but the output holds no lower-case 'r'
    assert forall i :: 0 <= i < |s| ==> s[i] != 'r';
  }

  /** A keyword without any `!` is searched for as it is. */
  lemma PlainKeyword(output: string, k: string)
    requires '!' !in k
    ensures StripBang(k) == k
    ensures KeywordHolds(output, k) <==> OccursAsWord(output, k)
  {
    assert k != [] ==> k[0] in k && k[|k| - 1] in k;
    assert TrimStart(k, IsBang) == k;
    assert TrimEnd(k, IsBang) == k;
    KeywordHoldsIff(output, k);
  }

  /** The two-keyword lists of the example reduce to their two keywords. */
  lemma TwoKeywords(output: string, a: string, b: string)
    ensures AllKeywordsMatch(output, [a, b]) == (KeywordHolds(output, a) && KeywordHolds(output, b))
  {
    assert [a, b][1..] == [b] && [b][1..] == [];
    assert AllKeywordsMatch(output, [b]) == KeywordHolds(output, b);
  }

  /**
    * Matching is case-sensitive: in "Running, done." the
    * keyword "running" does not match although "Running" does.
    */
  lemma CaseSensitiveExample(output: string)
    requires output == "Running, done."
    ensures !AllKeywordsMatch(output, ["done", "running"])
    ensures AllKeywordsMatch(output, ["done", "Running"])
  {
    ExampleOutputWords(output);
    PlainKeyword(output, "done");
    PlainKeyword(output, "running");
    PlainKeyword(output, "Running");
    TwoKeywords(output, "done", "running");
    TwoKeywords(output, "done", "Running");
  }
}
