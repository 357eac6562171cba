/**
  * The few Python string operations the deployment script relies on:
  * `str.strip(chars)`, `str.split(sep)` and its inverse `sep.join(parts)`.
  * The characters to strip are given as a predicate, so one definition
  * serves both `output.strip()` (whitespace) and `keyword.strip('!')`.
  * The functions are stated as plain definitions; what they compute is
  * proved in the lemmas beside them.
  */
module Strings {

  /** Drops the leading characters that satisfy `drop` (Python `lstrip`). */
  function TrimStart(s: string, drop: char -> bool): string
    decreases |s|
  {
    if s != [] && drop(s[0]) then TrimStart(s[1..], drop) else s
  }

  /** Drops the trailing characters that satisfy `drop` (Python `rstrip`). */
  function TrimEnd(s: string, drop: char -> bool): string
    decreases |s|
  {
    if s != [] && drop(s[|s| - 1]) then TrimEnd(s[..|s| - 1], drop) else s
  }

  /** Python `s.strip(chars)`, with `drop` telling which characters are in `chars`. */
  function Strip(s: string, drop: char -> bool): string {
    TrimEnd(TrimStart(s, drop), drop)
  }

  /** `TrimStart` leaves the suffix of `s` that starts at its first kept character. */
  lemma {:induction false} TrimStartSpec(s: string, drop: char -> bool)
    ensures var r := TrimStart(s, drop);
            && |r| <= |s| && r == s[|s| - |r|..]
            && (forall i :: 0 <= i < |s| - |r| ==> drop(s[i]))
            && (r == [] || !drop(r[0]))
    decreases |s|
  {
    if s != [] && drop(s[0]) {
      TrimStartSpec(s[1..], drop);
    }
  }

  /** `TrimEnd` leaves the prefix of `s` that ends at its last kept character. */
  lemma {:induction false} TrimEndSpec(s: string, drop: char -> bool)
    ensures var r := TrimEnd(s, drop);
            && |r| <= |s| && r == s[..|r|]
            && (forall i :: |r| <= i < |s| ==> drop(s[i]))
            && (r == [] || !drop(r[|r| - 1]))
    decreases |s|
  {
    if s != [] && drop(s[|s| - 1]) {
      TrimEndSpec(s[..|s| - 1], drop);
    }
  }

  /** Leading dropped characters in front of a kept one are all removed. */
  lemma {:induction false} TrimStartPast(lead: string, t: string, drop: char -> bool)
    requires forall i :: 0 <= i < |lead| ==> drop(lead[i])
    requires t == [] || !drop(t[0])
    ensures TrimStart(lead + t, drop) == t
    decreases |lead|
  {
    if lead == [] {
      assert lead + t == t;
    } else {
      assert (lead + t)[1..] == lead[1..] + t;
      TrimStartPast(lead[1..], t, drop);
    }
  }

  /** Trailing dropped characters after a kept one are all removed. */
  lemma {:induction false} TrimEndPast(t: string, trail: string, drop: char -> bool)
    requires forall i :: 0 <= i < |trail| ==> drop(trail[i])
    requires t == [] || !drop(t[|t| - 1])
    ensures TrimEnd(t + trail, drop) == t
    decreases |trail|
  {
    if trail == [] {
      assert t + trail == t;
    } else {
      assert (t + trail)[..|t + trail| - 1] == t + trail[..|trail| - 1];
      TrimEndPast(t, trail[..|trail| - 1], drop);
    }
  }

  /** Stripping text that neither starts nor ends with a dropped character, padded with dropped ones, gives it back. */
  lemma StripPadded(lead: string, t: string, trail: string, drop: char -> bool)
    requires forall i :: 0 <= i < |lead| ==> drop(lead[i])
    requires forall i :: 0 <= i < |trail| ==> drop(trail[i])
    requires t == [] || (!drop(t[0]) && !drop(t[|t| - 1]))
    ensures Strip(lead + t + trail, drop) == t
  {
    if t == [] {
      assert lead + t + trail == (lead + trail) + [];
      TrimStartPast(lead + trail, [], drop);
    } else {
      assert lead + t + trail == lead + (t + trail);
      TrimStartPast(lead, t + trail, drop);
      TrimEndPast(t, trail, drop);
    }
  }

  /** `r` is the slice of `s` that starts at `a`. */
  ghost predicate SliceAt(s: string, a: int, r: string) {
    0 <= a && a + |r| <= |s| && s[a..a + |r|] == r
  }

  /**
    * `Strip` returns a slice of `s` that neither starts nor ends with a
    * dropped character, and everything around that slice is dropped.
    */
  lemma StripSpec(s: string, drop: char -> bool)
    ensures var r := Strip(s, drop);
            && (r == [] || (!drop(r[0]) && !drop(r[|r| - 1])))
            && exists a :: SliceAt(s, a, r)
                           && (forall i :: 0 <= i < a ==> drop(s[i]))
                           && (forall i :: a + |r| <= i < |s| ==> drop(s[i]))
  {
    var t := TrimStart(s, drop);
    var r := TrimEnd(t, drop);
    TrimStartSpec(s, drop);
    TrimEndSpec(t, drop);
    assert r == [] || r[0] == t[0];
    assert SliceAt(s, |s| - |t|, r) by {
      assert s[|s| - |t|..][..|r|] == s[|s| - |t|..|s| - |t| + |r|];
    }
    assert forall i :: |s| - |t| + |r| <= i < |s| ==> drop(s[i]) by {
      forall i | |s| - |t| + |r| <= i < |s| ensures drop(s[i]) {
        assert s[i] == t[i - (|s| - |t|)];
      }
    }
  }

  /** Python `sep.join(parts)` for a non-empty list. */
  function Join(parts: seq<string>, sep: char): string
    requires |parts| >= 1
  {
    if |parts| == 1 then parts[0] else parts[0] + [sep] + Join(parts[1..], sep)
  }

  /** No piece holds the separator. */
  ghost predicate NoSeparator(parts: seq<string>, sep: char) {
    forall k, j :: 0 <= k < |parts| && 0 <= j < |parts[k]| ==> parts[k][j] != sep
  }

  /**
    * Python `s.split(sep)` with an explicit separator: the pieces between
    * separators, empty pieces kept, built from the first character on.
    */
  function Split(s: string, sep: char): (parts: seq<string>)
    ensures |parts| >= 1
    decreases |s|
  {
    if s == [] then [[]]
    else
      var rest := Split(s[1..], sep);
      if s[0] == sep then [[]] + rest
      else [[s[0]] + rest[0]] + rest[1..]
  }

  /** No piece produced by `Split` holds the separator. */
  lemma {:induction false} SplitPiecesFree(s: string, sep: char)
    ensures NoSeparator(Split(s, sep), sep)
    decreases |s|
  {
    if s != [] {
      SplitPiecesFree(s[1..], sep);
      var rest, parts := Split(s[1..], sep), Split(s, sep);
      if s[0] == sep {
        assert forall k :: 0 < k < |parts| ==> parts[k] == rest[k - 1];
      } else {
        assert forall k :: 0 < k < |parts| ==> parts[k] == rest[k];
        assert forall j :: 0 < j < |parts[0]| ==> parts[0][j] == rest[0][j - 1];
      }
    }
  }

  /** Joining the pieces produced by `Split` gives the text back. */
  lemma {:induction false} JoinSplit(s: string, sep: char)
    ensures Join(Split(s, sep), sep) == s
    decreases |s|
  {
    if s != [] {
      JoinSplit(s[1..], sep);
      var rest, parts := Split(s[1..], sep), Split(s, sep);
      if s[0] == sep {
        assert parts[1..] == rest;
      } else if |rest| == 1 {
        assert parts == [[s[0]] + rest[0]];
      } else {
        assert parts[0] == [s[0]] + rest[0] && parts[1..] == rest[1..];
        assert Join(rest, sep) == rest[0] + [sep] + Join(rest[1..], sep);
      }
    }
  }

  /** A piece without the separator splits into itself. */
  lemma {:induction false} SplitPiece(p: string, sep: char)
    requires forall j :: 0 <= j < |p| ==> p[j] != sep
    ensures Split(p, sep) == [p]
    decreases |p|
  {
    if p != [] {
      SplitPiece(p[1..], sep);
      assert [p[0]] + p[1..] == p;
    }
  }

  /** Splitting `p + [sep] + t` for a separator-free `p` gives `p` and then the pieces of `t`. */
  lemma {:induction false} SplitAfterPiece(p: string, sep: char, t: string)
    requires forall j :: 0 <= j < |p| ==> p[j] != sep
    ensures Split(p + [sep] + t, sep) == [p] + Split(t, sep)
    decreases |p|
  {
    var s := p + [sep] + t;
    if p == [] {
      assert s[1..] == t;
    } else {
      SplitAfterPiece(p[1..], sep, t);
      assert s[1..] == p[1..] + [sep] + t;
      assert [p[0]] + p[1..] == p;
    }
  }

  /** Splitting a join of separator-free pieces gives the pieces back. */
  lemma {:induction false} SplitJoin(parts: seq<string>, sep: char)
    requires |parts| >= 1
    requires NoSeparator(parts, sep)
    ensures Split(Join(parts, sep), sep) == parts
    decreases |parts|
  {
    assert forall j :: 0 <= j < |parts[0]| ==> parts[0][j] != sep;
    if |parts| == 1 {
      SplitPiece(parts[0], sep);
    } else {
      var rest := parts[1..];
      assert forall k :: 0 <= k < |rest| ==> rest[k] == parts[k + 1];
      SplitJoin(rest, sep);
      SplitAfterPiece(parts[0], sep, Join(rest, sep));
      assert parts == [parts[0]] + rest;
    }
  }

  /**
    * The last piece of a join is its suffix, and when there is more than one
    * piece it is preceded by the separator.
    */
  lemma {:induction false} JoinEndsWithLast(parts: seq<string>, sep: char)
    requires |parts| >= 1
    ensures var s, last := Join(parts, sep), parts[|parts| - 1];
            |last| <= |s| && s[|s| - |last|..] == last
            && (|parts| > 1 ==> |last| < |s| && s[|s| - |last| - 1] == sep)
    decreases |parts|
  {
    if |parts| > 1 {
      var rest := parts[1..];
      JoinEndsWithLast(rest, sep);
      var s, t, last := Join(parts, sep), Join(rest, sep), parts[|parts| - 1];
      assert last == rest[|rest| - 1];
      assert s == parts[0] + [sep] + t;
      assert s[|s| - |t|..] == t;
      if |rest| == 1 {
        assert s[|s| - |last| - 1] == sep;
      } else {
        assert s[|s| - |last| - 1] == t[|t| - |last| - 1];
      }
    }
  }

  /**
    * The last piece of a split is the text after the last separator, or
    * all of it when there is none: a separator-free suffix, preceded by
    * the separator unless it is the whole text.
    */
  lemma LastPieceAfterLastSeparator(s: string, sep: char)
    ensures var parts := Split(s, sep);
            var last := parts[|parts| - 1];
            && (forall j :: 0 <= j < |last| ==> last[j] != sep)
            && |last| <= |s| && s[|s| - |last|..] == last
            && (|last| < |s| ==> s[|s| - |last| - 1] == sep)
  {
    var parts := Split(s, sep);
    SplitPiecesFree(s, sep);
    JoinSplit(s, sep);
    JoinEndsWithLast(parts, sep);
  }
}
