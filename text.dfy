/** The two string operations of Python that topic extraction relies on:
    `str.split(sep)` with a one-character separator and `str.strip()` with
    no argument. */
module Text {

  /** Python's `str.isspace()` for one character: the characters `str.strip()`
      removes (Unicode whitespace, plus the four information separators
      U+001C..U+001F). */
  predicate IsSpace(c: char) {
    || ('\t' <= c <= '\r')
    || ('\U{1C}' <= c <= ' ')
    || c == '\U{85}' || c == '\U{A0}' || c == '\U{1680}'
    || ('\U{2000}' <= c <= '\U{200A}')
    || c == '\U{2028}' || c == '\U{2029}' || c == '\U{202F}'
    || c == '\U{205F}' || c == '\U{3000}'
  }

  /** Every character of `s` from index `lo` up to `hi` is whitespace. */
  predicate SpaceIn(s: string, lo: int, hi: int)
    requires 0 <= lo <= hi <= |s|
  {
    forall k | lo <= k < hi :: IsSpace(s[k])
  }

  /** Neither begins nor ends with whitespace. */
  predicate Stripped(s: string) {
    s == [] || (!IsSpace(s[0]) && !IsSpace(s[|s| - 1]))
  }

  /** `r` is `s` cut at `i` and `i + |r|`, with only whitespace cut away. */
  predicate IsTrimmedCut(s: string, i: nat, r: string) {
    i + |r| <= |s| && r == s[i..i + |r|] && SpaceIn(s, 0, i) && SpaceIn(s, i + |r|, |s|)
  }

  /** Python's `str.strip()`: `s` without its leading and trailing
      whitespace, dropped one character at a time from the front and then
      from the back. StripCut and StripUnique below say that exactly that
      whitespace, and nothing else, is removed. */
  function Strip(s: string): (r: string)
    ensures Stripped(r) && |r| <= |s|
  {
    if s != [] && IsSpace(s[0]) then Strip(s[1..])
    else if s != [] && IsSpace(s[|s| - 1]) then Strip(s[..|s| - 1])
    else s
  }

  /** Strip only cuts whitespace off the two ends of `s`. */
  lemma {:induction false} StripCut(s: string)
    ensures exists i: nat :: IsTrimmedCut(s, i, Strip(s))
  {
    var r := Strip(s);
    if s != [] && IsSpace(s[0]) {
      var u := s[1..];
      StripCut(u);
      var i: nat :| IsTrimmedCut(u, i, r);
      assert u[i..i + |r|] == s[i + 1..i + 1 + |r|];
      forall k | 0 <= k < i + 1 ensures IsSpace(s[k]) {
        if k > 0 { assert s[k] == u[k - 1]; }
      }
      forall k | i + 1 + |r| <= k < |s| ensures IsSpace(s[k]) {
        assert s[k] == u[k - 1];
      }
      assert IsTrimmedCut(s, i + 1, r);
    } else if s != [] && IsSpace(s[|s| - 1]) {
      var u := s[..|s| - 1];
      StripCut(u);
      var i: nat :| IsTrimmedCut(u, i, r);
      assert u[i..i + |r|] == s[i..i + |r|];
      assert i == 0 by { assert u[0] == s[0]; }
      forall k | i + |r| <= k < |s| ensures IsSpace(s[k]) {
        if k < |s| - 1 { assert s[k] == u[k]; }
      }
      assert IsTrimmedCut(s, i, r);
    } else {
      assert s[0..|s|] == s;
      assert IsTrimmedCut(s, 0, r);
    }
  }

  /** A string that is all whitespace strips to the empty string. */
  lemma {:induction false} StripBlank(s: string)
    requires SpaceIn(s, 0, |s|)
    ensures Strip(s) == []
  {
    if s != [] {
      var u := s[1..];
      forall k | 0 <= k < |u| ensures IsSpace(u[k]) {
        assert u[k] == s[k + 1];
      }
      StripBlank(u);
    }
  }

  /** A string with whitespace before `i`, whitespace from `j` on, and
      non-space characters at `i` and `j - 1` strips to `s[i..j]`. */
  lemma {:induction false} StripMiddle(s: string, i: nat, j: nat)
    requires i < j <= |s|
    requires SpaceIn(s, 0, i) && SpaceIn(s, j, |s|) && !IsSpace(s[i]) && !IsSpace(s[j - 1])
    ensures Strip(s) == s[i..j]
  {
    if IsSpace(s[0]) {
      var u := s[1..];
      forall k | 0 <= k < i - 1 ensures IsSpace(u[k]) {
        assert u[k] == s[k + 1];
      }
      forall k | j - 1 <= k < |u| ensures IsSpace(u[k]) {
        assert u[k] == s[k + 1];
      }
      assert u[i - 1] == s[i] && u[j - 2] == s[j - 1];
      StripMiddle(u, i - 1, j - 1);
      assert u[i - 1..j - 1] == s[i..j];
    } else if IsSpace(s[|s| - 1]) {
      var u := s[..|s| - 1];
      assert i == 0;
      forall k | j <= k < |u| ensures IsSpace(u[k]) {
        assert u[k] == s[k];
      }
      assert u[i] == s[i] && u[j - 1] == s[j - 1];
      StripMiddle(u, i, j);
      assert u[i..j] == s[i..j];
    } else {
      assert i == 0 && j == |s|;
      assert s[0..|s|] == s;
    }
  }

  /** Strip is determined by its contract: whatever cut of `s` into
      whitespace, a stripped middle and whitespace, the middle is Strip(s). */
  lemma StripUnique(s: string, i: nat, j: nat)
    requires i <= j <= |s|
    requires SpaceIn(s, 0, i) && SpaceIn(s, j, |s|) && Stripped(s[i..j])
    ensures Strip(s) == s[i..j]
  {
    if i == j {
      forall k | 0 <= k < |s| ensures IsSpace(s[k]) {
        if k < i { assert SpaceIn(s, 0, i); } else { assert SpaceIn(s, j, |s|); }
      }
      StripBlank(s);
    } else {
      assert s[i] == s[i..j][0] && s[j - 1] == s[i..j][j - i - 1];
      StripMiddle(s, i, j);
    }
  }

  /** Stripping twice is stripping once. */
  lemma StripIdempotent(s: string)
    ensures Strip(Strip(s)) == Strip(s)
  {
    var r := Strip(s);
    assert r[0..|r|] == r;
    StripUnique(r, 0, |r|);
  }

  /** A string that is already stripped is left unchanged. */
  lemma StripOfStripped(s: string)
    requires Stripped(s)
    ensures Strip(s) == s
  {
    assert s[0..|s|] == s;
    StripUnique(s, 0, |s|);
  }

  /** Python's `s.split(sep)` for a one-character separator: the maximal
      separator-free pieces between separators, always at least one. */
  function Split(s: string, sep: char): (parts: seq<string>)
    ensures |parts| >= 1
    ensures forall k | 0 <= k < |parts| :: sep !in parts[k]
  {
    if s == [] then [[]]
    else
      var rest := Split(s[1..], sep);
      if s[0] == sep then [[]] + rest
      else [[s[0]] + rest[0]] + rest[1..]
  }

  /** Python's `sep.join(parts)`. */
  function Join(parts: seq<string>, sep: char): string
    requires |parts| >= 1
  {
    if |parts| == 1 then parts[0] else parts[0] + [sep] + Join(parts[1..], sep)
  }

  /** Splitting loses nothing: joining the pieces gives back the string. */
  lemma {:induction false} JoinSplit(s: string, sep: char)
    ensures Join(Split(s, sep), sep) == s
  {
    if s != [] {
      var rest := Split(s[1..], sep);
      JoinSplit(s[1..], sep);
      if s[0] != sep && |rest| > 1 {
        assert Join(Split(s, sep), sep) == [s[0]] + (rest[0] + [sep] + Join(rest[1..], sep));
      }
    }
  }

  /** A separator-free string is one piece. */
  lemma {:induction false} SplitNoSeparator(s: string, sep: char)
    requires sep !in s
    ensures Split(s, sep) == [s]
  {
    if s != [] {
      SplitNoSeparator(s[1..], sep);
      assert [s[0]] + s[1..] == s;
    }
  }

  /** A separator-free prefix followed by the separator is the first piece. */
  lemma {:induction false} SplitAtSeparator(p: string, sep: char, t: string)
    requires sep !in p
    ensures Split(p + [sep] + t, sep) == [p] + Split(t, sep)
  {
    if p == [] {
      assert [sep] + t == p + [sep] + t && ([sep] + t)[1..] == t;
    } else {
      var s := p + [sep] + t;
      assert s[1..] == p[1..] + [sep] + t;
      SplitAtSeparator(p[1..], sep, t);
      assert [p[0]] + p[1..] == p;
    }
  }

  /** Joining separator-free pieces and splitting again gives the pieces back. */
  lemma {:induction false} SplitJoin(parts: seq<string>, sep: char)
    requires |parts| >= 1
    requires forall k | 0 <= k < |parts| :: sep !in parts[k]
    ensures Split(Join(parts, sep), sep) == parts
  {
    if |parts| == 1 {
      SplitNoSeparator(parts[0], sep);
    } else {
      SplitJoin(parts[1..], sep);
      SplitAtSeparator(parts[0], sep, Join(parts[1..], sep));
      assert [parts[0]] + parts[1..] == parts;
    }
  }

  /** There is one more piece than there are separators. */
  lemma {:induction false} SplitCount(s: string, sep: char)
    ensures |Split(s, sep)| == multiset(s)[sep] + 1
  {
    if s != [] {
      SplitCount(s[1..], sep);
      assert s == [s[0]] + s[1..];
      assert multiset(s) == multiset{s[0]} + multiset(s[1..]);
    }
  }
}
