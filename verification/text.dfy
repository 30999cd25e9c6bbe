/** JavaScript string primitives used by the model: the whitespace set of
    `String.prototype.trim` and of the regular-expression class `\s`,
    trimming, prefix/suffix tests, substring search, and `split`/`join`
    on a single-character separator. Strings are sequences of characters. */
module Text {
  import opened Base

  /** The `WhiteSpace` and `LineTerminator` code points of ECMAScript:
      exactly the characters `trim()` removes and `\s` matches. */
  predicate IsSpace(c: char) {
    || c == '\t' || c == '\n' || c == '\U{000B}' || c == '\U{000C}' || c == '\r'
    || c == ' ' || c == '\U{00A0}' || c == '\U{1680}'
    || ('\U{2000}' <= c <= '\U{200A}')
    || c == '\U{2028}' || c == '\U{2029}' || c == '\U{202F}' || c == '\U{205F}'
    || c == '\U{3000}' || c == '\U{FEFF}'
  }

  /** The characters at which `^` and `$` match in a multiline regular expression. */
  predicate IsLineTerminator(c: char) {
    c == '\n' || c == '\r' || c == '\U{2028}' || c == '\U{2029}'
  }

  lemma LineTerminatorIsSpace(c: char)
    requires IsLineTerminator(c)
    ensures IsSpace(c)
  {}

  predicate AllSpace(s: string) {
    forall i :: 0 <= i < |s| ==> IsSpace(s[i])
  }

  /** Neither end of `s` is whitespace. */
  predicate Trimmed(s: string) {
    s == [] || (!IsSpace(s[0]) && !IsSpace(s[|s| - 1]))
  }

  /** `s.trimStart()`: drops the longest all-whitespace prefix. */
  function TrimStart(s: string): (r: string)
    ensures |r| <= |s| && r == s[|s| - |r|..]
    ensures AllSpace(s[..|s| - |r|])
    ensures r == [] || !IsSpace(r[0])
  {
    if s != [] && IsSpace(s[0]) then TrimStart(s[1..]) else s
  }

  /** `s.trimEnd()`: drops the longest all-whitespace suffix. */
  function TrimEnd(s: string): (r: string)
    ensures |r| <= |s| && r == s[..|r|]
    ensures AllSpace(s[|r|..])
    ensures r == [] || !IsSpace(r[|r| - 1])
  {
    if s != [] && IsSpace(s[|s| - 1]) then TrimEnd(s[..|s| - 1]) else s
  }

  /** `r` occurs in `s` starting at index `i`. */
  predicate SliceAt(r: string, s: string, i: nat) {
    i + |r| <= |s| && s[i..i + |r|] == r
  }

  /** `r` is `s` with the whitespace prefix `s[..a]` and an all-whitespace suffix removed. */
  predicate StripsSpaceAround(s: string, r: string, a: nat) {
    SliceAt(r, s, a) && AllSpace(s[..a]) && AllSpace(s[a + |r|..])
  }

  /** `s.trim()`: the result is `s` with an all-whitespace prefix and suffix removed,
      and it has no whitespace at either end. */
  function Trim(s: string): (r: string)
    ensures Trimmed(r)
    ensures |r| <= |s|
    ensures exists a: nat :: StripsSpaceAround(s, r, a)
  {
    var t := TrimStart(s);
    StripBothEnds(s, t, TrimEnd(t));
    TrimEnd(t)
  }

  /** A prefix `r` of a suffix `t` of `s` is a slice of `s`, and what follows
      `r` in `t` is what follows it in `s`. */
  lemma SliceOfSuffix(s: string, t: string, r: string)
    requires |t| <= |s| && t == s[|s| - |t|..]
    requires |r| <= |t| && r == t[..|r|]
    ensures SliceAt(r, s, |s| - |t|)
    ensures s[|s| - |t| + |r|..] == t[|r|..]
  {}

  /** Stripping a whitespace prefix and then a whitespace suffix leaves a
      slice of `s` with whitespace on both sides of it. */
  lemma StripBothEnds(s: string, t: string, r: string)
    requires |t| <= |s| && t == s[|s| - |t|..] && AllSpace(s[..|s| - |t|])
    requires t == [] || !IsSpace(t[0])
    requires |r| <= |t| && r == t[..|r|] && AllSpace(t[|r|..])
    requires r == [] || !IsSpace(r[|r| - 1])
    ensures Trimmed(r) && StripsSpaceAround(s, r, |s| - |t|)
  {
    SliceOfSuffix(s, t, r);
    if r != [] {
      assert r[0] == t[0];
    }
  }

  /** Trimming only ever removes whitespace, so trimmed text is a fixpoint. */
  lemma TrimOfTrimmed(s: string)
    requires Trimmed(s)
    ensures Trim(s) == s
  {
    assert TrimStart(s) == s;
  }

  lemma TrimIdempotent(s: string)
    ensures Trim(Trim(s)) == Trim(s)
  {
    TrimOfTrimmed(Trim(s));
  }

  lemma {:induction false} TrimStartOfAllSpace(s: string)
    requires AllSpace(s)
    ensures TrimStart(s) == []
    decreases |s|
  {
    if s != [] {
      TrimStartOfAllSpace(s[1..]);
    }
  }

  /** A string trims to nothing exactly when it is all whitespace. */
  lemma TrimEmptyIffAllSpace(s: string)
    ensures Trim(s) == [] <==> AllSpace(s)
  {
    if AllSpace(s) {
      TrimStartOfAllSpace(s);
    }
    if Trim(s) == [] {
      var a: nat :| StripsSpaceAround(s, [], a);
      forall i | 0 <= i < |s| ensures IsSpace(s[i]) {
        if i < a { assert s[..a][i] == s[i]; } else { assert s[a..][i - a] == s[i]; }
      }
    }
  }

  /** A string that begins with a non-space character keeps its first character under `Trim`. */
  lemma TrimKeepsNonSpaceStart(s: string)
    requires s != [] && !IsSpace(s[0])
    ensures Trim(s) == TrimEnd(s)
  {}

  predicate StartsWith(s: string, prefix: string) {
    |prefix| <= |s| && s[..|prefix|] == prefix
  }

  predicate EndsWith(s: string, suffix: string) {
    |suffix| <= |s| && s[|s| - |suffix|..] == suffix
  }

  /** Behind a fixed prefix, `pre + q` opens the text exactly when `q` opens the rest. */
  lemma StartsWithBehind(pre: string, rest: string, q: string)
    ensures StartsWith(pre + rest, pre + q) <==> StartsWith(rest, q)
  {
    var s := pre + rest;
    if |q| <= |rest| {
      assert s[..|pre + q|] == pre + rest[..|q|];
      if s[..|pre + q|] == pre + q {
        assert rest[..|q|] == (pre + rest[..|q|])[|pre|..];
      }
    }
  }

  /** A suffix that does not contain the prefix's last character ends the text
      exactly when it ends the rest. */
  lemma EndsWithBehind(pre: string, rest: string, suffix: string)
    requires pre != [] && pre[|pre| - 1] !in suffix
    ensures EndsWith(pre + rest, suffix) <==> EndsWith(rest, suffix)
  {
    var s := pre + rest;
    if |suffix| <= |rest| {
      assert s[|s| - |suffix|..] == rest[|rest| - |suffix|..];
    } else if |suffix| <= |s| {
      var k := |suffix| - |rest| - 1;
      assert s[|s| - |suffix|..][k] == pre[|pre| - 1];
      assert suffix[k] in suffix;
    }
  }

  /** `r` is a contiguous substring of `s`. */
  ghost predicate IsInfix(r: string, s: string) {
    exists i: nat :: SliceAt(r, s, i)
  }

  lemma InfixTransitive(a: string, b: string, c: string)
    requires IsInfix(a, b) && IsInfix(b, c)
    ensures IsInfix(a, c)
  {
    var i: nat :| SliceAt(a, b, i);
    var k: nat :| SliceAt(b, c, k);
    forall t | 0 <= t < |a|
      ensures a[t] == c[k + i + t]
    {
      assert a[t] == b[i + t] == c[k + i + t];
    }
    assert SliceAt(a, c, k + i);
  }

  lemma TrimIsInfix(s: string)
    ensures IsInfix(Trim(s), s)
  {
    var a: nat :| StripsSpaceAround(s, Trim(s), a);
  }

  /** `pattern` occurs in `s` at index `i`. */
  predicate OccursAt(s: string, pattern: string, i: nat) {
    i + |pattern| <= |s| && s[i..i + |pattern|] == pattern
  }

  /** The first occurrence of `pattern` at or after `from` (`indexOf`). */
  function IndexOfFrom(s: string, pattern: string, from: nat): (r: Option<nat>)
    ensures r.Some? ==> from <= r.value && OccursAt(s, pattern, r.value)
    ensures r.Some? ==> forall j :: from <= j < r.value ==> !OccursAt(s, pattern, j)
    ensures r.None? ==> forall j :: from <= j ==> !OccursAt(s, pattern, j)
    decreases |s| - from
  {
    if from + |pattern| > |s| then None
    else if OccursAt(s, pattern, from) then Some(from)
    else IndexOfFrom(s, pattern, from + 1)
  }

  function IndexOf(s: string, pattern: string): (r: Option<nat>)
    ensures r.Some? ==> OccursAt(s, pattern, r.value)
    ensures r.Some? ==> forall j :: 0 <= j < r.value ==> !OccursAt(s, pattern, j)
    ensures r.None? ==> forall j :: 0 <= j ==> !OccursAt(s, pattern, j)
  {
    IndexOfFrom(s, pattern, 0)
  }

  /** The last occurrence of `pattern` at or before `upTo`. */
  function LastIndexUpTo(s: string, pattern: string, upTo: nat): (r: Option<nat>)
    ensures r.Some? ==> r.value <= upTo && OccursAt(s, pattern, r.value)
    ensures r.Some? ==> forall j :: r.value < j <= upTo ==> !OccursAt(s, pattern, j)
    ensures r.None? ==> forall j :: 0 <= j <= upTo ==> !OccursAt(s, pattern, j)
  {
    if OccursAt(s, pattern, upTo) then Some(upTo)
    else if upTo == 0 then None
    else LastIndexUpTo(s, pattern, upTo - 1)
  }

  /** `s.lastIndexOf(pattern)`, with `None` for JavaScript's `-1`. */
  function LastIndexOf(s: string, pattern: string): (r: Option<nat>)
    ensures r.Some? ==> OccursAt(s, pattern, r.value)
    ensures r.Some? ==> forall j :: r.value < j ==> !OccursAt(s, pattern, j)
    ensures r.None? ==> forall j :: 0 <= j ==> !OccursAt(s, pattern, j)
  {
    LastIndexUpTo(s, pattern, |s|)
  }

  /** The position of the first `c` in `s`. */
  function FirstIndexOfChar(s: string, c: char): (i: nat)
    requires c in s
    ensures i < |s| && s[i] == c
    ensures forall t :: 0 <= t < i ==> s[t] != c
  {
    if s[0] == c then 0 else FirstIndexOfChar(s[1..], c) + 1
  }

  /** `parts.join(sep)`. */
  function Join(parts: seq<string>, sep: char): string {
    if |parts| == 0 then []
    else if |parts| == 1 then parts[0]
    else parts[0] + [sep] + Join(parts[1..], sep)
  }

  /** `s.split(sep)` for a one-character separator: the pieces between separators,
      none of which contains the separator, and which join back to `s`. */
  function Split(s: string, sep: char): (parts: seq<string>)
    ensures |parts| >= 1
    ensures forall k :: 0 <= k < |parts| ==> sep !in parts[k]
    ensures Join(parts, sep) == s
    decreases |s|
  {
    if sep !in s then [s]
    else
      var i := FirstIndexOfChar(s, sep);
      var rest := Split(s[i + 1..], sep);
      assert sep !in s[..i] by {
        assert forall t :: 0 <= t < i ==> s[..i][t] == s[t];
      }
      assert s == s[..i] + [sep] + s[i + 1..];
      [s[..i]] + rest
  }

  /** Joining pieces that do not contain the separator and splitting again gives them back. */
  lemma {:induction false} SplitJoin(parts: seq<string>, sep: char)
    requires |parts| >= 1
    requires forall k :: 0 <= k < |parts| ==> sep !in parts[k]
    ensures Split(Join(parts, sep), sep) == parts
  {
    if |parts| > 1 {
      var head := parts[0];
      var tail := Join(parts[1..], sep);
      var s := head + [sep] + tail;
      assert Join(parts, sep) == s;
      var p := |head|;
      assert s[p] == sep;
      var i := FirstIndexOfChar(s, sep);
      assert forall t :: 0 <= t < p ==> s[t] == head[t];
      assert i == p;
      assert sep in s;
      assert s[..i] == head;
      assert s[i + 1..] == tail;
      SplitJoin(parts[1..], sep);
      assert Split(s, sep) == [head] + Split(tail, sep);
      assert parts == [head] + parts[1..];
    }
  }
}
