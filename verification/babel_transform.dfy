/** app/lib/babel-transform.ts: `sanitizeCode`, `transformCode` and
    `createComponent`. The transpiler (`Babel.transform` with the `env`,
    `react` and `typescript` presets) and the evaluation of its output by
    `new Function(...)` are parameters of the model: only what the source does
    with their results is modelled. */
module BabelTransform {
  import opened Base
  import opened Text

  // ---------------------------------------------------------------------------
  // sanitizeCode
  // ---------------------------------------------------------------------------

  /** The class `[\u200B-\u200D\uFEFF]`: zero-width space, non-joiner, joiner
      and the byte-order mark. */
  predicate IsZeroWidth(c: char) {
    ('\U{200B}' <= c <= '\U{200D}') || c == '\U{FEFF}'
  }

  predicate NoZeroWidth(s: string) {
    forall i :: 0 <= i < |s| ==> !IsZeroWidth(s[i])
  }

  /** Line 13: every zero-width character is removed and nothing else. */
  function RemoveZeroWidth(s: string): (r: string)
    ensures |r| <= |s|
    ensures forall c :: c in r <==> c in s && !IsZeroWidth(c)
  {
    if s == [] then []
    else
      var rest := RemoveZeroWidth(s[1..]);
      assert forall c :: c in s <==> c == s[0] || c in s[1..];
      if IsZeroWidth(s[0]) then rest else [s[0]] + rest
  }

  /** Removal acts on each part of a text on its own. */
  lemma {:induction false} RemoveZeroWidthAppend(a: string, b: string)
    ensures RemoveZeroWidth(a + b) == RemoveZeroWidth(a) + RemoveZeroWidth(b)
  {
    if a == [] {
      assert a + b == b;
    } else {
      assert (a + b)[0] == a[0];
      assert (a + b)[1..] == a[1..] + b;
      RemoveZeroWidthAppend(a[1..], b);
    }
  }

  /** A single character is dropped exactly when it is zero-width. */
  lemma RemoveZeroWidthOne(c: char)
    ensures RemoveZeroWidth([c]) == if IsZeroWidth(c) then [] else [c]
  {}

  /** Text is left alone exactly when it holds no zero-width character. */
  lemma {:induction false} RemoveZeroWidthFixed(s: string)
    ensures RemoveZeroWidth(s) == s <==> NoZeroWidth(s)
  {
    if s != [] {
      RemoveZeroWidthFixed(s[1..]);
      if NoZeroWidth(s) {
        assert NoZeroWidth(s[1..]) by {
          forall i | 0 <= i < |s[1..]| ensures !IsZeroWidth(s[1..][i]) {
            assert s[1..][i] == s[i + 1];
          }
        }
        assert s == [s[0]] + s[1..];
      }
    }
    if RemoveZeroWidth(s) == s {
      forall i | 0 <= i < |s| ensures !IsZeroWidth(s[i]) {
        assert s[i] in RemoveZeroWidth(s);
      }
    }
  }

  /** Line 15: `.replace(/\r\n/g, '\n')`, scanning left to right. */
  function ReplaceCrLf(s: string): (r: string)
    ensures |r| <= |s|
    decreases |s|
  {
    if |s| >= 2 && s[0] == '\r' && s[1] == '\n' then "\n" + ReplaceCrLf(s[2..])
    else if s == [] then []
    else [s[0]] + ReplaceCrLf(s[1..])
  }

  /** Line 16: `.replace(/\r/g, '\n')`. */
  function ReplaceCr(s: string): (r: string)
    ensures |r| == |s|
    ensures '\r' !in r
    ensures forall i :: 0 <= i < |s| ==> r[i] == if s[i] == '\r' then '\n' else s[i]
  {
    if s == [] then []
    else [if s[0] == '\r' then '\n' else s[0]] + ReplaceCr(s[1..])
  }

  /** Lines 15-16: every line ending becomes `\n`. */
  function NormalizeLineEndings(s: string): (r: string)
    ensures '\r' !in r
  {
    ReplaceCr(ReplaceCrLf(s))
  }

  /** The text with its line breaks erased: what normalising line endings keeps. */
  function WithoutBreaks(s: string): string {
    if s == [] then []
    else (if s[0] == '\r' || s[0] == '\n' then [] else [s[0]]) + WithoutBreaks(s[1..])
  }

  lemma {:induction false} WithoutBreaksAppend(a: string, b: string)
    ensures WithoutBreaks(a + b) == WithoutBreaks(a) + WithoutBreaks(b)
  {
    if a == [] {
      assert a + b == b;
    } else {
      assert (a + b)[0] == a[0];
      assert (a + b)[1..] == a[1..] + b;
      WithoutBreaksAppend(a[1..], b);
    }
  }

  /** Normalising line endings changes nothing but the line breaks. */
  lemma {:induction false} ReplaceCrLfKeepsText(s: string)
    ensures WithoutBreaks(ReplaceCrLf(s)) == WithoutBreaks(s)
    decreases |s|
  {
    if |s| >= 2 && s[0] == '\r' && s[1] == '\n' {
      ReplaceCrLfKeepsText(s[2..]);
      WithoutBreaksAppend("\n", ReplaceCrLf(s[2..]));
      assert s == [s[0]] + ([s[1]] + s[2..]);
      WithoutBreaksAppend([s[0]], [s[1]] + s[2..]);
      WithoutBreaksAppend([s[1]], s[2..]);
    } else if s != [] {
      ReplaceCrLfKeepsText(s[1..]);
      WithoutBreaksAppend([s[0]], ReplaceCrLf(s[1..]));
      assert s == [s[0]] + s[1..];
      WithoutBreaksAppend([s[0]], s[1..]);
    }
  }

  lemma {:induction false} ReplaceCrKeepsText(s: string)
    ensures WithoutBreaks(ReplaceCr(s)) == WithoutBreaks(s)
  {
    if s != [] {
      ReplaceCrKeepsText(s[1..]);
    }
  }

  lemma NormalizeKeepsText(s: string)
    ensures WithoutBreaks(NormalizeLineEndings(s)) == WithoutBreaks(s)
  {
    ReplaceCrLfKeepsText(s);
    ReplaceCrKeepsText(ReplaceCrLf(s));
  }

  lemma {:induction false} ReplaceCrLfOfCrFree(s: string)
    requires '\r' !in s
    ensures ReplaceCrLf(s) == s
  {
    if s != [] {
      assert s[0] != '\r';
      ReplaceCrLfOfCrFree(s[1..]);
    }
  }

  lemma {:induction false} ReplaceCrOfCrFree(s: string)
    requires '\r' !in s
    ensures ReplaceCr(s) == s
  {
    if s != [] {
      ReplaceCrOfCrFree(s[1..]);
    }
  }

  /** Text is left alone exactly when it holds no carriage return. */
  lemma NormalizeFixed(s: string)
    ensures NormalizeLineEndings(s) == s <==> '\r' !in s
  {
    if '\r' !in s {
      ReplaceCrLfOfCrFree(s);
      ReplaceCrOfCrFree(s);
    }
  }

  /** `a` ends in a carriage return and `b` starts with a newline: joining
      them forms a CRLF pair that neither holds alone. */
  predicate JoinsCrLf(a: string, b: string) {
    a != [] && a[|a| - 1] == '\r' && b != [] && b[0] == '\n'
  }

  lemma ConcatAssoc(x: string, y: string, z: string)
    ensures x + (y + z) == (x + y) + z
  {}

  /** The induction step of `ReplaceCrLfAppend` when `a` opens with a CRLF
      pair; `s` is `a + b`, known only through its first characters. */
  lemma ReplaceCrLfAppendPair(a: string, b: string, s: string)
    requires |a| >= 2 && a[0] == '\r' && a[1] == '\n'
    requires |s| >= 2 && s[0] == '\r' && s[1] == '\n' && s[2..] == a[2..] + b
    requires ReplaceCrLf(a[2..] + b) == ReplaceCrLf(a[2..]) + ReplaceCrLf(b)
    ensures ReplaceCrLf(s) == ReplaceCrLf(a) + ReplaceCrLf(b)
  {
    ConcatAssoc("\n", ReplaceCrLf(a[2..]), ReplaceCrLf(b));
  }

  /** The induction step of `ReplaceCrLfAppend` when `a` opens with anything else. */
  lemma ReplaceCrLfAppendOther(a: string, b: string, s: string)
    requires a != [] && !(|a| >= 2 && a[0] == '\r' && a[1] == '\n')
    requires s != [] && !(|s| >= 2 && s[0] == '\r' && s[1] == '\n') && s[0] == a[0] && s[1..] == a[1..] + b
    requires ReplaceCrLf(a[1..] + b) == ReplaceCrLf(a[1..]) + ReplaceCrLf(b)
    ensures ReplaceCrLf(s) == ReplaceCrLf(a) + ReplaceCrLf(b)
  {
    ConcatAssoc([a[0]], ReplaceCrLf(a[1..]), ReplaceCrLf(b));
  }

  /** How `a + b` opens when `a` opens with a CRLF pair. */
  lemma OpensWithPair(a: string, b: string)
    requires |a| >= 2 && a[0] == '\r' && a[1] == '\n'
    ensures var s := a + b; |s| >= 2 && s[0] == '\r' && s[1] == '\n' && s[2..] == a[2..] + b
  {}

  /** How `a + b` opens when `a` opens otherwise and the seam forms no pair. */
  lemma OpensOtherwise(a: string, b: string)
    requires a != [] && !(|a| >= 2 && a[0] == '\r' && a[1] == '\n') && !JoinsCrLf(a, b)
    ensures var s := a + b;
            s != [] && !(|s| >= 2 && s[0] == '\r' && s[1] == '\n') && s[0] == a[0] && s[1..] == a[1..] + b
    ensures !JoinsCrLf(a[1..], b)
  {
    var s := a + b;
    if |a| == 1 && |s| >= 2 { assert s[1] == b[0]; }
    if |a| >= 2 { assert s[1] == a[1]; }
  }

  /** Away from a CRLF pair formed at the seam, the CRLF replacement works on
      the two halves separately. */
  lemma {:induction false} ReplaceCrLfAppend(a: string, b: string)
    requires !JoinsCrLf(a, b)
    ensures ReplaceCrLf(a + b) == ReplaceCrLf(a) + ReplaceCrLf(b)
    decreases |a|
  {
    if a == [] {
      assert a + b == b;
    } else if |a| >= 2 && a[0] == '\r' && a[1] == '\n' {
      ReplaceCrLfAppend(a[2..], b);
      OpensWithPair(a, b);
      ReplaceCrLfAppendPair(a, b, a + b);
    } else {
      OpensOtherwise(a, b);
      ReplaceCrLfAppend(a[1..], b);
      ReplaceCrLfAppendOther(a, b, a + b);
    }
  }

  /** Line 15: each CRLF pair becomes one newline, wherever it stands. */
  lemma ReplaceCrLfPair(a: string, b: string)
    ensures ReplaceCrLf(a + "\r\n" + b) == ReplaceCrLf(a) + "\n" + ReplaceCrLf(b)
  {
    var t := "\r\n" + b;
    assert a + "\r\n" + b == a + t;
    assert t[2..] == b;
    ReplaceCrLfAppend(a, t);
  }

  /** Line 15 leaves a carriage return that no newline follows in place. */
  lemma ReplaceCrLfKeepsLoneCr(a: string, b: string)
    requires b == [] || b[0] != '\n'
    ensures ReplaceCrLf(a + "\r" + b) == ReplaceCrLf(a) + "\r" + ReplaceCrLf(b)
  {
    var t := "\r" + b;
    assert a + "\r" + b == a + t;
    assert t[1..] == b;
    ReplaceCrLfAppend(a, t);
  }

  /** Line 16 around one character: only that character can change. */
  lemma ReplaceCrAround(x: string, c: char, y: string)
    ensures ReplaceCr(x + [c] + y) == ReplaceCr(x) + [if c == '\r' then '\n' else c] + ReplaceCr(y)
  {
    var l := ReplaceCr(x + [c] + y);
    var r := ReplaceCr(x) + [if c == '\r' then '\n' else c] + ReplaceCr(y);
    assert forall i :: 0 <= i < |l| ==> l[i] == r[i];
  }

  lemma ReplaceCrAppend(a: string, b: string)
    ensures ReplaceCr(a + b) == ReplaceCr(a) + ReplaceCr(b)
  {
    var l := ReplaceCr(a + b);
    var r := ReplaceCr(a) + ReplaceCr(b);
    assert forall i :: 0 <= i < |l| ==> l[i] == r[i];
  }

  lemma NormalizeAppend(a: string, b: string)
    requires !JoinsCrLf(a, b)
    ensures NormalizeLineEndings(a + b) == NormalizeLineEndings(a) + NormalizeLineEndings(b)
  {
    ReplaceCrLfAppend(a, b);
    ReplaceCrAppend(ReplaceCrLf(a), ReplaceCrLf(b));
  }

  /** Lines 15-16: a CRLF pair becomes exactly one newline. */
  lemma NormalizeCrLf(a: string, b: string)
    ensures NormalizeLineEndings(a + "\r\n" + b) == NormalizeLineEndings(a) + "\n" + NormalizeLineEndings(b)
  {
    ReplaceCrLfPair(a, b);
    ReplaceCrAround(ReplaceCrLf(a), '\n', ReplaceCrLf(b));
  }

  /** Lines 15-16: a lone carriage return becomes exactly one newline. */
  lemma NormalizeLoneCr(a: string, b: string)
    requires b == [] || b[0] != '\n'
    ensures NormalizeLineEndings(a + "\r" + b) == NormalizeLineEndings(a) + "\n" + NormalizeLineEndings(b)
  {
    ReplaceCrLfKeepsLoneCr(a, b);
    ReplaceCrAround(ReplaceCrLf(a), '\r', ReplaceCrLf(b));
  }

  /** Lines 15-16: any other character, a newline not completing a CRLF pair
      included, stays where it is. */
  lemma NormalizeKeepsChar(a: string, c: char, b: string)
    requires c != '\r' && !JoinsCrLf(a, [c])
    ensures NormalizeLineEndings(a + [c] + b) == NormalizeLineEndings(a) + [c] + NormalizeLineEndings(b)
  {
    var ac := a + [c];
    assert ac[|ac| - 1] == c;
    ReplaceCrLfAppend(a, [c]);
    ReplaceCrLfAppend(ac, b);
    assert ReplaceCrLf([c]) == [c];
    ReplaceCrAround(ReplaceCrLf(a), c, ReplaceCrLf(b));
  }

  /** Lines 15-16 read as one left-to-right pass: every line ending, CRLF or
      a lone CR, becomes one newline, and every other character is copied. */
  function OneNewlinePerBreak(s: string): string
    decreases |s|
  {
    if s == [] then []
    else if s[0] != '\r' then [s[0]] + OneNewlinePerBreak(s[1..])
    else if |s| >= 2 && s[1] == '\n' then "\n" + OneNewlinePerBreak(s[2..])
    else "\n" + OneNewlinePerBreak(s[1..])
  }

  /** The two global replacements agree with the one-pass reading. */
  lemma {:induction false} NormalizeIsOnePass(s: string)
    ensures NormalizeLineEndings(s) == OneNewlinePerBreak(s)
    decreases |s|
  {
    if |s| >= 2 && s[0] == '\r' && s[1] == '\n' {
      NormalizeIsOnePass(s[2..]);
      ReplaceCrAppend("\n", ReplaceCrLf(s[2..]));
    } else if s != [] {
      NormalizeIsOnePass(s[1..]);
      ReplaceCrAppend([s[0]], ReplaceCrLf(s[1..]));
    }
  }

  /** `lines.map(line => line.trimEnd())`. */
  function TrimEnds(lines: seq<string>): (r: seq<string>)
    ensures |r| == |lines|
    ensures forall k :: 0 <= k < |lines| ==> r[k] == TrimEnd(lines[k])
  {
    seq(|lines|, k requires 0 <= k < |lines| => TrimEnd(lines[k]))
  }

  /** Lines 18-20: trailing whitespace is removed from every line. */
  function TrimLineEnds(s: string): (r: string)
    ensures LineEndsClean(r)
  {
    JoinTrimEndsClean(Split(s, '\n'));
    Join(TrimEnds(Split(s, '\n')), '\n')
  }

  /** Every newline that is not the first character follows a newline or a
      non-whitespace character, and the text does not end in whitespace other
      than a newline: no line of it ends in whitespace. */
  predicate LineEndsClean(s: string) {
    && (forall i :: 0 < i < |s| && s[i] == '\n' ==> s[i - 1] == '\n' || !IsSpace(s[i - 1]))
    && (s == [] || s[|s| - 1] == '\n' || !IsSpace(s[|s| - 1]))
  }

  /** Lines 10-22: `sanitizeCode`. */
  function SanitizeCode(code: string): (r: string)
    ensures Trimmed(r)
  {
    Trim(TrimLineEnds(NormalizeLineEndings(RemoveZeroWidth(code))))
  }

  lemma TrimEndOfEndClean(s: string)
    requires s == [] || !IsSpace(s[|s| - 1])
    ensures TrimEnd(s) == s
  {}

  /** A clean line, a newline, and clean text form clean text. */
  lemma LineThenRest(a: string, b: string)
    requires '\n' !in a && (a == [] || !IsSpace(a[|a| - 1]))
    requires LineEndsClean(b)
    ensures LineEndsClean(a + "\n" + b)
  {
    var s := a + "\n" + b;
    var n := |a|;
    assert forall i :: 0 <= i < n ==> s[i] == a[i];
    forall i | 0 < i < |s| && s[i] == '\n'
      ensures s[i - 1] == '\n' || !IsSpace(s[i - 1])
    {
      if i == n {
        assert s[i - 1] == a[n - 1];
      } else if i > n + 1 {
        assert s[i] == b[i - n - 1] && s[i - 1] == b[i - n - 2];
      }
    }
    if b != [] {
      assert s[|s| - 1] == b[|b| - 1];
    }
  }

  lemma {:induction false} JoinTrimEndsClean(parts: seq<string>)
    requires forall k :: 0 <= k < |parts| ==> '\n' !in parts[k]
    ensures LineEndsClean(Join(TrimEnds(parts), '\n'))
  {
    var lines := TrimEnds(parts);
    if |parts| == 1 {
      assert Join(lines, '\n') == TrimEnd(parts[0]);
    } else if |parts| > 1 {
      JoinTrimEndsClean(parts[1..]);
      assert TrimEnds(parts[1..]) == lines[1..];
      var a := TrimEnd(parts[0]);
      assert '\n' !in a by {
        assert forall i :: 0 <= i < |a| ==> a[i] == parts[0][i];
      }
      LineThenRest(a, Join(lines[1..], '\n'));
    }
  }

  /** What follows a newline of clean text is clean. */
  lemma CleanAfterNewline(s: string, i: nat)
    requires LineEndsClean(s) && i < |s| && s[i] == '\n'
    ensures LineEndsClean(s[i + 1..])
  {
    var tail := s[i + 1..];
    forall j | 0 < j < |tail| && tail[j] == '\n'
      ensures tail[j - 1] == '\n' || !IsSpace(tail[j - 1])
    {
      assert tail[j] == s[i + 1 + j] && tail[j - 1] == s[i + j];
    }
    if tail != [] {
      assert tail[|tail| - 1] == s[|s| - 1];
    }
  }

  /** The lines of clean text need no trimming. */
  lemma {:induction false} SplitOfClean(s: string)
    requires LineEndsClean(s)
    ensures forall k :: 0 <= k < |Split(s, '\n')| ==> TrimEnd(Split(s, '\n')[k]) == Split(s, '\n')[k]
    decreases |s|
  {
    if '\n' in s {
      var i := FirstIndexOfChar(s, '\n');
      var head := s[..i];
      var tail := s[i + 1..];
      assert Split(s, '\n') == [head] + Split(tail, '\n');
      if i > 0 {
        assert s[i - 1] != '\n';
        assert head[|head| - 1] == s[i - 1];
      }
      TrimEndOfEndClean(head);
      CleanAfterNewline(s, i);
      SplitOfClean(tail);
    } else {
      assert Split(s, '\n') == [s];
      TrimEndOfEndClean(s);
    }
  }

  /** Trimming line ends leaves clean text alone. */
  lemma TrimLineEndsOfClean(s: string)
    requires LineEndsClean(s)
    ensures TrimLineEnds(s) == s
  {
    SplitOfClean(s);
    var parts := Split(s, '\n');
    assert TrimEnds(parts) == parts;
  }

  /** Trimming removes whitespace at the ends only, so clean text stays clean. */
  lemma TrimKeepsClean(s: string)
    requires LineEndsClean(s)
    ensures LineEndsClean(Trim(s))
  {
    var r := Trim(s);
    var a: nat :| StripsSpaceAround(s, r, a);
    forall i | 0 < i < |r| && r[i] == '\n'
      ensures r[i - 1] == '\n' || !IsSpace(r[i - 1])
    {
      assert r[i] == s[a + i] && r[i - 1] == s[a + i - 1];
    }
  }

  /** Every character of a joined text is the separator or comes from a part. */
  lemma {:induction false} JoinChars(parts: seq<string>, sep: char, c: char)
    requires c in Join(parts, sep) && c != sep
    ensures exists k :: 0 <= k < |parts| && c in parts[k]
  {
    if |parts| > 1 {
      var rest := Join(parts[1..], sep);
      if c in parts[0] {
      } else {
        assert c in rest;
        JoinChars(parts[1..], sep, c);
        var k :| 0 <= k < |parts[1..]| && c in parts[1..][k];
        assert parts[1..][k] == parts[k + 1];
      }
    }
  }

  /** Every character of a part occurs in the joined text. */
  lemma {:induction false} PartChars(parts: seq<string>, sep: char, k: nat, c: char)
    requires k < |parts| && c in parts[k]
    ensures c in Join(parts, sep)
  {
    if |parts| > 1 && k > 0 {
      PartChars(parts[1..], sep, k - 1, c);
    }
  }

  /** Trimming line ends introduces no character other than a newline. */
  lemma TrimLineEndsChars(s: string, c: char)
    requires c in TrimLineEnds(s) && c != '\n'
    ensures c in s
  {
    var parts := Split(s, '\n');
    JoinChars(TrimEnds(parts), '\n', c);
    var k :| 0 <= k < |parts| && c in TrimEnds(parts)[k];
    var line := TrimEnd(parts[k]);
    assert forall i :: 0 <= i < |line| ==> line[i] == parts[k][i];
    PartChars(parts, '\n', k, c);
  }

  /** Lines 10-22: the sanitized code has no zero-width character and no carriage
      return, no line of it ends in whitespace, and it has no whitespace at either
      end. */
  lemma SanitizeCodeClean(code: string)
    ensures NoZeroWidth(SanitizeCode(code))
    ensures '\r' !in SanitizeCode(code)
    ensures LineEndsClean(SanitizeCode(code))
  {
    SanitizeCodeLineEnds(code);
    SanitizeCodeCharsClean(code);
  }

  /** No line of the sanitized code ends in whitespace. */
  lemma SanitizeCodeLineEnds(code: string)
    ensures LineEndsClean(SanitizeCode(code))
  {
    var n := NormalizeLineEndings(RemoveZeroWidth(code));
    TrimKeepsClean(TrimLineEnds(n));
  }

  /** The sanitized code has no zero-width character and no carriage return. */
  lemma SanitizeCodeCharsClean(code: string)
    ensures NoZeroWidth(SanitizeCode(code))
    ensures '\r' !in SanitizeCode(code)
  {
    var r := SanitizeCode(code);
    forall c | c in r && c != '\n' ensures !IsZeroWidth(c) && c != '\r' {
      SanitizeCodeChars(code, c);
    }
    CharsClean(r);
  }

  /** Text whose characters other than newlines are neither zero-width nor a
      carriage return has neither at all. */
  lemma CharsClean(r: string)
    requires forall c :: c in r && c != '\n' ==> !IsZeroWidth(c) && c != '\r'
    ensures NoZeroWidth(r) && '\r' !in r
  {
    forall i | 0 <= i < |r| ensures !IsZeroWidth(r[i]) {
      assert r[i] in r;
    }
  }

  /** Every character of the sanitized code other than a newline comes from the
      input and is not zero-width. */
  lemma SanitizeCodeChars(code: string, c: char)
    requires c in SanitizeCode(code) && c != '\n'
    ensures c in code && !IsZeroWidth(c) && c != '\r'
  {
    var z := RemoveZeroWidth(code);
    var n := NormalizeLineEndings(z);
    var t := TrimLineEnds(n);
    TrimKeepsChars(t, c);
    TrimLineEndsChars(n, c);
    NormalizeChars(z, c);
  }

  /** Trimming introduces no character. */
  lemma TrimKeepsChars(t: string, c: char)
    requires c in Trim(t)
    ensures c in t
  {
    var r := Trim(t);
    var a: nat :| StripsSpaceAround(t, r, a);
    var i :| 0 <= i < |r| && r[i] == c;
    assert t[a + i] == c by {
      assert t[a..a + |r|][i] == t[a + i];
    }
  }

  /** Normalising line endings introduces no character other than a newline. */
  lemma {:induction false} NormalizeChars(z: string, c: char)
    requires c in NormalizeLineEndings(z) && c != '\n'
    ensures c in z
  {
    var m := ReplaceCrLf(z);
    var i :| 0 <= i < |ReplaceCr(m)| && ReplaceCr(m)[i] == c;
    assert m[i] == c;
    CrLfChars(z, c);
  }

  lemma {:induction false} CrLfChars(z: string, c: char)
    requires c in ReplaceCrLf(z) && c != '\n'
    ensures c in z
    decreases |z|
  {
    if |z| >= 2 && z[0] == '\r' && z[1] == '\n' {
      CrLfChars(z[2..], c);
    } else if z != [] {
      if c != z[0] {
        CrLfChars(z[1..], c);
      }
    }
  }

  /** Sanitizing twice gives the same text as sanitizing once. */
  lemma SanitizeCodeIdempotent(code: string)
    ensures SanitizeCode(SanitizeCode(code)) == SanitizeCode(code)
  {
    var r := SanitizeCode(code);
    SanitizeCodeClean(code);
    RemoveZeroWidthFixed(r);
    NormalizeFixed(r);
    TrimLineEndsOfClean(r);
    TrimOfTrimmed(r);
  }

  // ---------------------------------------------------------------------------
  // transformCode
  // ---------------------------------------------------------------------------

  /** What `Babel.transform` does with the sanitized code: return a result whose
      `code` may be missing or empty, or throw. */
  datatype BabelOutcome = Output(code: Option<string>) | BabelThrew(thrown: Thrown)

  /** `TransformResult`: `success`, and `code` or `error`. */
  datatype TransformResult = TransformResult(success: bool, code: Option<string>, error: Option<string>)

  const NoOutputError: string := "Transformation produced no output"
  const UnknownTransformError: string := "Unknown error during transformation"

  /** Lines 24-41: `transformCode`. The transpiler sees the sanitized code; the
      transform succeeds exactly when it yields non-empty code, and then the
      result carries that code and no error; otherwise it carries an error and
      no code. */
  function TransformCode(babel: string -> BabelOutcome, code: string): (r: TransformResult)
    ensures r.success <==> babel(SanitizeCode(code)).Output? && Truthy(babel(SanitizeCode(code)).code)
    ensures r.success ==> r.code == babel(SanitizeCode(code)).code && r.error.None?
    ensures !r.success ==> r.code.None? && r.error.Some?
  {
    TransformSanitized(babel, SanitizeCode(code))
  }

  /** `transformCode` once the code is sanitized: the transpiler's outcome on
      `cleaned` becomes the result. */
  function TransformSanitized(babel: string -> BabelOutcome, cleaned: string): (r: TransformResult)
    ensures r.success <==> babel(cleaned).Output? && Truthy(babel(cleaned).code)
    ensures r.success ==> r.code == babel(cleaned).code && r.error.None?
    ensures !r.success ==> r.code.None? && r.error.Some?
  {
    match babel(cleaned)
    case Output(out) =>
      if Truthy(out) then TransformResult(true, out, None)
      else TransformResult(false, None, Some(NoOutputError))
    case BabelThrew(t) =>
      match t
      case Error(m) => TransformResult(false, None, Some(m))
      case NonError(_) => TransformResult(false, None, Some(UnknownTransformError))
  }

  /** The three ways a transform fails and the error each reports. */
  lemma TransformErrors(babel: string -> BabelOutcome, code: string)
    ensures var out := babel(SanitizeCode(code));
            var r := TransformCode(babel, code);
            && (out.Output? && !Truthy(out.code) ==> r.error == Some(NoOutputError))
            && (out.BabelThrew? && out.thrown.Error? ==> r.error == Some(out.thrown.message))
            && (out.BabelThrew? && out.thrown.NonError? ==> r.error == Some(UnknownTransformError))
  {}

  /** The transform depends on the code only through its sanitized form. */
  lemma TransformSeesSanitized(babel: string -> BabelOutcome, code: string)
    ensures TransformCode(babel, SanitizeCode(code)) == TransformCode(babel, code)
  {
    SanitizeCodeIdempotent(code);
    assert TransformCode(babel, SanitizeCode(code)) == TransformSanitized(babel, SanitizeCode(SanitizeCode(code)));
  }

  // ---------------------------------------------------------------------------
  // createComponent
  // ---------------------------------------------------------------------------

  /** A JavaScript value that `Component` may be bound to: a component (truthy),
      or a falsy value such as `null`. */
  datatype ComponentValue = Renderable(id: nat) | Falsy

  /** What running the transpiled code inside the factory does: it leaves
      `Component` bound to a value, leaves it undefined, or throws. */
  datatype Execution = Defines(value: ComponentValue) | LeavesUndefined | Throws(thrown: Thrown)

  const ComponentNotFound: string := "Component not found in generated code. Make sure the component is named \"Component\"."
  const FactoryReturnedNull: string := "Component factory returned null"
  const TransformErrorPrefix: string := "Transform error: "
  const ExecutionErrorPrefix: string := "Execution error: "
  const UnknownExecutionError: string := "Unknown error"

  /** Lines 71-77: the factory returns `Component` when it is defined and
      throws the not-found error otherwise. */
  function Factory(execution: Execution): (r: Result<ComponentValue>)
    ensures r.Ok? <==> execution.Defines?
    ensures execution.LeavesUndefined? ==> r == Err(ComponentNotFound)
    ensures execution.Throws? && execution.thrown.Error? ==> r == Err(execution.thrown.message)
    ensures execution.Throws? && execution.thrown.NonError? ==> r == Err(UnknownExecutionError)
  {
    match execution
    case Defines(v) => Ok(v)
    case LeavesUndefined => Err(ComponentNotFound)
    case Throws(t) => Err(if t.Error? then t.message else UnknownExecutionError)
  }

  /** `CreateComponentResult`: a component, or `null` and an error. */
  datatype CreateResult = CreateResult(component: Option<nat>, error: Option<string>)

  /** Lines 48-104: `createComponent`; `execute` runs transpiled code in the factory. */
  function CreateComponent(babel: string -> BabelOutcome, execute: string -> Execution, code: string): (r: CreateResult)
    ensures r.component.Some? <==> r.error.None?
    ensures r.component.Some? <==>
              TransformCode(babel, code).success &&
              execute(TransformCode(babel, code).code.value).Defines? &&
              execute(TransformCode(babel, code).code.value).value.Renderable?
    ensures r.component.Some? ==>
              execute(TransformCode(babel, code).code.value) == Defines(Renderable(r.component.value))
  {
    CreateFrom(TransformCode(babel, code), execute)
  }

  /** `createComponent` after the transform: the transform result `t` decides
      between the transform error and running the factory. */
  function CreateFrom(t: TransformResult, execute: string -> Execution): CreateResult {
    if !t.success || !Truthy(t.code) then
      CreateResult(None, Some(TransformErrorPrefix + t.error.GetOr("undefined")))
    else
      match Factory(execute(t.code.value))
      case Ok(Falsy) => CreateResult(None, Some(FactoryReturnedNull))
      case Ok(Renderable(id)) => CreateResult(Some(id), None)
      case Err(m) => CreateResult(None, Some(ExecutionErrorPrefix + m))
  }

  /** A failed transform is reported with its own error behind `Transform error: `. */
  lemma CreateComponentTransformFailure(babel: string -> BabelOutcome, execute: string -> Execution, code: string)
    requires !TransformCode(babel, code).success
    ensures CreateComponent(babel, execute, code)
         == CreateResult(None, Some(TransformErrorPrefix + TransformCode(babel, code).error.value))
  {}

  /** Code that leaves `Component` undefined is reported as not found. */
  lemma CreateComponentNotFound(babel: string -> BabelOutcome, execute: string -> Execution, code: string)
    requires TransformCode(babel, code).success
    requires execute(TransformCode(babel, code).code.value) == LeavesUndefined
    ensures CreateComponent(babel, execute, code) == CreateResult(None, Some(ExecutionErrorPrefix + ComponentNotFound))
  {}

  /** An `Error` thrown while building or running the factory is reported
      with its message behind `Execution error: `. */
  lemma CreateComponentThrowsError(babel: string -> BabelOutcome, execute: string -> Execution, code: string, m: string)
    requires TransformCode(babel, code).success
    requires execute(TransformCode(babel, code).code.value) == Throws(Error(m))
    ensures CreateComponent(babel, execute, code) == CreateResult(None, Some(ExecutionErrorPrefix + m))
  {}

  /** Any other thrown value is reported as `Execution error: Unknown error`. */
  lemma CreateComponentThrowsNonError(babel: string -> BabelOutcome, execute: string -> Execution, code: string, v: string)
    requires TransformCode(babel, code).success
    requires execute(TransformCode(babel, code).code.value) == Throws(NonError(v))
    ensures CreateComponent(babel, execute, code) == CreateResult(None, Some(ExecutionErrorPrefix + UnknownExecutionError))
  {}

  /** A falsy `Component` is reported as the null-factory error. */
  lemma CreateComponentFactoryNull(babel: string -> BabelOutcome, execute: string -> Execution, code: string)
    requires TransformCode(babel, code).success
    requires execute(TransformCode(babel, code).code.value) == Defines(Falsy)
    ensures CreateComponent(babel, execute, code) == CreateResult(None, Some(FactoryReturnedNull))
  {}

  /** Text that opens with `p` does not open with a `q` whose first character differs. */
  lemma OpensApart(e: string, p: string, q: string)
    requires p != [] && q != [] && p[0] != q[0] && StartsWith(e, p)
    ensures !StartsWith(e, q)
  {
    assert e[..|p|][0] == e[0];
    if |q| <= |e| { assert e[..|q|][0] == e[0]; }
  }

  lemma OpensWith(p: string, m: string)
    ensures StartsWith(p + m, p)
  {
    assert (p + m)[..|p|] == p;
  }

  /** The error kinds of `CreateFrom`, for any transform result that carries
      code exactly when it succeeds. */
  lemma CreateFromErrorKinds(t: TransformResult, execute: string -> Execution)
    requires t.success ==> Truthy(t.code)
    ensures var r := CreateFrom(t, execute);
            r.error.Some? ==>
              && (StartsWith(r.error.value, TransformErrorPrefix) <==> !t.success)
              && (StartsWith(r.error.value, ExecutionErrorPrefix) <==> t.success && !execute(t.code.value).Defines?)
              && (r.error.value == FactoryReturnedNull <==> t.success && execute(t.code.value) == Defines(Falsy))
  {
    var r := CreateFrom(t, execute);
    if !t.success {
      var e := TransformErrorPrefix + t.error.GetOr("undefined");
      assert r.error == Some(e);
      OpensWith(TransformErrorPrefix, t.error.GetOr("undefined"));
      OpensApart(e, TransformErrorPrefix, ExecutionErrorPrefix);
      OpensApart(e, TransformErrorPrefix, FactoryReturnedNull);
    } else {
      var x := execute(t.code.value);
      if x == Defines(Falsy) {
        var e := FactoryReturnedNull;
        assert r.error == Some(e);
        OpensWith(FactoryReturnedNull, []);
        OpensApart(e, FactoryReturnedNull, TransformErrorPrefix);
        OpensApart(e, FactoryReturnedNull, ExecutionErrorPrefix);
      } else if !x.Defines? {
        var e := ExecutionErrorPrefix + Factory(x).message;
        assert r.error == Some(e);
        OpensWith(ExecutionErrorPrefix, Factory(x).message);
        OpensApart(e, ExecutionErrorPrefix, TransformErrorPrefix);
        OpensApart(e, ExecutionErrorPrefix, FactoryReturnedNull);
      }
    }
  }

  /** The three kinds of error `createComponent` reports, each told apart by
      its text and each arising from exactly one stage: the transform, the
      evaluation, or a falsy `Component`. */
  lemma CreateComponentErrorKinds(babel: string -> BabelOutcome, execute: string -> Execution, code: string)
    ensures var r := CreateComponent(babel, execute, code);
            r.error.Some? ==>
              StartsWith(r.error.value, TransformErrorPrefix) || StartsWith(r.error.value, ExecutionErrorPrefix)
              || r.error.value == FactoryReturnedNull
    ensures var r := CreateComponent(babel, execute, code);
            r.error.Some? ==> (StartsWith(r.error.value, TransformErrorPrefix) <==> !TransformCode(babel, code).success)
    ensures var r := CreateComponent(babel, execute, code);
            r.error.Some? ==>
              (StartsWith(r.error.value, ExecutionErrorPrefix) <==>
                 TransformCode(babel, code).success && !execute(TransformCode(babel, code).code.value).Defines?)
    ensures var r := CreateComponent(babel, execute, code);
            r.error.Some? ==>
              (r.error.value == FactoryReturnedNull <==>
                 TransformCode(babel, code).success && execute(TransformCode(babel, code).code.value) == Defines(Falsy))
  {
    var t := TransformCode(babel, code);
    CreateFromErrorKinds(t, execute);
    if t.success {
      var x := execute(t.code.value);
      if x.Defines? && x.value.Renderable? {
        assert CreateFrom(t, execute).error.None?;
      }
    }
  }
}
