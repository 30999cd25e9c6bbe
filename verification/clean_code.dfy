/** `cleanCode` of app/hooks/useGeneration.ts: turns the text the generation
    endpoint returned into source for the transpiler. It trims, removes
    markdown fences with two global multiline regular expressions, drops any
    preamble before the first `const Component`, and drops trailing
    commentary after the last `};`. The two fence expressions are written
    out here as explicit left-to-right scans with the backtracking the
    regular-expression engine performs. */
module CleanCode {
  import opened Base
  import opened Text

  const Fence: string := "```"
  /** The alternatives of `(?:jsx|tsx|javascript|typescript|js|ts)`, in the order they are tried. */
  const LanguageTags: seq<string> := ["jsx", "tsx", "javascript", "typescript", "js", "ts"]
  const ComponentMarker: string := "const Component"
  const DefinitionEnd: string := "};"

  // ---------------------------------------------------------------------------
  // The fence regular expressions
  // ---------------------------------------------------------------------------

  /** The length of what `(?:jsx|tsx|javascript|typescript|js|ts)?` takes at `p`:
      the first alternative that occurs there, or nothing. */
  function TagLength(s: string, p: nat): (n: nat)
    ensures p <= |s| ==> p + n <= |s|
  {
    TagFrom(s, p, 0)
  }

  /** The alternatives from the `k`-th on, tried in order. */
  function TagFrom(s: string, p: nat, k: nat): (n: nat)
    requires k <= |LanguageTags|
    ensures p <= |s| ==> p + n <= |s|
    decreases |LanguageTags| - k
  {
    if k == |LanguageTags| then 0
    else if OccursAt(s, LanguageTags[k], p) then |LanguageTags[k]|
    else TagFrom(s, p, k + 1)
  }

  /** The scan from the `k`-th alternative finds nothing exactly when none of them occurs. */
  lemma {:induction false} TagFromZeroIffNone(s: string, p: nat, k: nat)
    requires k <= |LanguageTags|
    ensures TagFrom(s, p, k) == 0 <==> forall i :: k <= i < |LanguageTags| ==> !OccursAt(s, LanguageTags[i], p)
    decreases |LanguageTags| - k
  {
    if k < |LanguageTags| && !OccursAt(s, LanguageTags[k], p) {
      TagFromZeroIffNone(s, p, k + 1);
    }
  }

  /** The scan stops at the first alternative that occurs. */
  lemma {:induction false} TagFromFindsFirst(s: string, p: nat, k: nat, i: nat)
    requires k <= i < |LanguageTags| && OccursAt(s, LanguageTags[i], p)
    requires forall j :: k <= j < i ==> !OccursAt(s, LanguageTags[j], p)
    ensures TagFrom(s, p, k) == |LanguageTags[i]|
    decreases i - k
  {
    if k < i {
      TagFromFindsFirst(s, p, k + 1, i);
    }
  }

  /** No tag occurs at `p` exactly when the tag length there is zero. */
  lemma TagLengthZeroIffNone(s: string, p: nat)
    ensures TagLength(s, p) == 0 <==> forall k :: 0 <= k < |LanguageTags| ==> !OccursAt(s, LanguageTags[k], p)
  {
    TagFromZeroIffNone(s, p, 0);
  }

  /** Length of the maximal run of whitespace (`\s*`, greedy) starting at `q`. */
  function SpaceRun(s: string, q: nat): (n: nat)
    requires q <= |s|
    ensures q + n <= |s|
    decreases |s| - q
  {
    if q < |s| && IsSpace(s[q]) then 1 + SpaceRun(s, q + 1) else 0
  }

  /** The run is whitespace and cannot be extended. */
  lemma {:induction false} SpaceRunIsMaximal(s: string, q: nat)
    requires q <= |s|
    ensures var n := SpaceRun(s, q);
            && (forall i :: q <= i < q + n ==> IsSpace(s[i]))
            && (q + n == |s| || !IsSpace(s[q + n]))
    decreases |s| - q
  {
    if q < |s| && IsSpace(s[q]) {
      SpaceRunIsMaximal(s, q + 1);
    }
  }

  /** `^` in multiline mode: the start of the input or just after a line terminator. */
  predicate AtLineStart(s: string, p: nat)
    requires p <= |s|
  {
    p == 0 || IsLineTerminator(s[p - 1])
  }

  /** The length of the match of ``/^```(?:jsx|tsx|javascript|typescript|js|ts)?\s*\n?/m``
      at `p`. The trailing `\n?` always matches empty, because the greedy `\s*`
      before it has already consumed every newline of the whitespace run. */
  function OpeningFenceAt(s: string, p: nat): (r: Option<nat>)
    requires p <= |s|
    ensures r.Some? ==> 3 <= r.value && p + r.value <= |s| && OccursAt(s, Fence, p)
  {
    if AtLineStart(s, p) && OccursAt(s, Fence, p) then
      var tag := TagLength(s, p + 3);
      Some(3 + tag + SpaceRun(s, p + 3 + tag))
    else None
  }

  /** The global replacement of every opening-fence match by the empty string,
      scanning from `p`. */
  function StripOpening(s: string, p: nat): (r: string)
    requires p <= |s|
    ensures |r| <= |s| - p
    decreases |s| - p
  {
    if p == |s| then []
    else match OpeningFenceAt(s, p)
      case Some(n) => StripOpening(s, p + n)
      case None => [s[p]] + StripOpening(s, p + 1)
  }

  /** The largest index `i` with `lo <= i < hi` that holds a line terminator. */
  function LastLineTerminator(s: string, lo: nat, hi: nat): (r: Option<nat>)
    requires lo <= hi <= |s|
    ensures r.Some? ==> lo <= r.value < hi && IsLineTerminator(s[r.value])
    ensures r.Some? ==> forall i :: r.value < i < hi ==> !IsLineTerminator(s[i])
    ensures r.None? ==> forall i :: lo <= i < hi ==> !IsLineTerminator(s[i])
    decreases hi - lo
  {
    if lo == hi then None
    else if IsLineTerminator(s[hi - 1]) then Some(hi - 1)
    else LastLineTerminator(s, lo, hi - 1)
  }

  /** Where `\s*$` (multiline) ends when tried at `q`: the greedy whitespace run
      if it reaches the end of the input, otherwise the engine backtracks to the
      last line terminator inside the run; `None` if neither exists. */
  function SpaceThenLineEnd(s: string, q: nat): (r: Option<nat>)
    requires q <= |s|
    ensures r.Some? ==> q <= r.value <= |s|
    ensures r.Some? ==> r.value == |s| || IsLineTerminator(s[r.value])
    ensures r.Some? ==> forall i :: q <= i < r.value ==> IsSpace(s[i])
  {
    var w := SpaceRun(s, q);
    SpaceRunIsMaximal(s, q);
    if q + w == |s| then Some(|s|) else LastLineTerminator(s, q, q + w)
  }

  /** The end of the match of ``/\n?```\s*$/m`` starting at `p`, if any. The
      optional newline is tried first; giving it up cannot help, because the
      fence would then have to start at the newline itself. */
  function ClosingFenceAt(s: string, p: nat): (r: Option<nat>)
    requires p <= |s|
    ensures r.Some? ==> p + 3 <= r.value <= |s|
  {
    if p < |s| && s[p] == '\n' then
      if OccursAt(s, Fence, p + 1) then SpaceThenLineEnd(s, p + 4) else None
    else if OccursAt(s, Fence, p) then SpaceThenLineEnd(s, p + 3)
    else None
  }

  /** The global replacement of every closing-fence match by the empty string,
      scanning from `p`. */
  function StripClosing(s: string, p: nat): (r: string)
    requires p <= |s|
    ensures |r| <= |s| - p
    decreases |s| - p
  {
    if p == |s| then []
    else match ClosingFenceAt(s, p)
      case Some(e) => StripClosing(s, e)
      case None => [s[p]] + StripClosing(s, p + 1)
  }

  /** Lines 24-25: both fence replacements, in order. */
  function StripFences(s: string): (r: string)
    ensures |r| <= |s|
  {
    var unopened := StripOpening(s, 0);
    StripClosing(unopened, 0)
  }

  predicate NoFenceFrom(s: string, p: nat) {
    forall j :: p <= j < |s| ==> !OccursAt(s, Fence, j)
  }

  lemma {:induction false} StripOpeningNoFence(s: string, p: nat)
    requires p <= |s| && NoFenceFrom(s, p)
    ensures StripOpening(s, p) == s[p..]
    decreases |s| - p
  {
    if p < |s| {
      StripOpeningNoFence(s, p + 1);
      assert s[p..] == [s[p]] + s[p + 1..];
    }
  }

  lemma {:induction false} StripClosingNoFence(s: string, p: nat)
    requires p <= |s| && NoFenceFrom(s, p)
    ensures StripClosing(s, p) == s[p..]
    decreases |s| - p
  {
    if p < |s| {
      assert !OccursAt(s, Fence, p + 1) && !OccursAt(s, Fence, p);
      StripClosingNoFence(s, p + 1);
      assert s[p..] == [s[p]] + s[p + 1..];
    }
  }

  /** Text without a fence passes through fence removal unchanged. */
  lemma StripFencesNoFence(s: string)
    requires NoFenceFrom(s, 0)
    ensures StripFences(s) == s
  {
    StripOpeningNoFence(s, 0);
    StripClosingNoFence(s, 0);
  }

  // ---------------------------------------------------------------------------
  // The steps after fence removal
  // ---------------------------------------------------------------------------

  /** Lines 29-32: `/(const Component[\s\S]*)/` keeps everything from the first
      occurrence of the marker; without a match the text is kept. */
  function FromComponent(d: string): (c: string)
    ensures |c| <= |d| && c == d[|d| - |c|..]
    ensures IndexOf(d, ComponentMarker).Some? ==> StartsWith(c, ComponentMarker)
    ensures IndexOf(d, ComponentMarker).Some? ==> |d| - |c| == IndexOf(d, ComponentMarker).value
    ensures IndexOf(d, ComponentMarker).Some? ==>
              forall j :: 0 <= j < |d| - |c| ==> !OccursAt(d, ComponentMarker, j)
    ensures IndexOf(d, ComponentMarker).None? ==> c == d
  {
    match IndexOf(d, ComponentMarker)
    case Some(i) =>
      assert d[i..][..|ComponentMarker|] == d[i..i + |ComponentMarker|];
      d[i..]
    case None => d
  }

  /** The text following the `};` at `k`, trimmed: the candidate trailing commentary. */
  function AfterDefinition(c: string, k: nat): string
    requires k + 2 <= |c|
  {
    Trim(c[k + 2..])
  }

  /** Whether the trailing text is commentary to drop: non-blank and not the
      start of another definition. */
  predicate IsCommentary(after: string) {
    after != [] && !StartsWith(after, "const") && !StartsWith(after, "function")
  }

  /** Lines 35-41: cuts after the last `};` when what follows is commentary. */
  function DropTrailing(c: string): (r: string)
    ensures |r| <= |c| && r == c[..|r|]
  {
    match LastIndexOf(c, DefinitionEnd)
    case Some(k) =>
      if k < |c| - 2 && IsCommentary(AfterDefinition(c, k)) then c[..k + 2] else c
    case None => c
  }

  /** Lines 29-43: everything `cleanCode` does after fence removal. */
  function AfterFences(d: string): (r: string)
    ensures Trimmed(r)
  {
    Trim(DropTrailing(FromComponent(d)))
  }

  /** Lines 17-44: `cleanCode`. Empty input gives empty output, and the output
      never starts or ends with whitespace. */
  function Clean(code: string): (r: string)
    ensures code == [] ==> r == []
    ensures Trimmed(r)
  {
    if code == [] then []
    else AfterFences(Trim(StripFences(Trim(code))))
  }

  /** The marker contains no `}`, so a `};` in marked text lies after the marker. */
  lemma DefinitionEndAfterMarker(c: string, k: nat)
    requires StartsWith(c, ComponentMarker) && OccursAt(c, DefinitionEnd, k)
    ensures k >= |ComponentMarker|
  {
    assert c[k] == '}';
    assert forall j :: 0 <= j < |ComponentMarker| ==> c[j] == ComponentMarker[j];
    assert forall j :: 0 <= j < |ComponentMarker| ==> ComponentMarker[j] != '}';
  }

  lemma AfterFencesOfEmpty()
    ensures FromComponent([]) == [] && DropTrailing([]) == [] && AfterFences([]) == []
  {
    assert !OccursAt([], DefinitionEnd, 0);
  }

  /** The marker step keeps trimmed text trimmed: its output starts with the
      marker or is the whole text, and it ends where the text does. */
  lemma FromComponentOfTrimmed(d: string)
    requires Trimmed(d)
    ensures Trimmed(FromComponent(d))
  {
    var c := FromComponent(d);
    if c != [] && IndexOf(d, ComponentMarker).Some? {
      assert c[..|ComponentMarker|] == ComponentMarker;
      assert c[0] == 'c';
      assert c[|c| - 1] == d[|d| - 1];
    }
  }

  /** The trailing cut keeps trimmed text trimmed: a cut ends at `;`. */
  lemma DropTrailingOfTrimmed(c: string)
    requires Trimmed(c)
    ensures Trimmed(DropTrailing(c))
  {
    match LastIndexOf(c, DefinitionEnd) {
      case Some(k) =>
        if k < |c| - 2 && IsCommentary(AfterDefinition(c, k)) {
          EndOfDefinitionEnd(c, k);
          assert DropTrailing(c) == c[..k + 2];
        }
      case None =>
    }
  }

  /** The `};` at `k` puts `;` at `k + 1`, which is not whitespace. */
  lemma EndOfDefinitionEnd(c: string, k: nat)
    requires Trimmed(c) && OccursAt(c, DefinitionEnd, k)
    ensures Trimmed(c[..k + 2])
  {
    assert c[k + 1] == c[k..k + 2][1];
  }

  /** On trimmed text, the marker step and the trailing cut keep the text trimmed,
      so the final `trim()` changes nothing. */
  lemma AfterFencesOfTrimmed(d: string)
    requires Trimmed(d)
    ensures Trimmed(FromComponent(d))
    ensures Trimmed(DropTrailing(FromComponent(d)))
    ensures AfterFences(d) == DropTrailing(FromComponent(d))
  {
    FromComponentOfTrimmed(d);
    DropTrailingOfTrimmed(FromComponent(d));
    TrimOfTrimmed(DropTrailing(FromComponent(d)));
  }

  /** A prefix of a suffix of `d` is a slice of `d`. */
  lemma SuffixThenPrefix(d: string, c: string, r: string)
    requires |c| <= |d| && c == d[|d| - |c|..]
    requires |r| <= |c| && r == c[..|r|]
    ensures SliceAt(r, d, |d| - |c|)
  {}


  /** On non-empty trimmed text the output sits in `d` where `FromComponent` cut it. */
  lemma AfterFencesSliceAt(d: string)
    requires Trimmed(d) && d != []
    ensures |FromComponent(d)| <= |d|
    ensures SliceAt(AfterFences(d), d, |d| - |FromComponent(d)|)
  {
    AfterFencesOfTrimmed(d);
    var c := FromComponent(d);
    SuffixThenPrefix(d, c, DropTrailing(c));
  }

  /** The output of the post-fence steps is a contiguous piece of their input. */
  lemma AfterFencesIsInfix(d: string)
    requires Trimmed(d)
    ensures IsInfix(AfterFences(d), d)
  {
    if d == [] {
      AfterFencesOfEmpty();
      assert SliceAt([], d, 0);
    } else {
      AfterFencesSliceAt(d);
    }
  }

  lemma PrefixKeepsStart(c: string, n: nat, prefix: string)
    requires StartsWith(c, prefix) && |prefix| <= n <= |c|
    ensures StartsWith(c[..n], prefix)
  {
    assert c[..n][..|prefix|] == c[..|prefix|];
  }

  lemma DropTrailingKeepsMarker(c: string)
    requires StartsWith(c, ComponentMarker)
    ensures StartsWith(DropTrailing(c), ComponentMarker)
  {
    match LastIndexOf(c, DefinitionEnd) {
      case Some(k) =>
        DefinitionEndAfterMarker(c, k);
        PrefixKeepsStart(c, |DropTrailing(c)|, ComponentMarker);
      case None =>
    }
  }

  /** When the de-fenced text contains `const Component`, the output starts with it. */
  lemma AfterFencesStartsWithMarker(d: string)
    requires Trimmed(d) && IndexOf(d, ComponentMarker).Some?
    ensures StartsWith(AfterFences(d), ComponentMarker)
  {
    assert d != [];
    AfterFencesOfTrimmed(d);
    DropTrailingKeepsMarker(FromComponent(d));
  }

  /** The output is a piece of the text that begins at the first `const Component`. */
  lemma AfterFencesFromMarker(d: string)
    requires Trimmed(d) && IndexOf(d, ComponentMarker).Some?
    ensures SliceAt(AfterFences(d), d, IndexOf(d, ComponentMarker).value)
  {
    assert d != [];
    AfterFencesOfTrimmed(d);
    var i := IndexOf(d, ComponentMarker).value;
    var c := FromComponent(d);
    SuffixThenPrefix(d, c, DropTrailing(c));
    assert |d| - |c| == i;
  }

  lemma TrimOfEmpty()
    ensures Trim([]) == []
  {}

  /** `r` is what the trailing cut leaves of `c`: when the text after the last
      `};` is non-blank and does not start with `const` or `function`, `r` ends
      at that `};`; in every other case `r` is `c`. */
  predicate TrailingCut(c: string, r: string) {
    match LastIndexOf(c, DefinitionEnd)
    case Some(k) =>
      if IsCommentary(AfterDefinition(c, k))
      then r == c[..k + 2] && EndsWith(r, DefinitionEnd)
      else r == c
    case None => r == c
  }

  /** The guard `k < |c| - 2` of the cut is implied by the commentary test: with
      nothing after the `};` there is no commentary. */
  lemma DropTrailingCases(c: string)
    ensures TrailingCut(c, DropTrailing(c))
  {
    match LastIndexOf(c, DefinitionEnd) {
      case Some(k) =>
        if k + 2 == |c| {
          assert c[k + 2..] == [];
          TrimOfEmpty();
        }
      case None =>
    }
  }

  /** The post-fence steps end with exactly the trailing cut of the marker step's output. */
  lemma AfterFencesTrailing(d: string)
    requires Trimmed(d)
    ensures TrailingCut(FromComponent(d), AfterFences(d))
  {
    AfterFencesOfTrimmed(d);
    DropTrailingCases(FromComponent(d));
  }

  lemma PrefixOccurrence(r: string, s: string, pattern: string, j: nat)
    requires |r| <= |s| && r == s[..|r|] && OccursAt(r, pattern, j)
    ensures OccursAt(s, pattern, j)
  {
    assert s[j..j + |pattern|] == r[j..j + |pattern|];
  }

  lemma FromComponentOfMarked(r: string)
    requires StartsWith(r, ComponentMarker)
    ensures FromComponent(r) == r
  {
    assert OccursAt(r, ComponentMarker, 0);
  }

  lemma FromComponentOfUnmarkedPrefix(r: string, d: string)
    requires |r| <= |d| && r == d[..|r|] && IndexOf(d, ComponentMarker).None?
    ensures FromComponent(r) == r
  {
    forall j | 0 <= j
      ensures !OccursAt(r, ComponentMarker, j)
    {
      if OccursAt(r, ComponentMarker, j) {
        PrefixOccurrence(r, d, ComponentMarker, j);
      }
    }
  }

  lemma DropTrailingOfEnded(r: string)
    requires EndsWith(r, DefinitionEnd)
    ensures DropTrailing(r) == r
  {
    assert OccursAt(r, DefinitionEnd, |r| - 2);
  }

  /** A second trailing cut changes nothing: a cut leaves the text ending in `};`. */
  lemma DropTrailingIdempotent(c: string)
    ensures DropTrailing(DropTrailing(c)) == DropTrailing(c)
  {
    if DropTrailing(c) != c {
      DropTrailingCases(c);
      assert TrailingCut(c, DropTrailing(c));
      DropTrailingOfEnded(DropTrailing(c));
    }
  }

  /** The marker step applied to the output finds nothing more to drop. */
  lemma FromComponentOfOutput(d: string)
    requires Trimmed(d)
    ensures FromComponent(DropTrailing(FromComponent(d))) == DropTrailing(FromComponent(d))
  {
    var r := DropTrailing(FromComponent(d));
    if IndexOf(d, ComponentMarker).Some? {
      assert d != [];
      DropTrailingKeepsMarker(FromComponent(d));
      FromComponentOfMarked(r);
    } else {
      FromComponentOfUnmarkedPrefix(r, d);
    }
  }

  /** Running the post-fence steps a second time changes nothing. */
  lemma AfterFencesIdempotent(d: string)
    requires Trimmed(d)
    ensures AfterFences(AfterFences(d)) == AfterFences(d)
  {
    AfterFencesOfTrimmed(d);
    var r := DropTrailing(FromComponent(d));
    FromComponentOfOutput(d);
    DropTrailingIdempotent(FromComponent(d));
    TrimOfTrimmed(r);
  }

  // ---------------------------------------------------------------------------
  // Fenced blocks
  // ---------------------------------------------------------------------------

  lemma NoTagAtNonLetter(s: string, p: nat)
    requires p < |s| && s[p] != 'j' && s[p] != 't'
    ensures TagLength(s, p) == 0
  {
    forall k | 0 <= k < |LanguageTags| ensures !OccursAt(s, LanguageTags[k], p) {
      MismatchAt(s, p, LanguageTags[k], 0);
    }
    TagLengthZeroIffNone(s, p);
  }

  /** No tag can start at the end of the input. */
  lemma NoTagAtEnd(s: string)
    ensures TagLength(s, |s|) == 0
  {
    forall k | 0 <= k < |LanguageTags| ensures !OccursAt(s, LanguageTags[k], |s|) {
      assert |LanguageTags[k]| > 0;
    }
    TagLengthZeroIffNone(s, |s|);
  }

  lemma MismatchAt(s: string, p: nat, t: string, j: nat)
    requires j < |t| && p + j < |s| && s[p + j] != t[j]
    ensures !OccursAt(s, t, p)
  {
    if p + |t| <= |s| {
      assert s[p..p + |t|][j] == s[p + j];
    }
  }

  /** A tag followed by a newline is what `(?:jsx|tsx|javascript|typescript|js|ts)?` takes. */
  lemma TagBeforeNewline(s: string, p: nat, k: nat)
    requires k < |LanguageTags|
    requires OccursAt(s, LanguageTags[k], p) && p + |LanguageTags[k]| < |s| && s[p + |LanguageTags[k]|] == '\n'
    ensures TagLength(s, p) == |LanguageTags[k]|
  {
    var tag := LanguageTags[k];
    forall j | 0 <= j < |tag| ensures s[p + j] == tag[j] {
      assert s[p..p + |tag|][j] == s[p + j];
    }
    forall i | 0 <= i < k ensures !OccursAt(s, LanguageTags[i], p) {
      var t := LanguageTags[i];
      var j := if k >= 4 && |t| > 2 then 2 else if t[0] != tag[0] then 0 else 1;
      MismatchAt(s, p, t, j);
    }
    TagFromFindsFirst(s, p, 0, k);
  }

  /** A fenced code block: an opening fence with an optional language tag, the body, and a closing fence. */
  function FencedBlock(tag: string, body: string): string {
    Fence + tag + "\n" + body + "\n" + Fence
  }

  /** Where no fence starts, the opening expression cannot match and the character is kept. */
  lemma StripOpeningKeeps(s: string, p: nat)
    requires p < |s| && !OccursAt(s, Fence, p)
    ensures StripOpening(s, p) == [s[p]] + StripOpening(s, p + 1)
  {
    assert OpeningFenceAt(s, p).None?;
  }

  lemma {:induction false} StripOpeningSkip(s: string, p: nat, q: nat)
    requires p <= q <= |s|
    requires forall j :: p <= j < q ==> !OccursAt(s, Fence, j)
    ensures StripOpening(s, p) == s[p..q] + StripOpening(s, q)
    decreases q - p
  {
    if p < q {
      StripOpeningKeeps(s, p);
      StripOpeningSkip(s, p + 1, q);
      ConsThenAppend(s[p], s[p + 1..q], StripOpening(s, q), s[p..q]);
    }
  }

  lemma ConsThenAppend(c: char, mid: string, rest: string, whole: string)
    requires whole == [c] + mid
    ensures [c] + (mid + rest) == whole + rest
  {}

  lemma NoFenceAppendNewline(t: string)
    requires NoFenceFrom(t, 0)
    ensures NoFenceFrom(t + "\n", 0)
  {
    var u := t + "\n";
    forall j | 0 <= j < |u| ensures !OccursAt(u, Fence, j) {
      if j + 3 <= |t| {
        assert !OccursAt(t, Fence, j);
        assert u[j..j + 3] == t[j..j + 3];
      } else if j + 3 <= |u| {
        assert u[|t|] == '\n';
        MismatchAt(u, j, Fence, |t| - j);
      }
    }
  }

  predicate IsTag(tag: string) {
    tag == [] || tag in LanguageTags
  }

  /** Where the parts of `FencedBlock(tag, body)` sit in `s`. */
  predicate BlockLayout(s: string, tag: string, body: string) {
    && |s| == |tag| + |body| + 8
    && s[..3] == Fence && s[3..3 + |tag|] == tag && s[|tag| + 3] == '\n'
    && s[|tag| + 4..|tag| + 4 + |body|] == body
    && s[|tag| + 4 + |body|] == '\n' && s[|tag| + 5 + |body|..] == Fence
  }

  lemma BlockLayoutOf(tag: string, body: string)
    ensures BlockLayout(FencedBlock(tag, body), tag, body)
  {
    var s := FencedBlock(tag, body);
    var a := Fence + tag + "\n";
    var b := a + body + "\n";
    assert s == b + Fence;
    assert s[..|b|] == b && s[|b|..] == Fence;
    assert b[..|a|] == a && b[|a|..|a| + |body|] == body && b[|a| + |body|] == '\n';
    assert a[..3] == Fence && a[3..3 + |tag|] == tag && a[|tag| + 3] == '\n';
  }

  /** The opening fence, its tag and the newline after it form one match. */
  lemma BlockOpeningFence(s: string, tag: string, body: string)
    requires BlockLayout(s, tag, body)
    requires IsTag(tag) && body != [] && !IsSpace(body[0])
    ensures OpeningFenceAt(s, 0) == Some(|tag| + 4)
  {
    var L := 3 + |tag|;
    assert s[L + 1] == s[L + 1..L + 1 + |body|][0];
    if tag == [] {
      NoTagAtNonLetter(s, 3);
    } else {
      var k :| 0 <= k < |LanguageTags| && LanguageTags[k] == tag;
      TagBeforeNewline(s, 3, k);
    }
    assert SpaceRun(s, L + 1) == 0;
    assert SpaceRun(s, L) == 1;
    assert OccursAt(s, Fence, 0);
  }

  /** A slice of `body`, where `body` sits at `a` in `s`, is the same slice of `s`. */
  lemma SliceOfSlice(s: string, a: nat, body: string, i: nat, n: nat)
    requires a + |body| <= |s| && s[a..a + |body|] == body && i + n <= |body|
    ensures s[a + i..a + i + n] == body[i..i + n]
  {
    forall t | i <= t < i + n ensures s[a + t] == body[t] {
      assert s[a + t] == s[a..a + |body|][t];
    }
  }

  /** Fence-free text followed by a newline contributes no fence occurrence. */
  lemma NoFenceInside(s: string, a: nat, body: string)
    requires a + |body| < |s| && s[a..a + |body|] == body && s[a + |body|] == '\n'
    requires NoFenceFrom(body, 0)
    ensures forall j :: a <= j < a + |body| ==> !OccursAt(s, Fence, j)
  {
    var q := a + |body|;
    forall j | a <= j < q ensures !OccursAt(s, Fence, j) {
      if j + 3 <= q {
        assert !OccursAt(body, Fence, j - a);
        SliceOfSlice(s, a, body, j - a, 3);
      } else {
        MismatchAt(s, j, Fence, q - j);
      }
    }
  }

  /** Fence-free text followed by a newline passes through opening-fence removal. */
  lemma SkipFenceFree(s: string, a: nat, body: string)
    requires a + |body| < |s| && s[a..a + |body|] == body && s[a + |body|] == '\n'
    requires NoFenceFrom(body, 0)
    ensures StripOpening(s, a) == body + StripOpening(s, a + |body|)
  {
    NoFenceInside(s, a, body);
    StripOpeningSkip(s, a, a + |body|);
    var rest := StripOpening(s, a + |body|);
    assert StripOpening(s, a) == s[a..a + |body|] + rest;
  }

  /** The body is copied through. */
  lemma BlockBody(s: string, tag: string, body: string)
    requires BlockLayout(s, tag, body) && NoFenceFrom(body, 0)
    ensures StripOpening(s, |tag| + 4) == body + StripOpening(s, |tag| + 4 + |body|)
  {
    SkipFenceFree(s, |tag| + 4, body);
  }

  /** The closing fence sits at the start of a line, so the opening expression
      removes it and only the newline before it survives. */
  lemma BlockClosingFence(s: string, tag: string, body: string)
    requires BlockLayout(s, tag, body)
    ensures StripOpening(s, |tag| + 4 + |body|) == "\n"
  {
    var q := |tag| + 4 + |body|;
    MismatchAt(s, q, Fence, 0);
    assert s[q + 1..q + 4] == Fence;
    NoTagAtEnd(s);
    assert OpeningFenceAt(s, q + 1) == Some(3);
  }

  lemma OpeningOfBlock(tag: string, body: string)
    requires IsTag(tag) && body != [] && !IsSpace(body[0]) && NoFenceFrom(body, 0)
    ensures StripOpening(FencedBlock(tag, body), 0) == body + "\n"
  {
    var s := FencedBlock(tag, body);
    BlockLayoutOf(tag, body);
    BlockOpeningFence(s, tag, body);
    BlockBody(s, tag, body);
    BlockClosingFence(s, tag, body);
  }

  /** The fences around a block are removed; the newline before the closing
      fence is left for the following `trim()`. */
  lemma StripFencesOfBlock(tag: string, body: string)
    requires IsTag(tag) && body != [] && !IsSpace(body[0]) && NoFenceFrom(body, 0)
    ensures StripFences(FencedBlock(tag, body)) == body + "\n"
  {
    OpeningOfBlock(tag, body);
    NoFenceAppendNewline(body);
    StripClosingNoFence(body + "\n", 0);
  }

  lemma TrimOfNewlineEnded(body: string)
    requires body != [] && Trimmed(body)
    ensures Trim(body + "\n") == body
  {
    var t := body + "\n";
    assert TrimStart(t) == t;
    assert t[..|t| - 1] == body;
    assert TrimEnd(t) == TrimEnd(body);
    assert TrimEnd(body) == body;
  }

  /** A reply that is one fenced block, with or without a language tag, is
      cleaned to its body after the post-fence steps. */
  lemma CleanOfBlock(tag: string, body: string)
    requires IsTag(tag) && body != [] && Trimmed(body) && NoFenceFrom(body, 0)
    ensures Clean(FencedBlock(tag, body)) == AfterFences(body)
  {
    var s := FencedBlock(tag, body);
    assert s[0] == '`' && s[|s| - 1] == '`';
    TrimOfTrimmed(s);
    StripFencesOfBlock(tag, body);
    TrimOfNewlineEnded(body);
  }

  /** Cleaning twice changes nothing when the cleaned text holds no fence. */
  lemma CleanIdempotentWithoutFence(code: string)
    requires NoFenceFrom(Clean(code), 0)
    ensures Clean(Clean(code)) == Clean(code)
  {
    var r := Clean(code);
    if r != [] {
      var d := Trim(StripFences(Trim(code)));
      TrimOfTrimmed(r);
      StripFencesNoFence(r);
      AfterFencesIdempotent(d);
    }
  }

  // ---------------------------------------------------------------------------
  // Fence removal is not idempotent
  // ---------------------------------------------------------------------------

  /** Where the opening expression matches, the match is dropped and the scan resumes after it. */
  lemma StripOpeningDrops(s: string, p: nat)
    requires p < |s| && OpeningFenceAt(s, p).Some?
    ensures StripOpening(s, p) == StripOpening(s, p + OpeningFenceAt(s, p).value)
  {}

  /** Where the opening expression does not match, the character is kept. */
  lemma StripOpeningKeepsChar(s: string, p: nat)
    requires p < |s| && OpeningFenceAt(s, p).None?
    ensures StripOpening(s, p) == [s[p]] + StripOpening(s, p + 1)
  {}

  /** Where the closing expression matches, the match is dropped and the scan resumes at its end. */
  lemma StripClosingDrops(s: string, p: nat)
    requires p < |s| && ClosingFenceAt(s, p).Some?
    ensures StripClosing(s, p) == StripClosing(s, ClosingFenceAt(s, p).value)
  {}

  /** Where the closing expression does not match, the character is kept. */
  lemma StripClosingKeepsChar(s: string, p: nat)
    requires p < |s| && ClosingFenceAt(s, p).None?
    ensures StripClosing(s, p) == [s[p]] + StripClosing(s, p + 1)
  {}

  /** Inside the doubled fence no match starts: none of these positions is at
      the start of a line. */
  lemma DoubleFenceTail()
    ensures StripOpening("``````b", 3) == "```b"
  {
    var s := "``````b";
    assert StripOpening(s, 7) == [];
    assert !AtLineStart(s, 6) && !AtLineStart(s, 5) && !AtLineStart(s, 4) && !AtLineStart(s, 3);
    StripOpeningKeepsChar(s, 6);
    StripOpeningKeepsChar(s, 5);
    StripOpeningKeepsChar(s, 4);
    StripOpeningKeepsChar(s, 3);
  }

  /** At the start of the input the opening expression takes the first three backticks only. */
  lemma OpeningOfDoubleFence()
    ensures StripOpening("``````b", 0) == "```b"
  {
    var s := "``````b";
    DoubleFenceTail();
    NoTagAtNonLetter(s, 3);
    assert OccursAt(s, Fence, 0) && SpaceRun(s, 3) == 0;
    StripOpeningDrops(s, 0);
  }

  /** A fence followed by text on its line is not a closing fence. */
  lemma ClosingKeeps()
    ensures StripClosing("```b", 0) == "```b"
  {
    var s := "```b";
    assert NoFenceFrom(s, 1) by {
      assert s[1] == '`' && s[3] == 'b';
      assert !OccursAt(s, Fence, 1) by { MismatchAt(s, 1, Fence, 2); }
    }
    StripClosingNoFence(s, 1);
    assert SpaceRun(s, 3) == 0 && LastLineTerminator(s, 3, 3).None?;
    assert ClosingFenceAt(s, 0).None?;
    assert s[1..] == "``b";
  }

  lemma OpeningSingle()
    ensures StripOpening("```b", 0) == "b"
  {
    var s := "```b";
    NoTagAtNonLetter(s, 3);
    assert OccursAt(s, Fence, 0) && SpaceRun(s, 3) == 0;
    StripOpeningDrops(s, 0);
    assert !OccursAt(s, Fence, 3);
    assert StripOpening(s, 4) == [];
  }

  lemma ClosingKeepsB()
    ensures StripClosing("b", 0) == "b"
  {
    assert NoFenceFrom("b", 0);
    StripClosingNoFence("b", 0);
  }

  /** Cleaning text whose de-fenced form is short, trimmed and free of `}`. */
  lemma CleanOfShort(code: string, mid: string)
    requires code != [] && Trimmed(code) && StripFences(code) == mid
    requires Trimmed(mid) && |mid| < |ComponentMarker| && '}' !in mid
    ensures Clean(code) == mid
  {
    TrimOfTrimmed(code);
    TrimOfTrimmed(mid);
    ShortUnmarked(mid);
  }

  lemma StripFencesOfDoubleFence()
    ensures StripFences("``````b") == "```b"
  {
    OpeningOfDoubleFence();
    ClosingKeeps();
  }

  lemma CleanOfDoubleFence()
    ensures Clean("``````b") == "```b"
  {
    var mid := "```b";
    StripFencesOfDoubleFence();
    assert Trimmed(mid) && |mid| < |ComponentMarker|;
    assert '}' !in mid by {
      assert forall i :: 0 <= i < |mid| ==> mid[i] in "`b";
    }
    assert Trimmed("``````b");
    CleanOfShort("``````b", mid);
  }

  lemma CleanOfSingleFence()
    ensures Clean("```b") == "b"
  {
    OpeningSingle();
    ClosingKeepsB();
    assert StripFences("```b") == "b";
    CleanOfShort("```b", "b");
  }

  /** Cleaning is not idempotent in general: a doubled fence loses only its
      first half to the opening expression, and the second half is removed by
      the next cleaning. */
  lemma CleanNotIdempotent()
    ensures Clean("``````b") == "```b"
    ensures Clean(Clean("``````b")) == "b"
  {
    CleanOfDoubleFence();
    CleanOfSingleFence();
  }

  /** Text too short for the marker and without `}` passes the post-fence steps unchanged. */
  lemma ShortUnmarked(d: string)
    requires Trimmed(d) && |d| < |ComponentMarker| && '}' !in d
    ensures AfterFences(d) == d
  {
    assert IndexOf(d, ComponentMarker).None?;
    forall j | 0 <= j ensures !OccursAt(d, DefinitionEnd, j) {
      if j + 2 <= |d| {
        assert d[j..j + 2][0] == d[j];
      }
    }
    assert LastIndexOf(d, DefinitionEnd).None?;
    TrimOfTrimmed(d);
  }
}
