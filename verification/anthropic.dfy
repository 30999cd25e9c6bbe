/** The server-side client of the language model (app/lib/anthropic.ts):
    `withRetry` with exponential back-off on connection errors, the
    extraction of the first text block of a reply, the removal of one
    surrounding markdown fence, and the two requests the application makes.
    The model API is a parameter: `api(request, attempt)` is what the
    `attempt`-th call of the request yields. Sleeping is recorded as the list
    of delays waited, in milliseconds. */
module Anthropic {
  import opened Base
  import opened Text
  import opened CleanCode

  // ---------------------------------------------------------------------------
  // withRetry
  // ---------------------------------------------------------------------------

  /** The message of the `Error` that `withRetry` keeps as `lastError`: a
      non-`Error` value is wrapped in `new Error(String(value))`. */
  function LastErrorMessage(t: Thrown): string {
    match t
    case Error(m) => m
    case NonError(r) => r
  }

  /** What one call of the retried function does: resolve or throw. */
  datatype Outcome<T> = Resolved(value: T) | Rejected(thrown: Thrown)

  /** `s.includes(pattern)`. */
  predicate Includes(s: string, pattern: string) {
    exists i :: 0 <= i <= |s| && OccursAt(s, pattern, i)
  }

  const ConnectionErrorMarkers: seq<string> := ["ECONNRESET", "Connection error", "fetch failed", "terminated"]

  /** Lines 28-32: only failures whose message contains one of the markers
      are worth retrying. */
  predicate IsConnectionError(message: string) {
    exists k :: 0 <= k < |ConnectionErrorMarkers| && Includes(message, ConnectionErrorMarkers[k])
  }

  /** The test is the disjunction the source writes out. */
  lemma ConnectionErrorIffMarker(message: string)
    ensures IsConnectionError(message) <==>
            || Includes(message, "ECONNRESET")
            || Includes(message, "Connection error")
            || Includes(message, "fetch failed")
            || Includes(message, "terminated")
  {
    assert ConnectionErrorMarkers[0] == "ECONNRESET";
    assert ConnectionErrorMarkers[1] == "Connection error";
    assert ConnectionErrorMarkers[2] == "fetch failed";
    assert ConnectionErrorMarkers[3] == "terminated";
  }

  /** `RetryOptions`; an absent field takes its default. */
  datatype RetryOptions = RetryOptions(maxRetries: Option<nat>, initialDelay: Option<nat>)

  const DefaultMaxRetries: nat := 3
  const DefaultInitialDelay: nat := 1000

  function Pow2(n: nat): nat {
    if n == 0 then 1 else 2 * Pow2(n - 1)
  }

  /** How the attempts from some attempt on settle: the result (`Err` carries
      the thrown error's message) and the number of calls made in all. */
  datatype Settlement<T> = Settlement(result: Result<T>, calls: nat)

  /** A finished `withRetry`: its settlement, the number of calls made, and the
      delays waited between them. */
  datatype RetryRun<T> = RetryRun(result: Result<T>, calls: nat, delays: seq<nat>)

  /** Line 39: the back-off after the failed attempt `attempt`, `initialDelay * 2^attempt`. */
  function Backoff(initialDelay: nat, attempt: nat): nat {
    initialDelay * Pow2(attempt)
  }

  /** The back-offs after the first `n` attempts, in order. */
  function Backoffs(initialDelay: nat, n: nat): seq<nat> {
    seq(n, i requires 0 <= i < n => Backoff(initialDelay, i))
  }

  /** One more failed attempt adds its back-off at the end. */
  lemma BackoffsSnoc(initialDelay: nat, n: nat)
    ensures Backoffs(initialDelay, n + 1) == Backoffs(initialDelay, n) + [Backoff(initialDelay, n)]
  {
    var l := Backoffs(initialDelay, n + 1);
    var r := Backoffs(initialDelay, n) + [Backoff(initialDelay, n)];
    assert forall i :: 0 <= i < n + 1 ==> l[i] == r[i];
  }

  /** The attempt `i` failed with an error worth retrying. */
  predicate RetriableAt<T>(call: nat -> Outcome<T>, i: nat) {
    call(i).Rejected? && IsConnectionError(LastErrorMessage(call(i).thrown))
  }

  /** Lines 21-45 from attempt `attempt` on: the reference definition. A call
      that resolves ends the run with its value; a rejection ends it when the
      error is not a connection error or this was the last allowed attempt;
      otherwise the next attempt is made. */
  function RetryFrom<T>(call: nat -> Outcome<T>, maxRetries: nat, attempt: nat): (r: Settlement<T>)
    requires attempt <= maxRetries
    ensures attempt < r.calls <= maxRetries + 1
    ensures r.result.Ok? ==> call(r.calls - 1) == Resolved(r.result.value)
    ensures r.result.Err? ==> call(r.calls - 1).Rejected?
    ensures r.result.Err? ==> r.result.message == LastErrorMessage(call(r.calls - 1).thrown)
    ensures r.result.Err? ==> !RetriableAt(call, r.calls - 1) || r.calls == maxRetries + 1
    decreases maxRetries - attempt
  {
    match call(attempt)
    case Resolved(v) => Settlement(Ok(v), attempt + 1)
    case Rejected(t) =>
      var e := LastErrorMessage(t);
      if !IsConnectionError(e) || attempt == maxRetries then Settlement(Err(e), attempt + 1)
      else RetryFrom(call, maxRetries, attempt + 1)
  }

  /** Every call but the last failed with a connection error: the run stops at
      the first attempt that does not. */
  lemma {:induction false} RetriedOnlyConnectionErrors<T>(call: nat -> Outcome<T>, maxRetries: nat, attempt: nat)
    requires attempt <= maxRetries
    ensures forall i :: attempt <= i < RetryFrom(call, maxRetries, attempt).calls - 1 ==> RetriableAt(call, i)
    decreases maxRetries - attempt
  {
    if RetriableAt(call, attempt) && attempt < maxRetries {
      assert RetryFrom(call, maxRetries, attempt) == RetryFrom(call, maxRetries, attempt + 1);
      RetriedOnlyConnectionErrors(call, maxRetries, attempt + 1);
    }
  }

  /** `withRetry(fn, options)` with the defaults of line 17: the back-off after
      every failed call but the last is waited. */
  function Retry<T>(call: nat -> Outcome<T>, options: RetryOptions): RetryRun<T> {
    var settled := RetryFrom(call, options.maxRetries.GetOr(DefaultMaxRetries), 0);
    RetryRun(settled.result, settled.calls, Backoffs(options.initialDelay.GetOr(DefaultInitialDelay), settled.calls - 1))
  }

  /** Lines 13-46 as the loop the source runs. */
  method WithRetry<T>(call: nat -> Outcome<T>, options: RetryOptions) returns (result: Result<T>, calls: nat, delays: seq<nat>)
    ensures RetryRun(result, calls, delays) == Retry(call, options)
  {
    var maxRetries := options.maxRetries.GetOr(DefaultMaxRetries);
    var initialDelay := options.initialDelay.GetOr(DefaultInitialDelay);
    var attempt: nat := 0;
    delays := [];
    while true
      invariant attempt <= maxRetries
      invariant RetryFrom(call, maxRetries, 0) == RetryFrom(call, maxRetries, attempt)
      invariant delays == Backoffs(initialDelay, attempt)
      decreases maxRetries - attempt
    {
      match call(attempt) {
        case Resolved(v) =>
          return Ok(v), attempt + 1, delays;
        case Rejected(t) =>
          var lastError := LastErrorMessage(t);
          if !IsConnectionError(lastError) || attempt == maxRetries {
            return Err(lastError), attempt + 1, delays;
          }
          assert RetryFrom(call, maxRetries, attempt) == RetryFrom(call, maxRetries, attempt + 1);
          BackoffsSnoc(initialDelay, attempt);
          delays := delays + [Backoff(initialDelay, attempt)];
          attempt := attempt + 1;
      }
    }
  }

  /** An error that is not a connection error is thrown at once, after one call. */
  lemma NonConnectionErrorNotRetried<T>(call: nat -> Outcome<T>, options: RetryOptions)
    requires call(0).Rejected? && !IsConnectionError(LastErrorMessage(call(0).thrown))
    ensures Retry(call, options) == RetryRun(Err(LastErrorMessage(call(0).thrown)), 1, [])
  {}

  /** If attempt `k` is the first to resolve and every earlier one failed with a
      connection error, the run returns its value after `k + 1` calls. */
  lemma {:induction false} RetryReachesSuccess<T>(call: nat -> Outcome<T>, maxRetries: nat, attempt: nat, k: nat)
    requires attempt <= k <= maxRetries && call(k).Resolved?
    requires forall i :: attempt <= i < k ==> RetriableAt(call, i)
    ensures RetryFrom(call, maxRetries, attempt) == Settlement(Ok(call(k).value), k + 1)
    decreases k - attempt
  {
    if attempt < k {
      assert RetriableAt(call, attempt);
      RetryReachesSuccess(call, maxRetries, attempt + 1, k);
    }
  }

  /** When every allowed attempt fails with a connection error, all of them are
      made and the last error is thrown. */
  lemma {:induction false} RetryExhausted<T>(call: nat -> Outcome<T>, maxRetries: nat, attempt: nat)
    requires attempt <= maxRetries
    requires forall i :: attempt <= i <= maxRetries ==> RetriableAt(call, i)
    ensures call(maxRetries).Rejected?
    ensures RetryFrom(call, maxRetries, attempt) == Settlement(Err(LastErrorMessage(call(maxRetries).thrown)), maxRetries + 1)
    decreases maxRetries - attempt
  {
    assert RetriableAt(call, attempt) && RetriableAt(call, maxRetries);
    if attempt < maxRetries {
      RetryExhausted(call, maxRetries, attempt + 1);
    }
  }

  /** With the defaults, the waits before the second, third and fourth calls are
      one, two and four seconds. */
  lemma DefaultBackoffs<T>(call: nat -> Outcome<T>)
    requires forall i :: 0 <= i <= 3 ==> RetriableAt(call, i)
    ensures Retry(call, RetryOptions(None, None)).calls == 4
    ensures Retry(call, RetryOptions(None, None)).delays == [1000, 2000, 4000]
  {
    RetryExhausted(call, DefaultMaxRetries, 0);
    assert Pow2(1) == 2 && Pow2(2) == 4;
    assert Backoffs(DefaultInitialDelay, 3) == [1000, 2000, 4000];
  }

  // ---------------------------------------------------------------------------
  // Replies and fences
  // ---------------------------------------------------------------------------

  /** A content block of a reply: text, or a block of another type (tool use, …). */
  datatype ContentBlock = TextBlock(text: string) | OtherBlock(kind: string)

  const NoTextResponse: string := "No text response from Claude"

  /** `message.content.find(block => block.type === 'text')`, taken to its text. */
  function FirstText(content: seq<ContentBlock>): (r: Option<string>)
    ensures r.Some? <==> exists i :: 0 <= i < |content| && content[i].TextBlock?
    ensures r.Some? ==> exists i :: 0 <= i < |content| && content[i] == TextBlock(r.value)
                           && forall j :: 0 <= j < i ==> !content[j].TextBlock?
  {
    if content == [] then None
    else if content[0].TextBlock? then Some(content[0].text)
    else
      var r := FirstText(content[1..]);
      assert r.Some? ==> exists i :: 0 <= i < |content| && content[i] == TextBlock(r.value)
                           && forall j :: 0 <= j < i ==> !content[j].TextBlock? by {
        if r.Some? {
          var i :| 0 <= i < |content[1..]| && content[1..][i] == TextBlock(r.value)
                   && forall j :: 0 <= j < i ==> !content[1..][j].TextBlock?;
          assert content[i + 1] == TextBlock(r.value);
          assert forall j :: 0 <= j < i + 1 ==> !content[j].TextBlock? by {
            forall j | 0 <= j < i + 1 ensures !content[j].TextBlock? {
              if j > 0 { assert content[j] == content[1..][j - 1]; }
            }
          }
        }
      }
      assert (exists i :: 0 <= i < |content| && content[i].TextBlock?) ==> r.Some? by {
        if exists i :: 0 <= i < |content| && content[i].TextBlock? {
          var i :| 0 <= i < |content| && content[i].TextBlock?;
          assert content[1..][i - 1].TextBlock?;
        }
      }
      r
  }

  /** ``/\n?```\s*$/`` matches from `p` to the end of the input (no multiline flag). */
  predicate ClosingAtEnd(s: string, p: nat) {
    || (p < |s| && s[p] == '\n' && OccursAt(s, Fence, p + 1) && AllSpace(s[p + 4..]))
    || (OccursAt(s, Fence, p) && AllSpace(s[p + 3..]))
  }

  /** The leftmost position at or after `p` where the closing expression matches. */
  function FirstClosingAtEnd(s: string, p: nat): (r: Option<nat>)
    requires p <= |s|
    ensures r.Some? ==> p <= r.value <= |s| && ClosingAtEnd(s, r.value)
    ensures r.Some? ==> forall j :: p <= j < r.value ==> !ClosingAtEnd(s, j)
    ensures r.None? ==> forall j :: p <= j <= |s| ==> !ClosingAtEnd(s, j)
    decreases |s| - p
  {
    if ClosingAtEnd(s, p) then Some(p)
    else if p == |s| then None
    else FirstClosingAtEnd(s, p + 1)
  }

  /** `code.replace(/\n?```\s*$/, '')`: everything from the leftmost match on is removed. */
  function StripClosingAtEnd(s: string): (r: string)
    ensures |r| <= |s| && r == s[..|r|]
    ensures FirstClosingAtEnd(s, 0).None? ==> r == s
    ensures FirstClosingAtEnd(s, 0).Some? ==> ClosingAtEnd(s, |r|)
  {
    match FirstClosingAtEnd(s, 0)
    case Some(p) => s[..p]
    case None => s
  }

  /** Removes the opening fence at the start of `code` (with its tag and the
      whitespace after it) and one closing fence at the end of what follows. */
  function StripFence(code: string): (r: string)
    requires StartsWith(code, Fence)
    ensures |r| + 3 <= |code|
    ensures IsInfix(r, code)
  {
    assert OccursAt(code, Fence, 0);
    var n := OpeningFenceAt(code, 0).value;
    var rest := code[n..];
    var r := StripClosingAtEnd(rest);
    assert SliceAt(r, code, n) by {
      assert code[n..n + |r|] == rest[..|r|];
    }
    r
  }

  /** Lines 69-75 and 102-106: trim the reply and, only when it starts with a
      fence, strip the fences. */
  function StripReplyFence(text: string): (code: string)
    ensures !StartsWith(Trim(text), Fence) ==> code == Trim(text)
    ensures StartsWith(Trim(text), Fence) ==> |code| + 3 <= |Trim(text)|
    ensures IsInfix(code, Trim(text))
  {
    var code := Trim(text);
    if StartsWith(code, Fence) then StripFence(code)
    else
      assert SliceAt(code, code, 0);
      code
  }

  /** For trimmed text opening with a fence, the closing expression is applied to
      what follows the opening match. */
  lemma StripReplyFenceOfFenced(s: string, n: nat)
    requires Trimmed(s) && StartsWith(s, Fence) && OpeningFenceAt(s, 0) == Some(n)
    ensures StripReplyFence(s) == StripClosingAtEnd(s[n..])
  {
    TrimOfTrimmed(s);
  }

  lemma BlockShape(tag: string, body: string)
    ensures var s := FencedBlock(tag, body);
            Trimmed(s) && StartsWith(s, Fence) && s[|tag| + 4..] == body + "\n" + Fence
  {
    var s := FencedBlock(tag, body);
    assert s[0] == '`' && s[|s| - 1] == '`';
    assert s[..3] == Fence;
  }

  /** A reply that is exactly one fenced block gives back its body. */
  lemma StripReplyFenceOfBlock(tag: string, body: string)
    requires IsTag(tag) && body != [] && Trimmed(body) && NoFenceFrom(body, 0)
    ensures StripReplyFence(FencedBlock(tag, body)) == body
  {
    var s := FencedBlock(tag, body);
    BlockShape(tag, body);
    BlockLayoutOf(tag, body);
    BlockOpeningFence(s, tag, body);
    StripReplyFenceOfFenced(s, |tag| + 4);
    ClosingAfterBody(body);
  }

  /** In `body + "\n```"` the closing expression first matches at the newline. */
  lemma ClosingAfterBody(body: string)
    requires body != [] && Trimmed(body) && NoFenceFrom(body, 0)
    ensures StripClosingAtEnd(body + "\n" + Fence) == body
  {
    var s := body + "\n" + Fence;
    var q := |body|;
    assert s[q] == '\n' && s[q + 1..q + 4] == Fence && s[q + 4..] == [];
    assert ClosingAtEnd(s, q);
    forall j | 0 <= j < q ensures !ClosingAtEnd(s, j) {
      NotClosingInBody(body, j);
    }
    assert FirstClosingAtEnd(s, 0) == Some(q) by {
      FirstClosingIs(s, 0, q);
    }
    assert s[..q] == body;
  }

  lemma {:induction false} FirstClosingIs(s: string, p: nat, q: nat)
    requires p <= q <= |s| && ClosingAtEnd(s, q)
    requires forall j :: p <= j < q ==> !ClosingAtEnd(s, j)
    ensures FirstClosingAtEnd(s, p) == Some(q)
    decreases q - p
  {
    if p < q {
      FirstClosingIs(s, p + 1, q);
    }
  }

  /** No position inside the body starts a closing match: the body holds no
      fence, and its last character is not a newline. */
  lemma NotClosingInBody(body: string, j: nat)
    requires body != [] && Trimmed(body) && NoFenceFrom(body, 0) && j < |body|
    ensures !ClosingAtEnd(body + "\n" + Fence, j)
  {
    var s := body + "\n" + Fence;
    var q := |body|;
    assert s[..q] == body;
    assert s[q] == '\n';
    FenceFreeBeforeNewline(s, body, j);
    if j + 1 < q {
      FenceFreeBeforeNewline(s, body, j + 1);
    } else {
      assert s[j] == body[q - 1] && !IsSpace(body[q - 1]);
    }
  }

  /** A fence cannot start inside fence-free text that is followed by a newline. */
  lemma FenceFreeBeforeNewline(s: string, body: string, j: nat)
    requires |body| < |s| && s[..|body|] == body && s[|body|] == '\n'
    requires NoFenceFrom(body, 0) && j < |body|
    ensures !OccursAt(s, Fence, j)
  {
    if j + 3 <= |body| {
      assert !OccursAt(body, Fence, j);
      forall k | j <= k < j + 3
        ensures s[k] == body[k]
      {
        assert s[..|body|][k] == s[k];
      }
      assert s[j..j + 3] == body[j..j + 3];
    } else {
      MismatchAt(s, j, Fence, |body| - j);
    }
  }

  // ---------------------------------------------------------------------------
  // The two requests
  // ---------------------------------------------------------------------------

  const ModelName: string := "claude-sonnet-4-20250514"
  const VisualizationLead: string := "Create a visual, interactive explanation of this component:\n\n"

  /** A messages request with one user message. */
  datatype Request = Request(model: string, maxTokens: nat, system: string, userContent: string)

  function ComponentRequest(prompt: string, systemPrompt: string): (q: Request)
    ensures q.model == ModelName && q.maxTokens == 8192
    ensures q.system == systemPrompt && q.userContent == prompt
  {
    Request(ModelName, 8192, systemPrompt, prompt)
  }

  function VisualizationRequest(componentCode: string, systemPrompt: string): (q: Request)
    ensures q.model == ModelName && q.maxTokens == 4096 && q.system == systemPrompt
    ensures StartsWith(q.userContent, VisualizationLead)
    ensures q.userContent[|VisualizationLead|..] == componentCode
  {
    Request(ModelName, 4096, systemPrompt, VisualizationLead + componentCode)
  }

  /** What both generators do with a request: send it with retries, take the
      first text block, and strip a surrounding fence. */
  function Complete(api: (Request, nat) -> Outcome<seq<ContentBlock>>, q: Request): (r: Result<string>)
    ensures Retry((i: nat) => api(q, i), RetryOptions(None, None)).result.Err? ==>
              r == Err(Retry((i: nat) => api(q, i), RetryOptions(None, None)).result.message)
    ensures Retry((i: nat) => api(q, i), RetryOptions(None, None)).result.Ok? ==>
              match FirstText(Retry((i: nat) => api(q, i), RetryOptions(None, None)).result.value)
              case None => r == Err(NoTextResponse)
              case Some(text) => r == Ok(StripReplyFence(text))
  {
    var run := Retry((i: nat) => api(q, i), RetryOptions(None, None));
    match run.result
    case Err(e) => Err(e)
    case Ok(content) =>
      match FirstText(content)
      case None => Err(NoTextResponse)
      case Some(text) => Ok(StripReplyFence(text))
  }

  /** Lines 48-79: `generateComponent`. */
  function GenerateComponent(api: (Request, nat) -> Outcome<seq<ContentBlock>>, prompt: string, systemPrompt: string): Result<string> {
    Complete(api, ComponentRequest(prompt, systemPrompt))
  }

  /** Lines 81-109: `generateVisualization`. */
  function GenerateVisualization(api: (Request, nat) -> Outcome<seq<ContentBlock>>, componentCode: string, systemPrompt: string): Result<string> {
    Complete(api, VisualizationRequest(componentCode, systemPrompt))
  }

  /** A first call that answers with a fenced block yields the block's body. */
  lemma GenerateComponentOfFencedReply(api: (Request, nat) -> Outcome<seq<ContentBlock>>, prompt: string, systemPrompt: string,
                                       tag: string, body: string)
    requires IsTag(tag) && body != [] && Trimmed(body) && NoFenceFrom(body, 0)
    requires api(ComponentRequest(prompt, systemPrompt), 0) == Resolved([TextBlock(FencedBlock(tag, body))])
    ensures GenerateComponent(api, prompt, systemPrompt) == Ok(body)
  {
    StripReplyFenceOfBlock(tag, body);
    var content := [TextBlock(FencedBlock(tag, body))];
    assert FirstText(content) == Some(FencedBlock(tag, body));
  }

  /** A reply without a text block is an error, whatever else it holds. */
  lemma NoTextBlockIsError(api: (Request, nat) -> Outcome<seq<ContentBlock>>, q: Request)
    requires api(q, 0).Resolved? && forall i :: 0 <= i < |api(q, 0).value| ==> !api(q, 0).value[i].TextBlock?
    ensures Complete(api, q) == Err(NoTextResponse)
  {}
}
