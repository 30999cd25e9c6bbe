# A Dafny model of the code-gen-visualizer core

The application turns a chat prompt into React component code through two
calls to a language model, and then renders that code in the browser.

1. `/api/generate` asks the model for a component.
2. `/api/visualize` asks it for a visualization that explains that component.

A session gate protects the whole application: a password login issues an
HMAC-signed cookie, and a middleware checks it on every request.

This project models the logic of that pipeline as pure Dafny functions over
immutable datatypes. It proves what the code promises about each step.

- **Text cleaning.**
  - `cleanCode` is modelled in `clean_code.dfy`. Its two global multiline fence expressions are written out as left-to-right scans that reproduce the engine's greedy matching and its backtracking. The steps after the fences drop the preamble and the trailing commentary.
  - The server-side fence strip is in `anthropic.dfy`. `sanitizeCode` is in `babel_transform.dfy`.
- **Retry policy.** `withRetry` is in `anthropic.dfy`. It is given both as a reference recursion over attempts and as the loop the source runs, and the two are proved equal. The model's API is a function from the request and the attempt number to an outcome. The waits are recorded as a list of delays.
- **Compile and render.** These files are transition functions over records:
  - `createComponent` with the transpiler and `new Function` as parameters (`babel_transform.dfy`);
  - the `useCompiledComponent` hook (`compiled_component.dfy`);
  - the error boundary (`error_boundary.dfy`);
  - the runtime-error logic shared by the two preview panels (`panel_slot.dfy`);
  - the three panels (`sandbox_panel.dfy`, `code_representation_panel.dfy`, `my_way_panel.dfy`).
- **Generation pipeline.** One `generate` run is modelled in `generation.dfy`. Each fetch is an abstract outcome: ok, HTTP error, abort or rejection. Message ids come from a counter. The prompt form is in `conversation.dfy`.
- **Session gate.**
  - The timing-safe comparison is an XOR/OR fold over character codes, proved equal to string equality.
  - The session token is `session:<expiry>.<signature>`. HMAC-SHA-256 is an uninterpreted parameter. Base64 (RFC 4648, sections 4 and 5) is modelled concretely, so that "a signature never contains `.`" is proved rather than assumed.
  - The middleware carries its own copies of the signer and the checker. These are proved to agree with the server's.
  - The three API routes are in `routes.dfy`.
- **Shared pieces.** `base.dfy`, `text.dfy` and `decimal.dfy` hold the shared datatypes, the JavaScript string primitives (`trim`, `split`, `indexOf`, …) and decimal rendering and parsing.

Cleaning is not idempotent: `"``````b"` cleans to `` "```b" ``, which
cleans to `"b"`. The opening expression removes only the first of two
adjacent fences, and the second fence is not at the start of a line until
the first is gone. The model follows the code.
- `CleanCode.CleanNotIdempotent` exhibits this.
- `CleanCode.AfterFencesIdempotent` proves idempotence of the steps after fence removal.
- `CleanCode.CleanIdempotentWithoutFence` proves idempotence of the whole cleaning whenever the cleaned text holds no fence.

## Model

| member | source | states |
|---|---|---|
| CleanCode.OpeningFenceAt | app/hooks/useGeneration.ts:24 | A match of the opening-fence expression starts with three backticks at the start of a line, is at least three characters long and stays inside the text. |
| CleanCode.TagFromFindsFirst | app/hooks/useGeneration.ts:24 | The language-tag alternation takes the first alternative, in the written order, that occurs at the position. |
| CleanCode.TagFromZeroIffNone | app/hooks/useGeneration.ts:24 | From any point of the alternation on, the tag matches empty exactly when none of the remaining alternatives occurs. |
| CleanCode.TagLengthZeroIffNone | app/hooks/useGeneration.ts:24 | The optional tag takes nothing exactly when none of `jsx`, `tsx`, `javascript`, `typescript`, `js` and `ts` occurs. |
| CleanCode.TagBeforeNewline | app/hooks/useGeneration.ts:24 | Any of the six tags directly followed by a newline is consumed whole. |
| CleanCode.SpaceRunIsMaximal | app/hooks/useGeneration.ts:24 | The greedy `\s*` consumes the whole whitespace run and stops at the first non-whitespace character or the end. |
| CleanCode.StripOpening | app/hooks/useGeneration.ts:24 | Replacing every opening match by nothing never lengthens the text. |
| CleanCode.StripOpeningDrops | app/hooks/useGeneration.ts:24 | Where the expression matches, the whole match is removed and the global scan resumes after it. |
| CleanCode.StripOpeningKeepsChar | app/hooks/useGeneration.ts:24 | Where the expression does not match, the character is kept and the scan moves on by one. |
| CleanCode.StripOpeningNoFence | app/hooks/useGeneration.ts:24 | Text that contains no three backticks passes through the opening replacement unchanged. |
| CleanCode.StripClosing | app/hooks/useGeneration.ts:25 | Replacing every closing match by nothing never lengthens the text. |
| CleanCode.StripClosingDrops | app/hooks/useGeneration.ts:25 | Where the expression matches, the whole match is removed and the global scan resumes at its end. |
| CleanCode.StripClosingKeepsChar | app/hooks/useGeneration.ts:25 | Where the expression does not match, the character is kept and the scan moves on by one. |
| CleanCode.LastLineTerminator | app/hooks/useGeneration.ts:25 | The backtracking target of multiline `\s*$`: the last line terminator of a range, with none after it. Otherwise the range holds none. |
| CleanCode.SpaceThenLineEnd | app/hooks/useGeneration.ts:25 | Multiline `\s*$` ends at the end of the input or just before a line terminator, and everything it passes is whitespace. |
| CleanCode.ClosingFenceAt | app/hooks/useGeneration.ts:25 | A closing match covers at least the three backticks and ends inside the text. |
| CleanCode.StripClosingNoFence | app/hooks/useGeneration.ts:25 | Text without three backticks passes through the closing replacement unchanged. |
| CleanCode.StripFences | app/hooks/useGeneration.ts:24-25 | The two fence replacements in order never lengthen the text. |
| CleanCode.StripFencesNoFence | app/hooks/useGeneration.ts:24-25 | Fence-free text passes both replacements unchanged. |
| CleanCode.FromComponent | app/hooks/useGeneration.ts:28-32 | The output is a suffix of the input. With `const Component` present, the output starts at its first occurrence, which no earlier occurrence precedes. Without it, the text is kept. |
| CleanCode.DropTrailing | app/hooks/useGeneration.ts:34-41 | The trailing-commentary step only ever keeps a prefix of its input. |
| CleanCode.DropTrailingCases | app/hooks/useGeneration.ts:35-41 | When the trimmed text after the last `};` is non-blank and starts with neither `const` nor `function`, the output ends at that `};`. Otherwise the text is unchanged. The length guard of line 36 is implied by the commentary test. |
| CleanCode.DropTrailingIdempotent | app/hooks/useGeneration.ts:35-41 | A second trailing cut changes nothing. |
| CleanCode.DropTrailingKeepsMarker | app/hooks/useGeneration.ts:35-41 | The trailing cut never removes a leading `const Component`: every `};` lies after the marker. |
| CleanCode.AfterFences | app/hooks/useGeneration.ts:28-43 | The steps after fence removal end trimmed. |
| CleanCode.Clean | app/hooks/useGeneration.ts:18-44 | Empty input gives empty output, and every output has no leading or trailing whitespace. |
| CleanCode.AfterFencesOfTrimmed | app/hooks/useGeneration.ts:26-43 | On trimmed input, the marker step and the trailing cut keep the text trimmed, so the final `trim()` changes nothing. |
| CleanCode.AfterFencesSliceAt | app/hooks/useGeneration.ts:26-43 | On non-empty trimmed text, the output lies in the de-fenced text exactly where the cut at `const Component` begins. |
| CleanCode.AfterFencesIsInfix | app/hooks/useGeneration.ts:26-43 | After fence removal only a prefix and a suffix are deleted: the output is a contiguous substring of the de-fenced text. |
| CleanCode.AfterFencesStartsWithMarker | app/hooks/useGeneration.ts:29-43 | If the de-fenced text contains `const Component`, the output begins with it. |
| CleanCode.AfterFencesFromMarker | app/hooks/useGeneration.ts:29-43 | With the marker present, the output is a slice of the de-fenced text that starts at the first `const Component`. |
| CleanCode.AfterFencesTrailing | app/hooks/useGeneration.ts:35-43 | The output is exactly the trailing cut of what the marker step produced. |
| CleanCode.AfterFencesIdempotent | app/hooks/useGeneration.ts:26-43 | Running the steps after fence removal a second time changes nothing. |
| CleanCode.CleanIdempotentWithoutFence | app/hooks/useGeneration.ts:18-44 | Cleaning twice equals cleaning once whenever the cleaned text holds no fence. |
| CleanCode.BlockOpeningFence | app/hooks/useGeneration.ts:24 | An opening fence, its optional tag and the newline after it form a single match of the opening expression. |
| CleanCode.BlockClosingFence | app/hooks/useGeneration.ts:24 | A closing fence on its own line is at a line start, so the opening expression itself removes it and leaves only the newline before it. |
| CleanCode.OpeningOfBlock | app/hooks/useGeneration.ts:24 | The opening replacement turns a fenced block into its body followed by a newline. |
| CleanCode.StripFencesOfBlock | app/hooks/useGeneration.ts:24-25 | Both fence replacements turn a fenced block into its body and one newline. |
| CleanCode.CleanOfBlock | app/hooks/useGeneration.ts:18-44 | A reply that is one fenced block, with or without a language tag, around a trimmed, fence-free body cleans exactly as the bare body would after fence removal: the fences contribute nothing. |
| CleanCode.OpeningOfDoubleFence | app/hooks/useGeneration.ts:24 | Of two adjacent fences at the start of a line, the opening expression removes only the first. |
| CleanCode.ClosingKeeps | app/hooks/useGeneration.ts:25 | A fence followed by text on its own line is not removed by the closing expression. |
| CleanCode.CleanNotIdempotent | app/hooks/useGeneration.ts:18-44 | Cleaning is not idempotent. `"``````b"` cleans to `` "```b" ``, and cleaning that again gives `"b"`. |
| Anthropic.ConnectionErrorIffMarker | app/lib/anthropic.ts:28-32 | An error counts as a connection error exactly when its message includes one of `ECONNRESET`, `Connection error`, `fetch failed` or `terminated`. |
| Anthropic.RetryFrom | app/lib/anthropic.ts:21-45 | The function is called at most `maxRetries + 1` times. A success returns the value of the last call made. A failure throws the last call's error, with a non-`Error` value wrapped as its string. That error is either not a connection error or came from the last allowed attempt. |
| Anthropic.RetriedOnlyConnectionErrors | app/lib/anthropic.ts:28-36 | Every call before the last one failed with a connection error: the run stops at the first call that does not. |
| Anthropic.WithRetry | app/lib/anthropic.ts:13-46 | The loop the source runs returns the same result, the same number of calls and the same waits as the reference definition. The wait after failed attempt `a` is `initialDelay * 2^a`. |
| Anthropic.NonConnectionErrorNotRetried | app/lib/anthropic.ts:28-36 | An error that is not a connection error is rethrown after one call, with no wait. |
| Anthropic.RetryReachesSuccess | app/lib/anthropic.ts:21-23 | If attempt `k` is the first to resolve and all earlier ones failed with connection errors, its value is returned after `k + 1` calls. |
| Anthropic.RetryExhausted | app/lib/anthropic.ts:34-35 | When every allowed attempt fails with a connection error, all `maxRetries + 1` calls are made and the last error is thrown. |
| Anthropic.DefaultBackoffs | app/lib/anthropic.ts:17-41 | With the default options, persistent connection errors make four calls with waits of 1000, 2000 and 4000 ms. |
| Anthropic.FirstText | app/lib/anthropic.ts:63 | `find` of the first text block: present exactly when some block is text, and then it is the earliest one. |
| Anthropic.FirstClosingAtEnd | app/lib/anthropic.ts:74 | The leftmost position where the non-multiline closing expression matches, with no match before it. Otherwise there is no match anywhere. |
| Anthropic.StripClosingAtEnd | app/lib/anthropic.ts:74 | The single replacement keeps a prefix. Without a match it changes nothing, and otherwise it cuts exactly where the match starts. |
| Anthropic.StripFence | app/lib/anthropic.ts:72-75 | For text that starts with a fence, removing both fences leaves a contiguous piece of it that is at least three characters shorter. |
| Anthropic.StripReplyFence | app/lib/anthropic.ts:69-75 | The reply is trimmed. Fences are stripped only when the trimmed reply starts with three backticks, and the result is always a substring of the trimmed reply. |
| Anthropic.StripReplyFenceOfBlock | app/lib/anthropic.ts:69-75 | A reply that is exactly one fenced block, with or without a tag, gives back its body. |
| Anthropic.ClosingAfterBody | app/lib/anthropic.ts:74 | In a fence-free body followed by a newline and a fence, the closing expression first matches at that newline. |
| Anthropic.ComponentRequest | app/lib/anthropic.ts:50-60 | The component request uses the fixed model, 8192 tokens, the given system prompt and the prompt as its one user message. |
| Anthropic.VisualizationRequest | app/lib/anthropic.ts:83-93 | The visualization request uses 4096 tokens and a user message made of the fixed lead followed by the component code. |
| Anthropic.Complete | app/lib/anthropic.ts:49-75 | `Anthropic.GenerateComponent` (lines 48-79) and `Anthropic.GenerateVisualization` (lines 81-111) are this completion applied to their two requests. An error that outlives the retries propagates unchanged. A reply without a text block is the no-text error. Otherwise the result is the first text block with its fence stripped. |
| Anthropic.GenerateComponentOfFencedReply | app/lib/anthropic.ts:48-79 | When the first call answers with one fenced block, `generateComponent` returns the block's body. |
| Anthropic.NoTextBlockIsError | app/lib/anthropic.ts:63-66 | A reply with no text block fails with "No text response from Claude", whatever else it holds. |
| BabelTransform.RemoveZeroWidth | app/lib/babel-transform.ts:13 | The output never grows, and holds exactly the input's characters that are not U+200B, U+200C, U+200D or U+FEFF. |
| BabelTransform.RemoveZeroWidthFixed | app/lib/babel-transform.ts:13 | The removal leaves text unchanged exactly when it holds no zero-width character. |
| BabelTransform.RemoveZeroWidthAppend | app/lib/babel-transform.ts:13 | The global removal acts on the two parts of a text independently. |
| BabelTransform.RemoveZeroWidthOne | app/lib/babel-transform.ts:13 | A single character is removed exactly when it is U+200B, U+200C, U+200D or U+FEFF. |
| BabelTransform.ReplaceCr | app/lib/babel-transform.ts:16 | Every carriage return becomes a newline, the length is kept, and every other character stays in place. |
| BabelTransform.ReplaceCrLf | app/lib/babel-transform.ts:15 | The CRLF replacement never lengthens the text. |
| BabelTransform.ReplaceCrLfKeepsText | app/lib/babel-transform.ts:15 | The characters other than CR and LF are kept, in their order. |
| BabelTransform.ReplaceCrLfAppend | app/lib/babel-transform.ts:15 | Unless a CRLF pair straddles the seam, the global CRLF replacement acts on the two halves independently. |
| BabelTransform.ReplaceCrLfPair | app/lib/babel-transform.ts:15 | Each CRLF pair, wherever it stands, becomes one newline, and the text on either side is replaced on its own. |
| BabelTransform.ReplaceCrLfKeepsLoneCr | app/lib/babel-transform.ts:15 | A CR that is not followed by LF is left as it is by the CRLF replacement. |
| BabelTransform.ReplaceCrAround | app/lib/babel-transform.ts:16 | At any position, a CR becomes a newline and any other character stays, independently of the text around it. |
| BabelTransform.NormalizeLineEndings | app/lib/babel-transform.ts:15-16 | After normalisation no carriage return is left. |
| BabelTransform.NormalizeKeepsText | app/lib/babel-transform.ts:15-16 | The characters other than CR and LF are kept, in their order. |
| BabelTransform.NormalizeAppend | app/lib/babel-transform.ts:15-16 | Unless a CRLF pair straddles the seam, normalisation acts on the two halves independently. |
| BabelTransform.NormalizeCrLf | app/lib/babel-transform.ts:15-16 | A CRLF pair becomes exactly one newline. |
| BabelTransform.NormalizeLoneCr | app/lib/babel-transform.ts:15-16 | A CR that is not followed by LF becomes exactly one newline. |
| BabelTransform.NormalizeKeepsChar | app/lib/babel-transform.ts:15-16 | Every character other than CR, including an LF not preceded by CR, is kept in place. |
| BabelTransform.NormalizeIsOnePass | app/lib/babel-transform.ts:15-16 | The two chained global replacements equal a single left-to-right pass in which every CRLF pair and every lone CR becomes one newline and everything else is kept. |
| BabelTransform.NormalizeFixed | app/lib/babel-transform.ts:15-16 | Normalisation leaves text unchanged exactly when it holds no carriage return. |
| BabelTransform.TrimEnds | app/lib/babel-transform.ts:19 | Each line is replaced by its `trimEnd()`, and the number of lines is kept. |
| BabelTransform.JoinTrimEndsClean | app/lib/babel-transform.ts:18-20 | After the lines are trimmed and joined, no line ends in whitespace. |
| BabelTransform.TrimLineEnds | app/lib/babel-transform.ts:18-20 | After `split('\n')`, `trimEnd()` of each line and `join('\n')`, no line of the result ends in whitespace. |
| BabelTransform.TrimLineEndsOfClean | app/lib/babel-transform.ts:18-20 | Text in which no line ends in whitespace is left unchanged by the per-line trimming. |
| BabelTransform.SanitizeCode | app/lib/babel-transform.ts:10-22 | The sanitized code has no whitespace at either end. |
| BabelTransform.SanitizeCodeClean | app/lib/babel-transform.ts:10-22 | The sanitized code holds no zero-width character and no carriage return, and no line of it ends in whitespace. |
| BabelTransform.SanitizeCodeLineEnds | app/lib/babel-transform.ts:18-21 | No line of the sanitized code ends in whitespace. |
| BabelTransform.SanitizeCodeCharsClean | app/lib/babel-transform.ts:13-16 | The sanitized code holds no zero-width character and no carriage return. |
| BabelTransform.SanitizeCodeChars | app/lib/babel-transform.ts:10-22 | Every character of the sanitized code other than a newline comes from the input and is neither zero-width nor a carriage return. |
| BabelTransform.SanitizeCodeIdempotent | app/lib/babel-transform.ts:10-22 | Sanitizing twice gives the same code as sanitizing once. |
| BabelTransform.TransformCode | app/lib/babel-transform.ts:24-41 | The transform succeeds exactly when the transpiler returns non-empty code for the sanitized input. It then carries that code and no error; otherwise it carries an error and no code. |
| BabelTransform.TransformSanitized | app/lib/babel-transform.ts:28-40 | On already sanitized code, the transform succeeds exactly when the transpiler returns non-empty code. A success carries that code and no error, and a failure carries an error and no code. |
| BabelTransform.TransformErrors | app/lib/babel-transform.ts:33-40 | Each failure carries its message: "Transformation produced no output" for empty output, the thrown message for an `Error`, and "Unknown error during transformation" for any other thrown value. |
| BabelTransform.TransformSeesSanitized | app/lib/babel-transform.ts:26 | The transform depends on the code only through its sanitized form. |
| BabelTransform.Factory | app/lib/babel-transform.ts:71-98 | The factory returns `Component` exactly when the executed code defines it. It throws the not-found error when `Component` is left undefined. A thrown `Error` gives its message, and any other thrown value gives "Unknown error". |
| BabelTransform.CreateComponent | app/lib/babel-transform.ts:48-104 | A result has a component exactly when it has no error. That happens exactly when the transform succeeds and the executed code binds `Component` to a truthy value, and the component is that value. |
| BabelTransform.CreateComponentTransformFailure | app/lib/babel-transform.ts:54-59 | A failed transform gives no component and its own error behind "Transform error: ". |
| BabelTransform.CreateComponentNotFound | app/lib/babel-transform.ts:73-76 | Code that leaves `Component` undefined gives "Execution error: " followed by the not-found message. |
| BabelTransform.CreateComponentThrowsError | app/lib/babel-transform.ts:97-102 | An `Error` thrown while the factory runs gives no component and "Execution error: " followed by its message. |
| BabelTransform.CreateComponentThrowsNonError | app/lib/babel-transform.ts:97-102 | Any other thrown value gives no component and "Execution error: Unknown error". |
| BabelTransform.CreateComponentFactoryNull | app/lib/babel-transform.ts:89-94 | A falsy `Component` gives no component and "Component factory returned null". |
| BabelTransform.CreateFromErrorKinds | app/lib/babel-transform.ts:54-103 | Once the transform result is known, each error prefix corresponds to exactly one stage that failed. |
| BabelTransform.CreateComponentErrorKinds | app/lib/babel-transform.ts:54-103 | Every reported error is a transform error, an execution error or "Component factory returned null". An error starts with "Transform error: " exactly when the transform failed, and with "Execution error: " exactly when the transform succeeded and running the code did not bind `Component`. It is "Component factory returned null" exactly when `Component` was bound to a falsy value. |
| CompiledComponent.RunEffect | app/hooks/useCompiledComponent.ts:15-31 | Empty code or `!isReady` clears both component and error and keeps the key. A failure stores `error ?? fallbackError` and no component and keeps the key. A success clears the error, stores the component and adds one to the key. Component and error are never both set. |
| CompiledComponent.Render | app/hooks/useCompiledComponent.ts:32 | The effect runs exactly when `[code, isReady]` differs from the last run. Otherwise the hook state is unchanged. |
| CompiledComponent.KeyCountsSuccesses | app/hooks/useCompiledComponent.ts:13-31 | Across any sequence of renders the key equals its start plus the number of successful compiles, so it changes only by +1 and only on success. |
| CompiledComponent.NeverBothSet | app/hooks/useCompiledComponent.ts:16-31 | From a state without both, no sequence of renders ever holds a component and an error at once. |
| CompiledComponent.RenderTwiceIsOnce | app/hooks/useCompiledComponent.ts:32 | Rendering again with the same `code` and `isReady` does not recompile. |
| CompiledComponent.FallbackUnusedWithCreateComponent | app/hooks/useCompiledComponent.ts:22-24 | With `createComponent` as the compiler, a failure always carries its own error, so the fallback text never shows. |
| ErrorBoundary.Capture | app/components/ErrorBoundary.tsx:37-43 | A caught error sets `hasError` and stores that error, and it is passed to `onError` exactly when that prop is given. |
| ErrorBoundary.DidUpdate | app/components/ErrorBoundary.tsx:45-49 | The captured state is cleared exactly when `resetKey` differs from the previous props, and is kept otherwise. |
| ErrorBoundary.RenderView | app/components/ErrorBoundary.tsx:51-64 | In the error state the boundary shows the error surface with the captured message, the title defaulting to "Error" and the variant to red. Otherwise it renders its children. |
| ErrorBoundary.ErrorPersistsWhileKeyKept | app/components/ErrorBoundary.tsx:45-49 | Any number of updates that keep the key leave a captured error in place. |
| ErrorBoundary.KeyChangeRestoresChildren | app/components/ErrorBoundary.tsx:45-64 | After an update that changes the key, the boundary renders its children again until the next error. |
| PanelSlot.Update | app/components/SandboxPanel.tsx:17-22 | The runtime-error slot shared by `SandboxPanel` and `CodeRepresentationPanel`. A render runs the compile hook. When the compile key changed, the runtime error is cleared and a fresh boundary is mounted. Otherwise both are kept. |
| PanelSlot.RuntimeFailure | app/components/SandboxPanel.tsx:44 | An error thrown by the live component is captured by the boundary and stored as the runtime error, and the compile state is untouched. |
| PanelSlot.ShownError | app/components/SandboxPanel.tsx:24 | The compile error takes precedence over the runtime error. |
| PanelSlot.RuntimeErrorKeptUntilSuccess | app/components/SandboxPanel.tsx:20-22 | A render changes the runtime error only by clearing it, and only when a compile succeeded and the key moved on. |
| PanelSlot.SuccessClearsErrors | app/components/SandboxPanel.tsx:17-24 | A successful compile shows no error, holds the new component and resets the boundary. |
| SandboxPanel.Display | app/components/SandboxPanel.tsx:24-51 | Priority: no code gives the placeholder, then streaming, then the shown error, then the component inside a boundary keyed by the compile key, otherwise waiting. |
| SandboxPanel.Step | app/components/SandboxPanel.tsx:16-22 | A render compiles with "Failed to create component" as the fallback, and `isReady` defaults to false. The runtime error is cleared and a fresh boundary is mounted when the compile key changed; otherwise both are kept. |
| SandboxPanel.Title | app/components/SandboxPanel.tsx:16 | The title defaults to "Preview". |
| SandboxPanel.CompileFailureShown | app/components/SandboxPanel.tsx:17-42 | A failed compile of ready, non-streaming code shows the compiler's error, or "Failed to create component" when none was reported. |
| SandboxPanel.RuntimeFailureShown | app/components/SandboxPanel.tsx:38-46 | When the live component throws, the panel shows its message in place of the component. |
| CodeRepresentationPanel.Step | app/components/CodeRepresentationPanel.tsx:17-22 | A render compiles with "Failed to create visualization" as the fallback, and `isReady` defaults to false. The runtime error is cleared and a fresh boundary is mounted when the compile key changed; otherwise both are kept. |
| CodeRepresentationPanel.Display | app/components/CodeRepresentationPanel.tsx:24-58 | Priority: loading first (even with empty code), then no code, then the shown error, then the component in a keyed boundary, otherwise waiting. |
| CodeRepresentationPanel.FrameOf | app/components/CodeRepresentationPanel.tsx:62-66 | The content is framed by the "Code Representation" panel unless `showTitle` is false. |
| CodeRepresentationPanel.LoadingFirst | app/components/CodeRepresentationPanel.tsx:28-32 | While loading, the panel shows the loading view whatever the code, readiness or errors. |
| CodeRepresentationPanel.RuntimeFailureShown | app/components/CodeRepresentationPanel.tsx:45-53 | When the live visualization throws, the panel shows its message. |
| MyWayPanel.BoundaryView | app/components/MyWayPanel.tsx:42-52 | The embedded boundary renders its children unless it caught an error. Then it shows the rose "Visualization Error" surface with the message. |
| MyWayPanel.BoundaryViewAsShared | app/components/MyWayPanel.tsx:19-53 | The embedded boundary renders like the shared one with a fixed title and variant. |
| MyWayPanel.RunEffect | app/components/MyWayPanel.tsx:61-77 | Empty code or `!isReady` clears only the component. A failure stores `error \|\| fallback` and no component and keeps the key. A success clears the error, stores the component and adds one to the key. |
| MyWayPanel.Update | app/components/MyWayPanel.tsx:61-77 | The compile effect runs exactly when `[code, isReady]` differs from the recorded dependencies: then the error, component and key are those of one effect run, and otherwise all three are kept. A render records its dependencies, moves the key by at most one, and remounts the boundary when the key changed. |
| MyWayPanel.RuntimeFailure | app/components/MyWayPanel.tsx:108 | A render error is written into the panel's one `error` state, and the component and key stay as they were. |
| MyWayPanel.ErrorClearedOnlyBySuccess | app/components/MyWayPanel.tsx:61-77 | A set error is cleared only by a successful compile, which also advances the key and stores the component. |
| MyWayPanel.NotReadyKeepsError | app/components/MyWayPanel.tsx:62-65 | Empty code or `!isReady` leaves the error in place and clears the component when the effect runs. |
| MyWayPanel.Display | app/components/MyWayPanel.tsx:79-115 | Priority: loading, then no code, then the error, then the component in a keyed boundary, otherwise waiting. |
| MyWayPanel.KeyMonotone | app/components/MyWayPanel.tsx:58-76 | The compile key never decreases over any sequence of renders. |
| MyWayPanel.ErrorPersistsUntilSuccess | app/components/MyWayPanel.tsx:67-76 | A non-empty error stays set and non-empty through renders in which no compile succeeds. |
| MyWayPanel.RuntimeErrorShownUntilSuccess | app/components/MyWayPanel.tsx:102-110 | A visualization that throws is replaced by its message, which stays on screen for non-empty code until a compile succeeds. |
| Conversation.HandleSubmit | app/components/ConversationPanel.tsx:35-40 | A submit is ignored when the trimmed input is empty or a request is running. Otherwise the non-empty trimmed input is submitted and the field is cleared. |
| Conversation.HandlePreset | app/components/ConversationPanel.tsx:42-45 | A preset is ignored while loading and otherwise submitted verbatim. |
| Conversation.ShowPresets | app/components/ConversationPanel.tsx:52 | The presets show exactly when there are no messages. |
| Conversation.SendDisabledIffIgnored | app/components/ConversationPanel.tsx:115 | The Send button is disabled exactly when submitting would be ignored. |
| Conversation.SubmitClearsField | app/components/ConversationPanel.tsx:37-39 | A second submit without typing in between sends nothing. |
| Conversation.TrimmedLikeTyped | app/components/ConversationPanel.tsx:37-45 | Clicking a preset whose prompt is trimmed and non-empty sends what typing the prompt and pressing Send would send. |
| Generation.Append | app/hooks/useGeneration.ts:66-70 | A new message takes the counter's value as its decimal id and is appended; the counter advances by one and nothing else changes. |
| Generation.IdsDistinct | app/hooks/useGeneration.ts:58-67 | Ids drawn from the counter are pairwise distinct. |
| Generation.AppendKeepsIdsValid | app/hooks/useGeneration.ts:66-74 | Appending a message with the counter's id keeps every id a numeral below the counter, increasing in list order. |
| Generation.Submit | app/hooks/useGeneration.ts:72-80 | A submission appends the user message, sets `isGenerating` (so `isLoading` holds), and clears both code strings and both ready flags. |
| Generation.Stage1Success | app/hooks/useGeneration.ts:95-111 | Stage-1 success stores the cleaned code and sets `componentReady`, `!isGenerating` and `isVisualizing`. It appends one assistant message and leaves the visualization fields alone. |
| Generation.Stage2Success | app/hooks/useGeneration.ts:125-140 | Stage-2 success stores the cleaned visualization, sets `visualizationReady` and `!isVisualizing`, and appends one message. The component fields are kept. |
| Generation.Fail | app/hooks/useGeneration.ts:146-157 | A failure appends exactly one error message and clears both in-progress flags. Code and ready flags are left as they were. |
| Generation.HttpFailure | app/hooks/useGeneration.ts:90-93 | A response without `ok` throws an `Error` carrying the body's `error`, or the fallback when that is missing or empty. |
| Generation.Failed | app/hooks/useGeneration.ts:141-157 | An abort changes nothing. Any other failure appends one assistant message with the next id, stops loading, and keeps both results and both ready flags. The message reads "Sorry, there was an error: " followed by `getErrorMessage` of the thrown value: the `Error` built from the route's error or the fallback for an HTTP error, and the rejection itself otherwise. |
| Generation.Generate | app/hooks/useGeneration.ts:60-159 | A run always requests stage 1 with the prompt. It requests stage 2 exactly when stage 1 succeeded, and then with the cleaned stage-1 code. |
| Generation.StageTwoSeesCleanCode | app/hooks/useGeneration.ts:96-118 | Stage 2 depends on stage 1 only through the cleaned code. |
| Generation.GenerateAppends | app/hooks/useGeneration.ts:66-157 | A run appends the user message, then one message per stage that ended without an abort: one, two or three messages in all, each with the next id. |
| Generation.StageOneHttpError | app/hooks/useGeneration.ts:90-157 | A stage-1 HTTP error ends the conversation with the message of the route's error, or of "Failed to generate component" when there is none. It stops loading and leaves no component. |
| Generation.StageTwoHttpError | app/hooks/useGeneration.ts:119-157 | A stage-2 HTTP error ends the conversation with the message of the route's error, or of "Failed to generate visualization" when there is none. It stops loading and keeps the stage-1 component ready. |
| Generation.StageOneRejected | app/hooks/useGeneration.ts:141-157 | A stage-1 fetch that rejects without aborting ends the conversation with "Sorry, there was an error: " and `getErrorMessage` of what it threw. It stops loading and leaves no component. |
| Generation.StageTwoRejected | app/hooks/useGeneration.ts:141-157 | A stage-2 fetch that rejects without aborting ends the conversation with "Sorry, there was an error: " and `getErrorMessage` of what it threw. It stops loading and keeps the component ready. |
| Generation.AppendExtends | app/hooks/useGeneration.ts:66-70 | Appending one message with the counter's id extends the conversation by one message carrying the next id. |
| Generation.StageTwoFailureKeepsComponent | app/hooks/useGeneration.ts:104-157 | A stage-2 failure keeps the stage-1 result ready and stops loading. |
| Generation.AbortLeavesState | app/hooks/useGeneration.ts:141-144 | A stage-1 abort leaves the state just after submission, still generating. A stage-2 abort leaves the state just after the stage-1 success, still visualizing. |
| Generation.BothStagesSucceed | app/hooks/useGeneration.ts:95-140 | When both stages succeed, both cleaned results are ready, nothing is loading, and three messages were appended. |
| Generation.GenerateKeepsIds | app/hooks/useGeneration.ts:58-159 | One run only appends messages and keeps the ids valid. |
| Generation.GenerateAllAppendOnly | app/hooks/useGeneration.ts:58-159 | Over any number of runs, messages are only appended and their ids stay distinct and increasing in append order. |
| Generation.InitialIdsValid | app/hooks/useGeneration.ts:47-58 | The initial state has no messages, is not loading and has valid ids. |
| Auth.CookieMatchesSession | app/lib/auth.ts:89 | The cookie's `maxAge` in seconds times 1000 equals the session duration in milliseconds. |
| Auth.XorZeroIffEqual | app/lib/auth.ts:78 | The XOR of two character codes is zero exactly when they are equal. |
| Auth.OrZeroIffBothZero | app/lib/auth.ts:78 | An OR is zero exactly when both operands are zero. |
| Auth.DifferenceZeroIffEqual | app/lib/auth.ts:76-80 | The OR of the per-character XORs over a prefix is zero exactly when the two prefixes are equal. |
| Auth.SafeEqual | app/lib/auth.ts:28-33 | The timing-safe comparison is string equality. |
| Auth.ValidatePassword | app/lib/auth.ts:70-81 | The password is accepted exactly when `AUTH_PASSWORD` is set and non-empty and equals it. |
| Auth.Sign | app/lib/auth.ts:8-23 | A signature never contains `.`. |
| Auth.Verify | app/lib/auth.ts:25-34 | A signature verifies exactly when it equals the expected signature. |
| Auth.ParseSessionPayload | app/lib/auth.ts:61-64 | A payload parses exactly when it is `session:` followed by one or more digits, and its value is those digits. |
| Auth.ParseSessionPayloadOf | app/lib/auth.ts:41-64 | A rendered payload parses back to its expiry and contains no `.`. |
| Auth.CreateSession | app/lib/auth.ts:36-45 | Creating a session fails with "AUTH_SECRET not configured" exactly when the secret is unset or empty. |
| Auth.ValidateSession | app/lib/auth.ts:47-68 | An accepted token needs a secret and splits into exactly two parts. |
| Auth.AcceptedTokenShape | app/lib/auth.ts:47-68 | Every accepted token is a `session:<digits>` payload, a `.` and that payload's signature, with an expiry not yet passed. |
| Auth.AcceptsSignedToken | app/lib/auth.ts:47-68 | A correctly signed, well-formed payload is accepted up to and including its expiry instant. |
| Auth.SessionRoundTrip | app/lib/auth.ts:36-68 | A token created at `t` passes with the same secret exactly at the instants up to `t` plus thirty days. |
| Auth.NoSecretRejects | app/lib/auth.ts:48-49 | Without a secret, or with an empty one, nothing is accepted. |
| Auth.TamperedSignatureRejected | app/lib/auth.ts:56-58 | A token whose signature differs from the payload's signature is rejected. |
| Base64.EncodeAlphabet | app/lib/auth.ts:22 | An unpadded encoding uses only the characters of its alphabet. |
| Base64.EncodeUrlHasNoDot | app/lib/auth.ts:22 | The base64url encoding uses only `A-Z`, `a-z`, `0-9`, `-` and `_`, so it never contains `.`. |
| Base64.PaddedIsUnpaddedPlusPadding | middleware.ts:27 | `btoa`'s padded output is the unpadded encoding followed by its `=` padding. |
| Base64.ReplaceAll | middleware.ts:27 | A global single-character replacement swaps that character everywhere and changes nothing else. |
| Base64.SwapAlphabet | middleware.ts:27 | Mapping `+` to `-` and `/` to `_` turns the standard encoding into the URL-safe one. |
| Base64.StripPadding | middleware.ts:27 | `replace(/=+$/, '')` removes exactly the trailing run of `=`. |
| Base64.StdToUrlIsEncodeUrl | middleware.ts:21-27 | The middleware's rewrite of `btoa` output is exactly the unpadded base64url encoding. |
| Decimal.ParseNatToString | app/lib/auth.ts:64 | Parsing the decimal rendering of a number gives the number back. |
| Decimal.NatToStringInjective | app/hooks/useGeneration.ts:67 | Distinct counter values render as distinct ids. |
| Middleware.SignAgrees | middleware.ts:6-28 | The edge signer `Middleware.Sign` produces the same signature as the server signer `Auth.Sign`. |
| Middleware.Verify | middleware.ts:30-39 | The edge check accepts a signature exactly when it equals the expected one. |
| Middleware.ValidateSessionAgrees | middleware.ts:41-62 | The edge session check `Middleware.ValidateSession` and the server check `Auth.ValidateSession` agree on every token, secret and instant. |
| Middleware.IssuedTokenPasses | middleware.ts:41-62 | A token issued by the login route passes the edge check exactly until it expires. |
| Middleware.Gate | middleware.ts:64-97 | A request passes exactly when its path is public (`Middleware.IsPublicPath`, lines 68-75) or it carries a valid session. A redirect deletes the cookie exactly when one was sent. |
| Middleware.LoginReachable | middleware.ts:68-77 | `/login` and every path under `/api/auth/` pass whatever the cookie. |
| Middleware.ApiPathPublic | middleware.ts:68-75 | A path `/api/<rest>` is public exactly when `rest` starts with `auth/` or ends in `.svg` or `.ico`. |
| Middleware.ApiRouteGuarded | middleware.ts:68-84 | Without a cookie, any other API path redirects to `/login` and deletes no cookie. |
| Middleware.GenerationRoutesGuarded | middleware.ts:79-84 | Without a cookie, `/api/generate`, `/api/visualize` and `/` redirect to `/login` without deleting a cookie. |
| Middleware.InvalidSessionCleared | middleware.ts:86-94 | A non-public request with an invalid session is redirected and its cookie deleted. |
| Routes.ThrownMessage | app/api/generate/route.ts:20 | The message of an `Error`, otherwise "Unknown error". |
| Routes.Generation | app/api/generate/route.ts:5-26 | The handler shared by both generation routes. Status 400 with the required-field message comes exactly when the field is missing, empty or not a string. Status 200 with `{code}` comes exactly when generation succeeds. Every other outcome is 500 with the failure lead and the message. |
| Routes.GenerateRoute | app/api/generate/route.ts:5-26 | 400 "Prompt is required" exactly when the prompt is missing, empty or not a string. 200 with the generated code exactly when `generateComponent` succeeds. A failure gives 500 "Failed to generate component: " followed by its message, and an unreadable body gives the same lead followed by the thrown message. |
| Routes.VisualizeRoute | app/api/visualize/route.ts:5-26 | 400 "Component code is required" exactly when `componentCode` is missing, empty or not a string. 200 with the generated code exactly when `generateVisualization` succeeds. A failure gives 500 "Failed to generate visualization: " followed by its message, and an unreadable body gives the same lead followed by the thrown message. |
| Routes.MissingPromptSkipsModel | app/api/generate/route.ts:9-14 | A rejected prompt returns 400 "Prompt is required" whatever the model would say: the generator is not called. |
| Routes.NoTextReplyIs500 | app/api/visualize/route.ts:18-24 | A model reply with no text block surfaces as 500 "Failed to generate visualization: No text response from Claude". |
| Routes.Login | app/api/auth/login/route.ts:4-37 | 400 for a missing password and 401 for a wrong one. 200 sets a cookie holding a token valid for exactly thirty days. 500 for any failure, including an unset secret. |

## Left out

- JSX markup, CSS classes, styling, the loading dots and the emoji labels of the preset buttons are presentation and are not modelled. Presets are their prompt strings.
- `Babel.transform` and evaluating its output with `new Function` are parameters (`babel`, `execute`). Only what `createComponent` does with their results is modelled. The six bindings the factory receives (`React`, `useState`, `useEffect`, `useCallback`, `useMemo`, `useRef`) are part of what `execute` abstracts.
- BabelTransform.NormalizeLineEndings: its own contract states only that no carriage return is left. What each line break becomes is stated by `NormalizeCrLf`, `NormalizeLoneCr`, `NormalizeKeepsChar` and `NormalizeIsOnePass`.
- BabelTransform.ReplaceCrLf: its own contract states only that the text never grows. What each CRLF pair and each other character becomes is stated by `ReplaceCrLfPair`, `ReplaceCrLfKeepsLoneCr`, `ReplaceCrLfAppend` and `ReplaceCrLfKeepsText`.
- BabelTransform.ReplaceCrLfKeepsText: states only that the characters other than CR and LF are kept. What happens to the breaks is stated by `ReplaceCrLfPair` and `ReplaceCrLfKeepsLoneCr`.
- BabelTransform.NormalizeKeepsText: states only that the characters other than CR and LF are kept. The exact result is stated by `NormalizeIsOnePass`.
- HMAC-SHA-256, `TextEncoder` and Web Crypto are the uninterpreted parameter `hmac`. Base64 is modelled concretely.
- The clock (`Date.now()`), the 500 ms delay of a wrong login and the `setTimeout` waits of the retry loop are not modelled. The clock is the parameter `now`, and the waits are recorded as delays.
- Auth.SafeEqual: only the result is modelled. The constant-time property of the comparison is not, because timing is outside the model.
- Generation.Generate: overlapping runs, `AbortController` cancellation of an earlier run and the ordering of asynchronous updates are not modelled. A run is the sequence of its own updates, and an abort is a fetch outcome.
- Anthropic.RetryFrom: `maxRetries` and `initialDelay` are natural numbers. Negative, fractional or non-numeric options, and the floating-point arithmetic of `Math.pow`, are not modelled.
- Auth.ParseSessionPayload: `parseInt` is exact on unbounded integers. The precision limit of JavaScript numbers on very long digit strings is not modelled.
- Text.Trim: characters are Dafny `char`s, not UTF-16 code units, so surrogate pairs are not modelled. The whitespace set is the ECMAScript one.
- CleanCode.OpeningFenceAt: the trailing `\n?` of the opening expression is not modelled separately. After the greedy `\s*` it can only match empty.
- `getErrorMessage` (app/lib/getErrorMessage.ts) is not part of this model. It is the parameter `errorMessage`.
- The system prompts of app/lib/prompts.ts are parameters.
- Cookie handling through `next/headers` (`setSessionCookie`, `clearSessionCookie`, `getSessionFromCookies`, `getSessionFromRequest`, `isAuthenticated`) is left out. The login route returns the cookie it sets, and the middleware receives the cookie value.
- The middleware's `matcher` configuration and the URL of the redirect are not modelled.
- Console logging is not modelled.
- React's mounting details are abstracted: a boundary keyed by the compile key is a fresh boundary whenever the key changes. The unmounting of the old boundary is not modelled.
- `showTitle` and the panel frame are modelled for the visualization panel only, not for `MyWayPanel`.
- SplitView, TabGroup, Panel, CodePanel, CodeMyWayPanel, the login page and the home page are presentation and are not modelled.
