/** app/hooks/useGeneration.ts, `generate`: one run turns a prompt into
    component code (stage 1, `/api/generate`) and then into visualization code
    (stage 2, `/api/visualize`), recording the conversation as an append-only
    list of messages whose ids come from a counter. Each fetch is an abstract
    outcome; `getErrorMessage` is a parameter. Overlapping runs are not
    modelled: a run is the sequence of its own state updates. */
module Generation {
  import opened Base
  import opened Decimal
  import CleanCode

  datatype Role = User | Assistant

  /** `Message` of app/components/ConversationPanel.tsx. */
  datatype Message = Message(id: string, role: Role, content: string)

  /** `GenerationState` together with the id counter `nextIdRef`. */
  datatype GenState = GenState(
    messages: seq<Message>,
    componentCode: string,
    visualizationCode: string,
    isGenerating: bool,
    isVisualizing: bool,
    componentReady: bool,
    visualizationReady: bool,
    nextId: nat)

  const InitialGen: GenState := GenState([], [], [], false, false, false, false, 0)

  const ComponentFallback: string := "Failed to generate component"
  const VisualizationFallback: string := "Failed to generate visualization"
  const ComponentDone: string := "Component generated! Check the Preview panel."
  const VisualizationDone: string := "Code Representation is ready! Toggle to see how the code works."
  const ErrorLead: string := "Sorry, there was an error: "

  /** Line 164: the hook's `isLoading`. */
  function IsLoading(s: GenState): bool {
    s.isGenerating || s.isVisualizing
  }

  // ---------------------------------------------------------------------------
  // Message ids
  // ---------------------------------------------------------------------------

  /** A message created now: it takes the counter's value as its id and
      advances the counter. */
  function Append(s: GenState, role: Role, content: string): (r: GenState)
    ensures r.messages == s.messages + [Message(NatToString(s.nextId), role, content)]
    ensures r.nextId == s.nextId + 1
    ensures r == s.(messages := r.messages, nextId := r.nextId)
  {
    s.(messages := s.messages + [Message(NatToString(s.nextId), role, content)], nextId := s.nextId + 1)
  }

  /** The numeric value of a message id (0 for an id that is not a decimal numeral). */
  function IdValue(m: Message): nat {
    if AllDigits(m.id) then ParseDigits(m.id) else 0
  }

  /** Every id is a decimal numeral below the counter, and ids increase in list order. */
  predicate IdsValid(s: GenState) {
    (forall i :: 0 <= i < |s.messages| ==> AllDigits(s.messages[i].id) && IdValue(s.messages[i]) < s.nextId)
    && (forall i, j :: 0 <= i < j < |s.messages| ==> IdValue(s.messages[i]) < IdValue(s.messages[j]))
  }

  /** Valid ids are pairwise distinct. */
  lemma IdsDistinct(s: GenState)
    requires IdsValid(s)
    ensures forall i, j :: 0 <= i < j < |s.messages| ==> s.messages[i].id != s.messages[j].id
  {}

  /** Creating a message keeps the ids valid, whatever else the update changes. */
  lemma AppendKeepsIdsValid(s: GenState, r: GenState, role: Role, content: string)
    requires IdsValid(s)
    requires r.messages == s.messages + [Message(NatToString(s.nextId), role, content)] && r.nextId == s.nextId + 1
    ensures IdsValid(r)
  {
    ParseNatToString(s.nextId);
    assert IdValue(r.messages[|s.messages|]) == s.nextId;
  }

  // ---------------------------------------------------------------------------
  // The transitions of one run
  // ---------------------------------------------------------------------------

  /** Lines 66-80: the user message is appended, stage 1 starts and both results
      and both ready flags are cleared. */
  function Submit(s: GenState, prompt: string): (r: GenState)
    ensures r.messages == s.messages + [Message(NatToString(s.nextId), User, prompt)]
    ensures r.isGenerating && r.isVisualizing == s.isVisualizing && IsLoading(r)
    ensures r.componentCode == [] && r.visualizationCode == [] && !r.componentReady && !r.visualizationReady
  {
    Append(s, User, prompt).(isGenerating := true, componentCode := [], visualizationCode := [],
                             componentReady := false, visualizationReady := false)
  }

  /** Lines 95-111: stage 1 succeeded with the raw reply `raw`. */
  function Stage1Success(s: GenState, raw: string): (r: GenState)
    ensures r.componentCode == CleanCode.Clean(raw) && r.componentReady
    ensures !r.isGenerating && r.isVisualizing && IsLoading(r)
    ensures r.messages == s.messages + [Message(NatToString(s.nextId), Assistant, ComponentDone)]
    ensures r.visualizationCode == s.visualizationCode && r.visualizationReady == s.visualizationReady
  {
    Append(s, Assistant, ComponentDone).(componentCode := CleanCode.Clean(raw), isGenerating := false,
                                         componentReady := true, isVisualizing := true)
  }

  /** Lines 125-140: stage 2 succeeded with the raw reply `raw`. */
  function Stage2Success(s: GenState, raw: string): (r: GenState)
    ensures r.visualizationCode == CleanCode.Clean(raw) && r.visualizationReady && !r.isVisualizing
    ensures r.messages == s.messages + [Message(NatToString(s.nextId), Assistant, VisualizationDone)]
    ensures r.componentCode == s.componentCode && r.componentReady == s.componentReady
    ensures r.isGenerating == s.isGenerating
  {
    Append(s, Assistant, VisualizationDone).(visualizationCode := CleanCode.Clean(raw), isVisualizing := false,
                                             visualizationReady := true)
  }

  /** Lines 146-157: a failure other than an abort appends one error message and
      stops both stages; the results and ready flags stay as they were. */
  function Fail(s: GenState, message: string): (r: GenState)
    ensures r.messages == s.messages + [Message(NatToString(s.nextId), Assistant, ErrorLead + message)]
    ensures !r.isGenerating && !r.isVisualizing && !IsLoading(r)
    ensures r.componentCode == s.componentCode && r.componentReady == s.componentReady
    ensures r.visualizationCode == s.visualizationCode && r.visualizationReady == s.visualizationReady
  {
    Append(s, Assistant, ErrorLead + message).(isGenerating := false, isVisualizing := false)
  }

  // ---------------------------------------------------------------------------
  // A whole run
  // ---------------------------------------------------------------------------

  /** How a `fetch` to one of the API routes ends: a response with `ok` and its
      `code`; a response without `ok` and its JSON `error` field; an abort
      (`AbortError`); or any other rejection. */
  datatype FetchOutcome = Ok(code: string) | HttpError(error: Option<string>) | Aborted | Rejected(thrown: Thrown)

  /** A request the run sends. */
  datatype ApiRequest = GenerateRequest(prompt: string) | VisualizeRequest(componentCode: string)

  datatype Run = Run(state: GenState, requests: seq<ApiRequest>)

  /** Lines 90-93 and 120-123: a response without `ok` is thrown as an `Error`
      carrying the body's `error`, or `fallback` when that is missing or empty. */
  function HttpFailure(error: Option<string>, fallback: string): (t: Thrown)
    ensures t.Error?
    ensures Truthy(error) ==> t.message == error.value
    ensures !Truthy(error) ==> t.message == fallback
  {
    Error(if Truthy(error) then error.value else fallback)
  }

  /** `r` is `s` with `k` messages appended, each of which took the counter's
      next value as its id. */
  predicate Extends(s: GenState, r: GenState, k: nat) {
    && |r.messages| == |s.messages| + k && r.messages[..|s.messages|] == s.messages && r.nextId == s.nextId + k
    && forall i :: |s.messages| <= i < |r.messages| ==> r.messages[i].id == NatToString(s.nextId + (i - |s.messages|))
  }

  /** Appending one message with the counter's id extends the state by one. */
  lemma AppendExtends(s: GenState, r: GenState, role: Role, content: string)
    requires r.messages == s.messages + [Message(NatToString(s.nextId), role, content)] && r.nextId == s.nextId + 1
    ensures Extends(s, r, 1)
  {
    assert r.messages[..|s.messages|] == s.messages;
  }

  lemma ExtendsTransitive(s: GenState, t: GenState, r: GenState, k: nat, l: nat)
    requires Extends(s, t, k) && Extends(t, r, l)
    ensures Extends(s, r, k + l)
    ensures forall i :: |s.messages| <= i < |t.messages| ==> r.messages[i] == t.messages[i]
  {
    assert r.messages[..|s.messages|] == r.messages[..|t.messages|][..|s.messages|];
    forall i | |s.messages| <= i < |t.messages|
      ensures r.messages[i] == t.messages[i]
    {
      assert r.messages[..|t.messages|][i] == r.messages[i];
    }
  }

  /** Lines 141-157: where a failed fetch leaves the run. */
  function Failed(s: GenState, outcome: FetchOutcome, fallback: string, errorMessage: Thrown -> string): (r: GenState)
    requires !outcome.Ok?
    ensures outcome.Aborted? ==> r == s
    ensures !outcome.Aborted? ==> Extends(s, r, 1) && r.messages[|s.messages|].role == Assistant && !IsLoading(r)
    ensures outcome.HttpError? ==>
              r.messages == s.messages + [Message(NatToString(s.nextId), Assistant,
                                                  ErrorLead + errorMessage(HttpFailure(outcome.error, fallback)))]
    ensures outcome.Rejected? ==>
              r.messages == s.messages + [Message(NatToString(s.nextId), Assistant, ErrorLead + errorMessage(outcome.thrown))]
    ensures !outcome.Aborted? ==> r.componentCode == s.componentCode && r.componentReady == s.componentReady
    ensures !outcome.Aborted? ==> r.visualizationCode == s.visualizationCode && r.visualizationReady == s.visualizationReady
  {
    match outcome
    case Aborted => s
    case HttpError(error) => Fail(s, errorMessage(HttpFailure(error, fallback)))
    case Rejected(thrown) => Fail(s, errorMessage(thrown))
  }

  /** Lines 60-159: one run of `generate(prompt)`. The API routes are functions
      of the request body they receive. */
  function Generate(s: GenState, prompt: string, generateApi: string -> FetchOutcome,
                    visualizeApi: string -> FetchOutcome, errorMessage: Thrown -> string): (r: Run)
    ensures |r.requests| >= 1 && r.requests[0] == GenerateRequest(prompt)
    ensures |r.requests| == 2 <==> generateApi(prompt).Ok?
    ensures |r.requests| <= 2
    ensures |r.requests| == 2 ==> r.requests[1] == VisualizeRequest(CleanCode.Clean(generateApi(prompt).code))
  {
    var submitted := Submit(s, prompt);
    var first := generateApi(prompt);
    if !first.Ok? then Run(Failed(submitted, first, ComponentFallback, errorMessage), [GenerateRequest(prompt)])
    else
      var staged := Stage1Success(submitted, first.code);
      var second := visualizeApi(staged.componentCode);
      var requests := [GenerateRequest(prompt), VisualizeRequest(staged.componentCode)];
      if !second.Ok? then Run(Failed(staged, second, VisualizationFallback, errorMessage), requests)
      else Run(Stage2Success(staged, second.code), requests)
  }

  /** Stage 2 sees only the cleaned stage-1 code: two visualization services that
      agree on it give the same run. */
  lemma StageTwoSeesCleanCode(s: GenState, prompt: string, generateApi: string -> FetchOutcome,
                              visualizeApi: string -> FetchOutcome, otherApi: string -> FetchOutcome,
                              errorMessage: Thrown -> string)
    requires generateApi(prompt).Ok?
    requires visualizeApi(CleanCode.Clean(generateApi(prompt).code)) == otherApi(CleanCode.Clean(generateApi(prompt).code))
    ensures Generate(s, prompt, generateApi, visualizeApi, errorMessage) == Generate(s, prompt, generateApi, otherApi, errorMessage)
  {}

  /** The messages a run appends: the user message, then one message per stage
      that ended without an abort. */
  lemma GenerateAppends(s: GenState, prompt: string, generateApi: string -> FetchOutcome,
                        visualizeApi: string -> FetchOutcome, errorMessage: Thrown -> string)
    ensures var r := Generate(s, prompt, generateApi, visualizeApi, errorMessage).state;
            && |r.messages| > |s.messages|
            && r.messages[|s.messages|] == Message(NatToString(s.nextId), User, prompt)
            && (generateApi(prompt).Aborted? ==> Extends(s, r, 1))
            && (generateApi(prompt).HttpError? || generateApi(prompt).Rejected? ==>
                  Extends(s, r, 2) && r.messages[|s.messages| + 1].role == Assistant)
            && (generateApi(prompt).Ok? ==>
                  (Extends(s, r, 2) || Extends(s, r, 3)) && r.messages[|s.messages| + 1].content == ComponentDone)
  {
    var first := generateApi(prompt);
    var submitted := Submit(s, prompt);
    AppendExtends(s, submitted, User, prompt);
    if first.Ok? {
      var staged := Stage1Success(submitted, first.code);
      AppendExtends(submitted, staged, Assistant, ComponentDone);
      ExtendsTransitive(s, submitted, staged, 1, 1);
      var second := visualizeApi(staged.componentCode);
      if second.Ok? {
        var r := Stage2Success(staged, second.code);
        AppendExtends(staged, r, Assistant, VisualizationDone);
        ExtendsTransitive(s, staged, r, 2, 1);
      } else if !second.Aborted? {
        var r := Failed(staged, second, VisualizationFallback, errorMessage);
        ExtendsTransitive(s, staged, r, 2, 1);
      }
    } else if !first.Aborted? {
      var r := Failed(submitted, first, ComponentFallback, errorMessage);
      ExtendsTransitive(s, submitted, r, 1, 1);
    }
  }

  /** A stage-1 failure reports the route's error, or the component fallback. */
  lemma StageOneHttpError(s: GenState, prompt: string, generateApi: string -> FetchOutcome,
                          visualizeApi: string -> FetchOutcome, errorMessage: Thrown -> string)
    requires generateApi(prompt).HttpError?
    ensures var r := Generate(s, prompt, generateApi, visualizeApi, errorMessage).state;
            var error := generateApi(prompt).error;
            && r.messages[|r.messages| - 1].content
               == ErrorLead + errorMessage(Error(if Truthy(error) then error.value else ComponentFallback))
            && !IsLoading(r) && r.componentCode == [] && !r.componentReady
  {}

  /** A stage-2 HTTP error reports the route's error, or the visualization
      fallback, and keeps the stage-1 result. */
  lemma StageTwoHttpError(s: GenState, prompt: string, generateApi: string -> FetchOutcome,
                          visualizeApi: string -> FetchOutcome, errorMessage: Thrown -> string)
    requires generateApi(prompt).Ok?
    requires visualizeApi(CleanCode.Clean(generateApi(prompt).code)).HttpError?
    ensures var r := Generate(s, prompt, generateApi, visualizeApi, errorMessage).state;
            var error := visualizeApi(CleanCode.Clean(generateApi(prompt).code)).error;
            && r.messages[|r.messages| - 1].content
               == ErrorLead + errorMessage(Error(if Truthy(error) then error.value else VisualizationFallback))
            && !IsLoading(r) && r.componentCode == CleanCode.Clean(generateApi(prompt).code) && r.componentReady
  {
    var staged := Stage1Success(Submit(s, prompt), generateApi(prompt).code);
    var second := visualizeApi(staged.componentCode);
    assert Generate(s, prompt, generateApi, visualizeApi, errorMessage).state
           == Failed(staged, second, VisualizationFallback, errorMessage);
  }

  /** A stage-1 fetch that rejects reports the message `getErrorMessage`
      gives for what it threw. */
  lemma StageOneRejected(s: GenState, prompt: string, generateApi: string -> FetchOutcome,
                         visualizeApi: string -> FetchOutcome, errorMessage: Thrown -> string)
    requires generateApi(prompt).Rejected?
    ensures var r := Generate(s, prompt, generateApi, visualizeApi, errorMessage).state;
            && r.messages[|r.messages| - 1].content == ErrorLead + errorMessage(generateApi(prompt).thrown)
            && !IsLoading(r) && r.componentCode == [] && !r.componentReady
  {}

  /** A stage-2 fetch that rejects reports the message `getErrorMessage` gives
      for what it threw. */
  lemma StageTwoRejected(s: GenState, prompt: string, generateApi: string -> FetchOutcome,
                         visualizeApi: string -> FetchOutcome, errorMessage: Thrown -> string)
    requires generateApi(prompt).Ok?
    requires visualizeApi(CleanCode.Clean(generateApi(prompt).code)).Rejected?
    ensures var r := Generate(s, prompt, generateApi, visualizeApi, errorMessage).state;
            && r.messages[|r.messages| - 1].content
               == ErrorLead + errorMessage(visualizeApi(CleanCode.Clean(generateApi(prompt).code)).thrown)
            && !IsLoading(r) && r.componentReady
  {
    var staged := Stage1Success(Submit(s, prompt), generateApi(prompt).code);
    var second := visualizeApi(staged.componentCode);
    assert Generate(s, prompt, generateApi, visualizeApi, errorMessage).state
           == Failed(staged, second, VisualizationFallback, errorMessage);
  }

  /** A stage-2 failure keeps the stage-1 result, and stops loading. */
  lemma StageTwoFailureKeepsComponent(s: GenState, prompt: string, generateApi: string -> FetchOutcome,
                                      visualizeApi: string -> FetchOutcome, errorMessage: Thrown -> string)
    requires generateApi(prompt).Ok?
    requires var code := CleanCode.Clean(generateApi(prompt).code);
             visualizeApi(code).HttpError? || visualizeApi(code).Rejected?
    ensures var r := Generate(s, prompt, generateApi, visualizeApi, errorMessage).state;
            && r.componentCode == CleanCode.Clean(generateApi(prompt).code) && r.componentReady
            && !IsLoading(r) && r.visualizationCode == [] && !r.visualizationReady
  {
    var staged := Stage1Success(Submit(s, prompt), generateApi(prompt).code);
    var second := visualizeApi(staged.componentCode);
    assert Generate(s, prompt, generateApi, visualizeApi, errorMessage).state
           == Failed(staged, second, VisualizationFallback, errorMessage);
  }

  /** An abort changes nothing after the point it interrupts; a run aborted in
      stage 1 stays generating. */
  lemma AbortLeavesState(s: GenState, prompt: string, generateApi: string -> FetchOutcome,
                         visualizeApi: string -> FetchOutcome, errorMessage: Thrown -> string)
    ensures generateApi(prompt).Aborted? ==>
              Generate(s, prompt, generateApi, visualizeApi, errorMessage).state == Submit(s, prompt)
    ensures generateApi(prompt).Ok? && visualizeApi(CleanCode.Clean(generateApi(prompt).code)).Aborted? ==>
              Generate(s, prompt, generateApi, visualizeApi, errorMessage).state
              == Stage1Success(Submit(s, prompt), generateApi(prompt).code)
  {}

  /** Both stages succeed: both results are ready and nothing is loading. */
  lemma BothStagesSucceed(s: GenState, prompt: string, generateApi: string -> FetchOutcome,
                          visualizeApi: string -> FetchOutcome, errorMessage: Thrown -> string)
    requires generateApi(prompt).Ok?
    requires visualizeApi(CleanCode.Clean(generateApi(prompt).code)).Ok?
    ensures var r := Generate(s, prompt, generateApi, visualizeApi, errorMessage).state;
            && r.componentCode == CleanCode.Clean(generateApi(prompt).code) && r.componentReady
            && r.visualizationCode == CleanCode.Clean(visualizeApi(r.componentCode).code) && r.visualizationReady
            && !IsLoading(r) && |r.messages| == |s.messages| + 3
  {}

  // ---------------------------------------------------------------------------
  // Successive runs
  // ---------------------------------------------------------------------------

  /** The inputs of one run: the prompt and how the two routes answer. */
  datatype RunInput = RunInput(prompt: string, generateApi: string -> FetchOutcome, visualizeApi: string -> FetchOutcome)

  function GenerateAll(s: GenState, runs: seq<RunInput>, errorMessage: Thrown -> string): GenState
    decreases |runs|
  {
    if runs == [] then s
    else GenerateAll(Generate(s, runs[0].prompt, runs[0].generateApi, runs[0].visualizeApi, errorMessage).state,
                     runs[1..], errorMessage)
  }

  /** One run keeps the ids valid and only appends messages. */
  lemma GenerateKeepsIds(s: GenState, prompt: string, generateApi: string -> FetchOutcome,
                         visualizeApi: string -> FetchOutcome, errorMessage: Thrown -> string)
    requires IdsValid(s)
    ensures var r := Generate(s, prompt, generateApi, visualizeApi, errorMessage).state;
            IdsValid(r) && |r.messages| > |s.messages| && r.messages[..|s.messages|] == s.messages
  {
    GenerateAppends(s, prompt, generateApi, visualizeApi, errorMessage);
    var submitted := Submit(s, prompt);
    AppendKeepsIdsValid(s, submitted, User, prompt);
    var first := generateApi(prompt);
    if first.Ok? {
      var staged := Stage1Success(submitted, first.code);
      AppendKeepsIdsValid(submitted, staged, Assistant, ComponentDone);
      var second := visualizeApi(staged.componentCode);
      if second.Ok? {
        var r := Stage2Success(staged, second.code);
        AppendKeepsIdsValid(staged, r, Assistant, VisualizationDone);
      } else if !second.Aborted? {
        var r := Failed(staged, second, VisualizationFallback, errorMessage);
        AppendKeepsIdsValid(staged, r, Assistant, r.messages[|staged.messages|].content);
      }
    } else if !first.Aborted? {
      var r := Failed(submitted, first, ComponentFallback, errorMessage);
      AppendKeepsIdsValid(submitted, r, Assistant, r.messages[|submitted.messages|].content);
    }
  }

  /** Across any number of runs from the initial state, the message list only
      grows at its end and its ids stay distinct and increasing. */
  lemma {:induction false} GenerateAllAppendOnly(s: GenState, runs: seq<RunInput>, errorMessage: Thrown -> string)
    requires IdsValid(s)
    ensures var r := GenerateAll(s, runs, errorMessage);
            IdsValid(r) && |r.messages| >= |s.messages| + |runs| && r.messages[..|s.messages|] == s.messages
    decreases |runs|
  {
    if runs != [] {
      var t := Generate(s, runs[0].prompt, runs[0].generateApi, runs[0].visualizeApi, errorMessage).state;
      GenerateKeepsIds(s, runs[0].prompt, runs[0].generateApi, runs[0].visualizeApi, errorMessage);
      GenerateAllAppendOnly(t, runs[1..], errorMessage);
      var r := GenerateAll(t, runs[1..], errorMessage);
      assert r.messages[..|s.messages|] == r.messages[..|t.messages|][..|s.messages|];
    }
  }

  lemma InitialIdsValid()
    ensures IdsValid(InitialGen) && InitialGen.messages == [] && !IsLoading(InitialGen)
  {}
}
