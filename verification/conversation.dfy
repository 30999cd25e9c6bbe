/** app/components/ConversationPanel.tsx: the prompt form and the preset
    buttons. A typed prompt is submitted trimmed and clears the field; blank
    input and anything while a request is running is ignored. */
module Conversation {
  import opened Base
  import opened Text

  /** Lines 18-25: the preset prompts, in button order (their emoji labels are presentation). */
  const PresetPrompts: seq<string> := [
    "Create a pomodoro timer with 25 min work and 5 min break",
    "Build a todo list with add, complete, and delete",
    "Create a simple calculator",
    "Build a dice roller with multiple dice",
    "Create a stopwatch with lap times",
    "Build a counter with increment, decrement, and reset"
  ]

  /** The input field after a handler, and the prompt passed to `onSubmit`, if any. */
  datatype FormStep = FormStep(input: string, submitted: Option<string>)

  /** Lines 35-40: submitting the form. */
  function HandleSubmit(input: string, isLoading: bool): (r: FormStep)
    ensures r.submitted.Some? <==> !AllSpace(input) && !isLoading
    ensures r.submitted.Some? ==> r.submitted.value == Trim(input) && r.input == []
    ensures r.submitted.Some? ==> r.submitted.value != [] && Trimmed(r.submitted.value)
    ensures r.submitted.None? ==> r.input == input
  {
    TrimEmptyIffAllSpace(input);
    if Trim(input) == [] || isLoading then FormStep(input, None)
    else FormStep([], Some(Trim(input)))
  }

  /** Lines 42-45: clicking a preset submits its prompt as it is. */
  function HandlePreset(prompt: string, isLoading: bool): (r: Option<string>)
    ensures r.Some? <==> !isLoading
    ensures r.Some? ==> r.value == prompt
  {
    if isLoading then None else Some(prompt)
  }

  /** Line 52: the welcome text and presets appear only before the first message. */
  function ShowPresets<M>(messages: seq<M>): (b: bool)
    ensures b <==> |messages| == 0
  {
    |messages| == 0
  }

  /** Line 115: the Send button's `disabled`. */
  function SendDisabled(input: string, isLoading: bool): bool {
    isLoading || Trim(input) == []
  }

  /** The Send button is disabled exactly when submitting would be ignored. */
  lemma SendDisabledIffIgnored(input: string, isLoading: bool)
    ensures SendDisabled(input, isLoading) <==> HandleSubmit(input, isLoading).submitted.None?
  {
    TrimEmptyIffAllSpace(input);
  }

  /** Submitting the same text twice in a row (without typing in between) sends
      it at most once: the first submit clears the field. */
  lemma SubmitClearsField(input: string, isLoading: bool)
    requires HandleSubmit(input, isLoading).submitted.Some?
    ensures HandleSubmit(HandleSubmit(input, isLoading).input, isLoading).submitted.None?
  {}

  /** Clicking a button whose prompt is non-empty and trimmed sends the same
      prompt as typing it and pressing Send. */
  lemma TrimmedLikeTyped(prompt: string, isLoading: bool)
    requires prompt != [] && Trimmed(prompt)
    ensures HandlePreset(prompt, isLoading) == HandleSubmit(prompt, isLoading).submitted
  {
    TrimOfTrimmed(prompt);
  }
}
