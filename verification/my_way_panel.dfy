/** app/components/MyWayPanel.tsx: the older visualization panel. It carries its
    own copy of the error boundary, compiles in its own effect, and keeps one
    `error` state for both compile and runtime errors: empty code clears only
    the component, a failed compile replaces the error (falling back with `||`,
    so an empty error message also falls back), and only a successful compile
    clears it. */
module MyWayPanel {
  import opened Base
  import opened BabelTransform
  import opened CompiledComponent
  import opened ErrorBoundary

  const FallbackError: string := "Failed to create visualization"
  const PanelTitle: string := "My Way View"
  const BoundaryTitle: string := "Visualization Error"

  // ---------------------------------------------------------------------------
  // The embedded boundary
  // ---------------------------------------------------------------------------

  /** The embedded boundary takes no title or variant: it always renders the
      rose "Visualization Error" surface. */
  function BoundaryView(s: BoundaryState): (v: View)
    ensures v.Children? <==> !s.hasError
    ensures v.ErrorSurface? ==> v.title == BoundaryTitle && v.variant == Rose && v.message == s.error
  {
    if s.hasError then ErrorSurface(BoundaryTitle, Rose, s.error) else Children
  }

  /** Its capture and reset are those of the shared boundary, and its
      rendering is the shared boundary's with a fixed title and variant. */
  lemma BoundaryViewAsShared(s: BoundaryState, resetKey: Option<int>)
    ensures BoundaryView(s) == RenderView(s, BoundaryProps(resetKey, Some(BoundaryTitle), Some(Rose), true))
  {}

  // ---------------------------------------------------------------------------
  // The panel
  // ---------------------------------------------------------------------------

  datatype MyWayState = MyWayState(error: Option<string>, component: Option<nat>, key: nat, deps: Option<Deps>,
                                   keySeen: Option<nat>, boundary: BoundaryState)

  const InitialMyWay: MyWayState := MyWayState(None, None, 0, None, None, InitialBoundary)

  /** Lines 61-77: one run of the compile effect. */
  function RunEffect(s: MyWayState, code: string, isReady: bool, compile: string -> CreateResult): (r: MyWayState)
    ensures code == [] || !isReady ==> r == s.(component := None)
    ensures code != [] && isReady && CompileFailed(compile(code)) ==>
              r == s.(error := Some(if Truthy(compile(code).error) then compile(code).error.value else FallbackError),
                      component := None)
    ensures code != [] && isReady && !CompileFailed(compile(code)) ==>
              r == s.(error := None, component := compile(code).component, key := s.key + 1)
  {
    if code == [] || !isReady then s.(component := None)
    else
      var result := compile(code);
      if CompileFailed(result) then
        s.(error := Some(if Truthy(result.error) then result.error.value else FallbackError), component := None)
      else s.(error := None, component := result.component, key := s.key + 1)
  }

  /** One render: the compile effect runs when `[code, isReady]` changed, and the
      boundary, keyed by `key`, is mounted afresh when the key changed. */
  function Update(s: MyWayState, code: string, isReady: bool, compile: string -> CreateResult): (r: MyWayState)
    ensures r.deps == Some(Deps(code, isReady)) && r.keySeen == Some(r.key)
    ensures r.key == s.key || r.key == s.key + 1
    ensures s.keySeen != Some(r.key) ==> r.boundary == InitialBoundary
    ensures s.deps != Some(Deps(code, isReady)) ==>
              var e := RunEffect(s, code, isReady, compile);
              r.error == e.error && r.component == e.component && r.key == e.key
    ensures s.deps == Some(Deps(code, isReady)) ==> r.error == s.error && r.component == s.component && r.key == s.key
  {
    var t := if s.deps == Some(Deps(code, isReady)) then s else RunEffect(s, code, isReady, compile).(deps := Some(Deps(code, isReady)));
    if s.keySeen != Some(t.key) then t.(keySeen := Some(t.key), boundary := InitialBoundary) else t
  }

  /** Line 108: the boundary catches a render error and `onError` writes its
      message into the panel's one error state. */
  function RuntimeFailure(s: MyWayState, message: string): (r: MyWayState)
    ensures r.error == Some(message) && r.boundary.hasError
    ensures r.component == s.component && r.key == s.key
  {
    var caught := Capture(s.boundary, BoundaryProps(s.keySeen, None, None, true), message);
    s.(error := caught.notified, boundary := caught.state)
  }

  /** Only a successful compile clears the error. */
  lemma ErrorClearedOnlyBySuccess(s: MyWayState, code: string, isReady: bool, compile: string -> CreateResult)
    requires s.error.Some?
    ensures var r := Update(s, code, isReady, compile);
            r.error.None? ==> r.key == s.key + 1 && r.component == compile(code).component
  {}

  /** Empty code or a panel that is not ready leaves a runtime error in place. */
  lemma NotReadyKeepsError(s: MyWayState, code: string, isReady: bool, compile: string -> CreateResult)
    requires code == [] || !isReady
    ensures Update(s, code, isReady, compile).error == s.error
    ensures Update(s, code, isReady, compile).component == (if s.deps == Some(Deps(code, isReady)) then s.component else None)
  {}

  datatype MyWayView =
    | Generating
    | Introduction
    | VisualizationError(message: string)
    | Live(component: nat, key: nat, boundary: View)
    | Waiting

  /** Lines 81-115: the body the panel shows. */
  function Display(s: MyWayState, code: string, isLoading: Option<bool>): (v: MyWayView)
    ensures v == Generating <==> isLoading == Some(true)
    ensures v == Introduction <==> isLoading != Some(true) && code == []
    ensures v.VisualizationError? <==> isLoading != Some(true) && code != [] && Truthy(s.error)
    ensures v.VisualizationError? ==> v.message == s.error.value
    ensures v.Live? <==> isLoading != Some(true) && code != [] && !Truthy(s.error) && s.component.Some?
    ensures v.Live? ==> v.component == s.component.value && v.key == s.key
  {
    if isLoading == Some(true) then Generating
    else if code == [] then Introduction
    else if Truthy(s.error) then VisualizationError(s.error.value)
    else if s.component.Some? then Live(s.component.value, s.key, BoundaryView(s.boundary))
    else Waiting
  }

  /** Successive renders with the given `[code, isReady]` pairs. */
  function UpdateAll(s: MyWayState, renders: seq<Deps>, compile: string -> CreateResult): MyWayState
    decreases |renders|
  {
    if renders == [] then s
    else UpdateAll(Update(s, renders[0].code, renders[0].isReady, compile), renders[1..], compile)
  }

  /** The compile key never goes back. */
  lemma {:induction false} KeyMonotone(s: MyWayState, renders: seq<Deps>, compile: string -> CreateResult)
    ensures UpdateAll(s, renders, compile).key >= s.key
    decreases |renders|
  {
    if renders != [] {
      KeyMonotone(Update(s, renders[0].code, renders[0].isReady, compile), renders[1..], compile);
    }
  }

  /** Once set, the error stays set (and non-empty) through any renders in which
      no compile succeeds: every failure message is non-empty thanks to the
      `||` fallback, and only a success clears it. */
  lemma {:induction false} ErrorPersistsUntilSuccess(s: MyWayState, renders: seq<Deps>, compile: string -> CreateResult)
    requires Truthy(s.error)
    requires UpdateAll(s, renders, compile).key == s.key
    ensures Truthy(UpdateAll(s, renders, compile).error)
    decreases |renders|
  {
    if renders != [] {
      var t := Update(s, renders[0].code, renders[0].isReady, compile);
      KeyMonotone(t, renders[1..], compile);
      assert t.key == s.key;
      ErrorPersistsUntilSuccess(t, renders[1..], compile);
    }
  }

  /** A visualization that throws is replaced by its error message, which stays
      on screen through later renders of non-empty code until a compile succeeds. */
  lemma RuntimeErrorShownUntilSuccess(s: MyWayState, message: string, renders: seq<Deps>, compile: string -> CreateResult, code: string)
    requires message != [] && code != []
    requires UpdateAll(RuntimeFailure(s, message), renders, compile).key == s.key
    ensures Display(UpdateAll(RuntimeFailure(s, message), renders, compile), code, None).VisualizationError?
  {
    ErrorPersistsUntilSuccess(RuntimeFailure(s, message), renders, compile);
  }
}
