/** app/components/SandboxPanel.tsx: the live preview of the generated
    component. Its compile slot falls back to "Failed to create component";
    what it shows is chosen in the order: no code, streaming, an error, the
    component inside an error boundary, waiting. */
module SandboxPanel {
  import opened Base
  import opened BabelTransform
  import opened CompiledComponent
  import opened ErrorBoundary
  import opened PanelSlot

  const FallbackError: string := "Failed to create component"
  const DefaultTitle: string := "Preview"
  const BoundaryTitle: string := "Render Error"

  /** `SandboxPanelProps`; absent optional props take their defaults. */
  datatype SandboxProps = SandboxProps(code: string, title: Option<string>, isStreaming: Option<bool>, isReady: Option<bool>)

  /** What the panel body shows. `Live` is the component rendered inside a
      boundary whose `key` and `resetKey` are the compile key. */
  datatype SandboxView =
    | NoComponent
    | Generating
    | CompilationError(message: string)
    | Live(component: nat, key: nat, boundary: View)
    | Waiting

  /** Lines 16-22: a render of the panel with its props. */
  function Step(p: PanelState, props: SandboxProps, compile: string -> CreateResult): (r: PanelState)
    ensures r.hook == Render(p.hook, props.code, props.isReady == Some(true), FallbackError, compile)
    ensures p.keySeen != Some(r.hook.slot.key) ==> r.runtimeError.None? && r.boundary == InitialBoundary
    ensures p.keySeen == Some(r.hook.slot.key) ==> r.runtimeError == p.runtimeError && r.boundary == p.boundary
  {
    Update(p, props.code, props.isReady.GetOr(false), FallbackError, compile)
  }

  /** The props of the boundary around the live component. */
  function LiveBoundaryProps(key: nat): BoundaryProps {
    BoundaryProps(Some(key), Some(BoundaryTitle), Some(Red), true)
  }

  /** Lines 24-51: the body the panel shows. */
  function Display(p: PanelState, props: SandboxProps): (v: SandboxView)
    ensures v == NoComponent <==> props.code == []
    ensures v == Generating <==> props.code != [] && props.isStreaming.GetOr(false)
    ensures v.CompilationError? <==> props.code != [] && !props.isStreaming.GetOr(false) && Truthy(ShownError(p))
    ensures v.CompilationError? ==> v.message == ShownError(p).value
    ensures v.Live? <==> props.code != [] && !props.isStreaming.GetOr(false) && !Truthy(ShownError(p))
                         && p.hook.slot.component.Some?
    ensures v.Live? ==> v.component == p.hook.slot.component.value && v.key == p.hook.slot.key
  {
    var error := ShownError(p);
    if props.code == [] then NoComponent
    else if props.isStreaming.GetOr(false) then Generating
    else if Truthy(error) then CompilationError(error.value)
    else if p.hook.slot.component.Some? then
      Live(p.hook.slot.component.value, p.hook.slot.key, RenderView(p.boundary, LiveBoundaryProps(p.hook.slot.key)))
    else Waiting
  }

  /** The panel frame's title. */
  function Title(props: SandboxProps): (t: string)
    ensures props.title.None? ==> t == DefaultTitle
  {
    props.title.GetOr(DefaultTitle)
  }

  /** A failed compile is shown with its error, and the fallback text when the
      compiler reported none. */
  lemma CompileFailureShown(p: PanelState, props: SandboxProps, compile: string -> CreateResult)
    requires props.code != [] && props.isReady == Some(true) && props.isStreaming != Some(true)
    requires p.hook.deps != Some(Deps(props.code, true)) && CompileFailed(compile(props.code))
    requires compile(props.code).error != Some([])
    ensures Display(Step(p, props, compile), props) == CompilationError(compile(props.code).error.GetOr(FallbackError))
  {}

  /** When the live component throws, the panel replaces it with the runtime
      error until the next successful compile. The slot never holds both a
      component and an error (`CompiledComponent.NeverBothSet`). */
  lemma RuntimeFailureShown(p: PanelState, props: SandboxProps, message: string)
    requires p.hook.slot.component.None? || p.hook.slot.error.None?
    requires Display(p, props).Live? && message != []
    ensures Display(RuntimeFailure(p, message), props) == CompilationError(message)
  {}
}
