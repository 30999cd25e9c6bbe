/** app/components/CodeRepresentationPanel.tsx: the preview of the generated
    visualization. It shares the compile-slot logic of the sandbox preview,
    falls back to "Failed to create visualization", and puts the loading
    state before everything else, even before the empty-code placeholder. */
module CodeRepresentationPanel {
  import opened Base
  import opened BabelTransform
  import opened CompiledComponent
  import opened ErrorBoundary
  import opened PanelSlot

  const FallbackError: string := "Failed to create visualization"
  const PanelTitle: string := "Code Representation"
  const BoundaryTitle: string := "Visualization Error"

  /** `CodeRepresentationPanelProps`; absent optional props take their defaults. */
  datatype CodeRepresentationProps = CodeRepresentationProps(code: string, isLoading: Option<bool>, isReady: Option<bool>, showTitle: Option<bool>)

  datatype CodeRepresentationView =
    | Generating
    | Introduction
    | VisualizationError(message: string)
    | Live(component: nat, key: nat, boundary: View)
    | Waiting

  /** Lines 17-22: a render of the panel with its props. */
  function Step(p: PanelState, props: CodeRepresentationProps, compile: string -> CreateResult): (r: PanelState)
    ensures r.hook == Render(p.hook, props.code, props.isReady == Some(true), FallbackError, compile)
    ensures p.keySeen != Some(r.hook.slot.key) ==> r.runtimeError.None? && r.boundary == InitialBoundary
    ensures p.keySeen == Some(r.hook.slot.key) ==> r.runtimeError == p.runtimeError && r.boundary == p.boundary
  {
    Update(p, props.code, props.isReady.GetOr(false), FallbackError, compile)
  }

  function LiveBoundaryProps(key: nat): BoundaryProps {
    BoundaryProps(Some(key), Some(BoundaryTitle), Some(Rose), true)
  }

  /** Lines 24-58: the body the panel shows. */
  function Display(p: PanelState, props: CodeRepresentationProps): (v: CodeRepresentationView)
    ensures v == Generating <==> props.isLoading == Some(true)
    ensures v == Introduction <==> props.isLoading != Some(true) && props.code == []
    ensures v.VisualizationError? <==> props.isLoading != Some(true) && props.code != [] && Truthy(ShownError(p))
    ensures v.VisualizationError? ==> v.message == ShownError(p).value
    ensures v.Live? <==> props.isLoading != Some(true) && props.code != [] && !Truthy(ShownError(p))
                         && p.hook.slot.component.Some?
    ensures v.Live? ==> v.component == p.hook.slot.component.value && v.key == p.hook.slot.key
  {
    var error := ShownError(p);
    if props.isLoading == Some(true) then Generating
    else if props.code == [] then Introduction
    else if Truthy(error) then VisualizationError(error.value)
    else if p.hook.slot.component.Some? then
      Live(p.hook.slot.component.value, p.hook.slot.key, RenderView(p.boundary, LiveBoundaryProps(p.hook.slot.key)))
    else Waiting
  }

  /** Lines 62-66: the body is framed by a titled panel unless `showTitle` is false. */
  datatype Frame = Titled(title: string) | Bare

  function FrameOf(props: CodeRepresentationProps): (f: Frame)
    ensures f == Bare <==> props.showTitle == Some(false)
    ensures f.Titled? ==> f.title == PanelTitle
  {
    if props.showTitle.GetOr(true) then Titled(PanelTitle) else Bare
  }

  /** While loading, nothing else about the panel matters. */
  lemma LoadingFirst(p: PanelState, code: string, isReady: Option<bool>, showTitle: Option<bool>)
    ensures Display(p, CodeRepresentationProps(code, Some(true), isReady, showTitle)) == Generating
  {}

  /** When the live visualization throws, the panel shows the runtime error. */
  lemma RuntimeFailureShown(p: PanelState, props: CodeRepresentationProps, message: string)
    requires p.hook.slot.component.None? || p.hook.slot.error.None?
    requires Display(p, props).Live? && message != []
    ensures Display(RuntimeFailure(p, message), props) == VisualizationError(message)
  {}
}
