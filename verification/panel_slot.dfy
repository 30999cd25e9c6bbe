/** The preview logic shared by app/components/SandboxPanel.tsx and
    app/components/CodeRepresentationPanel.tsx: a compile slot
    (`useCompiledComponent`), a `runtimeError` that the panel's error boundary
    fills and that an effect on the compile key clears, and the error shown,
    which prefers the compile error. The boundary is mounted with
    `key={key}`, so a new compile key also mounts a fresh boundary. */
module PanelSlot {
  import opened Base
  import opened BabelTransform
  import opened CompiledComponent
  import opened ErrorBoundary

  /** The panel's state between renders. `keySeen` is the key the runtime-error
      effect last ran with (none before the first render). */
  datatype PanelState = PanelState(hook: Hook, runtimeError: Option<string>, keySeen: Option<nat>, boundary: BoundaryState)

  const InitialPanel: PanelState := PanelState(InitialHook, None, None, InitialBoundary)

  /** One render with new props and the effects it triggers: the compile effect,
      then, if the compile key changed, the reset of the runtime error and the
      remount of the boundary. */
  function Update(p: PanelState, code: string, isReady: bool, fallbackError: string, compile: string -> CreateResult): (r: PanelState)
    ensures r.hook == Render(p.hook, code, isReady, fallbackError, compile)
    ensures r.keySeen == Some(r.hook.slot.key)
    ensures p.keySeen != Some(r.hook.slot.key) ==> r.runtimeError.None? && r.boundary == InitialBoundary
    ensures p.keySeen == Some(r.hook.slot.key) ==> r.runtimeError == p.runtimeError && r.boundary == p.boundary
  {
    var h := Render(p.hook, code, isReady, fallbackError, compile);
    if p.keySeen != Some(h.slot.key) then PanelState(h, None, Some(h.slot.key), InitialBoundary)
    else PanelState(h, p.runtimeError, p.keySeen, p.boundary)
  }

  /** The rendered component throws: the boundary captures the error and its
      `onError` stores the message as the runtime error. */
  function RuntimeFailure(p: PanelState, message: string): (r: PanelState)
    ensures r.runtimeError == Some(message)
    ensures r.boundary.hasError && r.boundary.error == Some(message)
    ensures r.hook == p.hook && r.keySeen == p.keySeen
  {
    var caught := Capture(p.boundary, BoundaryProps(p.keySeen, None, None, true), message);
    PanelState(p.hook, caught.notified, p.keySeen, caught.state)
  }

  /** `compileError ?? runtimeError`. */
  function ShownError(p: PanelState): (e: Option<string>)
    ensures p.hook.slot.error.Some? ==> e == p.hook.slot.error
    ensures p.hook.slot.error.None? ==> e == p.runtimeError
  {
    if p.hook.slot.error.Some? then p.hook.slot.error else p.runtimeError
  }

  /** A runtime error survives renders until a compile succeeds. */
  lemma RuntimeErrorKeptUntilSuccess(p: PanelState, code: string, isReady: bool, fallbackError: string, compile: string -> CreateResult)
    requires p.keySeen == Some(p.hook.slot.key)
    ensures var r := Update(p, code, isReady, fallbackError, compile);
            r.runtimeError != p.runtimeError ==> r.hook.slot.key == p.hook.slot.key + 1 && r.runtimeError.None?
  {}

  /** A successful compile clears the runtime error and shows nothing but the component. */
  lemma SuccessClearsErrors(p: PanelState, code: string, isReady: bool, fallbackError: string, compile: string -> CreateResult)
    requires p.keySeen == Some(p.hook.slot.key)
    requires p.hook.deps != Some(Deps(code, isReady)) && code != [] && isReady && !CompileFailed(compile(code))
    ensures var r := Update(p, code, isReady, fallbackError, compile);
            ShownError(r).None? && r.hook.slot.component == compile(code).component && !r.boundary.hasError
  {}
}
