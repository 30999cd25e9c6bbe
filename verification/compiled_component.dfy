/** app/hooks/useCompiledComponent.ts: the compile slot of a preview panel.
    The hook holds a component, an error and a key; an effect that depends on
    `code` and `isReady` recompiles and updates them. A render of the hook is
    modelled as one transition: the effect runs exactly when its dependencies
    differ from the previous render's (always on the first render). The
    compiler is a parameter standing for `code => createComponent(code, React)`. */
module CompiledComponent {
  import opened Base
  import opened BabelTransform

  /** The three pieces of hook state. A component is identified by a number. */
  datatype Slot = Slot(component: Option<nat>, error: Option<string>, key: nat)

  /** Lines 11-13: no component, no error, key 0. */
  const InitialSlot: Slot := Slot(None, None, 0)

  /** The compiled result counts as a failure: an error is reported or no component came back. */
  predicate CompileFailed(result: CreateResult) {
    Truthy(result.error) || result.component.None?
  }

  /** Lines 15-31: one run of the effect. */
  function RunEffect(s: Slot, code: string, isReady: bool, fallbackError: string, compile: string -> CreateResult): (r: Slot)
    ensures r.component.None? || r.error.None?
    ensures r.key == s.key || r.key == s.key + 1
    ensures r.key == s.key + 1 <==> code != [] && isReady && !CompileFailed(compile(code))
    ensures code == [] || !isReady ==> r == Slot(None, None, s.key)
    ensures code != [] && isReady && CompileFailed(compile(code)) ==>
              r.component.None? && r.error == Some(compile(code).error.GetOr(fallbackError))
    ensures r.key == s.key + 1 ==> r.component == compile(code).component && r.error.None?
  {
    if code == [] || !isReady then Slot(None, None, s.key)
    else
      var result := compile(code);
      if CompileFailed(result) then Slot(None, Some(result.error.GetOr(fallbackError)), s.key)
      else Slot(result.component, None, s.key + 1)
  }

  /** The dependency list `[code, isReady]`. */
  datatype Deps = Deps(code: string, isReady: bool)

  /** The hook between renders: its state and the dependencies of the last effect run. */
  datatype Hook = Hook(slot: Slot, deps: Option<Deps>)

  const InitialHook: Hook := Hook(InitialSlot, None)

  /** One render of the hook with the given arguments. */
  function Render(h: Hook, code: string, isReady: bool, fallbackError: string, compile: string -> CreateResult): (r: Hook)
    ensures r.deps == Some(Deps(code, isReady))
    ensures h.deps == Some(Deps(code, isReady)) ==> r == h
    ensures h.deps != Some(Deps(code, isReady)) ==> r.slot == RunEffect(h.slot, code, isReady, fallbackError, compile)
  {
    if h.deps == Some(Deps(code, isReady)) then h
    else Hook(RunEffect(h.slot, code, isReady, fallbackError, compile), Some(Deps(code, isReady)))
  }

  /** The arguments of one render. */
  datatype Props = Props(code: string, isReady: bool)

  function RenderAll(h: Hook, renders: seq<Props>, fallbackError: string, compile: string -> CreateResult): Hook
    decreases |renders|
  {
    if renders == [] then h
    else RenderAll(Render(h, renders[0].code, renders[0].isReady, fallbackError, compile), renders[1..], fallbackError, compile)
  }

  /** The render ran the effect and the effect compiled successfully. */
  predicate CompiledOnRender(h: Hook, p: Props, compile: string -> CreateResult) {
    h.deps != Some(Deps(p.code, p.isReady)) && p.code != [] && p.isReady && !CompileFailed(compile(p.code))
  }

  /** The number of renders whose effect ran and compiled successfully. */
  function Successes(h: Hook, renders: seq<Props>, fallbackError: string, compile: string -> CreateResult): nat
    decreases |renders|
  {
    if renders == [] then 0
    else
      var next := Render(h, renders[0].code, renders[0].isReady, fallbackError, compile);
      (if CompiledOnRender(h, renders[0], compile) then 1 else 0) + Successes(next, renders[1..], fallbackError, compile)
  }

  /** The key counts successful compiles: it starts at 0 and only ever moves by one,
      on a success. */
  lemma {:induction false} KeyCountsSuccesses(h: Hook, renders: seq<Props>, fallbackError: string, compile: string -> CreateResult)
    ensures RenderAll(h, renders, fallbackError, compile).slot.key == h.slot.key + Successes(h, renders, fallbackError, compile)
    decreases |renders|
  {
    if renders != [] {
      var next := Render(h, renders[0].code, renders[0].isReady, fallbackError, compile);
      KeyCountsSuccesses(next, renders[1..], fallbackError, compile);
    }
  }

  /** Starting from the initial hook, component and error are never both set. */
  lemma {:induction false} NeverBothSet(h: Hook, renders: seq<Props>, fallbackError: string, compile: string -> CreateResult)
    requires h.slot.component.None? || h.slot.error.None?
    ensures RenderAll(h, renders, fallbackError, compile).slot.component.None?
         || RenderAll(h, renders, fallbackError, compile).slot.error.None?
    decreases |renders|
  {
    if renders != [] {
      NeverBothSet(Render(h, renders[0].code, renders[0].isReady, fallbackError, compile), renders[1..], fallbackError, compile);
    }
  }

  /** Rendering again with the same `code` and `isReady` does not recompile. */
  lemma RenderTwiceIsOnce(h: Hook, code: string, isReady: bool, fallbackError: string, compile: string -> CreateResult)
    ensures var once := Render(h, code, isReady, fallbackError, compile);
            Render(once, code, isReady, fallbackError, compile) == once
  {}

  /** With `createComponent` as the compiler, a failure always carries its own
      error, so the fallback text is never what the slot shows. */
  lemma FallbackUnusedWithCreateComponent(s: Slot, code: string, isReady: bool, fallbackError: string,
                                          babel: string -> BabelOutcome, execute: string -> Execution)
    ensures var compile := (c: string) => CreateComponent(babel, execute, c);
            var r := RunEffect(s, code, isReady, fallbackError, compile);
            r.error.Some? ==> r.error == CreateComponent(babel, execute, code).error
  {}
}
