/** app/components/ErrorBoundary.tsx: a React error boundary. It starts with no
    error, captures the error a child throws while rendering (and reports it to
    `onError`), forgets it when its `resetKey` prop changes, and renders either
    an error surface or its children. An error is represented by its message. */
module ErrorBoundary {
  import opened Base

  datatype Variant = Red | Rose

  /** The props that affect the boundary's behaviour (`children` is opaque). */
  datatype BoundaryProps = BoundaryProps(resetKey: Option<int>, title: Option<string>, variant: Option<Variant>, hasOnError: bool)

  /** `ErrorBoundaryState`. */
  datatype BoundaryState = BoundaryState(hasError: bool, error: Option<string>)

  /** Lines 32-35: the constructor's state. */
  const InitialBoundary: BoundaryState := BoundaryState(false, None)

  /** The boundary's state after catching an error, and the message passed to
      `onError` if one was called. */
  datatype Caught = Caught(state: BoundaryState, notified: Option<string>)

  /** Lines 37-43: `getDerivedStateFromError` stores the error, then
      `componentDidCatch` reports it to `onError` when that prop is given. */
  function Capture(s: BoundaryState, props: BoundaryProps, error: string): (c: Caught)
    ensures c.state.hasError && c.state.error == Some(error)
    ensures c.notified.Some? <==> props.hasOnError
    ensures c.notified.Some? ==> c.notified.value == error
  {
    Caught(BoundaryState(true, Some(error)), if props.hasOnError then Some(error) else None)
  }

  /** Lines 45-49: `componentDidUpdate` clears the state exactly when `resetKey` changed. */
  function DidUpdate(s: BoundaryState, prevResetKey: Option<int>, resetKey: Option<int>): (r: BoundaryState)
    ensures prevResetKey != resetKey ==> r == InitialBoundary
    ensures prevResetKey == resetKey ==> r == s
  {
    if prevResetKey != resetKey then BoundaryState(false, None) else s
  }

  /** What the boundary renders. */
  datatype View = ErrorSurface(title: string, variant: Variant, message: Option<string>) | Children

  const DefaultTitle: string := "Error"

  /** Lines 51-63: the error surface with the title defaulting to "Error" and the
      variant to red, or the children unchanged. */
  function RenderView(s: BoundaryState, props: BoundaryProps): (v: View)
    ensures v.Children? <==> !s.hasError
    ensures v.ErrorSurface? ==> v.message == s.error
    ensures v.ErrorSurface? ==> v.title == props.title.GetOr(DefaultTitle) && v.variant == props.variant.GetOr(Red)
  {
    if s.hasError then ErrorSurface(props.title.GetOr(DefaultTitle), props.variant.GetOr(Red), s.error)
    else Children
  }

  /** Applies `DidUpdate` for a sequence of successive `resetKey` values. */
  function UpdateAll(s: BoundaryState, prevResetKey: Option<int>, keys: seq<Option<int>>): BoundaryState
    decreases |keys|
  {
    if keys == [] then s else UpdateAll(DidUpdate(s, prevResetKey, keys[0]), keys[0], keys[1..])
  }

  /** A captured error stays captured through any number of updates that keep the key. */
  lemma {:induction false} ErrorPersistsWhileKeyKept(s: BoundaryState, key: Option<int>, keys: seq<Option<int>>)
    requires forall i :: 0 <= i < |keys| ==> keys[i] == key
    ensures UpdateAll(s, key, keys) == s
    decreases |keys|
  {
    if keys != [] {
      ErrorPersistsWhileKeyKept(s, key, keys[1..]);
    }
  }

  /** After any update that changes the key, the boundary renders its children again. */
  lemma {:induction false} KeyChangeRestoresChildren(s: BoundaryState, prevResetKey: Option<int>, keys: seq<Option<int>>, props: BoundaryProps)
    requires keys != [] && keys[0] != prevResetKey
    requires forall i :: 0 < i < |keys| ==> keys[i] == keys[0]
    ensures RenderView(UpdateAll(s, prevResetKey, keys), props) == Children
  {
    ErrorPersistsWhileKeyKept(InitialBoundary, keys[0], keys[1..]);
  }
}
