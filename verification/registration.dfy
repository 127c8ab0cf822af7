/**
 `register_symbolic`: the decorator encodes its arguments into a registry key
 and registers the implementation under it, after every earlier entry. These
 lemmas state what one registration does to the outcome of `set_symbolic`.
 */
module Registration {
  import opened KeyCodec
  import opened Resolution

  /** The registry after registering `impl` under the key built from the
      decorator's arguments. The registry refuses a key it already holds,
      so that case is excluded. */
  function RegisterSymbolic<I>(
    reg: seq<Entry<I>>, funcName: string, backend: string, isPytorch: bool, impl: I)
    : (r: seq<Entry<I>>)
    requires forall k :: 0 <= k < |reg| ==> reg[k].0 != EncodeKey(funcName, backend, isPytorch)
  {
    reg + [(EncodeKey(funcName, backend, isPytorch), impl)]
  }

  /** Resolving a registry with one more entry is one more fold step. */
  lemma {:induction false} ResolveSnoc<I>(reg: seq<Entry<I>>, e: Entry<I>, backend: string)
    requires Resolve(reg, backend).Ok?
    ensures Resolve(reg + [e], backend) == Step(Resolve(reg, backend).value, e, backend)
  {
  }

  /** A registration for the requested backend takes effect, whatever was
      registered for that name before. */
  lemma {:induction false} OverrideTakesEffect<I>(
    reg: seq<Entry<I>>, funcName: string, backend: string, isPytorch: bool, impl: I)
    requires forall k :: 0 <= k < |reg| ==> reg[k].0 != EncodeKey(funcName, backend, isPytorch)
    requires Sep !in funcName && Sep !in backend
    requires Resolve(reg, backend).Ok?
    ensures var r := Resolve(RegisterSymbolic(reg, funcName, backend, isPytorch, impl), backend);
            r.Ok? && funcName in r.value.pick && r.value.pick[funcName] == Choice(impl, isPytorch)
  {
    KeyRoundTrip(funcName, backend, isPytorch);
    ResolveSnoc(reg, (EncodeKey(funcName, backend, isPytorch), impl), backend);
  }

  /** A "default" registration is taken for a name nothing was chosen for. */
  lemma {:induction false} DefaultFillsGap<I>(
    reg: seq<Entry<I>>, funcName: string, backend: string, isPytorch: bool, impl: I)
    requires forall k :: 0 <= k < |reg| ==> reg[k].0 != EncodeKey(funcName, DefaultBackend, isPytorch)
    requires Sep !in funcName
    requires Resolve(reg, backend).Ok? && funcName !in Resolve(reg, backend).value.pick
    ensures var r := Resolve(RegisterSymbolic(reg, funcName, DefaultBackend, isPytorch, impl), backend);
            r.Ok? && funcName in r.value.pick && r.value.pick[funcName] == Choice(impl, isPytorch)
  {
    KeyRoundTrip(funcName, DefaultBackend, isPytorch);
    ResolveSnoc(reg, (EncodeKey(funcName, DefaultBackend, isPytorch), impl), backend);
  }

  /** A later "default" registration never displaces a name already chosen,
      unless "default" is itself the requested backend. */
  lemma {:induction false} LateDefaultIgnored<I>(
    reg: seq<Entry<I>>, funcName: string, backend: string, isPytorch: bool, impl: I)
    requires forall k :: 0 <= k < |reg| ==> reg[k].0 != EncodeKey(funcName, DefaultBackend, isPytorch)
    requires Sep !in funcName && backend != DefaultBackend
    requires Resolve(reg, backend).Ok? && funcName in Resolve(reg, backend).value.pick
    ensures Resolve(RegisterSymbolic(reg, funcName, DefaultBackend, isPytorch, impl), backend)
            == Resolve(reg, backend)
  {
    KeyRoundTrip(funcName, DefaultBackend, isPytorch);
    ResolveSnoc(reg, (EncodeKey(funcName, DefaultBackend, isPytorch), impl), backend);
  }

  /** A registration for some other backend leaves the outcome unchanged. */
  lemma {:induction false} OtherBackendIgnored<I>(
    reg: seq<Entry<I>>, funcName: string, other: string, isPytorch: bool, impl: I, backend: string)
    requires forall k :: 0 <= k < |reg| ==> reg[k].0 != EncodeKey(funcName, other, isPytorch)
    requires Sep !in funcName && Sep !in other
    requires other != backend && other != DefaultBackend
    requires Resolve(reg, backend).Ok?
    ensures Resolve(RegisterSymbolic(reg, funcName, other, isPytorch, impl), backend)
            == Resolve(reg, backend)
  {
    KeyRoundTrip(funcName, other, isPytorch);
    ResolveSnoc(reg, (EncodeKey(funcName, other, isPytorch), impl), backend);
  }

  /** Registering a name or backend that holds '@' makes every later
      `set_symbolic` raise, whichever backend it is asked for. */
  lemma {:induction false} SeparatorBreaksResolve<I>(
    reg: seq<Entry<I>>, funcName: string, backend: string, isPytorch: bool, impl: I, requested: string)
    requires forall k :: 0 <= k < |reg| ==> reg[k].0 != EncodeKey(funcName, backend, isPytorch)
    requires Sep in funcName || Sep in backend
    ensures Resolve(RegisterSymbolic(reg, funcName, backend, isPytorch, impl), requested).Err?
  {
    var r := RegisterSymbolic(reg, funcName, backend, isPytorch, impl);
    KeyWithSeparatorRejected(funcName, backend, isPytorch);
    ResolveErrors(r, requested);
    assert !DecodeKey(r[|reg|].0).Ok?;
  }
}
