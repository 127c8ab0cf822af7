/**
 The second loop of `set_symbolic` and the whole build. For every chosen name,
 in the dict's insertion order, a pytorch builtin is registered with the
 exporter for the given opset; any other name is looked up and patched, and a
 failed patch is logged and skipped without stopping the loop.
 */
module Build {
  import opened Results
  import opened KeyCodec
  import opened Resolution

  /** What happened to one chosen name, with the implementation installed. */
  datatype Outcome<I> =
    | Registered(name: string, opset: int, impl: I)  // registered as a pytorch builtin op
    | Patched(name: string, impl: I)                 // installed as the function's symbolic
    | Skipped(name: string)                          // patching failed; a warning was logged

  /** One item of the loop. `patchable(f)` says whether importing `f` gives
      an autograd Function that accepts the new symbolic. */
  function Process<I>(f: string, c: Choice<I>, opset: int, patchable: string -> bool): (o: Outcome<I>)
    ensures o.name == f
    ensures o.Registered? <==> c.isPytorch
    ensures o.Registered? ==> o.opset == opset
    ensures o.Skipped? <==> !c.isPytorch && !patchable(f)
    ensures !o.Skipped? ==> o.impl == c.impl
  {
    if c.isPytorch then Registered(f, opset, c.impl)
    else if patchable(f) then Patched(f, c.impl)
    else Skipped(f)
  }

  /** The loop over the dict: every name is processed, in order, whatever
      happened to the names before it. */
  method BuildSymbolics<I>(t: Table<I>, opset: int, patchable: string -> bool)
    returns (log: seq<Outcome<I>>)
    requires WellFormed(t)
    ensures |log| == |t.order|
    ensures forall i :: 0 <= i < |log| ==> log[i].name == t.order[i]
    ensures forall i :: 0 <= i < |log| ==>
              (log[i].Registered? <==> t.pick[t.order[i]].isPytorch)
    ensures forall i :: 0 <= i < |log| ==> log[i].Registered? ==> log[i].opset == opset
    ensures forall i :: 0 <= i < |log| ==>
              (log[i].Skipped? <==> !t.pick[t.order[i]].isPytorch && !patchable(t.order[i]))
    ensures forall i :: 0 <= i < |log| ==> !log[i].Skipped? ==> log[i].impl == t.pick[t.order[i]].impl
    ensures forall f :: f in t.pick <==> exists i :: 0 <= i < |log| && log[i].name == f
  {
    log := [];
    var i := 0;
    while i < |t.order|
      invariant 0 <= i <= |t.order|
      invariant |log| == i
      invariant forall k :: 0 <= k < i ==> log[k].name == t.order[k]
      invariant forall k :: 0 <= k < i ==> (log[k].Registered? <==> t.pick[t.order[k]].isPytorch)
      invariant forall k :: 0 <= k < i ==> log[k].Registered? ==> log[k].opset == opset
      invariant forall k :: 0 <= k < i ==>
                  (log[k].Skipped? <==> !t.pick[t.order[k]].isPytorch && !patchable(t.order[k]))
      invariant forall k :: 0 <= k < i ==> !log[k].Skipped? ==> log[k].impl == t.pick[t.order[k]].impl
    {
      var f := t.order[i];
      log := log + [Process(f, t.pick[f], opset, patchable)];
      i := i + 1;
    }
    forall f | f in t.pick
      ensures exists i :: 0 <= i < |log| && log[i].name == f
    {
      var i :| 0 <= i < |t.order| && t.order[i] == f;
      assert log[i].name == f;
    }
  }

  /** `set_symbolic`: resolve the registry, then build every chosen name.
      A malformed key raises before anything is built; otherwise every name
      with a winner is processed exactly once: registered at the given opset
      when its winning entry's flag is set, else patched, or skipped exactly
      when patching fails; what is installed is the winning entry's
      implementation. */
  method SetSymbolic<I>(reg: seq<Entry<I>>, backend: string, opset: int, patchable: string -> bool)
    returns (r: Result<seq<Outcome<I>>, KeyError>)
    ensures r.Ok? <==> AllValid(reg)
    ensures r.Err? ==> exists k :: 0 <= k < |reg| && DecodeKey(reg[k].0) == Err(r.error)
                                   && AllValid(reg[..k])
    ensures r.Ok? ==> forall f ::
              (exists i :: 0 <= i < |r.value| && r.value[i].name == f) <==> Winner(reg, backend, f).Some?
    ensures r.Ok? ==> forall i, j :: 0 <= i < j < |r.value| ==> r.value[i].name != r.value[j].name
    ensures r.Ok? ==> forall i :: 0 <= i < |r.value| ==>
              var o := r.value[i];
              var w := Winner(reg, backend, o.name);
              w.Some? && w.value < |reg| && DecodeKey(reg[w.value].0).Ok?
              && (o.Registered? <==> DecodeKey(reg[w.value].0).value.isPytorch)
              && (o.Registered? ==> o.opset == opset)
              && (o.Skipped? <==> !DecodeKey(reg[w.value].0).value.isPytorch && !patchable(o.name))
              && (!o.Skipped? ==> o.impl == reg[w.value].1)
  {
    ResolveErrors(reg, backend);
    match Resolve(reg, backend)
    case Err(err) =>
      r := Err(err);
    case Ok(t) =>
      ResolveIsWinner(reg, backend);
      var log := BuildSymbolics(t, opset, patchable);
      r := Ok(log);
  }
}
