/**
 The first loop of `set_symbolic`: one ordered pass over the registry that
 decodes every key and builds `valid_symbolic_dict`, a map from function name
 to the chosen implementation and its `is_pytorch` flag. An entry for the
 requested backend always overwrites; a "default" entry is taken only while
 nothing is chosen for its name; any other entry is ignored.
 */
module Resolution {
  import opened Results
  import opened KeyCodec

  /** The backend name of fall-back overrides. */
  const DefaultBackend: string := "default"

  /** A registry entry: its key and the registered implementation, in the
      registry's insertion order. */
  type Entry<I> = (string, I)

  /** The value stored in `valid_symbolic_dict`. */
  datatype Choice<I> = Choice(impl: I, isPytorch: bool)

  /** `valid_symbolic_dict`, an insertion-ordered dict: `order` lists its
      names in first-insertion order, `pick` holds their values. */
  datatype Table<I> = Table(order: seq<string>, pick: map<string, Choice<I>>)

  /** The order lists every name of the dict exactly once. */
  ghost predicate WellFormed<I>(t: Table<I>)
  {
    && (forall i, j :: 0 <= i < j < |t.order| ==> t.order[i] != t.order[j])
    && (forall f :: f in t.pick <==> f in t.order)
  }

  /** Storing into an insertion-ordered dict: a new name goes to the end,
      an existing name keeps its position. */
  function Store<I>(t: Table<I>, f: string, c: Choice<I>): (r: Table<I>)
    requires WellFormed(t)
    ensures WellFormed(r)
    ensures r.pick == t.pick[f := c]
    ensures |r.order| == |t.order| + (if f in t.pick then 0 else 1)
    ensures r.order[..|t.order|] == t.order
  {
    if f in t.pick then Table(t.order, t.pick[f := c])
    else Table(t.order + [f], t.pick[f := c])
  }

  /** One iteration of the loop: decode the key (raising on a malformed
      one) and apply the precedence rule. */
  function Step<I>(t: Table<I>, e: Entry<I>, backend: string): (r: Result<Table<I>, KeyError>)
    requires WellFormed(t)
    ensures r.Ok? <==> DecodeKey(e.0).Ok?
    ensures r.Err? ==> r.error == DecodeKey(e.0).error
    ensures r.Ok? ==> WellFormed(r.value)
  {
    match DecodeKey(e.0)
    case Err(err) => Err(err)
    case Ok(k) =>
      if k.backend == backend || (k.backend == DefaultBackend && k.funcName !in t.pick)
      then Ok(Store(t, k.funcName, Choice(e.1, k.isPytorch)))
      else Ok(t)
  }

  /** The whole loop, as a left fold over the registry; the first malformed
      key aborts it. */
  function Resolve<I>(reg: seq<Entry<I>>, backend: string): (r: Result<Table<I>, KeyError>)
    ensures r.Ok? ==> WellFormed(r.value)
  {
    if |reg| == 0 then Ok(Table([], map[]))
    else
      match Resolve(reg[..|reg| - 1], backend)
      case Err(err) => Err(err)
      case Ok(t) => Step(t, reg[|reg| - 1], backend)
  }

  // ---------------------------------------------------------------------
  // The reference precedence, stated independently of the fold.

  /** Entry `e` is a well-formed registration of `funcName` for `backend`. */
  predicate Registers<I>(e: Entry<I>, funcName: string, backend: string)
  {
    DecodeKey(e.0).Ok?
    && DecodeKey(e.0).value.funcName == funcName
    && DecodeKey(e.0).value.backend == backend
  }

  /** Every key of the registry can be decoded. */
  predicate AllValid<I>(reg: seq<Entry<I>>)
  {
    forall k :: 0 <= k < |reg| ==> DecodeKey(reg[k].0).Ok?
  }

  /** Index of the last registration of `funcName` for `backend`. */
  function LastFor<I>(reg: seq<Entry<I>>, funcName: string, backend: string): (r: Option<nat>)
    ensures r.Some? ==> r.value < |reg| && Registers(reg[r.value], funcName, backend)
    ensures r.Some? ==> forall k :: r.value < k < |reg| ==> !Registers(reg[k], funcName, backend)
    ensures r.None? <==> forall k :: 0 <= k < |reg| ==> !Registers(reg[k], funcName, backend)
  {
    if |reg| == 0 then None
    else if Registers(reg[|reg| - 1], funcName, backend) then Some(|reg| - 1)
    else LastFor(reg[..|reg| - 1], funcName, backend)
  }

  /** Index of the first registration of `funcName` for `backend`. */
  function FirstFor<I>(reg: seq<Entry<I>>, funcName: string, backend: string): (r: Option<nat>)
    ensures r.Some? ==> r.value < |reg| && Registers(reg[r.value], funcName, backend)
    ensures r.Some? ==> forall k :: 0 <= k < r.value ==> !Registers(reg[k], funcName, backend)
    ensures r.None? <==> forall k :: 0 <= k < |reg| ==> !Registers(reg[k], funcName, backend)
  {
    if |reg| == 0 then None
    else
      match FirstFor(reg[..|reg| - 1], funcName, backend)
      case Some(j) => Some(j)
      case None =>
        if Registers(reg[|reg| - 1], funcName, backend) then Some(|reg| - 1) else None
  }

  /** The intended winner for `funcName`: the last entry for the requested
      backend, or failing that the first "default" entry. */
  function Winner<I>(reg: seq<Entry<I>>, backend: string, funcName: string): Option<nat>
  {
    match LastFor(reg, funcName, backend)
    case Some(j) => Some(j)
    case None => FirstFor(reg, funcName, DefaultBackend)
  }

  /** The dict value the entry at index `j` would contribute. */
  function ChoiceAt<I>(reg: seq<Entry<I>>, j: nat): Choice<I>
    requires j < |reg| && DecodeKey(reg[j].0).Ok?
  {
    Choice(reg[j].1, DecodeKey(reg[j].0).value.isPytorch)
  }

  /** The winner changes with one more entry only as the precedence rule says. */
  lemma {:induction false} WinnerExtend<I>(reg: seq<Entry<I>>, backend: string, f: string)
    requires |reg| > 0 && DecodeKey(reg[|reg| - 1].0).Ok?
    ensures var p := reg[..|reg| - 1];
            var k := DecodeKey(reg[|reg| - 1].0).value;
            Winner(reg, backend, f)
            == if k.funcName != f then Winner(p, backend, f)
               else if k.backend == backend then Some(|reg| - 1)
               else if k.backend == DefaultBackend && Winner(p, backend, f).None? then Some(|reg| - 1)
               else Winner(p, backend, f)
  {
  }

  /** The fold fails exactly when some key is malformed, and then with the
      error of the first malformed key. */
  lemma {:induction false} ResolveErrors<I>(reg: seq<Entry<I>>, backend: string)
    ensures Resolve(reg, backend).Ok? <==> AllValid(reg)
    ensures Resolve(reg, backend).Err? ==>
              exists k :: 0 <= k < |reg|
                && DecodeKey(reg[k].0) == Err(Resolve(reg, backend).error)
                && AllValid(reg[..k])
  {
    if |reg| > 0 {
      var p := reg[..|reg| - 1];
      ResolveErrors(p, backend);
      assert forall k :: 0 <= k < |p| ==> p[k] == reg[k];
      match Resolve(p, backend)
      case Err(err) =>
        var k :| 0 <= k < |p| && DecodeKey(p[k].0) == Err(err) && AllValid(p[..k]);
        assert p[..k] == reg[..k];
      case Ok(t) =>
        assert reg[..|p|] == p;
    }
  }

  /** Main theorem: the fold computes the reference precedence. A name is in
      the dict exactly when it has a winner, and holds the winner's
      implementation with the flag decoded from the winner's own key. */
  lemma {:induction false} ResolveIsWinner<I>(reg: seq<Entry<I>>, backend: string)
    requires AllValid(reg)
    ensures Resolve(reg, backend).Ok?
    ensures forall f :: f in Resolve(reg, backend).value.pick <==> Winner(reg, backend, f).Some?
    ensures forall f :: f in Resolve(reg, backend).value.pick ==>
              Winner(reg, backend, f).Some? && Winner(reg, backend, f).value < |reg|
              && Resolve(reg, backend).value.pick[f] == ChoiceAt(reg, Winner(reg, backend, f).value)
  {
    ResolveErrors(reg, backend);
    if |reg| > 0 {
      var n := |reg| - 1;
      var p := reg[..n];
      assert forall k :: 0 <= k < n ==> p[k] == reg[k];
      ResolveIsWinner(p, backend);
      var t := Resolve(p, backend).value;
      var m := Resolve(reg, backend).value.pick;
      var k := DecodeKey(reg[n].0).value;
      assert Resolve(reg, backend) == Step(t, reg[n], backend);
      forall f
        ensures f in m <==> Winner(reg, backend, f).Some?
        ensures f in m ==>
                  Winner(reg, backend, f).Some? && Winner(reg, backend, f).value < |reg|
                  && m[f] == ChoiceAt(reg, Winner(reg, backend, f).value)
      {
        WinnerExtend(reg, backend, f);
        if f in t.pick {
          var j := Winner(p, backend, f).value;
          assert ChoiceAt(p, j) == ChoiceAt(reg, j);
        }
      }
    }
  }

  // ---------------------------------------------------------------------
  // The corners of the precedence, each stated on its own.

  /** A name is chosen exactly when some entry registers it for the
      requested backend or for "default". */
  lemma {:induction false} ResolvedNames<I>(reg: seq<Entry<I>>, backend: string, f: string)
    requires AllValid(reg)
    ensures Resolve(reg, backend).Ok?
    ensures f in Resolve(reg, backend).value.pick <==>
              exists j :: 0 <= j < |reg|
                && (Registers(reg[j], f, backend) || Registers(reg[j], f, DefaultBackend))
  {
    ResolveIsWinner(reg, backend);
  }

  /** The last entry for the requested backend wins, whatever defaults come
      before or after it. */
  lemma {:induction false} LastBackendEntryWins<I>(reg: seq<Entry<I>>, backend: string, f: string, j: nat)
    requires AllValid(reg)
    requires j < |reg| && Registers(reg[j], f, backend)
    requires forall k :: j < k < |reg| ==> !Registers(reg[k], f, backend)
    ensures Resolve(reg, backend).Ok?
    ensures f in Resolve(reg, backend).value.pick
    ensures Resolve(reg, backend).value.pick[f] == ChoiceAt(reg, j)
  {
    ResolveIsWinner(reg, backend);
    var w := LastFor(reg, f, backend);
    assert w.Some?;
    assert w.value == j;
  }

  /** With no entry for the requested backend, the first "default" entry
      wins. */
  lemma {:induction false} FirstDefaultWins<I>(reg: seq<Entry<I>>, backend: string, f: string, j: nat)
    requires AllValid(reg)
    requires forall k :: 0 <= k < |reg| ==> !Registers(reg[k], f, backend)
    requires j < |reg| && Registers(reg[j], f, DefaultBackend)
    requires forall k :: 0 <= k < j ==> !Registers(reg[k], f, DefaultBackend)
    ensures Resolve(reg, backend).Ok?
    ensures f in Resolve(reg, backend).value.pick
    ensures Resolve(reg, backend).value.pick[f] == ChoiceAt(reg, j)
  {
    ResolveIsWinner(reg, backend);
    var w := FirstFor(reg, f, DefaultBackend);
    assert w.Some?;
    assert w.value == j;
  }

  /** When "default" is itself the requested backend, the last "default"
      entry wins rather than the first. */
  lemma {:induction false} DefaultBackendTakesLastDefault<I>(reg: seq<Entry<I>>, f: string, j: nat)
    requires AllValid(reg)
    requires j < |reg| && Registers(reg[j], f, DefaultBackend)
    requires forall k :: j < k < |reg| ==> !Registers(reg[k], f, DefaultBackend)
    ensures Resolve(reg, DefaultBackend).Ok?
    ensures f in Resolve(reg, DefaultBackend).value.pick
    ensures Resolve(reg, DefaultBackend).value.pick[f] == ChoiceAt(reg, j)
  {
    LastBackendEntryWins(reg, DefaultBackend, f, j);
  }

  /** The flag stored for a chosen name is decoded from the key of an entry
      that registers that very name, for the requested backend or "default",
      together with that entry's implementation. */
  lemma {:induction false} ChosenFlagFromOwnKey<I>(reg: seq<Entry<I>>, backend: string, f: string)
    requires Resolve(reg, backend).Ok? && f in Resolve(reg, backend).value.pick
    ensures exists j :: 0 <= j < |reg|
              && (Registers(reg[j], f, backend) || Registers(reg[j], f, DefaultBackend))
              && Resolve(reg, backend).value.pick[f]
                 == Choice(reg[j].1, DecodeKey(reg[j].0).value.isPytorch)
  {
    ResolveErrors(reg, backend);
    ResolveIsWinner(reg, backend);
    var j := Winner(reg, backend, f).value;
    assert Registers(reg[j], f, backend) || Registers(reg[j], f, DefaultBackend);
  }

  /** An entry for neither the requested backend nor "default" contributes
      nothing: removing it leaves the outcome, the dict's order included,
      unchanged. */
  lemma {:induction false} IgnoredEntryIrrelevant<I>(
    a: seq<Entry<I>>, e: Entry<I>, c: seq<Entry<I>>, backend: string)
    requires DecodeKey(e.0).Ok?
    requires DecodeKey(e.0).value.backend != backend
    requires DecodeKey(e.0).value.backend != DefaultBackend
    ensures Resolve(a + [e] + c, backend) == Resolve(a + c, backend)
    decreases |c|
  {
    if |c| == 0 {
      assert a + [e] + c == a + [e];
      assert (a + [e])[..|a|] == a;
      assert a + c == a;
    } else {
      var c' := c[..|c| - 1];
      IgnoredEntryIrrelevant(a, e, c', backend);
      assert (a + [e] + c)[..|a + [e] + c| - 1] == a + [e] + c';
      assert (a + c)[..|a + c| - 1] == a + c';
      assert (a + [e] + c)[|a + [e] + c| - 1] == c[|c| - 1];
      assert (a + c)[|a + c| - 1] == c[|c| - 1];
    }
  }
}
