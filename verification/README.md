# Symbolic override selection (mmdeploy `symbolic_register`)

A Dafny model of how mmdeploy chooses and installs custom ONNX symbolic
functions. The decorator `register_symbolic` files an implementation under a
registry key `func_name@backend@str(is_pytorch)`. When a model is exported,
`set_symbolic` makes one pass over the registry in insertion order. For each
entry it splits the key back into its three fields and applies the precedence
rule, building a dict from function name to the chosen implementation and
flag. It then installs each chosen override.

The model has five modules:

- `Results`: the `Option` and `Result` datatypes.
- `KeyCodec` (`key_codec.dfy`): Python's `str.split` and `str.join` for a
  one-character separator, the key encoding, and the three-field unpacking.
  The unpacking raises an error unless the key has exactly two '@'.
- `Resolution` (`resolution.dfy`): the first loop of `set_symbolic`, written
  as a left fold (`Resolve`) that produces an insertion-ordered dict
  (`Table`). It also holds an independent reference definition of the
  precedence (`Winner`): the last entry for the requested backend, or if there
  is none, the first `"default"` entry. The theorem `ResolveIsWinner` proves
  that the fold computes this reference.
- `Registration` (`registration.dfy`): what a single registration does to
  the result of the fold.
- `Build` (`build.dfy`): the second loop, and `set_symbolic` as a whole.
  Patching a non-pytorch function is a per-item step that may fail. A failed
  patch is logged and skipped, and the loop goes on.

Implementations are an opaque type parameter `I`. Whether patching a
non-pytorch function succeeds is a parameter `patchable`, because that
depends on importing and inspecting Python objects.

Two corners of the precedence are easy to miss. First, a `"default"` entry
loses to a backend entry registered either before or after it. Second, when
the requested backend is itself `"default"`, every default entry takes the
overwrite branch, so the LAST default wins rather than the first. The code is
followed here, and `DefaultBackendTakesLastDefault` states this case.

## Model

| member | source | states |
|---|---|---|
| KeyCodec.Split | mmdeploy/core/rewriters/symbolic_register.py:29 | `str.split` on '@' yields at least one field, and no field contains '@' |
| KeyCodec.JoinSplit | mmdeploy/core/rewriters/symbolic_register.py:29 | joining the fields of any split with the separator gives back the original key |
| KeyCodec.SplitJoin | mmdeploy/core/rewriters/symbolic_register.py:119 | splitting a join of one or more '@'-free fields gives back exactly those fields |
| KeyCodec.SplitCount | mmdeploy/core/rewriters/symbolic_register.py:29 | a split has exactly one field more than the key has '@' characters |
| KeyCodec.DecodeKey | mmdeploy/core/rewriters/symbolic_register.py:29-34 | unpacking succeeds iff the key has exactly two '@'; the name and backend then hold no '@'; otherwise the error reports the key and its field count |
| KeyCodec.DecodeJoined | mmdeploy/core/rewriters/symbolic_register.py:29-34 | three '@'-free fields joined by '@' decode to those fields, and the flag is true iff the third field is exactly "True" |
| KeyCodec.KeyRoundTrip | mmdeploy/core/rewriters/symbolic_register.py:119 | for an '@'-free name and backend, decoding the key built at line 119 recovers the name, the backend and the flag (read back with == 'True' at line 34) |
| KeyCodec.KeyWithSeparatorRejected | mmdeploy/core/rewriters/symbolic_register.py:119 | a name or backend containing '@' yields a key with more than three fields, which the unpacking at line 29 rejects |
| KeyCodec.DecodedKeyShape | mmdeploy/core/rewriters/symbolic_register.py:29 | every decodable key is the join of its decoded name, its decoded backend and its third field |
| KeyCodec.ReencodeDecoded | mmdeploy/core/rewriters/symbolic_register.py:34 | re-encoding a decoded key reproduces it iff its third field is "True" or "False" |
| Resolution.Store | mmdeploy/core/rewriters/symbolic_register.py:33 | a dict assignment keeps every name listed once: a new name is appended, and an existing name keeps its position |
| Resolution.Step | mmdeploy/core/rewriters/symbolic_register.py:29-34 | one iteration fails iff its key is malformed, with that key's error, and it keeps the dict well formed |
| Resolution.Resolve | mmdeploy/core/rewriters/symbolic_register.py:27-34 | the fold's dict is insertion-ordered, with every chosen name listed exactly once |
| Resolution.ResolveErrors | mmdeploy/core/rewriters/symbolic_register.py:28-29 | the pass succeeds iff every key decodes; otherwise it fails with the error of the first malformed key |
| Resolution.ResolveIsWinner | mmdeploy/core/rewriters/symbolic_register.py:27-34 | the dict holds a name iff the name has a winner (last entry for the requested backend, else first default), with that winner's implementation and its own decoded flag |
| Resolution.ResolvedNames | mmdeploy/core/rewriters/symbolic_register.py:28-34 | a name is chosen iff some entry registers it for the requested backend or for "default" |
| Resolution.LastBackendEntryWins | mmdeploy/core/rewriters/symbolic_register.py:30-34 | the last entry for the requested backend wins, whatever defaults come before or after it |
| Resolution.FirstDefaultWins | mmdeploy/core/rewriters/symbolic_register.py:30-34 | with no entry for the requested backend, the first "default" entry wins |
| Resolution.DefaultBackendTakesLastDefault | mmdeploy/core/rewriters/symbolic_register.py:30-34 | when the requested backend is "default", the last default entry wins |
| Resolution.ChosenFlagFromOwnKey | mmdeploy/core/rewriters/symbolic_register.py:33-34 | a chosen name's implementation and flag come from one single entry that registers that name for the requested backend or "default" |
| Resolution.IgnoredEntryIrrelevant | mmdeploy/core/rewriters/symbolic_register.py:30-33 | removing an entry for any other backend leaves the result unchanged, dict order included |
| Registration.OverrideTakesEffect | mmdeploy/core/rewriters/symbolic_register.py:112-122 | after a registration for the requested backend, that name resolves to the new implementation and flag |
| Registration.DefaultFillsGap | mmdeploy/core/rewriters/symbolic_register.py:112-122 | a "default" registration for a name with no choice yet becomes that name's choice |
| Registration.LateDefaultIgnored | mmdeploy/core/rewriters/symbolic_register.py:112-122 | a later "default" registration for an already chosen name changes nothing when the requested backend is not "default" |
| Registration.OtherBackendIgnored | mmdeploy/core/rewriters/symbolic_register.py:112-122 | a registration for a backend that is neither the requested one nor "default" changes nothing |
| Registration.SeparatorBreaksResolve | mmdeploy/core/rewriters/symbolic_register.py:119 | registering a name or backend containing '@' makes every later resolution fail, whatever backend is requested |
| Build.Process | mmdeploy/core/rewriters/symbolic_register.py:43-54 | a pytorch builtin is registered for the given opset; any other name is patched, or skipped exactly when patching fails; what is installed is the chosen implementation |
| Build.BuildSymbolics | mmdeploy/core/rewriters/symbolic_register.py:37-54 | every dict name is processed once, in dict order, whatever happened to earlier names; a pytorch name is registered at the given opset, any other is skipped exactly when patching fails, and what is installed is the dict's implementation |
| Build.SetSymbolic | mmdeploy/core/rewriters/symbolic_register.py:12-54 | a malformed key aborts before any install; otherwise exactly the names with a winner are processed, once each: registered at the given opset iff the winning entry's flag is set, otherwise skipped exactly when patching fails, installing the winning entry's implementation |

## Left out

- The mmcv `Registry` internals are not part of this model. This covers `register_module`, `build` and its handling of duplicate names. `RegisterSymbolic` therefore requires that the key is not registered yet, instead of modelling the registry's refusal.
- `parse_args`, `register_op` and constructing the wrapper with `cfg` (lines 39-44) are calls into torch and Python code that cannot be seen. The model assumes they do not raise. In the source, an exception from them is not caught and would abort the loop. Registration is recorded as an outcome naming the function, the opset and the implementation.
- `eval_with_import`, the `issubclass` assertion, and setting `symbolic` and `origin_func` (lines 47-52) are dynamic import and monkey-patching. All of them are inside the `try`, so together they are the parameter `patchable`. The saved `origin_func` is not modelled.
- The class built with `type(...)` and `SymbolicWrapper.__call__` (lines 60-78, 120) only forward calls. The registered implementation is an opaque value.
- `logging.warning` (line 54) is a side effect only. It appears as the `Skipped` outcome.
- `cfg`, `**kwargs` and `arg_descriptors` are passed through to foreign code, and no decision in the modelled logic depends on them.
- Python's default arguments (`backend='default'`, `opset=11`, `is_pytorch=False`) are not modelled as defaults. Callers pass every argument explicitly.
- Resolution.Resolve: the order of the dict's names is only proved to list each chosen name once. The model does not state which entry first inserted each name.
