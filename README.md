# DFA engine: a verified Dafny model

This project models the deterministic finite automaton engine in `automata_dfa.py`. That file holds the `DFA` class and its example factory `example_ends_with_ab`. The engine:

- stores a state set, an alphabet, a nested transition table (source to symbol to target), an optional start state, an accept set and an optional simulation cursor `current`;
- builds an automaton from a caller's definition, adding every transition source and target as a state;
- can complete the table to a total function by adding an absorbing `__DEAD__` state;
- lets the caller add states and transitions later;
- simulates runs with `reset`, `step`, `run` and `accepts`. These move only `current` and report failure as `None`.

Files:

- `wrappers.dfy`: `Option`, the model of Python's `None`-or-value.
- `sorted_strings.dfy`: the order Python's `sorted` gives strings (lexicographic by code point, a proper prefix first). It also sorts a set of strings into a strictly increasing sequence, which `to_dict` needs.
- `dfa_spec.dfy` (module `DfaSpec`): the structural definition as the datatype `Automaton`, and the meaning of each operation as a pure function. These are `Build`, `Complete`, `WithState`, `WithTransition`, `Next`, `Fold`, `Run` and `Acceptance`. The lemmas state what the operations promise: totality, closure, dead-state absorption, the no-op and idempotence of completion, that completion preserves the language, and the short-circuit on invalid symbols.
- `dfa_engine.dfy` (module `DfaEngine`): the class `Dfa` with the source's six fields. Its methods update the fields in place, with loops and loop invariants. Each public mutating method (the constructor, `AddState`, `AddTransition` and `MakeTotal`) is proved to leave `Definition()` equal to the matching `DfaSpec` function of the old definition. The helpers they call are specified field by field, and `NeedsDeadState` changes nothing. Simulation methods change only `current`.
- `ends_with_ab.dfy`: the example factory. A lemma proves that its automaton accepts exactly the inputs over {a, b} that end in "ab", and that any other symbol makes the answer undefined.

Python's three-valued answer from `accepts` (True, False, None) is the datatype `Verdict = Accepted | Rejected | Undefined`. `Undefined` covers both ways `run` can return `None`:

- a symbol outside the alphabet;
- a cursor that is unset, or that fell off a missing table entry.

## Model

| member | source | states |
|---|---|---|
| `DfaSpec.Build` | automata_dfa.py:28-57 | The constructed automaton is closed: every transition source and target is a state. It contains the caller's states, sources and targets, and at most `__DEAD__` besides. It keeps every entry of the caller's table, and keeps alphabet, start and accept as given. With `make_total` it is total; without it, the table is exactly the caller's. |
| `DfaEngine.Dfa.constructor` | automata_dfa.py:28-57 | The fields hold `Build(...)` of the arguments, and `current` is the start state (the final `reset`). `makeTotal` defaults to true, as `make_total` does. |
| `DfaEngine.Dfa.CopyRows` | automata_dfa.py:42-46 | After copying, the table equals the caller's and every source has joined the states. |
| `DfaEngine.Dfa.AddTargets` | automata_dfa.py:48-51 | Every target of every row has joined the states, and nothing else has. |
| `DfaEngine.Dfa.FromComponents` | automata_dfa.py:157-159 | Returns a fresh automaton equal to `Build(..., true)`. The result is total and closed, and its cursor is at start. |
| `DfaSpec.WithState` | automata_dfa.py:60-63 | `add_state` adds the name to the states. It adds the name to accept exactly when `is_accept` holds. Alphabet, table and start are unchanged, and closure is preserved. |
| `DfaSpec.WithStateIdempotent` | automata_dfa.py:60-63 | Adding the same state twice equals adding it once. |
| `DfaEngine.Dfa.AddState` | automata_dfa.py:60-63 | The fields become `WithState` of the old definition, and the cursor is untouched. `isAccept` defaults to false, as `is_accept` does. |
| `DfaSpec.WithTransition` | automata_dfa.py:65-69 | `add_transition` adds `src` and `tgt` to the states and the symbol to the alphabet. It makes `delta[src][symbol] == tgt` and leaves every other (state, symbol) lookup as it was. Start and accept are unchanged, and closure is preserved. |
| `DfaSpec.WithTransitionKeepsTotal` | automata_dfa.py:65-69 | A transition between known states on a known symbol keeps a total automaton total. Completion is not re-run, so nothing more is promised. |
| `DfaEngine.Dfa.AddTransition` | automata_dfa.py:65-69 | The fields become `WithTransition` of the old definition, and the cursor is untouched. |
| `DfaSpec.RowOf` | automata_dfa.py:79 | `delta.get(s, {})` holds exactly the symbols the table has an entry for at `s`, each with its entry's target; a missing state reads as an empty row. |
| `DfaSpec.Targets` | automata_dfa.py:48-51 | Holds every target of every entry of the table, and nothing that is not such a target. |
| `DfaSpec.WithRows` | automata_dfa.py:77-79 | Every state gets a row: existing rows are kept, and each state without one gets an empty row. No other key is added. |
| `DfaSpec.HasGap` | automata_dfa.py:85-93 | Some state has no entry for some symbol. A gap needs a non-empty state set and a non-empty alphabet. |
| `DfaSpec.NeedsDead` | automata_dfa.py:81-93 | The dead state is needed exactly when some pair is missing. The empty-alphabet return at line 82 never suppresses a needed dead state, since an empty alphabet has no gap. |
| `DfaSpec.FillRow` | automata_dfa.py:99-106 | `setdefault(a, dead)` over the alphabet: the row keeps every entry it had, and gains exactly the missing alphabet symbols, each mapped to the target. |
| `DfaSpec.FillTable` | automata_dfa.py:103-106 | Every row of a state is filled by `FillRow`. Rows of other keys stay, and the keys become the old keys plus the states. |
| `DfaSpec.Complete` | automata_dfa.py:71-106 | Completion makes the table total, with a row for every state. It never overwrites or removes an entry and never changes alphabet, start or accept. The states grow by exactly `__DEAD__` when the alphabet is non-empty and some pair is missing, and stay the same otherwise. Every previously missing pair, including those of the dead state, now maps to `__DEAD__`. Every new entry is such a pair. Closure is preserved. |
| `DfaSpec.CompleteNoOp` | automata_dfa.py:77-94 | Completing an automaton that is already total and has a row per state changes nothing, and adds no dead state. |
| `DfaSpec.CompleteIdempotent` | automata_dfa.py:71-106 | Completing twice equals completing once. |
| `DfaSpec.FillTableAfterDeadRow` | automata_dfa.py:99-106 | Filling the dead state's row first and then every state's row gives the same table as filling each row once. |
| `DfaSpec.SelfLoopAbsorbs` | automata_dfa.py:98-101 | A state whose every alphabet symbol leads back to itself is never left on input over the alphabet. |
| `DfaSpec.DeadAbsorbs` | automata_dfa.py:95-101 | Suppose a dead state was added and the caller had no row of that name. Then from `__DEAD__`, every input over the alphabet stays in `__DEAD__`. |
| `DfaSpec.CompleteFold` | automata_dfa.py:95-106 | In a closed automaton, on input over the alphabet and from a known state, a run that was defined is unchanged by completion. A run that was stuck on a missing entry now ends in `__DEAD__`. This assumes the caller had no state named `__DEAD__`. |
| `DfaSpec.CompletePreservesLanguage` | automata_dfa.py:71-106 | Assume a closed automaton, valid input, a start state among the states, and no caller state or accept state named `__DEAD__`. Then the completed automaton accepts exactly what the original accepted, and it never answers `Undefined`. |
| `DfaEngine.Dfa.MakeTotal` | automata_dfa.py:71-106 | The fields become `Complete` of the old definition, and the cursor is untouched. |
| `DfaEngine.Dfa.AddMissingRows` | automata_dfa.py:77-79 | Every state gets a row, an empty one where it had none. Existing rows are unchanged. |
| `DfaEngine.Dfa.NeedsDeadState` | automata_dfa.py:85-93 | The read-only scan answers true exactly when some (state, symbol) pair has no entry. |
| `DfaEngine.Dfa.AddDeadState` | automata_dfa.py:95-106 | `__DEAD__` joins the states. The table becomes the old one with every missing pair of every state, `__DEAD__` included, pointed at `__DEAD__`. |
| `DfaEngine.Dfa.FillRowToDead` | automata_dfa.py:99-101 | One row gains every missing alphabet symbol, mapped to `__DEAD__`. Its existing entries and all other rows are unchanged. |
| `DfaEngine.Dfa.FillRowsToDead` | automata_dfa.py:103-106 | Every state's row is filled to `__DEAD__`. Rows of keys that are not states are unchanged. |
| `DfaSpec.Next` | automata_dfa.py:120-123 | One step on a symbol in the alphabet: an unset cursor stays unset. From a state the result is defined exactly when the table has that entry, and then it is that entry. |
| `DfaSpec.Fold` | automata_dfa.py:131-135 | Stepping through the empty input leaves the cursor. A run ends in a state only if it started from one. |
| `DfaSpec.Lookup` | automata_dfa.py:122 | `delta.get(s, {}).get(a)` is defined exactly when the table has the entry, and then it is that entry. |
| `DfaSpec.ValidPrefix` | automata_dfa.py:130-133 | Gives the length of the longest prefix inside the alphabet. The symbol just after it, if any, is outside the alphabet. |
| `DfaSpec.Run` | automata_dfa.py:125-135 | `run([])` is the start state. Any symbol outside the alphabet makes the result `None`. Otherwise the result is the left fold of `step` from start over the whole input. |
| `DfaSpec.Acceptance` | automata_dfa.py:137-145 | `accepts` is `Undefined` exactly when `run` is `None`. It is `Accepted` exactly when `run` ends in an accept state. |
| `DfaSpec.FoldAppend` | automata_dfa.py:131-135 | Stepping through `u` and then through `v` equals stepping through `u + v`. |
| `DfaSpec.FoldCons` | automata_dfa.py:131-135 | Stepping through `[a] + w` equals one step on `a` followed by stepping through `w`. |
| `DfaSpec.FoldFromNone` | automata_dfa.py:120-121 | An unset cursor stays unset whatever is stepped. |
| `DfaSpec.RunShortCircuit` | automata_dfa.py:130-133 | A symbol outside the alphabet makes `run` `None` and `accepts` `Undefined`, whatever comes before or after it. |
| `DfaSpec.TotalRunDefined` | automata_dfa.py:118-123 | In a closed, total automaton, stepping from a known state through valid input always ends in a known state. |
| `DfaSpec.TotalOrStuck` | automata_dfa.py:118-123 | In a closed automaton, a run from a known state that is still defined is at a known state. |
| `DfaSpec.TotalAcceptsDefined` | automata_dfa.py:137-145 | A closed, total automaton whose start is a state never answers `Undefined` on valid input. |
| `DfaSpec.MissingEntryStalls` | automata_dfa.py:122 | If the start state has no entry for a valid symbol, `run` is `None` on every valid input that begins with it, and `accepts` is `Undefined`. This can happen on a partial table. |
| `DfaEngine.Dfa.Reset` | automata_dfa.py:109-110 | The cursor becomes the start state. |
| `DfaEngine.Dfa.Step` | automata_dfa.py:112-123 | A symbol outside the alphabet returns `None` and leaves the cursor. Otherwise the cursor takes one step: it stays `None` if unset, and becomes `None` on a missing entry. The new cursor is returned. |
| `DfaEngine.Dfa.Run` | automata_dfa.py:125-135 | Returns `DfaSpec.Run` of the definition, whatever the cursor was before. The cursor is left at the fold over the valid prefix of the input. |
| `DfaEngine.Dfa.Accepts` | automata_dfa.py:137-145 | Returns `Acceptance` of the definition, and the cursor is left as `Run` leaves it. |
| `DfaEngine.Dfa.ToDict` | automata_dfa.py:148-155 | States, alphabet and accept come out strictly sorted, with exactly the elements of their sets. There is one row per state, equal to `delta.get(s, {})`. The start is included and the cursor is not. As a function, it changes nothing. |
| `SortedStrings.Sort` | automata_dfa.py:150-154 | `sorted` of a set of strings is strictly increasing, holds exactly the set's elements, and has the set's size. |
| `SortedStrings.LeastExists` | automata_dfa.py:150-154 | Every non-empty finite set of strings has a least element in Python's string order. |
| `EndsWithAb.ExampleEndsWithAb` | automata_dfa.py:165-176 | Returns a fresh automaton whose definition is exactly the example's states, alphabet, table, start and accept set, with nothing added by completion. |
| `EndsWithAb.BuildIsComponents` | automata_dfa.py:165-176 | Construction adds no state and no entry to the example: it is already closed and total. |
| `EndsWithAb.AcceptsExactlyEndsInAb` | automata_dfa.py:165-176 | The example accepts exactly the inputs over {a, b} that end in "ab". It rejects every other input over {a, b}, and any other symbol makes the answer `Undefined`. |
| `EndsWithAb.SampleInputs` | automata_dfa.py:182-185 | On the sample inputs: "ab" and "aab" are accepted; "aba", "b" and "" are rejected; "ac" is `Undefined`. |

## Left out

- `__repr__` (automata_dfa.py:161-162) is left out because it only formats a string.
- The `__main__` demo (automata_dfa.py:179-185) is left out because it prints. Its inputs are stated and proved in `EndsWithAb.SampleInputs`.
- `main.py` is not part of this model. It is a tkinter window: widgets, dialogs, colours, a timestamped log, and heuristic rewriting of typed phrases into symbols. It only calls the engine.
- States and symbols are modelled as strings, as the source's type hints say. Python would accept any hashable value.
- The constructor's `None` defaults for the collections are passed as empty sets. An absent start is `None`.
- `run`/`accepts` accept any iterable in Python, including a `str` read character by character. Here the input is a `seq<Symbol>`.
- Dafny maps are values, so the defensive copy of the caller's table and the absence of aliasing between the engine and the caller hold by construction. The loops still copy row by row, as the source does.
- The loops take set elements in an unspecified order, like Python's set iteration. Each method's postcondition fixes its result, so the result does not depend on that order.
- `DfaEngine.Dfa.ToDict`: the order of keys in the returned `delta` dict (sorted insertion order in Python) is not modelled. The snapshot's `delta` is an unordered map with exactly the same keys and rows.
- Python's `RuntimeError` on changing a set while iterating over it cannot arise here. The Dafny loops iterate over snapshot values, as the source does by copying into a list.

Behaviour of the code the model keeps:

- The code does not require `accept ⊆ states`, and nothing stops `__DEAD__` from being an accept state. A caller may pass `__DEAD__` or unknown states as accept states. `Complete` keeps `accept` unchanged, and `CompletePreservesLanguage` assumes `__DEAD__` is not an accept state.
- A caller's own state named `__DEAD__` keeps its existing entries. Only its missing pairs are pointed at `__DEAD__`. So it need not be absorbing. `DeadAbsorbs` assumes no caller row named `__DEAD__`, and `CompleteFold` assumes no caller state of that name.
- The start state is not added to `states` unless it is `__DEAD__` and completion adds the dead state. In that case the run stays in `__DEAD__` on valid input (`DeadAbsorbs`). Otherwise an unknown start gets no row from completion, and a run on non-empty valid input ends in `None` (`MissingEntryStalls`).
