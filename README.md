# Round-robin picker

A Dafny model of the round-robin candidate picker of the endpoint picker's
scheduler (`RoundRobinPicker` in
`pkg/epp/scheduling/plugins/picker/roundrobin_picker.go`). The picker holds
one unsigned 64-bit counter, `currentIndex`, which starts at 0. Each `Pick`
on a non-empty list of scored pods atomically adds one to the counter, takes
back the value it had before, and returns the pod at that value modulo the
list length. An empty list gives an empty result and leaves the counter
untouched. `Name` returns the registration name `"roundrobin"`.

Files:

- `wrappers.dfy`: `Option`. `None` stands for a `Result` with no target pod.
- `uint64.dfy`: Go's `uint64` as a newtype over `int`, with `+` and `-`
  wrapping explicitly modulo 2^64.
- `roundrobin_picker.dfy`: module `Picker`. It holds the index computation
  `Slot` and the picker's transition `Step`, which is the specification
  function. It also holds the class `RoundRobinPicker` with its field
  `currentIndex`, the constructor (Go's zero value), `Name`, and `Pick`.
  `Pick` mutates the field in place and is proved equal to `Step`.
- `rotation.dfy`: module `Rotation`. `Run` iterates `Step` over a sequence
  of calls. The lemmas say which index each call uses, when the lists' lengths
  change, when empty lists come in between, and when the counter is at the
  wrap point. They also show that one cycle visits every position once. A
  client method drives a fresh picker through a fixed scenario.

Pods are a type parameter of `Pick`, so nothing is assumed about them. The
calls `uint64(len(scoredPods))` and `int(...)` at line 47 are exact for
every length a Go slice can have, since a length is at most 2^63-1. So the
model computes `current mod |pods|` with no bound on `|pods|`. An input list
is a `seq`, which is a value, so "the picker does not modify its input"
holds by construction.

## Model

| member | source | states |
|---|---|---|
| Uint64.WrapAdd | pkg/epp/scheduling/plugins/picker/roundrobin_picker.go:46 | uint64 addition gives the exact sum below 2^64 and the sum minus 2^64 past it |
| Uint64.WrapSub | pkg/epp/scheduling/plugins/picker/roundrobin_picker.go:46 | uint64 subtraction gives the exact difference when it is non-negative and wraps up by 2^64 when it is negative |
| Uint64.SubUndoesAdd | pkg/epp/scheduling/plugins/picker/roundrobin_picker.go:46 | `AddUint64(&x, d) - d` is the value `x` had before the add, including at the wrap point 2^64-1 |
| Picker.Slot | pkg/epp/scheduling/plugins/picker/roundrobin_picker.go:47 | the index `current mod n` is always below `n`, so the access at line 52 is in range for every counter value |
| Picker.Step | pkg/epp/scheduling/plugins/picker/roundrobin_picker.go:41-52 | a pick yields a pod exactly when the list is non-empty, and that pod is a member of the list; an empty list leaves the counter as it was; a non-empty one moves it to a new value whose predecessor is the old counter |
| Picker.RoundRobinPicker.constructor | pkg/epp/scheduling/plugins/picker/roundrobin_picker.go:31-34 | a new picker's counter is 0 |
| Picker.RoundRobinPicker.Name | pkg/epp/scheduling/plugins/picker/roundrobin_picker.go:36-38 | the name is the constant "roundrobin"; as a function without a reads clause it cannot depend on or change the counter |
| Picker.RoundRobinPicker.Pick | pkg/epp/scheduling/plugins/picker/roundrobin_picker.go:40-53 | an empty list gives `None` with the counter unchanged; otherwise the result is `pods[old counter mod len]` and the counter advances by one modulo 2^64; only `currentIndex` changes; result and new counter agree with `Step` |
| Rotation.Run | pkg/epp/scheduling/plugins/picker/roundrobin_picker.go:40-53 | successive calls give one result per call |
| Rotation.Advances | pkg/epp/scheduling/plugins/picker/roundrobin_picker.go:41-46 | the calls that advance the counter are at most the calls made |
| Rotation.RunCounter | pkg/epp/scheduling/plugins/picker/roundrobin_picker.go:41-46 | after a sequence of calls the counter is the start value plus the number of non-empty lists, modulo 2^64 |
| Rotation.RunPicks | pkg/epp/scheduling/plugins/picker/roundrobin_picker.go:41-52 | call `j` acts as one pick from the start counter advanced once per earlier non-empty list, modulo its own list's length |
| Rotation.AdvancesAllNonEmpty | pkg/epp/scheduling/plugins/picker/roundrobin_picker.go:41-46 | when no list is empty, every call advances the counter |
| Rotation.RunNonEmpty | pkg/epp/scheduling/plugins/picker/roundrobin_picker.go:46-52 | with non-empty lists of any changing lengths, call `j` returns `calls[j][((v + j) mod 2^64) mod len(calls[j])]`, an index in range for that call's list; the final counter is `(v + k) mod 2^64` |
| Rotation.RunSameLength | pkg/epp/scheduling/plugins/picker/roundrobin_picker.go:46-47 | `k` calls on lists of one length `n` from counter `v`, with no wrap on the way, use indices `(v + j) mod n` for `j` in `0..k-1` and leave the counter at `v + k` |
| Rotation.NextSlot | pkg/epp/scheduling/plugins/picker/roundrobin_picker.go:46-47 | below the wrap point, the next counter's index is the current index plus one, modulo `n` |
| Rotation.ConsecutivePicks | pkg/epp/scheduling/plugins/picker/roundrobin_picker.go:46-52 | two consecutive picks from lists of the same length `n`, counter below the wrap point, return positions `i` and `(i + 1) mod n` |
| Rotation.TwiceDiffers | pkg/epp/scheduling/plugins/picker/roundrobin_picker.go:46-47 | picking twice in a row from a list of two or more gives two different positions, so picks are not idempotent |
| Rotation.WrapPointRepeats | pkg/epp/scheduling/plugins/picker/roundrobin_picker.go:46-47 | at counter 2^64-1 with three candidates, this pick and the next (after the wrap to 0) both use index 0, so the rotation claim needs its no-wrap condition |
| Rotation.RunSingletons | pkg/epp/scheduling/plugins/picker/roundrobin_picker.go:47-52 | on lists of length 1 every pick returns the single element, from any counter |
| Rotation.RunAppend | pkg/epp/scheduling/plugins/picker/roundrobin_picker.go:40-53 | running `a` then `b` is running `a + b`: results concatenate and `b` starts from the counter `a` left |
| Rotation.EmptyCallSkipped | pkg/epp/scheduling/plugins/picker/roundrobin_picker.go:41-43 | inserting an empty list among the calls adds one `None` and changes no other result and not the final counter |
| Rotation.CycleVisitsEvery | pkg/epp/scheduling/plugins/picker/roundrobin_picker.go:46-52 | over `n` consecutive calls on one list of length `n` with no wrap, position `i` is returned at call `(i - v) mod n` |
| Rotation.CycleIndicesDistinct | pkg/epp/scheduling/plugins/picker/roundrobin_picker.go:46-47 | within one cycle of `n` calls the indices `(v + j) mod n` are pairwise distinct |
| Rotation.FreshPickerScenario | pkg/epp/scheduling/plugins/picker/roundrobin_picker.go:31-53 | a fresh picker given `[a, b, c]` four times, then an empty list, then `[x, y]`, returns `a, b, c, a`, nothing, then `x` |

## Left out

- Atomicity of `atomic.AddUint64` (line 46) and concurrent callers. The fetch-and-add is one sequential step: store `old + 1` modulo 2^64, then take back `old`. Linearizability and the "no two callers see the same value" guarantee under concurrency are not modelled.
- The debug log call (lines 49-50) and the scheduling context `ctx`. Logging only observes the choice and does not affect it.
- The internals of `types.SchedulingContext`, `types.ScoredPod` and `types.Result`, and the interface assertion `var _ plugins.Picker` (line 28). Those packages are not part of this model. Pods are an opaque type parameter, and a `Result` is an `Option` of its target pod.
- Picker.RoundRobinPicker.Pick: the result is `Option<Pod>`, not a pointer to a fresh `Result` struct. The model cannot express the identity of the returned struct.
