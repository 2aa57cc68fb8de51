# fungen list methods, modelled in Dafny

fungen is a source-code generator for Go. Go has no generics here, so for a list type
`L` with elements `T` it emits methods on `L` from fixed templates. The methods are
Filter, PFilter, Each, EachI, DropWhile, TakeWhile, Take, Drop, Reduce and ReduceRight.
The expected template text in `fungen_test.go` holds the full Go body of each method,
together with the doc comment that states its contract. This project models those
bodies for any element type, over `seq<T>`, and proves that each one keeps its doc
comment's promise.

- `ListSpec.dfy` (module `ListSpec`) holds the reference definitions:
  - `Filtered`, the elements that satisfy a predicate, in order;
  - `FirstFalse`, the first index where a predicate fails;
  - `FoldLeft` and `FoldRight`;
  - the lemmas about these definitions (subsequence, multiplicities, idempotence,
    unique while-split, folds over concatenation, right fold versus reversed left fold,
    folds on a monoid).
- `ListMethods.dfy` (module `ListMethods`) has one member per emitted Go method.
  - The receiver `l` comes first, followed by the Go parameters in their order.
  - Every Go method whose body is a loop is a Dafny `method` with the same loop, proved
    against `ListSpec`.
  - Take and Drop are a single conditional over slice expressions in Go, so they are
    Dafny functions.
  - Callbacks are Dafny function values.

Each and EachI take callbacks that return nothing and act only through side effects.
The model treats that effect as a function from an external state `world` of some type
`S` to the new state. The state is threaded through the calls in the order the Go loop
makes them, so the final state is a left fold over `l`, or over `l` paired with its
indices for EachI. `EachCallsInOrder` and `EachIPassesIndices` plug in a callback that
only logs its arguments. They show that the log holds each element exactly once, in
index order, and for EachI that each element comes with its own zero-based index.

## Model

| member | source | states |
|---|---|---|
| ListMethods.Filter | fungen_test.go:13-22 | the loop's result is `Filtered(f, l)` and every element of it satisfies `f`; order, multiplicities and length are proved of `Filtered` by the lemmas below |
| ListSpec.FilteredCounts | fungen_test.go:15-21 | each value occurs in the filtered list as often as in `l` if `f` holds of it, and not at all otherwise |
| ListSpec.FilteredIsSubsequence | fungen_test.go:15-21 | the kept elements keep their original relative order |
| ListSpec.FilteredSound | fungen_test.go:15-21 | every kept element satisfies `f`, and the result is at most as long as `l` |
| ListSpec.FilteredIdentity | fungen_test.go:15-21 | Filter returns the list unchanged if and only if `f` holds of every element |
| ListSpec.FilteredIdempotent | fungen_test.go:13-22 | filtering an already filtered list with the same predicate changes nothing |
| ListSpec.FilteredAppend | fungen_test.go:16-20 | filtering `s + t` is filtering `s` followed by filtering `t`, which is why appending inside the loop is correct |
| ListSpec.FilteredSnoc | fungen_test.go:17-19 | one more loop step appends the element exactly when `f` holds of it |
| ListMethods.Each | fungen_test.go:70-76 | returns `l` unchanged; the callback's state after the loop is the left fold of the callback over `l` in index order |
| ListMethods.EachCallsInOrder | fungen_test.go:72-74 | with a logging callback, Each's log equals `l`: one call per element, in index order |
| ListMethods.EachI | fungen_test.go:91-97 | returns `l` unchanged; the callback's state is the left fold over the (index, element) pairs of `l` in index order |
| ListMethods.EachIPassesIndices | fungen_test.go:93-95 | with a logging callback, EachI's log has one entry per element and entry `i` is `(i, l[i])` |
| ListSpec.FoldLeftLogs | fungen_test.go:72-74 | a left fold of any logging callback appends the folded list to the log |
| ListSpec.FirstFalse | fungen_test.go:114-118 | the index of the first element failing `f` (or the length): every earlier element satisfies `f` and the element at it does not |
| ListMethods.DropWhile | fungen_test.go:112-121 | the result is the suffix of `l` from the first element failing `f`: what it drops all satisfies `f`, and it is empty or starts with an element failing `f` |
| ListMethods.TakeWhile | fungen_test.go:136-144 | the result is the prefix of `l` before the first element failing `f`: all its elements satisfy `f`, and it is the whole list or is followed by an element failing `f` |
| ListSpec.WhileSplit | fungen_test.go:112-144 | TakeWhile's result followed by DropWhile's result is the original list |
| ListSpec.WhileSplitUnique | fungen_test.go:112-144 | any split of `l` into an all-`f` prefix and a suffix that is empty or starts with a failing element is the TakeWhile/DropWhile split |
| ListSpec.TakeWhileIsFiltered | fungen_test.go:136-144 | filtering TakeWhile's result with the same predicate returns it unchanged |
| ListMethods.Take | fungen_test.go:159-165 | for `n >= 0`, the result is the prefix of `l` of length `min(n, len(l))` |
| ListMethods.Drop | fungen_test.go:180-187 | for `n >= 0`, the result is the suffix of `l` of length `len(l) - min(n, len(l))` |
| ListMethods.TakeDropSplit | fungen_test.go:159-187 | `Take(l, n) + Drop(l, n) == l` for every `n >= 0` |
| ListMethods.Reduce | fungen_test.go:202-208 | the result is the left fold `f(...f(f(t1, l[0]), l[1])..., l[len-1])`; the seed for an empty list |
| ListSpec.FoldLeftAppend | fungen_test.go:204-206 | folding `s + t` from the left continues from the result of folding `s` |
| ListSpec.FoldLeftSnoc | fungen_test.go:204-206 | one more loop step of Reduce is one more application of `f` |
| ListMethods.ReduceRight | fungen_test.go:223-230 | the descending loop computes the right fold `f(l[0], f(l[1], ... f(l[len-1], t1)))`; the seed for an empty list |
| ListSpec.FoldRightAppend | fungen_test.go:225-228 | folding `s + t` from the right folds `s` onto the result of folding `t` |
| ListSpec.FoldRightIsFoldLeftOfReverse | fungen_test.go:202-230 | ReduceRight over `l` equals Reduce over the reversed list with `f`'s arguments swapped |
| ListSpec.FoldLeftAssociative | fungen_test.go:202-208 | for associative `f` with right identity `e`, the left fold from `a` equals `f(a, right fold from e)` |
| ListSpec.FoldsAgreeOnMonoid | fungen_test.go:202-230 | for associative `f` and a two-sided identity as seed, Reduce and ReduceRight give the same result |

## Left out

- PFilter (fungen_test.go:37-55): it starts one goroutine per element and collects the results under a mutex, and the order of its result is unspecified. Concurrency is not modelled.
- The template functions (`getFilterFunction` and the others) and the whitespace normaliser `f`: the test calls them, but their definitions are not part of this model. Their output text and their normalisation rule are therefore not modelled.
- The `fmt.Sprintf` substitution of the list and type names, and the test harness that compares rendered text. The names only pick concrete types, which is why the model is generic over `T`.
- Go slice representation: a nil slice (`var l2 L`) and an empty slice (`[]T{}`) are both the empty sequence here. Aliasing of the backing array by `l[:i]` and `l[n:]` is not modelled; results are values.
- Take, Drop: a negative `n` makes the Go slice expression panic, so `n >= 0` is a precondition rather than an error result. Go's 64-bit `int` bound on `n` is not modelled.
- Each, EachI: a callback's side effects are modelled only as a state threaded through the calls in order. A callback that mutates the list itself, panics or does not return is not modelled.
- Filter, TakeWhile, DropWhile, Reduce, ReduceRight: callbacks are total, pure Dafny functions. A Go callback that panics or has side effects is not modelled.
