# ad-hoc-iter, modelled in Dafny

The crate provides two small building blocks for Rust iteration:

- the `iter!` macro, which turns a literal list of owned values into a heap-free iterator `Arr<T>`.
  The iterator keeps the values in an array of `MaybeUninit<T>` slots and a cursor. It moves each
  value out exactly once, in argument order, and when it is dropped it finalises the values it
  never handed out, provided every destructor returns. `iter![]` expands instead to a unit
  iterator `Empty` that yields nothing;
- `MaybeMany<T, U>`, a union of nothing, one value, or a collection `U`. It has mapping and
  conversion operations, a `take` that leaves `None` behind, and a fused iterator `MaybeManyIter`.

The Dafny project has four modules:

- `Wrappers` (wrappers.dfy): `Option` and the `(lower, upper)` pair that `size_hint` returns.
- `AdHocIter` (iter_macro.dfy): src/lib.rs.
  - The counting rule `@` is the function `Count`. `Empty` is the datatype `EmptyIter`.
  - `Arr` is a class over an `array<Option<T>>` and a cursor. A slot holding `None` is
    uninitialised, meaning it was moved out or finalised.
  - Ghost fields record the macro arguments (`Inputs`), what `next` has handed out (`Yielded`)
    and whether `drop` has run.
  - `Valid()` is the unsafe code's safety argument as an invariant: slot `i` holds `Some(Inputs[i])`
    exactly while it is live, and `None` otherwise. "Live" means at or after the cursor and not
    yet dropped.
  - `Next` and `Drop` read each slot with `.value`. That only verifies on a live slot, so no
    consumed slot is ever read.
  - `Drop` returns the values it hands to `T`'s destructor and, as a ghost output, their slot
    indices. Its contract says that, when every destructor returns, every argument went exactly
    once either to the caller or to the destructor.
- `Maybe` (maybe.dfy): the `MaybeMany` enum and its match functions.
  - `take` works on the place behind `&mut self`, the class `Place`.
  - `U` stays abstract. Where the source needs `U: IntoIterator<Item = T>`, the model takes
    `elems: U -> seq<T>`, the values a `U` yields.
  - `Elements(m, elems)` is the reference meaning of iterating `m`.
- `MaybeIter` (maybe_iter.dfy): the `MaybeManyIter` enum as the datatype `IterState`.
  - `Once` is the value it has yet to give. `Fuse` is the inner iterator's remaining values until
    it first runs dry, then `None`.
  - `Next` is a method of the class `MaybeManyIter`, which holds the state.
  - `into_iter`, `chain` and `boxed` are functions proved against `Elements`.

`src/either.rs` is an older copy of `MaybeMany`. It is not compiled into the crate:
src/lib.rs:5 declares only `maybe`. It defines a subset of the operations of src/maybe.rs (it
has no `one`, `none`, `map_single_into_many`, `map_none`, `into_many`, `map_into_many`, `chain`,
`boxed` and no tests), and its `U` has no `IntoIterator` bound. Every operation it defines has the same body as in src/maybe.rs, so the same members model
it. The `Maybe` functions never need `elems` except where the source needs `IntoIterator`, so they
also model the unbounded copy.

| either.rs | maybe.rs | modelled by |
|---|---|---|
| src/either.rs:7-14 | src/maybe.rs:7-15 | `Maybe.MaybeMany` |
| src/either.rs:18-30 | src/maybe.rs:97-109 | `Maybe.SizeHint`, `Maybe.SizeHintExact` |
| src/either.rs:31-57 | src/maybe.rs:110-136 | `Maybe.IsNone`, `Maybe.IsSingle`, `Maybe.IsMany`, `Maybe.ExactlyOneVariant` |
| src/either.rs:58-68 | src/maybe.rs:137-147 | `Maybe.MapMany`, `Maybe.MapManyElements` |
| src/either.rs:70-79 | src/maybe.rs:149-158 | `Maybe.MapOne` |
| src/either.rs:81-92 | src/maybe.rs:160-171 | `Maybe.Map`, `Maybe.MapGeneralisesMapOneAndMapMany`, `Maybe.MapsKeepSizeHint` |
| src/either.rs:93-97 | src/maybe.rs:172-176 | `Maybe.Place.Take`, `Maybe.TakeTwice` |
| src/either.rs:100-107 | src/maybe.rs:179-187 | `MaybeIter.IterState` |
| src/either.rs:113-120 | src/maybe.rs:193-200 | `MaybeIter.MaybeManyIter.Next`, `MaybeIter.CollectThenPoll` |
| src/either.rs:122-128 | src/maybe.rs:202-208 | `MaybeIter.SizeHint`, `MaybeIter.SizeHintExactUnlessOnceSpent` |
| src/either.rs:134-147 | src/maybe.rs:214-227 | `MaybeIter.IntoIter` |

### Behaviour worth noting

- The crate calls `Arr` an exact size iterator (src/lib.rs:1, src/lib.rs:7) and implements
  `ExactSizeIterator` for it (src/lib.rs:150), yet its `size_hint` reports the total length `LEN`
  even after consumption, not the number of values left. See Findings.
- `map_single_into_many` sends `Many(_)` to `None` as well as `None`.
- The number of values left in an `Arr` is `|Rest()|`, that is `LEN - consumed`.

## Model

| member | source | states |
|---|---|---|
| `AdHocIter.Count` | src/lib.rs:45-46 | the counter `@` is the number of tokens: 0 for none, one more than the rest otherwise |
| `AdHocIter.EmptyIter.Next` | src/lib.rs:55-58 | `iter![]` never yields a value |
| `AdHocIter.EmptyIter.SizeHint` | src/lib.rs:60-63 | `iter![]` reports exactly zero values left |
| `AdHocIter.EmptyLikeZeroSlots` | src/lib.rs:48-70 | `iter![]` answers `next` and `size_hint` as an `Arr` over no arguments does: `None` and (0, Some(0)) |
| `AdHocIter.Unwrap` | src/lib.rs:104-110 | viewing a run of initialised slots as values keeps the length and gives each slot's value in place |
| `AdHocIter.Arr.constructor` | src/lib.rs:165 | the arguments fill the slots in order, the cursor is 0, nothing has been yielded, and `LEN` equals the counter `@` of the arguments |
| `AdHocIter.Arr.Len` | src/lib.rs:81-88 | `len` is the number of arguments, whatever has been consumed |
| `AdHocIter.Arr.Consumed` | src/lib.rs:121-125 | `consumed` is the number of values `next` has handed out, at most `LEN` |
| `AdHocIter.Arr.Rest` | src/lib.rs:100-110 | `rest` is the arguments from the cursor on, of length `LEN - consumed`; what was yielded followed by `rest` is the whole argument list |
| `AdHocIter.Arr.SizeHint` | src/lib.rs:144-147 | `size_hint` as written: (LEN, Some(LEN)) in every state |
| `AdHocIter.Arr.ExactSizeHint` | src/lib.rs:150 | the hint an exact-size iterator owes: the number of values left, as lower and upper bound |
| `AdHocIter.Arr.Next` | src/lib.rs:130-142 | keeps the slot invariant. Below `LEN` it returns the argument at the cursor, advances by one and leaves the rest as the old rest's tail. At the end it returns `None` and changes nothing (fused) |
| `AdHocIter.Arr.Drop` | src/lib.rs:152-163 | finalises exactly the live slots `[cursor, LEN)`, once each, in index order, and no consumed slot. Yielded values plus finalised values are the arguments, each exactly once. Afterwards every slot is uninitialised |
| `AdHocIter.Drain` | src/lib.rs:189-195 | polling an `Arr` until `None`, as `collect` does, yields exactly its rest in order and leaves it empty |
| `AdHocIter.SeqSumSnoc` | src/lib.rs:180 | adding one more yielded value adds it to the running sum |
| `AdHocIter.Sum` | src/lib.rs:176-180 | `sum` consumes the iterator: it is the sum of the values not yet consumed, after which every argument has been yielded and the iterator is dropped |
| `AdHocIter.YieldThenDrop` | src/lib.rs:130-162 | after k calls of `next` and a drop, the first min(k, N) arguments were yielded in order and exactly the others were finalised |
| `AdHocIter.IterOver` | src/lib.rs:174-182 | `iter![10,...,1]` has length 10, and the same iterator sums to 55 |
| `AdHocIter.Assoc` | src/lib.rs:205-221 | after one `next` on `iter![1,2,3,4]` length is 4, consumed is 1 and rest is [2,3,4]; after two on four strings, rest is ["world", "!"] |
| `AdHocIter.SizeHintAfterNext` | src/lib.rs:144-147 | after one `next` on `iter![1,2,3]` the as-written hint claims at least 3 values while 2 are left |
| `Maybe.IsNone` | src/maybe.rs:111-118 | `is_none` holds exactly when the value is neither `One` nor `Many` |
| `Maybe.IsSingle` | src/maybe.rs:119-127 | `is_single` holds exactly when the value is neither `None` nor `Many` |
| `Maybe.IsMany` | src/maybe.rs:128-136 | `is_many` holds exactly when the value is neither `None` nor `One` |
| `Maybe.ExactlyOneVariant` | src/maybe.rs:110-136 | exactly one of `is_none`, `is_single`, `is_many` holds |
| `Maybe.SizeHint` | src/maybe.rs:97-109 | `size_hint` is Some(0) exactly for `None`, Some(1) exactly for `One`, and unknown exactly for `Many` |
| `Maybe.SizeHintExact` | src/maybe.rs:97-109 | a known size hint is the exact number of values iterating yields |
| `Maybe.MakeOne` | src/maybe.rs:19-23 | `one(x)` is the single variant and yields exactly [x] |
| `Maybe.MakeNone` | src/maybe.rs:52-56 | `none()` is the empty variant and yields nothing |
| `Maybe.MapSingleIntoMany` | src/maybe.rs:25-36 | the result is `Many` exactly when the input is `One`, holding `trans(x)`; otherwise it is `None` |
| `Maybe.MapSingleIntoManyElements` | src/maybe.rs:25-36 | `One(x)` then yields what `trans(x)` holds; other inputs yielded nothing and still yield nothing |
| `Maybe.MapNone` | src/maybe.rs:38-47 | `One(x)` is kept and everything else becomes `None` |
| `Maybe.MapNoneKeepsElements` | src/maybe.rs:38-47 | `map_none` yields the same values as its input, whatever the new collection type |
| `Maybe.IntoMany` | src/maybe.rs:62-66 | `into_many` is a `Many` holding the original value |
| `Maybe.IntoManyElements` | src/maybe.rs:62-66 | the wrapped value yields what the original yields; only the size hint becomes unknown |
| `Maybe.MapIntoMany` | src/maybe.rs:68-80 | `None` stays `None`; `One(x)` becomes `Many(trans(x))`; `Many(u)` becomes `Many(from(u))` |
| `Maybe.MapIntoManyElements` | src/maybe.rs:68-80 | when `From` keeps a collection's values, `None` and `Many` keep what they yield and `One(x)` yields what `trans(x)` holds |
| `Maybe.MapMany` | src/maybe.rs:137-147 | the variant is kept, a `One` payload is untouched, a `Many` payload becomes `fun` of it |
| `Maybe.MapOne` | src/maybe.rs:149-158 | the variant is kept, a `One` payload becomes `fun` of it, and `None` and `Many` are returned unchanged |
| `Maybe.Map` | src/maybe.rs:160-171 | the variant is kept, `one` is applied to a `One` payload and `many` to a `Many` payload |
| `Maybe.MapGeneralisesMapOneAndMapMany` | src/maybe.rs:137-171 | `map` with an identity on one side is `map_one` or `map_many` |
| `Maybe.MapsKeepSizeHint` | src/maybe.rs:137-171 | no mapping changes `size_hint` |
| `Maybe.MapManyElements` | src/maybe.rs:137-147 | iterating after `map_many` is iterating the original through the mapped collection |
| `Maybe.Place.Take` | src/maybe.rs:172-176 | `take` returns the prior value unchanged and leaves `None` in its place |
| `Maybe.TakeTwice` | src/maybe.rs:172-176 | taking twice returns the value, then `None`, and leaves `None` |
| `MaybeIter.SizeHint` | src/maybe.rs:202-208 | the iterator's `size_hint` as written: (0, Some(0)) for `None`, (1, Some(1)) for `One` in every state, the exact remaining count for `Many` |
| `MaybeIter.SizeHintExactUnlessOnceSpent` | src/maybe.rs:202-208 | for a `Many` whose inner iterator reports an exact count, the as-written hint is exact exactly when the iterator is not a spent `One` |
| `MaybeIter.SpentOnceOverclaims` | src/maybe.rs:205 | a spent `One` still claims one value while it yields none |
| `MaybeIter.ExactSizeHint` | src/maybe.rs:211-212 | the hint an exact-size iterator owes: the number of values left, in every state |
| `MaybeIter.IntoIter` | src/maybe.rs:214-227 | `into_iter` keeps the variant, will yield exactly the union's values (none, [x], or the collection's in order), and agrees with the union's size hint when that is known |
| `MaybeIter.Chain` | src/maybe.rs:82-87 | `chain` is a `Many` yielding the union's values followed by the other iterator's |
| `MaybeIter.Boxed` | src/maybe.rs:89-95 | `boxed` is a `Many` yielding the same values as the union |
| `MaybeIter.MaybeManyIter.Next` | src/maybe.rs:193-200 | returns the first remaining value and drops it from the remaining values. Once nothing remains it returns `None` and stays exhausted (fused). The variant never changes |
| `MaybeIter.Drain` | src/maybe.rs:239 | polling until `None` collects exactly the remaining values in order |
| `MaybeIter.CollectThenPoll` | src/maybe.rs:193-227 | `into_iter().collect()` yields the union's values in order, and every later `next` answers `None` |
| `MaybeIter.IntoManyTest` | src/maybe.rs:233-242 | `one("hello")`, mapped into `vec![x, " "]` and chained with `vec!["world", "!"]`, collects to ["hello", " ", "world", "!"] |
| `MaybeIter.BoxedChain` | src/maybe.rs:82-95 | `one("hello").boxed().chain(["world", "!"])` collects to ["hello", "world", "!"] |

## Left out

- Raw memory: `MaybeUninit`, `assume_init` and the pointer cast in `rest` become `Option` slots. Reading an uninitialised slot is a verification failure rather than undefined behaviour.
- `into_inner` is `todo!()` and has no behaviour to model.
- `array()` exposes the raw slots, including uninitialised memory, so it is not modelled either.
- The `needs_drop` test in `drop` is not modelled: `Drop` always walks `[cursor, LEN)`. For a type without a destructor the walk finalises nothing observable.
- Rust calls `drop` automatically when an iterator goes out of scope. Here callers call `Drop` explicitly. After it, `Next` is not called, which is what Rust's ownership rules enforce.
- Macro syntax: the token-level matching, the trailing-comma form and the `#[cfg(feature)]` gating are not modelled. Construction is a constructor over the argument sequence, and `Count` counts a sequence of tokens.
- Uninhabited types: `Empty`'s item type and the types of `none()` are `Infallible` in the source. The model uses any `T` there.
- `usize`: cursors, lengths and hints are unbounded `nat`s. The counter's `1usize +` and the cursor's `+= 1` cannot overflow for an argument list that fits in memory.
- `AdHocIter.Sum`: sums unbounded integers. The test's `sum::<usize>()` (src/lib.rs:180) panics on overflow in debug builds and wraps in release builds; neither is modelled.
- `AdHocIter.Arr.Drop`: destructors cannot fail in the model. In the source, a destructor that panics at src/lib.rs:158 ends the walk of src/lib.rs:156, and the live slots after it are leaked, since `MaybeUninit` has no drop glue. No value is finalised twice even then. `Yielded + finalised == Inputs` is promised only for the case where every destructor returns.
- `Box<dyn Iterator>` type erasure and dynamic dispatch: only the values a boxed iterator yields are modelled.
- Standard adapters: the internals of `Chain`, `Fuse` and `Once`, and an arbitrary user `U: IntoIterator`, are modelled as the finite sequence of values they yield.
- An inner iterator that would resume after `None` cannot be expressed, so `Fuse`'s flag is kept but never changes what is yielded.
- `MaybeIter.SizeHint`: for `Many` it reports the inner iterator's exact remaining count. A real inner iterator may report loose or even wrong bounds, which `Fuse` passes on unchanged. This crate's own iterators do so: a partly consumed `Arr` (src/lib.rs:146), and a boxed or chained `One` whose value is gone (src/maybe.rs:205 reached through `Box` or `Chain`).
- `MaybeIter.SizeHintExactUnlessOnceSpent`: holds only because every `Many` is given an exact inner hint. In the program a `Many` over a partly consumed `Arr`, or over a boxed or chained spent `One`, also overclaims; the model does not capture those cases.
- `From<U>` in `map_into_many` is an arbitrary function `from: U -> W`.
- Trait plumbing (the `FusedIterator` and `ExactSizeIterator` marker impls, derived `Debug` and `Clone`) is not modelled.
- The distinct type identity of the unbounded `MaybeMany` in src/either.rs is not modelled; it shares the one datatype.

## Findings

| source | as written | input that shows it | evidently intended | confidence | as-written member | corrected member |
|---|---|---|---|---|---|---|
| src/lib.rs:144-147 | `size_hint` returns `(LEN, Some(LEN))` in every state, while `Arr` implements `ExactSizeIterator` (src/lib.rs:150), whose contract requires the exact number of values left | `iter![1,2,3]` after one `next`: the hint is (3, Some(3)) while 2 values remain | `(LEN - self.1, Some(LEN - self.1))` | medium, not executed | `AdHocIter.Arr.SizeHint`, shown by `AdHocIter.SizeHintAfterNext` | `AdHocIter.Arr.ExactSizeHint`, the termination measure of `AdHocIter.Drain` |
| src/maybe.rs:205 | `size_hint` returns `(1, Some(1))` for the `One` variant even after its `Once` has given its value; the same line is src/either.rs:125 | `MaybeMany::one(x).into_iter()` after one `next`: the hint is (1, Some(1)) while nothing remains | delegate to the `Once`, giving (0, Some(0)) once it is spent | medium, not executed | `MaybeIter.SizeHint`, shown by `MaybeIter.SpentOnceOverclaims`; the overclaim also survives `boxed` and `chain`, whose inner iterator is this one, which the model's `Many` does not capture | `MaybeIter.ExactSizeHint`, the termination measure of `MaybeIter.Drain` |
