/** The iterator `MaybeManyIter` of src/maybe.rs (and its copy in src/either.rs), the conversion
    `into_iter`, and the two conversions of `MaybeMany` that go through it, `chain` and `boxed`.
    The inner iterator of the `Many` variant is kept abstract as the sequence of values it has yet
    to yield. */
module MaybeIter {
  import opened Wrappers
  import M = Maybe

  /** The enum `MaybeManyIter`: nothing, a `std::iter::Once` (the value it has yet to give, if
      any), or a `std::iter::Fuse` (the inner iterator until it first runs dry, then `None`). */
  datatype IterState<T> = None | One(once: Option<T>) | Many(fuse: Option<seq<T>>)

  /** The values an iterator in state `s` has yet to yield. */
  function Remaining<T>(s: IterState<T>): seq<T> {
    match s
    case None => []
    case One(once) => if once.Some? then [once.value] else []
    case Many(fuse) => if fuse.Some? then fuse.value else []
  }

  /** `size_hint` as written: (0, Some(0)) for `None`, (1, Some(1)) for `One` even once its value
      is gone, and for `Many` what `Fuse` reports. The inner iterator is modelled by the values it
      has left, so its hint is taken to be that exact count. */
  function SizeHint<T>(s: IterState<T>): (h: Bounds)
    ensures s.None? ==> h == (0, Some(0))
    ensures s.One? ==> h == (1, Some(1))
    ensures s.Many? ==> h == (|Remaining(s)|, Some(|Remaining(s)|))
  {
    match s
    case None => (0, Some(0))
    case One(_) => (1, Some(1))
    case Many(fuse) => if fuse.Some? then (|fuse.value|, Some(|fuse.value|)) else (0, Some(0))
  }

  /** The as-written hint is exact in every state but a spent `Once`. */
  lemma SizeHintExactUnlessOnceSpent<T>(s: IterState<T>)
    ensures SizeHint(s) == (|Remaining(s)|, Some(|Remaining(s)|)) <==> !(s.One? && s.once.None?)
  {
  }

  /** A spent `One` iterator still claims one value while it yields none. */
  lemma SpentOnceOverclaims<T>()
    ensures SizeHint(IterState<T>.One(Option.None)).0 == 1
    ensures Remaining(IterState<T>.One(Option.None)) == []
  {
  }

  /** The hint `ExactSizeIterator` requires, taking `Once`'s own count for `One`. */
  function ExactSizeHint<T>(s: IterState<T>): (h: Bounds)
    ensures h == (|Remaining(s)|, Some(|Remaining(s)|))
  {
    match s
    case None => (0, Some(0))
    case One(once) => if once.Some? then (1, Some(1)) else (0, Some(0))
    case Many(_) => SizeHint(s)
  }

  /** `into_iter`: `None` gives the empty iterator, `One(x)` a `once(x)`, and `Many(u)` the fused
      iterator of `u`. It yields exactly the values of the `MaybeMany`, and reports the same size
      whenever the `MaybeMany` knows its size. */
  function IntoIter<T, U>(m: M.MaybeMany<T, U>, elems: U -> seq<T>): (s: IterState<T>)
    ensures Remaining(s) == M.Elements(m, elems)
    ensures M.SizeHint(m).Some? ==> SizeHint(s) == (M.SizeHint(m).value, M.SizeHint(m))
    ensures M.IsNone(m) <==> s.None?
    ensures M.IsSingle(m) <==> s.One?
    ensures M.IsMany(m) <==> s.Many?
  {
    match m
    case None => IterState.None
    case One(one) => One(Some(one))
    case Many(many) => Many(Some(elems(many)))
  }

  /** Iterating a boxed iterator or a chain, whose `IntoIterator` is the iterator itself. */
  function SeqElems<T>(s: seq<T>): seq<T> {
    s
  }

  /** `chain`: a `Many` over `self`'s iterator followed by `iter`'s. */
  function Chain<T, U, I>(m: M.MaybeMany<T, U>, elems: U -> seq<T>, iter: I, ielems: I -> seq<T>)
    : (r: M.MaybeMany<T, seq<T>>)
    ensures M.IsMany(r)
    ensures M.Elements(r, SeqElems) == M.Elements(m, elems) + ielems(iter)
  {
    M.Many(Remaining(IntoIter(m, elems)) + ielems(iter))
  }

  /** `boxed`: a `Many` over `self`'s iterator behind a `Box<dyn Iterator>`, yielding the same values. */
  function Boxed<T, U>(m: M.MaybeMany<T, U>, elems: U -> seq<T>): (r: M.MaybeMany<T, seq<T>>)
    ensures M.IsMany(r)
    ensures M.Elements(r, SeqElems) == M.Elements(m, elems)
  {
    M.Many(Remaining(IntoIter(m, elems)))
  }

  /** A live `MaybeManyIter`, the place `Iterator::next` mutates. */
  class MaybeManyIter<T> {
    var state: IterState<T>

    constructor (s: IterState<T>)
      ensures state == s
    {
      state := s;
    }

    /** `Iterator::next`: `None` never yields; `One` hands out the value of its `Once` and then
        nothing; `Many` yields the inner iterator's next value, and the first time the inner
        iterator runs dry the `Fuse` drops it, so it never yields again. The variant never
        changes. */
    method Next() returns (r: Option<T>)
      modifies this
      ensures old(Remaining(state)) == [] ==> r.None? && Remaining(state) == []
      ensures old(Remaining(state)) != [] ==>
        r == Some(old(Remaining(state))[0]) && Remaining(state) == old(Remaining(state))[1..]
      ensures r.None? ==> Remaining(state) == []
      ensures state.None? == old(state).None? && state.One? == old(state).One?
    {
      match state
      case None =>
        r := Option.None;
      case One(once) =>
        r := once;
        state := One(Option.None);
      case Many(fuse) =>
        if fuse.None? {
          r := Option.None;
        } else if fuse.value == [] {
          state := Many(Option.None);
          r := Option.None;
        } else {
          r := Some(fuse.value[0]);
          state := Many(Some(fuse.value[1..]));
        }
    }
  }

  /** Polls a `MaybeManyIter` until it answers `None`, as `Iterator::collect` does. */
  method Drain<T>(it: MaybeManyIter<T>) returns (out: seq<T>)
    modifies it
    ensures out == old(Remaining(it.state)) && Remaining(it.state) == []
  {
    out := [];
    while true
      invariant out + Remaining(it.state) == old(Remaining(it.state))
      decreases ExactSizeHint(it.state).0
    {
      var r := it.Next();
      if r.None? {
        break;
      }
      out := out + [r.value];
    }
  }

  /** `m.into_iter().collect()`, followed by `extra` further calls to `next`: the collected values
      are the values of `m` in order, and every later call answers `None`. */
  method CollectThenPoll<T, U>(m: M.MaybeMany<T, U>, elems: U -> seq<T>, extra: nat)
    returns (out: seq<T>, later: seq<Option<T>>)
    ensures out == M.Elements(m, elems)
    ensures |later| == extra && forall i :: 0 <= i < extra ==> later[i].None?
  {
    var it := new MaybeManyIter(IntoIter(m, elems));
    out := Drain(it);
    later := [];
    for i := 0 to extra
      invariant |later| == i && forall j :: 0 <= j < i ==> later[j].None?
      invariant Remaining(it.state) == []
    {
      var r := it.Next();
      later := later + [r];
    }
  }

  /** The test `into_many`: `one("hello").map_single_into_many(|x| vec![x, " "])` chained with
      `vec!["world", "!"]` collects to `["hello", " ", "world", "!"]`. */
  method IntoManyTest() returns (output: seq<string>)
    ensures output == ["hello", " ", "world", "!"]
  {
    var single := M.MakeOne("hello");
    var many := M.MapSingleIntoMany<string, string, seq<string>>(single, x => [x, " "]);
    var chained := Chain(many, SeqElems, ["world", "!"], SeqElems);
    var later;
    output, later := CollectThenPoll(chained, SeqElems, 0);
  }

  /** `one("hello").boxed().chain(["world", "!"])` collects to `["hello", "world", "!"]`. */
  method BoxedChain() returns (output: seq<string>)
    ensures output == ["hello", "world", "!"]
  {
    var boxed := Boxed(M.MakeOne("hello"), M.NoElementsOf);
    var chained := Chain(boxed, SeqElems, ["world", "!"], SeqElems);
    var later;
    output, later := CollectThenPoll(chained, SeqElems, 0);
  }
}
