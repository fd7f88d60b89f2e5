/** The zero-one-or-many union `MaybeMany` of src/maybe.rs and its pure operations. The older copy
    in src/either.rs has the same enum and the same bodies for every operation it defines, so the
    members here model both. The collection `U` is kept abstract: wherever the source needs
    `U: IntoIterator<Item = T>`, the model takes `elems: U -> seq<T>`, the values iterating a
    `U` yields. */
module Maybe {
  import opened Wrappers

  datatype MaybeMany<T, U> = None | One(value: T) | Many(many: U)

  /** `std::iter::Empty<T>`, the collection type of the constructors `one` and `none`. */
  datatype NoElements = NoElements

  /** Iterating a `std::iter::Empty` yields nothing. */
  function NoElementsOf<T>(e: NoElements): seq<T> {
    []
  }

  /** The values iterating `m` yields: none, the single value, or the collection's values in its
      own order. This is the reference meaning the iterator in module MaybeIter is proved to meet. */
  function Elements<T, U>(m: MaybeMany<T, U>, elems: U -> seq<T>): seq<T> {
    match m
    case None => []
    case One(x) => [x]
    case Many(u) => elems(u)
  }

  /** `is_none`: the empty variant, neither a single value nor a collection. */
  function IsNone<T, U>(m: MaybeMany<T, U>): (b: bool)
    ensures b <==> !m.One? && !m.Many?
  {
    m.None?
  }

  /** `is_single`: the single-value variant, neither empty nor a collection. */
  function IsSingle<T, U>(m: MaybeMany<T, U>): (b: bool)
    ensures b <==> !m.None? && !m.Many?
  {
    m.One?
  }

  /** `is_many`: the collection variant, neither empty nor a single value. */
  function IsMany<T, U>(m: MaybeMany<T, U>): (b: bool)
    ensures b <==> !m.None? && !m.One?
  {
    m.Many?
  }

  /** Two values of possibly different types carry the same variant. */
  predicate SameVariant<T, U, A, B>(m: MaybeMany<T, U>, r: MaybeMany<A, B>) {
    IsNone(m) == IsNone(r) && IsSingle(m) == IsSingle(r) && IsMany(m) == IsMany(r)
  }

  /** `is_none`, `is_single` and `is_many` hold of exactly one variant each. */
  lemma ExactlyOneVariant<T, U>(m: MaybeMany<T, U>)
    ensures IsNone(m) || IsSingle(m) || IsMany(m)
    ensures !(IsNone(m) && IsSingle(m)) && !(IsNone(m) && IsMany(m)) && !(IsSingle(m) && IsMany(m))
  {
  }

  /** `size_hint`: exactly 0 for `None`, exactly 1 for `One`, unknown for `Many`. */
  function SizeHint<T, U>(m: MaybeMany<T, U>): (h: Option<nat>)
    ensures h == Some(0) <==> IsNone(m)
    ensures h == Some(1) <==> IsSingle(m)
    ensures h.None? <==> IsMany(m)
  {
    match m
    case None => Some(0)
    case One(_) => Some(1)
    case Many(_) => Option.None
  }

  /** A known size hint is the exact number of values iterating yields, whatever the collection. */
  lemma SizeHintExact<T, U>(m: MaybeMany<T, U>, elems: U -> seq<T>)
    ensures SizeHint(m).Some? ==> |Elements(m, elems)| == SizeHint(m).value
  {
  }

  /** `one`: the single variant, over the empty collection type. */
  function MakeOne<T>(value: T): (r: MaybeMany<T, NoElements>)
    ensures IsSingle(r) && Elements(r, NoElementsOf) == [value]
  {
    One(value)
  }

  /** `none`: the empty variant, yielding nothing ever. */
  function MakeNone<T>(): (r: MaybeMany<T, NoElements>)
    ensures IsNone(r) && Elements(r, NoElementsOf) == []
  {
    MaybeMany.None
  }

  /** `map_single_into_many`: `One(x)` becomes `Many(trans(x))`; `None`, and `Many` of the empty
      collection, become `None`. */
  function MapSingleIntoMany<T, V, W>(m: MaybeMany<T, NoElements>, trans: T -> W): (r: MaybeMany<V, W>)
    ensures IsMany(r) <==> IsSingle(m)
    ensures IsNone(r) <==> !IsSingle(m)
    ensures m.One? ==> r.many == trans(m.value)
  {
    match m
    case One(one) => Many(trans(one))
    case _ => MaybeMany.None
  }

  /** What `map_single_into_many` yields: the transformed collection for `One`, and for the other
      variants the nothing they held already. */
  lemma MapSingleIntoManyElements<T, V, W>(m: MaybeMany<T, NoElements>, trans: T -> W, welems: W -> seq<V>)
    ensures m.One? ==> Elements(MapSingleIntoMany(m, trans), welems) == welems(trans(m.value))
    ensures !m.One? ==> Elements(MapSingleIntoMany(m, trans), welems) == [] && Elements(m, NoElementsOf) == []
  {
  }

  /** `map_none`: `One(x)` is kept, `None` and `Many` of the empty collection become `None` over
      any collection type. */
  function MapNone<T, V>(m: MaybeMany<T, NoElements>): (r: MaybeMany<T, V>)
    ensures IsSingle(r) <==> IsSingle(m)
    ensures IsNone(r) <==> !IsSingle(m)
    ensures m.One? ==> r.value == m.value
  {
    match m
    case None | Many(_) => MaybeMany.None
    case One(o) => One(o)
  }

  /** `map_none` changes the collection type and nothing that iterating yields. */
  lemma MapNoneKeepsElements<T, V>(m: MaybeMany<T, NoElements>, velems: V -> seq<T>)
    ensures Elements(MapNone<T, V>(m), velems) == Elements(m, NoElementsOf)
  {
  }

  /** `into_many`: the whole value wrapped as the collection of a `Many`. */
  function IntoMany<T, U>(m: MaybeMany<T, U>): (r: MaybeMany<T, MaybeMany<T, U>>)
    ensures IsMany(r) && r.many == m
  {
    Many(m)
  }

  /** Iterating the wrapped value yields what iterating the original did; only the size hint is
      lost. */
  lemma IntoManyElements<T, U>(m: MaybeMany<T, U>, elems: U -> seq<T>)
    ensures Elements(IntoMany(m), x => Elements(x, elems)) == Elements(m, elems)
    ensures SizeHint(IntoMany(m)).None?
  {
  }

  /** `map_into_many`: `None` stays `None`, `One(x)` becomes `Many(trans(x))` and `Many(u)` becomes
      `Many(from(u))`, where `from` is the conversion `W::from`. */
  function MapIntoMany<T, U, V, W>(m: MaybeMany<T, U>, trans: T -> W, from: U -> W): (r: MaybeMany<V, W>)
    ensures IsNone(r) <==> IsNone(m)
    ensures IsMany(r) <==> !IsNone(m)
    ensures m.One? ==> r.many == trans(m.value)
    ensures m.Many? ==> r.many == from(m.many)
  {
    match m
    case None => MaybeMany.None
    case One(one) => Many(trans(one))
    case Many(many) => Many(from(many))
  }

  /** When the conversion keeps the values of a collection, `map_into_many` keeps what `None` and
      `Many` yield, and `One(x)` yields what `trans(x)` holds. */
  lemma MapIntoManyElements<T, U, W>(m: MaybeMany<T, U>, trans: T -> W, from: U -> W,
                                     elems: U -> seq<T>, welems: W -> seq<T>)
    requires forall u :: welems(from(u)) == elems(u)
    ensures !m.One? ==> Elements(MapIntoMany<T, U, T, W>(m, trans, from), welems) == Elements(m, elems)
    ensures m.One? ==> Elements(MapIntoMany<T, U, T, W>(m, trans, from), welems) == welems(trans(m.value))
  {
  }

  /** `map_many`: only a `Many` payload is transformed; the variant is kept. */
  function MapMany<T, U, A>(m: MaybeMany<T, U>, fun: U -> A): (r: MaybeMany<T, A>)
    ensures SameVariant(m, r)
    ensures m.One? ==> r.value == m.value
    ensures m.Many? ==> r.many == fun(m.many)
  {
    match m
    case One(t) => One(t)
    case Many(m) => Many(fun(m))
    case None => MaybeMany.None
  }

  /** `map_one`: only a `One` payload is transformed; the variant is kept. */
  function MapOne<T, U>(m: MaybeMany<T, U>, fun: T -> T): (r: MaybeMany<T, U>)
    ensures SameVariant(m, r)
    ensures m.One? ==> r.value == fun(m.value)
    ensures !m.One? ==> r == m
  {
    match m
    case One(t) => One(fun(t))
    case Many(m) => Many(m)
    case None => MaybeMany.None
  }

  /** `map`: `one` is applied to a `One` payload and `many` to a `Many` payload; the variant is
      kept. */
  function Map<T, U, A, B>(m: MaybeMany<T, U>, one: T -> A, many: U -> B): (r: MaybeMany<A, B>)
    ensures SameVariant(m, r)
    ensures m.One? ==> r.value == one(m.value)
    ensures m.Many? ==> r.many == many(m.many)
  {
    match m
    case One(o) => One(one(o))
    case Many(m) => Many(many(m))
    case None => MaybeMany.None
  }

  /** `map` with the identity on collections is `map_one`, and with the identity on single values
      it is `map_many`. */
  lemma MapGeneralisesMapOneAndMapMany<T, U, A>(m: MaybeMany<T, U>, f: T -> T, g: U -> A)
    ensures Map(m, f, u => u) == MapOne(m, f)
    ensures Map(m, t => t, g) == MapMany(m, g)
  {
  }

  /** No mapping changes the size hint. */
  lemma MapsKeepSizeHint<T, U, A, B>(m: MaybeMany<T, U>, f: T -> A, g: U -> B, h: T -> T, k: U -> B)
    ensures SizeHint(Map(m, f, g)) == SizeHint(m)
    ensures SizeHint(MapOne(m, h)) == SizeHint(m)
    ensures SizeHint(MapMany(m, k)) == SizeHint(m)
  {
  }

  /** Iterating after `map_many` is iterating the original through the mapped collection. */
  lemma MapManyElements<T, U, A>(m: MaybeMany<T, U>, g: U -> A, aelems: A -> seq<T>)
    ensures Elements(MapMany(m, g), aelems) == Elements(m, u => aelems(g(u)))
  {
  }

  /** The location behind a `&mut MaybeMany<T, U>`, which is what `take` works on. */
  class Place<T, U> {
    var value: MaybeMany<T, U>

    constructor (v: MaybeMany<T, U>)
      ensures value == v
    {
      value := v;
    }

    /** `take`: `mem::replace(self, None)`, returning the value as it was. */
    method Take() returns (prior: MaybeMany<T, U>)
      modifies this
      ensures prior == old(value) && value.None?
    {
      prior := value;
      value := MaybeMany.None;
    }
  }

  /** Taking twice from a place holding `m` gives `m` and then `None`, and leaves `None` behind. */
  method TakeTwice<T, U>(m: MaybeMany<T, U>) returns (first: MaybeMany<T, U>, second: MaybeMany<T, U>,
                                                      left: MaybeMany<T, U>)
    ensures first == m && IsNone(second) && IsNone(left)
  {
    var place := new Place(m);
    first := place.Take();
    second := place.Take();
    left := place.value;
  }
}
