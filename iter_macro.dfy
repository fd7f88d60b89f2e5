/** The `iter!` macro of src/lib.rs: the token counter `@`, the iterator `iter![]` expands to,
    and the fixed-size owning iterator `Arr` every non-empty invocation expands to. */
module AdHocIter {
  import opened Wrappers

  /** The macro's internal rule `@`: zero for no tokens, one more than the count of the rest
      otherwise. Every macro argument is one captured expression, that is one token tree. */
  function Count<Tok>(tokens: seq<Tok>): (n: nat)
    ensures n == |tokens|
  {
    if tokens == [] then 0 else 1 + Count(tokens[1..])
  }

  /** The unit struct `Empty` that `iter![]` expands to. It never yields; its item type is
      uninhabited in the source, here any `T`. */
  datatype EmptyIter = EmptyIter {

    function Next<T>(): (r: Option<T>)
      ensures r.None?
    {
      None
    }

    function SizeHint(): (h: Bounds)
      ensures h.0 == 0 && h.1 == Some(0)
    {
      (0, Some(0))
    }
  }

  /** The values of a run of slots that are all initialised (the cast in `rest`). */
  function Unwrap<T>(s: seq<Option<T>>): (r: seq<T>)
    requires forall i :: 0 <= i < |s| ==> s[i].Some?
    ensures |r| == |s|
    ensures forall i :: 0 <= i < |s| ==> s[i] == Some(r[i])
  {
    if s == [] then [] else [s[0].value] + Unwrap(s[1..])
  }

  /** The struct `Arr<T>([MaybeUninit<T>; N], usize)`. A slot holding `None` is one whose value
      was moved out by `next` or finalised by `drop`; the cursor `self.1` is the first slot not
      yet yielded. The ghost fields record ownership: the macro arguments, the values moved out to
      the caller so far, and whether `drop` has run. */
  class Arr<T> {
    const slots: array<Option<T>>
    var cursor: nat
    ghost const Inputs: seq<T>
    ghost var Yielded: seq<T>
    ghost var Dropped: bool

    /** Slot i holds its argument exactly while it is live: at or after the cursor and not yet
        dropped. Every slot before the cursor is uninitialised. */
    ghost predicate Valid()
      reads this, slots
    {
      slots.Length == |Inputs| && cursor <= slots.Length &&
      Yielded == Inputs[..cursor] &&
      forall i :: 0 <= i < slots.Length ==>
        slots[i] == if !Dropped && cursor <= i then Some(Inputs[i]) else None
    }

    /** `Arr([$(MaybeUninit::new($value)),*], 0)`: the arguments in order, cursor at 0, with the
        array length given by the counter `@`. */
    constructor (values: seq<T>)
      ensures Valid() && !Dropped && fresh(slots)
      ensures Inputs == values && cursor == 0 && Yielded == []
      ensures Len() == Count(values)
    {
      slots := new Option<T>[|values|](i requires 0 <= i < |values| => Some(values[i]));
      cursor := 0;
      Inputs := values;
      Yielded := [];
      Dropped := false;
    }

    /** `len`, the constant `LEN`: the number of arguments, whatever has been consumed. */
    function Len(): (n: nat)
      reads this, slots
      requires Valid()
      ensures n == |Inputs|
    {
      slots.Length
    }

    /** `consumed`: how many values `next` has handed out. */
    function Consumed(): (c: nat)
      reads this, slots
      requires Valid()
      ensures c == |Yielded| && c <= Len()
    {
      cursor
    }

    /** `rest`: the values still owned, which are the arguments from the cursor on. */
    function Rest(): (r: seq<T>)
      reads this, slots
      requires Valid() && !Dropped
      ensures r == Inputs[cursor..]
      ensures |r| == Len() - Consumed()
      ensures Yielded + r == Inputs
    {
      Unwrap(slots[cursor..])
    }

    /** `Iterator::size_hint` as written: the total length, even after consumption. */
    function SizeHint(): (h: Bounds)
      reads this, slots
      requires Valid()
      ensures h == (|Inputs|, Some(|Inputs|))
    {
      (Len(), Some(Len()))
    }

    /** The exact hint `ExactSizeIterator` requires: the number of values left. */
    function ExactSizeHint(): (h: Bounds)
      reads this, slots
      requires Valid() && !Dropped
      ensures h == (|Rest()|, Some(|Rest()|))
    {
      (Len() - cursor, Some(Len() - cursor))
    }

    /** `Iterator::next`: past the end it answers `None` and changes nothing; otherwise it moves the
        value out of the slot at the cursor, leaves that slot uninitialised and advances by one. */
    method Next() returns (r: Option<T>)
      requires Valid() && !Dropped
      modifies this, slots
      ensures Valid() && !Dropped
      ensures old(cursor) < Len() ==> r == Some(Inputs[old(cursor)]) && cursor == old(cursor) + 1
      ensures old(cursor) >= Len() ==> r.None? && cursor == old(cursor) && unchanged(this, slots)
      ensures Yielded == old(Yielded) + if r.Some? then [r.value] else []
      ensures old(Rest()) == [] ==> r.None? && Rest() == []
      ensures old(Rest()) != [] ==> r == Some(old(Rest())[0]) && Rest() == old(Rest())[1..]
    {
      if cursor >= slots.Length {
        r := None;
      } else {
        var one := slots[cursor].value;
        slots[cursor] := None;
        cursor := cursor + 1;
        Yielded := Yielded + [one];
        r := Some(one);
      }
    }

    /** `Drop::drop`: finalises the live slots `[cursor, N)` once each, in index order, and no
        consumed slot. `finalised` is the run of values handed to `T`'s destructor and `at` their
        slot indices. Together with what `next` handed out this accounts for every argument
        exactly once. Destructors always return here; a panicking one would end the walk. */
    method Drop() returns (finalised: seq<T>, ghost at: seq<nat>)
      requires Valid() && !Dropped
      modifies this, slots
      ensures Valid() && Dropped && cursor == old(cursor) && Yielded == old(Yielded)
      ensures finalised == old(Rest())
      ensures Yielded + finalised == Inputs
      ensures |at| == |finalised| && forall k :: 0 <= k < |at| ==> at[k] == old(cursor) + k
      ensures forall i :: 0 <= i < slots.Length ==> slots[i].None?
    {
      finalised, at := [], [];
      for idx := cursor to slots.Length
        modifies slots
        invariant finalised == Inputs[cursor..idx]
        invariant |at| == |finalised| && forall k :: 0 <= k < |at| ==> at[k] == cursor + k
        invariant forall i :: 0 <= i < slots.Length ==>
          slots[i] == if idx <= i then Some(Inputs[i]) else None
      {
        var v := slots[idx].value;
        slots[idx] := None;
        finalised := finalised + [v];
        at := at + [idx];
      }
      Dropped := true;
    }
  }

  /** Polls an iterator until it answers `None`, as `Iterator::collect` does. */
  method Drain<T>(it: Arr<T>) returns (out: seq<T>)
    requires it.Valid() && !it.Dropped
    modifies it, it.slots
    ensures it.Valid() && !it.Dropped
    ensures out == old(it.Rest()) && it.Rest() == []
  {
    out := [];
    ghost var start := it.cursor;
    while true
      invariant it.Valid() && !it.Dropped
      invariant start <= it.cursor && out == it.Inputs[start..it.cursor]
      decreases it.ExactSizeHint().0
    {
      var r := it.Next();
      if r.None? {
        break;
      }
      out := out + [r.value];
    }
  }

  function SeqSum(s: seq<int>): int {
    if s == [] then 0 else s[0] + SeqSum(s[1..])
  }

  lemma {:induction false} SeqSumSnoc(s: seq<int>, x: int)
    ensures SeqSum(s + [x]) == SeqSum(s) + x
  {
    if s != [] {
      assert (s + [x])[1..] == s[1..] + [x];
      SeqSumSnoc(s[1..], x);
    }
  }

  /** `Iterator::sum`, which takes the iterator by value: it sums the values not yet consumed, and
      the iterator is dropped afterwards with nothing left to finalise. */
  method Sum(it: Arr<int>) returns (total: int)
    requires it.Valid() && !it.Dropped
    modifies it, it.slots
    ensures total == SeqSum(old(it.Rest()))
    ensures it.Valid() && it.Dropped && it.Yielded == it.Inputs
  {
    ghost var start := it.cursor;
    total := 0;
    while true
      invariant it.Valid() && !it.Dropped
      invariant start <= it.cursor && total == SeqSum(it.Inputs[start..it.cursor])
      decreases it.ExactSizeHint().0
    {
      ghost var before := it.Inputs[start..it.cursor];
      var r := it.Next();
      if r.None? {
        break;
      }
      assert it.Inputs[start..it.cursor] == before + [r.value];
      SeqSumSnoc(before, r.value);
      total := total + r.value;
    }
    var _, _ := it.Drop();
  }

  /** Calls `next` k times and then drops the iterator: the first calls hand out the arguments
      in order, the rest answer `None`, and `drop` finalises exactly the arguments not handed out. */
  method YieldThenDrop<T>(values: seq<T>, k: nat) returns (yielded: seq<T>, finalised: seq<T>)
    ensures var n := if k < |values| then k else |values|;
      yielded == values[..n] && finalised == values[n..]
  {
    var it := new Arr(values);
    yielded := [];
    for j := 0 to k
      invariant it.Valid() && !it.Dropped
      invariant it.Yielded == yielded
      invariant it.cursor == if j < |values| then j else |values|
    {
      var r := it.Next();
      if r.Some? {
        yielded := yielded + [r.value];
      }
    }
    ghost var at;
    finalised, at := it.Drop();
  }

  /** The test `iter_over`: `iter![10,9,8,7,6,5,4,3,2,1]` has length 10 and sums to 55. */
  method IterOver() returns (len: nat, total: int)
    ensures len == 10 && total == 55
  {
    var it := new Arr([10, 9, 8, 7, 6, 5, 4, 3, 2, 1]);
    len := it.Len();
    total := Sum(it);
  }

  /** The test `assoc`: after one `next` on `iter![1,2,3,4]` one value is consumed and the rest is
      `[2,3,4]`; after two on four strings the rest is the last two. */
  method Assoc() returns (len: nat, consumed: nat, rest: seq<int>, words: seq<string>)
    ensures len == 4 && consumed == 1 && rest == [2, 3, 4]
    ensures words == ["world", "!"]
  {
    var it := new Arr([1, 2, 3, 4]);
    len := it.Len();
    var _ := it.Next();
    consumed := it.Consumed();
    rest := it.Rest();
    var strings := new Arr(["Hell", "o ", "world", "!"]);
    var _ := strings.Next();
    var _ := strings.Next();
    words := strings.Rest();
  }

  /** `iter![]` and an `Arr` over no arguments behave alike: no value and the hint (0, Some(0)). */
  method EmptyLikeZeroSlots() returns (fromEmpty: Option<int>, fromArr: Option<int>,
                                       hintEmpty: Bounds, hintArr: Bounds)
    ensures fromEmpty == fromArr == None
    ensures hintEmpty == hintArr == (0, Some(0))
  {
    var e := EmptyIter;
    fromEmpty, hintEmpty := e.Next(), e.SizeHint();
    var it := new Arr<int>([]);
    fromArr := it.Next();
    hintArr := it.SizeHint();
  }

  /** The as-written `size_hint` after one `next` on `iter![1,2,3]`: it still claims at least three
      values while two are left, breaking the exact-size contract. */
  method SizeHintAfterNext() returns (hint: Bounds, remaining: nat)
    ensures hint == (3, Some(3)) && remaining == 2
    ensures hint.0 > remaining
  {
    var it := new Arr([1, 2, 3]);
    var _ := it.Next();
    hint := it.SizeHint();
    remaining := |it.Rest()|;
  }
}
