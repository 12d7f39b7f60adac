/** A bounded vector laid over caller-provided memory: `items` are the
    first `len` elements, `cap` how many fit, `base` the address of the
    memory.  Address 0x1 marks the empty, unbacked slice. */
module RawSlices {
  import opened Wrappers
  import Ledger

  /** The address of an unbacked slice. */
  const NULL_BASE: nat := 1

  datatype RawSlice<T> = RawSlice(items: seq<T>, cap: nat, base: nat) {
    /** The elements stay within the memory. */
    predicate Valid() {
      |items| <= cap
    }

    predicate IsNull() {
      base == NULL_BASE
    }

    function Len(): nat {
      |items|
    }

    predicate IsEmpty() {
      |items| == 0
    }
  }

  /** The unbacked slice. */
  function Empty<T>(): (s: RawSlice<T>)
    ensures s.Valid() && s.Len() == 0 && s.cap == 0 && s.IsNull()
  {
    RawSlice([], 0, NULL_BASE)
  }

  /** A slice over memory at `base` whose first elements are `init`.  The
      memory must be non-null and hold `cap` elements. */
  function New<T>(base: nat, init: seq<T>, cap: nat): (s: RawSlice<T>)
    requires base != 0
    requires |init| <= cap
    ensures s.Valid() && s.items == init && s.cap == cap && s.base == base
  {
    RawSlice(init, cap, base)
  }

  /** Appends `x` unless the slice is full. */
  function Push<T>(s: RawSlice<T>, x: T): (r: (RawSlice<T>, Ledger.EmptyResult))
    requires s.Valid()
    ensures r.0.Valid() && r.0.cap == s.cap && r.0.base == s.base
    ensures r.1.IsErr() <==> s.Len() == s.cap
    ensures r.1.IsErr() ==> r.0 == s
    ensures r.1.IsOk() ==> r.0.items == s.items + [x]
  {
    if s.Len() == s.cap then (s, Ledger.Err)
    else (s.(items := s.items + [x]), Ledger.Ok)
  }

  /** Removes and returns the last element, if any. */
  function Pop<T>(s: RawSlice<T>): (r: (RawSlice<T>, Option<T>))
    ensures r.0.cap == s.cap && r.0.base == s.base
    ensures r.1.None? <==> s.IsEmpty()
    ensures r.1.None? ==> r.0 == s
    ensures r.1.Some? ==> s.items == r.0.items + [r.1.value]
  {
    if s.IsEmpty() then (s, None)
    else (s.(items := s.items[..|s.items| - 1]), Some(s.items[|s.items| - 1]))
  }

  /** Removes the element at `idx`, shifting the later ones down; an index
      past the end aborts. */
  function Remove<T>(s: RawSlice<T>, idx: nat): (r: Result<(RawSlice<T>, T)>)
    ensures r.Err? <==> s.Len() <= idx
    ensures r.Err? ==> r.IsPanic()
    ensures r.Ok? ==> r.value.1 == s.items[idx]
    ensures r.Ok? ==> r.value.0.items == s.items[..idx] + s.items[idx + 1..]
    ensures r.Ok? ==> r.value.0.cap == s.cap && r.value.0.base == s.base
  {
    if s.Len() <= idx then Err(Panic("remove index out of bounds"))
    else Ok((s.(items := s.items[..idx] + s.items[idx + 1..]), s.items[idx]))
  }

  /** Inserts `x` at `idx`, shifting the later elements up.  The source
      insists on an index inside the slice and on a spare slot beyond the
      new element, and aborts otherwise. */
  function Insert<T>(s: RawSlice<T>, idx: nat, x: T): (r: Result<RawSlice<T>>)
    ensures r.Err? <==> !(idx <= s.Len() && s.cap > s.Len() + 1)
    ensures r.Err? ==> r.IsPanic()
    ensures r.Ok? ==> r.value.Valid() && r.value.Len() == s.Len() + 1
    ensures r.Ok? ==> r.value.items[idx] == x
    ensures r.Ok? ==> r.value.items[..idx] == s.items[..idx] && r.value.items[idx + 1..] == s.items[idx..]
    ensures r.Ok? ==> r.value.cap == s.cap && r.value.base == s.base
  {
    if idx <= s.Len() && s.cap > s.Len() + 1 then Ok(s.(items := s.items[..idx] + [x] + s.items[idx..]))
    else Err(Panic("insert index or capacity out of bounds"))
  }

  /** Moves the elements to new memory of `newCap` elements, if they fit.
      The old elements are reached through the dereference, so moving an
      unbacked slice aborts. */
  function Resize<T>(s: RawSlice<T>, newBase: nat, newCap: nat): (r: Result<(RawSlice<T>, Ledger.EmptyResult)>)
    requires newBase != 0
    ensures r.Err? <==> s.IsNull() && s.Len() <= newCap
    ensures r.Err? ==> r.IsPanic()
    ensures r.Ok? ==> (r.value.1.IsOk() <==> s.Len() <= newCap)
    ensures r.Ok? && r.value.1.IsOk() ==> r.value.0 == RawSlice(s.items, newCap, newBase) && r.value.0.Valid()
    ensures r.Ok? && r.value.1.IsErr() ==> r.value.0 == s
  {
    if s.Len() <= newCap then
      match Deref(s)
      case Err(f) => Err(f)
      case Ok(items) => Ok((RawSlice(items, newCap, newBase), Ledger.Ok))
    else Ok((s, Ledger.Err))
  }

  /** The elements, or an abort for the unbacked slice. */
  function Deref<T>(s: RawSlice<T>): (r: Result<seq<T>>)
    ensures r.Err? <==> s.IsNull()
    ensures r.Err? ==> r.IsPanic()
    ensures r.Ok? ==> r.value == s.items
  {
    if s.IsNull() then Err(Panic("deref a null slice")) else Ok(s.items)
  }

  /** Popping what was just pushed restores the slice. */
  lemma PopUndoesPush<T>(s: RawSlice<T>, x: T)
    requires s.Valid() && s.Len() < s.cap
    ensures Pop(Push(s, x).0) == (s, Some(x))
  {
    var t := Push(s, x).0;
    assert t.items[..|t.items| - 1] == s.items;
  }

  /** Pushing back what was just popped restores the slice. */
  lemma PushUndoesPop<T>(s: RawSlice<T>)
    requires s.Valid() && !s.IsEmpty()
    ensures var (t, x) := Pop(s); Push(t, x.value) == (s, Ledger.Ok)
  {
  }

  /** Removing what was just inserted restores the slice. */
  lemma RemoveUndoesInsert<T>(s: RawSlice<T>, idx: nat, x: T)
    requires idx <= s.Len() && s.cap > s.Len() + 1
    ensures Insert(s, idx, x).Ok?
    ensures Remove(Insert(s, idx, x).value, idx) == Ok((s, x))
  {
    var t := Insert(s, idx, x).value;
    assert t.items[..idx] + t.items[idx + 1..] == s.items;
  }

  /** Resizing keeps the elements in order and only moves the memory. */
  lemma ResizeKeepsDeref<T>(s: RawSlice<T>, newBase: nat, newCap: nat)
    requires newBase != 0 && newBase != NULL_BASE
    requires s.Len() <= newCap && !s.IsNull()
    ensures Resize(s, newBase, newCap).Ok?
    ensures Deref(Resize(s, newBase, newCap).value.0) == Ok(s.items)
  {
  }
}
