/** A non-null raw pointer that uses the address 0x1 as its own "empty"
    marker.  Addresses are byte addresses; typed offsets are scaled by the
    element size, which the caller supplies. */
module Pointer {
  import opened Wrappers

  /** The raw null pointer, which `Ptr.New` refuses. */
  const RAW_NULL: nat := 0

  /** The address the empty pointer wraps. */
  const EMPTY_ADDR: nat := 1

  datatype Ptr = Ptr(addr: nat) {
    predicate IsNull() {
      addr == EMPTY_ADDR
    }

    /** The wrapped raw address. */
    function Get(): nat {
      addr
    }
  }

  /** Wraps a raw pointer; a raw null aborts. */
  function New(raw: nat): (r: Result<Ptr>)
    ensures r.Ok? <==> raw != RAW_NULL
    ensures r.Ok? ==> r.value.Get() == raw
    ensures r.Ok? ==> (r.value.IsNull() <==> raw == EMPTY_ADDR)
  {
    if raw == RAW_NULL then Err(Panic("null pointer")) else Ok(Ptr(raw))
  }

  /** The empty pointer. */
  function Empty(): (r: Ptr)
    ensures r.IsNull()
    ensures r.Get() != RAW_NULL
  {
    Ptr(EMPTY_ADDR)
  }

  /** Reinterpreting the pointee type keeps the address. */
  function Cast(p: Ptr): (r: Result<Ptr>)
    requires p.addr != RAW_NULL
    ensures r.Ok? && r.value.Get() == p.Get()
    ensures r.value.IsNull() == p.IsNull()
  {
    New(p.addr)
  }

  /** Moves the pointer by `count` elements of `elemSize` bytes.  Leaving
      the address space is undefined behaviour in the source and is a
      precondition here; landing on the raw null aborts. */
  function Offset(p: Ptr, count: int, elemSize: nat): (r: Result<Ptr>)
    requires p.addr + count * elemSize >= 0
    ensures r.Ok? <==> p.addr + count * elemSize != RAW_NULL
    ensures r.Ok? ==> r.value.Get() == p.Get() + count * elemSize
  {
    New(p.addr + count * elemSize)
  }

  /** Wrapping a non-null raw pointer and reading it back is the identity. */
  lemma NewGetRoundTrip(raw: nat)
    requires raw != RAW_NULL
    ensures New(raw).Ok? && New(raw).value.Get() == raw
  {
  }

  /** Offsets compose: moving by `a` then by `b` elements is moving by
      `a + b` elements (when neither step lands on null). */
  lemma OffsetCompose(p: Ptr, a: int, b: int, elemSize: nat)
    requires p.addr + a * elemSize >= 0
    requires p.addr + (a + b) * elemSize >= 0
    requires p.addr + a * elemSize != RAW_NULL
    ensures Offset(p, a, elemSize).Ok?
    ensures var q := Offset(p, a, elemSize).value;
            q.addr + b * elemSize >= 0 &&
            Offset(q, b, elemSize) == Offset(p, a + b, elemSize)
  {
    var q := Offset(p, a, elemSize).value;
    assert q.addr + b * elemSize == p.addr + (a + b) * elemSize by {
      assert (a + b) * elemSize == a * elemSize + b * elemSize;
    }
  }
}
