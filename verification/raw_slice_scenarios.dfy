/** The slice scenarios exercised by the ledger's unit tests, replayed on
    the model. */
module RawSliceScenarios {
  import opened Wrappers
  import opened RawSlices
  import Ledger

  /** Pushes `x` `n` times, stopping at the first refusal. */
  function PushMany<T>(s: RawSlice<T>, x: T, n: nat): (r: (RawSlice<T>, Ledger.EmptyResult))
    requires s.Valid()
    ensures r.0.Valid() && r.0.cap == s.cap
    ensures r.1.IsOk() <==> s.Len() + n <= s.cap
    ensures r.1.IsOk() ==> r.0.items == s.items + seq(n, _ => x)
    decreases n
  {
    if n == 0 then (s, Ledger.Ok)
    else
      var (t, e) := Push(s, x);
      if e.IsErr() then (t, e)
      else
        var r := PushMany(t, x, n - 1);
        assert r.1.IsOk() ==> r.0.items == s.items + seq(n, _ => x) by {
          if r.1.IsOk() {
            assert seq(n, _ => x) == [x] + seq(n - 1, _ => x);
          }
        }
        r
  }

  /** Pops `n` times; succeeds when every pop returned an element. */
  function PopMany<T>(s: RawSlice<T>, n: nat): (r: (RawSlice<T>, bool))
    ensures r.1 <==> n <= s.Len()
    ensures r.1 ==> r.0.items == s.items[..s.Len() - n]
    ensures r.0.cap == s.cap && r.0.base == s.base
    decreases n
  {
    if n == 0 then (s, true)
    else
      var (t, x) := Pop(s);
      if x.None? then (t, false) else PopMany(t, n - 1)
  }

  /** Sixteen bytes in a 32-byte buffer: two pushes, an element write,
      fourteen pushes fill it, a pop and a push, then a push past the end
      is refused with the contents untouched; 32 pops leave it
      empty, and `DrainedPopsScenario` covers the pops that follow. */
  lemma PushPopScenario()
    ensures var s0 := New(0x1000, seq(16, _ => 'a'), 32);
            var (s1, e1) := Push(s0, 'b');
            var (s2, e2) := Push(s1, 'c');
            var s3 := s2.(items := s2.items[0 := '.']);
            var (s4, e4) := PushMany(s3, '_', 14);
            var (s5, x5) := Pop(s4);
            var (s6, e6) := Push(s5, '@');
            var (s7, e7) := Push(s6, '!');
            && e1.IsOk() && s1.items == "aaaaaaaaaaaaaaaab"
            && e2.IsOk() && s2.items == "aaaaaaaaaaaaaaaabc"
            && s3.items == ".aaaaaaaaaaaaaaabc"
            && e4.IsOk() && x5 == Some('_') && e6.IsOk()
            && e7.IsErr() && s7 == s6
            && s7.items == ".aaaaaaaaaaaaaaabc_____________@"
            && PopMany(s7, 32).1 && PopMany(s7, 32).0.IsEmpty()
  {
    var s0 := New(0x1000, seq(16, _ => 'a'), 32);
    assert s0.items == "aaaaaaaaaaaaaaaa";
    var (s1, e1) := Push(s0, 'b');
    var (s2, e2) := Push(s1, 'c');
    var s3 := s2.(items := s2.items[0 := '.']);
    assert s3.items == ".aaaaaaaaaaaaaaabc";
    var (s4, e4) := PushMany(s3, '_', 14);
    assert s4.items == ".aaaaaaaaaaaaaaabc______________";
    var (s5, x5) := Pop(s4);
    assert s5.items == ".aaaaaaaaaaaaaaabc_____________";
    var (s6, e6) := Push(s5, '@');
    assert s6.items == ".aaaaaaaaaaaaaaabc_____________@";
  }

  /** The pops that end the push/pop test: on a drained slice, four pops
      in a row each find nothing and leave the slice as it is. */
  lemma DrainedPopsScenario<T>(s: RawSlice<T>)
    requires s.IsEmpty()
    ensures var (t1, y1) := Pop(s);
            var (t2, y2) := Pop(t1);
            var (t3, y3) := Pop(t2);
            var (t4, y4) := Pop(t3);
            && y1.None? && y2.None? && y3.None? && y4.None?
            && t1 == s && t2 == s && t3 == s && t4 == s
  {
  }

  /** `remove` returns the element and closes the gap. */
  lemma RemoveScenario()
    ensures var r0 := Remove(New(0x1000, [1, 2, 3, 4], 16), 2);
            r0 == Ok((New(0x1000, [1, 2, 4], 16), 3))
    ensures var r1 := Remove(New(0x1000, [0, 1, 2, 3, 4, 5, 6, 7, 8, 9], 16), 3);
            var r2 := Remove(r1.value.0, 8);
            var r3 := Remove(r2.value.0, 0);
            && r1 == Ok((New(0x1000, [0, 1, 2, 4, 5, 6, 7, 8, 9], 16), 3))
            && r2 == Ok((New(0x1000, [0, 1, 2, 4, 5, 6, 7, 8], 16), 9))
            && r3 == Ok((New(0x1000, [1, 2, 4, 5, 6, 7, 8], 16), 0))
  {
    var s0: seq<int> := [1, 2, 3, 4];
    assert s0[..2] + s0[3..] == [1, 2, 4];
    var s1: seq<int> := [0, 1, 2, 3, 4, 5, 6, 7, 8, 9];
    assert s1[..3] + s1[4..] == [0, 1, 2, 4, 5, 6, 7, 8, 9];
    var s2: seq<int> := [0, 1, 2, 4, 5, 6, 7, 8, 9];
    assert s2[..8] + s2[9..] == [0, 1, 2, 4, 5, 6, 7, 8];
    var s3: seq<int> := [0, 1, 2, 4, 5, 6, 7, 8];
    assert s3[..0] + s3[1..] == [1, 2, 4, 5, 6, 7, 8];
  }

  /** `insert` opens a gap at the index, including at the front and at
      the end. */
  lemma InsertScenario()
    ensures Insert(New(0x1000, [1, 2, 3, 4], 16), 2, 10) == Ok(New(0x1000, [1, 2, 10, 3, 4], 16))
    ensures var s1 := Insert(New(0x1000, [0, 1, 2, 3, 4, 5, 6, 7, 8, 9], 16), 0, 10);
            var s2 := Insert(s1.value, 11, 10);
            && s1 == Ok(New(0x1000, [10, 0, 1, 2, 3, 4, 5, 6, 7, 8, 9], 16)) && s1.value.Len() == 11
            && s2 == Ok(New(0x1000, [10, 0, 1, 2, 3, 4, 5, 6, 7, 8, 9, 10], 16)) && s2.value.Len() == 12
  {
    var s0: seq<int> := [1, 2, 3, 4];
    assert s0[..2] + [10] + s0[2..] == [1, 2, 10, 3, 4];
    var s1: seq<int> := [0, 1, 2, 3, 4, 5, 6, 7, 8, 9];
    assert s1[..0] + [10] + s1[0..] == [10] + s1;
    var r1 := Insert(New(0x1000, s1, 16), 0, 10);
    assert r1 == Ok(New(0x1000, [10] + s1, 16));
    var s2: seq<int> := [10] + s1;
    assert s2[..11] + [10] + s2[11..] == s2 + [10];
    assert Insert(r1.value, 11, 10) == Ok(New(0x1000, s2 + [10], 16));
    assert s2 == [10, 0, 1, 2, 3, 4, 5, 6, 7, 8, 9];
    assert s2 + [10] == [10, 0, 1, 2, 3, 4, 5, 6, 7, 8, 9, 10];
  }

  /** A full slice of 16 moves into 20 slots and then has room for a push. */
  lemma ResizeScenario()
    ensures var s0 := New(0x1000, seq(16, _ => 'a'), 16);
            && Resize(s0, 0x2000, 20).Ok?
            && var (s1, e1) := Resize(s0, 0x2000, 20).value;
               e1.IsOk() && s1.items == s0.items && Push(s1, 'b').1.IsOk()
  {
  }

  /** The unbacked slice is null and cannot be dereferenced. */
  lemma EmptyScenario()
    ensures Empty<int>().IsNull() && Deref(Empty<int>()).IsPanic()
    ensures Push(Empty<int>(), 7).1.IsErr() && Pop(Empty<int>()).1.None?
  {
  }
}
