/** The bump (arena) allocator of bump_alloc.h: a buffer of `size` bytes and
    a cursor `pos`; allocation advances the cursor, reset rewinds it, free
    gives the buffer back. */
module BumpAlloc {
  import opened CTypes

  // ---- the cursor arithmetic of bump_alloc, as written (bump_alloc.h:50-57) ----

  /** One call of bump_alloc on cursor `pos` and buffer size `size`: the
      32-bit sum `pos + n` is compared strictly against `size`; on success
      the cursor moves to that sum, and the returned address is the byte at
      the NEW cursor. `None` is the NULL return of the out-of-memory path. */
  function AllocStep(pos: u32, size: u32, n: u32): (r: Option<u32>)
    ensures r.Some? ==> r.value < size
    ensures pos + n < U32_MODULUS ==> (r.Some? <==> pos + n < size)
    ensures pos + n < U32_MODULUS && r.Some? ==> r.value == pos + n
    ensures pos + n >= U32_MODULUS ==> (r.Some? <==> pos + n - U32_MODULUS < size)
    ensures pos + n >= U32_MODULUS && r.Some? ==> r.value == pos + n - U32_MODULUS
  {
    var sum := Add32(pos, n);
    if sum < size then Some(sum) else None
  }

  /** A request of zero bytes always succeeds and leaves the cursor where it
      is. */
  lemma ZeroSizeKeepsCursor(pos: u32, size: u32)
    requires pos < size
    ensures AllocStep(pos, size, 0) == Some(pos)
  {
  }

  /** The strict comparison refuses a request that exactly fills the rest
      of the buffer; in particular a fresh allocator cannot hand out its
      whole buffer. */
  lemma ExactFitRefused(pos: u32, size: u32, n: u32)
    requires pos + n == size
    ensures AllocStep(pos, size, n) == None
  {
  }

  /** The returned region `[ret, ret + n)` starts `n` bytes past the old
      cursor, so it stays inside the buffer only when `pos + 2 * n <= size`. */
  lemma ReturnedRegionBounds(pos: u32, size: u32, n: u32)
    requires pos + n < U32_MODULUS
    requires AllocStep(pos, size, n).Some?
    ensures AllocStep(pos, size, n).value == pos + n
    ensures AllocStep(pos, size, n).value + n <= size <==> pos + 2 * n <= size
  {
  }

  /** Counterexample: with size 10, a 6-byte request from a fresh cursor
      gets the address at offset 6, and its bytes run to offset 12. */
  lemma ReturnedRegionOverruns()
    ensures AllocStep(0, 10, 6) == Some(6) && 6 + 6 > 10
  {
  }

  /** Two successful requests, `m` bytes and then `k < m` bytes, get
      regions that overlap: the second address lies strictly inside the
      first region (e.g. 4 then 1 byte give [4, 8) and [5, 6)). */
  lemma ReturnedRegionsOverlap(pos: u32, size: u32, m: u32, k: u32)
    requires pos + m + k < size && 1 <= k < m
    ensures AllocStep(pos, size, m).Some?
    ensures AllocStep(AllocStep(pos, size, m).value, size, k).Some?
    ensures var p1 := AllocStep(pos, size, m).value;
      var p2 := AllocStep(p1, size, k).value;
      p1 < p2 < p1 + m
  {
  }

  /** Counterexample: the 32-bit sum wraps, passes the check, and moves the
      cursor backwards (from 5 to 2), handing out bytes that are in use. */
  lemma WrappedSumMovesCursorBack()
    ensures AllocStep(5, 10, U32_MODULUS - 3) == Some(2)
  {
  }

  /** A successful step moves the cursor backwards exactly when the 32-bit
      sum wraps around; without wrap-around the cursor never decreases. */
  lemma CursorMovesBackOnlyByWrap(pos: u32, size: u32, n: u32)
    requires AllocStep(pos, size, n).Some?
    ensures AllocStep(pos, size, n).value < pos <==> pos + n >= U32_MODULUS
  {
  }

  /** The concrete usage scenario of an arena with 16 bytes, as written:
      4 bytes give offset 4, 8 more give 12, 5 more fail, and the exact-fit
      4 bytes fail too. */
  lemma AsWrittenScenario()
    ensures AllocStep(0, 16, 4) == Some(4)
    ensures AllocStep(4, 16, 8) == Some(12)
    ensures AllocStep(12, 16, 5) == None
    ensures AllocStep(12, 16, 4) == None
    ensures AllocStep(0, 16, 16) == None
  {
  }

  // ---- the allocator object (bump_alloc.h:13-91) ----

  /** bump_alloc_t. `data == null` is the uninitialised (or freed) state. */
  class BumpAllocator {
    var data: array?<u8>
    var size: u32
    var pos: u32

    /** While initialised the buffer has `size` bytes and the cursor lies
        inside it. */
    ghost predicate Valid()
      reads this
    {
      data != null ==> data.Length == size && pos < size
    }

    /** A zero-initialised `bump_alloc_t` (`= { 0 }`). */
    constructor ()
      ensures Valid()
      ensures data == null && size == 0 && pos == 0
    {
      data := null;
      size := 0;
      pos := 0;
    }

    /** bump_init: requires an allocator without a buffer and a non-zero
        size; acquires a fresh buffer of `n` bytes and resets the cursor. */
    method Init(n: u32)
      requires data == null
      requires n > 0
      modifies this
      ensures Valid()
      ensures data != null && fresh(data) && data.Length == n
      ensures size == n && pos == 0
    {
      data := new u8[n];
      size := n;
      pos := 0;
    }

    /** bump_alloc: requires an initialised allocator. On success the cursor
        advances and the returned offset is the new cursor; on the
        out-of-memory path NULL is returned and nothing changes. */
    method Alloc(n: u32) returns (ret: Option<u32>)
      requires Valid()
      requires data != null
      modifies this
      ensures Valid()
      ensures data == old(data) && size == old(size)
      ensures ret == AllocStep(old(pos), size, n)
      ensures ret.Some? ==> pos == ret.value && ret.value < data.Length
      ensures ret.None? ==> pos == old(pos)
    {
      var step := AllocStep(pos, size, n);
      if step.Some? {
        pos := step.value;
        ret := Some(pos);
      } else {
        ret := None;
      }
    }

    /** bump_reset: rewinds the cursor; the buffer and its size are kept.
        It does not require a buffer. */
    method Reset()
      requires Valid()
      modifies this
      ensures Valid()
      ensures data == old(data) && size == old(size) && pos == 0
    {
      pos := 0;
    }

    /** bump_free: requires a buffer; releases it and zeroes every field, so
        the allocator is back in the uninitialised state. */
    method Free()
      requires Valid()
      requires data != null
      modifies this
      ensures Valid()
      ensures data == null && size == 0 && pos == 0
    {
      data := null;
      size := 0;
      pos := 0;
    }
  }

  /** What a caller of the allocator as written can rely on, step by step. */
  method AsWrittenUsage()
  {
    var a := new BumpAllocator();
    a.Init(16);
    var p := a.Alloc(4);
    assert p == Some(4);
    p := a.Alloc(8);
    assert p == Some(12);
    p := a.Alloc(5);
    assert p == None && a.pos == 12;
    p := a.Alloc(4);
    assert p == None;
    a.Reset();
    p := a.Alloc(16);
    assert p == None;
    p := a.Alloc(15);
    assert p == Some(15);
    a.Free();
    assert a.data == null;
    a.Init(8);
    assert a.pos == 0 && a.size == 8;
  }

  // ---- the arena contract the source evidently intends ----

  /** A granted region and the cursor after it. */
  datatype Grant = Grant(start: nat, next: nat)

  /** Arena allocation as intended: the request fits when `cursor + n` does
      not exceed the capacity (compared without wrap-around), the region
      begins at the OLD cursor, and the cursor moves to its end. */
  function IntendedAlloc(cursor: nat, capacity: nat, n: nat): (r: Option<Grant>)
    ensures r.Some? <==> cursor + n <= capacity
    ensures r.Some? ==> r.value.start == cursor
    ensures r.Some? ==> r.value.start + n == r.value.next <= capacity
  {
    if cursor + n <= capacity then Some(Grant(cursor, cursor + n)) else None
  }

  /** The corrected check written in the allocator's own u32 arithmetic:
      comparing `n` against the room left, `size - pos`, cannot wrap, and
      gives exactly the intended contract. */
  function CorrectedAllocStep(pos: u32, size: u32, n: u32): (r: Option<Grant>)
    requires pos <= size
    ensures r == IntendedAlloc(pos, size, n)
    ensures r.Some? ==> r.value.next < U32_MODULUS
  {
    if n <= size - pos then Some(Grant(pos, pos + n)) else None
  }

  function Sum(ns: seq<nat>): nat
  {
    if ns == [] then 0 else ns[0] + Sum(ns[1..])
  }

  /** The starts of a run of intended allocations from `cursor`, or `None`
      when one of them is refused. */
  function IntendedRun(cursor: nat, capacity: nat, ns: seq<nat>): Option<seq<nat>>
    decreases |ns|
  {
    if ns == [] then Some([])
    else match IntendedAlloc(cursor, capacity, ns[0])
      case None => None
      case Some(g) =>
        match IntendedRun(g.next, capacity, ns[1..])
        case None => None
        case Some(rest) => Some([g.start] + rest)
  }

  lemma {:induction false} SumSplit(ns: seq<nat>, k: nat)
    requires k < |ns|
    ensures Sum(ns[..k + 1]) == Sum(ns[..k]) + ns[k]
  {
    if k > 0 {
      assert ns[..k + 1][1..] == ns[1..][..k];
      assert ns[..k][1..] == ns[1..][..k - 1];
      SumSplit(ns[1..], k - 1);
    }
  }

  lemma {:induction false} SumPrefixBound(ns: seq<nat>, k: nat)
    requires k <= |ns|
    ensures Sum(ns[..k]) <= Sum(ns)
  {
    if k > 0 {
      assert ns[..k][1..] == ns[1..][..k - 1];
      SumPrefixBound(ns[1..], k - 1);
    }
  }

  /** A run of requests whose sizes add up to at most the room left always
      succeeds, and lays the regions out back to back: the k-th region starts
      at the cursor plus the sizes before it, ends no later than the next one
      starts, and stays inside the buffer. */
  lemma {:induction false} IntendedRunBackToBack(cursor: nat, capacity: nat, ns: seq<nat>)
    requires cursor + Sum(ns) <= capacity
    ensures IntendedRun(cursor, capacity, ns).Some?
    ensures var starts := IntendedRun(cursor, capacity, ns).value;
      |starts| == |ns| &&
      (forall k :: 0 <= k < |ns| ==> starts[k] == cursor + Sum(ns[..k])) &&
      (forall k :: 0 <= k < |ns| ==> starts[k] + ns[k] <= capacity) &&
      (forall j, k :: 0 <= j < k < |ns| ==> starts[j] + ns[j] <= starts[k])
    decreases |ns|
  {
    if ns != [] {
      IntendedRunBackToBack(cursor + ns[0], capacity, ns[1..]);
      var rest := IntendedRun(cursor + ns[0], capacity, ns[1..]).value;
      var starts := IntendedRun(cursor, capacity, ns).value;
      assert starts == [cursor] + rest;
      forall k | 0 <= k < |ns|
        ensures starts[k] == cursor + Sum(ns[..k])
      {
        if k > 0 {
          assert ns[..k][1..] == ns[1..][..k - 1];
        }
      }
      forall k | 0 <= k < |ns|
        ensures starts[k] + ns[k] <= capacity
      {
        SumSplit(ns, k);
        SumPrefixBound(ns, k + 1);
      }
      forall j, k | 0 <= j < k < |ns|
        ensures starts[j] + ns[j] <= starts[k]
      {
        SumSplit(ns, j);
        SumPrefixBound(ns[..k], j + 1);
        assert ns[..k][..j + 1] == ns[..j + 1];
      }
    }
  }

  /** How the code as written relates to the intended contract when the
      32-bit sum does not wrap: a request is accepted exactly when one more
      byte would still fit, and the address handed back is the END of the
      intended region, not its start. */
  lemma AsWrittenVersusIntended(pos: u32, size: u32, n: u32)
    requires pos + n < U32_MODULUS
    ensures AllocStep(pos, size, n).Some? <==> IntendedAlloc(pos, size, n + 1).Some?
    ensures AllocStep(pos, size, n).Some? ==>
      AllocStep(pos, size, n).value == IntendedAlloc(pos, size, n).value.next
  {
  }

  /** The same 16-byte scenario under the intended contract: offsets 0, 4
      and 12, the 5-byte request refused with the cursor kept at 12, the
      exact fit accepted, and after a reset the whole buffer at offset 0. */
  lemma IntendedScenario()
    ensures IntendedAlloc(0, 16, 4) == Some(Grant(0, 4))
    ensures IntendedAlloc(4, 16, 8) == Some(Grant(4, 12))
    ensures IntendedAlloc(12, 16, 5) == None
    ensures IntendedAlloc(12, 16, 4) == Some(Grant(12, 16))
    ensures IntendedAlloc(16, 16, 1) == None
    ensures IntendedAlloc(0, 16, 16) == Some(Grant(0, 16))
  {
  }
}
