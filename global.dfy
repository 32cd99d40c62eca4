/** The pieces of logic in global.h: the bit-flag macros, the byte-to-binary
    character expansion, and the pointer table of the call-site trace log. */
module Global {
  import opened CTypes

  // ---- bit helpers (global.h:104-121) ----

  function Pow2(k: nat): nat
  {
    if k == 0 then 1 else 2 * Pow2(k - 1)
  }

  /** Bit `i` (counted from the least significant end) of a 32-bit word is set. */
  predicate HasBit(x: bv32, i: bv32)
    requires i < 32
  {
    (x >> i) & 1 == 1
  }

  /** FLAG(a) = `1 << a`: the word with exactly bit `a` set, i.e. 2^a. The
      shift is defined on a C `int` only for `a < 31`. */
  function Flag(a: bv32): (r: bv32)
    requires a < 31
    ensures r as int == Pow2(a as int)
  {
    FlagIsPow2(a);
    1 << a
  }

  lemma {:induction false} FlagIsPow2(a: bv32)
    requires a < 31
    ensures ((1 as bv32) << a) as int == Pow2(a as int)
    decreases a
  {
    if a > 0 {
      FlagIsPow2(a - 1);
      var x: bv32 := 1 << (a - 1);
      assert (1 as bv32) << a == x << 1;
      assert (x << 1) as int == 2 * x as int;
    }
  }

  lemma AndBit(a: bv32, b: bv32, i: bv32)
    requires i < 32
    ensures HasBit(a & b, i) <==> HasBit(a, i) && HasBit(b, i)
  {
  }

  lemma AndNotBit(a: bv32, b: bv32, i: bv32)
    requires i < 32
    ensures HasBit(a & !b, i) <==> HasBit(a, i) && !HasBit(b, i)
  {
  }

  /** A non-zero word has a set bit at or above `k` when its bits below `k`
      are all clear. */
  lemma {:induction false} LowestSetBit(x: bv32, k: bv32) returns (i: bv32)
    requires k <= 32 && x != 0
    requires x & ((1 << k) - 1) == 0
    ensures k <= i < 32 && HasBit(x, i)
    decreases 32 - k
  {
    if k == 32 {
      assert false;
    } else if HasBit(x, k) {
      i := k;
    } else {
      i := LowestSetBit(x, k + 1);
    }
  }

  /** HAS_FLAG(a, b) = `a & b`: non-zero exactly when `a` and `b` have a set
      bit in common. */
  function HasFlag(a: bv32, b: bv32): (r: bv32)
    ensures r != 0 <==> exists i: bv32 :: i < 32 && HasBit(a, i) && HasBit(b, i)
  {
    SharedBit(a, b);
    a & b
  }

  lemma SharedBit(a: bv32, b: bv32)
    ensures a & b != 0 <==> exists i: bv32 :: i < 32 && HasBit(a, i) && HasBit(b, i)
  {
    if a & b != 0 {
      var i := LowestSetBit(a & b, 0);
      AndBit(a, b, i);
    } else {
      forall i: bv32 | i < 32 ensures !(HasBit(a, i) && HasBit(b, i)) {
        AndBit(a, b, i);
      }
    }
  }

  /** REMOVE_FLAG(a, b) performs `a &= ~b`; the result is the new value of
      the updated lvalue `a`: every bit of `b` cleared, every other bit of `a`
      kept. */
  function RemoveFlag(a: bv32, b: bv32): (r: bv32)
    ensures forall i: bv32 :: i < 32 ==> (HasBit(r, i) <==> HasBit(a, i) && !HasBit(b, i))
    ensures r & b == 0
  {
    ClearedBits(a, b);
    a & !b
  }

  lemma ClearedBits(a: bv32, b: bv32)
    ensures forall i: bv32 :: i < 32 ==> (HasBit(a & !b, i) <==> HasBit(a, i) && !HasBit(b, i))
  {
    forall i: bv32 | i < 32 ensures HasBit(a & !b, i) <==> HasBit(a, i) && !HasBit(b, i) {
      AndNotBit(a, b, i);
    }
  }

  /** Removing the same flags a second time changes nothing. */
  lemma RemoveFlagIdempotent(a: bv32, b: bv32)
    ensures RemoveFlag(RemoveFlag(a, b), b) == RemoveFlag(a, b)
  {
  }

  // ---- BYTE_TO_BINARY (global.h:280-289) ----

  function BitChar(isSet: bool): char
  {
    if isSet then '1' else '0'
  }

  /** The byte with only bit `i` set, 2^i. This and `HasBit8` are the 8-bit
      counterparts of `Pow2` and `HasBit`: the mask is built by doubling in
      `bv8`, so the byte proofs need no conversion between `int` and
      bit-vectors, which is costly for the solver. */
  function Mask8(i: nat): u8
    requires i < 8
  {
    if i == 0 then 0x01 else 2 * Mask8(i - 1)
  }

  /** Bit `i` of a byte is set. */
  predicate HasBit8(b: u8, i: nat)
    requires i < 8
  {
    b & Mask8(i) != 0
  }

  /** BYTE_TO_BINARY(byte): eight characters, most significant bit first,
      `'1'` for a set bit and `'0'` for a clear one. */
  function ByteToBinary(b: u8): (r: seq<char>)
    ensures |r| == 8
    ensures forall k :: 0 <= k < 8 ==> (r[k] == '0' || r[k] == '1')
    ensures forall k :: 0 <= k < 8 ==> (r[k] == '1' <==> HasBit8(b, 7 - k))
  {
    MacroMasks(b);
    [ BitChar(b & 0x80 != 0), BitChar(b & 0x40 != 0),
      BitChar(b & 0x20 != 0), BitChar(b & 0x10 != 0),
      BitChar(b & 0x08 != 0), BitChar(b & 0x04 != 0),
      BitChar(b & 0x02 != 0), BitChar(b & 0x01 != 0) ]
  }

  /** The masks written out in the macro are the bits 7 down to 0. */
  lemma MacroMasks(b: u8)
    ensures HasBit8(b, 7) == (b & 0x80 != 0) && HasBit8(b, 6) == (b & 0x40 != 0)
    ensures HasBit8(b, 5) == (b & 0x20 != 0) && HasBit8(b, 4) == (b & 0x10 != 0)
    ensures HasBit8(b, 3) == (b & 0x08 != 0) && HasBit8(b, 2) == (b & 0x04 != 0)
    ensures HasBit8(b, 1) == (b & 0x02 != 0) && HasBit8(b, 0) == (b & 0x01 != 0)
  {
  }

  predicate IsBinaryDigits(s: seq<char>)
  {
    |s| == 8 && forall k :: 0 <= k < 8 ==> (s[k] == '0' || s[k] == '1')
  }

  /** Reads eight binary digits back into a byte, most significant first. */
  function BinaryToByte(s: seq<char>): u8
    requires |s| == 8
  {
    (if s[0] == '1' then 0x80 else 0) | (if s[1] == '1' then 0x40 else 0) |
    (if s[2] == '1' then 0x20 else 0) | (if s[3] == '1' then 0x10 else 0) |
    (if s[4] == '1' then 0x08 else 0) | (if s[5] == '1' then 0x04 else 0) |
    (if s[6] == '1' then 0x02 else 0) | (if s[7] == '1' then 0x01 else 0)
  }

  /** The expansion loses nothing: the byte is recovered from its digits. */
  lemma ByteToBinaryRoundTrip(b: u8)
    ensures BinaryToByte(ByteToBinary(b)) == b
  {
  }

  /** Every string of eight binary digits is the expansion of some byte. */
  lemma BinaryToByteRoundTrip(s: seq<char>)
    requires IsBinaryDigits(s)
    ensures ByteToBinary(BinaryToByte(s)) == s
  {
  }

  // ---- trace log pointer table (global.h:367-394) ----

  /** TRACE_LOG_LINE_MAX: characters per trace log line. */
  const TRACE_LOG_LINE_MAX: nat := 256

  /** A `char*` of the pointer table: NULL, or the row of the entries table
      it points at. */
  type EntryPtr = Option<nat>

  /** The pointer table after the "move lines around" step of
      __global_trace_func as written: element 0 is overwritten with the last
      element before the downward copy, so the copy into index 1 reads that
      new value. */
  function ShiftedAsWritten<T>(s: seq<T>): (r: seq<T>)
    requires |s| >= 1
    ensures |r| == |s|
    ensures r[0] == s[|s| - 1]
    ensures |s| >= 2 ==> r[1] == s[|s| - 1]
    ensures forall i :: 2 <= i < |s| ==> r[i] == s[i - 1]
  {
    if |s| == 1 then s else [s[|s| - 1], s[|s| - 1]] + s[1..|s| - 1]
  }

  /** The shift keeps exactly the values held at indices 1.. : the old
      element 0 is gone (unless it also occurred later) and nothing new
      appears. */
  lemma {:induction false} ShiftedAsWrittenValues<T>(s: seq<T>, x: T)
    requires |s| >= 2
    ensures x in ShiftedAsWritten(s) <==> x in s[1..]
  {
    var r := ShiftedAsWritten(s);
    if x in s[1..] {
      var j :| 1 <= j < |s| && s[j] == x;
      if j == |s| - 1 {
        assert r[0] == x;
      } else {
        assert r[j + 1] == x;
      }
    }
    if x in r {
      var j :| 0 <= j < |r| && r[j] == x;
      if j <= 1 {
        assert s[1..][|s| - 2] == x;
      } else {
        assert s[1..][j - 2] == x;
      }
    }
  }

  /** With pairwise distinct pointers (as after initialisation) the result
      is not a permutation: the first pointer is lost. */
  lemma ShiftedAsWrittenNotPermutation<T>(s: seq<T>)
    requires |s| >= 2
    requires forall i, j :: 0 <= i < j < |s| ==> s[i] != s[j]
    ensures s[0] !in ShiftedAsWritten(s)
    ensures multiset(ShiftedAsWritten(s)) != multiset(s)
  {
    ShiftedAsWrittenValues(s, s[0]);
    assert s[0] in multiset(s);
  }

  /** The evidently intended step: a rotation by one, the last pointer moving
      to the front. */
  function Rotated<T>(s: seq<T>): (r: seq<T>)
    requires |s| >= 1
    ensures |r| == |s|
    ensures r[0] == s[|s| - 1]
    ensures forall i :: 1 <= i < |s| ==> r[i] == s[i - 1]
    ensures multiset(r) == multiset(s)
  {
    assert s == s[..|s| - 1] + [s[|s| - 1]];
    [s[|s| - 1]] + s[..|s| - 1]
  }

  /** The trace log's global tables: __global_trace_file_entries__ (the
      lines) and __global_trace_file_entry_ptrs__ (the order they are written
      in). */
  class TraceTable {
    /** TRACE_LOG_MAX_LINES */
    const maxLines: nat
    const entries: array2<char>
    const ptrs: array<EntryPtr>

    ghost predicate Valid()
      reads this
    {
      maxLines >= 1 && ptrs.Length == maxLines &&
      entries.Length0 == maxLines && entries.Length1 == TRACE_LOG_LINE_MAX
    }

    /** Every pointer designates a row of the entries table. */
    ghost predicate PointsIntoEntries()
      reads this, ptrs
    {
      forall i :: 0 <= i < ptrs.Length ==> ptrs[i].Some? && ptrs[i].value < maxLines
    }

    /** The globals defined by TRACE_REGISTER(), zero-initialised: every
        pointer is NULL. */
    constructor (maxLines: nat)
      requires maxLines >= 1
      ensures Valid() && this.maxLines == maxLines
      ensures fresh(entries) && fresh(ptrs)
      ensures forall i :: 0 <= i < ptrs.Length ==> ptrs[i] == None
    {
      this.maxLines := maxLines;
      entries := new char[maxLines, TRACE_LOG_LINE_MAX];
      ptrs := new EntryPtr[maxLines](_ => None);
    }

    /** The loop of TRACE_INIT(): pointer `i` is aimed at line `i`. */
    method Init()
      requires Valid()
      modifies ptrs
      ensures forall i :: 0 <= i < ptrs.Length ==> ptrs[i] == Some(i)
      ensures PointsIntoEntries()
    {
      for i := 0 to maxLines
        invariant forall k :: 0 <= k < i ==> ptrs[k] == Some(k)
      {
        ptrs[i] := Some(i);
      }
    }

    /** The "move lines around" step of __global_trace_func, as written. */
    method Shift()
      requires Valid()
      modifies ptrs
      ensures ptrs[..] == ShiftedAsWritten(old(ptrs[..]))
      ensures old(PointsIntoEntries()) ==> PointsIntoEntries()
      ensures unchanged(entries)
    {
      ghost var s := ptrs[..];
      ptrs[0] := ptrs[maxLines - 1];
      var i := maxLines - 1;
      while i > 0
        invariant 0 <= i < maxLines
        invariant ptrs[0] == s[maxLines - 1]
        invariant forall k :: 1 <= k <= i ==> ptrs[k] == s[k]
        invariant forall k :: i < k < maxLines ==> ptrs[k] == (if k == 1 then s[maxLines - 1] else s[k - 1])
      {
        ptrs[i] := ptrs[i - 1];
        i := i - 1;
      }
      assert ptrs[..] == ShiftedAsWritten(s);
      if maxLines >= 2 {
        forall k | 0 <= k < maxLines
          ensures ptrs[k] in s[1..]
        {
          ShiftedAsWrittenValues(s, ptrs[k]);
        }
      }
    }

    /** The step as evidently intended: the last pointer is saved before the
        downward copy and placed at index 0, so the table is rotated. */
    method Rotate()
      requires Valid()
      modifies ptrs
      ensures ptrs[..] == Rotated(old(ptrs[..]))
      ensures old(PointsIntoEntries()) ==> PointsIntoEntries()
      ensures unchanged(entries)
    {
      ghost var s := ptrs[..];
      var last := ptrs[maxLines - 1];
      var i := maxLines - 1;
      while i > 0
        invariant 0 <= i < maxLines
        invariant forall k :: 0 <= k <= i ==> ptrs[k] == s[k]
        invariant forall k :: i < k < maxLines ==> ptrs[k] == s[k - 1]
      {
        ptrs[i] := ptrs[i - 1];
        i := i - 1;
      }
      ptrs[0] := last;
      assert ptrs[..] == Rotated(s);
    }
  }
}
