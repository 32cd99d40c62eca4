/** The two string helpers of str_util.h. A C string is a character buffer
    holding a NUL; its contents are the characters before the first NUL. */
module StrUtil {
  import opened CTypes

  const NUL: char := '\0'

  /** A buffer that holds a NUL-terminated string. */
  predicate IsCString(buf: seq<char>)
  {
    NUL in buf
  }

  /** strlen: the index of the first NUL. */
  function StrLen(buf: seq<char>): (n: nat)
    requires IsCString(buf)
    ensures n < |buf| && buf[n] == NUL
    ensures NUL !in buf[..n]
  {
    if buf[0] == NUL then 0
    else
      assert NUL in buf[1..];
      var n := 1 + StrLen(buf[1..]);
      assert buf[..n] == [buf[0]] + buf[1..][..n - 1];
      n
  }

  /** A NUL at `n` with none before it is the one strlen finds. */
  lemma {:induction false} StrLenUnique(buf: seq<char>, n: nat)
    requires n < |buf| && buf[n] == NUL && NUL !in buf[..n]
    ensures StrLen(buf) == n
  {
    if n > 0 {
      assert buf[0] == buf[..n][0];
      assert buf[1..][..n - 1] == buf[1..n];
      assert NUL !in buf[1..n] by {
        forall k | 1 <= k < n ensures buf[k] != NUL {
          assert buf[k] == buf[..n][k];
        }
      }
      StrLenUnique(buf[1..], n - 1);
    }
  }

  /** The string a `char*` at offset `off` of the buffer designates. */
  function StringAt(buf: seq<char>, off: nat): (s: seq<char>)
    requires off <= |buf| && IsCString(buf[off..])
    ensures NUL !in s
    ensures off + |s| < |buf| && buf[off + |s|] == NUL
    ensures s == buf[off..off + |s|]
  {
    var n := StrLen(buf[off..]);
    assert buf[off..][..n] == buf[off..off + n];
    buf[off..off + n]
  }

  // ---- str_util_find_last_of (str_util.h:37-50) ----

  /** `identifier` occurs in `str` starting at `i`, entirely within `str`. */
  predicate MatchesAt(str: seq<char>, identifier: seq<char>, i: nat)
  {
    i + |identifier| <= |str| && str[i..i + |identifier|] == identifier
  }

  /** memcmp(str + i, identifier, n) == 0 on the NUL-terminated buffer of
      `str`, where n = strlen(identifier), holds exactly when `identifier`
      fits inside `str` at `i`: where it would run past the end of `str`, the
      NUL of `str` meets a non-NUL character of `identifier`. */
  lemma MemcmpZeroIffMatch(buf: seq<char>, identifier: seq<char>, i: nat)
    requires IsCString(buf) && NUL !in identifier
    requires i < StrLen(buf) && i + |identifier| <= |buf|
    ensures buf[i..i + |identifier|] == identifier <==> MatchesAt(buf[..StrLen(buf)], identifier, i)
  {
    var len := StrLen(buf);
    var n := |identifier|;
    if i + n <= len {
      assert buf[..len][i..i + n] == buf[i..i + n];
    } else {
      assert buf[i..i + n][len - i] == NUL;
    }
  }

  /** str_util_find_last_of: the start of the last occurrence of
      `identifier` in `str`, or NULL when there is none. `str` and
      `identifier` are the contents of the two C strings. */
  method FindLastOf(str: seq<char>, identifier: seq<char>) returns (last: Option<nat>)
    requires NUL !in str && NUL !in identifier
    ensures last.Some? ==> last.value < |str| && MatchesAt(str, identifier, last.value)
    ensures last.Some? ==> forall j :: last.value < j < |str| ==> !MatchesAt(str, identifier, j)
    ensures last.None? <==> forall j :: 0 <= j < |str| ==> !MatchesAt(str, identifier, j)
    ensures str == [] ==> last.None?
    ensures identifier == [] && str != [] ==> last == Some(|str| - 1)
  {
    last := None;
    var i := 0;
    while i < |str|
      invariant 0 <= i <= |str|
      invariant last.Some? ==> last.value < i && MatchesAt(str, identifier, last.value)
      invariant last.Some? ==> forall j :: last.value < j < i ==> !MatchesAt(str, identifier, j)
      invariant last.None? ==> forall j :: 0 <= j < i ==> !MatchesAt(str, identifier, j)
    {
      if i + |identifier| <= |str| && str[i..i + |identifier|] == identifier {
        last := Some(i);
      }
      i := i + 1;
    }
    if identifier == [] && str != [] {
      assert MatchesAt(str, identifier, |str| - 1);
    }
  }

  // ---- str_util_trunc (str_util.h:53-70) ----

  function Abs(x: int): nat
  {
    if x < 0 then -x else x
  }

  /** The string str_util_trunc leaves behind: a positive `pos` drops that
      many characters from the front, a negative one drops that many from the
      back, and a string no longer than |pos| is left alone. */
  function Truncated(s: seq<char>, pos: int): (r: seq<char>)
    ensures |s| > Abs(pos) ==> |r| == |s| - Abs(pos)
    ensures |s| <= Abs(pos) ==> r == s
    ensures pos > 0 ==> r == s[|s| - |r|..]
    ensures pos <= 0 ==> r == s[..|r|]
  {
    if |s| > Abs(pos) then
      if pos > 0 then s[pos..] else s[..|s| + pos]
    else s
  }

  /** Cutting `pos > 0` characters from the front: the string at offset
      `pos` is the rest of the original. */
  lemma TruncFront(buf: seq<char>, pos: nat)
    requires IsCString(buf) && 0 < pos < StrLen(buf)
    ensures IsCString(buf[pos..])
    ensures StringAt(buf, pos) == Truncated(StringAt(buf, 0), pos)
  {
    var len := StrLen(buf);
    assert buf[pos..][len - pos] == NUL;
    assert buf[pos..][..len - pos] == buf[pos..len];
    StrLenUnique(buf[pos..], len - pos);
    assert buf[0..] == buf;
    assert Truncated(buf[..len], pos) == buf[..len][pos..] == buf[pos..len];
  }

  /** Cutting `-pos` characters from the back by writing a NUL at
      `len + pos`: the string is the front part of the original. */
  lemma TruncBack(buf: seq<char>, pos: int)
    requires IsCString(buf) && pos <= 0 && StrLen(buf) > -pos
    ensures IsCString(buf[StrLen(buf) + pos := NUL])
    ensures StringAt(buf[StrLen(buf) + pos := NUL], 0) == Truncated(StringAt(buf, 0), pos)
  {
    var len := StrLen(buf);
    var cut := buf[len + pos := NUL];
    assert cut[..len + pos] == buf[..len + pos];
    StrLenUnique(cut, len + pos);
    assert cut[0..] == cut;
    assert buf[0..] == buf;
  }

  /** str_util_trunc(str, pos) on the buffer `str`; the result is the offset
      within `str` of the returned pointer. A non-positive `pos` with room to
      cut writes a NUL at `len + pos`; every other case leaves the buffer as
      it was. `pos == INT_MIN` is excluded: `abs` overflows on it. */
  method Trunc(str: array<char>, pos: s32) returns (res: nat)
    requires IsCString(str[..])
    requires pos > INT_MIN
    modifies str
    ensures res <= str.Length && IsCString(str[res..])
    ensures StringAt(str[..], res) == Truncated(old(StringAt(str[..], 0)), pos)
    ensures var len := old(StrLen(str[..]));
      res == (if len > Abs(pos) && pos > 0 then pos else 0) &&
      str[..] == (if len > Abs(pos) && pos <= 0 then old(str[..])[len + pos := NUL] else old(str[..]))
  {
    var len := StrLen(str[..]);
    ghost var buf := str[..];
    assert buf[0..] == buf;
    res := 0;
    if len > Abs(pos) {
      if pos > 0 {
        res := pos;
        TruncFront(buf, pos);
      } else {
        str[len + pos] := NUL;
        assert str[..] == buf[len + pos := NUL];
        TruncBack(buf, pos);
        assert str[..][0..] == str[..];
      }
    }
  }
}
