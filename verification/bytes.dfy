/** Bytes of the serial line and the two C string routines the listener
    relies on: the NUL-terminated view of a buffer and `strstr`. */
module ByteText {

  /** One octet of the serial line, written as the character with that code
      so that the name tables can be spelled as text. */
  type Byte = c: char | c as int < 256

  /** The terminator the listener stores after the bytes it read. */
  const NUL: Byte := '\0'

  /** The line feed (0x0A) that must end every accepted line. */
  const LF: Byte := '\n'

  /** The C string held by a buffer: its bytes up to the first NUL, or all of
      them when there is none. */
  function CString(s: seq<Byte>): (c: seq<Byte>)
    ensures c <= s
    ensures NUL !in c
    ensures |c| < |s| ==> s[|c|] == NUL
  {
    if |s| == 0 || s[0] == NUL then [] else [s[0]] + CString(s[1..])
  }

  /** The C string of a buffer is fixed by where its first NUL is. */
  lemma CStringAt(s: seq<Byte>, n: nat)
    requires n <= |s|
    requires NUL !in s[..n]
    requires n < |s| ==> s[n] == NUL
    ensures CString(s) == s[..n]
  {
  }

  /** Whatever follows a NUL is invisible to the string routines. */
  lemma CStringStopsAtNul(a: seq<Byte>, b: seq<Byte>)
    ensures CString(a + [NUL] + b) == CString(a)
  {
    var s := a + [NUL] + b;
    var c := CString(a);
    assert s[..|c|] == c;
    if |c| < |a| {
      assert s[|c|] == a[|c|];
    }
    CStringAt(s, |c|);
  }

  /** `n` occurs in `h` starting at position `p`. */
  predicate OccursAt(h: seq<Byte>, n: seq<Byte>, p: int)
  {
    0 <= p && p + |n| <= |h| && h[p..p + |n|] == n
  }

  /** `n` is a substring of `h`. */
  predicate Contains(h: seq<Byte>, n: seq<Byte>)
  {
    exists p | 0 <= p <= |h| - |n| :: OccursAt(h, n, p)
  }

  /** What `strstr(buf, n) != NULL` tests: `n` occurs in the C string held
      by `buf`. */
  predicate Finds(buf: seq<Byte>, n: seq<Byte>)
  {
    Contains(CString(buf), n)
  }

  /** `strlen`: the position of the first NUL, or the whole length when the
      buffer holds none. */
  method Strlen(s: seq<Byte>) returns (len: nat)
    ensures len <= |s|
    ensures NUL !in s[..len]
    ensures len < |s| ==> s[len] == NUL
  {
    len := 0;
    while len < |s| && s[len] != NUL
      invariant len <= |s|
      invariant NUL !in s[..len]
    {
      assert s[..len + 1] == s[..len] + [s[len]];
      len := len + 1;
    }
  }

  /** `strstr(haystack, needle) != NULL`: scans the C string held by
      `haystack` left to right, comparing `needle` byte by byte at each
      position. */
  method StrStr(haystack: seq<Byte>, needle: seq<Byte>) returns (found: bool)
    ensures found <==> Finds(haystack, needle)
  {
    var len := Strlen(haystack);
    CStringAt(haystack, len);
    var h := haystack[..len];
    var p := 0;
    while p + |needle| <= len
      invariant 0 <= p
      invariant forall q :: 0 <= q < p ==> !OccursAt(h, needle, q)
      decreases len - p
    {
      var k := 0;
      while k < |needle| && h[p + k] == needle[k]
        invariant 0 <= k <= |needle|
        invariant forall m :: 0 <= m < k ==> h[p + m] == needle[m]
      {
        k := k + 1;
      }
      if k == |needle| {
        assert OccursAt(h, needle, p);
        return true;
      }
      assert !OccursAt(h, needle, p) by {
        assert h[p..p + |needle|][k] == h[p + k];
      }
      p := p + 1;
    }
    return false;
  }
}
