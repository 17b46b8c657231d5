/**
  NUL-terminated character buffers, as the C library sees them.

  A `char` buffer holds a C string: the characters before the first NUL (or
  the whole buffer when it holds none). `strlen`, `strdup` and `strcmp` in the
  process code only ever look at that prefix.
*/
module CStr {

  const NUL: char := 0 as char

  /** The C string held by the buffer contents `s`: its longest NUL-free
      prefix, which ends at the first NUL or at the end of `s`. */
  function CString(s: seq<char>): seq<char> {
    if s == [] || s[0] == NUL then [] else [s[0]] + CString(s[1..])
  }

  /** The C string is a prefix of the buffer, holds no NUL, and stops at a
      NUL or at the end of the buffer. */
  lemma {:induction false} CStringSpec(s: seq<char>)
    ensures var r := CString(s);
      && |r| <= |s| && r == s[..|r|]
      && NUL !in r
      && (|r| < |s| ==> s[|r|] == NUL)
  {
    if s != [] && s[0] != NUL {
      CStringSpec(s[1..]);
      var r := CString(s[1..]);
      assert CString(s) == [s[0]] + r;
      assert NUL !in [s[0]] + r;
    }
  }

  /** The three properties above determine the C string: any NUL-free prefix
      that stops at a NUL or at the end is it. */
  lemma {:induction false} CStringUnique(s: seq<char>, r: seq<char>)
    requires |r| <= |s| && r == s[..|r|] && NUL !in r
    requires |r| < |s| ==> s[|r|] == NUL
    ensures CString(s) == r
  {
    if r != [] {
      assert r[0] == s[0] && r[0] in r;
      assert NUL !in r[1..] by {
        forall j | 0 <= j < |r| - 1 ensures r[1..][j] != NUL {
          assert r[1..][j] == r[j + 1];
        }
      }
      CStringUnique(s[1..], r[1..]);
      assert r == [s[0]] + r[1..];
    }
  }

  /** Characters written after a NUL do not change the C string. */
  lemma CStringStopsAtNul(a: seq<char>, b: seq<char>)
    requires b != [] && b[0] == NUL
    ensures CString(a + b) == CString(a)
  {
    var r := CString(a);
    CStringSpec(a);
    if |r| < |a| {
      assert (a + b)[|r|] == a[|r|];
    } else {
      assert (a + b)[|r|] == b[0];
    }
    assert (a + b)[..|r|] == a[..|r|];
    CStringUnique(a + b, r);
  }

  /** Storing a NUL at position k inside the C string cuts it to length k. */
  lemma CStringCut(s: seq<char>, k: int)
    requires 0 <= k < |CString(s)| && k < |s|
    ensures CString(s[k := NUL]) == CString(s)[..k]
  {
    CStringSpec(s);
    var r := CString(s)[..k];
    assert s[k := NUL][..k] == r;
    CStringUnique(s[k := NUL], r);
  }

  /** strlen: the index of the first NUL, which is the length of the C string. */
  method StrLen(buf: array<char>) returns (n: int)
    requires NUL in buf[..]
    ensures 0 <= n < buf.Length && buf[n] == NUL
    ensures buf[..n] == CString(buf[..])
  {
    n := 0;
    while buf[n] != NUL
      invariant 0 <= n < buf.Length
      invariant NUL !in buf[..n]
      invariant NUL in buf[n..]
      decreases buf.Length - n
    {
      assert buf[n..] == [buf[n]] + buf[n + 1..];
      assert buf[..n + 1] == buf[..n] + [buf[n]];
      n := n + 1;
    }
    CStringUnique(buf[..], buf[..n]);
  }
}
