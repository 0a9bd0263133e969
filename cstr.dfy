/** Bytes of NUL-terminated C strings, `strlen`, and the C library predicates the core relies on. */
module CStr {

  /** One byte of a buffer. The bytes of a C string itself are never NUL. */
  newtype byte = b: int | 0 <= b < 256

  type Bytes = seq<byte>

  /** The byte that ends a C string. */
  const Nul: byte := 0

  /** No byte of `s` is NUL: all of `s` is one C string. */
  predicate NoNul(s: Bytes)
  {
    forall i :: 0 <= i < |s| ==> s[i] != Nul
  }

  /**
   * `strlen` of a buffer holding `s` followed by a NUL: the index of the first NUL in
   * `s`, or `|s|` when `s` has none.
   */
  function StrLen(s: Bytes): (n: nat)
    ensures n <= |s| && NoNul(s[..n])
    ensures n < |s| ==> s[n] == Nul
    ensures NoNul(s) ==> n == |s|
    decreases |s|
  {
    if s == [] || s[0] == Nul then 0
    else
      var m := StrLen(s[1..]);
      assert s[..m + 1] == [s[0]] + s[1..][..m];
      m + 1
  }

  /** A scan that has met a NUL or the end, and nothing before, stands at `strlen`. */
  lemma StrLenStop(s: Bytes, i: nat)
    requires i <= StrLen(s) && (i == |s| || s[i] == Nul)
    ensures i == StrLen(s) && (NoNul(s) ==> s[..i] == s)
  {
    var n := StrLen(s);
    forall j | 0 <= j < n
      ensures s[j] != Nul
    {
      assert s[..n][j] == s[j];
    }
  }

  /**
   * `strncmp(p, s, strlen(p)) == 0`: the first `strlen(p)` bytes agree. When `s` is
   * shorter than `p`, its terminating NUL meets a non-NUL byte of `p` and the call
   * reports a difference, so `p` must fit inside `s`.
   */
  predicate IsPrefix(p: Bytes, s: Bytes)
  {
    |p| <= |s| && p == s[..|p|]
  }

  predicate IsProperPrefix(p: Bytes, s: Bytes)
  {
    IsPrefix(p, s) && |p| < |s|
  }

  /** `isspace` in the C locale: space, \t, \n, \v, \f and \r. */
  predicate IsSpace(b: byte)
  {
    b == 32 || 9 <= b <= 13
  }

  /** A set of identifiers none of which is a proper prefix of another. */
  ghost predicate PrefixFreeSet(ids: set<Bytes>)
  {
    forall a, b :: a in ids && b in ids ==> !IsProperPrefix(a, b)
  }

  /** Every id is a prefix of itself: the `strncmp` test accepts an exact match. */
  lemma PrefixReflexive(s: Bytes)
    ensures IsPrefix(s, s)
  {
    assert s[..|s|] == s;
  }
}
