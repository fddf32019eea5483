/** Go's byte slices and strings, as far as the reconcile pass uses them.

    A Go `string` is an immutable sequence of bytes; it is modelled as a
    `seq<char>` in which every character carries one byte value. Nothing in
    the pass decodes text, so equality, concatenation and suffix tests on
    these sequences are exactly Go's byte-wise operations.
 */
module GoText {

  /** One Go `byte`. */
  newtype byte = x: int | 0 <= x < 256

  /** A Go `string`: one character per byte. */
  type GoString = seq<char>

  /** The byte value of `'\n'`. */
  const Newline: byte := 10

  /** Go's conversion `string(b)`: the same bytes, viewed as a string. */
  function BytesToString(b: seq<byte>): (s: GoString)
    ensures |s| == |b|
    ensures forall i :: 0 <= i < |b| ==> s[i] as int == b[i] as int
  {
    seq(|b|, i requires 0 <= i < |b| => (b[i] as int) as char)
  }

  /** `string(b)` loses nothing: different byte slices give different strings. */
  lemma BytesToStringInjective(a: seq<byte>, b: seq<byte>)
    requires BytesToString(a) == BytesToString(b)
    ensures a == b
  {
    assert |a| == |b|;
    forall i | 0 <= i < |a|
      ensures a[i] == b[i]
    {
      assert BytesToString(a)[i] == BytesToString(b)[i];
    }
  }

  /** Converting a concatenation converts each part. */
  lemma BytesToStringAppend(a: seq<byte>, b: seq<byte>)
    ensures BytesToString(a + b) == BytesToString(a) + BytesToString(b)
  {
    var l, r := BytesToString(a + b), BytesToString(a) + BytesToString(b);
    assert |l| == |r|;
    forall i | 0 <= i < |l|
      ensures l[i] == r[i]
    {
      if i < |a| {
        assert (a + b)[i] == a[i];
      } else {
        assert (a + b)[i] == b[i - |a|];
      }
    }
  }

  /** Go's `strings.HasSuffix(s, suffix)`. */
  predicate HasSuffix(s: GoString, suffix: GoString) {
    |suffix| <= |s| && s[|s| - |suffix|..] == suffix
  }

  /** Go's `strings.TrimSuffix(s, suffix)`: removes ONE trailing occurrence
      of `suffix` when there is one and returns `s` unchanged otherwise. */
  function TrimSuffix(s: GoString, suffix: GoString): (r: GoString)
    ensures HasSuffix(s, suffix) ==> r + suffix == s
    ensures !HasSuffix(s, suffix) ==> r == s
  {
    if HasSuffix(s, suffix) then s[..|s| - |suffix|] else s
  }
}
