/** Byte strings and the small helpers shared by the stream relay. */
module Bytes {

  /** One octet of a Python `bytes` object. */
  newtype byte = x: int | 0 <= x < 256

  /** The result of a search that may fail (Python's `-1`). */
  datatype Option<+T> = None | Some(value: T)

  /** True if every character of `s` is 7-bit ASCII. */
  predicate IsAscii(s: string) {
    forall i :: 0 <= i < |s| ==> s[i] as int < 128
  }

  /** The ASCII encoding of `s`, one byte per character. */
  function Ascii(s: string): (r: seq<byte>)
    requires IsAscii(s)
    ensures |r| == |s|
    ensures forall i :: 0 <= i < |s| ==> r[i] as int == s[i] as int
  {
    seq(|s|, i requires 0 <= i < |s| => s[i] as int as byte)
  }

  /** Concatenation is associative (stated once, for any element type). */
  lemma AppendAssoc<T>(a: seq<T>, b: seq<T>, c: seq<T>)
    ensures a + (b + c) == (a + b) + c
  {
  }

  /** A run that starts with `x` followed by `first + second` is `[x] + first`, then `second`. */
  lemma Regroup<T>(whole: seq<T>, x: T, rest: seq<T>, first: seq<T>, second: seq<T>)
    requires whole == [x] + rest && rest == first + second
    ensures whole == ([x] + first) + second
  {
    AppendAssoc([x], first, second);
  }

  /** A sequence that starts with `lead`, followed by four known pieces, is their concatenation. */
  lemma Reassemble<T>(f: seq<T>, lead: seq<T>, a: seq<T>, b: seq<T>, c: seq<T>, d: seq<T>)
    requires |lead| <= |f| && f[..|lead|] == lead
    requires f[|lead|..] == a + (b + c + d)
    ensures f == lead + a + b + c + d
  {
    assert f == f[..|lead|] + f[|lead|..];
  }

  /** Five pieces joined in order, grouped after the first piece or after the third. */
  lemma Regroup5<T>(a: seq<T>, b: seq<T>, c: seq<T>, d: seq<T>, e: seq<T>)
    ensures (a + b + c + d) + e == a + (b + c + d + e)
    ensures (a + b + c + d) + e == (a + b) + c + (d + e)
  {
  }

  /** A slice of a suffix is a slice of the whole, moved by the suffix's offset. */
  lemma SliceOfDrop<T>(u: seq<T>, d: nat, i: nat, j: nat)
    requires d <= |u| && i <= j <= |u| - d
    ensures u[d..][i..j] == u[d + i..d + j]
    ensures u[d..][j..] == u[d + j..]
  {
  }

  /** A slice that ends inside `a` does not see what is appended to `a`. */
  lemma SliceOfAppend<T>(a: seq<T>, t: seq<T>, i: nat, j: nat)
    requires i <= j <= |a|
    ensures (a + t)[i..j] == a[i..j]
    ensures (a + t)[j..] == a[j..] + t
  {
  }
}
