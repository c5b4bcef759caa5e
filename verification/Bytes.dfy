/**
 Byte strings as the OSC library handles them: 4-byte alignment, zero padding, and C strings that
 end at the first NUL.
 */
module Bytes {

  type byte = b: int | 0 <= b < 256
  type bytes = seq<byte>

  datatype Option<+T> = None | Some(value: T)

  const NUL: byte := 0

  function Zeros(n: nat): (r: bytes)
    ensures |r| == n
    ensures forall i | 0 <= i < n :: r[i] == 0
  {
    seq(n, _ => 0)
  }

  /** Multiples of 4, counted off so that proofs need no division; `AlignedMeans` gives the usual form. */
  predicate Aligned(n: nat) {
    n == 0 || (n >= 4 && Aligned(n - 4))
  }

  lemma {:induction false} AlignedMeans(n: nat)
    ensures Aligned(n) <==> n % 4 == 0
  {
    if n >= 4 {
      AlignedMeans(n - 4);
    }
  }

  lemma {:induction false} AlignedAdd(m: nat, n: nat)
    requires Aligned(m)
    ensures Aligned(m + n) <==> Aligned(n)
  {
    if m > 0 {
      AlignedAdd(m - 4, n);
    }
  }

  /** Rounds up to the next multiple of 4; `Ceil4Means` gives the formula. */
  function Ceil4(n: nat): (r: nat)
    ensures Aligned(r) && n <= r < n + 4
    ensures Aligned(n) ==> r == n
  {
    if n == 0 then 0 else if n <= 4 then 4 else 4 + Ceil4(n - 4)
  }

  /** Adding 3 and clearing the two low-order bits. */
  lemma {:induction false} Ceil4Means(n: nat)
    ensures Ceil4(n) == (n + 3) / 4 * 4
  {
    if n > 4 {
      Ceil4Means(n - 4);
    }
  }

  lemma {:induction false} Ceil4Least(n: nat, m: nat)
    requires n <= m && Aligned(m)
    ensures Ceil4(n) <= m
  {
    if n > 4 {
      Ceil4Least(n - 4, m - 4);
    }
  }

  lemma {:induction false} Ceil4Shift(base: nat, n: nat)
    requires Aligned(base)
    ensures Ceil4(base + n) == base + Ceil4(n)
  {
    if base > 0 {
      Ceil4Shift(base - 4, n);
    }
  }

  /** Zero padding up to the next multiple of 4. */
  function Pad(d: bytes): (r: bytes)
    ensures |r| == Ceil4(|d|) && d <= r
    ensures forall i | |d| <= i < |r| :: r[i] == 0
  {
    d + Zeros(Ceil4(|d|) - |d|)
  }

  /** A byte string that is zero from `n` up to the next multiple of 4, and no further, is a padding. */
  lemma PadUnique(d: bytes, n: nat)
    requires n <= |d| == Ceil4(n)
    requires forall k | n <= k < |d| :: d[k] == 0
    ensures d == Pad(d[..n])
  {}

  /** Index of the first `c` at or after `from`, or the length when there is none (`strchr`, `memchr`). */
  function Find(d: bytes, from: nat, c: byte): (r: nat)
    requires from <= |d|
    ensures from <= r <= |d|
    ensures forall k | from <= k < r :: d[k] != c
    ensures r < |d| ==> d[r] == c
    decreases |d| - from
  {
    if from == |d| || d[from] == c then from else Find(d, from + 1, c)
  }

  lemma {:induction false} FindAt(d: bytes, from: nat, c: byte, r: nat)
    requires from <= r <= |d|
    requires forall k | from <= k < r :: d[k] != c
    requires r < |d| ==> d[r] == c
    ensures Find(d, from, c) == r
  {
  }

  /** What a C string function sees of a byte string: everything before the first NUL. */
  function CStr(d: bytes): (r: bytes)
    ensures 0 !in r && r <= d
    ensures 0 !in d ==> r == d
  {
    d[..Find(d, 0, NUL)]
  }

  lemma CStrSame(d: bytes)
    requires NUL !in d
    ensures CStr(d) == d
  {
  }

  lemma {:induction false} CStrEnds(a: bytes, more: bytes)
    requires 0 !in a
    ensures CStr(a + [0] + more) == a
  {
    var s := a + [0] + more;
    assert forall k | 0 <= k < |a| :: s[k] == a[k];
    FindAt(s, 0, NUL, |a|);
  }
}
