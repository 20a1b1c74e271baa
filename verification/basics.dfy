/** Bytes, little-endian integers and byte sums: the arithmetic the wire
    format of the GT521F32 protocol is built from. */
module Basics {

  /** One octet, as Python's `bytes` elements are. */
  type byte = x: int | 0 <= x < 256

  datatype Option<+T> = None | Some(value: T)

  /** What a call produced: a value, or the exception it raised. */
  datatype Result<+T, +E> = Ok(value: T) | Err(error: E)

  function Min(a: int, b: int): int
  {
    if a <= b then a else b
  }

  /** Python's `sum()` over a byte string. */
  function Sum(s: seq<byte>): nat
  {
    if s == [] then 0 else s[0] + Sum(s[1..])
  }

  lemma {:induction false} SumAppend(a: seq<byte>, b: seq<byte>)
    ensures Sum(a + b) == Sum(a) + Sum(b)
  {
    if a == [] {
      assert a + b == b;
    } else {
      assert (a + b)[1..] == a[1..] + b;
      SumAppend(a[1..], b);
    }
  }

  /** Replacing one byte changes the sum by exactly the difference. */
  lemma {:induction false} SumUpdate(s: seq<byte>, i: nat, b: byte)
    requires i < |s|
    ensures Sum(s[i := b]) + s[i] == Sum(s) + b
  {
    if i == 0 {
      assert s[i := b][1..] == s[1..];
    } else {
      assert s[i := b][1..] == s[1..][i - 1 := b];
      SumUpdate(s[1..], i - 1, b);
    }
  }

  /** 256 to the power n: the number of values an n-byte field holds. */
  function Pow256(n: nat): nat
  {
    if n == 0 then 1 else 256 * Pow256(n - 1)
  }

  /** The little-endian encoding of v in `width` bytes (struct's `<H`, `<L`, `B`). */
  function Le(v: nat, width: nat): (r: seq<byte>)
    ensures |r| == width
  {
    if width == 0 then [] else [v % 256] + Le(v / 256, width - 1)
  }

  /** The value of a little-endian byte string. */
  function FromLe(bs: seq<byte>): nat
  {
    if bs == [] then 0 else bs[0] + 256 * FromLe(bs[1..])
  }

  lemma {:induction false} FromLeBound(bs: seq<byte>)
    ensures FromLe(bs) < Pow256(|bs|)
  {
    if bs != [] {
      FromLeBound(bs[1..]);
    }
  }

  /** Decoding an encoding gives the value back, when the value fits. */
  lemma {:induction false} FromLeLe(v: nat, width: nat)
    requires v < Pow256(width)
    ensures FromLe(Le(v, width)) == v
  {
    if width > 0 {
      FromLeLe(v / 256, width - 1);
      assert Le(v, width)[1..] == Le(v / 256, width - 1);
    }
  }

  /** Encoding a decoded string gives the string back. */
  lemma {:induction false} LeFromLe(bs: seq<byte>)
    ensures Le(FromLe(bs), |bs|) == bs
  {
    if bs != [] {
      var rest := FromLe(bs[1..]);
      DivMod256(bs[0], rest);
      LeFromLe(bs[1..]);
      assert Le(FromLe(bs), |bs|) == [bs[0]] + Le(rest, |bs| - 1);
    }
  }

  lemma DivMod256(lo: int, hi: nat)
    requires 0 <= lo < 256
    ensures (lo + 256 * hi) % 256 == lo
    ensures (lo + 256 * hi) / 256 == hi
  {
  }

  lemma TwoByteValue(bs: seq<byte>)
    requires |bs| == 2
    ensures FromLe(bs) == bs[0] as int + 256 * (bs[1] as int)
  {
    assert bs[1..][1..] == [];
    assert FromLe(bs[1..]) == bs[1] as int + 256 * FromLe(bs[1..][1..]);
  }

  /** A prefix of length n + m splits at n. */
  lemma SplitPrefix<T>(s: seq<T>, n: nat, m: nat)
    requires n + m <= |s|
    ensures s[..n + m] == s[..n] + s[n..][..m]
  {
  }

  /** A slice of a suffix is a slice of the whole. */
  lemma SliceShift<T>(s: seq<T>, n: nat, a: nat, e: nat)
    requires n + a <= n + e <= |s|
    ensures s[n..][a..e] == s[n + a..n + e]
  {
  }

  lemma Rejoin<T>(s: seq<T>, k: nat)
    requires k <= |s|
    ensures s[..k] + s[k..] == s
  {
  }
}
