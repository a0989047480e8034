/** Small definitions that several components share. */
module Common {

  datatype Option<T> = None | Some(value: T)

  type byte = b: int | 0 <= b < 256

  const I64_MIN: int := -0x8000_0000_0000_0000
  const I64_MAX: int := 0x7fff_ffff_ffff_ffff

  function Min(a: nat, b: nat): nat { if a < b then a else b }

  function Pow2(n: nat): nat {
    if n == 0 then 1 else 2 * Pow2(n - 1)
  }

  /** s without the element at k. */
  function Without<T>(s: seq<T>, k: nat): (r: seq<T>)
    requires k < |s|
    ensures |r| == |s| - 1
  {
    s[..k] + s[k + 1..]
  }

  /** s with x put in at k. */
  function InsertAt<T>(s: seq<T>, k: nat, x: T): (r: seq<T>)
    requires k <= |s|
    ensures |r| == |s| + 1
  {
    s[..k] + [x] + s[k..]
  }

  lemma WithoutOne<T>(s: seq<T>, k: nat)
    requires k < |s| && forall i, j | 0 <= i < j < |s| :: s[i] != s[j]
    ensures forall t :: t in Without(s, k) <==> t in s && t != s[k]
    ensures forall i, j | 0 <= i < j < |Without(s, k)| :: Without(s, k)[i] != Without(s, k)[j]
  {
    assert s == s[..k] + [s[k]] + s[k + 1..];
  }
}
