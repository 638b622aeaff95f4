/** Little-endian and two's complement numbers as bytes. */
module LittleEndian {
  import opened ByteStrings

  function Pow256(n: nat): (p: nat)
    ensures p > 0
  {
    if n == 0 then 1 else 256 * Pow256(n - 1)
  }

  function ToLe(u: nat, n: nat): (s: Bytes)
    ensures |s| == n
  {
    if n == 0 then [] else [u % 256] + ToLe(u / 256, n - 1)
  }

  function FromLe(s: Bytes): nat {
    if |s| == 0 then 0 else s[0] + 256 * FromLe(s[1..])
  }

  lemma {:induction false} FromToLe(u: nat, n: nat)
    requires u < Pow256(n)
    ensures FromLe(ToLe(u, n)) == u
  {
    if n > 0 {
      FromToLe(u / 256, n - 1);
    }
  }

  lemma {:induction false} ToFromLe(s: Bytes)
    ensures FromLe(s) < Pow256(|s|) && ToLe(FromLe(s), |s|) == s
  {
    if |s| > 0 {
      ToFromLe(s[1..]);
      assert s == [s[0]] + s[1..];
    }
  }

  /** `v` has a two's complement in `n` bytes. */
  predicate Fits(v: int, n: nat)
    requires n > 0
  {
    -(128 * Pow256(n - 1)) <= v < 128 * Pow256(n - 1)
  }

  function ToSigned(v: int, n: nat): (s: Bytes)
    requires n > 0 && Fits(v, n)
    ensures |s| == n
  {
    ToLe(if v < 0 then v + Pow256(n) else v, n)
  }

  function FromSigned(s: Bytes): int
    requires |s| > 0
  {
    var u := FromLe(s);
    if u >= 128 * Pow256(|s| - 1) then u - Pow256(|s|) else u
  }

  lemma FromToSigned(v: int, n: nat)
    requires n > 0 && Fits(v, n)
    ensures FromSigned(ToSigned(v, n)) == v
  {
    FromToLe(if v < 0 then v + Pow256(n) else v, n);
  }

  lemma ToFromSigned(s: Bytes)
    requires |s| > 0
    ensures Fits(FromSigned(s), |s|) && ToSigned(FromSigned(s), |s|) == s
  {
    ToFromLe(s);
  }

  lemma Powers()
    ensures Pow256(1) == 256 && Pow256(2) == 65536 && Pow256(3) == 16777216 && Pow256(4) == 4294967296
    ensures Pow256(7) == 72057594037927936 && Pow256(8) == 18446744073709551616
  {
    assert Pow256(3) == 16777216;
    assert Pow256(6) == 281474976710656;
  }
}
