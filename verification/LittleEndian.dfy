/** Little-endian numbers.  `value & 0xFF` and `value >> 8` are written as remainder and
    quotient, and the `|` of shifted bytes as a sum. */
module LittleEndian {
  import opened Types

  function Pow256(n: nat): (p: nat)
    ensures p > 0
  {
    if n == 0 then 1 else 256 * Pow256(n - 1)
  }

  /** The low n bytes of v, least significant first. */
  function Le(v: nat, n: nat): (b: Bytes)
    ensures |b| == n
  {
    if n == 0 then [] else [v % 256] + Le(v / 256, n - 1)
  }

  function FromLe(b: Bytes): nat {
    if b == [] then 0 else b[0] + 256 * FromLe(b[1..])
  }

  /** The lowest digit and the rest. */
  lemma Digits(b: nat, x: nat)
    requires b < 256
    ensures (b + 256 * x) % 256 == b && (b + 256 * x) / 256 == x
  {}

  lemma {:induction false} LeRoundTrip(v: nat, n: nat)
    requires v < Pow256(n)
    ensures FromLe(Le(v, n)) == v
  {
    if n > 0 {
      LeRoundTrip(v / 256, n - 1);
      assert Le(v, n)[0] == v % 256 && Le(v, n)[1..] == Le(v / 256, n - 1);
    }
  }

  lemma {:induction false} LeInverse(b: Bytes)
    ensures Le(FromLe(b), |b|) == b
  {
    if b != [] {
      var rest := b[1..];
      LeInverse(rest);
      Digits(b[0], FromLe(rest));
      assert FromLe(b) == b[0] + 256 * FromLe(rest);
      hide FromLe;
      assert Le(FromLe(b), |b|) == [b[0]] + Le(FromLe(rest), |rest|);
      assert b == [b[0]] + rest;
    }
  }

  lemma Widths()
    ensures Pow256(1) == 0x100 && Pow256(2) == 0x1_0000 && Pow256(4) == 0x1_0000_0000
    ensures Pow256(8) == 0x1_0000_0000_0000_0000
  {
    assert Pow256(2) == 256 * Pow256(1) && Pow256(4) == 256 * (256 * Pow256(2));
    assert Pow256(6) == 256 * (256 * Pow256(4)) && Pow256(8) == 256 * (256 * Pow256(6));
  }
}
