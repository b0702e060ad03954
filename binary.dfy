/**
 * Natural numbers as bit vectors, in the two orders the test helpers use:
 * least significant bit first (variable j takes bit j of a counter) and
 * most significant bit first (the picture encoding's int_to_bits).
 */
module Binary {
  import opened Counting

  /** Bit i of x: (x >> i) & 1. */
  function Bit(x: nat, i: nat): bool
  {
    if i == 0 then x % 2 == 1 else Bit(x / 2, i - 1)
  }

  /** The low n bits of x, bit 0 first. */
  function Lsb(x: nat, n: nat): (r: seq<bool>)
    ensures |r| == n
  {
    if n == 0 then [] else [x % 2 == 1] + Lsb(x / 2, n - 1)
  }

  /** The number a spells with a[0] as its least significant bit. */
  function LsbValue(a: seq<bool>): (r: nat)
    ensures r < Pow2(|a|)
  {
    if a == [] then 0 else (if a[0] then 1 else 0) + 2 * LsbValue(a[1..])
  }

  /** The low n bits of x, bit n - 1 first. */
  function Msb(x: nat, n: nat): (r: seq<bool>)
    ensures |r| == n
  {
    if n == 0 then [] else Msb(x / 2, n - 1) + [x % 2 == 1]
  }

  /** The number a spells with its last element as the least significant bit. */
  function MsbValue(a: seq<bool>): (r: nat)
    ensures r < Pow2(|a|)
  {
    if a == [] then 0 else 2 * MsbValue(a[..|a| - 1]) + (if a[|a| - 1] then 1 else 0)
  }

  lemma {:induction false} LsbAt(x: nat, n: nat, j: nat)
    requires j < n
    ensures Lsb(x, n)[j] == Bit(x, j)
  {
    if j > 0 {
      LsbAt(x / 2, n - 1, j - 1);
    }
  }

  lemma {:induction false} MsbAt(x: nat, n: nat, i: nat)
    requires i < n
    ensures Msb(x, n)[n - 1 - i] == Bit(x, i)
  {
    if i > 0 {
      MsbAt(x / 2, n - 1, i - 1);
    }
  }

  /** Reading back the bits of a number below 2^n gives the number. */
  lemma {:induction false} LsbRoundTrip(x: nat, n: nat)
    requires x < Pow2(n)
    ensures LsbValue(Lsb(x, n)) == x
  {
    if n > 0 {
      LsbRoundTrip(x / 2, n - 1);
      assert Lsb(x, n)[1..] == Lsb(x / 2, n - 1);
    }
  }

  /** Every bit vector is the bits of the number it spells. */
  lemma {:induction false} LsbValueRoundTrip(a: seq<bool>)
    ensures Lsb(LsbValue(a), |a|) == a
  {
    if a != [] {
      LsbValueRoundTrip(a[1..]);
      var v := LsbValue(a);
      assert v / 2 == LsbValue(a[1..]) && (v % 2 == 1) == a[0];
      assert a == [a[0]] + a[1..];
    }
  }

  lemma {:induction false} MsbRoundTrip(x: nat, n: nat)
    requires x < Pow2(n)
    ensures MsbValue(Msb(x, n)) == x
  {
    if n > 0 {
      MsbRoundTrip(x / 2, n - 1);
      var m := Msb(x, n);
      assert m[..n - 1] == Msb(x / 2, n - 1);
    }
  }

  lemma {:induction false} MsbValueRoundTrip(a: seq<bool>)
    ensures Msb(MsbValue(a), |a|) == a
  {
    if a != [] {
      var p := a[..|a| - 1];
      MsbValueRoundTrip(p);
      var v := MsbValue(a);
      assert v / 2 == MsbValue(p) && (v % 2 == 1) == a[|a| - 1];
      assert a == p + [a[|a| - 1]];
    }
  }

  /**
   * The bits of y * 2^wv + x, most significant first, are the low hv bits
   * of y followed by the wv bits of x.
   */
  lemma {:induction false} MsbConcat(y: nat, x: nat, hv: nat, wv: nat)
    requires x < Pow2(wv)
    ensures Msb(y * Pow2(wv) + x, hv + wv) == Msb(y, hv) + Msb(x, wv)
  {
    if wv > 0 {
      var a := y * Pow2(wv - 1);
      assert y * Pow2(wv) == 2 * a;
      var p := 2 * a + x;
      assert p / 2 == a + x / 2 && p % 2 == x % 2;
      MsbConcat(y, x / 2, hv, wv - 1);
    }
  }
}
