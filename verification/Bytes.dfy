/** Byte strings and the big-endian numbers they stand for. */
module Bytes {
  type Byte = b: int | 0 <= b < 256

  function Pow256(n: nat): (p: nat)
    ensures p > 0
  {
    if n == 0 then 1 else 256 * Pow256(n - 1)
  }

  /** The big-endian value. */
  function Value(b: seq<Byte>): nat {
    if |b| == 0 then 0 else 256 * Value(b[..|b| - 1]) + b[|b| - 1]
  }

  /** `v` in exactly `n` bytes, big-endian; higher bytes of `v` are cut off. */
  function ToBytes(v: nat, n: nat): (b: seq<Byte>)
    ensures |b| == n
  {
    if n == 0 then [] else ToBytes(v / 256, n - 1) + [v % 256]
  }

  function Zeros(n: nat): (b: seq<Byte>)
    ensures |b| == n
  {
    seq(n, _ => 0)
  }

  lemma {:induction false} ValueBound(b: seq<Byte>)
    ensures Value(b) < Pow256(|b|)
  {
    if |b| == 0 {
    } else {
      ValueBound(b[..|b| - 1]);
    }
  }

  lemma {:induction false} ToBytesValue(v: nat, n: nat)
    requires v < Pow256(n)
    ensures Value(ToBytes(v, n)) == v
  {
    if n == 0 {
    } else {
      ToBytesValue(v / 256, n - 1);
      assert ToBytes(v, n)[..n - 1] == ToBytes(v / 256, n - 1);
    }
  }

  lemma DivMod(x: nat, y: Byte)
    ensures (256 * x + y) / 256 == x && (256 * x + y) % 256 == y
  {
  }

  lemma ToBytesStep(x: nat, y: Byte, n: nat)
    ensures ToBytes(256 * x + y, n + 1) == ToBytes(x, n) + [y]
  {
    DivMod(x, y);
  }

  /** A number has one form in a given number of bytes. */
  lemma {:induction false} ValueToBytes(b: seq<Byte>)
    ensures ToBytes(Value(b), |b|) == b
  {
    if |b| == 0 {
    } else {
      var init, last := b[..|b| - 1], b[|b| - 1];
      ValueToBytes(init);
      calc {
        ToBytes(Value(b), |b|);
        ToBytes(256 * Value(init) + last, |init| + 1);
        { ToBytesStep(Value(init), last, |init|); }
        ToBytes(Value(init), |init|) + [last];
        init + [last];
        b;
      }
    }
  }

  lemma {:induction false} ValueConcat(a: seq<Byte>, b: seq<Byte>)
    ensures Value(a + b) == Value(a) * Pow256(|b|) + Value(b)
  {
    if |b| == 0 {
      assert a + b == a;
    } else {
      var b' := b[..|b| - 1];
      ValueConcat(a, b');
      assert (a + b)[..|a + b| - 1] == a + b';
      assert Value(a) * Pow256(|b|) == 256 * (Value(a) * Pow256(|b'|));
    }
  }

  lemma ValueZeros(n: nat)
    ensures Value(Zeros(n)) == 0
  {
    if n == 0 {
    } else {
      ValueZeros(n - 1);
      assert Zeros(n)[..n - 1] == Zeros(n - 1);
    }
  }

  lemma ValuePadded(n: nat, b: seq<Byte>)
    ensures Value(Zeros(n) + b) == Value(b)
  {
    ValueZeros(n);
    ValueConcat(Zeros(n), b);
  }

  lemma Pow256Add(m: nat, n: nat)
    ensures Pow256(m + n) == Pow256(m) * Pow256(n)
  {
    if m == 0 {
    } else {
      Pow256Add(m - 1, n);
      MulAssociative(256, Pow256(m - 1), Pow256(n));
    }
  }

  lemma MulAssociative(a: nat, b: nat, c: nat)
    ensures a * b * c == a * (b * c)
  {
  }

  lemma Pow256Monotone(m: nat, n: nat)
    requires m <= n
    ensures Pow256(m) <= Pow256(n)
  {
    if m < n { Pow256Monotone(m, n - 1); }
  }
}
