/** A value that may be absent. */
module Options {
  datatype Option<+T> = None | Some(value: T)
}

/** Machine integers of the modelled code. */
module MachineInts {
  const TWO32: int := 0x1_0000_0000
  const TWO64: int := 0x1_0000_0000_0000_0000

  type Byte = x: int | 0 <= x < 256
  type UInt32 = x: int | 0 <= x < 0x1_0000_0000
  type Int32 = x: int | -0x8000_0000 <= x < 0x8000_0000
  type UInt64 = x: int | 0 <= x < 0x1_0000_0000_0000_0000

  // ----- products and quotients of variables

  lemma MulStep(d: nat, a: nat, b: nat)
    requires a < b
    ensures d * a + d <= d * b
  {
    assert d * b == d * (a + 1) + d * (b - a - 1);
    assert d * (a + 1) == d * a + d;
    NonNegative(d, b - a - 1);
  }

  lemma NonNegative(d: nat, a: nat)
    ensures 0 <= d * a
  {
  }

  lemma DivUnique(x: nat, d: nat, q: nat, r: nat)
    requires 0 < d && x == d * q + r && r < d
    ensures x / d == q && x % d == r
  {
    var p := x / d;
    assert x == d * p + x % d;
    if p < q {
      MulStep(d, p, q);
    } else if q < p {
      MulStep(d, q, p);
    }
  }
}
