/** 32-bit arithmetic of the C code, with its wrap-around written out. */
module Words {
  import opened Bits

  const U16: nat := 0x1_0000
  const U32: nat := 0x1_0000_0000

  predicate Int32(x: int) {
    -0x8000_0000 <= x < 0x8000_0000
  }

  /** The bit pattern of a signed word. */
  function Unsigned(x: int): (u: nat)
    ensures u < U32
  {
    x % U32
  }

  /** What a value becomes when it is stored in a signed word. */
  function Signed(x: int): (s: int)
    ensures Int32(s) && Unsigned(s) == Unsigned(x)
    ensures Int32(x) ==> s == x
  {
    var u := x % U32;
    if u < 0x8000_0000 then u else u - U32
  }

  function Abs(x: int): nat {
    if x < 0 then -x else x
  }

  function DivNat(u: nat, d: nat): nat
    requires d > 0
  {
    u / d
  }

  lemma DivSplit(x: int, a: nat, b: nat)
    requires a > 0 && b > 0
    ensures a * b > 0 && x / (a * b) == x / a / b
  {
    var y, r := x / a, x % a;
    var z, t := y / b, y % b;
    assert x == a * y + r && y == b * z + t;
    Distribute(a, b, z, t);
    MulOrder(a, t, b);
    MulOrder(a, 0, b);
    assert 0 <= a * t by { MulOrder(a, 0, t); }
    ModUnique(x, a * b, z, a * t + r);
  }

  lemma Distribute(a: int, b: int, z: int, t: int)
    ensures a * (b * z + t) == a * b * z + a * t
  {
    assert a * (b * z + t) == a * (b * z) + a * t;
    assert a * (b * z) == a * b * z;
  }
}
