/** The dequantiser of the decoder, and how far a sample can drift between both ends. */
module Dequantiser {
  import opened Bits
  import opened Words
  import opened Quantiser

  /** SBC_DEQUANT_LONG_SCALED_OFFSET. */
  const OFFSET: nat := 1555931970

  const DEQUANT_LONG_SCALED: seq<nat> := [
    0, 0, 0x1ee9e116, 0x0d3fa99c, 0x062ec69e, 0x02fddbfa, 0x0178d9f5, 0x00baf129, 0x005d1abe,
    0x002e760d, 0x00173536, 0x000b9928, 0x0005cc37, 0x0002e604, 0x000172fc, 0x0000b97d, 0x00005cbe]

  /** OI_SBC_Dequant. */
  function Dequant(raw: nat, sf: nat, bits: nat): int
    requires sf <= 15 && bits <= 16
  {
    if bits <= 1 then 0
    else
      var d := (raw * 2 + 1) % U32 * DEQUANT_LONG_SCALED[bits] % U32;
      ShiftDown(Signed(d - OFFSET), 15 - sf)
  }

  /** The arithmetic right shift. */
  function ShiftDown(x: int, k: nat): int {
    x / Pow2(k)
  }

  /** Distance of a table entry from the exact quotient, times the number of levels. */
  function TableError(bits: nat): int
    requires 2 <= bits <= 16
  {
    DEQUANT_LONG_SCALED[bits] * Levels(bits) - OFFSET
  }

  lemma TableErrorBound(bits: nat)
    requires 2 <= bits <= 16
    ensures -5694 <= TableError(bits) <= 9025
  {
    LevelsValue(bits);
  }

  lemma LevelsValue(bits: nat)
    requires 2 <= bits <= 16
    ensures Levels(bits) == [0, 0, 3, 7, 15, 31, 63, 127, 255, 511, 1023, 2047, 4095, 8191, 16383, 32767, 65535][bits]
  {
    PowersTo(bits);
  }

  lemma PowersTo(bits: nat)
    requires bits <= 16
    ensures Pow2(bits) == [1, 2, 4, 8, 16, 32, 64, 128, 256, 512, 1024, 2048, 4096, 8192, 16384, 32768, 65536][bits]
  {
    if bits > 0 {
      PowersTo(bits - 1);
    }
  }

  /** No step leaves its word, not even for the forbidden all-ones code. */
  lemma DequantNoOverflow(raw: nat, bits: nat)
    requires 2 <= bits <= 16 && raw < Pow2(bits)
    ensures 0 < (raw * 2 + 1) * DEQUANT_LONG_SCALED[bits] < U32
    ensures Int32((raw * 2 + 1) * DEQUANT_LONG_SCALED[bits] - OFFSET)
  {
    PowersTo(bits);
    var t := DEQUANT_LONG_SCALED[bits];
    MulOrder(t, raw * 2 + 1, 2 * Pow2(bits) - 1);
    MulOrder(t, 1, raw * 2 + 1);
    assert t * (2 * Pow2(bits) - 1) < 0xF000_0000 && t > 0;
  }

  /** The dequantised value before its final shift. */
  function Centred(raw: nat, bits: nat): int
    requires 2 <= bits <= 16
  {
    (raw * 2 + 1) * DEQUANT_LONG_SCALED[bits] - OFFSET
  }

  lemma DequantIsShift(raw: nat, sf: nat, bits: nat)
    requires sf <= 15 && 2 <= bits <= 16 && raw < Pow2(bits)
    ensures Dequant(raw, sf, bits) == ShiftDown(Centred(raw, bits), 15 - sf)
  {
    hide Signed, ShiftDown, Pow2;
    DequantNoOverflow(raw, bits);
    Pow2Mono(bits, 16);
    Pow2Constants();
  }

  // ---- quantise, then dequantise ----

  /** What the quantiser's division leaves over. */
  function Remainder(x: int, sf: nat, bits: nat): int
    requires sf <= 15 && 1 <= bits <= 16
  {
    Biased(x, sf) * Levels(bits) % Pow2(sf + 14)
  }

  lemma Quotient(x: int, sf: nat, bits: nat)
    requires Int32(x) && sf <= 15 && 2 <= bits <= 16 && InScale(x, sf)
    ensures var q := Quantise(x, sf, bits);
      && q < Pow2(bits)
      && Biased(x, sf) * Levels(bits) == Pow2(sf + 14) * q + Remainder(x, sf, bits)
      && 0 <= Remainder(x, sf, bits) < Pow2(sf + 14)
  {
    hide Quantise, Pow2, Biased;
    QuantiseFits(x, sf, bits);
  }

  /** The exact error of a sample that goes through both ends, all terms kept. */
  lemma ErrorIdentity(x: int, sf: nat, bits: nat)
    requires Int32(x) && sf <= 15 && 2 <= bits <= 16 && InScale(x, sf)
    ensures var S, L, q := Pow2(sf + 15), Levels(bits), Quantise(x, sf, bits);
      S * (L * Centred(q, bits))
      == OFFSET * (x * L) - OFFSET * (x % 4 * L) + OFFSET * (S - 4 * Remainder(x, sf, bits)) + S * (2 * q + 1) * TableError(bits)
  {
    hide Quantise, Levels, Biased, Remainder;
    var A, S, L, q := Pow2(sf + 14), Pow2(sf + 15), Levels(bits), Quantise(x, sf, bits);
    var N, rho, sigma, delta, T := Biased(x, sf), Remainder(x, sf, bits), x % 4, TableError(bits), DEQUANT_LONG_SCALED[bits];
    Quotient(x, sf, bits);
    assert S == 2 * A;
    BiasedTimesFour(x, sf);
    Combine(x, N, L, A, q, rho, sigma, delta, T);
  }

  lemma BiasedTimesFour(x: int, sf: nat)
    ensures 4 * Biased(x, sf) == x - x % 4 + Pow2(sf + 15)
  {
    assert Pow2(sf + 15) == 2 * Pow2(sf + 14) && Pow2(sf + 14) == 2 * Pow2(sf + 13);
  }

  lemma Combine(x: int, N: int, L: int, A: int, q: int, rho: int, sigma: int, delta: int, T: int)
    requires 4 * N == x - sigma + 2 * A && N * L == A * q + rho && delta == T * L - OFFSET
    ensures 2 * A * (L * ((q * 2 + 1) * T - OFFSET))
         == OFFSET * (x * L) - OFFSET * (sigma * L) + OFFSET * (2 * A - 4 * rho) + 2 * A * (2 * q + 1) * delta
  {
    var S, K := 2 * A, 2 * q + 1;
    var SK := S * K;
    // the level that was reached, times the step
    assert SK == x * L - sigma * L + S * L - 4 * rho + S by {
      assert SK == 4 * (A * q) + S by { assert S * (2 * q) == 4 * (A * q); }
      assert 4 * (N * L) == (x - sigma + S) * L;
      assert (x - sigma + S) * L == x * L - sigma * L + S * L;
    }
    assert L * (K * T - OFFSET) == K * (OFFSET + delta) - OFFSET * L by {
      assert L * (K * T - OFFSET) == L * (K * T) - L * OFFSET;
      assert L * (K * T) == K * (T * L);
    }
    assert S * (K * (OFFSET + delta) - OFFSET * L) == SK * OFFSET + SK * delta - OFFSET * (S * L) by {
      assert S * (K * (OFFSET + delta)) == SK * (OFFSET + delta);
      assert SK * (OFFSET + delta) == SK * OFFSET + SK * delta;
      assert S * (OFFSET * L) == OFFSET * (S * L);
      Minus(S, K * (OFFSET + delta), OFFSET * L);
    }
  }

  lemma Minus(a: int, b: int, c: int)
    ensures a * (b - c) == a * b - a * c
  {
  }

  /** Half a quantisation step, the two bits the quantiser drops, the rounding of the table
      and the rounding of the last shift, all multiplied by `2 ** 30 * Levels(bits)`. */
  function ErrorBound(sf: nat, bits: nat): int
    requires sf <= 15 && 2 <= bits <= 16
  {
    var S, L := Pow2(sf + 15), Levels(bits);
    S * OFFSET + 3 * OFFSET * L + S * (2 * L + 1) * Abs(TableError(bits)) + 0x4000_0000 * L
  }

  /** A sample within its scale factor comes back as itself times OFFSET / 2 ** 30, up to the bound. */
  lemma QuantiseDequantise(x: int, sf: nat, bits: nat)
    requires Int32(x) && sf <= 15 && 2 <= bits <= 16 && InScale(x, sf)
    ensures var y := Dequant(Quantise(x, sf, bits), sf, bits);
      Abs(0x4000_0000 * (Levels(bits) * y) - OFFSET * (x * Levels(bits))) <= ErrorBound(sf, bits)
  {
    hide Quantise, Dequant, Levels, Centred, TableError, Remainder, InScale, Pow2, ShiftDown, Abs;
    var S, M, L, q := Pow2(sf + 15), Pow2(15 - sf), Levels(bits), Quantise(x, sf, bits);
    var y := Dequant(q, sf, bits);
    var r := Centred(q, bits);
    Quotient(x, sf, bits);
    DequantIsShift(q, sf, bits);
    ErrorIdentity(x, sf, bits);
    ShiftsMeet(sf);
    var lost := r - M * y;
    assert 0 <= lost < M by { ShiftLoses(r, 15 - sf); }
    FinalShift(S, M, L, r, y, lost);
    TermBounds(x, sf, bits, q);
    Assemble(S * (L * r), 0x4000_0000 * (L * y), OFFSET * (x * L), OFFSET * (x % 4 * L),
             OFFSET * (S - 4 * Remainder(x, sf, bits)), S * (2 * q + 1) * TableError(bits),
             0x4000_0000 * L, 3 * OFFSET * L, S * OFFSET, S * (2 * L + 1) * Abs(TableError(bits)));
  }

  /** The same in numbers: half a step of the scale factor's range, the table's error of at most 9025 for each
      of the `2q + 1` half steps, and what the two shifts round off. */
  lemma QuantisationError(x: int, sf: nat, bits: nat)
    requires Int32(x) && sf <= 15 && 2 <= bits <= 16 && 0 - Pow2(15 + sf) <= x <= Pow2(15 + sf)
    ensures var y, levels := Dequant(Quantise(x, sf, bits), sf, bits), Pow2(bits) - 1;
      Abs(0x4000_0000 * (levels * y) - 1555931970 * (x * levels))
        <= Pow2(15 + sf) * (1555931970 + 9025 * (2 * levels + 1)) + 5741537734 * levels
  {
    hide Quantise, Dequant, Pow2, Abs;
    QuantiseDequantise(x, sf, bits);
    TableErrorBound(bits);
    BoundInNumbers(Pow2(sf + 15), Levels(bits), TableError(bits));
  }

  lemma BoundInNumbers(s: nat, l: nat, e: int)
    requires -5694 <= e <= 9025
    ensures s * OFFSET + 3 * OFFSET * l + s * (2 * l + 1) * Abs(e) + 0x4000_0000 * l
         <= s * (1555931970 + 9025 * (2 * l + 1)) + 5741537734 * l
  {
    MulOrder(s * (2 * l + 1), Abs(e), 9025);
    assert s * (1555931970 + 9025 * (2 * l + 1)) == s * 1555931970 + s * (2 * l + 1) * 9025;
  }

  lemma ShiftsMeet(sf: nat)
    requires sf <= 15
    ensures Pow2(sf + 15) * Pow2(15 - sf) == 0x4000_0000
  {
    hide Pow2;
    Pow2Add(sf + 15, 15 - sf);
    Pow2Constants();
  }

  lemma ShiftLoses(r: int, k: nat)
    ensures 0 <= r - Pow2(k) * ShiftDown(r, k) < Pow2(k)
  {
  }

  lemma Assemble(whole: int, shifted: int, ideal: int, dropped: int, half: int, table: int,
                 shiftBound: int, dropBound: int, halfBound: int, tableBound: int)
    requires whole == ideal - dropped + half + table
    requires 0 <= whole - shifted <= shiftBound && 0 <= dropped <= dropBound
    requires Abs(half) <= halfBound && Abs(table) <= tableBound
    ensures Abs(shifted - ideal) <= halfBound + dropBound + tableBound + shiftBound
  {
  }

  lemma FinalShift(S: nat, M: nat, L: nat, r: int, y: int, lost: nat)
    requires S * M == 0x4000_0000 && r == M * y + lost && lost < M
    ensures 0 <= S * (L * r) - 0x4000_0000 * (L * y) <= 0x4000_0000 * L
  {
    Regroup5(S, M, L, y, lost);
    MulOrder(S * L, lost, M);
    MulOrder(S * L, 0, lost);
    assert S * L * M == S * M * L;
  }

  lemma Regroup5(S: int, M: int, L: int, y: int, lost: int)
    ensures S * (L * (M * y + lost)) == S * M * (L * y) + S * L * lost
  {
    Distribute(L, M, y, lost);
    var u, v := L * M * y, L * lost;
    assert S * (u + v) == S * u + S * v;
    assert S * v == S * L * lost;
    assert u == M * (L * y);
  }

  lemma TermBounds(x: int, sf: nat, bits: nat, q: nat)
    requires Int32(x) && sf <= 15 && 2 <= bits <= 16 && InScale(x, sf) && q == Quantise(x, sf, bits)
    ensures var S, L := Pow2(sf + 15), Levels(bits);
      && 0 <= OFFSET * (x % 4 * L) <= 3 * OFFSET * L
      && Abs(OFFSET * (S - 4 * Remainder(x, sf, bits))) <= S * OFFSET
      && Abs(S * (2 * q + 1) * TableError(bits)) <= S * (2 * L + 1) * Abs(TableError(bits))
  {
    hide Quantise, Levels, TableError, Remainder, InScale;
    var S, L := Pow2(sf + 15), Levels(bits);
    Quotient(x, sf, bits);
    QuantiseFits(x, sf, bits);
    DroppedBound(x % 4, L);
    assert S == 2 * Pow2(sf + 14);
    ScaledBound(S, 2 * q + 1, 2 * L + 1, TableError(bits));
  }

  lemma DroppedBound(sigma: nat, L: nat)
    requires sigma <= 3
    ensures 0 <= OFFSET * (sigma * L) <= 3 * OFFSET * L
  {
    MulOrder(L, sigma, 3);
    assert sigma * L == L * sigma;
  }

  lemma ScaledBound(S: nat, k: nat, m: nat, e: int)
    requires k <= m
    ensures Abs(S * k * e) <= S * m * Abs(e)
  {
    MulOrder(S, k, m);
    MulOrder(Abs(e), S * k, S * m);
    assert Abs(e) * (S * k) == S * k * Abs(e) && Abs(e) * (S * m) == S * m * Abs(e);
    assert S * k * -e == -(S * k * e);
  }
}
