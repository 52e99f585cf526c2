/** The colour of a name (src/common.rs). */
module Colours {
  import opened Wrappers

  const WORD := 0x1_0000_0000

  function Power31(n: nat): nat {
    if n == 0 then 1 else 31 * Power31(n - 1)
  }

  /** The sum of b[k] * 31^(n-1-k) over all octets. */
  function Polynomial(b: Bytes): nat {
    if b == [] then 0 else b[0] * Power31(|b| - 1) + Polynomial(b[1..])
  }

  /** Clears bit 15. */
  function ClearBit15(x: nat): (r: nat)
    ensures r <= x && r / 0x8000 % 2 == 0
    ensures r % 0x8000 == x % 0x8000 && r / 0x1_0000 == x / 0x1_0000
  {
    x - x / 0x8000 % 2 * 0x8000
  }

  lemma {:induction false} PolynomialAppend(b: Bytes, c: Byte)
    ensures Polynomial(b + [c]) == 31 * Polynomial(b) + c
  {
    if b == [] {
      assert b + [c] == [c];
    } else {
      var tail := b[1..];
      assert (b + [c])[1..] == tail + [c];
      PolynomialAppend(tail, c);
      assert Power31(|b|) == 31 * Power31(|b| - 1);
      assert b[0] * (31 * Power31(|b| - 1)) == 31 * (b[0] * Power31(|b| - 1));
    }
  }

  /** Shifting left by five and subtracting, both modulo the word, multiplies by 31 modulo the word. */
  lemma WrappingStep(hash: nat, code: Byte, p: nat)
    requires hash == p % WORD
    ensures var shifted := hash * 32 % WORD;
            var difference := (shifted - hash) % WORD;
            (code + difference) % WORD == (31 * p + code) % WORD
  {
    var shifted := hash * 32 % WORD;
    var q, r := hash * 32 / WORD, p / WORD;
    assert shifted == hash * 32 - q * WORD;
    assert hash == p - r * WORD;
    var difference := (shifted - hash) % WORD;
    var d := (shifted - hash) / WORD;
    assert difference == shifted - hash - d * WORD;
    assert code + difference == 31 * p + code - (31 * r + q + d) * WORD;
    ModularShift(31 * p + code, 31 * r + q + d);
  }

  lemma ModularShift(x: int, k: int)
    ensures (x - k * WORD) % WORD == x % WORD
  {
  }

  lemma LowBits(p: nat)
    ensures p % WORD % 0x100_0000 == p % 0x100_0000
  {
  }

  /** The colour of every octet string is its polynomial modulo 2^24, without bit 15, under the given alpha. */
  method Str2Color(bytes: Bytes, alpha: Byte) returns (colour: nat)
    ensures colour == alpha * 0x100_0000 + ClearBit15(Polynomial(bytes) % 0x100_0000)
    ensures colour < WORD && colour / 0x100_0000 == alpha
  {
    var hash: nat := 0;
    for i := 0 to |bytes|
      invariant hash == Polynomial(bytes[..i]) % WORD
    {
      var code := bytes[i];
      assert bytes[..i + 1] == bytes[..i] + [code];
      PolynomialAppend(bytes[..i], code);
      WrappingStep(hash, code, Polynomial(bytes[..i]));
      var shifted := hash * 32 % WORD;
      hash := (code + (shifted - hash) % WORD) % WORD;
    }
    assert bytes[..|bytes|] == bytes;
    LowBits(Polynomial(bytes));
    hash := hash % 0x100_0000;
    var rgb := ClearBit15(hash);
    colour := alpha * 0x100_0000 + rgb;
  }
}
