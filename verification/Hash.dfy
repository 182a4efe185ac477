/** FNV-1a-32, the checksum behind the receipt: every step can be undone, its low
  * twelve bits evolve on their own, and a single wrong byte always shows in them. */
module Hash {
  import opened Bytes
  import opened Bits

  const OFFSET := 0x811C9DC5
  const PRIME := 0x01000193

  /** The inverse of the prime modulo `2^32`. */
  const INVERSE := 0x359C449B

  /** One byte into the hash. */
  function Step(h: nat, b: Byte): (r: nat)
    ensures r < U32_LIMIT
  {
    Xor(h, b) * PRIME % U32_LIMIT
  }

  function Fold(h: nat, data: seq<Byte>): nat
    decreases |data|
  {
    if data == [] then h else Fold(Step(h, data[0]), data[1..])
  }

  /** `fnv1a32` */
  method Fnv(data: seq<Byte>) returns (h: nat)
    ensures h == Fold(OFFSET, data) && h < U32_LIMIT
  {
    h := OFFSET;
    for i := 0 to |data|
      invariant h < U32_LIMIT && Fold(OFFSET, data) == Fold(h, data[i..])
    {
      assert data[i..][1..] == data[i + 1..];
      LowWord(Xor(h, data[i]) * PRIME);
      h := And(Xor(h, data[i]) * PRIME, 0xFFFFFFFF);
    }
  }

  lemma LowWord(x: nat)
    ensures And(x, 0xFFFFFFFF) == x % U32_LIMIT
  {
    WordSize();
    AndIsRemainder(32, x / U32_LIMIT, x % U32_LIMIT);
  }

  lemma WordSize()
    ensures Pow2(32) == U32_LIMIT && Pow2(12) == 4096
  {
    assert Pow2(4) == 16;
    assert Pow2(8) == 256;
    assert Pow2(12) == 4096;
    assert Pow2(16) == 65536;
    assert Pow2(20) == 0x10_0000;
    assert Pow2(24) == 0x100_0000;
    assert Pow2(28) == 0x1000_0000;
  }

  /** The published value for the one-letter text "a". */
  lemma HashOfA()
    ensures Fold(OFFSET, []) == 0x811C9DC5 && Fold(OFFSET, [0x61]) == 0xE40C292C
  {
    hide Xor;
    XorEight();
    assert 0x811C9DA4 * PRIME % U32_LIMIT == 0xE40C292C;
    assert [0x61][1..] == [];
    assert Fold(Step(OFFSET, 0x61), []) == Step(OFFSET, 0x61);
  }

  lemma {:induction false} XorZero(x: nat)
    ensures Xor(x, 0) == x
  {
    if x > 0 {
      XorZero(x / 2);
    }
  }

  lemma XorEight()
    ensures Xor(0x811C9DC5, 0x61) == 0x811C9DA4
  {
    XorZero(0x811C9DC5 / 128);
    var x := 0x811C9DC5;
    XorStep(x, 0x61);
    XorStep(x / 2, 0x30);
    XorStep(x / 4, 0x18);
    XorStep(x / 8, 0xC);
    XorStep(x / 16, 6);
    XorStep(x / 32, 3);
    XorStep(x / 64, 1);
  }

  // ---- undoing a step --------------------------------------------------------------

  function Unstep(h: nat, b: Byte): nat
  {
    Xor(h * INVERSE % U32_LIMIT, b)
  }

  lemma Unmultiply(x: nat)
    requires x < U32_LIMIT
    ensures x * PRIME % U32_LIMIT * INVERSE % U32_LIMIT == x
  {
    var a: int, t: int := x * PRIME / U32_LIMIT, x * PRIME % U32_LIMIT;
    assert x * PRIME == U32_LIMIT * a + t;
    Undo(x, a, t);
  }

  lemma Undo(x: nat, a: int, t: int)
    requires x < U32_LIMIT && x * PRIME == U32_LIMIT * a + t && t >= 0
    ensures t * INVERSE % U32_LIMIT == x
  {
  }

  /** Every step is a bijection of the 32-bit states. */
  lemma StepUndone(h: nat, b: Byte)
    requires h < U32_LIMIT
    ensures Unstep(Step(h, b), b) == h
  {
    WordSize();
    assert b < Pow2(32);
    XorBound(32, h, b);
    Unmultiply(Xor(h, b));
    XorCancels(h, b);
  }

  /** So one cannot lose a difference once it is there. */
  lemma {:induction false} FoldInjective(h: nat, g: nat, data: seq<Byte>)
    requires h < U32_LIMIT && g < U32_LIMIT && h != g
    ensures Fold(h, data) != Fold(g, data)
    decreases |data|
  {
    if data != [] {
      StepUndone(h, data[0]);
      StepUndone(g, data[0]);
      FoldInjective(Step(h, data[0]), Step(g, data[0]), data[1..]);
    }
  }

  // ---- the low twelve bits -----------------------------------------------------------

  /** The step as the low twelve bits see it. */
  function LowStep(h: nat, b: Byte): (r: nat)
    ensures r < 4096
  {
    Xor(h, b) * PRIME % 4096
  }

  function LowFold(h: nat, data: seq<Byte>): nat
    decreases |data|
  {
    if data == [] then h else LowFold(LowStep(h, data[0]), data[1..])
  }

  /** XOR with a short word leaves the high bits alone. */
  lemma {:induction false} XorLow(k: nat, h: nat, b: nat)
    requires b < Pow2(k)
    ensures Xor(h, b) % Pow2(k) == Xor(h % Pow2(k), b)
  {
    if k == 0 {
      assert b == 0 && h % 1 == 0;
    } else {
      XorLow(k - 1, h / 2, b / 2);
      HalfOfRemainder(h, Pow2(k - 1));
      XorStep(h, b);
      XorStep(h % Pow2(k), b);
      HalfOfRemainder(Xor(h, b), Pow2(k - 1));
      var bit := if h % 2 != b % 2 then 1 else 0;
      Halve(bit, Xor(h / 2, b / 2));
    }
  }

  lemma HalfOfRemainder(h: nat, p: nat)
    requires p > 0
    ensures h % (2 * p) == 2 * (h / 2 % p) + h % 2
  {
    var q, r := h / 2 / p, h / 2 % p;
    assert h / 2 == p * q + r;
    assert h == 2 * p * q + (2 * r + h % 2);
    Remainder(2 * p, q, 2 * r + h % 2);
  }

  lemma Remainder(m: nat, q: int, r: nat)
    requires r < m
    ensures (m * q + r) % m == r
  {
    var z := m * q + r;
    var d := z / m - q;
    assert m * d == r - z % m;
    assert d >= 1 ==> m * d >= m;
    assert d <= -1 ==> m * d <= 0 - m;
  }

  lemma LowOfWord(z: nat)
    ensures z % U32_LIMIT % 4096 == z % 4096
  {
  }

  lemma LowOfProduct(x: nat)
    ensures x * PRIME % 4096 == x % 4096 * PRIME % 4096
  {
    var r := x % 4096 * PRIME;
    var q := x / 4096 * PRIME + r / 4096;
    assert x * PRIME == 4096 * q + r % 4096;
    Remainder(4096, q, r % 4096);
  }

  lemma StepLow(h: nat, b: Byte)
    ensures Step(h, b) % 4096 == LowStep(h % 4096, b)
  {
    WordSize();
    XorLow(12, h, b);
    LowOfWord(Xor(h, b) * PRIME);
    LowOfProduct(Xor(h, b));
  }

  lemma {:induction false} FoldLow(h: nat, data: seq<Byte>)
    ensures Fold(h, data) % 4096 == LowFold(h % 4096, data)
    decreases |data|
  {
    if data != [] {
      StepLow(h, data[0]);
      FoldLow(Step(h, data[0]), data[1..]);
    }
  }

  lemma LowUnmultiply(x: nat)
    requires x < 4096
    ensures x * PRIME % 4096 * 0x49B % 4096 == x
  {
    var a: int, t: int := x * PRIME / 4096, x * PRIME % 4096;
    assert x * PRIME == 4096 * a + t;
    LowUndo(x, a, t);
  }

  lemma LowUndo(x: nat, a: int, t: int)
    requires x < 4096 && x * PRIME == 4096 * a + t && t >= 0
    ensures t * 0x49B % 4096 == x
  {
    var q := 4829300 * x - 0x49B * a;
    assert t * 0x49B == 4096 * q + x;
    Remainder(4096, q, x);
  }

  lemma LowStepUndone(h: nat, b: Byte)
    requires h < 4096
    ensures Xor(LowStep(h, b) * 0x49B % 4096, b) == h && Xor(LowStep(h, b) * 0x49B % 4096, h) == b
  {
    WordSize();
    XorBound(12, h, b);
    LowUnmultiply(Xor(h, b));
    XorCancels(h, b);
    XorCommutes(h, b);
    XorCancels(b, h);
  }

  lemma {:induction false} LowFoldInjective(h: nat, g: nat, data: seq<Byte>)
    requires h < 4096 && g < 4096 && h != g
    ensures LowFold(h, data) != LowFold(g, data)
    decreases |data|
  {
    if data != [] {
      LowStepUndone(h, data[0]);
      LowStepUndone(g, data[0]);
      LowFoldInjective(LowStep(h, data[0]), LowStep(g, data[0]), data[1..]);
    }
  }

  lemma {:induction false} LowFoldConcat(h: nat, s: seq<Byte>, t: seq<Byte>)
    ensures LowFold(h, s + t) == LowFold(LowFold(h, s), t)
    ensures h < 4096 ==> LowFold(h, s) < 4096
    decreases |s|
  {
    if s == [] {
      assert s + t == t;
    } else {
      assert (s + t)[1..] == s[1..] + t;
      LowFoldConcat(LowStep(h, s[0]), s[1..], t);
    }
  }

  /** One wrong byte, anywhere, and the low twelve bits of the hash are different. */
  lemma OneByteShows(before: seq<Byte>, a: Byte, b: Byte, after: seq<Byte>)
    requires a != b
    ensures Fold(OFFSET, before + [a] + after) % 4096 != Fold(OFFSET, before + [b] + after) % 4096
  {
    var h := LowFold(OFFSET % 4096, before);
    LowFoldConcat(OFFSET % 4096, before, []);
    WithByte(before, a, after);
    WithByte(before, b, after);
    LowStepUndone(h, a);
    LowStepUndone(h, b);
    LowFoldInjective(LowStep(h, a), LowStep(h, b), after);
  }

  lemma WithByte(before: seq<Byte>, a: Byte, after: seq<Byte>)
    ensures Fold(OFFSET, before + [a] + after) % 4096 == LowFold(LowStep(LowFold(OFFSET % 4096, before), a), after)
  {
    FoldLow(OFFSET, before + [a] + after);
    assert before + [a] + after == before + ([a] + after);
    LowFoldConcat(OFFSET % 4096, before, [a] + after);
  }
}
