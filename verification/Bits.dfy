/**
  Bits of natural numbers.  The compressors shift, mask and OR unsigned machine
  words; here such a word is a natural number below a power of two and `Bit(x, k)`
  is its k-th bit.  Two words are equal exactly when all their bits are equal
  (`SameBitsEqual`), so every packing proof in this project is a proof about bits.
*/
module Bits {

  type Byte = b: int | 0 <= b < 256

  function Pow2(n: nat): (p: nat)
    ensures p > 0
  {
    if n == 0 then 1 else 2 * Pow2(n - 1)
  }

  predicate Bit(x: nat, k: nat) {
    if k == 0 then x % 2 == 1 else Bit(x / 2, k - 1)
  }

  function BitValue(b: bool): (v: nat)
  {
    if b then 1 else 0
  }

  // The C operators `<<` and `>>` on unbounded words, and the n low bits of x
  // (`x & (2^n - 1)`, or the truncation of x to an n-bit type).
  function Shl(x: nat, n: nat): nat {
    if n == 0 then x else 2 * Shl(x, n - 1)
  }

  function Shr(x: nat, n: nat): nat {
    if n == 0 then x else Shr(x / 2, n - 1)
  }

  function Low(x: nat, n: nat): (v: nat)
    ensures v < Pow2(n)
  {
    if n == 0 then 0 else x % 2 + 2 * Low(x / 2, n - 1)
  }

  // The C operator `|`.
  function Or(x: nat, y: nat): nat {
    if x == 0 then y
    else if y == 0 then x
    else 2 * Or(x / 2, y / 2) + BitValue(x % 2 == 1 || y % 2 == 1)
  }

  // The C operator `^`.
  function Xor(x: nat, y: nat): nat {
    if x == 0 then y
    else if y == 0 then x
    else 2 * Xor(x / 2, y / 2) + BitValue(x % 2 != y % 2)
  }

  // The number whose bits, least significant first, are the given ones.
  function FromBits(bits: seq<bool>): nat {
    if |bits| == 0 then 0 else BitValue(bits[0]) + 2 * FromBits(bits[1..])
  }

  // ---- Division ----

  lemma DivUnique(x: int, d: int, q: int, r: int)
    requires 0 <= r < d
    requires x == q * d + r
    ensures x / d == q && x % d == r
  {
    var q', r' := x / d, x % d;
    assert x == q' * d + r';
    assert (q - q') * d == r' - r;
    if q > q' {
      MulMono(1, q - q', d);
      assert false;
    } else if q < q' {
      assert (q' - q) * d == r - r' by { assert (q' - q) * d == -((q - q') * d); }
      MulMono(1, q' - q, d);
      assert false;
    }
  }

  lemma MulMono(a: int, b: int, d: int)
    requires a <= b && 0 <= d
    ensures a * d <= b * d
  {
    assert b * d == a * d + (b - a) * d;
    assert (b - a) * d >= 0;
  }

  // ---- Bits of shifted, masked, OR-ed and XOR-ed numbers ----

  lemma {:induction false} ShlBit(x: nat, n: nat, k: nat)
    ensures Bit(Shl(x, n), k) == (k >= n && Bit(x, k - n))
    decreases n
  {
    if n > 0 && k > 0 { ShlBit(x, n - 1, k - 1); }
  }

  lemma {:induction false} ShrBit(x: nat, n: nat, k: nat)
    ensures Bit(Shr(x, n), k) == Bit(x, k + n)
    decreases n
  {
    if n > 0 { ShrBit(x / 2, n - 1, k); }
  }

  lemma {:induction false} LowBit(x: nat, n: nat, k: nat)
    ensures Bit(Low(x, n), k) == (k < n && Bit(x, k))
    decreases n
  {
    if n == 0 {
      ZeroBit(k);
    } else if k > 0 {
      LowBit(x / 2, n - 1, k - 1);
    }
  }

  // `>>` divides and masking takes the remainder.
  lemma {:induction false} ShrLow(x: nat, n: nat)
    ensures Shr(x, n) == x / Pow2(n) && Low(x, n) == x % Pow2(n)
    decreases n
  {
    if n > 0 {
      ShrLow(x / 2, n - 1);
      DivTwice(x, Pow2(n - 1));
    }
  }

  lemma DivTwice(x: nat, p: nat)
    requires p > 0
    ensures x / (2 * p) == x / 2 / p && x % (2 * p) == x % 2 + 2 * (x / 2 % p)
  {
    var h := x / 2;
    var q, r := h / p, h % p;
    assert h == q * p + r;
    MulTwo(q, p);
    DivUnique(x, 2 * p, q, 2 * r + x % 2);
  }

  lemma MulTwo(q: nat, p: nat)
    ensures q * (2 * p) == 2 * (q * p)
  {
  }

  lemma {:induction false} ZeroBit(k: nat)
    ensures !Bit(0, k)
    decreases k
  {
    if k > 0 { ZeroBit(k - 1); }
  }

  lemma {:induction false} PowBit(n: nat, k: nat)
    ensures Bit(Pow2(n), k) == (k == n)
    decreases n
  {
    if n == 0 {
      if k > 0 { ZeroBit(k - 1); }
    } else if k > 0 {
      PowBit(n - 1, k - 1);
    }
  }

  lemma {:induction false} OrBit(x: nat, y: nat, k: nat)
    ensures Bit(Or(x, y), k) == (Bit(x, k) || Bit(y, k))
    decreases k
  {
    ZeroBit(k);
    if x != 0 && y != 0 && k > 0 { OrBit(x / 2, y / 2, k - 1); }
  }

  lemma {:induction false} XorBit(x: nat, y: nat, k: nat)
    ensures Bit(Xor(x, y), k) == (Bit(x, k) != Bit(y, k))
    decreases k
  {
    ZeroBit(k);
    if x != 0 && y != 0 && k > 0 { XorBit(x / 2, y / 2, k - 1); }
  }

  // Complement of an n-bit word (the C operator `~`).
  lemma {:induction false} NotBit(x: nat, n: nat, k: nat)
    requires x < Pow2(n) && k < n
    ensures Bit(Pow2(n) - 1 - x, k) == !Bit(x, k)
    decreases n
  {
    var m := Pow2(n - 1);
    assert Pow2(n) - 1 - x == 2 * (m - 1 - x / 2) + (1 - x % 2);
    if k > 0 { NotBit(x / 2, n - 1, k - 1); }
  }

  lemma {:induction false} BoundBit(x: nat, n: nat, k: nat)
    requires x < Pow2(n) && n <= k
    ensures !Bit(x, k)
    decreases n
  {
    if n == 0 { ZeroBit(k); } else { BoundBit(x / 2, n - 1, k - 1); }
  }

  lemma {:induction false} OrBound(x: nat, y: nat, n: nat)
    requires x < Pow2(n) && y < Pow2(n)
    ensures Or(x, y) < Pow2(n)
    decreases n
  {
    if x != 0 && y != 0 { OrBound(x / 2, y / 2, n - 1); }
  }

  lemma {:induction false} XorBound(x: nat, y: nat, n: nat)
    requires x < Pow2(n) && y < Pow2(n)
    ensures Xor(x, y) < Pow2(n)
    decreases n
  {
    if x != 0 && y != 0 { XorBound(x / 2, y / 2, n - 1); }
  }

  lemma {:induction false} FromBitsBit(bits: seq<bool>, k: nat)
    ensures FromBits(bits) < Pow2(|bits|)
    ensures Bit(FromBits(bits), k) == (k < |bits| && bits[k])
    decreases |bits|
  {
    if |bits| == 0 {
      ZeroBit(k);
    } else {
      var rest := FromBits(bits[1..]);
      assert FromBits(bits) / 2 == rest && FromBits(bits) % 2 == BitValue(bits[0]);
      FromBitsBit(bits[1..], if k > 0 then k - 1 else 0);
    }
  }

  // Extensionality: an n-bit word is determined by its n bits.
  lemma {:induction false} SameBitsEqual(x: nat, y: nat, n: nat)
    requires x < Pow2(n) && y < Pow2(n)
    requires forall k | 0 <= k < n :: Bit(x, k) == Bit(y, k)
    ensures x == y
    decreases n
  {
    if n > 0 {
      assert Bit(x, 0) == Bit(y, 0);
      forall k | 0 <= k < n - 1 ensures Bit(x / 2, k) == Bit(y / 2, k) {
        assert Bit(x, k + 1) == Bit(y, k + 1);
      }
      SameBitsEqual(x / 2, y / 2, n - 1);
    }
  }

  // XOR-ing twice with the same value is the identity: a row delta can be undone.
  lemma {:induction false} XorUndo(x: nat, y: nat)
    ensures Xor(Xor(x, y), y) == x
    decreases x + y
  {
    if x != 0 && y != 0 {
      var z := Xor(x, y);
      assert z / 2 == Xor(x / 2, y / 2) && z % 2 == BitValue(x % 2 != y % 2);
      XorUndo(x / 2, y / 2);
    } else if x == 0 && y != 0 {
      XorSelf(y);
    }
  }

  lemma {:induction false} ShrBound(x: nat, n: nat)
    ensures Shr(x, n) <= x
    decreases n
  {
    if n > 0 { ShrBound(x / 2, n - 1); }
  }

  lemma {:induction false} XorSelf(y: nat)
    ensures Xor(y, y) == 0
  {
    if y != 0 { XorSelf(y / 2); }
  }

  lemma BytePow()
    ensures Pow2(8) == 256 && Pow2(3) == 8 && Pow2(2) == 4 && Pow2(1) == 2 && Pow2(0) == 1
    ensures Pow2(4) == 16 && Pow2(5) == 32 && Pow2(6) == 64 && Pow2(7) == 128
  {
    assert Pow2(3) == 8;
    assert Pow2(5) == 32;
    assert Pow2(7) == 128;
  }
}
