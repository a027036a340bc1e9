/** Machine words as natural numbers, with the bit operations of the modelled code. */
module Words {
  import opened Arithmetic

  type byte = x: nat | x < 0x100
  type uint32 = x: nat | x < 0x1_0000_0000
  type uint64 = x: nat | x < 0x1_0000_0000_0000_0000

  /** The number of bytes in the EEPROM of the console. */
  const EEPROM_SIZE := 256

  /** `1 << n` */
  function Pow2(n: nat): (p: nat)
    ensures p > 0
  {
    if n == 0 then 1 else 2 * Pow2(n - 1)
  }

  predicate Bit(w: nat, i: nat) {
    if i == 0 then w % 2 == 1 else Bit(w / 2, i - 1)
  }

  /** `a | b` */
  function Or(a: nat, b: nat): nat {
    if a == 0 && b == 0 then 0
    else 2 * Or(a / 2, b / 2) + if a % 2 == 1 || b % 2 == 1 then 1 else 0
  }

  /** `a & ~b` */
  function AndNot(a: nat, b: nat): nat {
    if a == 0 then 0
    else 2 * AndNot(a / 2, b / 2) + if a % 2 == 1 && b % 2 == 0 then 1 else 0
  }

  /** `a ^ b` */
  function Xor(a: nat, b: nat): nat {
    if a == 0 && b == 0 then 0
    else 2 * Xor(a / 2, b / 2) + if a % 2 != b % 2 then 1 else 0
  }

  /** The lowest bit of an exclusive or, and the others. */
  lemma XorHalves(a: nat, b: nat)
    ensures Xor(a, b) / 2 == Xor(a / 2, b / 2)
    ensures Xor(a, b) % 2 == if a % 2 != b % 2 then 1 else 0
  {
  }

  lemma {:induction false} XorTwice(a: nat, b: nat)
    ensures Xor(Xor(a, b), b) == a
  {
    if a == 0 && b == 0 {
    } else {
      XorTwice(a / 2, b / 2);
      XorHalves(a, b);
      XorHalves(Xor(a, b), b);
    }
  }

  lemma {:induction false} XorCommutes(a: nat, b: nat)
    ensures Xor(a, b) == Xor(b, a)
  {
    if a == 0 && b == 0 {
    } else {
      XorCommutes(a / 2, b / 2);
    }
  }

  lemma {:induction false} OrBits(a: nat, b: nat, i: nat)
    ensures Bit(Or(a, b), i) <==> Bit(a, i) || Bit(b, i)
  {
    if a == 0 && b == 0 {
      ZeroBits(i);
    } else if i > 0 {
      OrBits(a / 2, b / 2, i - 1);
    }
  }

  lemma {:induction false} AndNotBits(a: nat, b: nat, i: nat)
    ensures Bit(AndNot(a, b), i) <==> Bit(a, i) && !Bit(b, i)
  {
    if a == 0 {
      ZeroBits(i);
    } else if i > 0 {
      AndNotBits(a / 2, b / 2, i - 1);
    }
  }

  lemma {:induction false} XorBits(a: nat, b: nat, i: nat)
    ensures Bit(Xor(a, b), i) <==> Bit(a, i) != Bit(b, i)
  {
    if a == 0 && b == 0 {
      ZeroBits(i);
    } else {
      XorHalves(a, b);
      if i > 0 {
        XorBits(a / 2, b / 2, i - 1);
      }
    }
  }

  /** Bit i is the remainder of dividing by two what is left after i halvings. */
  lemma {:induction false} BitIs(w: nat, i: nat)
    ensures Bit(w, i) <==> w / Pow2(i) % 2 == 1
  {
    if i == 0 {
      assert w / 1 == w;
    } else {
      BitIs(w / 2, i - 1);
      HalveFirst(w, Pow2(i - 1));
    }
  }

  lemma HalveFirst(w: nat, p: nat)
    requires p > 0
    ensures w / (2 * p) == w / 2 / p
  {
    var q := w / 2 / p;
    assert w / 2 == q * p + w / 2 % p;
    assert w == 2 * (w / 2) + w % 2;
    assert 2 * (q * p) == q * (2 * p);
    QuotientUnique(w, q, 2 * p);
  }

  lemma {:induction false} ZeroBits(i: nat)
    ensures !Bit(0, i)
  {
    if i == 0 {
    } else {
      ZeroBits(i - 1);
    }
  }

  /** `1 << n` has exactly bit n. */
  lemma {:induction false} Pow2Bits(n: nat, i: nat)
    ensures Bit(Pow2(n), i) <==> i == n
  {
    if n == 0 && i > 0 {
      ZeroBits(i - 1);
    } else if n > 0 && i > 0 {
      Pow2Bits(n - 1, i - 1);
    }
  }

  /** The operations stay within the word. */
  lemma {:induction false} OpsFit(a: nat, b: nat, n: nat)
    requires a < Pow2(n) && b < Pow2(n)
    ensures Or(a, b) < Pow2(n) && AndNot(a, b) < Pow2(n) && Xor(a, b) < Pow2(n)
  {
    if n == 0 {
    } else {
      OpsFit(a / 2, b / 2, n - 1);
    }
  }

  lemma {:induction false} Pow2Less(m: nat, n: nat)
    requires m < n
    ensures Pow2(m) < Pow2(n)
  {
    if m == n - 1 {
    } else {
      Pow2Less(m, n - 1);
    }
  }

  lemma WordSizes()
    ensures Pow2(8) == 0x100 && Pow2(32) == 0x1_0000_0000 && Pow2(64) == 0x1_0000_0000_0000_0000
  {
    assert Pow2(8) == 0x100;
    assert Pow2(16) == 0x1_0000;
    assert Pow2(24) == 0x100_0000;
    assert Pow2(32) == 0x1_0000_0000;
    assert Pow2(40) == 0x100_0000_0000;
    assert Pow2(48) == 0x1_0000_0000_0000;
    assert Pow2(56) == 0x100_0000_0000_0000;
  }

  /** Setting or clearing bit i of a 32-bit word. */
  lemma WordUpdate(w: uint32, i: nat)
    requires i < 32
    ensures Or(w, Pow2(i)) < 0x1_0000_0000 && AndNot(w, Pow2(i)) < 0x1_0000_0000
    ensures forall j :: 0 <= j < 32 ==> (Bit(Or(w, Pow2(i)), j) <==> j == i || Bit(w, j))
    ensures forall j :: 0 <= j < 32 ==> (Bit(AndNot(w, Pow2(i)), j) <==> j != i && Bit(w, j))
  {
    WordSizes();
    Pow2Less(i, 32);
    OpsFit(w, Pow2(i), 32);
    forall j | 0 <= j < 32
      ensures Bit(Or(w, Pow2(i)), j) <==> j == i || Bit(w, j)
      ensures Bit(AndNot(w, Pow2(i)), j) <==> j != i && Bit(w, j)
    {
      OrBits(w, Pow2(i), j);
      AndNotBits(w, Pow2(i), j);
      Pow2Bits(i, j);
    }
  }
}
