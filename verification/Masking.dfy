/** Walking a power-of-two table with an unsigned hash value that is masked at every step
    (dict.c:103-104, 129-131, 148-154). */
module Masking {

  /** Number of values of the C type unsigned long, which hash values wrap around in. */
  const WORD: nat := 0x1_0000_0000_0000_0000

  function Next(i: nat, size: nat): nat {
    if i + 1 == size then 0 else i + 1
  }

  function Prev(i: nat, size: nat): nat
    requires size > 0
  {
    if i == 0 then size - 1 else i - 1
  }

  predicate PowerOfTwo(n: nat) {
    n == 1 || (n > 0 && n % 2 == 0 && PowerOfTwo(n / 2))
  }

  lemma MulAtLeast(a: int, size: int)
    requires a >= 1 && size >= 0
    ensures a * size >= size
  {}

  lemma RemainderIs(x: int, q: int, size: nat, r: nat)
    requires x == q * size + r && r < size
    ensures x % size == r
  {
    var q', r' := x / size, x % size;
    assert x == size * q' + r';
    assert (q - q') * size == r' - r;
    if q > q' {
      MulAtLeast(q - q', size);
    } else if q < q' {
      MulAtLeast(q' - q, size);
    }
  }

  lemma {:induction false} PowerMultiple(size: nat, k: nat) returns (m: nat)
    requires PowerOfTwo(size) && PowerOfTwo(k) && size <= k
    ensures k == m * size
  {
    if size < k {
      HalfPower(size, k);
      var h := PowerMultiple(size, k / 2);
      m := 2 * h;
    } else {
      m := 1;
    }
  }

  lemma {:induction false} HalfPower(size: nat, k: nat)
    requires PowerOfTwo(size) && PowerOfTwo(k) && size < k
    ensures size <= k / 2
  {
    if size > 1 {
      HalfPower(size / 2, k / 2);
    }
  }

  lemma StepForward(h: nat, size: nat, word: nat, m: nat)
    requires size > 0 && word == m * size && h < word
    ensures ((h + 1) % word) % size == Next(h % size, size)
  {
    var q, r := h / size, h % size;
    assert h == q * size + r;
    assert (q + 1) * size == q * size + size;
    if h + 1 == word {
      assert (m - 1) * size == m * size - size;
      RemainderIs(h, m - 1, size, size - 1);
      RemainderIs(h + 1, 1, word, 0);
      RemainderIs(0, 0, size, 0);
    } else {
      RemainderIs(h + 1, 0, word, h + 1);
      if r + 1 == size {
        RemainderIs(h + 1, q + 1, size, 0);
      } else {
        RemainderIs(h + 1, q, size, r + 1);
      }
    }
  }

  lemma StepBackward(h: nat, size: nat, word: nat, m: nat)
    requires size > 0 && word == m * size && h < word
    ensures ((h + word - 1) % word) % size == Prev(h % size, size)
  {
    var q, r := h / size, h % size;
    assert h == q * size + r;
    if h == 0 {
      assert (m - 1) * size == m * size - size;
      RemainderIs(word - 1, 0, word, word - 1);
      RemainderIs(word - 1, m - 1, size, size - 1);
      RemainderIs(0, 0, size, 0);
    } else {
      RemainderIs(h + word - 1, 1, word, h - 1);
      if r == 0 {
        assert (q - 1) * size == q * size - size;
        RemainderIs(h - 1, q - 1, size, size - 1);
      } else {
        RemainderIs(h - 1, q, size, r - 1);
      }
    }
  }

  lemma {:induction false} PowerProduct(a: nat, b: nat)
    requires PowerOfTwo(a) && PowerOfTwo(b)
    ensures PowerOfTwo(a * b)
  {
    if a > 1 {
      PowerProduct(a / 2, b);
      assert a * b == 2 * (a / 2 * b);
    } else {
      assert a * b == b;
    }
  }

  lemma WordIsPower()
    ensures PowerOfTwo(WORD)
  {
    assert PowerOfTwo(0x1_0000);
    PowerProduct(0x1_0000, 0x1_0000);
    PowerProduct(0x1_0000_0000, 0x1_0000_0000);
  }

  /** n & mask: for a table whose size is a power of two, the remainder. */
  function Masked(n: nat, size: nat): (i: nat)
    requires size > 0
    ensures i < size
  {
    n % size
  }

  /** What n++ and n-- wrap around in.  A table has no more slots than unsigned long has values. */
  function Modulus(size: nat): nat {
    if size <= WORD then WORD else size
  }

  function Up(n: nat, size: nat): nat {
    (n + 1) % Modulus(size)
  }

  function Down(n: nat, size: nat): nat {
    (n + Modulus(size) - 1) % Modulus(size)
  }

  /** Stepping the unsigned hash value and masking it walks the slots cyclically, in both
      directions and across the wrap-around of unsigned long. */
  lemma MaskedStep(n: nat, size: nat)
    requires PowerOfTwo(size) && n < Modulus(size)
    ensures Up(n, size) < Modulus(size) && Masked(Up(n, size), size) == Next(Masked(n, size), size)
    ensures Down(n, size) < Modulus(size) && Masked(Down(n, size), size) == Prev(Masked(n, size), size)
  {
    WordIsPower();
    var m := 1;
    if size <= WORD {
      m := PowerMultiple(size, WORD);
    }
    StepForward(n, size, Modulus(size), m);
    StepBackward(n, size, Modulus(size), m);
  }

  lemma MaskedSlot(i: nat, size: nat)
    requires i < size
    ensures Masked(i, size) == i && i < Modulus(size)
  {}
}
