/** 64-bit words and the bit operations the memory manager applies to them.

    Words are modelled as natural numbers. `w & ~0xFFF`, `w & 1` and `(w >> k) & 0x1FF` are written as
    division and remainder by powers of two; `|` is defined bit by bit.
 */
module Words {
  const PAGE_SIZE: nat := 4096

  /** `w & ~0xFFF`: the word with its low twelve bits cleared. */
  function PageBase(w: nat): nat {
    w / 4096 * 4096
  }

  /** Bitwise or. */
  function Or(a: nat, b: nat): nat {
    if a == 0 then b
    else if b == 0 then a
    else 2 * Or(a / 2, b / 2) + (if a % 2 == 1 || b % 2 == 1 then 1 else 0)
  }

  function Shr(a: nat, n: nat): nat
    decreases n
  {
    if n == 0 then a else Shr(a / 2, n - 1)
  }

  lemma {:induction false} OrShr(a: nat, b: nat, n: nat)
    ensures Shr(Or(a, b), n) == Or(Shr(a, n), Shr(b, n))
    decreases n
  {
    if n > 0 {
      assert Or(a, b) / 2 == Or(a / 2, b / 2);
      OrShr(a / 2, b / 2, n - 1);
    }
  }

  lemma {:induction false} Shr12(a: nat)
    ensures Shr(a, 12) == a / 4096
  {
    assert Shr(a, 12) == Shr(a / 2 / 2 / 2 / 2, 8) == Shr(a / 16 / 2 / 2 / 2 / 2, 4);
    assert Shr(a / 256, 4) == a / 256 / 2 / 2 / 2 / 2;
  }

  /** Masking distributes over `|`: what a page-table word gives back is the or of the masked parts. */
  lemma {:induction false} PageBaseOfOr(p: nat, f: nat)
    ensures PageBase(Or(p, f)) == 4096 * Or(p / 4096, f / 4096)
  {
    OrShr(p, f, 12);
    Shr12(Or(p, f));
    Shr12(p);
    Shr12(f);
  }

  lemma {:induction false} OrDisjoint(x: nat, f: nat, n: nat)
    requires Shr(f, n) == 0
    ensures Or(Shl(x, n), f) == Shl(x, n) + f
    decreases n
  {
    if n == 0 {
      assert f == 0;
    } else {
      OrDisjoint(x, f / 2, n - 1);
    }
  }

  function Shl(a: nat, n: nat): nat
    decreases n
  {
    if n == 0 then a else 2 * Shl(a, n - 1)
  }

  /** A page-aligned address and flags in bits 0..11 occupy different bits, so `|` adds them. */
  lemma {:induction false} OrAligned(p: nat, f: nat)
    requires p % 4096 == 0 && f < 4096
    ensures Or(p, f) == p + f
  {
    Shr12(f);
    OrDisjoint(p / 4096, f, 12);
    var x := p / 4096;
    assert Shl(x, 12) == 16 * Shl(x, 8) == 256 * Shl(x, 4) == 4096 * x;
  }
}
