/** Address arithmetic of the database module: the bounds test, offsets
    from the base address, the ordered range a block read covers, and the
    alignment exponent `set.alignment` works out when none is given. The
    database bounds and base address come from the host and are inputs. */
module Addresses {
  import opened Common
  import Integers

  /** `within(ea)` against the database bounds `[left, right)`. */
  predicate Within(left: Addr, right: Addr, ea: Addr)
  {
    left <= ea < right
  }

  /** `offset(ea)`: the distance of `ea` from the base address. */
  function Offset(base: Addr, ea: Addr): (off: int)
    ensures off >= 0 <==> base <= ea
    ensures off == 0 <==> ea == base
  {
    ea - base
  }

  /** `translate(offset)`: the address `offset` bytes past the base address. */
  function Translate(base: Addr, off: int): (ea: Addr)
    ensures Offset(base, ea) == off
  {
    base + off
  }

  /** The offset of an address, translated back, is that address. */
  lemma {:induction false} OffsetThenTranslate(base: Addr, ea: Addr)
    ensures Translate(base, Offset(base, ea)) == ea
  {
  }

  /** `block(start, end)`: the start and size of the read, the bounds put in order first. */
  function Block(start: Addr, end: Addr): (r: (Addr, nat))
    ensures r.0 == if start <= end then start else end
    ensures r.0 + r.1 == if start <= end then end else start
  {
    if start > end then (end, start - end) else (start, end - start)
  }

  lemma {:induction false} BlockIsSymmetric(start: Addr, end: Addr)
    ensures Block(start, end) == Block(end, start)
  {
  }

  /** When both ends lie within the database, so does every address the
      block reads, whichever order the ends are given in. */
  lemma {:induction false} BlockIsWithin(left: Addr, right: Addr, start: Addr, end: Addr)
    requires Within(left, right, start) && Within(left, right, end)
    ensures forall ea :: Block(start, end).0 <= ea < Block(start, end).0 + Block(start, end).1 ==> Within(left, right, ea)
    ensures Within(left, right, Block(start, end).0)
  {
  }

  /** The brute-force branch of `set.alignment`: starting from 13, the
      largest exponent `e > 0` whose `2**e` divides the end of the item,
      or 0 when none does. `target & (2**e - 1)` is `target % 2**e` for every
      integer, negative ones included. */
  method AlignmentExponent(target: int) returns (e: nat)
    ensures e <= 13
    ensures e > 0 ==> target % Integers.Pow2(e) == 0
    ensures forall e' :: e < e' <= 13 ==> target % Integers.Pow2(e') != 0
  {
    e := 13;
    while e > 0
      invariant e <= 13
      invariant forall e' :: e < e' <= 13 ==> target % Integers.Pow2(e') != 0
      decreases e
    {
      if target % Integers.Pow2(e) == 0 {
        break;
      }
      e := e - 1;
    }
  }

  /** The exponent is zero exactly for an odd end address. */
  lemma {:induction false} OddTargetIsUnaligned(target: int)
    ensures target % 2 == 1 <==> forall e' :: 0 < e' <= 13 ==> target % Integers.Pow2(e') != 0
  {
    assert Integers.Pow2(1) == 2;
    if target % 2 == 1 {
      forall e' | 0 < e' <= 13 ensures target % Integers.Pow2(e') != 0 {
        Integers.Pow2Add(1, e' - 1);
        OddIsNotEvenMultiple(target, Integers.Pow2(e' - 1));
      }
    }
  }

  /** An odd number is no multiple of an even one. */
  lemma {:induction false} OddIsNotEvenMultiple(m: int, p: int)
    requires p > 0 && m % 2 == 1
    ensures m % (2 * p) != 0
  {
    var q, r := m / (2 * p), m % (2 * p);
    var x := p * q;
    assert (2 * p) * q == 2 * x;
    assert m == 2 * x + r;
  }
}
