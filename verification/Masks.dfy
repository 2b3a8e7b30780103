/** Numbers under a mask, bit by bit: which agree, how many there are, and what a prefix mask comes to. */
module Masks {

  /** The bits of x where mask has a one. */
  function Masked(x: nat, mask: nat): nat {
    if mask == 0 then 0
    else 2 * Masked(x / 2, mask / 2) + if x % 2 == 1 && mask % 2 == 1 then 1 else 0
  }

  function Pow2(n: nat): (p: nat)
    ensures p > 0
  {
    if n == 0 then 1 else 2 * Pow2(n - 1)
  }

  /** How many numbers of so many bits agree with a given one under the mask. */
  function Reach(mask: nat, bits: nat): (n: nat)
    ensures n > 0
  {
    if bits == 0 then 1
    else if mask % 2 == 1 then Reach(mask / 2, bits - 1)
    else 2 * Reach(mask / 2, bits - 1)
  }

  /** The i-th of them: the bits of dest under the mask, and those of i in the other places. */
  function Member(i: nat, mask: nat, dest: nat, bits: nat): nat {
    if bits == 0 then 0
    else if mask % 2 == 1 then 2 * Member(i, mask / 2, dest / 2, bits - 1) + dest % 2
    else 2 * Member(i / 2, mask / 2, dest / 2, bits - 1) + i % 2
  }

  /** Each of them agrees, no two are the same, and there are no others. */
  lemma {:induction false} MemberMatches(i: nat, mask: nat, dest: nat, bits: nat)
    requires mask < Pow2(bits)
    ensures Member(i, mask, dest, bits) < Pow2(bits)
    ensures Masked(Member(i, mask, dest, bits), mask) == Masked(dest, mask)
  {
    hide Masked;
    if bits == 0 {
      NoMask(0);
      NoMask(dest);
    } else {
      var k := if mask % 2 == 1 then i else i / 2;
      MemberMatches(k, mask / 2, dest / 2, bits - 1);
      NextBit(Member(i, mask, dest, bits), mask / 2);
      NextBit(dest, mask / 2);
    }
  }

  lemma {:induction false} MembersDiffer(i: nat, j: nat, mask: nat, dest: nat, bits: nat)
    requires i < j < Reach(mask, bits)
    ensures Member(i, mask, dest, bits) != Member(j, mask, dest, bits)
  {
    if mask % 2 == 1 {
      MembersDiffer(i, j, mask / 2, dest / 2, bits - 1);
    } else if i / 2 < j / 2 {
      MembersDiffer(i / 2, j / 2, mask / 2, dest / 2, bits - 1);
    }
  }

  lemma {:induction false} MatchIsMember(x: nat, mask: nat, dest: nat, bits: nat) returns (i: nat)
    requires mask < Pow2(bits) && x < Pow2(bits) && Masked(x, mask) == Masked(dest, mask)
    ensures i < Reach(mask, bits) && Member(i, mask, dest, bits) == x
  {
    hide Masked;
    if bits == 0 {
      i := 0;
    } else {
      NextBit(x, mask / 2);
      NextBit(dest, mask / 2);
      var k := MatchIsMember(x / 2, mask / 2, dest / 2, bits - 1);
      i := if mask % 2 == 1 then k else 2 * k + x % 2;
    }
  }

  lemma {:induction false} ReachOfNoMask(bits: nat)
    ensures Reach(0, bits) == Pow2(bits)
  {
    if bits > 0 {
      ReachOfNoMask(bits - 1);
    }
  }

  // ---------- Prefix masks ----------

  /** The first number of the block of so many numbers that x lies in. */
  function BlockStart(x: nat, size: nat): nat
    requires size > 0
  {
    x / size * size
  }

  lemma SameBlock(x: nat, y: nat, size: nat)
    requires size > 0
    ensures BlockStart(x, size) == BlockStart(y, size) <==> x / size == y / size
  {
    SameMultiple(x / size, y / size, size);
  }

  lemma SameMultiple(m: nat, n: nat, size: nat)
    requires size > 0
    ensures m * size == n * size <==> m == n
  {
  }

  /** A mask with only its last bits zero takes a number to the start of its block. */
  lemma {:induction false} PrefixMask(x: nat, zeros: nat, bits: nat)
    requires zeros <= bits && x < Pow2(bits)
    ensures Pow2(zeros) <= Pow2(bits)
    ensures Masked(x, Pow2(bits) - Pow2(zeros)) == BlockStart(x, Pow2(zeros))
  {
    hide Pow2, Masked, BlockStart;
    if zeros == bits {
      FirstBlock(x, Pow2(bits));
      NoMask(x);
    } else if zeros == 0 {
      Doubled(bits);
      PrefixMask(x / 2, 0, bits - 1);
      NextBit(x, Pow2(bits - 1) - 1);
      NoZeros();
      BlocksOfOne(x);
      BlocksOfOne(x / 2);
    } else {
      Doubled(bits);
      Doubled(zeros);
      PrefixMask(x / 2, zeros - 1, bits - 1);
      NextBit(x, Pow2(bits - 1) - Pow2(zeros - 1));
      HalvedBlock(x, Pow2(zeros - 1));
    }
  }

  lemma {:induction false} NoMask(x: nat)
    ensures Masked(x, 0) == 0
  {
  }

  lemma {:induction false} NoZeros()
    ensures Pow2(0) == 1
  {
  }

  lemma {:induction false} Doubled(n: nat)
    requires n > 0
    ensures Pow2(n) == 2 * Pow2(n - 1)
  {
  }

  lemma {:induction false} NextBit(x: nat, mask: nat)
    ensures Masked(x, 2 * mask) == 2 * Masked(x / 2, mask)
    ensures Masked(x, 2 * mask + 1) == 2 * Masked(x / 2, mask) + x % 2
  {
  }

  lemma FirstBlock(x: nat, size: nat)
    requires x < size
    ensures BlockStart(x, size) == 0
  {
  }

  lemma BlocksOfOne(x: nat)
    ensures BlockStart(x, 1) == x
  {
  }

  lemma HalvedBlock(x: nat, size: nat)
    requires size > 0
    ensures BlockStart(x, 2 * size) == 2 * BlockStart(x / 2, size)
  {
    var q, rest := x / 2 / size, x / 2 % size;
    assert x / 2 == q * size + rest;
    Quotient(x, 2 * size, q, 2 * rest + x % 2);
  }

  lemma Quotient(x: nat, size: nat, q: nat, rest: nat)
    requires rest < size && x == q * size + rest
    ensures x / size == q
  {
    if x / size < q {
      MoreBlocks(x / size + 1, q, size);
    } else if x / size > q {
      MoreBlocks(q + 1, x / size, size);
    }
  }

  lemma MoreBlocks(m: nat, n: nat, size: nat)
    requires m <= n
    ensures m * size <= n * size
  {
  }
}
