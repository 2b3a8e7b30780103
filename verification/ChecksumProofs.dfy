/** cksum computes the RFC 1071 checksum exactly as long as its accumulator does not overflow, and
    the receiver's check of sr_ip.c is the RFC rule except for a stored zero. */
module ChecksumProofs {
  import opened Bytes
  import opened Checksum

  /** The longest buffer whose words cannot overflow the 32-bit accumulator. */
  const SAFE_LENGTH: nat := 131074

  /** cksum takes its length as a 32-bit int. */
  const INT_RANGE: nat := 0x8000_0000

  // ---------- Sums ----------

  lemma {:induction false} RawSumBound(data: seq<Byte>)
    ensures 2 * RawSum(data) <= 0xffff * |data| + (if |data| % 2 == 1 then 0xff00 + 0xff else 0)
  {
    if |data| >= 2 {
      RawSumBound(data[2..]);
    }
  }

  function AllOnes(length: nat): (data: seq<Byte>)
    ensures |data| == length
  {
    seq(length, _ => 0xff)
  }

  lemma {:induction false} RawSumOfAllOnes(length: nat)
    ensures RawSum(AllOnes(length)) == 0xffff * (length / 2) + 0xff00 * (length % 2)
  {
    if length >= 2 {
      assert AllOnes(length)[2..] == AllOnes(length - 2);
      RawSumOfAllOnes(length - 2);
    }
  }

  /** 131074 bytes is the exact bound: no such buffer overflows the accumulator, and for every greater
      length some buffer does. */
  lemma SafeLengthIsExact(length: nat)
    ensures length <= SAFE_LENGTH <==> forall data: seq<Byte> :: |data| == length ==> RawSum(data) < ACCUMULATOR
  {
    if length <= SAFE_LENGTH {
      forall data: seq<Byte> | |data| == length
        ensures RawSum(data) < ACCUMULATOR
      {
        RawSumBound(data);
      }
    } else {
      RawSumOfAllOnes(length);
      assert RawSum(AllOnes(length)) >= ACCUMULATOR;
    }
  }

  lemma OnesAddFolds(word: Word16, rest: nat)
    ensures OnesAdd(word, Folded(rest)) == Folded(word + rest)
  {
  }

  /** One's-complement addition word by word is the plain sum folded once at the end. */
  lemma {:induction false} OnesSumIsFoldedSum(data: seq<Byte>)
    ensures OnesSum(Words(data)) == Folded(RawSum(data))
  {
    if |data| >= 2 {
      OnesSumIsFoldedSum(data[2..]);
      assert Words(data)[1..] == Words(data[2..]);
      OnesAddFolds(Word(data[0], data[1]), RawSum(data[2..]));
    } else if |data| == 1 {
      OnesAddFolds(Word(data[0], 0), 0);
    }
  }

  // ---------- cksum and RFC 1071 ----------

  /** Only the residue of the sum modulo 0xffff matters to the result. */
  lemma ComplementByResidue(sum: nat)
    ensures Complement(Folded(sum)) == 0xffff - sum % 0xffff
  {
  }

  /** The RFC checksum with its zero sent as all ones. */
  function Rfc1071NonZero(data: seq<Byte>): Word16 {
    if Rfc1071(data) == 0 then 0xffff else Rfc1071(data)
  }

  lemma {:induction false} Rfc1071ByResidue(data: seq<Byte>)
    ensures Rfc1071NonZero(data) == 0xffff - RawSum(data) % 0xffff
  {
    OnesSumIsFoldedSum(data);
    ComplementByResidue(RawSum(data));
  }

  /** For every buffer cksum can be called on, it returns the RFC 1071 checksum (zero as 0xffff) exactly
      when the sum of the words fits the accumulator. */
  lemma {:induction false} CksumIsRfc1071Exactly(data: seq<Byte>)
    requires |data| < INT_RANGE
    ensures Cksum(data) == Rfc1071NonZero(data) <==> RawSum(data) < ACCUMULATOR
  {
    var sum := RawSum(data);
    RawSumBound(data);
    Rfc1071ByResidue(data);
    ComplementByResidue(sum % ACCUMULATOR);
    LostCarries(sum);
  }

  lemma LostCarries(sum: nat)
    requires sum / ACCUMULATOR < 0xffff
    ensures (sum % ACCUMULATOR) % 0xffff == sum % 0xffff <==> sum < ACCUMULATOR
  {
    var lost, kept := sum / ACCUMULATOR, sum % ACCUMULATOR;
    assert sum == 0xffff * (0x1_0001 * lost) + (lost + kept);
  }

  lemma {:induction false} CksumIsRfc1071(data: seq<Byte>)
    requires |data| <= SAFE_LENGTH
    ensures Cksum(data) == Rfc1071NonZero(data)
    ensures Cksum(data) == 0xffff - RawSum(data) % 0xffff
  {
    hide Cksum, Rfc1071NonZero, RawSum;
    RawSumBound(data);
    FitsAccumulator(RawSum(data), |data|);
    CksumIsRfc1071Exactly(data);
    Rfc1071ByResidue(data);
  }

  lemma FitsAccumulator(sum: nat, length: nat)
    requires length <= SAFE_LENGTH
    requires 2 * sum <= 0xffff * length + (if length % 2 == 1 then 0xff00 + 0xff else 0)
    ensures sum < ACCUMULATOR
  {
  }

  // ---------- The header checksum field ----------

  lemma {:induction false} PutWordMovesSum(data: seq<Byte>, i: nat, word: Word16)
    requires 2 * i + 1 < |data|
    ensures RawSum(PutWord(data, i, word)) + WordAt(data, i) == RawSum(data) + word
    ensures WordAt(PutWord(data, i, word), i) == word
  {
    if i > 0 {
      assert PutWord(data, i, word)[2..] == PutWord(data[2..], i - 1, word);
      PutWordMovesSum(data[2..], i - 1, word);
    } else {
      assert PutWord(data, i, word)[2..] == data[2..];
    }
  }

  lemma PutWordElsewhere(data: seq<Byte>, i: nat, word: Word16, j: nat)
    requires 2 * i + 1 < |data| && 2 * j + 1 < |data| && i != j
    ensures WordAt(PutWord(data, i, word), j) == WordAt(data, j)
  {
  }

  lemma {:induction false} TwoWordsInSum(data: seq<Byte>, i: nat, j: nat)
    requires 2 * i + 1 < |data| && 2 * j + 1 < |data| && i != j
    ensures RawSum(data) >= WordAt(data, i) + WordAt(data, j)
  {
    hide RawSum, PutWord, WordAt;
    PutWordElsewhere(data, i, 0, j);
    PutWordMovesSum(data, i, 0);
    PutWordMovesSum(PutWord(data, i, 0), j, 0);
  }

  /** The checksum of an IP header is its sixth word. */
  const SUM: nat := 5

  predicate IsHeader(h: seq<Byte>) {
    2 * SUM + 1 < |h| <= SAFE_LENGTH
  }

  /** The test of validate_checksum: cksum over the header with the field zeroed equals the field. */
  predicate Validates(h: seq<Byte>)
    requires IsHeader(h)
  {
    Cksum(PutWord(h, SUM, 0)) == WordAt(h, SUM)
  }

  /** The sum of everything but the checksum, and what the checksum must be. */
  lemma {:induction false} ValidatesByResidue(h: seq<Byte>)
    requires IsHeader(h)
    ensures RawSum(h) >= WordAt(h, SUM)
    ensures Validates(h) <==> WordAt(h, SUM) == 0xffff - (RawSum(h) - WordAt(h, SUM)) % 0xffff
  {
    hide RawSum, PutWord, WordAt, Cksum, Rfc1071NonZero;
    PutWordMovesSum(h, SUM, 0);
    CksumIsRfc1071(PutWord(h, SUM, 0));
  }

  lemma {:induction false} ReceiverByResidue(h: seq<Byte>)
    ensures ReceiverAccepts(h) <==> RawSum(h) > 0 && RawSum(h) % 0xffff == 0
  {
    hide RawSum, Folded, OnesSum, Words;
    OnesSumIsFoldedSum(h);
    FoldedToAllOnes(RawSum(h));
  }

  lemma FoldedToAllOnes(sum: nat)
    ensures Folded(sum) == 0xffff <==> sum > 0 && sum % 0xffff == 0
  {
  }

  /** The code accepts a header exactly if the RFC 1071 receiver does and the stored field is not zero. */
  lemma ValidatesExactly(h: seq<Byte>)
    requires IsHeader(h)
    ensures Validates(h) <==> ReceiverAccepts(h) && WordAt(h, SUM) != 0
  {
    hide RawSum, WordAt, Validates, ReceiverAccepts;
    ValidatesByResidue(h);
    ReceiverByResidue(h);
    Opposites(RawSum(h) - WordAt(h, SUM), WordAt(h, SUM));
  }

  lemma Opposites(rest: nat, field: Word16)
    ensures field == 0xffff - rest % 0xffff <==> field != 0 && (rest + field) % 0xffff == 0
  {
  }

  /** A header whose field was filled in by cksum over the zeroed field is always accepted. */
  lemma FilledHeaderValidates(h: seq<Byte>)
    requires IsHeader(h)
    ensures Validates(PutWord(h, SUM, Cksum(PutWord(h, SUM, 0))))
  {
    var field := Cksum(PutWord(h, SUM, 0));
    hide Cksum, RawSum;
    PutWordMovesSum(h, SUM, field);
    assert PutWord(PutWord(h, SUM, field), SUM, 0) == PutWord(h, SUM, 0);
  }

  /** Changing one other word of an accepted header is noticed unless it swaps 0x0000 and 0xffff. */
  lemma OneWordChange(h: seq<Byte>, i: nat, word: Word16)
    requires IsHeader(h) && 2 * i + 1 < |h| && i != SUM
    requires Validates(h)
    ensures Validates(PutWord(h, i, word))
       <==> word == WordAt(h, i) || {word, WordAt(h, i)} == {0, 0xffff}
  {
    hide RawSum, PutWord, WordAt, Validates;
    TwoWordsInSum(h, i, SUM);
    PutWordElsewhere(h, i, word, SUM);
    PutWordMovesSum(h, i, word);
    ValidatesByResidue(h);
    ValidatesByResidue(PutWord(h, i, word));
    SameResidue(RawSum(h) - WordAt(h, SUM), WordAt(h, i), word);
  }

  lemma SameResidue(rest: nat, before: Word16, after: Word16)
    requires rest >= before
    ensures rest % 0xffff == (rest - before + after) % 0xffff <==> before == after || {before, after} == {0, 0xffff}
  {
  }

  /** Equation 3 of RFC 1624: the new checksum from the old one and the word that changed. */
  function Rfc1624(field: Word16, before: Word16, after: Word16): Word16 {
    0xffff - OnesAdd(OnesAdd(0xffff - field, 0xffff - before), after)
  }

  /** Recomputing the checksum after one word of a valid header changed gives the RFC 1624 update, with
      zero as 0xffff. */
  lemma RecomputedIsRfc1624(h: seq<Byte>, i: nat, word: Word16)
    requires IsHeader(h) && 2 * i + 1 < |h| && i != SUM
    requires ReceiverAccepts(h)
    ensures var update := Rfc1624(WordAt(h, SUM), WordAt(h, i), word);
            Cksum(PutWord(PutWord(h, i, word), SUM, 0)) == if update == 0 then 0xffff else update
  {
    hide RawSum, PutWord, WordAt, Cksum, Rfc1071NonZero, ReceiverAccepts, Rfc1624;
    TwoWordsInSum(h, i, SUM);
    PutWordElsewhere(h, i, word, SUM);
    PutWordMovesSum(h, i, word);
    PutWordMovesSum(PutWord(h, i, word), SUM, 0);
    CksumIsRfc1071(PutWord(PutWord(h, i, word), SUM, 0));
    ReceiverByResidue(h);
    IncrementalResidue(RawSum(h), WordAt(h, SUM), WordAt(h, i), word);
  }

  lemma IncrementalResidue(total: nat, field: Word16, before: Word16, after: Word16)
    requires total % 0xffff == 0 && total > 0 && total >= field + before
    ensures var update := Rfc1624(field, before, after);
            0xffff - (total - field - before + after) % 0xffff == if update == 0 then 0xffff else update
  {
    hide OnesAdd;
    var first := OnesAdd(0xffff - field, 0xffff - before);
    var sum := OnesAdd(first, after);
    var c1 := OnesAddCarries(0xffff - field, 0xffff - before);
    var c2 := OnesAddCarries(first, after);
    var q := total / 0xffff;
    assert total - field - before + after == sum + 0xffff * (q - 2 + c1 + c2);
    WholeMultiples(sum, q - 2 + c1 + c2);
    ResidueOfWord(sum);
  }

  /** A one's-complement sum is the plain sum less 0xffff for its carry. */
  lemma OnesAddCarries(x: Word16, y: Word16) returns (carry: nat)
    ensures OnesAdd(x, y) == x + y - 0xffff * carry
  {
    carry := if x + y > 0xffff then 1 else 0;
  }

  lemma WholeMultiples(x: nat, k: int)
    ensures (x + 0xffff * k) % 0xffff == x % 0xffff
  {
    var q, r := x / 0xffff, x % 0xffff;
    assert x + 0xffff * k == 0xffff * (q + k) + r;
  }

  lemma ResidueOfWord(x: Word16)
    ensures x % 0xffff == if x == 0xffff then 0 else x
  {
  }
}
